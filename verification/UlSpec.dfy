/** The uplink side of the scheduler as functions: Msg3 reservations, grants for new data, and
    the round-robin visit of the users. */
module UlSpec {
  import opened Timing
  import opened Table
  import opened DlSpec
  import opened Packing
  import opened SchedulerUe

  datatype UlKind = NewTx | Msg3

  datatype UlAlloc = UlAlloc(kind: UlKind, rnti: nat, mcs: nat, len: nat)

  datatype Outcome = Success | DciCollision | RbCollision | Error

  /** Subframes of an uplink block on 12 subcarriers. */
  const UL_LEN: nat := 4

  predicate HasUlAlloc(ul: seq<UlAlloc>, rnti: nat) {
    exists k :: 0 <= k < |ul| && ul[k].rnti == rnti
  }

  /** The subframes `start`, ..., `start + n - 1` are all free. */
  predicate FreeRun(t: Table, start: nat, n: nat) {
    forall i :: 0 <= i < n ==> !t[At(start, i)]
  }

  function Upto(n: nat): (r: seq<nat>)
    ensures |r| == n && forall i :: 0 <= i < n ==> r[i] == i
  {
    seq(n, i => i)
  }

  // ---------------------------------------------------------------- Msg3

  /** Where the slot parked for reception TTI `ttiRx` finds the RAR data subframe that announced it. */
  function RarDataOf(ttiRx: nat): nat {
    var dci := (TtiAdd(ttiRx, DL_DELAY) + RING - MSG3_DELAY) % RING;
    var first := (dci + 5) % RING;
    (first + StepsToValid(first)) % RING
  }

  /** First subframe of the Msg3 block. */
  function Msg3Start(ttiRx: nat): nat {
    RarDataOf(ttiRx) + 13
  }

  datatype UlOut = UlOut(ul: Table, allocs: seq<UlAlloc>, outcome: Outcome)

  function AllocMsg3(ul: Table, allocs: seq<UlAlloc>, ttiRx: nat, rnti: nat): UlOut {
    if HasUlAlloc(allocs, rnti) then UlOut(ul, allocs, Error)
    else if !FreeRun(ul, Msg3Start(ttiRx), UL_LEN) then UlOut(ul, allocs, RbCollision)
    else UlOut(Reserve(ul, Msg3Start(ttiRx), Upto(UL_LEN)), allocs + [UlAlloc(Msg3, rnti, 0, UL_LEN)], Success)
  }

  /** The slot parked by the RAR whose DCI is sent in `tx` recomputes that RAR's data subframe, at every
      TTI including the wrap, and its skip is at most two subframes. */
  lemma Msg3FollowsRar(tx: nat)
    requires tx >= DL_DELAY
    ensures var slotTti := At(0, tx - DL_DELAY) + MSG3_DELAY;
            && RarDataOf(slotTti) == At(At(0, tx), RarDataOffset(At(0, tx)))
            && 5 <= RarDataOffset(At(0, tx)) <= 7
            && forall i :: 0 <= i < UL_LEN ==> At(Msg3Start(slotTti), i) == At(0, tx + RarDataOffset(At(0, tx)) + 13 + i)
  {
    hide IsValidDlSf;
    var slotTti := At(0, tx - DL_DELAY) + MSG3_DELAY;
    var dci := (TtiAdd(slotTti, DL_DELAY) + RING - MSG3_DELAY) % RING;
    DciOfSlot(tx);
    assert dci == At(0, tx);
    var n := RarDataOffset(At(0, tx));
    AtAt(At(0, tx), 5, n - 5);
    assert RarDataOf(slotTti) == At(At(0, tx), n);
    AtAt(0, tx, n);
    hide RarDataOf, RarDataOffset;
    forall i | 0 <= i < UL_LEN ensures At(Msg3Start(slotTti), i) == At(0, tx + n + 13 + i) {
      AtAt(0, tx + n, 13 + i);
      assert Msg3Start(slotTti) == At(0, tx + n) + 13;
      assert At(Msg3Start(slotTti), i) == At(At(0, tx + n), 13 + i);
    }
  }

  lemma DciOfSlot(tx: nat)
    requires tx >= DL_DELAY
    ensures (TtiAdd(At(0, tx - DL_DELAY) + MSG3_DELAY, DL_DELAY) + RING - MSG3_DELAY) % RING == At(0, tx)
  {
    var a := tx - DL_DELAY;
    var q := a / RING;
    assert a == RING * q + At(0, a);
    var x := At(0, a) + 13;
    assert TtiAdd(At(0, a) + MSG3_DELAY, DL_DELAY) == x % RING;
    if x < RING {
      assert x % RING == x;
      assert (x + RING - 9) % RING == At(0, a) + 4 - (if At(0, a) + 4 >= RING then RING else 0);
    } else {
      assert x % RING == x - RING;
    }
  }

  // ---------------------------------------------------------------- new data

  datatype NewTxOut = NewTxOut(ul: Table, allocs: seq<UlAlloc>, ue: UeState, outcome: Outcome)

  function AllocNewTx(dl: Table, ul: Table, allocs: seq<UlAlloc>, ttiRx: nat, ue: UeState): (o: NewTxOut)
    ensures o.ue == ue || o.ue == ue.(timer := o.ue.timer)
  {
    var ttiDl, ttiUl := TtiAdd(ttiRx, DL_DELAY), TtiAdd(ttiRx, UL_DELAY);
    if HasUlAlloc(allocs, ue.rnti) then NewTxOut(ul, allocs, ue, Error)
    else if ue.timer != 0 then NewTxOut(ul, allocs, ue.(timer := ue.timer - 1), DciCollision)
    else if !IsValidDlSf(ttiDl) || dl[ttiDl] || ttiDl % 8 >= 2 then NewTxOut(ul, allocs, ue, DciCollision)
    else if ul[ttiUl] then NewTxOut(ul, allocs, ue, RbCollision)
    else NewTxOut(ul[ttiUl := true][ttiDl := true],
                  allocs + [UlAlloc(NewTx, ue.rnti, if PendingUl(ue) >= 125 then 12 else 9, UL_LEN)], ue, Success)
  }

  /** A served user's buffer reports of channels 0 and 3 start over. */
  function ClearReports(ue: UeState): UeState
    requires |ue.lch| == MAX_LC
  {
    ue.(lch := ue.lch[0 := ue.lch[0].(bsr := 0)][3 := ue.lch[3].(bsr := 0)])
  }

  datatype UlVisit = UlVisit(ul: Table, allocs: seq<UlAlloc>, ues: map<nat, UeState>)

  ghost predicate UesOk(ues: map<nat, UeState>) {
    forall r :: r in ues ==> ues[r].rnti == r && |ues[r].lch| == MAX_LC
  }

  function VisitUl(dl: Table, v: UlVisit, ttiRx: nat, rnti: nat): (r: UlVisit)
    requires UesOk(v.ues) && rnti in v.ues
    ensures UesOk(r.ues) && r.ues.Keys == v.ues.Keys
  {
    var ue := v.ues[rnti];
    if HasUlAlloc(v.allocs, ue.rnti) || PendingUl(ue) == 0 then v
    else
      var o := AllocNewTx(dl, v.ul, v.allocs, ttiRx, ue);
      UlVisit(o.ul, o.allocs, v.ues[rnti := if o.outcome == Success then ClearReports(o.ue) else o.ue])
  }

  function VisitsUl(dl: Table, v: UlVisit, ttiRx: nat, order: seq<nat>): (r: UlVisit)
    requires UesOk(v.ues) && forall k :: 0 <= k < |order| ==> order[k] in v.ues
    ensures UesOk(r.ues) && r.ues.Keys == v.ues.Keys
  {
    if order == [] then v
    else
      var n := |order| - 1;
      VisitUl(dl, VisitsUl(dl, v, ttiRx, order[..n]), ttiRx, order[n])
  }

  // ---------------------------------------------------------------- round robin

  /** Users in the order of a pass: the table order, starting at index `tti mod n` and wrapping. */
  function RoundRobin(users: seq<nat>, tti: nat): (r: seq<nat>)
    ensures |r| == |users| && forall k :: 0 <= k < |r| ==> r[k] in users
  {
    if users == [] then [] else users[tti % |users|..] + users[..tti % |users|]
  }

  /** A pass visits every user exactly once, and the first place moves on with each TTI. */
  lemma RoundRobinIsFair(users: seq<nat>, tti: nat)
    ensures multiset(RoundRobin(users, tti)) == multiset(users)
    ensures users != [] ==> RoundRobin(users, tti)[0] == users[tti % |users|]
    ensures forall k :: 0 <= k < |users| ==> RoundRobin(users, tti)[k] == users[(tti % |users| + k) % |users|]
  {
    if users != [] {
      var p := tti % |users|;
      assert users == users[..p] + users[p..];
      forall k | 0 <= k < |users| ensures RoundRobin(users, tti)[k] == users[(p + k) % |users|] {
        WrapIndex(p, k, |users|);
      }
    }
  }

  lemma WrapIndex(p: nat, k: nat, n: nat)
    requires p < n && k < n
    ensures (p + k) % n == if p + k < n then p + k else p + k - n
  {
    if p + k >= n { assert p + k == n + (p + k - n); ModStep(p + k - n, n); }
  }

  lemma ModStep(r: nat, n: nat)
    requires r < n
    ensures (n + r) % n == r
  {
  }
}
