/** The passes of the whole carrier as functions: what the downlink pass parks and grants, what the
    uplink pass adds, and the order in which the users are visited. */
module CellSpec {
  import opened Timing
  import opened Table
  import opened DlSpec
  import opened Options
  import opened Packing
  import opened Estimate
  import opened SchedulerUe
  import opened UlSpec
  import opened Msg3Runs

  /** Reserves the Msg3 of every answered detection whose user is known. */
  function ParkAll(ul: Table, allocs: seq<UlAlloc>, ttiRx: nat, rars: seq<RarAlloc>, users: set<nat>): UlOut {
    if rars == [] then UlOut(ul, allocs, Success)
    else
      var n := |rars| - 1;
      var m := ParkAll(ul, allocs, ttiRx, rars[..n], users);
      if rars[n].grant.rnti in users then AllocMsg3(m.ul, m.allocs, ttiRx, rars[n].grant.rnti) else m
  }

  lemma {:induction false} ParkAllExtends(ul: Table, allocs: seq<UlAlloc>, ttiRx: nat, rars: seq<RarAlloc>, users: set<nat>)
    ensures var m := ParkAll(ul, allocs, ttiRx, rars, users);
            && |allocs| <= |m.allocs| <= |allocs| + |rars| && m.allocs[..|allocs|] == allocs
            && forall k :: |allocs| <= k < |m.allocs| ==> m.allocs[k].kind.Msg3?
  {
    hide Msg3Start, FreeRun, Reserve;
    if rars != [] { ParkAllExtends(ul, allocs, ttiRx, rars[..|rars| - 1], users); }
  }

  predicate Ascending(s: seq<nat>) {
    forall i, j :: 0 <= i < j < |s| ==> s[i] < s[j]
  }

  /** Puts a new key in its place. */
  function Insert(s: seq<nat>, x: nat): seq<nat> {
    if s == [] then [x] else if x < s[0] then [x] + s else [s[0]] + Insert(s[1..], x)
  }

  lemma {:induction false} InsertKeeps(s: seq<nat>, x: nat)
    requires Ascending(s) && x !in s
    ensures Ascending(Insert(s, x)) && forall y :: y in Insert(s, x) <==> y == x || y in s
  {
    if s != [] && x >= s[0] {
      InsertKeeps(s[1..], x);
      AfterHead(s);
      ConsAscends(s[0], Insert(s[1..], x));
    }
  }

  lemma AfterHead(s: seq<nat>)
    requires s != [] && Ascending(s)
    ensures (forall y :: y in s[1..] ==> s[0] < y) && s == [s[0]] + s[1..]
  {
    forall y | y in s[1..] ensures s[0] < y {
      var k :| 0 <= k < |s| - 1 && s[1..][k] == y;
      assert s[k + 1] == y;
    }
  }

  lemma ConsAscends(x: nat, t: seq<nat>)
    requires Ascending(t) && forall y :: y in t ==> x < y
    ensures Ascending([x] + t)
  {
    var s := [x] + t;
    forall i, j | 0 <= i < j < |s| ensures s[i] < s[j] {
      assert s[j] == t[j - 1] && t[j - 1] in t;
      if i > 0 { assert s[i] == t[i - 1]; }
    }
  }

  function Without(s: seq<nat>, x: nat): seq<nat> {
    if s == [] then [] else (if s[0] == x then [] else [s[0]]) + Without(s[1..], x)
  }

  lemma {:induction false} WithoutKeeps(s: seq<nat>, x: nat)
    requires Ascending(s)
    ensures Ascending(Without(s, x)) && forall y :: y in Without(s, x) <==> y != x && y in s
  {
    if s != [] {
      WithoutKeeps(s[1..], x);
      AfterHead(s);
      ConsAscends(s[0], Without(s[1..], x));
    }
  }

  lemma {:induction false} WithoutNothing(s: seq<nat>, x: nat)
    requires x !in s
    ensures Without(s, x) == s
  {
    if s != [] { WithoutNothing(s[1..], x); }
  }

  /** What the users of a pass ask for, in the order of their visit. */
  function Asks(ues: map<nat, UeState>, users: seq<nat>): (r: seq<DlReq>)
    requires forall k :: 0 <= k < |users| ==> users[k] in ues && |ues[users[k]].lch| == MAX_LC
    ensures |r| == |users|
  {
    seq(|users|, k requires 0 <= k < |users| =>
      DlReq(users[k], Requested(ues[users[k]]).min, Requested(ues[users[k]]).max))
  }

  /** The users after a downlink pass: whoever was granted a block waits and is owed a report. */
  function AfterGrants(ues: map<nat, UeState>, data: seq<DlAlloc>): (r: map<nat, UeState>)
    requires forall r :: r in ues ==> |ues[r].lch| == MAX_LC
    ensures r.Keys == ues.Keys && forall x :: x in r ==> |r[x].lch| == MAX_LC
  {
    if data == [] then ues
    else
      var n := |data| - 1;
      var u := AfterGrants(ues, data[..n]);
      if data[n].rnti in u then u[data[n].rnti := Granted(u[data[n].rnti])] else u
  }

  function RarList(rar: Option<RarAlloc>): seq<RarAlloc> {
    if rar.Some? then [rar.value] else []
  }

  /** The Msg3s that a downlink pass parks, and the uplink table with their reservations. */
  function Parked(slots: Slots, ul: Table, ttiRx: nat, out: DlOut, users: set<nat>): UlOut {
    if out.rarDone then ParkedIn(Bind(slots, ttiRx + MSG3_DELAY)[Index(ttiRx + MSG3_DELAY)].ul, ul, ttiRx, RarList(out.rar), users)
    else UlOut(ul, [], Success)
  }

  /** The same in a slot that holds `before`. */
  function ParkedIn(before: seq<UlAlloc>, ul: Table, ttiRx: nat, rars: seq<RarAlloc>, users: set<nat>): UlOut {
    var m := ParkAll(ul, before, ttiRx + MSG3_DELAY, rars, users);
    UlOut(m.ul, m.allocs[if |before| <= |m.allocs| then |before| else 0..], m.outcome)
  }

  /** The slots after a downlink pass. */
  function AfterPass(slots: Slots, ul: Table, ttiRx: nat, out: DlOut, users: set<nat>): Slots {
    AfterDl(slots, ttiRx, Tti(out.bc, RarList(out.rar), out.data, out.rarDone, Parked(slots, ul, ttiRx, out, users).allocs, []))
  }

  lemma UlVisitAdds(dl: Table, v: UlVisit, ttiRx: nat, rnti: nat)
    requires UesOk(v.ues) && rnti in v.ues
    ensures var w := VisitUl(dl, v, ttiRx, rnti);
            w.allocs == v.allocs
            || (|w.allocs| == |v.allocs| + 1 && w.allocs[..|v.allocs|] == v.allocs && w.allocs[|v.allocs|].kind.NewTx?)
  {
    hide PendingUl, ClearReports, IsValidDlSf, TtiAdd;
  }

  lemma {:induction false} UlVisitsExtend(dl: Table, v: UlVisit, ttiRx: nat, order: seq<nat>)
    requires UesOk(v.ues) && forall k :: 0 <= k < |order| ==> order[k] in v.ues
    ensures var a := VisitsUl(dl, v, ttiRx, order).allocs;
            |v.allocs| <= |a| && a[..|v.allocs|] == v.allocs && forall k :: |v.allocs| <= k < |a| ==> a[k].kind.NewTx?
  {
    hide VisitUl;
    if order != [] {
      var n := |order| - 1;
      UlVisitsExtend(dl, v, ttiRx, order[..n]);
      UlVisitAdds(dl, VisitsUl(dl, v, ttiRx, order[..n]), ttiRx, order[n]);
    }
  }

  /** The downlink and the uplink pass of a TTI are one step of the slots. */
  lemma TwoPassesAreOneTti(slots: Slots, n: nat, out: DlOut, ul: Table, users: set<nat>, dl: Table, v: UlVisit, order: seq<nat>)
    requires UesOk(v.ues) && forall k :: 0 <= k < |order| ==> order[k] in v.ues
    requires var b := Bind(AfterPass(slots, ul, At(0, n), out, users), At(0, n)); v.allocs == b[Index(At(0, n))].ul
    ensures var b := Bind(AfterPass(slots, ul, At(0, n), out, users), At(0, n)); var i := Index(At(0, n));
            var a := VisitsUl(dl, v, At(0, n), order).allocs;
            var t := Tti(out.bc, RarList(out.rar), out.data, out.rarDone, Parked(slots, ul, At(0, n), out, users).allocs,
                         if |v.allocs| <= |a| then a[|v.allocs|..] else []);
            TtiOk(t) && AfterTti(slots, n, t) == b[i := b[i].(ul := a)]
  {
    hide At, Index, Bind, VisitsUl, ParkAll;
    UlVisitsExtend(dl, v, At(0, n), order);
    var at := At(0, n) + MSG3_DELAY;
    ParkAllExtends(ul, Bind(slots, at)[Index(at)].ul, at, RarList(out.rar), users);
    var a := VisitsUl(dl, v, At(0, n), order).allocs;
    assert a == v.allocs + a[|v.allocs|..];
  }

  lemma UlVisitStep(dl: Table, v: UlVisit, ttiRx: nat, order: seq<nat>, c: nat)
    requires UesOk(v.ues) && (forall k :: 0 <= k < |order| ==> order[k] in v.ues) && c < |order|
    ensures VisitsUl(dl, v, ttiRx, order[..c + 1]) == VisitUl(dl, VisitsUl(dl, v, ttiRx, order[..c]), ttiRx, order[c])
  {
    hide VisitUl, UesOk;
    assert order[..c + 1][..c] == order[..c];
  }

  lemma NoUlVisits(dl: Table, v: UlVisit, ttiRx: nat)
    requires UesOk(v.ues)
    ensures VisitsUl(dl, v, ttiRx, []) == v
  {
  }
}
