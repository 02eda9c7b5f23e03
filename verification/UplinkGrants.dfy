/** Which user an uplink pass grants, and what it does to the others: exactly, and what becomes of a wait over
    whole runs. Also whom the downlink's round robin leaves out. */
module UplinkGrants {
  import opened Timing
  import opened Search
  import opened Table
  import opened DlSpec
  import opened DlRuns
  import opened Packing
  import opened Estimate
  import opened SchedulerUe
  import opened UlSpec
  import opened Msg3Runs
  import opened CellSpec
  import opened CellRuns
  import opened UlRuns
  import opened Npdcch
  import opened UserGrants
  import opened CellScenes

  // ---------------------------------------------------------------- one visit

  /** User `r` has something to send and is not in the slot yet. */
  predicate Tries(v: UlVisit, r: nat)
    requires r in v.ues
  {
    !HasUlAlloc(v.allocs, r) && PendingUl(v.ues[r]) > 0
  }

  /** The record of a user that is passed over: a try costs it one of the attempts it must wait. */
  function PassedOver(v: UlVisit, r: nat): UeState
    requires r in v.ues
  {
    var ue := v.ues[r];
    if Tries(v, r) && ue.timer > 0 then ue.(timer := ue.timer - 1) else ue
  }

  /** The record of a user that is served: what it reported on channels 0 and 3 is forgotten. */
  predicate IsServed(ue: UeState, after: UeState) {
    && |after.lch| == |ue.lch| && after == ue.(lch := after.lch)
    && forall l :: 0 <= l < |ue.lch| ==> after.lch[l] == ue.lch[l].(bsr := if l == 0 || l == 3 then 0 else ue.lch[l].bsr)
  }

  /** The uplink subframe of the pass is free. */
  predicate StartFree(v: UlVisit, ttiRx: nat) {
    !v.ul[TtiAdd(ttiRx, UL_DELAY)]
  }

  /** A visit at this point would be served. */
  predicate CanServe(dl: Table, v: UlVisit, ttiRx: nat, r: nat)
    requires r in v.ues
  {
    UlOpen(dl, ttiRx) && StartFree(v, ttiRx) && Tries(v, r) && v.ues[r].timer == 0
  }

  /** `w` is `v` with a block for user `r`: four subframes of which the first is marked, MCS 12 from 125 bytes on and
      9 below, and a mark at the DCI's time. */
  ghost predicate ServedTo(v: UlVisit, w: UlVisit, ttiRx: nat, r: nat)
    requires r in v.ues
  {
    && w.allocs == v.allocs + [UlAlloc(NewTx, r, if PendingUl(v.ues[r]) >= 125 then 12 else 9, 4)]
    && w.ul == v.ul[TtiAdd(ttiRx, UL_DELAY) := true][TtiAdd(ttiRx, DL_DELAY) := true]
    && r in w.ues && IsServed(v.ues[r], w.ues[r])
  }

  lemma OneVisit(dl: Table, v: UlVisit, ttiRx: nat, r: nat)
    requires UesOk(v.ues) && r in v.ues
    ensures var w := VisitUl(dl, v, ttiRx, r);
            && (forall x :: x in v.ues && x != r ==> w.ues[x] == v.ues[x])
            && if CanServe(dl, v, ttiRx, r) then ServedTo(v, w, ttiRx, r)
               else w.allocs == v.allocs && w.ul == v.ul && w.ues[r] == PassedOver(v, r)
  {
    hide PendingUl, IsValidDlSf, TtiAdd, HasUlAlloc;
  }

  /** Why an attempt is refused: an error for a user that is in the slot; for lack of a DCI while the user waits or its
      subframe is not open; for lack of subframes otherwise. Only a success changes slot and table. */
  lemma RefusedExactly(dl: Table, v: UlVisit, ttiRx: nat, r: nat)
    requires UesOk(v.ues) && r in v.ues
    ensures var o := AllocNewTx(dl, v.ul, v.allocs, ttiRx, v.ues[r]);
            && o.outcome == (if HasUlAlloc(v.allocs, r) then Error
                             else if v.ues[r].timer > 0 || !UlOpen(dl, ttiRx) then DciCollision
                             else if StartFree(v, ttiRx) then Success else RbCollision)
            && (o.outcome != Success ==> o.ul == v.ul && o.allocs == v.allocs)
  {
    hide PendingUl, IsValidDlSf, TtiAdd, HasUlAlloc;
  }

  /** Entry `i` is one of the four from `a` on. */
  predicate IsOfFour(a: nat, i: nat) {
    i == At(a, 0) || i == At(a, 1) || i == At(a, 2) || i == At(a, 3)
  }

  /** A Msg3 gets its four subframes, 13 after the RAR's data, unless the user is in the slot, which is an error, or
      one of them is taken. Only a success changes slot and table. */
  lemma Msg3RefusedExactly(ul: Table, allocs: seq<UlAlloc>, ttiRx: nat, rnti: nat)
    ensures var o := AllocMsg3(ul, allocs, ttiRx, rnti); var a := RarDataOf(ttiRx) + 13;
            && o.outcome == (if HasUlAlloc(allocs, rnti) then Error
                             else if ul[At(a, 0)] || ul[At(a, 1)] || ul[At(a, 2)] || ul[At(a, 3)] then RbCollision
                             else Success)
            && (o.outcome != Success ==> o.ul == ul && o.allocs == allocs)
            && (o.outcome == Success ==> o.allocs == allocs + [UlAlloc(Msg3, rnti, 0, 4)])
    ensures var o := AllocMsg3(ul, allocs, ttiRx, rnti); var a := RarDataOf(ttiRx) + 13;
            o.outcome == Success ==>
              forall i :: 0 <= i < RING ==> (o.ul[i] <==> ul[i] || IsOfFour(a, i))
  {
    hide RarDataOf, At, HasUlAlloc, Reserve;
    var o, a := AllocMsg3(ul, allocs, ttiRx, rnti), RarDataOf(ttiRx) + 13;
    if o.outcome == Success {
      forall i | 0 <= i < RING ensures o.ul[i] <==> ul[i] || IsOfFour(a, i) {
        ReserveAt(ul, a, Upto(4), i);
        FourOf(a, i);
      }
    }
  }

  lemma FourOf(a: nat, i: nat)
    ensures (exists k :: 0 <= k < |Upto(4)| && At(a, Upto(4)[k]) == i) <==> IsOfFour(a, i)
  {
    hide At;
    assert Upto(4)[0] == 0 && Upto(4)[1] == 1 && Upto(4)[2] == 2 && Upto(4)[3] == 3;
  }

  // ---------------------------------------------------------------- one pass

  /** User number `k` is the first of the order that tries and need not wait, and there is room. */
  ghost predicate Wins(dl: Table, v: UlVisit, ttiRx: nat, order: seq<nat>, k: int)
    requires forall i :: 0 <= i < |order| ==> order[i] in v.ues
  {
    0 <= k < |order| && CanServe(dl, v, ttiRx, order[k]) && forall j :: 0 <= j < k ==> !CanServe(dl, v, ttiRx, order[j])
  }

  ghost predicate NobodyWins(dl: Table, v: UlVisit, ttiRx: nat, order: seq<nat>)
    requires forall i :: 0 <= i < |order| ==> order[i] in v.ues
  {
    forall j :: 0 <= j < |order| ==> !CanServe(dl, v, ttiRx, order[j])
  }

  /** What a pass over `order` leaves: one block, for the winner, and everybody else passed over. */
  ghost predicate PassResult(dl: Table, v: UlVisit, w: UlVisit, ttiRx: nat, order: seq<nat>)
    requires forall i :: 0 <= i < |order| ==> order[i] in v.ues
  {
    && w.ues.Keys == v.ues.Keys
    && (NobodyWins(dl, v, ttiRx, order) ==> w.allocs == v.allocs && w.ul == v.ul)
    && (forall k :: Wins(dl, v, ttiRx, order, k) ==> ServedTo(v, w, ttiRx, order[k]))
    && (forall k :: 0 <= k < |order| && !Wins(dl, v, ttiRx, order, k) ==> w.ues[order[k]] == PassedOver(v, order[k]))
    && (forall r :: r in v.ues && r !in order ==> w.ues[r] == v.ues[r])
  }

  lemma WinsOnce(dl: Table, v: UlVisit, ttiRx: nat, order: seq<nat>, j: int, k: int)
    requires forall i :: 0 <= i < |order| ==> order[i] in v.ues
    requires Wins(dl, v, ttiRx, order, j) && Wins(dl, v, ttiRx, order, k)
    ensures j == k
  {
  }

  lemma WinsMore(dl: Table, v: UlVisit, ttiRx: nat, order: seq<nat>, r: nat)
    requires r in v.ues && forall i :: 0 <= i < |order| ==> order[i] in v.ues
    ensures forall k :: 0 <= k < |order| ==> (Wins(dl, v, ttiRx, order + [r], k) <==> Wins(dl, v, ttiRx, order, k))
    ensures Wins(dl, v, ttiRx, order + [r], |order|) <==> NobodyWins(dl, v, ttiRx, order) && CanServe(dl, v, ttiRx, r)
    ensures NobodyWins(dl, v, ttiRx, order + [r]) <==> NobodyWins(dl, v, ttiRx, order) && !CanServe(dl, v, ttiRx, r)
  {
    hide CanServe;
    var all := order + [r];
    assert all[|order|] == r && forall i :: 0 <= i < |order| ==> all[i] == order[i];
  }

  /** Somebody wins, if anybody can be served. */
  lemma {:induction false} SomebodyWins(dl: Table, v: UlVisit, ttiRx: nat, order: seq<nat>) returns (k: nat)
    requires (forall i :: 0 <= i < |order| ==> order[i] in v.ues) && !NobodyWins(dl, v, ttiRx, order)
    ensures k < |order| && Wins(dl, v, ttiRx, order, k)
  {
    hide CanServe;
    var n := |order| - 1;
    if NobodyWins(dl, v, ttiRx, order[..n]) {
      k := n;
      assert forall i :: 0 <= i < n ==> order[i] == order[..n][i];
    } else {
      k := SomebodyWins(dl, v, ttiRx, order[..n]);
      assert forall i :: 0 <= i < n ==> order[i] == order[..n][i];
    }
  }

  /** Before its visit nothing that concerns user `r` has changed, but the room may have gone. */
  lemma BeforeVisit(dl: Table, v: UlVisit, w: UlVisit, ttiRx: nat, order: seq<nat>, r: nat)
    requires r in v.ues && r !in order && (forall i :: 0 <= i < |order| ==> order[i] in v.ues)
    requires PassResult(dl, v, w, ttiRx, order)
    ensures w.ues[r] == v.ues[r] && Tries(w, r) == Tries(v, r) && PassedOver(w, r) == PassedOver(v, r)
    ensures CanServe(dl, w, ttiRx, r) <==> NobodyWins(dl, v, ttiRx, order) && CanServe(dl, v, ttiRx, r)
  {
    hide PendingUl, UlOpen, TtiAdd, IsServed;
    if !NobodyWins(dl, v, ttiRx, order) {
      var k := SomebodyWins(dl, v, ttiRx, order);
      assert ServedTo(v, w, ttiRx, order[k]) && order[k] != r;
      PushedOther(v.allocs, w.allocs[|v.allocs|], r);
    }
  }

  lemma PushedOther(allocs: seq<UlAlloc>, a: UlAlloc, r: nat)
    requires a.rnti != r
    ensures HasUlAlloc(allocs + [a], r) <==> HasUlAlloc(allocs, r)
  {
    var all := allocs + [a];
    if HasUlAlloc(allocs, r) {
      var k :| 0 <= k < |allocs| && allocs[k].rnti == r;
      assert all[k].rnti == r;
    }
  }

  /** An uplink pass serves the first of its order that tries and need not wait, when its subframes are open; each
      other user that tries has one attempt less to wait; nothing else changes. */
  lemma {:induction false} UlPassExactly(dl: Table, v: UlVisit, ttiRx: nat, order: seq<nat>)
    requires UesOk(v.ues) && (forall i :: 0 <= i < |order| ==> order[i] in v.ues) && Distinct(order)
    ensures PassResult(dl, v, VisitsUl(dl, v, ttiRx, order), ttiRx, order)
  {
    hide VisitUl, CanServe, ServedTo, PassedOver, PassResult;
    if order == [] {
      NoPassResult(dl, v, ttiRx);
    } else {
      var n := |order| - 1;
      var before, r := order[..n], order[n];
      var w := VisitsUl(dl, v, ttiRx, before);
      assert order == before + [r] && Distinct(before) && r !in before;
      UlPassExactly(dl, v, ttiRx, before);
      OneVisit(dl, w, ttiRx, r);
      BeforeVisit(dl, v, w, ttiRx, before, r);
      NextResult(dl, v, w, VisitUl(dl, w, ttiRx, r), ttiRx, before, r);
    }
  }

  lemma NoPassResult(dl: Table, v: UlVisit, ttiRx: nat)
    ensures PassResult(dl, v, v, ttiRx, [])
  {
  }

  /** The same, one visit on. */
  lemma NextResult(dl: Table, v: UlVisit, w: UlVisit, x: UlVisit, ttiRx: nat, order: seq<nat>, r: nat)
    requires r in v.ues && r !in order && (forall i :: 0 <= i < |order| ==> order[i] in v.ues)
    requires PassResult(dl, v, w, ttiRx, order) && r in w.ues && w.ues[r] == v.ues[r] && PassedOver(w, r) == PassedOver(v, r)
    requires CanServe(dl, w, ttiRx, r) <==> NobodyWins(dl, v, ttiRx, order) && CanServe(dl, v, ttiRx, r)
    requires x.ues.Keys == v.ues.Keys && forall y :: y in w.ues && y != r ==> x.ues[y] == w.ues[y]
    requires if CanServe(dl, w, ttiRx, r) then ServedTo(w, x, ttiRx, r)
             else x.allocs == w.allocs && x.ul == w.ul && x.ues[r] == PassedOver(w, r)
    ensures PassResult(dl, v, x, ttiRx, order + [r])
  {
    hide CanServe, PassedOver, PendingUl, TtiAdd, IsServed, Wins, NobodyWins;
    var all := order + [r];
    WinsMore(dl, v, ttiRx, order, r);
    WinsIsIndex(dl, v, ttiRx, all);
    assert all[|order|] == r && forall i :: 0 <= i < |order| ==> all[i] == order[i];
    forall k | Wins(dl, v, ttiRx, all, k) ensures ServedTo(v, x, ttiRx, all[k]) {
      if k < |order| {
        assert ServedTo(v, w, ttiRx, order[k]) && order[k] != r;
        WinnerMeans(dl, v, ttiRx, order, k);
      }
    }
  }

  lemma WinsIsIndex(dl: Table, v: UlVisit, ttiRx: nat, order: seq<nat>)
    requires forall i :: 0 <= i < |order| ==> order[i] in v.ues
    ensures forall k :: Wins(dl, v, ttiRx, order, k) ==> 0 <= k < |order|
  {
  }

  lemma WinnerMeans(dl: Table, v: UlVisit, ttiRx: nat, order: seq<nat>, k: int)
    requires (forall i :: 0 <= i < |order| ==> order[i] in v.ues) && Wins(dl, v, ttiRx, order, k)
    ensures !NobodyWins(dl, v, ttiRx, order)
  {
  }

  // ---------------------------------------------------------------- over runs of the carrier

  /** Whom it visits k-th: the walk starts at the TTI of the uplink subframe, 13 after the reception. */
  lemma UlTurnIs(c: Cell, k: nat)
    requires CellOk(c) && k < |c.order|
    ensures |UlOrder(c)| == |c.order| && UlOrder(c)[k] == c.order[(At(0, c.now + 13) % |c.order| + k) % |c.order|]
  {
    hide At, TtiAdd;
    RoundRobinIsFair(c.order, TtiAdd(TtiOf(c), UL_DELAY));
    UlIndex(c.now);
  }

  lemma UlIndex(now: nat)
    ensures TtiAdd(At(0, now), UL_DELAY) == At(0, now + 13)
  {
    AtAt(0, now, UL_DELAY);
  }

  /** The uplink pass of a TTI does exactly this to the table, the slot and the records that the downlink pass
      leaves. */
  lemma UplinkPassExactly(c: Cell)
    requires CellOk(c)
    ensures PassResult(DlOf(c).next.table, UlStart(c), UlOf(c), TtiOf(c), UlOrder(c))
    ensures AfterBoth(c).ues == UlOf(c).ues && AfterBoth(c).ul == UlOf(c).ul
  {
    hide DlOf, UesMid, SlotsMid, ParkOf, VisitsUl, TtiAdd, TtiOf, RoundRobin, Index, PassResult;
    RoundRobinDistinct(c.order, TtiAdd(TtiOf(c), UL_DELAY));
    UlPassExactly(DlOf(c).next.table, UlStart(c), TtiOf(c), UlOrder(c));
  }

  /** Whether the DCI's subframe is open to an uplink grant, in the terms of the calendar and of all reservations
      made so far, those of this TTI's downlink pass among them. */
  lemma UlOpenMeans(events: seq<Event>)
    ensures var c, s := CellAfter(events), Run(Inputs(events + [Pass]));
            UlOpen(DlOf(c).next.table, TtiOf(c))
            <==> IsValidDlSf(c.now + DL_DELAY) && (c.now + DL_DELAY) % 8 < 2 && !Held(s.log, c.now + DL_DELAY)
  {
    hide CellAfter, DlOf, TtiOf, Inputs, Run, Held, IsValidDlSf, At, TtiAdd, Inv;
    var c, s := CellAfter(events), Run(Inputs(events + [Pass]));
    assert (events + [Pass])[..|events|] == events;
    CellMore(events + [Pass], |events|);
    assert (events + [Pass])[..|events| + 1] == events + [Pass];
    CellIsRun(events + [Pass]);
    PassGives(c);
    RunInv(Inputs(events + [Pass]));
    TableIsLog(s, c.now + DL_DELAY);
    TtiIs(c);
    Calendar(c.now + DL_DELAY);
  }

  lemma TtiIs(c: Cell)
    ensures TtiAdd(TtiOf(c), DL_DELAY) == At(0, c.now + DL_DELAY)
  {
    TxIndex(c.now);
  }

  lemma TableIsLog(s: Sys, a: nat)
    requires Inv(s) && s.now <= a < s.now + RING
    ensures s.dl.table[At(0, a)] <==> Held(s.log, a)
  {
    hide Held, AllGood, Orderly, Closed, Sib1Times, At;
  }

  /** The uplink pass finds user `r` with something to send and a wait. */
  predicate Waits(c: Cell, r: nat)
    requires CellOk(c)
  {
    r in c.ues && Tries(UlStart(c), r) && UesMid(c)[r].timer > 0
  }

  /** Passes among events i, ..., j - 1 that find it so. */
  function WaitingTries(events: seq<Event>, i: nat, j: nat, r: nat): nat
    requires i <= j <= |events|
    decreases j - i
  {
    if i == j then 0
    else WaitingTries(events, i, j - 1, r) + (if events[j - 1].Pass? && Waits(CellAfter(events[..j - 1]), r) then 1 else 0)
  }

  /** The pass leaves a wait alone, but for taking one off it when the user tries. */
  lemma PassWait(c: Cell, r: nat)
    requires CellOk(c) && r in c.ues
    ensures var d := CellStep(c, Pass); var w := if DlGranted(c, r) then 30 else c.ues[r].timer;
            r in d.ues && d.ues[r].timer == if Waits(c, r) then w - 1 else w
  {
    hide DlOf, UesMid, UlOf, SlotsMid, UlStart, UlOrder, DlGranted, TtiOf, PassResult, AfterBoth, Tries, PassedOver;
    hide CellOk;
    MidTimer(c, r);
    UplinkPassExactly(c);
    PassGives(c);
    StartRecords(c);
    AllVisited(c, r);
    InResult(DlOf(c).next.table, UlStart(c), UlOf(c), TtiOf(c), UlOrder(c), r);
    PassedTimer(UlStart(c), r);
  }

  lemma StartRecords(c: Cell)
    requires CellOk(c)
    ensures UlStart(c).ues == UesMid(c)
  {
    hide ParkOf, SlotsMid, UesMid;
  }

  lemma AllVisited(c: Cell, r: nat)
    requires CellOk(c) && r in c.ues
    ensures r in UlOrder(c)
  {
    hide TtiAdd, TtiOf;
    RoundRobinIsFair(c.order, TtiAdd(TtiOf(c), UL_DELAY));
    assert r in multiset(c.order);
    assert r in multiset(UlOrder(c));
  }

  lemma PassedTimer(v: UlVisit, r: nat)
    requires r in v.ues
    ensures PassedOver(v, r).timer == if Tries(v, r) && v.ues[r].timer > 0 then v.ues[r].timer - 1 else v.ues[r].timer
  {
    hide Tries;
  }

  /** A visited user has been served, and had no wait then, or has been passed over. */
  lemma InResult(dl: Table, v: UlVisit, w: UlVisit, ttiRx: nat, order: seq<nat>, r: nat)
    requires r in v.ues && r in order && (forall i :: 0 <= i < |order| ==> order[i] in v.ues)
    requires PassResult(dl, v, w, ttiRx, order)
    ensures r in w.ues
    ensures (w.ues[r].timer == v.ues[r].timer == 0) || w.ues[r] == PassedOver(v, r)
  {
    hide UlOpen, StartFree, Tries, PassedOver, TtiAdd, PendingUl;
    var k :| 0 <= k < |order| && order[k] == r;
    if Wins(dl, v, ttiRx, order, k) { assert ServedTo(v, w, ttiRx, order[k]); }
  }

  /** What an event other than a pass does to a wait: only a report of a wait sets it. */
  lemma OtherWait(c: Cell, e: Event, r: nat)
    requires CellOk(c) && r in c.ues && !e.Pass? && e != Rem(r) && e != Report(r, Wait)
    ensures var d := CellStep(c, e); r in d.ues && d.ues[r].timer == c.ues[r].timer
  {
    hide AddRach, Insert, Without, Ascending, FormatN1;
    if e.Report? && e.rnti == r && e.change.Serve? { ServeKeepsUplink(c.ues[r], e.change.iSf); }
  }

  /** Event i makes user `r` wait: a downlink grant, or a report that asks for it. */
  predicate SetsWait(events: seq<Event>, i: nat, r: nat)
    requires i < |events|
  {
    var c := CellAfter(events[..i]);
    (events[i].Pass? && DlGranted(c, r)) || (events[i] == Report(r, Wait) && r in c.ues)
  }

  lemma ReportedWait(c: Cell, r: nat)
    requires CellOk(c) && r in c.ues
    ensures var d := CellStep(c, Report(r, Wait)); r in d.ues && d.ues[r].timer == 30
  {
  }

  /** In every run: from such an event on, while the user stays configured and no wait is set anew, what is left of its
      wait and the passes that found it trying make up 30, exactly. */
  lemma {:induction false} WaitCountsDown(events: seq<Event>, i: nat, j: nat, r: nat)
    requires i < j <= |events| && SetsWait(events, i, r)
    requires forall k :: i < k < j ==> events[k] != Rem(r) && !SetsWait(events, k, r)
    ensures var c := CellAfter(events[..j]); r in c.ues && c.ues[r].timer + WaitingTries(events, i, j, r) == 30
    decreases j - i
  {
    hide CellAfter, CellStep, Waits, CellOk, DlGranted;
    var c := CellAfter(events[..j - 1]);
    CellMore(events, j - 1);
    if i < j - 1 {
      WaitCountsDown(events, i, j - 1, r);
      assert !SetsWait(events, j - 1, r);
    } else if events[i].Pass? {
      GrantedIsKnown(c, r);
    } else {
      ReportedWait(c, r);
    }
    if events[j - 1].Pass? {
      PassWait(c, r);
      if Waits(c, r) { WaitIsLeft(c, r); }
    } else if i < j - 1 {
      OtherWait(c, events[j - 1], r);
    }
  }

  lemma WaitIsLeft(c: Cell, r: nat)
    requires CellOk(c) && Waits(c, r)
    ensures (if DlGranted(c, r) then 30 else c.ues[r].timer) > 0
  {
    hide DlOf, UesMid, UlStart, DlGranted, Tries;
    MidTimer(c, r);
  }

  /** So when the passes that found it trying have reached 30, and only then, the user need not wait. */
  lemma WaitEndsExactly(events: seq<Event>, i: nat, j: nat, r: nat)
    requires i < j <= |events| && SetsWait(events, i, r)
    requires forall k :: i < k < j ==> events[k] != Rem(r) && !SetsWait(events, k, r)
    ensures WaitingTries(events, i, j, r) <= 30
    ensures var c := CellAfter(events[..j]); r in c.ues && (c.ues[r].timer == 0 <==> WaitingTries(events, i, j, r) == 30)
  {
    hide CellAfter, SetsWait, WaitingTries;
    WaitCountsDown(events, i, j, r);
  }

  // ---------------------------------------------------------------- whom the downlink leaves out

  /** Everybody asks for something. */
  ghost predicate AllAsk(c: Cell)
    requires CellOk(c)
  {
    forall r :: r in c.ues ==> Requested(c.ues[r]).min > 0
  }

  lemma AskersFirst(c: Cell, from: nat, k: int)
    requires CellOk(c) && AllAsk(c) && FirstAsk(Reqs(c), from, k)
    ensures k == from && k < |c.order|
  {
    hide Reqs, AllAsk;
    AllMins(c);
    assert from < |Reqs(c)| ==> Reqs(c)[from].min > 0;
  }

  lemma AllMins(c: Cell)
    requires CellOk(c) && AllAsk(c)
    ensures |Reqs(c)| == |c.order| && forall j :: 0 <= j < |Reqs(c)| ==> Reqs(c)[j].min > 0
  {
    hide Requested, TtiAdd, TtiOf;
  }

  /** Who is the k-th to ask in a pass, and for what. */
  lemma AskerIs(c: Cell, k: nat)
    requires CellOk(c) && k < |c.order|
    ensures |Reqs(c)| == |c.order|
    ensures var r := c.order[(TtiAdd(TtiOf(c), DL_DELAY) % |c.order| + k) % |c.order|];
            r in c.ues && Reqs(c)[k] == DlReq(r, Requested(c.ues[r]).min, Requested(c.ues[r]).max)
  {
    hide Requested, TtiAdd, TtiOf;
    RoundRobinIsFair(c.order, TtiAdd(TtiOf(c), DL_DELAY));
  }

  function Rest(a: nat, d: nat): nat
    requires d > 0
  {
    a % d
  }

  /** Places that the round robin can reach from a subframe of the users. */
  lemma ReachedPlace(tti: nat, n: nat, k: nat, d: nat)
    requires tti % 8 < 2 && k <= 1 && n > 0 && (d == 4 || d == 8) && Rest(n, d) == 0
    ensures Rest((tti % n + k) % n, d) < 3
  {
    hide Rest;
    EarlyRest(tti, d);
    Quotient(tti, n);
    Turns(n, tti / n, tti % n, d);
    AtLeast(n, d);
    WrapIndex(tti % n, k, n);
    NextPlace(tti % n, n, k, d);
  }

  lemma AtLeast(n: nat, d: nat)
    requires n > 0 && (d == 4 || d == 8) && Rest(n, d) == 0
    ensures n >= 4
  {
  }

  lemma EarlyRest(tti: nat, d: nat)
    requires tti % 8 < 2 && (d == 4 || d == 8)
    ensures Rest(tti, d) < 2
  {
    QuarterOf8(tti);
  }

  lemma Quotient(a: nat, n: nat)
    requires n > 0
    ensures a == n * (a / n) + a % n && a % n < n
  {
  }

  lemma NextPlace(p: nat, n: nat, k: nat, d: nat)
    requires p < n && (d == 4 || d == 8) && Rest(p, d) < 2 && k <= 1 && Rest(n, d) == 0
    ensures Rest(if p + k < n then p + k else p + k - n, d) < 3
  {
  }

  lemma {:induction false} Turns(n: nat, q: nat, p: nat, d: nat)
    requires (d == 4 || d == 8) && Rest(n, d) == 0
    ensures Rest(n * q + p, d) == Rest(p, d)
  {
    hide Rest;
    if q > 0 {
      Turns(n, q - 1, p, d);
      assert n * q + p == n + (n * (q - 1) + p);
      OneMore(n, n * (q - 1) + p, d);
    } else {
      assert n * q + p == p;
    }
  }

  lemma OneMore(n: nat, a: nat, d: nat)
    requires (d == 4 || d == 8) && Rest(n, d) == 0
    ensures Rest(n + a, d) == Rest(a, d)
  {
    if d == 4 { FourMore(n, a); } else { EightMore(n, a); }
  }

  lemma FourMore(n: nat, a: int)
    requires n % 4 == 0
    ensures (n + a) % 4 == a % 4
  {
  }

  lemma EightMore(n: nat, a: int)
    requires n % 8 == 0
    ensures (n + a) % 8 == a % 8
  {
  }

  lemma QuarterOf8(t: nat)
    ensures t % 4 == t % 8 % 4
  {
    var q, r := t / 8, t % 8;
    var x, y := r / 4, r % 4;
    assert t == 4 * (2 * q + x) + y;
  }

  /** The user at place `p` of the table has the downlink block. */
  predicate GrantedPlace(c: Cell, p: int)
    requires CellOk(c)
  {
    0 <= p < |c.order| && DlGranted(c, c.order[p])
  }

  /** With everybody asking, a pass that grants a user grants the one at which its walk starts, or the next one
      when the first visit only opens the throttle. */
  lemma TurnExactly(events: seq<Event>, p: nat)
    requires var c := CellAfter(events); AllAsk(c) && DlOf(c).data != [] && p < |c.order|
    ensures var c := CellAfter(events);
            DlGranted(c, c.order[p])
            <==> p == (TtiAdd(TtiOf(c), DL_DELAY) % |c.order| + (if HoldsBack(Inputs(events)) then 1 else 0)) % |c.order|
  {
    hide CellAfter, DlOf, TtiOf, TtiAdd, Reqs, Inputs, Run, PendingRach, AllAsk, FirstAsk, BlockOf, Grants, HoldsBack;
    hide HasAlloc;
    var c := CellAfter(events);
    var k := GrantedFrom(events);
    AskersFirst(c, if HoldsBack(Inputs(events)) then 1 else 0, k);
    AskerIs(c, k);
    BlockFor(Reqs(c)[k]);
    OnlyOne(DlOf(c).data, BlockOf(Reqs(c)[k]), c.order[p]);
    var place := (TtiAdd(TtiOf(c), DL_DELAY) % |c.order| + k) % |c.order|;
    if c.order[place] == c.order[p] { SamePlace(c.order, place, p); }
  }

  /** The round robin is not fair. A user can be granted only in the first two subframes of eight, so the walk starts at
      few places: when the number of users is a multiple of four, or of eight, and all of them ask, no pass grants
      a user other than the first three of each four, or eight, in the table. */
  lemma OthersAreLeftOut(events: seq<Event>, p: nat, d: nat)
    requires var c := CellAfter(events); AllAsk(c) && (d == 4 || d == 8) && |c.order| % d == 0 && p % d >= 3
    ensures !GrantedPlace(CellAfter(events), p)
  {
    hide CellAfter, DlOf, TtiOf, TtiAdd, Reqs, Inputs, Run, PendingRach, AllAsk, FirstAsk, BlockOf, Grants, HoldsBack;
    var c := CellAfter(events);
    if GrantedPlace(c, p) {
      var k := GrantedFrom(events);
      AskersFirst(c, if HoldsBack(Inputs(events)) then 1 else 0, k);
      TurnExactly(events, p);
      ReachedPlace(TtiAdd(TtiOf(c), DL_DELAY), |c.order|, k, d);
    }
  }

  lemma OnlyOne(data: seq<DlAlloc>, a: DlAlloc, r: nat)
    requires data == [a]
    ensures HasAlloc(data, r) <==> a.rnti == r
  {
    assert data[0] == a;
  }

  lemma BlockFor(req: DlReq)
    ensures BlockOf(req).rnti == req.rnti
  {
  }

  lemma SamePlace(order: seq<nat>, i: nat, j: nat)
    requires Ascending(order) && i < |order| && j < |order| && order[i] == order[j]
    ensures i == j
  {
  }

  /** A grant in a run of the carrier, by what is known of grants in a run of downlink passes. */
  lemma GrantedFrom(events: seq<Event>) returns (k: nat)
    requires DlOf(CellAfter(events)).data != []
    ensures var c := CellAfter(events);
            && TtiAdd(TtiOf(c), DL_DELAY) % 8 < 2 && k < |Reqs(c)|
            && FirstAsk(Reqs(c), if HoldsBack(Inputs(events)) then 1 else 0, k)
            && DlOf(c).data == [BlockOf(Reqs(c)[k])]
  {
    hide CellAfter, DlPass, TtiOf, TtiAdd, Reqs, Inputs, Run, PendingRach, FirstAsk, BlockOf, Held, IsValidDlSf;
    hide IsSib1Sf, IsSib2Start, HoldsBack, At;
    var c, s := CellAfter(events), Run(Inputs(events));
    var inp := Input(PendingRach(events), Reqs(c));
    CellIsRun(events);
    SameDl(c, s, inp);
    GrantsExactly(Inputs(events), inp);
    var j :| Grants(Inputs(events), inp, j);
    FirstInside(Reqs(c), if HoldsBack(Inputs(events)) then 1 else 0, j);
    k := j;
    TtiIs(c);
    Calendar(c.now + DL_DELAY);
  }

  lemma FirstInside(reqs: seq<DlReq>, from: nat, k: int)
    requires FirstAsk(reqs, from, k)
    ensures 0 <= k < |reqs|
  {
  }

  lemma SameDl(c: Cell, s: Sys, inp: Input)
    requires CellOk(c) && Matches(c, s, inp.rach) && inp.reqs == Reqs(c)
    ensures PassOf(s, inp) == DlOf(c)
  {
    hide DlPass, AddAll, Reqs;
  }

  // ---------------------------------------------------------------- for ever

  /** Only reports and waits differ, which the downlink does not look at. */
  predicate SameForDl(a: UeState, b: UeState) {
    && |a.lch| == |b.lch| && a.ces == b.ces
    && forall l :: 0 <= l < |a.lch| ==> a.lch[l] == b.lch[l].(bsr := a.lch[l].bsr)
  }

  lemma {:induction false} SameRbBytes(a: UeState, b: UeState, i: nat)
    requires SameForDl(a, b)
    ensures RbBytes(a.lch, i) == RbBytes(b.lch, i)
    decreases |a.lch| - i
  {
    hide SduBytes;
    if i < |a.lch| { SameRbBytes(a, b, i + 1); }
  }

  lemma SameRequest(a: UeState, b: UeState)
    requires SameForDl(a, b) && |a.lch| == MAX_LC
    ensures Requested(a) == Requested(b)
  {
    hide RbBytes, SduBytes, CeTotal;
    SameRbBytes(a, b, 1);
  }

  lemma {:induction false} GrantsSameForDl(ues: map<nat, UeState>, data: seq<DlAlloc>)
    requires UesOk(ues)
    ensures forall r :: r in ues ==> SameForDl(ues[r], AfterGrants(ues, data)[r])
  {
    if data != [] { GrantsSameForDl(ues, data[..|data| - 1]); }
  }

  /** A pass changes nothing that a user asks for. */
  lemma PassKeepsRequests(c: Cell)
    requires CellOk(c)
    ensures var d := CellStep(c, Pass);
            && d.order == c.order && d.ues.Keys == c.ues.Keys
            && forall r :: r in c.ues ==> Requested(d.ues[r]) == Requested(c.ues[r])
  {
    hide DlOf, UesMid, UlOf, SlotsMid, UlStart, UlOrder, TtiOf, PassResult, Requested;
    PassGives(c);
    StartRecords(c);
    UplinkPassExactly(c);
    MidSameForDl(c);
    forall r | r in c.ues ensures Requested(AfterBoth(c).ues[r]) == Requested(c.ues[r]) {
      AllVisited(c, r);
      ResultSameForDl(DlOf(c).next.table, UlStart(c), UlOf(c), TtiOf(c), UlOrder(c), r);
      SameRequest(UesMid(c)[r], UlOf(c).ues[r]);
      SameRequest(c.ues[r], UesMid(c)[r]);
    }
  }

  lemma MidSameForDl(c: Cell)
    requires CellOk(c)
    ensures forall r :: r in c.ues ==> SameForDl(c.ues[r], UesMid(c)[r])
  {
    hide DlOf, SameForDl;
    GrantsSameForDl(c.ues, DlOf(c).data);
  }

  lemma ResultSameForDl(dl: Table, v: UlVisit, w: UlVisit, ttiRx: nat, order: seq<nat>, r: nat)
    requires r in v.ues && r in order && (forall i :: 0 <= i < |order| ==> order[i] in v.ues)
    requires PassResult(dl, v, w, ttiRx, order)
    ensures r in w.ues && SameForDl(v.ues[r], w.ues[r])
  {
    hide UlOpen, StartFree, Tries, TtiAdd, PendingUl;
    var k :| 0 <= k < |order| && order[k] == r;
    if Wins(dl, v, ttiRx, order, k) { assert ServedTo(v, w, ttiRx, order[k]); }
  }

  /** User `r` joins and has ten bytes for SRB0. */
  function Joining(r: nat): seq<Event> {
    [Cfg(r, seq(MAX_LC, _ => Both))] + [Report(r, DlBuffer(0, 10, 0))]
  }

  lemma JoiningAsks(r: nat)
    ensures var ue := Changed(Configured(NewUe(r), seq(MAX_LC, _ => Both)), DlBuffer(0, 10, 0)); Requested(ue).min > 0
  {
    hide RbBytes;
  }

  lemma Joins(events: seq<Event>, r: nat)
    requires AllAsk(CellAfter(events)) && r !in CellAfter(events).ues
    ensures var c := CellAfter(events + Joining(r));
            AllAsk(c) && |c.order| == |CellAfter(events).order| + 1 && c.ues.Keys == CellAfter(events).ues.Keys + {r}
  {
    hide CellAfter, CellStep, AllAsk, CellOk;
    var cfg := Cfg(r, seq(MAX_LC, _ => Both));
    assert events + Joining(r) == (events + [cfg]) + [Report(r, DlBuffer(0, 10, 0))];
    Plus(events, cfg);
    Plus(events + [cfg], Report(r, DlBuffer(0, 10, 0)));
    JoinsCell(CellAfter(events), r);
  }

  lemma JoinsCell(c: Cell, r: nat)
    requires CellOk(c) && AllAsk(c) && r !in c.ues
    ensures var d := CellStep(CellStep(c, Cfg(r, seq(MAX_LC, _ => Both))), Report(r, DlBuffer(0, 10, 0)));
            AllAsk(d) && |d.order| == |c.order| + 1 && d.ues.Keys == c.ues.Keys + {r}
  {
    hide Requested, Configured, Changed, Ascending, Insert;
    JoiningAsks(r);
    InsertLength(c.order, r);
  }

  lemma {:induction false} InsertLength(s: seq<nat>, x: nat)
    ensures |Insert(s, x)| == |s| + 1
  {
    if s != [] { InsertLength(s[1..], x); }
  }

  function FourUsers(): seq<Event> {
    Joining(4097) + Joining(4098) + Joining(4099) + Joining(4100)
  }

  lemma FourAsk()
    ensures AllAsk(CellAfter(FourUsers())) && |CellAfter(FourUsers()).order| == 4
  {
    hide CellAfter, Requested, Joining;
    NobodyYet();
    assert [] + Joining(4097) == Joining(4097);
    Joins([], 4097);
    Joins(Joining(4097), 4098);
    Joins(Joining(4097) + Joining(4098), 4099);
    Joins(Joining(4097) + Joining(4098) + Joining(4099), 4100);
  }

  lemma NobodyYet()
    ensures CellAfter([]).order == [] && CellAfter([]).ues == map[]
  {
  }

  /** After a pass: the granted user is served, and has ten bytes again. */
  function Refill(c: Cell): seq<Event>
    requires CellOk(c)
  {
    var data := DlOf(c).data;
    if data == [] then []
    else
      [Report(data[0].rnti, Serve(if data[0].iSf < 8 then data[0].iSf else 0))] + [Report(data[0].rnti, DlBuffer(0, 10, 0))]
  }

  /** `n` passes over four users that always have something to send. */
  function Busy(n: nat): seq<Event> {
    if n == 0 then FourUsers() else Busy(n - 1) + [Pass] + Refill(CellAfter(Busy(n - 1)))
  }

  lemma AskingIsDl(ue: UeState)
    requires |ue.lch| == MAX_LC && Requested(ue).min > 0
    ensures IsDl(ue.lch[0])
  {
  }

  lemma TenAsk(ue: UeState)
    requires |ue.lch| == MAX_LC && IsDl(ue.lch[0])
    ensures Requested(Changed(ue, DlBuffer(0, 10, 0))).min > 0
  {
    hide RbBytes, CeTotal;
  }

  lemma ServeKeepsDirection(ue: UeState, iSf: SfIndex)
    requires |ue.lch| == MAX_LC
    ensures IsDl(Changed(ue, Serve(iSf)).lch[0]) == IsDl(ue.lch[0])
  {
    hide Sweep, PickMcs, CesThatFit, Requested, TbsBytes, CeTotal;
  }

  lemma RefillAsks(events: seq<Event>, r: nat, iSf: SfIndex)
    requires AllAsk(CellAfter(events)) && r in CellAfter(events).ues
    ensures var c := CellAfter(events + ([Report(r, Serve(iSf))] + [Report(r, DlBuffer(0, 10, 0))]));
            AllAsk(c) && c.order == CellAfter(events).order
  {
    hide CellAfter, Requested, Changed, Ascending;
    var served := events + [Report(r, Serve(iSf))];
    var ue := CellAfter(events).ues[r];
    assert events + ([Report(r, Serve(iSf))] + [Report(r, DlBuffer(0, 10, 0))]) == served + [Report(r, DlBuffer(0, 10, 0))];
    Plus(events, Report(r, Serve(iSf)));
    Plus(served, Report(r, DlBuffer(0, 10, 0)));
    AskingIsDl(ue);
    ServeKeepsDirection(ue, iSf);
    TenAsk(Changed(ue, Serve(iSf)));
  }

  lemma FirstIsKnown(c: Cell)
    requires CellOk(c) && DlOf(c).data != []
    ensures DlOf(c).data[0].rnti in c.ues
  {
    hide DlOf;
    GrantedIsKnown(c, DlOf(c).data[0].rnti);
  }

  lemma RoundAsks(events: seq<Event>)
    requires AllAsk(CellAfter(events))
    ensures var c := CellAfter(events + [Pass] + Refill(CellAfter(events))); AllAsk(c) && c.order == CellAfter(events).order
  {
    hide CellAfter, CellStep, Requested, DlOf, CellOk;
    var c := CellAfter(events);
    Plus(events, Pass);
    PassKeepsRequests(c);
    if DlOf(c).data != [] {
      FirstIsKnown(c);
      RefillAsks(events + [Pass], DlOf(c).data[0].rnti, if DlOf(c).data[0].iSf < 8 then DlOf(c).data[0].iSf else 0);
    } else {
      assert events + [Pass] + Refill(c) == events + [Pass];
    }
  }

  lemma {:induction false} BusyAsks(n: nat)
    ensures AllAsk(CellAfter(Busy(n))) && |CellAfter(Busy(n)).order| == 4
  {
    hide CellAfter, AllAsk, FourUsers, Refill;
    if n == 0 {
      FourAsk();
    } else {
      BusyAsks(n - 1);
      RoundAsks(Busy(n - 1));
    }
  }

  /** In such a run the fourth user is granted in no pass. */
  lemma FourthStarves(n: nat)
    ensures |CellAfter(Busy(n)).order| == 4 && !GrantedPlace(CellAfter(Busy(n)), 3)
  {
    hide CellAfter, AllAsk, GrantedPlace, Busy;
    BusyAsks(n);
    OthersAreLeftOut(Busy(n), 3, 4);
  }
}
