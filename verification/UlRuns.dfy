/** The uplink over whole runs of the carrier: how long a user is held off after a downlink grant. */
module UlRuns {
  import opened Timing
  import opened Search
  import opened Table
  import opened Options
  import opened DlSpec
  import opened DlRuns
  import opened Packing
  import opened Estimate
  import opened SchedulerUe
  import opened UlSpec
  import opened Msg3Runs
  import opened CellSpec
  import opened CellRuns

  // ---------------------------------------------------------------- the visits of one pass

  lemma RoundRobinDistinct(users: seq<nat>, tti: nat)
    requires Ascending(users)
    ensures Distinct(RoundRobin(users, tti))
  {
    if users != [] {
      var p := tti % |users|;
      var r := RoundRobin(users, tti);
      forall i, j | 0 <= i < j < |r| ensures r[i] != r[j] {
        assert r[i] == if i < |users| - p then users[p + i] else users[i - (|users| - p)];
        assert r[j] == if j < |users| - p then users[p + j] else users[j - (|users| - p)];
      }
    }
  }

  /** How the attempt to serve user `r` ends, if its visit makes one. */
  function Attempt(dl: Table, v: UlVisit, ttiRx: nat, r: nat): Option<Outcome>
    requires UesOk(v.ues) && r in v.ues
  {
    if HasUlAlloc(v.allocs, r) || PendingUl(v.ues[r]) == 0 then None
    else Some(AllocNewTx(dl, v.ul, v.allocs, ttiRx, v.ues[r]).outcome)
  }

  /** The same within the visits of all users in `order`. */
  function AttemptOf(dl: Table, v: UlVisit, ttiRx: nat, order: seq<nat>, r: nat): Option<Outcome>
    requires UesOk(v.ues) && forall k :: 0 <= k < |order| ==> order[k] in v.ues
  {
    if order == [] then None
    else
      var n := |order| - 1;
      if order[n] == r then Attempt(dl, VisitsUl(dl, v, ttiRx, order[..n]), ttiRx, r)
      else AttemptOf(dl, v, ttiRx, order[..n], r)
  }

  predicate IsRefusal(o: Option<Outcome>) {
    o.Some? && o.value != Success
  }

  lemma VisitOther(dl: Table, v: UlVisit, ttiRx: nat, x: nat, r: nat)
    requires UesOk(v.ues) && x in v.ues && r in v.ues && x != r
    ensures VisitUl(dl, v, ttiRx, x).ues[r] == v.ues[r]
  {
    hide AllocNewTx, PendingUl, ClearReports;
  }

  /** A refusal costs at most one of the attempts that a user must wait; it is served only when none is left. */
  lemma VisitSelf(dl: Table, v: UlVisit, ttiRx: nat, r: nat)
    requires UesOk(v.ues) && r in v.ues
    ensures var w, o := VisitUl(dl, v, ttiRx, r), Attempt(dl, v, ttiRx, r);
            && w.ues[r].timer + (if IsRefusal(o) then 1 else 0) >= v.ues[r].timer
            && (o == Some(Success) ==> v.ues[r].timer == 0)
            && (w.allocs != v.allocs ==> o == Some(Success) && |w.allocs| == |v.allocs| + 1 && w.allocs[|v.allocs|].rnti == r)
  {
    hide PendingUl, IsValidDlSf, TtiAdd;
  }

  lemma {:induction false} PassTimer(dl: Table, v: UlVisit, ttiRx: nat, order: seq<nat>, r: nat)
    requires UesOk(v.ues) && (forall k :: 0 <= k < |order| ==> order[k] in v.ues) && r in v.ues && Distinct(order)
    ensures var w, o := VisitsUl(dl, v, ttiRx, order), AttemptOf(dl, v, ttiRx, order, r);
            && (r !in order ==> w.ues[r] == v.ues[r] && o == None)
            && w.ues[r].timer + (if IsRefusal(o) then 1 else 0) >= v.ues[r].timer
            && (o == Some(Success) ==> v.ues[r].timer == 0)
  {
    hide VisitUl, Attempt;
    if order != [] {
      var n := |order| - 1;
      var w := VisitsUl(dl, v, ttiRx, order[..n]);
      assert order == order[..n] + [order[n]] && Distinct(order[..n]);
      PassTimer(dl, v, ttiRx, order[..n], r);
      if order[n] == r {
        assert r !in order[..n];
        VisitSelf(dl, w, ttiRx, r);
      } else {
        VisitOther(dl, w, ttiRx, order[n], r);
        assert r !in order ==> r !in order[..n];
      }
    }
  }

  /** Who is given a block by an uplink pass has made a successful attempt in it. */
  lemma {:induction false} GrantMeansSuccess(dl: Table, v: UlVisit, ttiRx: nat, order: seq<nat>, k: nat)
    requires UesOk(v.ues) && (forall i :: 0 <= i < |order| ==> order[i] in v.ues) && Distinct(order)
    requires var a := VisitsUl(dl, v, ttiRx, order).allocs; |v.allocs| <= k < |a|
    ensures var r := VisitsUl(dl, v, ttiRx, order).allocs[k].rnti;
            r in order && AttemptOf(dl, v, ttiRx, order, r) == Some(Success)
  {
    hide VisitUl, Attempt;
    if order != [] {
      var n := |order| - 1;
      var w := VisitsUl(dl, v, ttiRx, order[..n]);
      UlVisitAdds(dl, w, ttiRx, order[n]);
      VisitSelf(dl, w, ttiRx, order[n]);
      if k < |w.allocs| {
        GrantMeansSuccess(dl, v, ttiRx, order[..n], k);
        assert w.allocs[k] == VisitsUl(dl, v, ttiRx, order).allocs[k];
      }
    }
  }

  // ---------------------------------------------------------------- over a run

  predicate DlGranted(c: Cell, r: nat)
    requires CellOk(c)
  {
    HasAlloc(DlOf(c).data, r)
  }

  predicate UlGranted(c: Cell, r: nat)
    requires CellOk(c)
  {
    exists k :: 0 <= k < |UlOf(c).allocs| && UlOf(c).allocs[k].kind.NewTx? && UlOf(c).allocs[k].rnti == r
  }

  /** How user `r` fares in the uplink pass. */
  function AttemptIn(c: Cell, r: nat): Option<Outcome>
    requires CellOk(c)
  {
    if r in c.ues then AttemptOf(DlOf(c).next.table, UlStart(c), TtiOf(c), UlOrder(c), r) else None
  }

  /** Passes among events i, ..., j - 1 in which the attempt of user `r` was refused. */
  function Refusals(events: seq<Event>, i: nat, j: nat, r: nat): nat
    requires i <= j <= |events|
    decreases j - i
  {
    if i == j then 0
    else Refusals(events, i, j - 1, r)
         + (if events[j - 1].Pass? && IsRefusal(AttemptIn(CellAfter(events[..j - 1]), r)) then 1 else 0)
  }

  lemma GrantedIsKnown(c: Cell, r: nat)
    requires CellOk(c) && DlGranted(c, r)
    ensures r in c.ues
  {
    hide BcPart, AfterBc, RaPart, RaMarks, Reserve, TtiAdd, Requested, UserMarks, UserCanStart;
    var reqs := Reqs(c);
    var tti := TtiAdd(TtiOf(c), DL_DELAY);
    var t2 := Reserve(AfterBc(c.dl, TtiOf(c), tti), tti, Offsets(RaMarks(tti, RaPart(c.dl, TtiOf(c), tti))));
    OneUserPerPass(UserState(t2, c.dl.throttle, [], []), tti, reqs);
  }

  /** The records before the uplink pass: who was just granted a downlink block waits for 30 attempts. */
  lemma MidTimer(c: Cell, r: nat)
    requires CellOk(c) && r in c.ues
    ensures UesMid(c)[r].timer == if DlGranted(c, r) then 30 else c.ues[r].timer
  {
    hide DlOf, HasAlloc;
    GrantsOk(c.ues, DlOf(c).data);
  }

  lemma UlTimer(c: Cell, r: nat)
    requires CellOk(c) && r in c.ues
    ensures var o := AttemptIn(c, r);
            && AfterBoth(c).ues[r].timer + (if IsRefusal(o) then 1 else 0) >= UesMid(c)[r].timer
            && (o == Some(Success) ==> UesMid(c)[r].timer == 0)
  {
    hide DlOf, UesMid, SlotsMid, ParkOf, AttemptOf, VisitsUl, TtiAdd, TtiOf, RoundRobin, Index, IsRefusal;
    RoundRobinDistinct(c.order, TtiAdd(TtiOf(c), UL_DELAY));
    PassTimer(DlOf(c).next.table, UlStart(c), TtiOf(c), UlOrder(c), r);
  }

  /** Whatever happens between the passes, the wait is never cut short. */
  lemma OtherTimer(c: Cell, e: Event, r: nat)
    requires CellOk(c) && r in c.ues && !e.Pass? && e != Rem(r)
    ensures var d := CellStep(c, e); r in d.ues && (d.ues[r].timer == c.ues[r].timer || d.ues[r].timer == 30)
  {
    hide AddRach, Insert, Without, Ascending, FormatN1;
  }

  /** The Msg3 that the slot of time `n` holds after `ttis`. */
  function Arriving(ttis: seq<Tti>, n: nat): seq<UlAlloc> {
    if n >= MSG3_DELAY && Delivered(n) then ParkedFor(RING - DL_DELAY, ttis, n) else []
  }

  /** Before the uplink pass, its slot holds the Msg3 that was parked for it, if that was delivered. */
  lemma StartIsParked(events: seq<Event>)
    ensures var c := CellAfter(events);
            && UlStart(c).allocs == Arriving(Ttis(events), c.now)
            && |UlStart(c).allocs| <= 1 && forall k :: 0 <= k < |UlStart(c).allocs| ==> UlStart(c).allocs[k].kind.Msg3?
  {
    hide CellAfter, Ttis, Index, Bind, At, SlotsAfter, RingInv, DlOf, ParkOf, UesMid, AfterDl, ParkedFor, Delivered;
    var c := CellAfter(events);
    CellIsSlotRun(events);
    RunKeepsInv(RING - DL_DELAY, Ttis(events));
    MidSlot(c, Ttis(events));
    ParkedOk(RING - DL_DELAY, Ttis(events), c.now);
  }

  lemma ParkedOk(start: nat, ttis: seq<Tti>, n: nat)
    requires forall k :: 0 <= k < |ttis| ==> TtiOk(ttis[k])
    ensures var p := ParkedFor(start, ttis, n); |p| <= 1 && forall k :: 0 <= k < |p| ==> p[k].kind.Msg3?
  {
  }

  lemma MidSlot(c: Cell, ttis: seq<Tti>)
    requires CellOk(c) && RingInv(RING - DL_DELAY, ttis, c.slots) && c.now == RING - DL_DELAY + |ttis|
    ensures UlStart(c).allocs == Arriving(ttis, c.now)
  {
    hide Index, At, RingInv, DlOf, ParkOf, UesMid, AfterDl, ParkedFor, Delivered, CellOk;
    var out := DlOf(c);
    var t := Tti(out.bc, RarList(out.rar), out.data, out.rarDone, Parked(c.slots, c.ul, TtiOf(c), out, c.ues.Keys).allocs, []);
    DlEffect(RING - DL_DELAY, ttis, c.slots, t);
    IndexOfTti(c.now);
  }

  /** A grant for new data in the result of an uplink pass comes from a successful attempt in it. */
  lemma UlGrantedMeans(events: seq<Event>, r: nat)
    requires UlGranted(CellAfter(events), r)
    ensures var c := CellAfter(events); r in c.ues && AttemptIn(c, r) == Some(Success)
  {
    hide CellAfter, DlOf, UesMid, SlotsMid, ParkOf, AttemptOf, VisitsUl, TtiAdd, TtiOf, RoundRobin, Index;
    var c := CellAfter(events);
    var k :| 0 <= k < |UlOf(c).allocs| && UlOf(c).allocs[k].kind.NewTx? && UlOf(c).allocs[k].rnti == r;
    StartIsParked(events);
    UlVisitsExtend(DlOf(c).next.table, UlStart(c), TtiOf(c), UlOrder(c));
    RoundRobinDistinct(c.order, TtiAdd(TtiOf(c), UL_DELAY));
    GrantMeansSuccess(DlOf(c).next.table, UlStart(c), TtiOf(c), UlOrder(c), k);
  }

  /** After event j, what is left of a wait of 30 and what has been refused since event i make up 30. */
  lemma {:induction false} WaitLasts(events: seq<Event>, i: nat, j: nat, r: nat)
    requires i < j <= |events| && events[i].Pass? && DlGranted(CellAfter(events[..i]), r)
    requires forall k :: i < k < j ==> events[k] != Rem(r)
    ensures var c := CellAfter(events[..j]); r in c.ues && c.ues[r].timer + Refusals(events, i, j, r) >= 30
    decreases j - i
  {
    hide CellAfter, CellStep, AttemptIn, CellOk, DlGranted, IsRefusal;
    var c := CellAfter(events[..j - 1]);
    CellMore(events, j - 1);
    if i < j - 1 {
      WaitLasts(events, i, j - 1, r);
    } else {
      GrantedIsKnown(c, r);
    }
    if events[j - 1].Pass? { WaitPass(c, r); } else { OtherTimer(c, events[j - 1], r); }
  }

  lemma CellMore(events: seq<Event>, k: nat)
    requires k < |events|
    ensures CellAfter(events[..k + 1]) == CellStep(CellAfter(events[..k]), events[k])
  {
    hide CellStep;
    assert events[..k + 1][..k] == events[..k];
  }

  lemma WaitPass(c: Cell, r: nat)
    requires CellOk(c) && r in c.ues
    ensures var d := CellStep(c, Pass); var w := if DlGranted(c, r) then 30 else c.ues[r].timer;
            r in d.ues && d.ues[r].timer + (if IsRefusal(AttemptIn(c, r)) then 1 else 0) >= w
  {
    hide DlOf, AttemptIn, UesMid, UlOf, SlotsMid, CellOk, DlGranted;
    MidTimer(c, r);
    UlTimer(c, r);
  }

  /** A user that is granted a downlink block by the pass of event i and, while it stays configured, an uplink
      block for new data by the pass of event j was refused in at least 30 passes from i on, whatever else
      happened in between. */
  lemma HoldOff(events: seq<Event>, i: nat, j: nat, r: nat)
    requires i <= j < |events| && events[i].Pass? && events[j].Pass?
    requires forall k :: i < k < j ==> events[k] != Rem(r)
    requires DlGranted(CellAfter(events[..i]), r) && UlGranted(CellAfter(events[..j]), r)
    ensures Refusals(events, i, j, r) >= 30
  {
    hide CellAfter, AttemptIn, CellOk, UesMid, UlGranted, DlGranted;
    var c := CellAfter(events[..j]);
    if i < j { WaitLasts(events, i, j, r); }
    UlGrantedMeans(events[..j], r);
    UlTimer(c, r);
    MidTimer(c, r);
  }
}
