/** Runs of the carrier in which uplink reservations meet: blocks that overlap, and marks on what is taken. */
module UplinkScenes {
  import opened Timing
  import opened Search
  import opened Table
  import opened Options
  import opened DlSpec
  import opened DlRuns
  import opened Sharing
  import opened Packing
  import opened Estimate
  import opened SchedulerUe
  import opened UlSpec
  import opened Msg3Runs
  import opened CellSpec
  import opened CellRuns
  import opened UlRuns
  import opened Msg3Fate
  import opened Npdcch
  import opened Scenes
  import opened CellScenes
  import opened NpdcchRuns
  import opened UplinkSafety
  import opened UplinkBlocks

  // ---------------------------------------------------------------- one user asks

  /** User `q` has reported data and waits for nothing; the others have nothing to send in either direction. */
  ghost predicate OneAsks(ues: map<nat, UeState>, q: nat) {
    && UesOk(ues) && q in ues && ues[q].timer == 0 && PendingUl(ues[q]) > 0
    && (forall r :: r in ues && r != q ==> PendingUl(ues[r]) == 0)
    && forall r :: r in ues ==> Requested(ues[r]).min == 0
  }

  lemma {:induction false} OthersPass(dl: Table, v: UlVisit, ttiRx: nat, order: seq<nat>, q: nat)
    requires OneAsks(v.ues, q) && (forall k :: 0 <= k < |order| ==> order[k] in v.ues) && q !in order
    ensures VisitsUl(dl, v, ttiRx, order) == v
  {
    hide AllocNewTx, PendingUl, Requested;
    if order != [] { OthersPass(dl, v, ttiRx, order[..|order| - 1], q); }
  }

  lemma AskerVisit(dl: Table, v: UlVisit, ttiRx: nat, q: nat)
    requires OneAsks(v.ues, q) && v.allocs == [] && UlOpen(dl, ttiRx) && !v.ul[TtiAdd(ttiRx, UL_DELAY)]
    ensures var w := VisitUl(dl, v, ttiRx, q); |w.allocs| == 1 && w.ues == v.ues[q := ClearReports(v.ues[q])]
  {
    hide PendingUl, Requested, TtiAdd, IsValidDlSf;
    assert !HasUlAlloc(v.allocs, q);
  }

  /** It is served. */
  lemma {:induction false} AskerIsServed(dl: Table, v: UlVisit, ttiRx: nat, order: seq<nat>, q: nat)
    requires OneAsks(v.ues, q) && (forall k :: 0 <= k < |order| ==> order[k] in v.ues) && q in order && Distinct(order)
    requires v.allocs == [] && UlOpen(dl, ttiRx) && !v.ul[TtiAdd(ttiRx, UL_DELAY)]
    ensures var w := VisitsUl(dl, v, ttiRx, order); |w.allocs| >= 1 && w.ues == v.ues[q := ClearReports(v.ues[q])]
  {
    hide VisitUl, UlOpen, TtiAdd, OneAsks, ClearReports;
    var n := |order| - 1;
    if order[n] == q {
      assert q !in order[..n];
      OthersPass(dl, v, ttiRx, order[..n], q);
      AskerVisit(dl, v, ttiRx, q);
    } else {
      assert order == order[..n] + [order[n]];
      assert q in order[..n] && Distinct(order[..n]);
      AskerIsServed(dl, v, ttiRx, order[..n], q);
      AskerKnown(v.ues, q);
      ServedRest(dl, VisitsUl(dl, v, ttiRx, order[..n]), ttiRx, order[n], v.ues, q);
    }
  }

  lemma AskerKnown(ues: map<nat, UeState>, q: nat)
    requires OneAsks(ues, q)
    ensures UesOk(ues) && q in ues
  {
  }

  lemma ServedRest(dl: Table, w: UlVisit, ttiRx: nat, r: nat, ues: map<nat, UeState>, q: nat)
    requires OneAsks(ues, q) && UesOk(w.ues) && w.ues == ues[q := ClearReports(ues[q])] && r in ues && r != q
    ensures VisitUl(dl, w, ttiRx, r) == w
  {
    hide AllocNewTx, PendingUl, Requested, ClearReports;
  }

  // ---------------------------------------------------------------- a pass with one asker

  /** The downlink is idle, nothing is parked, and user `q` asks. */
  ghost predicate Calm(c: Cell, q: nat) {
    && CellOk(c) && OneAsks(c.ues, q) && c.dl.rars == [] && !c.dl.throttle.active && UlStart(c).allocs == []
  }

  lemma CalmPass(c: Cell, q: nat)
    requires Calm(c, q)
    ensures DlOf(c) == DlPass(c.dl, TtiOf(c), []) && !DlOf(c).rarDone && DlOf(c).data == []
    ensures ParkOf(c).ul == c.ul && UesMid(c) == c.ues
  {
    hide TtiAdd, TtiOf, UlStart, PendingUl, BcPart, AfterBc, Reserve, Requested, Ascending;
    assert forall k :: 0 <= k < |Reqs(c)| ==> Reqs(c)[k].min == 0;
    SamePass(c.dl, TtiOf(c), Reqs(c));
  }

  lemma CalmGrants(c: Cell, q: nat)
    requires Calm(c, q) && UlOpen(DlOf(c).next.table, TtiOf(c)) && !c.ul[TtiAdd(TtiOf(c), UL_DELAY)]
    ensures GrantsNewTx(c) && UlOf(c).ues == c.ues[q := ClearReports(c.ues[q])]
    ensures UlOf(c).ul == c.ul[TtiOf(c) := false][TtiAdd(TtiOf(c), UL_DELAY) := true][TtiAdd(TtiOf(c), DL_DELAY) := true]
  {
    hide DlOf, ParkOf, UesMid, SlotsMid, VisitsUl, UlOpen, OneAsks, ClearReports, Index, RoundRobin, Requested;
    hide PendingUl, Ascending;
    CalmPass(c, q);
    AskerKnown(c.ues, q);
    Apart13(c.now);
    RoundRobinDistinct(c.order, TtiAdd(TtiOf(c), UL_DELAY));
    InRoundRobin(c.order, TtiAdd(TtiOf(c), UL_DELAY), q);
    AskerIsServed(DlOf(c).next.table, UlStart(c), TtiOf(c), UlOrder(c), q);
    VisitsTable(DlOf(c).next.table, UlStart(c), TtiOf(c), UlOrder(c));
  }

  lemma Apart13(now: nat)
    ensures TtiAdd(At(0, now), UL_DELAY) != At(0, now)
  {
  }

  lemma InRoundRobin(users: seq<nat>, tti: nat, q: nat)
    requires q in users
    ensures q in RoundRobin(users, tti)
  {
    var p := tti % |users|;
    assert users == users[..p] + users[p..];
  }

  /** A pass without requests on an idle downlink. */
  lemma IdleStep(s: Sys, n: nat, us: seq<Reservation>, c: Cell)
    requires Scene(s, n, us, Throttle(false, 0)) && c.dl == s.dl && c.now == s.now
    ensures Scene(Step(s, Input([], [])), n + 1, us, Throttle(false, 0)) && Step(s, Input([], [])).dl == DlPass(c.dl, TtiOf(c), []).next
  {
    hide Scene, DlPass, At;
    QuietStep(s, n, us, Throttle(false, 0), []);
    SceneTx(s, n, us, Throttle(false, 0));
    assert s.dl.(rars := AddAll(s.dl.rars, [])) == s.dl;
  }

  /** The subframe of the DCI is open when the downlink is idle. */
  lemma CalmOpen(s: Sys, n: nat, us: seq<Reservation>, c: Cell)
    requires Scene(s, n, us, Throttle(false, 0)) && c.dl == s.dl && c.now == s.now && UserTime(RING + n)
    requires Clear(us, RING + n + 1, RING + n)
    ensures UlOpen(DlPass(c.dl, TtiOf(c), []).next.table, TtiOf(c))
    ensures Scene(Step(s, Input([], [])), n + 1, us, Throttle(false, 0)) && Step(s, Input([], [])).dl == DlPass(c.dl, TtiOf(c), []).next
  {
    hide Scene, Clear, UserTime, DlPass, At, TtiAdd, Held, IsValidDlSf, UlOpen, Step, Inv;
    var t := Step(s, Input([], []));
    IdleStep(s, n, us, c);
    SceneTx(s, n, us, Throttle(false, 0));
    SceneTx(t, n + 1, us, Throttle(false, 0));
    SceneFree(t, n + 1, us, Throttle(false, 0), RING + n);
    TableAt(t, RING + n);
    TxIndex(s.now);
    OpenAt(t.dl.table, TtiOf(c), RING + n);
  }

  lemma OpenAt(t: Table, ttiRx: nat, a: nat)
    requires UserTime(a) && TtiAdd(ttiRx, DL_DELAY) == At(0, a) && !t[At(0, a)]
    ensures UlOpen(t, ttiRx)
  {
    hide At, IsValidDlSf, IsSib1Sf, IsSib2Start, TtiAdd;
    Calendar(a);
  }

  // ---------------------------------------------------------------- what is parked is in the log

  lemma LogPlus(events: seq<Event>, e: Event)
    ensures UlLog(events + [e]) == UlLog(events) + if e.Pass? then HoldsOf(CellAfter(events)) else []
  {
    hide HoldsOf, CellAfter;
    assert (events + [e])[..|events|] == events;
  }

  lemma {:induction false} ParkedIsLogged(events: seq<Event>, n: nat)
    requires n < |Ttis(events)| && Ttis(events)[n].park != []
    ensures var p := RING - DL_DELAY + n; UlHold(Msg3At(p, 0), Msg3Block, p) in UlLog(events)
  {
    hide TtiDone, CellAfter, HoldsOf, Msg3At;
    var k := |events| - 1;
    if n < |Ttis(events[..k])| {
      ParkedIsLogged(events[..k], n);
    } else {
      ParkedNow(events[..k]);
    }
  }

  lemma ParkedNow(events: seq<Event>)
    requires TtiDone(CellAfter(events)).park != []
    ensures var c := CellAfter(events);
            c.now == RING - DL_DELAY + |Ttis(events)| && UlHold(Msg3At(c.now, 0), Msg3Block, c.now) in HoldsOf(c)
  {
    hide CellAfter, Ttis, DlOf, UlOf, UlStart, ParkOf, OwesMsg3, GrantsNewTx, SlotsAfter, TtiOk, Msg3At;
    ParkedExactly(events);
    CellIsSlotRun(events);
    var c := CellAfter(events);
    assert HoldsOf(c)[0] == UlHold(Msg3At(c.now, 0), Msg3Block, c.now);
  }

  /** The start that a pass of time `now` would grant is free, and no Msg3 was parked for that pass. */
  predicate RoomFor(log: seq<UlHold>, now: nat) {
    forall k :: 0 <= k < |log| ==> log[k].at != now + UL_DELAY && (log[k].owner.Msg3Block? ==> log[k].pass + MSG3_DELAY != now)
  }

  lemma NothingArrives(events: seq<Event>)
    requires RoomFor(UlLog(events), CellAfter(events).now)
    ensures UlStart(CellAfter(events)).allocs == []
  {
    hide CellAfter, Ttis, UlStart, UlLog, Delivered, SlotsAfter, TtiOk, Msg3At;
    var now := CellAfter(events).now;
    StartIsParked(events);
    if Arriving(Ttis(events), now) != [] {
      CellIsSlotRun(events);
      ParkedIsLogged(events, now - MSG3_DELAY - (RING - DL_DELAY));
    }
  }

  lemma StartFree(events: seq<Event>)
    requires RoomFor(UlLog(events), CellAfter(events).now)
    ensures !CellAfter(events).ul[TtiAdd(TtiOf(CellAfter(events)), UL_DELAY)]
  {
    hide CellAfter, UlLog, At;
    UlIndex(CellAfter(events).now);
    UplinkRingIsExact(events, CellAfter(events).now + UL_DELAY);
  }

  // ---------------------------------------------------------------- a carrier with nothing to send

  /** Nobody has anything to send in either direction; `us` and `log` are all that has been reserved. */
  ghost predicate Still(events: seq<Event>, n: nat, us: seq<Reservation>, log: seq<UlHold>) {
    && Scene(Run(Inputs(events)), n, us, Throttle(false, 0)) && PendingRach(events) == [] && UlLog(events) == log
    && NothingToSend(CellAfter(events).ues) && CellAfter(events).now == RING - DL_DELAY + n
  }

  ghost predicate NoDlWanted(ues: map<nat, UeState>) {
    UesOk(ues) && forall r :: r in ues ==> Requested(ues[r]).min == 0
  }

  ghost predicate NothingToSend(ues: map<nat, UeState>) {
    NoDlWanted(ues) && forall r :: r in ues ==> PendingUl(ues[r]) == 0
  }

  lemma {:induction false} NobodyServed(dl: Table, v: UlVisit, ttiRx: nat, order: seq<nat>)
    requires NothingToSend(v.ues) && forall k :: 0 <= k < |order| ==> order[k] in v.ues
    ensures VisitsUl(dl, v, ttiRx, order) == v
  {
    hide AllocNewTx, PendingUl, Requested;
    if order != [] { NobodyServed(dl, v, ttiRx, order[..|order| - 1]); }
  }

  lemma StillReqs(c: Cell)
    requires CellOk(c) && NoDlWanted(c.ues)
    ensures forall k :: 0 <= k < |Reqs(c)| ==> Reqs(c)[k].min == 0
  {
    hide TtiAdd, Requested, Ascending;
  }

  /** A pass of a still carrier grants nobody. */
  lemma StillUl(c: Cell)
    requires CellOk(c) && NothingToSend(c.ues) && DlOf(c).data == []
    ensures !GrantsNewTx(c) && AfterBoth(c).ues == c.ues
  {
    hide DlOf, ParkOf, SlotsMid, VisitsUl, NothingToSend, Index, RoundRobin, CellOk;
    NobodyServed(DlOf(c).next.table, UlStart(c), TtiOf(c), UlOrder(c));
  }

  lemma SameStep(s: Sys, rach: seq<RarInfo>, reqs: seq<DlReq>)
    requires !s.dl.throttle.active && forall k :: 0 <= k < |reqs| ==> reqs[k].min == 0
    ensures PassOf(s, Input(rach, reqs)) == PassOf(s, Input(rach, [])) && Step(s, Input(rach, reqs)) == Step(s, Input(rach, []))
    ensures PassOf(s, Input(rach, [])).data == []
  {
    hide DlPass, AddAll;
    SamePass(s.dl.(rars := AddAll(s.dl.rars, rach)), At(0, s.now), reqs);
    NoData(s.dl.(rars := AddAll(s.dl.rars, rach)), At(0, s.now));
  }

  lemma NoData(d: DlState, ttiRx: nat)
    requires ttiRx < RING
    ensures DlPass(d, ttiRx, []).data == []
  {
    hide BcPart, AfterBc, RaPart, RaMarks, Reserve, TtiAdd;
  }

  /** The downlink of a pass in which nobody wants anything. */
  lemma StillDl(events: seq<Event>, n: nat, us: seq<Reservation>)
    requires Scene(Run(Inputs(events)), n, us, Throttle(false, 0)) && PendingRach(events) == []
    requires NoDlWanted(CellAfter(events).ues)
    ensures Scene(Run(Inputs(events + [Pass])), n + 1, us, Throttle(false, 0))
    ensures !DlOf(CellAfter(events)).rarDone && DlOf(CellAfter(events)).data == []
  {
    hide CellAfter, Inputs, Run, Scene, NoDlWanted, At, DlOf, PassOf, Step, Reqs, CellOk, PendingRach;
    var c, s := CellAfter(events), Run(Inputs(events));
    SceneTx(s, n, us, Throttle(false, 0));
    CellIsRun(events);
    PassIsPassOf(c, s, []);
    StillReqs(c);
    SameStep(s, [], Reqs(c));
    QuietStep(s, n, us, Throttle(false, 0), []);
    RunMore(Inputs(events), Input([], Reqs(c)));
    Plus(events, Pass);
  }

  lemma StillPass(events: seq<Event>, n: nat, us: seq<Reservation>, log: seq<UlHold>)
    requires Still(events, n, us, log)
    ensures Still(events + [Pass], n + 1, us, log)
  {
    hide CellAfter, Inputs, Run, Scene, UlLog, NoDlWanted, DlOf, CellOk, GrantsNewTx, PendingRach, UlOf, SlotsMid, PendingUl;
    StillDl(events, n, us);
    StillUl(CellAfter(events));
    Plus(events, Pass);
    LogPlus(events, Pass);
    assert UlLog(events + [Pass]) == log;
  }

  /** The downlink of a pass that answers a detection. */
  lemma StillRarDl(events: seq<Event>, info: RarInfo, n: nat, us: seq<Reservation>)
    requires Scene(Run(Inputs(events)), n, us, Throttle(false, 0)) && PendingRach(events) == [info]
    requires NoDlWanted(CellAfter(events).ues) && RarTime(RING + n) && Clear(us, RING + n, RING + n)
    ensures Scene(Run(Inputs(events + [Pass])), n + 1, us + RarBlock(RING + n), Throttle(false, 0))
    ensures var out := DlOf(CellAfter(events)); out.rarDone && out.rar.Some? && out.rar.value.grant == info && out.data == []
  {
    hide CellAfter, Inputs, Run, Scene, NoDlWanted, At, DlOf, PassOf, Step, Reqs, CellOk, PendingRach, Clear;
    hide RarTime, RarBlock, RaRnti, Inv;
    var c, s := CellAfter(events), Run(Inputs(events));
    SceneTx(s, n, us, Throttle(false, 0));
    CellIsRun(events);
    PassIsPassOf(c, s, [info]);
    StillReqs(c);
    SameStep(s, [info], Reqs(c));
    SceneFree(s, n, us, Throttle(false, 0), RING + n);
    RarStep(s, n, us, Throttle(false, 0), info, []);
    RunMore(Inputs(events), Input([info], Reqs(c)));
    Plus(events, Pass);
  }

  /** A pass of a still carrier that answers a known user. */
  lemma StillRar(events: seq<Event>, info: RarInfo, n: nat, us: seq<Reservation>)
    requires Still(events, n, us, []) && info.rnti in CellAfter(events).ues
    requires RarTime(RING + n) && Clear(us, RING + n, RING + n)
    ensures Still(events + [Rach(info)] + [Pass], n + 1, us + RarBlock(RING + n), Msg3Holds(RING - DL_DELAY + n))
  {
    hide CellAfter, Inputs, Run, Scene, UlLog, NoDlWanted, DlOf, CellOk, GrantsNewTx, PendingRach, UlOf, SlotsMid;
    hide Clear, RarTime, RarBlock, Msg3Holds, Msg3Free, AddRach, PendingUl;
    var more := events + [Rach(info)];
    Plus(events, Rach(info));
    LogPlus(events, Rach(info));
    StillRarDl(more, info, n, us);
    EmptyLogFree(more);
    StillUl(CellAfter(more));
    Plus(more, Pass);
    LogPlus(more, Pass);
    assert UlLog(more + [Pass]) == Msg3Holds(CellAfter(more).now);
  }

  lemma EmptyLogFree(events: seq<Event>)
    requires UlLog(events) == []
    ensures Msg3Free(CellAfter(events).ul, CellAfter(events).now + DL_DELAY)
  {
    hide CellAfter, UlLog, At, RarDataOffset;
    var ul, tx := CellAfter(events).ul, CellAfter(events).now + DL_DELAY;
    forall i | 0 <= i < UL_LEN ensures !ul[Msg3Slot(tx, i)] {
      assert Msg3Slot(tx, i) == At(0, Msg3At(CellAfter(events).now, i));
      UplinkRingIsExact(events, Msg3At(CellAfter(events).now, i));
    }
  }

  lemma {:induction false} StillPasses(events: seq<Event>, m: nat, n: nat, us: seq<Reservation>, log: seq<UlHold>)
    requires Still(events, n, us, log)
    ensures Still(events + Passes(m), n + m, us, log) && CellAfter(events + Passes(m)).ues.Keys == CellAfter(events).ues.Keys
  {
    hide Still, CellAfter;
    if m == 0 {
      assert events + Passes(m) == events;
    } else {
      var before := events + Passes(m - 1);
      StillPasses(events, m - 1, n, us, log);
      StillPass(before, n + (m - 1), us, log);
      SameUsers(before);
      assert before + [Pass] == events + Passes(m);
    }
  }

  lemma SameUsers(events: seq<Event>)
    ensures CellAfter(events + [Pass]).ues.Keys == CellAfter(events).ues.Keys
  {
    hide CellAfter, DlOf, UlOf, SlotsMid, CellOk;
    Plus(events, Pass);
  }

  lemma StillStart(n: nat)
    ensures Still(Passes(n), n, [], []) && CellAfter(Passes(n)).ues.Keys == {}
  {
    hide Still, CellAfter, Passes;
    NothingYet();
    StillPasses([], n, 0, [], []);
    assert [] + Passes(n) == Passes(n);
  }

  lemma NothingYet()
    ensures Still([], 0, [], []) && CellAfter([]).ues.Keys == {}
  {
    hide Scene, Start;
    StartScene();
  }

  // ---------------------------------------------------------------- a user joins and asks

  /** A record with signalling only, on which `b` bytes are reported. */
  predicate SignallingOnly(ue: UeState, b: nat) {
    && |ue.lch| == MAX_LC && ue.ces == [] && ue.timer == 0 && !ue.sr && ue.lch[0] == Bearer(Both, 0, 0, b)
    && forall l :: 1 <= l < MAX_LC ==> ue.lch[l] == Bearer(Idle, 0, 0, 0)
  }

  lemma SignallingWants(ue: UeState, b: nat)
    requires SignallingOnly(ue, b)
    ensures PendingUl(ue) == b && Requested(ue).min == 0
  {
    NoDataBytes(ue.lch, 1);
    SilentBytes(ue.lch, 1);
    assert UlBytes(ue.lch, 0) == b + UlBytes(ue.lch, 1);
    hide UlBytes, RbBytes;
  }

  /** A user with signalling only, and the same after it has reported one byte. */
  function NewOne(r: nat): (ue: UeState)
    ensures |ue.lch| == MAX_LC
  {
    Configured(NewUe(r), Signalling())
  }

  function AskingOne(r: nat): (ue: UeState)
    ensures |ue.lch| == MAX_LC
  {
    Changed(NewOne(r), UlBuffer(0, 1, true))
  }

  lemma Records(r: nat)
    ensures NewOne(r).rnti == r && SignallingOnly(NewOne(r), 0)
    ensures AskingOne(r).rnti == r && SignallingOnly(AskingOne(r), 1)
    ensures ClearReports(AskingOne(r)).rnti == r && SignallingOnly(ClearReports(AskingOne(r)), 0)
  {
  }

  lemma RecordsWant(r: nat)
    ensures PendingUl(NewOne(r)) == 0 && Requested(NewOne(r)).min == 0
    ensures PendingUl(AskingOne(r)) == 1 && Requested(AskingOne(r)).min == 0
    ensures var ue := ClearReports(AskingOne(r)); |ue.lch| == MAX_LC && PendingUl(ue) == 0 && Requested(ue).min == 0
  {
    hide NewOne, AskingOne, ClearReports, PendingUl, Requested;
    Records(r);
    SignallingWants(NewOne(r), 0);
    SignallingWants(AskingOne(r), 1);
    SignallingWants(ClearReports(AskingOne(r)), 0);
  }

  lemma StillJoin(events: seq<Event>, r: nat, n: nat, us: seq<Reservation>, log: seq<UlHold>)
    requires Still(events, n, us, log) && r !in CellAfter(events).ues
    ensures Still(events + [Cfg(r, Signalling())], n, us, log)
    ensures CellAfter(events + [Cfg(r, Signalling())]).ues == CellAfter(events).ues[r := NewOne(r)]
  {
    hide CellAfter, Inputs, Run, Scene, UlLog, PendingUl, Requested, Configured, Insert, PendingRach;
    Plus(events, Cfg(r, Signalling()));
    LogPlus(events, Cfg(r, Signalling()));
    Records(r);
    RecordsWant(r);
  }

  function Asked(events: seq<Event>, r: nat): seq<Event> {
    events + [Cfg(r, Signalling())] + [Report(r, UlBuffer(0, 1, true))]
  }

  lemma AskedIs(events: seq<Event>, r: nat, n: nat, us: seq<Reservation>, log: seq<UlHold>)
    requires Still(events, n, us, log) && r !in CellAfter(events).ues
    ensures var e := Asked(events, r); var c, s := CellAfter(e), Run(Inputs(e));
            && Scene(s, n, us, Throttle(false, 0)) && PendingRach(e) == [] && UlLog(e) == log
            && c.now == s.now == RING - DL_DELAY + n && c.dl == s.dl
            && c.ues == CellAfter(events).ues[r := AskingOne(r)] && OneAsks(c.ues, r)
  {
    hide CellAfter, Inputs, Run, Scene, UlLog, NothingToSend, Configured, Changed, PendingRach, OneAsks, Inv;
    var joined := events + [Cfg(r, Signalling())];
    StillJoin(events, r, n, us, log);
    Plus(joined, Report(r, UlBuffer(0, 1, true)));
    LogPlus(joined, Report(r, UlBuffer(0, 1, true)));
    SceneTx(Run(Inputs(joined)), n, us, Throttle(false, 0));
    CellIsRun(Asked(events, r));
    AskerAmongStill(CellAfter(joined).ues, r);
  }

  lemma AskerAmongStill(ues: map<nat, UeState>, r: nat)
    requires NothingToSend(ues)
    ensures OneAsks(ues[r := AskingOne(r)], r) && NothingToSend(ues[r := ClearReports(AskingOne(r))])
    ensures OneAsks(ues[r := AskingOne(r)], r) ==> NoDlWanted(ues[r := AskingOne(r)])
  {
    hide PendingUl, Requested, AskingOne, ClearReports;
    Records(r);
    RecordsWant(r);
  }

  /** The pass in which the asking user is served. */
  lemma AskedGranted(events: seq<Event>, r: nat, n: nat, us: seq<Reservation>, log: seq<UlHold>)
    requires Still(events, n, us, log) && r !in CellAfter(events).ues
    requires UserTime(RING + n) && Clear(us, RING + n + 1, RING + n) && RoomFor(log, RING - DL_DELAY + n)
    ensures var c := CellAfter(Asked(events, r));
            && GrantsNewTx(c) && !DlOf(c).rarDone && UlOf(c).ues == CellAfter(events).ues[r := ClearReports(AskingOne(r))]
  {
    hide CellAfter, Inputs, Run, Scene, UlLog, Asked, NothingToSend, PendingRach, OneAsks, Inv, UlStart, UlOf, DlOf, UlOpen;
    hide Clear, UserTime, RoomFor, CellOk, DlPass, Step, ClearReports, AskingOne, GrantsNewTx, TtiOf, TtiAdd;
    var e := Asked(events, r);
    AskedIs(events, r, n, us, log);
    SceneTx(Run(Inputs(e)), n, us, Throttle(false, 0));
    NothingArrives(e);
    StartFree(e);
    CalmOpen(Run(Inputs(e)), n, us, CellAfter(e));
    CalmPass(CellAfter(e), r);
    CalmGrants(CellAfter(e), r);
  }

  /** A user joins, reports a byte and is granted a block at once; the carrier is still again after it. */
  lemma AskedServed(events: seq<Event>, r: nat, n: nat, us: seq<Reservation>, log: seq<UlHold>)
    requires Still(events, n, us, log) && r !in CellAfter(events).ues
    requires UserTime(RING + n) && Clear(us, RING + n + 1, RING + n) && RoomFor(log, RING - DL_DELAY + n)
    ensures Still(Asked(events, r) + [Pass], n + 1, us, log + NewTxHolds(RING - DL_DELAY + n))
    ensures CellAfter(Asked(events, r) + [Pass]).ues.Keys == CellAfter(events).ues.Keys + {r}
  {
    hide CellAfter, Inputs, Run, Scene, UlLog, Asked, NothingToSend, NoDlWanted, PendingRach, OneAsks, UlOf, DlOf, SlotsMid;
    hide Clear, UserTime, RoomFor, CellOk, ClearReports, AskingOne, GrantsNewTx, NewTxHolds;
    var e := Asked(events, r);
    AskedIs(events, r, n, us, log);
    AskedGranted(events, r, n, us, log);
    AskerAmongStill(CellAfter(events).ues, r);
    StillDl(e, n, us);
    Plus(e, Pass);
    PassGives(CellAfter(e));
    LogPlus(e, Pass);
    assert HoldsOf(CellAfter(e)) == NewTxHolds(CellAfter(e).now);
  }

  // ---------------------------------------------------------------- the runs

  /** Users 4097 and 4098 are granted blocks, the second one `m` idle passes after the first. */
  function TwoGrants(n: nat, m: nat): seq<Event> {
    Asked(Asked(Passes(n), 4097) + [Pass] + Passes(m), 4098) + [Pass]
  }

  lemma TwoGrantsIs(n: nat, m: nat)
    requires UserTime(RING + n) && Clear([], RING + n + 1, RING + n)
    requires UserTime(RING + (n + 1 + m)) && Clear([], RING + (n + 1 + m) + 1, RING + (n + 1 + m))
    ensures var p: nat := RING - DL_DELAY + n; UlLog(TwoGrants(n, m)) == NewTxHolds(p) + NewTxHolds(p + 1 + m)
  {
    hide CellAfter, Still, Clear, UserTime, Asked, RoomFor, UlLog, NewTxHolds;
    var p: nat := RING - DL_DELAY + n;
    var first := Asked(Passes(n), 4097) + [Pass];
    StillStart(n);
    NoRoomTaken(p);
    AskedServed(Passes(n), 4097, n, [], []);
    assert [] + NewTxHolds(p) == NewTxHolds(p);
    StillPasses(first, m, n + 1, [], NewTxHolds(p));
    AfterGrantRoom(p, p + 1 + m);
    AskedServed(first + Passes(m), 4098, n + 1 + m, [], NewTxHolds(p));
    StillLog(TwoGrants(n, m), n + 1 + m + 1, [], NewTxHolds(p) + NewTxHolds(p + 1 + m));
  }

  lemma StillLog(events: seq<Event>, n: nat, us: seq<Reservation>, log: seq<UlHold>)
    requires Still(events, n, us, log)
    ensures UlLog(events) == log
  {
  }

  lemma NoRoomTaken(now: nat)
    ensures RoomFor([], now)
  {
  }

  lemma AfterGrantRoom(p: nat, q: nat)
    requires p < q
    ensures RoomFor(NewTxHolds(p), q)
  {
  }

  /** User 4098 is answered. */
  function Answered(n: nat, info: RarInfo): seq<Event> {
    Passes(n) + [Cfg(4098, Signalling())] + [Rach(info)] + [Pass]
  }

  lemma AnsweredIs(n: nat, info: RarInfo)
    requires info.rnti == 4098 && RarTime(RING + n) && Clear([], RING + n, RING + n)
    ensures Still(Answered(n, info), n + 1, RarBlock(RING + n), Msg3Holds(RING - DL_DELAY + n))
    ensures CellAfter(Answered(n, info)).ues.Keys == {4098}
  {
    hide CellAfter, Still, Clear, RarTime, RarBlock, Msg3Holds;
    var joined := Passes(n) + [Cfg(4098, Signalling())];
    StillStart(n);
    StillJoin(Passes(n), 4098, n, [], []);
    StillRar(joined, info, n, []);
    assert [] + RarBlock(RING + n) == RarBlock(RING + n);
    Plus(joined, Rach(info));
    SameUsers(joined + [Rach(info)]);
  }

  /** Then, `m` idle passes later, user 4097 is granted a block. */
  function RarThenGrant(n: nat, m: nat, info: RarInfo): seq<Event> {
    Asked(Answered(n, info) + Passes(m), 4097) + [Pass]
  }

  lemma RarThenGrantIs(n: nat, m: nat, info: RarInfo)
    requires info.rnti == 4098 && RarTime(RING + n) && Clear([], RING + n, RING + n)
    requires UserTime(RING + (n + 1 + m)) && Clear(RarBlock(RING + n), RING + (n + 1 + m) + 1, RING + (n + 1 + m))
    requires RoomFor(Msg3Holds(RING - DL_DELAY + n), RING - DL_DELAY + (n + 1 + m))
    ensures var p: nat := RING - DL_DELAY + n; UlLog(RarThenGrant(n, m, info)) == Msg3Holds(p) + NewTxHolds(p + 1 + m)
  {
    hide CellAfter, Still, Clear, UserTime, RarTime, RarBlock, Asked, Answered, RoomFor, UlLog, NewTxHolds, Msg3Holds;
    var p: nat := RING - DL_DELAY + n;
    var us, log := RarBlock(RING + n), Msg3Holds(p);
    AnsweredIs(n, info);
    StillPasses(Answered(n, info), m, n + 1, us, log);
    AskedServed(Answered(n, info) + Passes(m), 4097, n + 1 + m, us, log);
    StillLog(RarThenGrant(n, m, info), n + 1 + m + 1, us, log + NewTxHolds(p + 1 + m));
  }

  lemma InBoth(a: seq<UlHold>, b: seq<UlHold>, i: nat, j: nat)
    requires i < |a| && j < |b|
    ensures a[i] in a + b && b[j] in a + b
  {
    assert (a + b)[i] == a[i] && (a + b)[|a| + j] == b[j];
  }

  /** The blocks of two users overlap: granted in subframes 16 and 17, they start in 25 and 26. */
  lemma NewDataOverlaps()
    ensures var log := UlLog(TwoGrants(16, 0)); var p: nat := RING - DL_DELAY + 16;
            && UlHold(p + UL_DELAY, NewTxStart, p) in log && UlHold(p + 1 + UL_DELAY, NewTxStart, p + 1) in log
            && Overlap(p + UL_DELAY, p + 1 + UL_DELAY)
  {
    hide TwoGrants, UlLog, Clear, UserTime, Overlap;
    var p: nat := RING - DL_DELAY + 16;
    TimesOf(16, 0);
    TwoGrantsIs(16, 0);
    InBoth(NewTxHolds(p), NewTxHolds(p + 1), 0, 0);
    OverlapMeans(p + UL_DELAY, p + 1 + UL_DELAY);
  }

  /** The mark of a grant falls on the start of another's block: the DCIs are in subframes 24 and 33, and the
      first block starts in 33. */
  lemma MarkOnStart()
    ensures var log := UlLog(TwoGrants(24, 8)); var p: nat := RING - DL_DELAY + 24;
            UlHold(RING + 33, NewTxStart, p) in log && UlHold(RING + 33, NewTxDci, p + 9) in log
  {
    hide TwoGrants, UlLog, Clear, UserTime;
    var p: nat := RING - DL_DELAY + 24;
    TimesOf(24, 8);
    TwoGrantsIs(24, 8);
    InBoth(NewTxHolds(p), NewTxHolds(p + 9), 0, 1);
  }

  /** A Msg3 and a block of new data overlap: the RAR's DCI is in subframe 64 and the grant's in 72, so the Msg3
      starts in subframe 84 and the new data in 81. */
  lemma NewDataOverlapsMsg3(info: RarInfo)
    requires info.rnti == 4098
    ensures var log := UlLog(RarThenGrant(64, 7, info)); var p: nat := RING - DL_DELAY + 64;
            && UlHold(RING + 84, Msg3Block, p) in log && UlHold(RING + 81, NewTxStart, p + 8) in log
            && Overlap(RING + 84, RING + 81)
  {
    hide RarThenGrant, UlLog, Clear, UserTime, RarTime, Overlap, RarBlock, RarDataOffset, At;
    var p: nat := RING - DL_DELAY + 64;
    Subframes64();
    BlockAt(RING + 64);
    RarDataAt(RING + 64);
    Msg3Room(p, p + 8);
    RarThenGrantIs(64, 7, info);
    InBoth(Msg3Holds(p), NewTxHolds(p + 8), 0, 0);
    OverlapMeans(Msg3At(p, 0), p + 8 + UL_DELAY);
  }

  /** The mark of a grant falls into a Msg3 block: the RAR's DCI is in subframe 37, so the Msg3 starts in 55, and
      the grant's DCI is in 56. */
  lemma MarkInMsg3(info: RarInfo)
    requires info.rnti == 4098
    ensures var log := UlLog(RarThenGrant(37, 18, info)); var p: nat := RING - DL_DELAY + 37;
            UlHold(RING + 56, Msg3Block, p) in log && UlHold(RING + 56, NewTxDci, p + 19) in log
  {
    hide RarThenGrant, UlLog, Clear, UserTime, RarTime, RarBlock, RarDataOffset, At;
    var p: nat := RING - DL_DELAY + 37;
    Subframes37();
    BlockAt(RING + 37);
    RarDataAt(RING + 37);
    Msg3Room(p, p + 19);
    RarThenGrantIs(37, 18, info);
    InBoth(Msg3Holds(p), NewTxHolds(p + 19), 1, 1);
  }

  lemma Msg3Room(p: nat, q: nat)
    requires q != p + MSG3_DELAY && !InBlock(Msg3At(p, 0), q + UL_DELAY)
    ensures RoomFor(Msg3Holds(p), q)
  {
    hide At, RarDataOffset;
  }

  lemma TimesOf(n: nat, m: nat)
    requires (n == 16 && m == 0) || (n == 24 && m == 8)
    ensures UserTime(RING + n) && Clear([], RING + n + 1, RING + n)
    ensures UserTime(RING + (n + 1 + m)) && Clear([], RING + (n + 1 + m) + 1, RING + (n + 1 + m))
  {
  }

  lemma Subframes64()
    ensures RarTime(RING + 64) && UserTime(RING + 72) && Clear([], RING + 64, RING + 64)
    ensures Clear([Reservation(RING + 64, RarDci, RING + 64), Reservation(RING + 71, RarData, RING + 64)], RING + 73, RING + 72)
  {
  }

  lemma Subframes37()
    ensures RarTime(RING + 37) && UserTime(RING + 56) && Clear([], RING + 37, RING + 37)
    ensures Clear([Reservation(RING + 37, RarDci, RING + 37), Reservation(RING + 42, RarData, RING + 37)], RING + 57, RING + 56)
  {
  }
}
