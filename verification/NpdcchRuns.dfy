/** One NPDCCH per subframe over whole runs of the carrier, and a run in which two DCIs meet. */
module NpdcchRuns {
  import opened Timing
  import opened Table
  import opened Options
  import opened DlSpec
  import opened DlRuns
  import opened Packing
  import opened Estimate
  import opened SchedulerUe
  import opened UlSpec
  import opened Msg3Runs
  import opened CellSpec
  import opened CellRuns
  import opened UlRuns
  import opened Msg3Fate
  import opened Npdcch
  import opened Scenes
  import opened CellScenes

  /** The DCIs that the next TTI puts on the NPDCCH. */
  function DcisIn(c: Cell): nat
    requires CellOk(c)
  {
    DlDcis(DlOf(c)) + NewTxCount(UlOf(c).allocs)
  }

  function EnvOf(c: Cell): Env
    requires CellOk(c)
  {
    Env(Reqs(c), UlStart(c).ul, UlStart(c).allocs, UesMid(c), UlOrder(c))
  }

  lemma {:induction false} NoNewTx(ul: seq<UlAlloc>)
    requires forall k :: 0 <= k < |ul| ==> ul[k].kind.Msg3?
    ensures NewTxCount(ul) == 0
  {
    if ul != [] { NoNewTx(ul[..|ul| - 1]); }
  }

  /** In every run a TTI sends at most two DCIs, and two exactly when it answers a RAR in part within the users'
      search space and grants a user a block in either direction. */
  lemma TwoDcisExactly(events: seq<Event>)
    ensures var c := CellAfter(events); var tti := TtiAdd(TtiOf(c), DL_DELAY);
            && DcisIn(c) <= 2
            && (DcisIn(c) == 2 <==> && tti % 8 < 2 && AnswersInPart(c.dl, tti)
                                    && (DlOf(c).data != [] || NewTxCount(UlOf(c).allocs) > 0))
  {
    hide CellAfter, DlPass, VisitsUl, TtiAdd, TtiOf, AnswersInPart, SlotsMid, ParkOf, UesMid, UlOrder, Reqs, Dcis;
    var c := CellAfter(events);
    StartIsParked(events);
    NoNewTx(UlStart(c).allocs);
    assert EnvOk(EnvOf(c));
    OneNpdcchExactly(c.dl, TtiOf(c));
    DcisAre(c);
    PartlyAnswered(c.dl, TtiOf(c), Reqs(c));
    DlDciBlocks(c.dl, TtiOf(c), Reqs(c));
    OneUlGrantPerPass(DlOf(c).next.table, UlStart(c), TtiOf(c), UlOrder(c));
  }

  lemma DcisAre(c: Cell)
    requires CellOk(c) && EnvOk(EnvOf(c))
    ensures Dcis(c.dl, TtiOf(c), EnvOf(c)) == DcisIn(c)
  {
    hide DlPass, VisitsUl, TtiAdd, TtiOf, SlotsMid, ParkOf, UesMid, UlOrder, Reqs;
  }

  // ---------------------------------------------------------------- two DCIs in one subframe

  /** User 4097 joins after `n` idle passes and reports a byte; then two preambles of one opportunity are
      detected. */
  function Joined(n: nat): seq<Event> {
    Passes(n) + [Cfg(4097, Signalling())]
  }

  function OneAsking(n: nat): seq<Event> {
    Joined(n) + [Report(4097, UlBuffer(0, 1, true))]
  }

  function TwoOfOne(n: nat, a: RarInfo, b: RarInfo): seq<Event> {
    OneAsking(n) + [Rach(a)] + [Rach(b)]
  }

  lemma JoinedIs(n: nat)
    ensures Stage(Joined(n), n, [], Throttle(false, 0)) && Inputs(Joined(n)) == Inputs(Passes(n))
    ensures var c := CellAfter(Joined(n)); c.order == [4097] && c.ues == map[4097 := Configured(NewUe(4097), Signalling())]
  {
    hide CellAfter, Stage, Configured;
    IdleStage(n);
    assert 4097 !in CellAfter(Passes(n)).order;
    JoinStage(Passes(n), 4097, n, [], Throttle(false, 0));
    Plus(Passes(n), Cfg(4097, Signalling()));
  }

  /** The downlink is still that of the idle passes, and the uplink is free. */
  lemma OneAskingIs(n: nat)
    ensures var c, s := CellAfter(OneAsking(n)), Run(Inputs(Passes(n)));
            && c.dl == s.dl && Scene(s, n, [], Throttle(false, 0)) && c.now == s.now && NoUl(c.ul)
            && c.order == [4097] && c.ues == map[4097 := Asking()]
  {
    hide CellAfter, Scene, NoUl, AllSilent, Run, Inputs, Configured, Changed, Joined, PendingRach, Asking;
    JoinedIs(n);
    SceneTx(Run(Inputs(Joined(n))), n, [], Throttle(false, 0));
    CellIsRun(Joined(n));
    Plus(Joined(n), Report(4097, UlBuffer(0, 1, true)));
    AskingIs();
  }

  lemma AskingIs()
    ensures Changed(Configured(NewUe(4097), Signalling()), UlBuffer(0, 1, true)) == Asking()
  {
  }

  lemma TwoOfOneIs(n: nat, a: RarInfo, b: RarInfo)
    requires a.nprachTti == b.nprachTti
    ensures CellAfter(TwoOfOne(n, a, b))
            == CellAfter(OneAsking(n)).(dl := CellAfter(OneAsking(n)).dl.(rars := [PendingRar(RaRnti(a.nprachTti), a.nprachTti, [a, b])]))
  {
    hide CellAfter, RaRnti, Run, Inputs, OneAsking, AddRach, Scene, NoUl, Asking;
    OneAskingIs(n);
    SceneTx(Run(Inputs(Passes(n))), n, [], Throttle(false, 0));
    Plus(OneAsking(n), Rach(a));
    Plus(OneAsking(n) + [Rach(a)], Rach(b));
    TwoRach(a, b);
  }

  lemma TwoRach(a: RarInfo, b: RarInfo)
    requires a.nprachTti == b.nprachTti
    ensures AddRach(AddRach([], a), b) == [PendingRar(RaRnti(a.nprachTti), a.nprachTti, [a, b])]
  {
    hide RaRnti;
    var r := AddRach([], a);
    assert [a] + [b] == [a, b] && r[1..] == [];
  }

  // ---------------------------------------------------------------- the pass for subframe 17

  /** A pass in which nobody asks for a minimum is one without requests. */
  lemma {:induction false} NobodyWants(u: UserState, tti: nat, reqs: seq<DlReq>)
    requires tti < RING && !u.throttle.active && forall k :: 0 <= k < |reqs| ==> reqs[k].min == 0
    ensures VisitUsers(u, tti, reqs) == u
  {
    if reqs != [] { NobodyWants(u, tti, reqs[..|reqs| - 1]); }
  }

  lemma SamePass(d: DlState, ttiRx: nat, reqs: seq<DlReq>)
    requires ttiRx < RING && !d.throttle.active && forall k :: 0 <= k < |reqs| ==> reqs[k].min == 0
    ensures DlPass(d, ttiRx, reqs) == DlPass(d, ttiRx, [])
  {
    hide BcPart, AfterBc, RaPart, RaMarks, Reserve, TtiAdd, VisitUsers;
    var tti := TtiAdd(ttiRx, DL_DELAY);
    var u := UserState(Reserve(AfterBc(d, ttiRx, tti), tti, Offsets(RaMarks(tti, RaPart(d, ttiRx, tti)))), d.throttle, [], []);
    NobodyWants(u, tti, reqs);
    NobodyWants(u, tti, []);
  }

  /** When nothing is parked and the DCI's subframe is open, the uplink pass grants the only user. */
  lemma UplinkGrants(c: Cell)
    requires CellOk(c) && c.order == [4097] && c.ues == map[4097 := Asking()] && NoUl(c.ul)
    requires !DlOf(c).rarDone && DlOf(c).data == [] && UlStart(c).allocs == [] && UlOpen(DlOf(c).next.table, TtiOf(c))
    ensures NewTxCount(UlOf(c).allocs) == 1
  {
    hide DlOf, SlotsMid, VisitsUl, TtiOf, UlOpen, NewTxCount;
    WitnessIsGranted(DlOf(c).next.table, TtiOf(c));
    assert UesMid(c) == c.ues;
    assert UlStart(c).ul == Witness().ul;
    assert UlOrder(c) == [4097];
  }

  lemma IdleParksNothing(m: nat)
    ensures ParkOf(CellAfter(Passes(m))).allocs == [] && |Ttis(Passes(m))| == m
  {
    hide CellAfter, Ttis, Stage, ParkOf, DlOf, SlotsAfter, TtiOk;
    CellIsSlotRun(Passes(m));
    IdleStage(m);
    StageNow(Passes(m), m, [], Throttle(false, 0));
    QuietStage(Passes(m), m, [], Throttle(false, 0));
    ParkedExactly(Passes(m));
  }

  /** An idle pass has parked nothing for the one nine passes later. */
  lemma NothingParked(events: seq<Event>, m: nat)
    requires |events| > m && events[..m] == Passes(m) && events[m].Pass?
    requires CellAfter(events).now == RING - DL_DELAY + m + MSG3_DELAY
    ensures UlStart(CellAfter(events)).allocs == []
  {
    hide CellAfter, Ttis, UlStart, Delivered, ParkOf, DlOf, UlOf, SlotsAfter, TtiOk;
    StartIsParked(events);
    CellIsSlotRun(events);
    IdleParksNothing(m);
    TtisAt(events, m, |events|);
    assert events[..|events|] == events;
  }

  lemma AskingWantsNothing(c: Cell)
    requires CellOk(c) && c.order == [4097] && c.ues == map[4097 := Asking()]
    ensures Reqs(c) == [DlReq(4097, 0, 0)]
  {
    hide Requested, TtiAdd, Asking, TtiOf;
    AskingRequest();
    assert RoundRobin([4097], TtiAdd(TtiOf(c), DL_DELAY)) == [4097];
  }

  lemma AskingRequest()
    ensures |Asking().lch| == MAX_LC && Requested(Asking()) == Request(0, 0)
  {
    NoDataBytes(Asking().lch, 1);
  }

  lemma {:induction false} NoDataBytes(lch: seq<Bearer>, i: nat)
    requires forall l :: 0 <= l < |lch| ==> lch[l].bufTx == 0 && lch[l].bufRetx == 0
    ensures RbBytes(lch, i) == 0
    decreases |lch| - i
  {
    if i < |lch| { NoDataBytes(lch, i + 1); }
  }

  /** A run after which the next TTI sends two DCIs in one subframe, number 17: one response of a RAR that owes
      two, and an uplink grant. */
  lemma TwoDcisReached(a: RarInfo, b: RarInfo)
    requires a.nprachTti == b.nprachTti
    ensures DcisIn(CellAfter(TwoOfOne(17, a, b))) == 2
  {
    hide CellAfter, Scene, NoUl, Run, Inputs, RaRnti, OneAsking, UlStart, Asking, TtiOf, Index, RarTime;
    hide UserTime, Clear;
    OneAskingIs(17);
    TwoOfOneIs(17, a, b);
    SceneTx(Run(Inputs(Passes(17))), 17, [], Throttle(false, 0));
    Subframe17();
    AnswersAt(Run(Inputs(Passes(17))), 17, CellAfter(TwoOfOne(17, a, b)));
    PassesFirst(17, a, b);
    NothingParked(TwoOfOne(17, a, b), 8);
    TwoDcis(CellAfter(TwoOfOne(17, a, b)));
  }

  lemma PassesFirst(n: nat, a: RarInfo, b: RarInfo)
    requires n > 8
    ensures |TwoOfOne(n, a, b)| > 8 && TwoOfOne(n, a, b)[..8] == Passes(8) && TwoOfOne(n, a, b)[8].Pass?
  {
  }

  lemma TwoDcis(c: Cell)
    requires CellOk(c) && c.order == [4097] && c.ues == map[4097 := Asking()] && NoUl(c.ul)
    requires !c.dl.throttle.active && UlStart(c).allocs == []
    requires var tti := TtiAdd(TtiOf(c), DL_DELAY); AnswersInPart(c.dl, tti) && tti % 8 < 2
    ensures DcisIn(c) == 2
  {
    hide NoUl, DlPass, UlOf, UlStart, NewTxCount, Asking, IsValidDlSf, Reqs, TtiAdd, TtiOf, IsSib1Sf, IsSib2Start;
    AskingWantsNothing(c);
    SamePass(c.dl, TtiOf(c), Reqs(c));
    PartialRarLeavesOpen(c.dl, TtiOf(c));
    PartlyAnswered(c.dl, TtiOf(c), []);
    UplinkGrants(c);
  }

  lemma AnswersAt(s: Sys, n: nat, c: Cell)
    requires Scene(s, n, [], Throttle(false, 0)) && c.now == s.now && RarTime(RING + n) && UserTime(RING + n)
    requires Clear([], RING + n, RING + n)
    requires c.dl.table == s.dl.table && c.dl.rars != [] && |c.dl.rars[0].grants| == 2
    ensures var tti := TtiAdd(TtiOf(c), DL_DELAY); AnswersInPart(c.dl, tti) && tti % 8 < 2
  {
    hide Held, Scene, Clear, At, AnswersInPart, RarTime, UserTime, TtiAdd, Inv;
    SceneTx(s, n, [], Throttle(false, 0));
    TxIndex(s.now);
    SceneFree(s, n, [], Throttle(false, 0), RING + n);
    TableAt(s, RING + n);
    MayAnswer(c.dl, RING + n);
  }

  lemma MayAnswer(d: DlState, a: nat)
    requires RarTime(a) && UserTime(a) && !d.table[At(0, a)] && d.rars != [] && |d.rars[0].grants| >= 2
    ensures AnswersInPart(d, At(0, a)) && At(0, a) % 8 < 2
  {
    hide IsValidDlSf, IsSib1Sf, IsSib2Start, At;
    Calendar(a);
  }

  lemma TableAt(s: Sys, a: nat)
    requires Inv(s) && s.now <= a < s.now + RING && !Held(s.log, a)
    ensures !s.dl.table[At(0, a)]
  {
    hide Held, AllGood, Orderly, Closed, Sib1Times, At;
  }

  lemma Subframe17()
    ensures RarTime(RING + 17) && UserTime(RING + 17) && Clear([], RING + 17, RING + 17)
  {
  }
}
