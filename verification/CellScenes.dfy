/** Concrete runs of the whole carrier: a run in which a Msg3 is lost. */
module CellScenes {
  import opened Timing
  import opened Table
  import opened Options
  import opened DlSpec
  import opened DlRuns
  import opened DownlinkSafety
  import opened Sharing
  import opened Scenes
  import opened Packing
  import opened Estimate
  import opened SchedulerUe
  import opened UlSpec
  import opened Msg3Runs
  import opened CellSpec
  import opened CellRuns
  import opened UlRuns
  import opened Msg3Fate

  function Passes(n: nat): (e: seq<Event>)
    ensures |e| == n
  {
    seq(n, _ => Pass)
  }

  // ---------------------------------------------------------------- nothing to send in the uplink

  predicate Silent(ue: UeState) {
    |ue.lch| == MAX_LC && !ue.sr && !IsUl(ue.lch[3]) && forall l :: 0 <= l < MAX_LC && IsUl(ue.lch[l]) ==> ue.lch[l].bsr == 0
  }

  ghost predicate AllSilent(ues: map<nat, UeState>) {
    forall r :: r in ues ==> Silent(ues[r])
  }

  predicate NoUl(ul: Table) {
    forall a :: 0 <= a < RING ==> !ul[a]
  }

  lemma {:induction false} SilentBytes(lch: seq<Bearer>, i: nat)
    requires forall l :: i <= l < |lch| && IsUl(lch[l]) ==> lch[l].bsr == 0
    ensures UlBytes(lch, i) == 0
    decreases |lch| - i
  {
    if i < |lch| { SilentBytes(lch, i + 1); }
  }

  lemma {:induction false} SilentVisits(dl: Table, v: UlVisit, ttiRx: nat, order: seq<nat>)
    requires UesOk(v.ues) && AllSilent(v.ues) && forall k :: 0 <= k < |order| ==> order[k] in v.ues
    ensures VisitsUl(dl, v, ttiRx, order) == v
  {
    hide AllocNewTx, UlBytes;
    if order != [] {
      SilentVisits(dl, v, ttiRx, order[..|order| - 1]);
      SilentBytes(v.ues[order[|order| - 1]].lch, 0);
    }
  }

  lemma {:induction false} SilentGrants(ues: map<nat, UeState>, data: seq<DlAlloc>)
    requires UesOk(ues) && AllSilent(ues)
    ensures AllSilent(AfterGrants(ues, data))
  {
    if data != [] { SilentGrants(ues, data[..|data| - 1]); }
  }

  /** A pass that completes no RAR leaves the uplink as it is. */
  lemma SilentPass(c: Cell)
    requires CellOk(c) && NoUl(c.ul) && AllSilent(c.ues) && !DlOf(c).rarDone
    ensures var d := AfterBoth(c); NoUl(d.ul) && AllSilent(d.ues) && d.ues.Keys == c.ues.Keys && d.order == c.order
  {
    hide DlOf, SlotsMid, VisitsUl, UlOrder, TtiOf, Silent;
    SilentGrants(c.ues, DlOf(c).data);
    SilentVisits(DlOf(c).next.table, UlStart(c), TtiOf(c), UlOrder(c));
  }

  // ---------------------------------------------------------------- one event after another

  lemma Plus(events: seq<Event>, e: Event)
    ensures CellAfter(events + [e]) == CellStep(CellAfter(events), e)
    ensures e.Pass? ==> PendingRach(events + [e]) == []
                        && Inputs(events + [e]) == Inputs(events) + [Input(PendingRach(events), Reqs(CellAfter(events)))]
    ensures !e.Pass? ==> Inputs(events + [e]) == Inputs(events)
                         && PendingRach(events + [e]) == PendingRach(events) + if e.Rach? then [e.info] else []
  {
    hide CellStep, Reqs;
    assert (events + [e])[..|events|] == events;
  }

  /** After `events`: `n` passes have brought the scene about, no detection waits, and the uplink is silent. */
  ghost predicate Stage(events: seq<Event>, n: nat, us: seq<Reservation>, th: Throttle) {
    && |Inputs(events)| == n && Scene(Run(Inputs(events)), n, us, th) && PendingRach(events) == []
    && NoUl(CellAfter(events).ul) && AllSilent(CellAfter(events).ues)
  }

  lemma StageNow(events: seq<Event>, n: nat, us: seq<Reservation>, th: Throttle)
    requires Stage(events, n, us, th)
    ensures CellAfter(events).now == RING - DL_DELAY + n && Tx(Run(Inputs(events))) == RING + n
  {
    hide CellAfter, Inputs, Run, Inv;
    CellIsRun(events);
  }

  /** A pass in which nobody can be granted. */
  lemma QuietStage(events: seq<Event>, n: nat, us: seq<Reservation>, th: Throttle)
    requires Stage(events, n, us, th)
    requires CellAfter(events).order == [] || (th.active && !Expired(th, At(0, RING + n)))
    ensures Stage(events + [Pass], n + 1, us, th) && CellAfter(events + [Pass]).order == CellAfter(events).order
    ensures !DlOf(CellAfter(events)).rarDone
  {
    hide CellAfter, Inputs, Run, Scene, Expired, NoUl, AllSilent, At, DlOf, PassOf, Step, Reqs, CellOk, Silent;
    var c, s := CellAfter(events), Run(Inputs(events));
    StageNow(events, n, us, th);
    Plus(events, Pass);
    NobodyAsks(c);
    CellIsRun(events);
    PassIsPassOf(c, s, []);
    QuietStep(s, n, us, th, Reqs(c));
    RunMore(Inputs(events), Input([], Reqs(c)));
    SilentPass(c);
  }

  lemma NobodyAsks(c: Cell)
    requires CellOk(c)
    ensures c.order == [] ==> Reqs(c) == []
  {
    hide Requested, TtiAdd;
  }

  /** A pass that grants the only user. */
  lemma GrantStage(events: seq<Event>, n: nat, us: seq<Reservation>, last: nat, req: DlReq, f: seq<nat>)
    requires Stage(events, n, us, Throttle(false, last)) && Reqs(CellAfter(events)) == [req]
    requires req.min > 0 && |f| == N_SF[ISf(req.max)]
    requires UserTime(RING + n) && Clear(us, RING + n, RING + n) && Gapless(us, RING + n, f)
    ensures Stage(events + [Pass], n + 1, us + GrantBlock(RING + n, f), Throttle(true, At(0, RING + n)))
    ensures CellAfter(events + [Pass]).order == CellAfter(events).order
  {
    hide CellAfter, Inputs, Run, Scene, NoUl, AllSilent, At, DlOf, PassOf, Step, Reqs, CellOk, Silent, Clear;
    hide Gapless, FreshBlock, UserTime, ISf, GrantBlock;
    var c, s := CellAfter(events), Run(Inputs(events));
    StageNow(events, n, us, Throttle(false, last));
    Plus(events, Pass);
    CellIsRun(events);
    PassIsPassOf(c, s, []);
    SceneFree(s, n, us, Throttle(false, last), RING + n);
    GaplessIsFresh(s, n, us, last, f);
    SceneTx(s, n, us, Throttle(false, last));
    GrantStep(s, n, us, last, req, f);
    RunMore(Inputs(events), Input([], [req]));
    SilentPass(c);
  }

  /** Configuration and reports change neither the scene nor the uplink. */
  lemma OtherStage(events: seq<Event>, e: Event, n: nat, us: seq<Reservation>, th: Throttle)
    requires Stage(events, n, us, th) && (e.Cfg? || e.Report?) && AllSilent(CellStep(CellAfter(events), e).ues)
    ensures Stage(events + [e], n, us, th)
  {
    hide CellAfter, Inputs, Run, Scene, NoUl, AllSilent, CellOk, Changed, Configured, Insert, PendingRach;
    Plus(events, e);
  }

  lemma {:induction false} IdleStage(n: nat)
    ensures Stage(Passes(n), n, [], Throttle(false, 0)) && CellAfter(Passes(n)).order == []
  {
    hide Stage, CellAfter;
    if n == 0 {
      StartStage();
    } else {
      IdleStage(n - 1);
      QuietStage(Passes(n - 1), n - 1, [], Throttle(false, 0));
      assert Passes(n - 1) + [Pass] == Passes(n);
    }
  }

  lemma StartStage()
    ensures Stage([], 0, [], Throttle(false, 0)) && CellAfter([]).order == []
  {
    hide Scene, Start;
    StartScene();
  }

  // ---------------------------------------------------------------- a user joins and has data

  /** Signalling on channel 0 and nothing else. */
  function Signalling(): (d: Bearers)
    ensures d == [Both, Idle, Idle, Idle, Idle, Idle]
  {
    [Both, Idle, Idle, Idle, Idle, Idle]
  }

  lemma JoinStage(events: seq<Event>, r: nat, n: nat, us: seq<Reservation>, th: Throttle)
    requires Stage(events, n, us, th) && r !in CellAfter(events).ues
    ensures var d := CellAfter(events + [Cfg(r, Signalling())]);
            && Stage(events + [Cfg(r, Signalling())], n, us, th)
            && d.order == Insert(CellAfter(events).order, r) && d.ues.Keys == CellAfter(events).ues.Keys + {r}
            && d.ues[r] == Configured(NewUe(r), Signalling())
  {
    hide CellAfter, Stage, Insert, Ascending, Configured, AllSilent;
    var c, e := CellAfter(events), Cfg(r, Signalling());
    Plus(events, e);
    JoinerIsSilent(r);
    StageSilent(events, n, us, th);
    StaySilent(c.ues, r, Configured(NewUe(r), Signalling()));
    OtherStage(events, e, n, us, th);
  }

  lemma JoinerIsSilent(r: nat)
    ensures Silent(Configured(NewUe(r), Signalling()))
  {
  }

  lemma StageSilent(events: seq<Event>, n: nat, us: seq<Reservation>, th: Throttle)
    requires Stage(events, n, us, th)
    ensures AllSilent(CellAfter(events).ues)
  {
  }

  lemma StaySilent(ues: map<nat, UeState>, r: nat, ue: UeState)
    requires AllSilent(ues) && Silent(ue)
    ensures AllSilent(ues[r := ue])
  {
  }

  /** One user, with 30 bytes for it on channel 0, after `n` idle passes. */
  function OneUser(n: nat, r: nat): seq<Event> {
    Passes(n) + [Cfg(r, Signalling())] + [Report(r, DlBuffer(0, 30, 0))]
  }

  lemma OneUserStage(n: nat, r: nat)
    ensures Stage(OneUser(n, r), n, [], Throttle(false, 0))
    ensures CellAfter(OneUser(n, r)).order == [r] && Reqs(CellAfter(OneUser(n, r))) == [DlReq(r, 32, 32)]
    ensures CellAfter(OneUser(n, r)).ues.Keys == {r}
  {
    hide CellAfter, Stage, Reqs, Configured, AllSilent, Silent, Changed;
    var joined, e := Passes(n) + [Cfg(r, Signalling())], Report(r, DlBuffer(0, 30, 0));
    var ue := Configured(NewUe(r), Signalling());
    IdleStage(n);
    assert r !in CellAfter(Passes(n)).order;
    JoinStage(Passes(n), r, n, [], Throttle(false, 0));
    Plus(joined, e);
    var c := CellAfter(joined);
    StageSilent(joined, n, [], Throttle(false, 0));
    WithData(r);
    StaySilent(c.ues, r, Changed(ue, DlBuffer(0, 30, 0)));
    OtherStage(joined, e, n, [], Throttle(false, 0));
    OnlyUserAsks(CellAfter(OneUser(n, r)), r);
  }

  lemma WithData(r: nat)
    ensures var ue := Changed(Configured(NewUe(r), Signalling()), DlBuffer(0, 30, 0)); Silent(ue) && Requested(ue) == Request(32, 32)
  {
    var ue := Changed(Configured(NewUe(r), Signalling()), DlBuffer(0, 30, 0));
    assert RbBytes(ue.lch, 5) == 0;
    assert RbBytes(ue.lch, 3) == 0;
    assert RbBytes(ue.lch, 1) == 0;
  }

  lemma OnlyUserAsks(c: Cell, r: nat)
    requires CellOk(c) && c.order == [r] && Requested(c.ues[r]) == Request(32, 32)
    ensures Reqs(c) == [DlReq(r, 32, 32)]
  {
    hide Requested, TtiAdd;
    assert RoundRobin([r], TtiAdd(TtiOf(c), DL_DELAY)) == [r];
  }

  // ---------------------------------------------------------------- a lost Msg3

  lemma StillClosed(a: nat, b: nat)
    requires a <= b <= a + 25
    ensures !Expired(Throttle(true, At(0, a)), At(0, b))
  {
  }

  /** Passes soon after a grant at time `a`. */
  lemma {:induction false} WaitStage(events: seq<Event>, m: nat, n: nat, us: seq<Reservation>, a: nat)
    requires Stage(events, n, us, Throttle(true, At(0, a))) && a <= RING + n && RING + n + m <= a + 26
    ensures Stage(events + Passes(m), n + m, us, Throttle(true, At(0, a)))
    ensures CellAfter(events + Passes(m)).order == CellAfter(events).order
  {
    hide Stage, CellAfter, At, Expired, DlOf, CellOk;
    if m == 0 {
      assert events + Passes(m) == events;
    } else {
      var before := events + Passes(m - 1);
      WaitStage(events, m - 1, n, us, a);
      StillClosed(a, RING + n + (m - 1));
      QuietStage(before, n + (m - 1), us, Throttle(true, At(0, a)));
      assert before + [Pass] == events + Passes(m);
    }
  }

  lemma {:induction false} NowPlus(events: seq<Event>, m: nat)
    ensures CellAfter(events + Passes(m)).now == CellAfter(events).now + m
  {
    hide CellAfter, CellStep, DlOf, UlOf, SlotsMid, CellOk;
    if m == 0 {
      assert events + Passes(m) == events;
    } else {
      NowPlus(events, m - 1);
      assert (events + Passes(m - 1)) + [Pass] == events + Passes(m);
      Plus(events + Passes(m - 1), Pass);
      PassGives(CellAfter(events + Passes(m - 1)));
    }
  }

  /** A user's block after a DCI in subframe 10233 takes 10238, 10239 and, in the next hyperframe, subframe 1. */
  function LateBlock(r: nat): seq<Event> {
    OneUser(10233, r) + [Pass] + Passes(8)
  }

  function LateUs(): seq<Reservation> { GrantBlock(RING + 10233, [0, 1, 3]) }

  lemma LateStage(r: nat)
    ensures Stage(LateBlock(r), 10242, LateUs(), Throttle(true, At(0, RING + 10233)))
    ensures CellAfter(LateBlock(r)).order == [r]
  {
    hide Stage, CellAfter, At, OneUser, GrantBlock, Clear, Gapless, UserTime, Reqs;
    OneUserStage(10233, r);
    LateTimes();
    GrantStage(OneUser(10233, r), 10233, [], 0, DlReq(r, 32, 32), [0, 1, 3]);
    assert [] + LateUs() == LateUs();
    WaitStage(OneUser(10233, r) + [Pass], 8, 10234, LateUs(), RING + 10233);
  }

  lemma LateTimes()
    ensures UserTime(RING + 10233) && Clear([], RING + 10233, RING + 10233) && Gapless([], RING + 10233, [0, 1, 3])
    ensures RarTime(RING + 10242) && IsSib2Start(RING + 10241)
  {
    hide UserTime, Clear, Gapless, RarTime, IsSib2Start;
    LateDcis();
    LateGap();
  }

  lemma LateDcis()
    ensures UserTime(RING + 10233) && RarTime(RING + 10242) && IsSib2Start(RING + 10241)
  {
  }

  lemma LateGap()
    ensures Clear([], RING + 10233, RING + 10233) && Gapless([], RING + 10233, [0, 1, 3])
  {
  }

  /** Then another user is detected and configured. */
  function LateRar(r: nat, info: RarInfo): seq<Event> {
    LateBlock(r) + [Cfg(info.rnti, Signalling())] + [Rach(info)]
  }

  lemma LateRarOwes(r: nat, info: RarInfo)
    requires info.rnti != r
    ensures var c := CellAfter(LateRar(r, info)); OwesMsg3(c) && c.now == RING - DL_DELAY + 10242
  {
    hide Stage, CellAfter, At, LateBlock, GrantBlock, Reqs, DlOf, PassOf, NoUl, AllSilent, Scene, Run, Inputs;
    hide RarTime, IsSib2Start, Insert, Expired, RaRnti;
    var th, joined := Throttle(true, At(0, RING + 10233)), LateBlock(r) + [Cfg(info.rnti, Signalling())];
    LateStage(r);
    assert info.rnti !in CellAfter(LateBlock(r)).order;
    JoinStage(LateBlock(r), info.rnti, 10242, LateUs(), th);
    LateIsFree(joined);
    StillClosed(RING + 10233, RING + 10242);
    LateTimes();
    StageRar(joined, info, 10242, LateUs(), th);
  }

  lemma LateIsFree(events: seq<Event>)
    requires Stage(events, 10242, LateUs(), Throttle(true, At(0, RING + 10233)))
    ensures !Held(Run(Inputs(events)).log, RING + 10242)
  {
    hide Scene, Run, Inputs, CellAfter, At, IsSib2Start, Held, Inv;
    var th := Throttle(true, At(0, RING + 10233));
    LateTimes();
    SceneTx(Run(Inputs(events)), 10242, LateUs(), th);
    FreeBehindStart(Run(Inputs(events)), 10242, LateUs(), th, 3);
  }

  lemma StageRar(events: seq<Event>, info: RarInfo, n: nat, us: seq<Reservation>, th: Throttle)
    requires Stage(events, n, us, th) && info.rnti in CellAfter(events).ues
    requires th.active && !Expired(th, At(0, RING + n)) && RarTime(RING + n) && !Held(Run(Inputs(events)).log, RING + n)
    ensures var c := CellAfter(events + [Rach(info)]); OwesMsg3(c) && c.now == RING - DL_DELAY + n
  {
    hide CellAfter, At, Reqs, DlOf, PassOf, AllSilent, Scene, Run, Inputs, RarTime, Expired, RaRnti, Msg3Slot;
    hide Held, AddRach;
    var c, s := CellAfter(events + [Rach(info)]), Run(Inputs(events));
    Plus(events, Rach(info));
    StageNow(events, n, us, th);
    CellIsRun(events + [Rach(info)]);
    PassIsPassOf(c, s, [info]);
    RarStep(s, n, us, th, info, Reqs(c));
  }

  /** A run in which a Msg3 is owed to a known user whose subframes are free, and is in nobody's uplink
      result: user 4097 is granted a block that takes SIB2's start in subframe 1, and the RAR of user 4098
      goes out in subframe 2. */
  lemma Msg3IsLost()
    ensures exists events: seq<Event>, i: nat, j: nat ::
              && i < j < |events| && events[i].Pass? && OwesMsg3(CellAfter(events[..i]))
              && CellAfter(events[..j]).now == CellAfter(events[..i]).now + MSG3_DELAY
              && Msg3s(UlOf(CellAfter(events[..j])).allocs) == []
  {
    hide CellAfter, LateRar, OwesMsg3, UlOf, Msg3s, Msg3Of;
    var info := RarInfo(0, 0, 4098, 0);
    var before := LateRar(4097, info);
    var events, i := before + Passes(10), |before|;
    LateRarOwes(4097, info);
    NowPlus(before, 9);
    assert events[..i] == before && events[..i + 9] == before + Passes(9);
    Msg3Exactly(events, i, i + 9);
    assert At(0, CellAfter(before).now) == 10238;
  }
}
