/** Concrete runs of downlink passes, described by who holds what, and the runs in which two reservations
    meet on one subframe. */
module Scenes {
  import opened Timing
  import opened Search
  import opened Table
  import opened Options
  import opened DlSpec
  import opened DlRuns
  import opened DownlinkSafety
  import opened Sharing

  /** After `n` passes nothing is pending, the throttle is `th`, and besides system information exactly `us`
      has been reserved. */
  ghost predicate Scene(s: Sys, n: nat, us: seq<Reservation>, th: Throttle) {
    && Inv(s) && s.now == RING - DL_DELAY + n && s.dl.rars == [] && s.dl.throttle == th && HoldsOnly(s.log, us)
  }

  ghost predicate HoldsOnly(log: seq<Reservation>, us: seq<Reservation>) {
    && (forall k :: 0 <= k < |us| ==> us[k] in log)
    && forall k :: 0 <= k < |log| ==> log[k].owner.Sib1? || log[k].owner.Sib2? || log[k] in us
  }

  /** Nobody can be granted: nobody asks, or the throttle is closed. */
  predicate NoGrant(reqs: seq<DlReq>, th: Throttle, tti: nat) {
    reqs == [] || (th.active && !Expired(th, tti))
  }

  lemma {:induction false} ClosedThrottle(u: UserState, tti: nat, reqs: seq<DlReq>)
    requires tti < RING && NoGrant(reqs, u.throttle, tti)
    ensures VisitUsers(u, tti, reqs) == u
  {
    hide Expired;
    if reqs != [] { ClosedThrottle(u, tti, reqs[..|reqs| - 1]); }
  }

  lemma HoldsOnlyMore(log: seq<Reservation>, us: seq<Reservation>, more: seq<Reservation>)
    requires HoldsOnly(log, us)
    ensures HoldsOnly(log + more, us + more)
  {
    var l, u := log + more, us + more;
    forall k | 0 <= k < |u| ensures u[k] in l { if k >= |us| { assert u[k] == l[|log| + k - |us|]; } }
    forall k | 0 <= k < |l| ensures l[k].owner.Sib1? || l[k].owner.Sib2? || l[k] in u {
      if k < |log| {
        assert l[k] == log[k];
        if log[k] in us {
          var i :| 0 <= i < |us| && us[i] == log[k];
          assert u[i] == log[k];
        }
      } else {
        assert l[k] == u[|us| + k - |log|];
      }
    }
  }

  lemma HoldsOnlyBc(log: seq<Reservation>, us: seq<Reservation>, more: seq<Reservation>)
    requires HoldsOnly(log, us) && forall k :: 0 <= k < |more| ==> more[k].owner.Sib1? || more[k].owner.Sib2?
    ensures HoldsOnly(log + more, us)
  {
  }

  lemma StartScene()
    ensures Scene(Start(), 0, [], Throttle(false, 0))
  {
    RunInv([]);
  }

  /** A pass without detections or grants. */
  lemma QuietStep(s: Sys, n: nat, us: seq<Reservation>, th: Throttle, reqs: seq<DlReq>)
    requires Scene(s, n, us, th) && NoGrant(reqs, th, At(0, Tx(s)))
    ensures !PassOf(s, Input([], reqs)).rarDone && Scene(Step(s, Input([], reqs)), n + 1, us, th)
  {
    hide Inv, Step, BcMarksOf, Reserve, At, AfterBc, NoGrant, HoldsOnly, VisitUsers;
    var inp := Input([], reqs);
    PassParts(s, inp);
    StepKeepsInv(s, inp);
    StepParts(s, inp);
    ClosedThrottle(UserState(Reserve(TableAfterBc(s, inp), At(0, Tx(s)), Offsets([])), th, [], []), At(0, Tx(s)), reqs);
    BcOwners(s);
    HoldsOnlyBc(s.log, us, Absolute(Tx(s), BcMarksOf(s)));
    assert Step(s, inp).log == s.log + Absolute(Tx(s), BcMarksOf(s));
  }

  function RarBlock(tx: nat): seq<Reservation> {
    [Reservation(tx, RarDci, tx), Reservation(tx + RarDataOffset(At(0, tx)), RarData, tx)]
  }

  /** A pass that answers a detection. */
  lemma RarStep(s: Sys, n: nat, us: seq<Reservation>, th: Throttle, info: RarInfo, reqs: seq<DlReq>)
    requires Scene(s, n, us, th) && NoGrant(reqs, th, At(0, Tx(s))) && RarTime(Tx(s)) && !Held(s.log, Tx(s))
    ensures var out := PassOf(s, Input([info], reqs));
            out.rarDone && out.rar == Some(RarAlloc(RaRnti(info.nprachTti), info))
    ensures Scene(Step(s, Input([info], reqs)), n + 1, us + RarBlock(Tx(s)), th)
  {
    hide Inv, Step, Reserve, At, AfterBc, NoGrant, HoldsOnly, VisitUsers, RarCanStart, RarDataOffset, RaRnti;
    hide IsValidDlSf, IsSib1Sf, IsSib2Start, Held, BcMarks;
    var inp := Input([info], reqs);
    var tx := Tx(s);
    StepKeepsInv(s, inp);
    StepParts(s, inp);
    PassParts(s, inp);
    BcOwners(s);
    RarOpen(s, inp);
    OneRach(info);
    var ms := [Mark(0, RarDci), Mark(RarDataOffset(At(0, tx)), RarData)];
    ClosedThrottle(UserState(Reserve(TableAfterBc(s, inp), At(0, tx), Offsets(ms)), th, [], []), At(0, tx), reqs);
    HoldsOnlyMore(s.log, us, RarBlock(tx));
    assert Absolute(tx, ms) == RarBlock(tx);
    assert Step(s, inp).log == s.log + RarBlock(tx);
  }

  lemma OneRach(info: RarInfo)
    ensures AddAll([], [info]) == [PendingRar(RaRnti(info.nprachTti), info.nprachTti, [info])]
  {
    hide RaRnti;
    assert [info][..0] == [];
  }

  function GrantBlock(tx: nat, f: seq<nat>): (r: seq<Reservation>)
    ensures |r| == 1 + |f|
  {
    [Reservation(tx, UserDci, tx)] + seq(|f|, k requires 0 <= k < |f| => Reservation(tx + 5 + f[k], UserData, tx))
  }

  /** There is only one block of a given size that is free and leaves no hole. */
  lemma {:induction false} FreshBlockIsUnique(log: seq<Reservation>, tx: nat, f: seq<nat>, g: seq<nat>, n: nat)
    requires FreshBlock(log, tx, f) && FreshBlock(log, tx, g) && n <= |f| && n <= |g|
    ensures f[..n] == g[..n]
  {
    hide Held, UserPhase;
    if n > 0 {
      FreshBlockIsUnique(log, tx, f, g, n - 1);
      var k := n - 1;
      assert forall i :: 0 <= i < k ==> f[i] == f[..k][i] && g[i] == g[..k][i];
      if f[k] < g[k] { NotSkipped(log, tx, f, g, k); } else if g[k] < f[k] { NotSkipped(log, tx, g, f, k); }
      assert f[..n] == f[..k] + [f[k]] && g[..n] == g[..k] + [g[k]];
    }
  }

  lemma NotSkipped(log: seq<Reservation>, tx: nat, f: seq<nat>, g: seq<nat>, k: nat)
    requires FreshBlock(log, tx, f) && FreshBlock(log, tx, g) && k < |f| && k < |g|
    ensures f[k] >= g[k] || exists m :: 0 <= m < k && g[m] == f[k]
  {
    hide Held, UserPhase;
    if f[k] < g[k] {
      assert UserPhase(tx + 5 + f[k]) && !Held(log, tx + 5 + f[k]);
      assert f[k] in g;
      var m :| 0 <= m < |g| && g[m] == f[k];
      assert m < k;
    }
  }

  /** A pass that grants a user the block `f`, counted from five subframes after the DCI. */
  lemma GrantStep(s: Sys, n: nat, us: seq<Reservation>, last: nat, req: DlReq, f: seq<nat>)
    requires Scene(s, n, us, Throttle(false, last)) && UserTime(Tx(s)) && !Held(s.log, Tx(s))
    requires req.min > 0 && |f| == N_SF[ISf(req.max)] && FreshBlock(s.log, Tx(s), f)
    ensures var out := PassOf(s, Input([], [req])); !out.rarDone && out.data == [DlAlloc(req.rnti, ISf(req.max))]
    ensures Scene(Step(s, Input([], [req])), n + 1, us + GrantBlock(Tx(s), f), Throttle(true, At(0, Tx(s))))
  {
    hide Inv, Step, Reserve, At, AfterBc, HoldsOnly, UserCanStart, UserTime, Held, PassOf, UsersOf, RaOf;
    hide BcMarks, FreshBlock, UserFit, UserMarks, ISf, GrantBlock, LogAfterRa;
    var inp := Input([], [req]);
    var tx, t := Tx(s), TableAfterBc(s, inp);
    StepKeepsInv(s, inp);
    StepParts(s, inp);
    UserIsDci(tx);
    BcOwners(s);
    InvOpen(s);
    BlockIs(s, inp, req.max, f);
    OnlyVisit(s, inp, req);
    HoldsOnlyMore(s.log, us, GrantBlock(tx, f));
    assert LogAfterRa(s, inp) == s.log by { QuietBefore(s, inp); }
    assert Step(s, inp).log == s.log + Absolute(tx, UserMarks(t, At(0, tx), req.max));
  }

  lemma UserIsDci(a: nat)
    requires UserTime(a)
    ensures DciTime(a)
  {
  }

  lemma InvOpen(s: Sys)
    requires Inv(s) && !s.dl.throttle.active
    ensures s.grantAt + 25 < Tx(s)
  {
    hide Exact, AllGood, Orderly, Closed, Sib1Times;
  }

  lemma QuietBefore(s: Sys, inp: Input)
    requires BcMarksOf(s) == [] && RaMarksOf(s, inp) == []
    ensures LogAfterRa(s, inp) == s.log
  {
    hide RaOf, RaMarks, BcMarks;
  }

  /** Without detections, and with the throttle open, a pass whose only request can be granted does so. */
  lemma OnlyVisit(s: Sys, inp: Input, req: DlReq)
    requires s.dl.rars == [] && inp == Input([], [req]) && req.min > 0 && !s.dl.throttle.active
    requires UserCanStart(TableAfterBc(s, inp), At(0, Tx(s)))
    ensures var ms := UserMarks(TableAfterBc(s, inp), At(0, Tx(s)), req.max); var u := UsersOf(s, inp);
            && u.marks == ms && u.data == [DlAlloc(req.rnti, ISf(req.max))] && u.throttle == Throttle(true, At(0, Tx(s)))
    ensures RaMarksOf(s, inp) == [] && RaOf(s, inp).rars == []
    ensures var out := PassOf(s, inp); !out.rarDone && out.data == [DlAlloc(req.rnti, ISf(req.max))]
  {
    hide BcPart, AfterBc, RarCanStart, Reserve, UserCanStart, UserMarks, At, ISf;
    PassParts(s, inp);
    var t := TableAfterBc(s, inp);
    var u := UserState(t, s.dl.throttle, [], []);
    assert AddAll(s.dl.rars, inp.rach) == [];
    NothingReserved(t, At(0, Tx(s)));
    assert [req][..0] == [];
    assert VisitUsers(u, At(0, Tx(s)), []) == u;
    assert UsersOf(s, inp) == VisitUser(u, At(0, Tx(s)), req);
  }

  lemma BlockIs(s: Sys, inp: Input, max: nat, f: seq<nat>)
    requires Inv(s) && UserTime(Tx(s)) && !Held(s.log, Tx(s)) && s.grantAt + 25 < Tx(s)
    requires |f| == N_SF[ISf(max)] && FreshBlock(s.log, Tx(s), f)
    ensures UserCanStart(TableAfterBc(s, inp), At(0, Tx(s)))
    ensures Absolute(Tx(s), UserMarks(TableAfterBc(s, inp), At(0, Tx(s)), max)) == GrantBlock(Tx(s), f)
  {
    hide At, Held, BcMarks, IsValidDlSf, IsSib1Sf, IsSib2Start, Exact, AllGood, Orderly, Closed, FreshBlock;
    hide UserCanStart, UserFit, ISf;
    var tx, t := Tx(s), TableAfterBc(s, inp);
    BcOwners(s);
    BcPhase(s);
    assert s.log + Absolute(tx, BcMarksOf(s)) == s.log;
    CanStartMeans(t, tx, s.log, s.grantAt);
    UserBlock(t, tx, s.log, s.grantAt, max);
    FitLength(t, tx, s.log, s.grantAt, max);
    var g := UserFit(t, At(0, tx), max);
    FreshBlockIsUnique(s.log, tx, f, g, |f|);
    assert f[..|f|] == f && g[..|f|] == g;
  }

  lemma FitLength(t: Table, tx: nat, log: seq<Reservation>, grantAt: int, max: nat)
    requires Mid(t, tx, log, grantAt) && grantAt + 25 < tx && !Held(log, tx)
    ensures |UserFit(t, At(0, tx), max)| == N_SF[ISf(max)]
  {
    hide Mid, Held, UserFit, At, ISf;
    forall a | tx + 10 <= a < tx + 17 ensures !t[At(0, a)] { ClearAhead(t, tx, log, grantAt, a); }
    UserFitSpan(t, tx, max);
  }

  /** Before the pass for `tx`: nobody in the scene holds subframe `a`, it is not SIB1's and SIB2 cannot have
      been put there. */
  predicate Clear(us: seq<Reservation>, tx: nat, a: nat) {
    && a % 20 != 14 && (a % 40 == 0 || a % 40 > 11 || tx <= a - a % 40 + 1)
    && forall k :: 0 <= k < |us| ==> us[k].at != a
  }

  lemma SceneFree(s: Sys, n: nat, us: seq<Reservation>, th: Throttle, a: nat)
    requires Scene(s, n, us, th) && Clear(us, Tx(s), a)
    ensures !Held(s.log, a)
  {
    hide Exact, Orderly, Spaced, Sib1Times, Closed, IsSib2Start;
    forall k | 0 <= k < |s.log| ensures s.log[k].at != a {
      assert Good(s.log[k], Tx(s), s.grantAt);
      if s.log[k].owner.Sib2? && s.log[k].at == a {
        Sib2StartForm(s.log[k].pass);
        Sib2Column(s.log[k].pass, a);
      }
    }
  }

  /** The subframe behind a start of SIB2 is free when user data has taken the start. */
  lemma FreeBehindStart(s: Sys, n: nat, us: seq<Reservation>, th: Throttle, i: nat)
    requires Scene(s, n, us, th) && i < |us| && us[i].owner.UserData? && IsSib2Start(us[i].at) && Tx(s) == us[i].at + 1
    requires forall k :: 0 <= k < |us| ==> us[k].at != us[i].at + 1
    ensures !Held(s.log, us[i].at + 1)
  {
    hide Exact, Orderly, Spaced, Sib1Times, Closed, IsSib2Start, Sib2Placed;
    var start := us[i].at;
    Phase(start);
    Phase(start + 1);
    PhaseAdd(start, 1);
    assert StartTaken(s.log, start);
    forall k | 0 <= k < |s.log| ensures s.log[k].at != start + 1 {
      assert Good(s.log[k], Tx(s), s.grantAt);
      if s.log[k].owner.Sib2? && s.log[k].at == start + 1 {
        BehindStart(s.log[k].pass, start);
        PlacedFrom(s, k);
        NotBoth(s, start);
      }
    }
  }

  lemma BehindStart(a: nat, start: nat)
    requires IsSib2Start(a) && IsSib2Start(start) && IsSib2Offset(start + 1 - a)
    ensures a == start
  {
    hide IsSib2Start;
    if a < start { Sib2StartsApart(a, start); }
    if start < a { Sib2StartsApart(start, a); }
  }

  lemma Sib2Column(start: nat, a: nat)
    requires start % 40 == 1 && start <= a <= start + 10
    ensures 1 <= a % 40 <= 11 && start == a - a % 40 + 1
  {
    var q := start / 40;
    assert a == 40 * q + (1 + (a - start));
  }

  // ---------------------------------------------------------------- runs

  /** `n` passes without detections or requests. */
  function Idle(n: nat): (r: seq<Input>)
    ensures |r| == n
  {
    seq(n, _ => Input([], []))
  }

  lemma {:induction false} QuietRun(inputs: seq<Input>, m: nat, us: seq<Reservation>, th: Throttle)
    requires Scene(Run(inputs), |inputs|, us, th)
    ensures Scene(Run(inputs + Idle(m)), |inputs| + m, us, th)
  {
    hide Run, Scene, Step, At;
    if m == 0 {
      assert inputs + Idle(m) == inputs;
    } else {
      QuietRun(inputs, m - 1, us, th);
      var before := inputs + Idle(m - 1);
      assert inputs + Idle(m) == before + [Input([], [])];
      QuietStep(Run(before), |inputs| + (m - 1), us, th, []);
      RunMore(before, Input([], []));
    }
  }

  lemma IdleRun(n: nat)
    ensures Scene(Run(Idle(n)), n, [], Throttle(false, 0))
  {
    hide Scene, Start, Step, Idle;
    StartScene();
    QuietRun([], n, [], Throttle(false, 0));
    assert [] + Idle(n) == Idle(n);
  }

  /** One more pass that answers a detection. */
  lemma RarAfter(inputs: seq<Input>, us: seq<Reservation>, th: Throttle, info: RarInfo, reqs: seq<DlReq>)
    requires Scene(Run(inputs), |inputs|, us, th) && NoGrant(reqs, th, At(0, RING + |inputs|))
    requires RarTime(RING + |inputs|) && Clear(us, RING + |inputs|, RING + |inputs|)
    ensures Scene(Run(inputs + [Input([info], reqs)]), |inputs| + 1, us + RarBlock(RING + |inputs|), th)
  {
    hide Run, Scene, Step, RarTime, RarBlock, NoGrant, At, Inv, Clear;
    var s := Run(inputs);
    SceneTx(s, |inputs|, us, th);
    SceneFree(s, |inputs|, us, th, RING + |inputs|);
    RarStep(s, |inputs|, us, th, info, reqs);
    RunMore(inputs, Input([info], reqs));
  }

  /** One more pass that grants the only user that asks. */
  lemma GrantAfter(inputs: seq<Input>, us: seq<Reservation>, last: nat, req: DlReq, f: seq<nat>)
    requires Scene(Run(inputs), |inputs|, us, Throttle(false, last)) && req.min > 0 && |f| == N_SF[ISf(req.max)]
    requires UserTime(RING + |inputs|) && Clear(us, RING + |inputs|, RING + |inputs|) && Gapless(us, RING + |inputs|, f)
    ensures Scene(Run(inputs + [Input([], [req])]), |inputs| + 1, us + GrantBlock(RING + |inputs|, f),
                  Throttle(true, At(0, RING + |inputs|)))
  {
    hide Run, Scene, Step, UserTime, GrantBlock, At, Inv, Clear, ISf, Gapless, FreshBlock;
    var s := Run(inputs);
    SceneTx(s, |inputs|, us, Throttle(false, last));
    SceneFree(s, |inputs|, us, Throttle(false, last), RING + |inputs|);
    GaplessIsFresh(s, |inputs|, us, last, f);
    GrantStep(s, |inputs|, us, last, req, f);
    RunMore(inputs, Input([], [req]));
  }

  /** The block `f` after a DCI in `tx` takes all the user subframes up to its last one, and all are clear. */
  ghost predicate Gapless(us: seq<Reservation>, tx: nat, f: seq<nat>) {
    && (forall k :: 0 <= k < |f| ==> f[k] < 12 && UserPhase(tx + 5 + f[k]) && Clear(us, tx, tx + 5 + f[k]))
    && (forall j, k :: 0 <= j < k < |f| ==> f[j] < f[k])
    && (forall o: nat :: UserPhase(tx + 5 + o) && o < 12 ==> o in f || forall k :: 0 <= k < |f| ==> f[k] < o)
  }

  lemma GaplessIsFresh(s: Sys, n: nat, us: seq<Reservation>, last: nat, f: seq<nat>)
    requires Scene(s, n, us, Throttle(false, last)) && Gapless(us, Tx(s), f)
    ensures FreshBlock(s.log, Tx(s), f)
  {
    hide Scene, UserPhase, Clear, Held;
    forall k | 0 <= k < |f| ensures !Held(s.log, Tx(s) + 5 + f[k]) {
      SceneFree(s, n, us, Throttle(false, last), Tx(s) + 5 + f[k]);
    }
  }

  lemma SceneTx(s: Sys, n: nat, us: seq<Reservation>, th: Throttle)
    requires Scene(s, n, us, th)
    ensures Tx(s) == RING + n && Inv(s) && s.dl.rars == [] && s.dl.throttle == th
  {
  }

  lemma SceneHolds(s: Sys, n: nat, us: seq<Reservation>, th: Throttle, k: nat)
    requires Scene(s, n, us, th) && k < |us|
    ensures us[k] in s.log
  {
  }

  // ---------------------------------------------------------------- who meets whom

  /** A detection answered after `n` idle passes, and then `m` more of them. */
  function OneRar(n: nat, info: RarInfo, m: nat): (r: seq<Input>)
    ensures |r| == n + 1 + m
  {
    Idle(n) + [Input([info], [])] + Idle(m)
  }

  lemma OneRarRun(n: nat, info: RarInfo, m: nat)
    requires RarTime(RING + n) && Clear([], RING + n, RING + n)
    ensures Scene(Run(OneRar(n, info, m)), n + 1 + m, RarBlock(RING + n), Throttle(false, 0))
  {
    hide Run, Scene, Step, RarTime, RarBlock, Clear, At;
    IdleRun(n);
    RarAfter(Idle(n), [], Throttle(false, 0), info, []);
    assert [] + RarBlock(RING + n) == RarBlock(RING + n);
    QuietRun(Idle(n) + [Input([info], [])], m, RarBlock(RING + n), Throttle(false, 0));
  }

  /** Two RARs meet: the DCIs in subframes 64 and 66, the data of both in subframe 71. */
  lemma RarsMeet(a: RarInfo, b: RarInfo)
    ensures exists s: Sys :: Reached(s) && Reservation(RING + 71, RarData, RING + 64) in s.log
                             && Reservation(RING + 71, RarData, RING + 66) in s.log
  {
    hide Run, Scene, RarTime, Reached, RarBlock, Clear, At;
    var inputs, th := OneRar(64, a, 1), Throttle(false, 0);
    var more := inputs + [Input([b], [])];
    var us := RarBlock(RING + 64) + RarBlock(RING + 66);
    Times();
    Clearings();
    OneRarRun(64, a, 1);
    BlockAt(RING + 64);
    BlockAt(RING + 66);
    RarAfter(inputs, RarBlock(RING + 64), th, b, []);
    SceneHolds(Run(more), 67, us, th, 1);
    SceneHolds(Run(more), 67, us, th, 3);
    ReachedExactly(Run(more));
  }

  /** SIB2 is put on the data of a RAR: the DCI in subframe 39, its data in subframe 44, SIB2's start in 41. */
  lemma Sib2MeetsRar(a: RarInfo)
    ensures exists s: Sys :: Reached(s) && Reservation(RING + 44, RarData, RING + 39) in s.log
                             && Reservation(RING + 44, Sib2, RING + 41) in s.log
  {
    hide Run, Scene, RarTime, Reached, RarBlock, Clear, OneRar;
    Times();
    Clearings();
    OneRarRun(39, a, 2);
    ReachedExactly(Run(OneRar(39, a, 2)));
    Sib2Follows(Run(OneRar(39, a, 2)), 42, RING + 39, Throttle(false, 0));
  }

  lemma Sib2Follows(s: Sys, n: nat, a: nat, th: Throttle)
    requires Scene(s, n, RarBlock(a), th) && Reached(s) && RarTime(a) && a % 20 != 4
    requires IsSib2Start(a + 2) && RING <= a + 2 < RING + n
    ensures Reservation(a + 5, RarData, a) in s.log && Reservation(a + 5, Sib2, a + 2) in s.log
  {
    hide Scene, RarTime, Reached, RarBlock, IsSib2Start, StartTaken, Inv, At;
    BlockAt(a);
    SceneTx(s, n, RarBlock(a), th);
    SceneHolds(s, n, RarBlock(a), th, 1);
    NotTaken(s, n, RarBlock(a), th, a + 2);
    Sib2Comes(s, a + 2);
  }

  lemma Sib2Comes(s: Sys, start: nat)
    requires Reached(s) && RING <= start < Tx(s) && IsSib2Start(start) && !StartTaken(s.log, start)
    ensures Reservation(start + 3, Sib2, start) in s.log
  {
    hide Reached, IsSib2Start, Sib2Placed, StartTaken;
    Sib2CompleteExactly(s, start);
    PlacedAt(s.log, start, start + 3);
  }

  lemma NotTaken(s: Sys, n: nat, us: seq<Reservation>, th: Throttle, start: nat)
    requires Scene(s, n, us, th) && forall k :: 0 <= k < |us| ==> us[k].at != start
    ensures !StartTaken(s.log, start)
  {
    hide Inv;
  }

  /** A RAR's data is put on a user's: DCIs in subframes 64 and 66, data of both in subframe 71. */
  lemma RarMeetsUser(req: DlReq, a: RarInfo)
    requires req.min > 0 && req.max > 20
    ensures exists s: Sys :: Reached(s) && Reservation(RING + 71, UserData, RING + 64) in s.log
                             && Reservation(RING + 71, RarData, RING + 66) in s.log
  {
    hide Run, Scene, RarTime, UserTime, Reached, RarBlock, GrantBlock, Clear, At, Gapless;
    var first := Idle(64) + [Input([], [req])];
    var inputs := first + Idle(1);
    var more := inputs + [Input([a], [])];
    var us, th := GrantBlock(RING + 64, [2, 3, 4]), Throttle(true, At(0, RING + 64));
    Times();
    Clearings();
    IdleRun(64);
    GrantAfter(Idle(64), [], 0, req, [2, 3, 4]);
    GrantAt(RING + 64, [2, 3, 4]);
    assert [] + us == us;
    QuietRun(first, 1, us, th);
    BlockAt(RING + 66);
    RarAfter(inputs, us, th, a, []);
    SceneHolds(Run(more), 67, us + RarBlock(RING + 66), th, 1);
    SceneHolds(Run(more), 67, us + RarBlock(RING + 66), th, 5);
    ReachedExactly(Run(more));
  }

  /** A RAR takes a start of SIB2: its DCI in subframe 36, its data in subframe 41. */
  lemma RarTakesStart(a: RarInfo)
    ensures exists s: Sys :: Reached(s) && Tx(s) == RING + 41 && IsSib2Start(Tx(s)) && s.dl.table[At(0, Tx(s))]
                             && Reservation(RING + 41, RarData, RING + 36) in s.log
  {
    hide Run, Scene, RarTime, Reached, RarBlock, Clear, At, OneRar, IsSib2Start;
    var s := Run(OneRar(36, a, 4));
    Times();
    Clearings();
    OneRarRun(36, a, 4);
    BlockAt(RING + 36);
    ReachedExactly(s);
    SceneTx(s, 41, RarBlock(RING + 36), Throttle(false, 0));
    SceneHolds(s, 41, RarBlock(RING + 36), Throttle(false, 0), 1);
    Sib2BlockedExactly(s);
  }

  /** A user takes a start of SIB2: its DCI in subframe 33, its data in subframes 38, 39 and 41. */
  lemma UserTakesStart(req: DlReq)
    requires req.min > 0 && req.max > 20
    ensures exists s: Sys :: Reached(s) && Tx(s) == RING + 41 && IsSib2Start(Tx(s)) && s.dl.table[At(0, Tx(s))]
                             && Reservation(RING + 41, UserData, RING + 33) in s.log
  {
    hide Run, Scene, UserTime, Reached, GrantBlock, Clear, At, Gapless, IsSib2Start;
    var first := Idle(33) + [Input([], [req])];
    var us, th := GrantBlock(RING + 33, [0, 1, 3]), Throttle(true, At(0, RING + 33));
    StartTimes();
    StartBlock();
    IdleRun(33);
    GrantAfter(Idle(33), [], 0, req, [0, 1, 3]);
    assert [] + us == us;
    QuietRun(first, 7, us, th);
    ReachedExactly(Run(first + Idle(7)));
    TakenByUser(Run(first + Idle(7)), 41, RING + 33, th);
  }

  lemma TakenByUser(s: Sys, n: nat, tx: nat, th: Throttle)
    requires Reached(s) && Scene(s, n, GrantBlock(tx, [0, 1, 3]), th) && RING + n == tx + 8 && IsSib2Start(tx + 8)
    ensures Tx(s) == tx + 8 && s.dl.table[At(0, Tx(s))] && Reservation(tx + 8, UserData, tx) in s.log
  {
    hide Scene, Reached, GrantBlock, At, IsSib2Start, Inv;
    GrantAt(tx, [0, 1, 3]);
    SceneTx(s, n, GrantBlock(tx, [0, 1, 3]), th);
    SceneHolds(s, n, GrantBlock(tx, [0, 1, 3]), th, 3);
    Sib2BlockedExactly(s);
  }

  lemma StartTimes()
    ensures UserTime(RING + 33) && IsSib2Start(RING + 41) && Clear([], RING + 33, RING + 33)
  {
  }

  lemma StartBlock()
    ensures Gapless([], RING + 33, [0, 1, 3])
  {
  }

  lemma Times()
    ensures RarTime(RING + 36) && RarTime(RING + 39) && RarTime(RING + 64) && RarTime(RING + 66) && UserTime(RING + 64)
    ensures IsSib2Start(RING + 41)
  {
  }

  lemma Clearings()
    ensures Clear([], RING + 36, RING + 36) && Clear([], RING + 39, RING + 39) && Clear([], RING + 64, RING + 64)
    ensures Clear([Reservation(RING + 64, RarDci, RING + 64), Reservation(RING + 71, RarData, RING + 64)], RING + 66, RING + 66)
    ensures Clear([Reservation(RING + 64, UserDci, RING + 64), Reservation(RING + 71, UserData, RING + 64),
                   Reservation(RING + 72, UserData, RING + 64), Reservation(RING + 73, UserData, RING + 64)], RING + 66, RING + 66)
    ensures Gapless([], RING + 64, [2, 3, 4])
  {
  }

  lemma BlockAt(a: nat)
    requires RarTime(a)
    ensures |RarBlock(a)| == 2 && RarBlock(a) == [Reservation(a, RarDci, a), Reservation(a + (if a % 20 == 4 then 7 else 5), RarData, a)]
  {
    hide RarTime, RarDataOffset;
    RarDataAt(a);
  }

  lemma GrantAt(tx: nat, f: seq<nat>)
    requires |f| == 3
    ensures GrantBlock(tx, f) == [Reservation(tx, UserDci, tx), Reservation(tx + 5 + f[0], UserData, tx),
                                  Reservation(tx + 5 + f[1], UserData, tx), Reservation(tx + 5 + f[2], UserData, tx)]
  {
  }
}
