/** Which user a downlink pass grants, over whole runs: exactly when and to whom, how soon, and how detections
    can keep every user waiting. */
module UserGrants {
  import opened Timing
  import opened Table
  import opened Options
  import opened DlSpec
  import opened DlRuns
  import opened RarRuns
  import opened Sharing
  import opened Scenes
  import opened Liveness

  // ---------------------------------------------------------------- the visits of one pass

  /** Request `k` is the first from index `from` on that asks for something. */
  ghost predicate FirstAsk(reqs: seq<DlReq>, from: nat, k: int) {
    from <= k < |reqs| && reqs[k].min > 0 && forall j :: from <= j < k ==> reqs[j].min == 0
  }

  ghost predicate NobodyAsks(reqs: seq<DlReq>, from: nat) {
    forall j :: from <= j < |reqs| ==> reqs[j].min == 0
  }

  /** `data` is a block for the first that asks. */
  ghost predicate BlockForFirst(reqs: seq<DlReq>, from: nat, data: seq<DlAlloc>) {
    exists k :: FirstAsk(reqs, from, k) && data == [DlAlloc(reqs[k].rnti, ISf(reqs[k].max))]
  }

  ghost predicate GrantedFirst(u0: UserState, u: UserState, tti: nat, reqs: seq<DlReq>)
    requires tti < RING
  {
    exists k :: FirstAsk(reqs, 0, k) && GrantedTo(u0, u, tti, reqs[k])
  }

  /** With the throttle open, the first visited user that asks is granted, if a user can be granted at all. */
  lemma {:induction false} OpenVisits(u0: UserState, tti: nat, reqs: seq<DlReq>)
    requires tti < RING && u0.data == [] && !u0.throttle.active
    ensures var u := VisitUsers(u0, tti, reqs);
            if UserCanStart(u0.table, tti) && !NobodyAsks(reqs, 0) then GrantedFirst(u0, u, tti, reqs) else u == u0
  {
    hide UserCanStart, GrantedTo, VisitUser, NobodyAsks, GrantedFirst;
    if reqs != [] {
      var n := |reqs| - 1;
      OpenVisits(u0, tti, reqs[..n]);
      assert reqs[..n] + [reqs[n]] == reqs;
      AsksLast(reqs[..n], reqs[n]);
      if UserCanStart(u0.table, tti) && !NobodyAsks(reqs[..n], 0) {
        StillGranted(u0, VisitUsers(u0, tti, reqs[..n]), tti, reqs[..n], reqs[n]);
      } else {
        FirstGranted(u0, tti, reqs[..n], reqs[n]);
      }
    } else {
      NobodyThere(0);
    }
  }

  lemma AsksLast(reqs: seq<DlReq>, req: DlReq)
    ensures NobodyAsks(reqs + [req], 0) <==> NobodyAsks(reqs, 0) && req.min == 0
  {
    var all := reqs + [req];
    if NobodyAsks(all, 0) {
      forall j | 0 <= j < |reqs| ensures reqs[j].min == 0 { assert all[j] == reqs[j]; }
      assert all[|reqs|] == req;
    }
  }

  lemma StillGranted(u0: UserState, u: UserState, tti: nat, reqs: seq<DlReq>, req: DlReq)
    requires tti < RING && GrantedFirst(u0, u, tti, reqs)
    ensures VisitUser(u, tti, req) == u && GrantedFirst(u0, u, tti, reqs + [req])
  {
    hide GrantedTo, VisitUser;
    var k :| FirstAsk(reqs, 0, k) && GrantedTo(u0, u, tti, reqs[k]);
    VisitAfterGrant(u0, u, tti, reqs[k], req);
    assert FirstAsk(reqs + [req], 0, k) && (reqs + [req])[k] == reqs[k];
  }

  lemma FirstGranted(u0: UserState, tti: nat, reqs: seq<DlReq>, req: DlReq)
    requires tti < RING && u0.data == [] && !u0.throttle.active
    requires UserCanStart(u0.table, tti) ==> NobodyAsks(reqs, 0)
    ensures if UserCanStart(u0.table, tti) && req.min > 0 then GrantedFirst(u0, VisitUser(u0, tti, req), tti, reqs + [req])
            else VisitUser(u0, tti, req) == u0
  {
    hide UserCanStart, UserMarks, Reserve, ISf, Expired;
    if UserCanStart(u0.table, tti) && req.min > 0 {
      var all := reqs + [req];
      assert all[|reqs|] == req && FirstAsk(all, 0, |reqs|);
      assert GrantedTo(u0, VisitUser(u0, tti, req), tti, all[|reqs|]);
    }
  }

  function Opened(u: UserState): UserState {
    u.(throttle := u.throttle.(active := false))
  }

  /** The first visit after the throttle has expired only opens it. */
  lemma {:induction false} OpeningVisit(u0: UserState, tti: nat, reqs: seq<DlReq>)
    requires tti < RING && u0.data == [] && u0.throttle.active && Expired(u0.throttle, tti) && reqs != []
    ensures VisitUsers(u0, tti, reqs) == VisitUsers(Opened(u0), tti, reqs[1..])
  {
    hide UserCanStart, UserMarks, Reserve, ISf, Expired;
    var n := |reqs| - 1;
    if n > 0 {
      OpeningVisit(u0, tti, reqs[..n]);
      assert reqs[..n][1..] == reqs[1..][..n - 1];
    } else {
      assert VisitUsers(u0, tti, reqs[..0]) == u0;
    }
  }

  lemma FirstIsGiven(u0: UserState, u: UserState, tti: nat, reqs: seq<DlReq>)
    requires tti < RING && u0.data == [] && GrantedFirst(u0, u, tti, reqs)
    ensures BlockForFirst(reqs, 0, u.data) && u.throttle.active
  {
    hide UserCanStart, UserMarks, Reserve, ISf, Expired;
    var k :| FirstAsk(reqs, 0, k) && GrantedTo(u0, u, tti, reqs[k]);
    assert u.data == [DlAlloc(reqs[k].rnti, ISf(reqs[k].max))];
  }

  /** The request from which on a visit can grant: the first one only opens a closed throttle. */
  function Begin(th: Throttle): nat {
    if th.active then 1 else 0
  }

  /** Who is granted by the visits of one pass, and whether the throttle is closed after them. */
  lemma VisitsExactly(u0: UserState, tti: nat, reqs: seq<DlReq>)
    requires tti < RING && u0.data == []
    ensures var u := VisitUsers(u0, tti, reqs);
            if UserCanStart(u0.table, tti) && Ready(u0.throttle, tti) && !NobodyAsks(reqs, Begin(u0.throttle))
            then BlockForFirst(reqs, Begin(u0.throttle), u.data) && u.throttle.active
            else u.data == [] && (u.throttle.active <==> u0.throttle.active && !(Expired(u0.throttle, tti) && reqs != []))
  {
    hide UserCanStart, Expired, GrantedFirst, BlockForFirst, NobodyAsks, VisitUsers;
    if !u0.throttle.active {
      OpenVisits(u0, tti, reqs);
      if UserCanStart(u0.table, tti) && !NobodyAsks(reqs, 0) { FirstIsGiven(u0, VisitUsers(u0, tti, reqs), tti, reqs); }
    } else if !Expired(u0.throttle, tti) || reqs == [] {
      ClosedThrottle(u0, tti, reqs);
      if reqs == [] { NobodyThere(1); }
    } else {
      var u1 := Opened(u0);
      OpeningVisit(u0, tti, reqs);
      OpenVisits(u1, tti, reqs[1..]);
      AsksBehind(reqs);
      if UserCanStart(u1.table, tti) && !NobodyAsks(reqs, 1) {
        FirstIsGiven(u1, VisitUsers(u1, tti, reqs[1..]), tti, reqs[1..]);
        FirstBehind(reqs, VisitUsers(u1, tti, reqs[1..]).data);
      }
    }
  }

  lemma NobodyThere(from: nat)
    ensures NobodyAsks([], from)
  {
  }

  lemma AsksBehind(reqs: seq<DlReq>)
    requires reqs != []
    ensures NobodyAsks(reqs, 1) <==> NobodyAsks(reqs[1..], 0)
  {
    if NobodyAsks(reqs[1..], 0) {
      forall j | 1 <= j < |reqs| ensures reqs[j].min == 0 { assert reqs[j] == reqs[1..][j - 1]; }
    }
  }

  lemma FirstBehind(reqs: seq<DlReq>, data: seq<DlAlloc>)
    requires reqs != [] && BlockForFirst(reqs[1..], 0, data)
    ensures BlockForFirst(reqs, 1, data)
  {
    hide ISf;
    var k :| FirstAsk(reqs[1..], 0, k) && data == [DlAlloc(reqs[1..][k].rnti, ISf(reqs[1..][k].max))];
    forall j | 1 <= j < k + 1 ensures reqs[j].min == 0 { assert reqs[j] == reqs[1..][j - 1]; }
    assert FirstAsk(reqs, 1, k + 1) && reqs[1..][k] == reqs[k + 1];
  }

  // ---------------------------------------------------------------- the pass of a run

  /** Nobody else has the subframe, and it may carry a user's DCI. */
  ghost predicate UserOpen(s: Sys, inp: Input) {
    UserTime(Tx(s)) && !Held(s.log, Tx(s)) && !PassOf(s, inp).rarDone
  }

  /** When the visits find the subframe open, in the terms of the log and the calendar. */
  lemma UserOpenMeans(s: Sys, inp: Input)
    requires Inv(s)
    ensures var t2 := Reserve(TableAfterBc(s, inp), At(0, Tx(s)), Offsets(RaMarksOf(s, inp)));
            UserCanStart(t2, At(0, Tx(s))) <==> UserOpen(s, inp)
  {
    var tx := Tx(s);
    hide BcMarks, RaPass, Reserve, Offsets, Mid, UserCanStart, IsValidDlSf, IsSib1Sf, IsSib2Start, At, Held, Inv;
    hide RarDataOffset;
    var b, r := Absolute(tx, BcMarksOf(s)), Absolute(tx, RaMarksOf(s, inp));
    BcPhase(s);
    RaPhase(TableAfterBc(s, inp), tx, s.log + b, s.grantAt, AddAll(s.dl.rars, inp.rach));
    CanStartMeans(Reserve(TableAfterBc(s, inp), At(0, tx), Offsets(RaMarksOf(s, inp))), tx, s.log + b + r, s.grantAt);
    PassParts(s, inp);
    BcOwners(s);
    HeldAppend(s.log + b, r, tx);
    RarHolds(s, inp);
    assert DciTime(tx) ==> s.log + b == s.log;
  }

  /** A completed RAR takes the subframe, and only that. */
  lemma RarHolds(s: Sys, inp: Input)
    ensures Held(Absolute(Tx(s), RaMarksOf(s, inp)), Tx(s)) <==> RaOf(s, inp).done
  {
    hide RaPass, RarDataOffset, At;
    var r := Absolute(Tx(s), RaMarksOf(s, inp));
    if RaOf(s, inp).done { assert r[0].at == Tx(s); }
  }

  /** What the visits of the pass do, in the terms of the state before it. */
  lemma PassGrants(s: Sys, inp: Input)
    requires Inv(s)
    ensures if UserOpen(s, inp) && Ready(s.dl.throttle, At(0, Tx(s))) && !NobodyAsks(inp.reqs, Begin(s.dl.throttle))
            then BlockForFirst(inp.reqs, Begin(s.dl.throttle), PassOf(s, inp).data) else PassOf(s, inp).data == []
    ensures var n := Step(s, inp);
            && n.dl.throttle.active == (PassOf(s, inp).data != []
                 || (s.dl.throttle.active && !(Expired(s.dl.throttle, At(0, Tx(s))) && inp.reqs != [])))
            && n.grantAt == if PassOf(s, inp).data != [] then Tx(s) else s.grantAt
  {
    hide BcMarks, BcMarksOf, RaPart, RaMarks, Reserve, VisitUsers, UserCanStart, At, Held, AddAll, Inv, Step, UserOpen;
    hide Expired, NobodyAsks, Begin, Offsets, AfterBc;
    var t2 := Reserve(TableAfterBc(s, inp), At(0, Tx(s)), Offsets(RaMarksOf(s, inp)));
    UserOpenMeans(s, inp);
    PassParts(s, inp);
    StepParts(s, inp);
    VisitsExactly(UserState(t2, s.dl.throttle, [], []), At(0, Tx(s)), inp.reqs);
  }

  // ---------------------------------------------------------------- the throttle, from the history

  /** The pass for `a` is more than 25 subframes after the grant in `g`, as the program measures it. */
  predicate Later(g: nat, a: nat)
    requires g <= a
  {
    (a - g) % RING > 25
  }

  lemma LaterIsExpired(g: nat, a: nat)
    requires g <= a
    ensures Expired(Throttle(true, At(0, g)), At(0, a)) <==> Later(g, a)
  {
    var p, q := g / RING, a / RING;
    assert g == RING * p + At(0, g) && a == RING * q + At(0, a);
    assert a - g == RING * (q - p - 1) + (At(0, a) + RING - At(0, g));
    ModShift(q - p - 1, At(0, a) + RING - At(0, g));
  }

  lemma ModShift(k: int, y: nat)
    ensures (RING * k + y) % RING == y % RING
  {
    assert y == RING * (y / RING) + y % RING;
    var z := k + y / RING;
    assert RING * k + y == RING * z + y % RING;
    ModOf(z, y % RING);
  }

  lemma ModOf(z: int, r: nat)
    requires r < RING
    ensures (RING * z + r) % RING == r
  {
  }

  /** No pass since `g` has visited a user more than 25 subframes after it. */
  ghost predicate NoneLater(inputs: seq<Input>, g: nat) {
    forall j :: 0 <= j < |inputs| && g < RING + j && inputs[j].reqs != [] ==> !Later(g, RING + j)
  }

  /** A user has been granted, and no pass since then has visited a user more than 25 subframes after it. */
  ghost predicate HoldsBack(inputs: seq<Input>) {
    Run(inputs).grantAt >= 0 && NoneLater(inputs, Run(inputs).grantAt)
  }

  lemma NoneLaterMore(inputs: seq<Input>, inp: Input, g: nat)
    ensures NoneLater(inputs + [inp], g)
            <==> NoneLater(inputs, g) && (g < RING + |inputs| && inp.reqs != [] ==> !Later(g, RING + |inputs|))
  {
    hide Later;
    var all := inputs + [inp];
    assert all[|inputs|] == inp && forall j :: 0 <= j < |inputs| ==> all[j] == inputs[j];
  }

  lemma NoneLaterYet(inputs: seq<Input>, g: nat)
    requires g + 1 >= RING + |inputs|
    ensures NoneLater(inputs, g)
  {
    hide Later;
  }

  /** The throttle is closed exactly when a user has been granted and no pass since has opened it again. */
  lemma {:induction false} ThrottleExactly(inputs: seq<Input>)
    ensures Run(inputs).dl.throttle.active <==> HoldsBack(inputs)
  {
    hide Step, Later, Expired, HoldsBack;
    if inputs == [] {
      NothingHeldBack();
    } else {
      var before, inp := inputs[..|inputs| - 1], inputs[|inputs| - 1];
      ThrottleExactly(before);
      assert inputs == before + [inp];
      ThrottleStep(before, inp);
    }
  }

  lemma NothingHeldBack()
    ensures !HoldsBack([])
  {
  }

  lemma ThrottleStep(before: seq<Input>, inp: Input)
    requires Run(before).dl.throttle.active <==> HoldsBack(before)
    ensures Step(Run(before), inp).dl.throttle.active <==> HoldsBack(before + [inp])
  {
    hide Run, Step, Later, Expired, PassOf, UserOpen, Inv, NobodyAsks, ISf, At, NoneLater;
    var s := Run(before);
    RunInv(before);
    RunMore(before, inp);
    PassGrants(s, inp);
    BeforeNow(s);
    if PassOf(s, inp).data != [] {
      NoneLaterYet(before + [inp], Tx(s));
    } else if s.grantAt >= 0 {
      NoneLaterMore(before, inp, s.grantAt);
      if s.dl.throttle.active { ActiveIsLast(s); }
      LaterIsExpired(s.grantAt, Tx(s));
    }
  }

  lemma ActiveIsLast(s: Sys)
    requires Inv(s) && s.dl.throttle.active
    ensures s.grantAt >= 0 && s.dl.throttle == Throttle(true, At(0, s.grantAt))
  {
    hide Exact, AllGood, Orderly, Closed, Sib1Times, At;
  }

  lemma BeforeNow(s: Sys)
    requires Inv(s)
    ensures s.grantAt < Tx(s)
  {
    hide Exact, AllGood, Orderly, Closed, Sib1Times;
  }

  // ---------------------------------------------------------------- exactly who is granted

  /** The pass grants request `k`: its subframe may carry a user's DCI, is free and goes to no RAR; the throttle is
      open or has expired; and `k` is the first that asks, the first visited user left out if it only opens the
      throttle. */
  ghost predicate Grants(inputs: seq<Input>, inp: Input, k: int) {
    var s := Run(inputs);
    && UserTime(Tx(s)) && !Held(s.log, Tx(s)) && !PassOf(s, inp).rarDone
    && (if HoldsBack(inputs) then s.grantAt < Tx(s) && Later(s.grantAt, Tx(s)) && FirstAsk(inp.reqs, 1, k)
        else FirstAsk(inp.reqs, 0, k))
  }

  lemma FirstIsOne(reqs: seq<DlReq>, from: nat, j: int, k: int)
    requires FirstAsk(reqs, from, j) && FirstAsk(reqs, from, k)
    ensures j == k
  {
  }

  /** The block of the request: three subframes for more than 20 bytes, otherwise one. */
  function BlockOf(req: DlReq): DlAlloc {
    DlAlloc(req.rnti, if req.max > 20 then 2 else 0)
  }

  /** In every run a pass grants a user exactly then, and nobody else. */
  lemma GrantsExactly(inputs: seq<Input>, inp: Input)
    ensures var data := PassOf(Run(inputs), inp).data;
            && (forall k :: Grants(inputs, inp, k) ==> data == [BlockOf(inp.reqs[k])])
            && ((forall k :: !Grants(inputs, inp, k)) ==> data == [])
  {
    hide Run, Expired, PassOf, NobodyAsks, UserTime, Inv, At, Held, FirstAsk, Grants, BlockForFirst, BlockOf;
    var s := Run(inputs);
    RunInv(inputs);
    PassGrants(s, inp);
    var data, from := PassOf(s, inp).data, Begin(s.dl.throttle);
    forall k
      ensures Grants(inputs, inp, k)
              <==> UserOpen(s, inp) && Ready(s.dl.throttle, At(0, Tx(s))) && FirstAsk(inp.reqs, from, k)
    {
      GrantsMeans(inputs, inp, k);
    }
    if UserOpen(s, inp) && Ready(s.dl.throttle, At(0, Tx(s))) {
      if NobodyAsks(inp.reqs, from) { NoFirst(inp.reqs, from); } else { OnlyFirst(inp.reqs, from, data); }
    }
  }

  lemma NoFirst(reqs: seq<DlReq>, from: nat)
    requires NobodyAsks(reqs, from)
    ensures forall k :: !FirstAsk(reqs, from, k)
  {
  }

  lemma OnlyFirst(reqs: seq<DlReq>, from: nat, data: seq<DlAlloc>)
    requires BlockForFirst(reqs, from, data)
    ensures forall k :: FirstAsk(reqs, from, k) ==> 0 <= k < |reqs| && data == [BlockOf(reqs[k])]
    ensures exists k :: FirstAsk(reqs, from, k)
  {
    var j :| FirstAsk(reqs, from, j) && data == [DlAlloc(reqs[j].rnti, ISf(reqs[j].max))];
    forall k | FirstAsk(reqs, from, k) ensures data == [BlockOf(reqs[k])] { FirstIsOne(reqs, from, j, k); }
  }

  lemma GrantsMeans(inputs: seq<Input>, inp: Input, k: int)
    ensures var s := Run(inputs);
            Grants(inputs, inp, k)
            <==> UserOpen(s, inp) && Ready(s.dl.throttle, At(0, Tx(s))) && FirstAsk(inp.reqs, Begin(s.dl.throttle), k)
  {
    hide Run, Later, Expired, PassOf, UserTime, AllGood, Exact, Closed, Sib1Times, Orderly, At, Held, HoldsBack;
    hide FirstAsk;
    var s := Run(inputs);
    RunInv(inputs);
    ThrottleExactly(inputs);
    if s.dl.throttle.active { LaterIsExpired(s.grantAt, Tx(s)); }
  }

  /** A pass completes a RAR exactly when the oldest owes one response and its subframe may carry the DCI and is
      free. */
  lemma CompletesExactly(s: Sys, inp: Input)
    requires Inv(s)
    ensures var q := AddAll(s.dl.rars, inp.rach);
            PassOf(s, inp).rarDone <==> q != [] && |q[0].grants| == 1 && RarTime(Tx(s)) && !Held(s.log, Tx(s))
  {
    hide Inv, At, RarTime, Held, AddAll, BcPart, AfterBc, RarCanStart, UserPart, RaMarks;
    PassParts(s, inp);
    if RarTime(Tx(s)) && !Held(s.log, Tx(s)) { RarOpen(s, inp); }
    if PassOf(s, inp).rarDone { RarSentMeans(s, inp); }
  }

  /** A granted block: the DCI, then three subframes for more than 20 bytes and otherwise one, the earliest that
      are free and that a user may use; and the pass reserves nothing else. */
  lemma BlockExactly(inputs: seq<Input>, inp: Input, k: nat) returns (f: seq<nat>)
    requires Grants(inputs, inp, k)
    ensures |f| == (if inp.reqs[k].max > 20 then 3 else 1) && FreshBlock(Run(inputs).log, Tx(Run(inputs)), f)
    ensures var s := Run(inputs); Step(s, inp).log == s.log + GrantBlock(Tx(s), f)
  {
    hide Run, Step, PassOf, Inv, At, Held, UserTime, HoldsBack, BlockOf, UserFit, FreshBlock, Offsets, Reserve;
    hide AfterBc, ISf, BcMarksOf;
    var s := Run(inputs);
    RunInv(inputs);
    GrantsMeans(inputs, inp, k);
    GrantsExactly(inputs, inp);
    ReadyIsLate(s);
    f := UserFit(TableAfterBc(s, inp), At(0, Tx(s)), inp.reqs[k].max);
    BlockFits(s, inp, inp.reqs[k].max);
    BlockIs(s, inp, inp.reqs[k].max, f);
    OnlyUserMarks(s, inp, inp.reqs[k]);
    StepParts(s, inp);
    BcOwners(s);
    UserIsDci(Tx(s));
    SizeOf(inp.reqs[k].max);
    assert LogAfterRa(s, inp) == s.log by { NoRarMarksOf(s, inp); }
  }

  lemma SizeOf(max: nat)
    ensures N_SF[ISf(max)] == if max > 20 then 3 else 1
  {
  }

  lemma NoRarMarksOf(s: Sys, inp: Input)
    requires !PassOf(s, inp).rarDone
    ensures RaMarksOf(s, inp) == []
  {
    hide RaPart, AddAll, BcPart, AfterBc, UserPart, At;
    PassParts(s, inp);
  }

  lemma ReadyIsLate(s: Sys)
    requires Inv(s) && Ready(s.dl.throttle, At(0, Tx(s)))
    ensures s.grantAt + 25 < Tx(s)
  {
    hide Exact, AllGood, Orderly, Closed, Sib1Times, Expired, At;
    if s.dl.throttle.active { ExpiredMeans(s.grantAt, Tx(s)); }
  }

  lemma BlockFits(s: Sys, inp: Input, max: nat)
    requires Inv(s) && UserTime(Tx(s)) && !Held(s.log, Tx(s)) && s.grantAt + 25 < Tx(s)
    ensures var f := UserFit(TableAfterBc(s, inp), At(0, Tx(s)), max);
            FreshBlock(s.log, Tx(s), f) && |f| == N_SF[ISf(max)]
  {
    hide At, Held, BcMarks, IsValidDlSf, IsSib1Sf, IsSib2Start, Exact, AllGood, Orderly, Closed, FreshBlock, UserFit;
    hide ISf;
    BcOwners(s);
    BcPhase(s);
    assert s.log + Absolute(Tx(s), BcMarksOf(s)) == s.log;
    UserBlock(TableAfterBc(s, inp), Tx(s), s.log, s.grantAt, max);
    FitLength(TableAfterBc(s, inp), Tx(s), s.log, s.grantAt, max);
  }

  /** The marks of a pass that grants `req` and completes no RAR. */
  lemma OnlyUserMarks(s: Sys, inp: Input, req: DlReq)
    requires PassOf(s, inp).data == [BlockOf(req)] && !PassOf(s, inp).rarDone
    ensures UsersOf(s, inp).data != [] && UsersOf(s, inp).marks == UserMarks(TableAfterBc(s, inp), At(0, Tx(s)), req.max)
  {
    hide BcPart, AfterBc, RaPart, UserCanStart, At, AddAll, UserMarks, ISf;
    var d, rx, tti := StateBefore(s, inp), At(0, s.now), At(0, Tx(s));
    PassParts(s, inp);
    NothingReserved(AfterBc(d, rx, tti), tti);
    var u0 := UserState(AfterBc(d, rx, tti), d.throttle, [], []);
    assert UsersOf(s, inp) == VisitUsers(u0, tti, inp.reqs);
    OneUserPerPass(u0, tti, inp.reqs);
    var j :| 0 <= j < |inp.reqs| && GrantedTo(u0, UsersOf(s, inp), tti, inp.reqs[j]);
    assert UsersOf(s, inp).data == [DlAlloc(inp.reqs[j].rnti, ISf(inp.reqs[j].max))] == [BlockOf(req)];
    assert [DlAlloc(inp.reqs[j].rnti, ISf(inp.reqs[j].max))][0] == [BlockOf(req)][0];
    SameSize(u0.table, tti, inp.reqs[j].max, req.max);
    assert UsersOf(s, inp).marks == UserMarks(u0.table, tti, inp.reqs[j].max);
  }

  lemma SameSize(t: Table, tti: nat, a: nat, b: nat)
    requires tti < RING
    ensures ISf(a) == (if b > 20 then 2 else 0) ==> UserMarks(t, tti, a) == UserMarks(t, tti, b)
  {
    hide Fit;
  }

  // ---------------------------------------------------------------- how soon

  /** Passes within which a user is granted. */
  const GRANT_BOUND: nat := 50

  /** A subframe for a user's DCI that SIB2 never uses. */
  predicate GoodUserTime(a: nat) {
    UserTime(a) && a % 40 > 11
  }

  lemma GoodBy40(a: nat)
    requires var r := a % 40; r == 16 || r == 17 || r == 24 || r == 32 || r == 33
    ensures GoodUserTime(a)
  {
    Parts40(a);
    Phase(a);
    hide IsValidDlSf, IsSib1Sf, IsSib2Start;
  }

  lemma Parts40(a: nat)
    ensures a % 8 == a % 40 % 8 && a % 20 == a % 40 % 20
  {
    EighthOf40(a);
    TwentiethOf40(a);
  }

  lemma EighthOf40(a: nat)
    ensures a % 8 == a % 40 % 8
  {
    var q, r := a / 40, a % 40;
    var x, y := r / 8, r % 8;
    assert a == 8 * (5 * q + x) + y;
  }

  lemma TwentiethOf40(a: nat)
    ensures a % 20 == a % 40 % 20
  {
    var q, r := a / 40, a % 40;
    var x, y := r / 20, r % 20;
    assert a == 20 * (2 * q + x) + y;
  }

  lemma Mod40(t: nat, o: nat)
    requires o < 40
    ensures (t + o) % 40 == if t % 40 + o < 40 then t % 40 + o else t % 40 + o - 40
  {
    var q := t / 40;
    assert t + o == 40 * q + (t % 40 + o);
  }

  lemma NextUserTime(t: nat) returns (a: nat)
    ensures t <= a <= t + 22 && GoodUserTime(a)
  {
    var r := t % 40;
    var o: nat := if r <= 16 then 16 - r else if r <= 17 then 0 else if r <= 24 then 24 - r
                  else if r <= 32 then 32 - r else if r == 33 then 0 else 56 - r;
    a := t + o;
    Mod40(t, o);
    GoodBy40(a);
  }

  /** Who could hold a good subframe is past: RARs sent before `t`, and the last user block. */
  lemma GoodIsFree(s: Sys, t: nat)
    requires Inv(s) && GoodUserTime(Tx(s)) && t + 7 <= Tx(s) && s.grantAt + 16 < Tx(s)
    requires forall k :: 0 <= k < |s.log| && s.log[k].owner.RarData? ==> s.log[k].pass < t
    ensures !Held(s.log, Tx(s))
  {
    hide Exact, Orderly, Spaced, Sib1Times, IsSib2Start, IsValidDlSf, IsSib1Sf, UserPhase, RarDataOffset, At, Closed;
    forall k | 0 <= k < |s.log| ensures s.log[k].at != Tx(s) {
      assert Good(s.log[k], Tx(s), s.grantAt);
      Phase(Tx(s));
      match s.log[k].owner
      case Sib2 =>
        Sib2StartForm(s.log[k].pass);
        if s.log[k].at == Tx(s) { Sib2Column(s.log[k].pass, Tx(s)); }
      case RarData => RarTimePlace(s.log[k].pass);
      case _ =>
    }
  }

  /** Among 27 consecutive passes one is late enough to open the throttle. */
  lemma SomeLater(g: nat, t: nat) returns (i: nat)
    requires g < t
    ensures i <= 26 && Later(g, t + i)
  {
    var x := (t - g) % RING;
    var q := (t - g) / RING;
    i := if x > 25 then 0 else 26 - x;
    assert t + i - g == RING * q + (x + i);
    ModOf(q, x + i);
  }

  /** The first `n` passes of the stretch grant nobody. */
  ghost predicate NoneGranted(inputs: seq<Input>, more: seq<Input>, n: nat)
    requires n <= |more|
  {
    forall k :: 0 <= k < n ==> OutAt(inputs, more, k).data == []
  }

  lemma {:induction false} GrantStays(inputs: seq<Input>, more: seq<Input>, n: nat)
    requires n <= |more| && NoneGranted(inputs, more, n)
    ensures StateAt(inputs, more, n).grantAt == Run(inputs).grantAt
  {
    hide Run, PassOf, Inv;
    if n == 0 {
      assert inputs + more[..0] == inputs;
    } else {
      GrantStays(inputs, more, n - 1);
      StateStep(inputs, more, n - 1);
      assert OutAt(inputs, more, n - 1).data == [];
    }
  }

  /** After 27 passes that visit users and grant nobody, the throttle is open. */
  lemma OpensAgain(inputs: seq<Input>, more: seq<Input>, n: nat)
    requires 27 <= n <= |more| && NoneGranted(inputs, more, n)
    requires forall k :: 0 <= k < n ==> more[k].reqs != []
    ensures !HoldsBack(inputs + more[..n])
  {
    hide Run, PassOf, Step, Later, OutAt;
    var all, g := inputs + more[..n], Run(inputs).grantAt;
    RunInv(inputs);
    BeforeNow(Run(inputs));
    GrantStays(inputs, more, n);
    if g >= 0 {
      var i := SomeLater(g, RING + |inputs|);
      var j := |inputs| + i;
      assert all[j] == more[i];
    }
  }

  /** In every run: of any 50 consecutive passes in each of which some visited user asks, one grants a user or
      completes a random access response. */
  lemma GrantedSoon(inputs: seq<Input>, more: seq<Input>)
    requires |more| >= GRANT_BOUND && forall k :: 0 <= k < GRANT_BOUND ==> !NobodyAsks(more[k].reqs, 0)
    ensures exists k :: 0 <= k < GRANT_BOUND && (OutAt(inputs, more, k).data != [] || OutAt(inputs, more, k).rarDone)
  {
    hide Run, PassOf, Step, Inv, OutAt, HoldsBack, UserTime;
    if NoneGranted(inputs, more, GRANT_BOUND) && NoneCompleted(inputs, more, GRANT_BOUND) {
      var a := NextUserTime(RING + |inputs| + 27);
      RunInv(inputs);
      var k: nat := a - (RING + |inputs|);
      var before := inputs + more[..k];
      var s := Run(before);
      StateStep(inputs, more, k);
      OutIs(inputs, more, k);
      BeforeNow(Run(inputs));
      GrantStays(inputs, more, k);
      OldRarsOnly(inputs, more, k, k);
      GoodIsFree(s, Tx(Run(inputs)));
      OpensAgain(inputs, more, k);
      var i := TheFirst(more[k].reqs);
      assert Grants(before, more[k], i);
      GrantsExactly(before, more[k]);
    }
  }

  lemma TheFirst(reqs: seq<DlReq>) returns (k: nat)
    requires !NobodyAsks(reqs, 0)
    ensures FirstAsk(reqs, 0, k)
  {
    k := 0;
    while reqs[k].min == 0
      invariant k < |reqs| && forall j :: 0 <= j < k ==> reqs[j].min == 0
      decreases |reqs| - k
    {
      if k + 1 == |reqs| { assert NobodyAsks(reqs, 0); }
      k := k + 1;
    }
  }

  // ---------------------------------------------------------------- how detections keep users waiting

  /** Every pass finds a RAR that owes exactly one response at the front of the queue. */
  ghost predicate Flooded(inputs: seq<Input>) {
    forall k :: 0 <= k < |inputs| ==> OneOwed(AddAll(Run(inputs[..k]).dl.rars, inputs[k].rach))
  }

  predicate OneOwed(q: seq<PendingRar>) {
    q != [] && |q[0].grants| == 1
  }

  /** The RAR of subframe `a` has its data in the log. */
  ghost predicate SentIn(log: seq<Reservation>, a: nat) {
    Reservation(a + RarDataOffset(At(0, a)), RarData, a) in log
  }

  /** SIB2 or the data of a RAR is in subframe `a`. */
  ghost predicate Covered(log: seq<Reservation>, a: nat) {
    exists k :: 0 <= k < |log| && log[k].at == a && (log[k].owner.Sib2? || log[k].owner.RarData?)
  }

  /** No user has a reservation, and every subframe for a RAR's DCI has been used or was covered. */
  ghost predicate NoUsers(log: seq<Reservation>, tx: nat) {
    && (forall k :: 0 <= k < |log| ==> !log[k].owner.UserDci? && !log[k].owner.UserData?)
    && (forall a :: RING <= a < tx && RarTime(a) ==> SentIn(log, a) || Covered(log, a))
  }

  lemma CoveredIsHeld(log: seq<Reservation>, a: nat)
    requires Covered(log, a)
    ensures Held(log, a)
  {
  }

  lemma SentIsHeld(log: seq<Reservation>, a: nat)
    requires SentIn(log, a)
    ensures Held(log, a + RarDataOffset(At(0, a)))
  {
    hide RarDataOffset, At;
    InMeansHeld(log, Reservation(a + RarDataOffset(At(0, a)), RarData, a));
  }

  /** Where the data of no user is, a held subframe that may carry a DCI is covered. */
  lemma HeldIsCovered(s: Sys)
    requires Inv(s) && NoUsers(s.log, Tx(s)) && Held(s.log, Tx(s)) && DciTime(Tx(s))
    ensures Covered(s.log, Tx(s))
  {
    hide Exact, Orderly, Spaced, Sib1Times, Closed, Shape, NewAtPeriod, IsValidDlSf, IsSib1Sf, IsSib2Start;
    var k :| 0 <= k < |s.log| && s.log[k].at == Tx(s);
    assert Good(s.log[k], Tx(s), s.grantAt);
    Phase(Tx(s));
  }

  lemma CoveredMore(log: seq<Reservation>, more: seq<Reservation>, a: nat)
    requires SentIn(log, a) || Covered(log, a)
    ensures SentIn(log + more, a) || Covered(log + more, a)
  {
    hide RarDataOffset, At;
    if Covered(log, a) {
      var k :| 0 <= k < |log| && log[k].at == a && (log[k].owner.Sib2? || log[k].owner.RarData?);
      assert (log + more)[k] == log[k];
    }
  }

  /** Who covers a subframe: a RAR sent five or seven subframes before, or the SIB2 of its column. */
  lemma CoveredBy(s: Sys, a: nat) returns (k: nat)
    requires Inv(s) && Covered(s.log, a)
    ensures k < |s.log| && s.log[k].at == a
    ensures var r := s.log[k];
            || (r.owner.RarData? && RarTime(r.pass) && a == r.pass + (if r.pass % 20 == 4 then 7 else 5))
            || (r.owner.Sib2? && r.pass % 40 == 1 && IsSib2Offset(a - r.pass) && Sib2Placed(s.log, r.pass))
  {
    hide Exact, Orderly, Spaced, Sib1Times, Closed, RarTime, RarDataOffset, At, Sib2Placed, IsSib2Start;
    k :| 0 <= k < |s.log| && s.log[k].at == a && (s.log[k].owner.Sib2? || s.log[k].owner.RarData?);
    assert Good(s.log[k], Tx(s), s.grantAt);
    if s.log[k].owner.RarData? {
      RarDataAt(s.log[k].pass);
    } else {
      PlacedFrom(s, k);
      Sib2StartForm(s.log[k].pass);
    }
  }

  /** Five subframes before a user's subframe outside the first two of 16 lies one for a RAR. */
  lemma FiveEarlier(t: nat)
    requires UserTime(t) && t % 16 >= 2 && t >= RING
    ensures t >= RING + 8 && t % 16 >= 8 && RarTime(t - 5) && (t - 5) % 20 != 4
  {
    Phase(t);
    Phase(t - 5);
    hide IsValidDlSf, IsSib1Sf, IsSib2Start;
    FiveBack(t);
  }

  lemma FiveBack(t: nat)
    requires t % 8 < 2 && t % 16 >= 2 && t >= RING
    requires var p := t % 20; p != 0 && p != 5 && p != 9 && p != 10 && p != 14 && p != 15
    ensures t >= RING + 8 && t % 16 >= 8 && (t - 5) % 16 < 8
    ensures var p := (t - 5) % 20; p != 0 && p != 1 && p != 4 && p != 5 && p != 9 && p != 10 && p != 14 && p != 15
  {
    EighthOf16(t);
    EightOrNine(t % 16);
    AfterRing(t);
    FiveBackIn16(t);
    PhaseBack(t);
  }

  lemma EightOrNine(r: nat)
    requires r < 16 && r % 8 < 2 && r >= 2
    ensures (r == 8 || r == 9) && r % 4 < 2
  {
  }

  lemma AfterRing(t: nat)
    requires t >= RING && (t % 16 == 8 || t % 16 == 9)
    ensures t >= RING + 8
  {
  }

  lemma FiveBackIn16(t: nat)
    requires t >= 5 && (t % 16 == 8 || t % 16 == 9)
    ensures (t - 5) % 16 == t % 16 - 5
  {
    var q, r := t / 16, t % 16;
    assert t == 16 * q + r;
    SixteenBack(q, r);
  }

  lemma SixteenBack(q: nat, r: nat)
    requires r == 8 || r == 9
    ensures (16 * q + r - 5) % 16 == r - 5
  {
  }

  lemma EighthOf16(t: nat)
    ensures t % 8 == t % 16 % 8 && t % 4 == t % 16 % 4
  {
    var q, r := t / 16, t % 16;
    var x, y := r / 8, r % 8;
    assert t == 8 * (2 * q + x) + y;
    var z, w := r / 4, r % 4;
    assert t == 4 * (4 * q + z) + w;
  }

  lemma PhaseBack(t: nat)
    requires t % 4 < 2 && t >= 5
    requires var p := t % 20; p != 0 && p != 5 && p != 9 && p != 10 && p != 14 && p != 15
    ensures var p := (t - 5) % 20; p != 0 && p != 1 && p != 4 && p != 5 && p != 9 && p != 10 && p != 14 && p != 15
  {
    var q, p := t / 20, t % 20;
    assert t == 20 * q + p && t % 4 == p % 4;
  }

  /** No RAR sent five or seven subframes before has its DCI in the first half of 16. */
  lemma NoRarBefore(a: nat, p: nat)
    requires a % 16 == 3 || a % 16 == 4
    requires a == p + 5 || a == p + 7
    ensures p % 16 >= 8 && !RarTime(p)
  {
    hide IsValidDlSf, IsSib1Sf, IsSib2Start;
    var q := a / 16;
    assert a == 16 * q + a % 16;
    BackInto(q - 1, a % 16 + 16 - (a - p));
  }

  lemma BackInto(q: int, r: nat)
    requires r < 16
    ensures (16 * q + r) % 16 == r
  {
  }

  /** SIB2 that covers the subframe five before a user's: it holds the user's subframe too, or starts 15 before. */
  lemma Sib2Before(t: nat, p: nat)
    requires UserTime(t) && t >= RING && t % 16 >= 8 && p % 40 == 1 && p + 5 <= t && IsSib2Offset(t - 5 - p)
    ensures t == p + 7 || (t == p + 15 && p % 16 == 9)
  {
    Phase(t);
    hide IsValidDlSf, IsSib1Sf, IsSib2Start;
    var q := p / 40;
    assert p == 40 * q + 1;
    assert t == 40 * q + (t - p + 1);
    Column40(q, t - p + 1);
    if t == p + 15 { FifteenBack(t, q); }
  }

  lemma Column40(q: nat, r: nat)
    requires r < 40
    ensures (40 * q + r) % 20 == r % 20 && (40 * q + r) % 8 == r % 8
  {
    var a := 40 * q + r;
    RestOf40(q, r);
    Parts40(a);
  }

  lemma RestOf40(q: nat, r: nat)
    requires r < 40
    ensures (40 * q + r) % 40 == r
  {
  }

  lemma FifteenBack(t: nat, q: nat)
    requires t == 40 * q + 16 && t % 16 >= 8
    ensures (40 * q + 1) % 16 == 9
  {
    var x := t / 16;
    assert t % 16 == 8 by { EighthOf16(t); }
    assert 40 * q + 1 == 16 * (x - 1) + 9;
  }

  /** A start of SIB2 in the second half of 16 has a RAR's subframe five before it. */
  lemma BeforeStartNine(p: nat)
    requires p % 40 == 1 && p % 16 == 9 && p + 15 >= RING
    ensures p >= RING + 9 && (p - 5) % 16 == 4 && (p - 5) % 20 == 16 && RarTime(p - 5)
  {
    AfterStartOfRing(p);
    var q, x := p / 40, p / 16;
    assert p == 40 * q + 1 && p == 16 * x + 9;
    assert p - 5 == 16 * x + 4;
    BackInto(x, 4);
    FiveBeforeStart(q);
    Phase(p - 5);
    hide IsValidDlSf, IsSib1Sf, IsSib2Start;
  }

  lemma FiveBeforeStart(q: nat)
    requires q >= 1
    ensures (40 * q + 1 - 5) % 20 == 16
  {
    var x := 2 * q - 1;
    assert 40 * q + 1 - 5 == 20 * x + 16;
  }

  lemma AfterStartOfRing(p: nat)
    requires p % 16 == 9 && p + 15 >= RING
    ensures p >= RING + 9 || p == RING - 7
    ensures p % 40 == 1 ==> p >= RING + 9
  {
  }

  /** In a log without users: who covers a subframe with remainder 3 or 4 is SIB2. */
  lemma CoveredBySib2(s: Sys, a: nat) returns (p: nat)
    requires Inv(s) && Covered(s.log, a) && (a % 16 == 3 || a % 16 == 4)
    ensures p % 40 == 1 && p <= a && IsSib2Offset(a - p) && Sib2Placed(s.log, p)
  {
    hide Inv, RarTime, Sib2Placed, Covered;
    var k := CoveredBy(s, a);
    p := s.log[k].pass;
    if s.log[k].owner.RarData? { NoRarBefore(a, p); }
  }

  /** SIB2 does not start in the second half of 16: the RAR five subframes before has taken the start. */
  lemma NoStartNine(s: Sys, p: nat)
    requires Inv(s) && NoUsers(s.log, Tx(s)) && p % 40 == 1 && p % 16 == 9 && RING <= p + 15 && p <= Tx(s)
    ensures !Sib2Placed(s.log, p)
  {
    hide Inv, RarTime, Sib2Placed, Covered, SentIn, StartTaken;
    BeforeStartNine(p);
    if SentIn(s.log, p - 5) {
      TakesStart(s.log, p);
      if Sib2Placed(s.log, p) { NotBoth(s, p); }
    } else {
      assert Covered(s.log, p - 5);
      var p' := CoveredBySib2(s, p - 5);
      FortyApart(p', p);
    }
  }

  lemma TakesStart(log: seq<Reservation>, p: nat)
    requires p >= 5 && RarTime(p - 5) && (p - 5) % 20 != 4 && SentIn(log, p - 5)
    ensures StartTaken(log, p)
  {
    hide RarTime, RarDataOffset, At;
    RarDataAt(p - 5);
    var k :| 0 <= k < |log| && log[k] == Reservation(p - 5 + RarDataOffset(At(0, p - 5)), RarData, p - 5);
  }

  /** Where no user has been granted, RARs and SIB2 between them take every subframe of the users outside the
      first two of 16. */
  lemma UserTimeIsHeld(s: Sys)
    requires Inv(s) && NoUsers(s.log, Tx(s)) && UserTime(Tx(s)) && Tx(s) % 16 >= 2 && Tx(s) >= RING
    ensures Held(s.log, Tx(s))
  {
    hide Inv, RarTime, UserTime, Sib2Placed, Covered, RarDataOffset, At, Held;
    var t := Tx(s);
    FiveEarlier(t);
    var a: nat := t - 5;
    if SentIn(s.log, a) {
      RarDataAt(a);
      SentIsHeld(s.log, a);
    } else {
      assert Covered(s.log, a);
      FiveBackHalf(t);
      var p := CoveredBySib2(s, a);
      Sib2Before(t, p);
      if t == p + 7 {
        PlacedAt(s.log, p, t);
        InMeansHeld(s.log, Reservation(t, Sib2, p));
      } else {
        NoStartNine(s, p);
      }
    }
  }

  lemma FiveBackHalf(t: nat)
    requires UserTime(t) && t % 16 >= 8
    ensures t >= 5 && ((t - 5) % 16 == 3 || (t - 5) % 16 == 4)
  {
    hide IsValidDlSf, IsSib1Sf, IsSib2Start;
    EighthOf16(t);
    EightOrNine(t % 16);
    FiveBackIn16(t);
  }

  /** So a pass that finds such a RAR grants nobody. */
  lemma FloodedPass(s: Sys, inp: Input)
    requires Inv(s) && NoUsers(s.log, Tx(s)) && OneOwed(AddAll(s.dl.rars, inp.rach))
    ensures PassOf(s, inp).data == []
  {
    hide Exact, AllGood, Orderly, Closed, Spaced, Sib1Times, IsValidDlSf, IsSib1Sf, IsSib2Start, NoUsers, Held, PassOf;
    hide AddAll, At;
    PassGrants(s, inp);
    if PassOf(s, inp).data != [] {
      if Tx(s) % 16 >= 2 { UserTimeIsHeld(s); } else { CompletesExactly(s, inp); }
    }
  }

  lemma NoDataNoMarks(s: Sys, inp: Input)
    requires PassOf(s, inp).data == []
    ensures UsersOf(s, inp).marks == []
  {
    hide BcPart, AfterBc, RaPart, RaMarks, Reserve, UserMarks, UserCanStart, At, AddAll;
    var d, rx, tti := StateBefore(s, inp), At(0, s.now), At(0, Tx(s));
    var t2 := Reserve(AfterBc(d, rx, tti), tti, Offsets(RaMarks(tti, RaPart(d, rx, tti))));
    PassParts(s, inp);
    OneUserPerPass(UserState(t2, d.throttle, [], []), tti, inp.reqs);
  }

  lemma FloodedStep(s: Sys, inp: Input)
    requires Inv(s) && NoUsers(s.log, Tx(s)) && OneOwed(AddAll(s.dl.rars, inp.rach))
    ensures PassOf(s, inp).data == [] && NoUsers(Step(s, inp).log, Tx(s) + 1)
  {
    hide Inv, BcMarksOf, RaMarks, PassOf, AddAll, At, RarTime, Held, Step, RarDataOffset, SentIn, Covered, RaOf;
    var tx, n := Tx(s), Step(s, inp);
    var b, r := Absolute(tx, BcMarksOf(s)), Absolute(tx, RaMarksOf(s, inp));
    FloodedPass(s, inp);
    NoDataNoMarks(s, inp);
    StepParts(s, inp);
    BcOwners(s);
    assert n.log == s.log + (b + r);
    forall a | RING <= a < tx && RarTime(a) ensures SentIn(n.log, a) || Covered(n.log, a) { CoveredMore(s.log, b + r, a); }
    if RarTime(tx) {
      if Held(s.log, tx) {
        RarIsDci(tx);
        HeldIsCovered(s);
        CoveredMore(s.log, b + r, tx);
      } else {
        CompletesExactly(s, inp);
        SentNow(s, inp);
        SentMore(s.log + b, r, tx);
        assert s.log + b + r == n.log;
      }
    }
  }

  lemma RarIsDci(a: nat)
    requires RarTime(a)
    ensures DciTime(a)
  {
  }

  lemma SentMore(log: seq<Reservation>, more: seq<Reservation>, a: nat)
    requires SentIn(more, a)
    ensures SentIn(log + more, a)
  {
    hide RarDataOffset, At;
  }

  lemma SentNow(s: Sys, inp: Input)
    requires PassOf(s, inp).rarDone
    ensures SentIn(Absolute(Tx(s), RaMarksOf(s, inp)), Tx(s))
  {
    hide RarDataOffset, At, RaPass, BcPart, AfterBc, AddAll, UserPart;
    PassParts(s, inp);
    assert Absolute(Tx(s), RaMarksOf(s, inp))[1] == Reservation(Tx(s) + RarDataOffset(At(0, Tx(s))), RarData, Tx(s));
  }

  /** In every run in which each pass finds such a RAR, no user is ever granted, whatever the users ask for. */
  lemma {:induction false} FloodStarves(inputs: seq<Input>)
    requires Flooded(inputs)
    ensures NoUsers(Run(inputs).log, RING + |inputs|)
    ensures forall k :: 0 <= k < |inputs| ==> PassOf(Run(inputs[..k]), inputs[k]).data == []
  {
    hide Run, PassOf, AddAll, OneOwed, Step, NoUsers, Inv;
    if inputs == [] {
      NoneAtStart();
    } else {
      var n := |inputs| - 1;
      var before := inputs[..n];
      forall k | 0 <= k < n ensures before[..k] == inputs[..k] && before[k] == inputs[k] {}
      FloodStarves(before);
      RunInv(before);
      FloodedStep(Run(before), inputs[n]);
      assert inputs == before + [inputs[n]];
      RunMore(before, inputs[n]);
    }
  }

  lemma NoneAtStart()
    ensures NoUsers(Run([]).log, RING)
  {
  }

  // ---------------------------------------------------------------- such a run

  /** Before every pass a preamble of another opportunity is detected; the users ask for `reqs` each time. */
  function Flood(n: nat, reqs: seq<DlReq>): (r: seq<Input>)
    ensures |r| == n
  {
    seq(n, k requires 0 <= k < n => Input([RarInfo(0, 0, 0, k)], reqs))
  }

  /** Every pending RAR owes one response, for an opportunity before number `n`. */
  predicate Singles(rars: seq<PendingRar>, n: nat) {
    forall i :: 0 <= i < |rars| ==> |rars[i].grants| == 1 && rars[i].nprachTti < n
  }

  lemma {:induction false} AddSingle(rars: seq<PendingRar>, info: RarInfo)
    requires Singles(rars, info.nprachTti)
    ensures var r := AddRach(rars, info); r != [] && Singles(r, info.nprachTti + 1)
  {
    hide RaRnti;
    if rars != [] {
      AddSingle(rars[1..], info);
    }
  }

  lemma PassSingles(s: Sys, inp: Input, n: nat)
    requires Singles(AddAll(s.dl.rars, inp.rach), n)
    ensures Singles(Step(s, inp).dl.rars, n)
  {
    hide BcPart, AfterBc, RarCanStart, UserPart, At, AddAll, Step, BcMarksOf;
    StepParts(s, inp);
  }

  lemma {:induction false} FloodSingles(n: nat, reqs: seq<DlReq>)
    ensures Singles(Run(Flood(n, reqs)).dl.rars, n)
  {
    hide Step, AddAll;
    if n > 0 {
      FloodSingles(n - 1, reqs);
      assert Flood(n, reqs) == Flood(n - 1, reqs) + [Input([RarInfo(0, 0, 0, n - 1)], reqs)];
      RunMore(Flood(n - 1, reqs), Input([RarInfo(0, 0, 0, n - 1)], reqs));
      AddSingle(Run(Flood(n - 1, reqs)).dl.rars, RarInfo(0, 0, 0, n - 1));
      AddOne(Run(Flood(n - 1, reqs)).dl.rars, RarInfo(0, 0, 0, n - 1));
      PassSingles(Run(Flood(n - 1, reqs)), Input([RarInfo(0, 0, 0, n - 1)], reqs), n);
    }
  }

  lemma AddOne(rars: seq<PendingRar>, info: RarInfo)
    ensures AddAll(rars, [info]) == AddRach(rars, info)
  {
    hide AddRach;
    assert [info][..0] == [];
  }

  /** One detection before each pass is enough, for ever. */
  lemma FloodIsFlooded(n: nat, reqs: seq<DlReq>)
    ensures Flooded(Flood(n, reqs))
  {
    hide Run, AddAll;
    forall k | 0 <= k < n ensures OneOwed(AddAll(Run(Flood(n, reqs)[..k]).dl.rars, Flood(n, reqs)[k].rach)) {
      assert Flood(n, reqs)[..k] == Flood(k, reqs);
      FloodSingles(k, reqs);
      AddSingle(Run(Flood(k, reqs)).dl.rars, RarInfo(0, 0, 0, k));
      AddOne(Run(Flood(k, reqs)).dl.rars, RarInfo(0, 0, 0, k));
    }
  }
}
