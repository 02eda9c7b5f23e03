/** How long the oldest random access response can be kept waiting: whatever else is scheduled, one is sent
    in every 66 consecutive passes that find one pending. */
module Liveness {
  import opened Timing
  import opened Table
  import opened Options
  import opened DlSpec
  import opened DlRuns
  import opened RarRuns
  import opened Scenes
  import opened Sharing

  /** Passes within which a pending response is sent. */
  const ANSWER_BOUND: nat := 66

  // ---------------------------------------------------------------- a stretch of a run

  function StateAt(inputs: seq<Input>, more: seq<Input>, k: nat): Sys
    requires k <= |more|
  {
    Run(inputs + more[..k])
  }

  function OutAt(inputs: seq<Input>, more: seq<Input>, k: nat): DlOut
    requires k < |more|
  {
    PassOf(StateAt(inputs, more, k), more[k])
  }

  /** The queue that pass k of the stretch finds. */
  function QueueAt(inputs: seq<Input>, more: seq<Input>, k: nat): seq<PendingRar>
    requires k < |more|
  {
    AddAll(StateAt(inputs, more, k).dl.rars, more[k].rach)
  }

  /** The first `n` passes of the stretch answer nobody. */
  ghost predicate Unanswered(inputs: seq<Input>, more: seq<Input>, n: nat)
    requires n <= |more|
  {
    forall k :: 0 <= k < n ==> OutAt(inputs, more, k).rar.None?
  }

  /** The first `n` passes of the stretch complete no RAR. */
  ghost predicate NoneCompleted(inputs: seq<Input>, more: seq<Input>, n: nat)
    requires n <= |more|
  {
    forall k :: 0 <= k < n ==> !OutAt(inputs, more, k).rarDone
  }

  lemma UnansweredCompletesNone(inputs: seq<Input>, more: seq<Input>, n: nat)
    requires n <= |more| && Unanswered(inputs, more, n)
    ensures NoneCompleted(inputs, more, n)
  {
    hide OutAt;
    forall k | 0 <= k < n ensures !OutAt(inputs, more, k).rarDone {
      DoneSendsOne(StateAt(inputs, more, k), more[k]);
      OutIs(inputs, more, k);
    }
  }

  lemma OutIs(inputs: seq<Input>, more: seq<Input>, k: nat)
    requires k < |more|
    ensures OutAt(inputs, more, k) == PassOf(StateAt(inputs, more, k), more[k])
  {
    hide PassOf, StateAt;
  }

  lemma DoneSendsOne(s: Sys, inp: Input)
    ensures PassOf(s, inp).rarDone ==> PassOf(s, inp).rar.Some?
  {
    hide At, AddAll, BcPart, AfterBc, RarCanStart, UserPart, RaMarks;
    PassParts(s, inp);
  }

  lemma StateStep(inputs: seq<Input>, more: seq<Input>, k: nat)
    requires k < |more|
    ensures StateAt(inputs, more, k + 1) == Step(StateAt(inputs, more, k), more[k])
    ensures Inv(StateAt(inputs, more, k)) && Tx(StateAt(inputs, more, k)) == Tx(Run(inputs)) + k
  {
    hide Step, Run, Inv;
    assert inputs + more[..k + 1] == (inputs + more[..k]) + [more[k]];
    RunMore(inputs + more[..k], more[k]);
    RunInv(inputs + more[..k]);
    RunInv(inputs);
  }

  // ---------------------------------------------------------------- the front of the queue

  lemma AddRachFront(rars: seq<PendingRar>, info: RarInfo)
    requires rars != [] && rars[0].grants != []
    ensures var r := AddRach(rars, info); r != [] && r[0].grants != [] && r[0].grants[0] == rars[0].grants[0]
  {
    hide RaRnti;
  }

  lemma {:induction false} AddAllFront(rars: seq<PendingRar>, infos: seq<RarInfo>)
    requires rars != [] && rars[0].grants != []
    ensures var r := AddAll(rars, infos); r != [] && r[0].grants != [] && r[0].grants[0] == rars[0].grants[0]
  {
    hide AddRach;
    if infos != [] {
      AddAllFront(rars, infos[..|infos| - 1]);
      AddRachFront(AddAll(rars, infos[..|infos| - 1]), infos[|infos| - 1]);
    }
  }

  /** Until it is sent, the oldest response stays the oldest. */
  lemma {:induction false} FrontStays(inputs: seq<Input>, more: seq<Input>, n: nat)
    requires n < |more| && Unanswered(inputs, more, n) && QueueAt(inputs, more, 0) != []
    ensures QueueAt(inputs, more, 0)[0].grants != []
    ensures var q := QueueAt(inputs, more, n);
            q != [] && q[0].grants != [] && q[0].grants[0] == QueueAt(inputs, more, 0)[0].grants[0]
  {
    hide Run, AddAll, PassOf, Step;
    if n == 0 {
      assert inputs + more[..0] == inputs;
      FrontHasGrants(inputs, more[0].rach);
    } else {
      FrontStays(inputs, more, n - 1);
      StateStep(inputs, more, n - 1);
      assert OutAt(inputs, more, n - 1).rar.None?;
      StepRar(StateAt(inputs, more, n - 1), more[n - 1]);
      AddAllFront(QueueAt(inputs, more, n - 1), more[n].rach);
    }
  }

  // ---------------------------------------------------------------- why a response is not sent

  /** A pass that finds a response sends one if its subframe may carry the DCI and is free. */
  lemma SentIfFree(s: Sys, inp: Input)
    requires Inv(s) && RarTime(Tx(s)) && !Held(s.log, Tx(s))
    requires var q := AddAll(s.dl.rars, inp.rach); q != [] && q[0].grants != []
    ensures PassOf(s, inp).rar.Some?
  {
    hide Inv, At, RarTime, Held, AddAll, BcPart, AfterBc, RarCanStart, UserPart, RaMarks;
    PassParts(s, inp);
    RarOpen(s, inp);
  }

  /** A pass that completes no RAR makes no reservation for one. */
  lemma NoRarMarks(s: Sys, inp: Input, t: nat)
    requires Inv(s) && !PassOf(s, inp).rarDone
    requires forall k :: 0 <= k < |s.log| && s.log[k].owner.RarData? ==> s.log[k].pass < t
    ensures var n := Step(s, inp);
            s.log <= n.log && forall k :: 0 <= k < |n.log| && n.log[k].owner.RarData? ==> n.log[k].pass < t
  {
    hide Inv, At, AddAll, BcMarksOf, AfterBc, RarCanStart, Step, UserPart;
    PassParts(s, inp);
    StepParts(s, inp);
    BcOwners(s);
    UserMarkOwners(s, inp);
    assert RaMarksOf(s, inp) == [];
    var b, u := Absolute(Tx(s), BcMarksOf(s)), Absolute(Tx(s), UsersOf(s, inp).marks);
    assert Step(s, inp).log == s.log + b + [] + u;
  }

  lemma UserMarkOwners(s: Sys, inp: Input)
    ensures var ms := UsersOf(s, inp).marks; forall k :: 0 <= k < |ms| ==> ms[k].owner.UserDci? || ms[k].owner.UserData?
  {
    hide BcPart, AfterBc, RaPart, RaMarks, Reserve, UserMarks, UserCanStart, At, AddAll;
    var d, rx, tti := StateBefore(s, inp), At(0, s.now), At(0, Tx(s));
    var t2 := Reserve(AfterBc(d, rx, tti), tti, Offsets(RaMarks(tti, RaPart(d, rx, tti))));
    OneUserPerPass(UserState(t2, d.throttle, [], []), tti, inp.reqs);
  }

  /** In such a stretch the log only grows, and all RAR data in it was reserved before. */
  lemma {:induction false} OldRarsOnly(inputs: seq<Input>, more: seq<Input>, m: nat, n: nat)
    requires m <= n <= |more| && NoneCompleted(inputs, more, n)
    ensures var s := StateAt(inputs, more, n);
            && StateAt(inputs, more, m).log <= s.log
            && forall k :: 0 <= k < |s.log| && s.log[k].owner.RarData? ==> s.log[k].pass < Tx(Run(inputs))
    decreases n
  {
    hide Run, PassOf, Step, Inv;
    if n == 0 {
      assert inputs + more[..0] == inputs;
      RunInv(inputs);
      PassesArePast(Run(inputs));
    } else {
      OldRarsOnly(inputs, more, if m < n then m else n - 1, n - 1);
      StateStep(inputs, more, n - 1);
      assert !OutAt(inputs, more, n - 1).rarDone;
      NoRarMarks(StateAt(inputs, more, n - 1), more[n - 1], Tx(Run(inputs)));
    }
  }

  lemma PassesArePast(s: Sys)
    requires Inv(s)
    ensures forall k :: 0 <= k < |s.log| ==> s.log[k].pass < Tx(s)
  {
    hide Inv;
    forall k | 0 <= k < |s.log| ensures s.log[k].pass < Tx(s) { PassIsPast(s, k); }
  }

  // ---------------------------------------------------------------- two subframes that cannot both be taken

  /** A subframe for a RAR's DCI that SIB2 never uses. */
  predicate GoodTime(a: nat) {
    RarTime(a) && (a % 40 == 0 || a % 40 > 11)
  }

  lemma GoodBy80(a: nat)
    requires var r := a % 80; r == 19 || r == 32 || r == 39 || r == 52 || r == 53 || r == 66
    ensures GoodTime(a)
  {
    Parts80(a);
    Phase(a);
    hide IsValidDlSf, IsSib1Sf, IsSib2Start;
  }

  lemma Parts80(a: nat)
    ensures a % 16 == a % 80 % 16 && a % 20 == a % 80 % 20 && a % 40 == a % 80 % 40
  {
    Part16(a);
    Part20(a);
    Part40(a);
  }

  lemma Part16(a: nat)
    ensures a % 16 == a % 80 % 16
  {
    var q, r := a / 80, a % 80;
    var x, y := r / 16, r % 16;
    assert a == 16 * (5 * q + x) + y;
  }

  lemma Part20(a: nat)
    ensures a % 20 == a % 80 % 20
  {
    var q, r := a / 80, a % 80;
    var x, y := r / 20, r % 20;
    assert a == 20 * (4 * q + x) + y;
  }

  lemma Part40(a: nat)
    ensures a % 40 == a % 80 % 40
  {
    var q, r := a / 80, a % 80;
    var x, y := r / 40, r % 40;
    assert a == 40 * (2 * q + x) + y;
  }

  /** Two good subframes that are 13 apart come soon. */
  lemma NextPair(t: nat) returns (a: nat)
    ensures t <= a <= t + 45 && GoodTime(a) && GoodTime(a + 13)
  {
    var r := t % 80;
    var o: nat := if r <= 19 then 19 - r else if r <= 39 then 39 - r else if r <= 53 then 53 - r else 99 - r;
    a := t + o;
    Mod80(t, o);
    Mod80(t, o + 13);
    GoodBy80(a);
    GoodBy80(a + 13);
  }

  lemma Mod80(t: nat, o: nat)
    requires o < 80
    ensures (t + o) % 80 == if t % 80 + o < 80 then t % 80 + o else t % 80 + o - 80
  {
    var q := t / 80;
    assert t + o == 80 * q + (t % 80 + o);
  }

  /** Only user data can hold a good subframe after the RARs sent before `t` are through. */
  lemma HolderIsUser(s: Sys, t: nat) returns (k: nat)
    requires Inv(s) && GoodTime(Tx(s)) && Held(s.log, Tx(s)) && t + 7 <= Tx(s)
    requires forall k :: 0 <= k < |s.log| && s.log[k].owner.RarData? ==> s.log[k].pass < t
    ensures k < |s.log| && s.log[k].at == Tx(s) && s.log[k].owner.UserData?
    ensures Tx(s) - 16 <= s.log[k].pass <= Tx(s) - 5 && Reservation(s.log[k].pass, UserDci, s.log[k].pass) in s.log
  {
    hide Exact, Orderly, Spaced, Sib1Times, IsSib2Start, IsValidDlSf, IsSib1Sf, UserPhase, RarDataOffset, At, Filled;
    k :| 0 <= k < |s.log| && s.log[k].at == Tx(s);
    assert Good(s.log[k], Tx(s), s.grantAt);
    Phase(Tx(s));
    ClosedAt(s.log, Tx(s), k);
    match s.log[k].owner
    case Sib2 => Sib2StartForm(s.log[k].pass); Sib2Column(s.log[k].pass, Tx(s));
    case RarData => RarTimePlace(s.log[k].pass);
    case UserData => FilledHasDci(s.log, s.log[k]);
    case _ =>
  }

  lemma FilledHasDci(log: seq<Reservation>, r: Reservation)
    requires Filled(log, r) && r.owner.UserData?
    ensures Reservation(r.pass, UserDci, r.pass) in log
  {
    hide Held, UserPhase, IsSib2Offset;
  }

  lemma GrantsFarApart(s: Sys, g: nat, h: nat)
    requires Inv(s) && Reservation(g, UserDci, g) in s.log && Reservation(h, UserDci, h) in s.log && g < h
    ensures h >= g + 26
  {
    hide Exact, AllGood, Spaced, Sib1Times, Closed;
    var i :| 0 <= i < |s.log| && s.log[i] == Reservation(g, UserDci, g);
    var j :| 0 <= j < |s.log| && s.log[j] == Reservation(h, UserDci, h);
    assert if i < j then Compatible(s.log[i], s.log[j]) else Compatible(s.log[j], s.log[i]);
  }

  // ---------------------------------------------------------------- the bound

  /** In the pass for a good subframe an unanswered response means that user data is in the way. */
  lemma WhyNot(inputs: seq<Input>, more: seq<Input>, k: nat) returns (g: nat)
    requires k < |more| && Unanswered(inputs, more, k + 1) && QueueAt(inputs, more, 0) != []
    requires k >= 7 && GoodTime(Tx(Run(inputs)) + k)
    ensures var s := StateAt(inputs, more, k);
            && Tx(s) - 16 <= g <= Tx(s) - 5 && Tx(s) == Tx(Run(inputs)) + k && Reservation(g, UserDci, g) in s.log
  {
    hide Run, PassOf, Step, Inv, AddAll, GoodTime;
    var s := StateAt(inputs, more, k);
    StateStep(inputs, more, k);
    assert Unanswered(inputs, more, k);
    FrontStays(inputs, more, k);
    UnansweredCompletesNone(inputs, more, k);
    OldRarsOnly(inputs, more, k, k);
    assert OutAt(inputs, more, k).rar.None?;
    GoodIsRar(Tx(s));
    if !Held(s.log, Tx(s)) { SentIfFree(s, more[k]); }
    var i := HolderIsUser(s, Tx(Run(inputs)));
    g := s.log[i].pass;
  }

  lemma GoodIsRar(a: nat)
    requires GoodTime(a)
    ensures RarTime(a)
  {
  }

  /** Grants are too far apart for the data of two to hold subframes 13 apart, and one block does not reach. */
  lemma SomeAnswer(inputs: seq<Input>, more: seq<Input>)
    requires |more| >= ANSWER_BOUND && QueueAt(inputs, more, 0) != []
    ensures !Unanswered(inputs, more, ANSWER_BOUND)
  {
    hide Run, Inv, QueueAt, OutAt, GoodTime;
    if Unanswered(inputs, more, ANSWER_BOUND) {
      var t := Tx(Run(inputs));
      var a := NextPair(t + 7);
      var i, j: nat := a - t, a + 13 - t;
      var g := WhyNot(inputs, more, i);
      var h := WhyNot(inputs, more, j);
      UnansweredCompletesNone(inputs, more, j);
      OldRarsOnly(inputs, more, i, j);
      StateStep(inputs, more, j);
      GrantsFarApart(StateAt(inputs, more, j), g, h);
    }
  }

  lemma {:induction false} FirstAnswer(inputs: seq<Input>, more: seq<Input>, n: nat) returns (k: nat)
    requires n <= |more| && !Unanswered(inputs, more, n)
    ensures k < n && Unanswered(inputs, more, k) && OutAt(inputs, more, k).rar.Some?
  {
    hide OutAt;
    if Unanswered(inputs, more, n - 1) { k := n - 1; } else { k := FirstAnswer(inputs, more, n - 1); }
  }

  /** Pass k of the stretch sends the response `g`. */
  ghost predicate AnsweredAt(inputs: seq<Input>, more: seq<Input>, k: nat, g: RarInfo)
    requires k < |more|
  {
    OutAt(inputs, more, k).rar.Some? && OutAt(inputs, more, k).rar.value.grant == g
  }

  /** In every run, the oldest pending response is sent by one of the next 66 passes, whatever is detected and
      whatever the users ask for meanwhile. */
  lemma OldestIsAnswered(inputs: seq<Input>, more: seq<Input>)
    requires |more| >= ANSWER_BOUND && QueueAt(inputs, more, 0) != []
    ensures QueueAt(inputs, more, 0)[0].grants != []
    ensures exists k :: 0 <= k < ANSWER_BOUND && AnsweredAt(inputs, more, k, QueueAt(inputs, more, 0)[0].grants[0])
  {
    hide Run, PassOf, Step, AddAll;
    SomeAnswer(inputs, more);
    var k := FirstAnswer(inputs, more, ANSWER_BOUND);
    FrontStays(inputs, more, k);
    StepRar(StateAt(inputs, more, k), more[k]);
    assert AnsweredAt(inputs, more, k, QueueAt(inputs, more, 0)[0].grants[0]);
  }
}
