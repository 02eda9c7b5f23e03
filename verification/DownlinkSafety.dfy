/** What every run of downlink passes guarantees, read off the invariant of the runs. */
module DownlinkSafety {
  import opened Timing
  import opened Search
  import opened Table
  import opened DlSpec
  import opened Options
  import opened DlRuns
  import opened RarRuns

  // ---------------------------------------------------------------- the states of runs

  /** Pass number i leads from one state of a trace to the next. */
  ghost predicate Follows(ss: seq<Sys>, inputs: seq<Input>, i: nat)
    requires |ss| == |inputs| + 1 && i < |inputs|
  {
    ss[i + 1] == Step(ss[i], inputs[i])
  }

  ghost predicate IsTrace(ss: seq<Sys>, inputs: seq<Input>) {
    |ss| == |inputs| + 1 && ss[0] == Start() && forall i :: 0 <= i < |inputs| ==> Follows(ss, inputs, i)
  }

  /** A state between two passes of some run. */
  ghost predicate Reached(s: Sys) {
    exists ss, inputs :: IsTrace(ss, inputs) && ss[|inputs|] == s
  }

  lemma {:induction false} TraceIsRun(ss: seq<Sys>, inputs: seq<Input>, i: nat)
    requires IsTrace(ss, inputs) && i <= |inputs|
    ensures ss[i] == Run(inputs[..i])
  {
    hide Step, Start;
    if i > 0 {
      TraceIsRun(ss, inputs, i - 1);
      assert Follows(ss, inputs, i - 1);
      assert inputs[..i][..i - 1] == inputs[..i - 1];
    }
  }

  lemma {:induction false} RunHasTrace(inputs: seq<Input>) returns (ss: seq<Sys>)
    ensures IsTrace(ss, inputs) && ss[|inputs|] == Run(inputs)
  {
    hide Step, Start;
    if inputs == [] {
      ss := [Start()];
    } else {
      var n := |inputs| - 1;
      var prefix := RunHasTrace(inputs[..n]);
      ss := prefix + [Run(inputs)];
      forall i | 0 <= i < |inputs| ensures Follows(ss, inputs, i) {
        if i < n { assert Follows(prefix, inputs[..n], i); }
      }
    }
  }

  /** The reached states are exactly the outcomes of runs. */
  lemma ReachedExactly(s: Sys)
    ensures Reached(s) <==> exists inputs :: s == Run(inputs)
  {
    hide Run, Follows, Start;
    if Reached(s) {
      var ss, inputs :| IsTrace(ss, inputs) && ss[|inputs|] == s;
      TraceIsRun(ss, inputs, |inputs|);
      assert inputs[..|inputs|] == inputs;
    }
    if inputs :| s == Run(inputs) {
      var ss := RunHasTrace(inputs);
      assert IsTrace(ss, inputs) && ss[|inputs|] == s;
    }
  }

  /** The invariant holds in every reached state. */
  lemma ReachedInv(s: Sys)
    requires Reached(s)
    ensures Inv(s)
  {
    hide Run, Inv;
    ReachedExactly(s);
    var inputs :| s == Run(inputs);
    RunInv(inputs);
  }

  // ---------------------------------------------------------------- the ring is a set of times

  /** At every moment the table holds the reservations that are still ahead and nothing else. Each is less
      than 20 subframes away, so clearing the entry of the received subframe loses none and no two times
      share an entry. */
  lemma RingIsExact(s: Sys, a: nat)
    requires Reached(s) && s.now <= a < s.now + RING
    ensures s.dl.table[At(0, a)] <==> exists k :: 0 <= k < |s.log| && s.log[k].at == a
    ensures forall k :: 0 <= k < |s.log| ==> s.log[k].at < s.now + 20
  {
    hide Reached, At;
    ReachedInv(s);
    ReachIsShort(s);
    assert s.dl.table[At(0, a)] <==> Held(s.log, a);
  }

  /** A pass reserves at most 16 subframes beyond the one it schedules. */
  lemma MarksAreNear(s: Sys, inp: Input)
    requires Reached(s)
    ensures var ms := PassOf(s, inp).marks; forall k :: 0 <= k < |ms| ==> ms[k].off <= 16
  {
    hide Reached, PassOf, At, AddAll, Inv, Held;
    var n := Step(s, inp);
    ReachedInv(s);
    StepKeepsInv(s, inp);
    ReachIsShort(n);
    var ms := PassOf(s, inp).marks;
    forall k | 0 <= k < |ms| ensures ms[k].off <= 16 {
      assert n.log[|s.log| + k] == Absolute(Tx(s), ms)[k];
    }
  }

  // ---------------------------------------------------------------- no double booking

  /** Two reservations share a subframe in three ways only: SIB2, but not its first subframe, on RAR data, and
      RAR data on user data or on RAR data. All are placed without a look at the table. */
  lemma NoDoubleBooking(s: Sys, j: nat, k: nat)
    requires Reached(s) && j < k < |s.log| && s.log[j].at == s.log[k].at
    ensures var r, t := s.log[j].owner, s.log[k].owner;
            || (t.Sib2? && s.log[k].at > s.log[k].pass && r.RarData?)
            || (t.RarData? && (r.UserData? || r.RarData?))
  {
    hide Reached;
    ReachedInv(s);
    assert Compatible(s.log[j], s.log[k]);
  }

  /** A user grant takes no subframe that anyone held before, and no other user grant takes it later. */
  lemma UserSubframesExclusive(s: Sys, j: nat, k: nat)
    requires Reached(s) && j < k < |s.log| && (s.log[k].owner.UserDci? || s.log[k].owner.UserData?)
    ensures s.log[j].at != s.log[k].at
  {
    hide Reached;
    ReachedInv(s);
    assert Compatible(s.log[j], s.log[k]);
  }

  /** A subframe that carries a DCI or SIB1 carries nothing else. */
  lemma ControlSubframesExclusive(s: Sys, j: nat, k: nat)
    requires Reached(s) && j < |s.log| && k < |s.log| && j != k
    requires s.log[k].owner.Sib1? || s.log[k].owner.RarDci? || s.log[k].owner.UserDci?
    ensures s.log[j].at != s.log[k].at
  {
    hide Reached;
    ReachedInv(s);
    assert if j < k then Compatible(s.log[j], s.log[k]) else Compatible(s.log[k], s.log[j]);
  }

  /** The throttle keeps user grants at least 26 subframes apart. */
  lemma UserGrantsApart(s: Sys, j: nat, k: nat)
    requires Reached(s) && j < k < |s.log| && s.log[j].owner.UserDci? && s.log[k].owner.UserDci?
    ensures s.log[k].at >= s.log[j].at + 26
  {
    hide Reached;
    ReachedInv(s);
    assert Compatible(s.log[j], s.log[k]);
  }

  // ---------------------------------------------------------------- SIB1

  /** Whoever holds a SIB1 subframe is SIB1, and it starts a transmission exactly at the first SIB1
      subframe of a period of 256 frames. */
  lemma Sib1Exclusive(s: Sys, k: nat)
    requires Reached(s) && k < |s.log|
    ensures var r := s.log[k];
            && (r.owner.Sib1? <==> IsSib1Sf(r.at))
            && (r.owner.Sib1? ==> (r.owner.isNew <==> r.at % 2560 == 14))
  {
    hide Reached;
    ReachedInv(s);
    assert Good(s.log[k], Tx(s), s.grantAt);
    Phase(s.log[k].at);
  }

  /** The test "SIB1's subframe is taken" never succeeds. */
  lemma Sib1NeverBlocked(s: Sys)
    requires Reached(s) && IsSib1Sf(Tx(s))
    ensures !s.dl.table[At(0, Tx(s))]
  {
    hide Run, At, IsSib1Sf;
    hide Reached;
    ReachedInv(s);
    Sib1SlotIsFree(s);
  }

  lemma {:induction false} InSib1Times(log: seq<Reservation>, a: nat)
    requires a in Sib1Times(log)
    ensures exists k :: 0 <= k < |log| && log[k].owner.Sib1? && log[k].at == a
  {
    var n := |log| - 1;
    if log[n].owner.Sib1? && log[n].at == a {
    } else {
      InSib1Times(log[..n], a);
      var k :| 0 <= k < n && log[..n][k].owner.Sib1? && log[..n][k].at == a;
      assert log[k].owner.Sib1? && log[k].at == a;
    }
  }

  /** No SIB1 subframe is skipped: all that have gone by since the start carried SIB1. */
  lemma Sib1Complete(s: Sys, a: nat)
    requires Reached(s) && RING <= a < Tx(s) && IsSib1Sf(a)
    ensures exists k :: 0 <= k < |s.log| && s.log[k].owner.Sib1? && s.log[k].at == a
  {
    hide Reached, Run, At;
    ReachedInv(s);
    Phase(a);
    NthSib1(a, Tx(s));
    assert Sib1Schedule(Sib1Count(Tx(s)))[(a - RING) / 20] == a;
    InSib1Times(s.log, a);
  }

  lemma NthSib1(a: nat, tx: nat)
    requires RING <= a < tx && a % 20 == 14
    ensures (a - RING) / 20 < Sib1Count(tx) && a == RING + 14 + 20 * ((a - RING) / 20)
  {
    var q := (a - RING) / 20;
    assert a - RING == 20 * q + 14;
  }

  /** Every completed period of 256 frames carried 128 SIB1 subframes: the SIB1 reservations number 128p to
      128p + 127 are those of period p. */
  lemma Sib1PerPeriod(s: Sys, p: nat)
    requires Reached(s) && Tx(s) >= RING + 2560 * (p + 1)
    ensures var t := Sib1Times(s.log);
            && |t| >= SIB1_NUM_SF * (p + 1)
            && forall k :: 0 <= k < |t| ==>
                 (SIB1_NUM_SF * p <= k < SIB1_NUM_SF * (p + 1) <==> RING + 2560 * p <= t[k] < RING + 2560 * (p + 1))
  {
    hide Reached, Run, At;
    ReachedInv(s);
    hide Sib1Times;
  }

  // ---------------------------------------------------------------- every pass can run

  /** In every run the table has room for a user block, so the search for one ends. */
  lemma RoomInEveryPass(s: Sys)
    requires Reached(s)
    ensures Room(s.dl.table[At(0, s.now) := false], At(TtiAdd(At(0, s.now), DL_DELAY), 5)) >= 14
  {
    hide Reached, At, Room, TtiAdd;
    ReachedInv(s);
    RoomInInv(s);
  }

  /** In every run the oldest pending RAR has a response to send, so the loop over RARs ends. */
  lemma FrontInEveryPass(s: Sys, infos: seq<RarInfo>)
    requires Reached(s)
    ensures var rars := AddAll(s.dl.rars, infos); rars != [] ==> rars[0].grants != []
  {
    hide Reached, Run;
    ReachedExactly(s);
    var inputs :| s == Run(inputs);
    FrontHasGrants(inputs, infos);
  }

  // ---------------------------------------------------------------- the RAR queue

  /** The response that pass number i sent, if any. */
  ghost predicate SentBy(ss: seq<Sys>, inputs: seq<Input>, sent: seq<Option<RarAlloc>>, i: nat)
    requires |ss| == |inputs| + 1 && |sent| == |inputs| && i < |inputs|
  {
    sent[i] == PassOf(ss[i], inputs[i]).rar
  }

  ghost predicate IsTraceSending(ss: seq<Sys>, inputs: seq<Input>, sent: seq<Option<RarAlloc>>) {
    IsTrace(ss, inputs) && |sent| == |inputs| && forall i :: 0 <= i < |inputs| ==> SentBy(ss, inputs, sent, i)
  }

  function AllAnswers(sent: seq<Option<RarAlloc>>): seq<RarInfo> {
    if sent == [] then [] else AllAnswers(sent[..|sent| - 1]) + Sent(sent[|sent| - 1])
  }

  lemma {:induction false} SentIsEmitted(ss: seq<Sys>, inputs: seq<Input>, sent: seq<Option<RarAlloc>>, i: nat)
    requires IsTraceSending(ss, inputs, sent) && i <= |inputs|
    ensures AllAnswers(sent[..i]) == Emitted(inputs[..i])
  {
    hide Follows, PassOf, Run;
    if i > 0 {
      SentIsEmitted(ss, inputs, sent, i - 1);
      TraceIsRun(ss, inputs, i - 1);
      assert SentBy(ss, inputs, sent, i - 1);
      assert sent[..i][..i - 1] == sent[..i - 1] && inputs[..i][..i - 1] == inputs[..i - 1];
    }
  }

  /** In every run, what was detected in an NPRACH opportunity is what has been answered followed by what is
      pending, in order; pending RARs have distinct opportunities and owe at least one response each. */
  lemma RarsAreConserved(ss: seq<Sys>, inputs: seq<Input>, sent: seq<Option<RarAlloc>>, p: nat)
    requires IsTraceSending(ss, inputs, sent)
    ensures var rars := ss[|inputs|].dl.rars;
            QueueOk(rars) && Only(Arrived(inputs), p) == Only(AllAnswers(sent), p) + PendingOf(rars, p)
  {
    hide IsTrace, PassOf, Run, Only, QueueOk;
    TraceIsRun(ss, inputs, |inputs|);
    SentIsEmitted(ss, inputs, sent, |inputs|);
    assert inputs[..|inputs|] == inputs && sent[..|sent|] == sent;
    RarFifo(inputs, p);
  }

  lemma RoomInInv(s: Sys)
    requires Inv(s)
    ensures Room(s.dl.table[At(0, s.now) := false], At(TtiAdd(At(0, s.now), DL_DELAY), 5)) >= 14
  {
    hide At, TtiAdd, Count, UserPhase, Good;
    var tx := Tx(s);
    var t: Table := s.dl.table[At(0, s.now) := false];
    var start := At(At(0, tx), 5);
    TxIndex(s.now);
    ReachIsShort(s);
    ExactClear(s.dl.table, s.now, s.log);
    forall o | 11 <= o < 31 ensures !t[At(start, o)] {
      AtAt(0, tx, 5);
      AtAt(0, tx + 5, o);
      assert !Held(s.log, tx + 5 + o);
    }
    CountClear(t, start, 11, 31);
    TwoFrames(11 + start);
    CountSplit(Free(t, start), 0, 11, RING);
    CountSplit(Free(t, start), 11, 31, RING);
  }

  // ---------------------------------------------------------------- how far a search goes

  /** Which offsets from `start` are taken. */
  function Busy(t: Table, start: nat): nat -> bool {
    (o: nat) => t[At(start, o)]
  }

  lemma {:induction false} CountUnion(e: nat -> bool, f: nat -> bool, g: nat -> bool, lo: nat, hi: nat)
    requires forall o :: lo <= o < hi && e(o) ==> f(o) || g(o)
    ensures Count(f, lo, hi) + Count(g, lo, hi) >= Count(e, lo, hi)
    decreases hi - lo
  {
    if lo < hi { CountUnion(e, f, g, lo + 1, hi); }
  }

  lemma {:induction false} ManyFrames(a: nat, m: nat)
    ensures Count(UserPhases(), a, a + 20 * m) == 14 * m
  {
    hide UserPhase;
    if m > 0 {
      ManyFrames(a, m - 1);
      TwoFrames(a + 20 * (m - 1));
      CountSplit(UserPhases(), a, a + 20 * (m - 1), a + 20 * m);
    }
  }

  /** Every user subframe is eligible or taken. */
  lemma EligibleOrTaken(t: Table, start: nat, n: nat)
    ensures Count(Free(t, start), 0, n) + Count(Busy(t, start), 0, n) >= Count(UserPhases(), start, start + n)
  {
    hide At, UserPhase, Eligible;
    var user := (o: nat) => UserPhases()(o + start);
    CountShift(UserPhases(), user, 0, n, start);
    forall o | 0 <= o < n && user(o) ensures Free(t, start)(o) || Busy(t, start)(o) {
      EligibleByPhase(t, start, o);
      assert user(o) == UserPhase(o + start);
    }
    CountUnion(user, Free(t, start), Busy(t, start), 0, n);
  }

  /** Whatever the table, a block of `n` subframes is found within 20m subframes as soon as the 14m user
      subframes among them outnumber the taken ones by n. */
  lemma FitBound(t: Table, start: nat, n: nat, m: nat)
    requires 20 * m <= RING && 14 * m >= n + Count(Busy(t, start), 0, 20 * m)
    ensures var f := Fit(t, start, n); |f| == n && forall k :: 0 <= k < n ==> f[k] < 20 * m
  {
    hide At, First, Free, Count, Busy, UserPhases;
    var e := Free(t, start);
    EligibleOrTaken(t, start, 20 * m);
    ManyFrames(start, m);
    CountSplit(e, 0, 20 * m, RING);
    FirstLength(e, 0, RING, n);
    FirstIsEarliest(e, 0, RING, n);
    var f := Fit(t, start, n);
    forall k | 0 <= k < n ensures f[k] < 20 * m {
      if f[k] >= 20 * m { CountSplit(e, 0, 20 * m, f[k]); }
    }
  }

  /** The block is the earliest one: any choice of as many eligible subframes whose k-th has exactly k
      eligible ones before it is this block. */
  lemma FitIsUnique(t: Table, start: nat, n: nat, g: seq<nat>)
    requires IsEarliest(Free(t, start), 0, RING, g) && |g| == |Fit(t, start, n)|
    ensures g == Fit(t, start, n)
  {
    hide Free, First, Count;
    FirstIsEarliest(Free(t, start), 0, RING, n);
    EarliestIsUnique(Free(t, start), 0, RING, Fit(t, start, n), g);
  }

  /** The block leaves no eligible subframe before its last one unused. */
  lemma FitLeavesNoGap(t: Table, start: nat, n: nat, o: nat)
    requires var f := Fit(t, start, n); f != [] && o < f[|f| - 1] && Eligible(t, At(start, o))
    ensures o in Fit(t, start, n)
  {
    hide At, Eligible, First, Count;
    FirstIsEarliest(Free(t, start), 0, RING, n);
    EarliestLeavesNoGap(Free(t, start), 0, RING, Fit(t, start, n), o);
  }
}
