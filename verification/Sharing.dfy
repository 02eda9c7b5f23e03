/** Which reservations come to share a subframe in a run, and exactly when. */
module Sharing {
  import opened Timing
  import opened Search
  import opened Table
  import opened DlSpec
  import opened Options
  import opened DlRuns
  import opened DownlinkSafety

  // ---------------------------------------------------------------- RAR data on RAR data

  /** Where the data of a RAR with its DCI in `a` goes, by the DCI's place in a pair of frames. */
  lemma RarDataAt(a: nat)
    requires RarTime(a)
    ensures RarDataOffset(At(0, a)) == if a % 20 == 4 then 7 else 5
    ensures var p := a % 20; p != 0 && p != 5 && p != 9 && p != 10 && p != 14 && p != 15
  {
    hide IsValidDlSf, IsSib1Sf, IsSib2Start, RarDataOffset, At;
    Phase(a);
    RarDataSteps(a);
    PhaseAdd(a, 5);
  }

  /** Two RARs send their data in the same subframe exactly when the first DCI is in subframe 4 of an even frame
      and the second two subframes later. */
  lemma RarsMeetExactly(a: nat, b: nat)
    requires RarTime(a) && RarTime(b) && a < b
    ensures a + RarDataOffset(At(0, a)) == b + RarDataOffset(At(0, b)) <==> b == a + 2 && a % 20 == 4
  {
    RarDataAt(a);
    RarDataAt(b);
    hide RarTime, RarDataOffset, At;
    if a % 20 == 4 { PhaseAdd(a, 2); }
  }

  /** So it is in every run, whatever else is scheduled. */
  lemma RarsShareExactly(s: Sys, j: nat, k: nat)
    requires Reached(s) && j < |s.log| && k < |s.log| && s.log[j].owner.RarData? && s.log[k].owner.RarData?
    requires s.log[j].pass < s.log[k].pass
    ensures s.log[j].at == s.log[k].at <==> s.log[k].pass == s.log[j].pass + 2 && s.log[j].pass % 20 == 4
  {
    hide Reached, RarTime, RarDataOffset, At;
    ReachedInv(s);
    assert Good(s.log[j], Tx(s), s.grantAt) && Good(s.log[k], Tx(s), s.grantAt);
    RarsMeetExactly(s.log[j].pass, s.log[k].pass);
  }

  /** Whether data of a user, or of a RAR sent two subframes before `tx`, holds subframe `a`. */
  ghost predicate DataHolds(log: seq<Reservation>, tx: nat, a: nat) {
    exists k :: 0 <= k < |log| && log[k].at == a && (log[k].owner.UserData? || (log[k].owner.RarData? && log[k].pass + 2 == tx))
  }

  /** Who can hold the data subframe of a RAR that can be sent now. */
  lemma RarDataHolder(s: Sys, k: nat)
    requires Inv(s) && RarTime(Tx(s)) && !Held(s.log, Tx(s)) && k < |s.log|
    requires s.log[k].at == Tx(s) + RarDataOffset(At(0, Tx(s)))
    ensures s.log[k].owner.UserData? || (s.log[k].owner.RarData? && s.log[k].pass + 2 == Tx(s))
  {
    hide Exact, Orderly, Spaced, Sib1Times, Filled, IsSib2Start, IsValidDlSf, IsSib1Sf, UserPhase;
    hide RarDataOffset, At, Held, IsSib2Offset;
    var tx := Tx(s);
    assert Good(s.log[k], tx, s.grantAt);
    RarDataPlace(tx);
    Phase(s.log[k].at);
    ClosedNext(s.log, tx);
    match s.log[k].owner
    case Sib2 => RarMissesSib2(s.log, tx, s.grantAt, k, RarDataOffset(At(0, tx)));
    case RarData => RarsMeetExactly(s.log[k].pass, tx);
    case _ =>
  }

  /** The data subframe of a RAR about to be sent is found taken exactly when user data holds it, or the data of
      a RAR sent two subframes before. */
  lemma RarDataTakenExactly(s: Sys)
    requires Reached(s) && RarTime(Tx(s)) && !Held(s.log, Tx(s))
    ensures var a := Tx(s) + RarDataOffset(At(0, Tx(s))); s.dl.table[At(0, a)] <==> DataHolds(s.log, Tx(s), a)
  {
    hide Reached, At, RarTime, AllGood, Orderly, Closed, RarDataOffset;
    ReachedInv(s);
    RarTimePlace(Tx(s));
    var a := Tx(s) + RarDataOffset(At(0, Tx(s)));
    assert s.dl.table[At(0, a)] <==> Held(s.log, a);
    if Held(s.log, a) {
      var k :| 0 <= k < |s.log| && s.log[k].at == a;
      RarDataHolder(s, k);
    }
  }

  // ---------------------------------------------------------------- SIB2 and RAR data

  /** The data of a RAR falls on a start of SIB2 exactly when its DCI comes five subframes before. */
  lemma RarMeetsStart(a: nat, start: nat)
    requires RarTime(a) && IsSib2Start(start)
    ensures a + RarDataOffset(At(0, a)) == start <==> start == a + 5
  {
    RarDataAt(a);
    Phase(start);
    hide RarTime, RarDataOffset, At, IsSib2Start;
    PhaseAdd(a, 5);
    PhaseAdd(a, 7);
  }

  /** Whether SIB2 has its eight subframes from `start` on. */
  ghost predicate Sib2Placed(log: seq<Reservation>, start: nat) {
    forall o: nat :: IsSib2Offset(o) ==> Reservation(start + o, Sib2, start) in log
  }

  /** Whether data of a user or of a RAR sent five subframes before holds the start. */
  ghost predicate StartTaken(log: seq<Reservation>, start: nat) {
    exists k :: 0 <= k < |log| && log[k].at == start && (log[k].owner.UserData? || (log[k].owner.RarData? && log[k].pass + 5 == start))
  }

  /** Who can hold a start of SIB2. */
  lemma StartHolder(s: Sys, k: nat)
    requires Inv(s) && k < |s.log| && IsSib2Start(s.log[k].at)
    ensures var r := s.log[k];
            || r.owner.UserData? || (r.owner.RarData? && r.pass + 5 == r.at)
            || (r.owner.Sib2? && r.pass == r.at)
  {
    hide Exact, Orderly, Closed, Spaced, Sib1Times, IsSib2Start, IsValidDlSf, UserPhase, RarDataOffset, At;
    var r := s.log[k];
    assert Good(r, Tx(s), s.grantAt);
    Phase(r.at);
    match r.owner
    case RarData => RarMeetsStart(r.pass, r.at);
    case Sib2 => if r.pass < r.at { Sib2StartsApart(r.pass, r.at); }
    case _ =>
  }

  /** A start of SIB2 is found taken exactly when user data, or the data of a RAR sent five subframes before,
      holds it. */
  lemma Sib2BlockedExactly(s: Sys)
    requires Reached(s) && IsSib2Start(Tx(s))
    ensures s.dl.table[At(0, Tx(s))] <==> StartTaken(s.log, Tx(s))
  {
    hide Reached, At, IsSib2Start, Good, Orderly, Closed;
    ReachedInv(s);
    var tx := Tx(s);
    assert s.dl.table[At(0, tx)] <==> Held(s.log, tx);
    if Held(s.log, tx) {
      var k :| 0 <= k < |s.log| && s.log[k].at == tx;
      StartHolder(s, k);
      PassIsPast(s, k);
    }
  }

  lemma PassIsPast(s: Sys, k: nat)
    requires Inv(s) && k < |s.log|
    ensures s.log[k].pass < Tx(s)
  {
    hide Exact, Orderly, Closed, Spaced, Sib1Times, Shape, Sib1Only, NewAtPeriod;
    assert Good(s.log[k], Tx(s), s.grantAt);
  }

  /** Every start of SIB2 that has gone by carried SIB2 as a whole, unless it was taken in this way; never
      both. */
  lemma Sib2CompleteExactly(s: Sys, a: nat)
    requires Reached(s) && RING <= a < Tx(s) && IsSib2Start(a)
    ensures Sib2Placed(s.log, a) <==> !StartTaken(s.log, a)
  {
    hide Reached, At, IsSib2Start, Good, Orderly, Closed, Compatible;
    ReachedInv(s);
    StartIsHeld(s, a);
    var k :| 0 <= k < |s.log| && s.log[k].at == a;
    StartHolder(s, k);
    if s.log[k].owner.Sib2? { PlacedFrom(s, k); }
    if Sib2Placed(s.log, a) && StartTaken(s.log, a) { NotBoth(s, a); }
  }

  lemma StartIsHeld(s: Sys, a: nat)
    requires Inv(s) && RING <= a < Tx(s) && IsSib2Start(a)
    ensures Held(s.log, a)
  {
    hide Exact, Orderly, Spaced, Sib1Times, AllGood, Filled, Held, IsSib2Start;
  }

  lemma PlacedFrom(s: Sys, k: nat)
    requires Inv(s) && k < |s.log| && s.log[k].owner.Sib2?
    ensures Sib2Placed(s.log, s.log[k].pass)
  {
    hide Exact, Orderly, Spaced, Sib1Times, AllGood, Held, Closed;
    ClosedAt(s.log, Tx(s), k);
  }

  lemma NotBoth(s: Sys, a: nat)
    requires Inv(s) && Sib2Placed(s.log, a)
    ensures !StartTaken(s.log, a)
  {
    hide Exact, Spaced, Sib1Times, AllGood, Held, Closed;
    assert IsSib2Offset(0) && Reservation(a + 0, Sib2, a) in s.log;
    var i :| 0 <= i < |s.log| && s.log[i] == Reservation(a, Sib2, a);
    forall k | 0 <= k < |s.log| && (s.log[k].owner.UserData? || s.log[k].owner.RarData?) ensures s.log[k].at != a {
      if i < k { assert Compatible(s.log[i], s.log[k]); } else { assert Compatible(s.log[k], s.log[i]); }
    }
  }

  /** The data of a RAR comes to lie in SIB2's span exactly when its DCI was sent two to four subframes before
      the start. */
  lemma RarUnderSib2Exactly(s: Sys, j: nat, start: nat)
    requires Reached(s) && j < |s.log| && s.log[j].owner.RarData? && IsSib2Start(start) && Sib2Placed(s.log, start)
    ensures Reservation(s.log[j].at, Sib2, start) in s.log <==> s.log[j].pass + 2 <= start <= s.log[j].pass + 4
  {
    hide Reached, At, IsSib2Start, RarTime, RarDataOffset, Sib2Placed, Inv;
    ReachedInv(s);
    var r := s.log[j];
    RarShape(s, j);
    RarSpan(r.pass, start);
    RarAvoidsSpan(s, j, start);
    if Reservation(r.at, Sib2, start) in s.log { Sib2Shape(s, Reservation(r.at, Sib2, start)); }
    if r.pass + 2 <= start <= r.pass + 4 { PlacedAt(s.log, start, r.at); }
  }

  lemma RarShape(s: Sys, j: nat)
    requires Inv(s) && j < |s.log| && s.log[j].owner.RarData?
    ensures var r := s.log[j]; RarTime(r.pass) && r.at == r.pass + RarDataOffset(At(0, r.pass))
    ensures Reservation(s.log[j].pass, RarDci, s.log[j].pass) in s.log
  {
    hide Exact, Orderly, Spaced, Sib1Times, Held, Closed, RarDataOffset, RarTime, At;
    assert Good(s.log[j], Tx(s), s.grantAt);
    ClosedAt(s.log, Tx(s), j);
  }

  lemma Sib2Shape(s: Sys, r: Reservation)
    requires Inv(s) && r in s.log && r.owner.Sib2?
    ensures IsSib2Offset(r.at - r.pass)
  {
    hide Exact, Orderly, Spaced, Sib1Times, Held, Closed, IsSib2Start;
    var k :| 0 <= k < |s.log| && s.log[k] == r;
    assert Good(s.log[k], Tx(s), s.grantAt);
  }

  /** Where a RAR's DCI must be for its data to hit the pattern of SIB2. */
  lemma RarSpan(a: nat, start: nat)
    requires RarTime(a) && IsSib2Start(start)
    ensures IsSib2Offset(a + RarDataOffset(At(0, a)) - start)
            <==> start == a + 5 || a + 2 <= start <= a + 4 || a == start + 1 || a == start + 2 || a == start + 3 || a == start + 5
  {
    assert a != start;
    RarDataAt(a);
    Phase(start);
    hide RarTime, RarDataOffset, At, IsSib2Start;
    if a < start { BeforeStart(a, start); } else { AfterStart(a, start); }
  }

  lemma BeforeStart(a: nat, start: nat)
    requires a < start && start % 20 == 1 && a % 20 != 0
    ensures start != a + 1 && (a % 20 == 4 ==> start >= a + 17)
  {
  }

  lemma AfterStart(a: nat, start: nat)
    requires a > start && start % 20 == 1
    ensures a < start + 8 ==> a % 20 == 1 + (a - start)
  {
  }

  /** Once SIB2 is placed, no RAR has its DCI in its subframes or its data on its start. */
  lemma RarAvoidsSpan(s: Sys, j: nat, start: nat)
    requires Inv(s) && j < |s.log| && s.log[j].owner.RarData? && IsSib2Start(start) && Sib2Placed(s.log, start)
    ensures var a := s.log[j].pass; a + 5 != start && a != start + 1 && a != start + 2 && a != start + 3 && a != start + 5
  {
    hide At, IsSib2Start, RarTime, RarDataOffset, Inv, Sib2Placed;
    RarShape(s, j);
    RarMeetsStart(s.log[j].pass, start);
    NotBoth(s, start);
    var a := s.log[j].pass;
    if a > start && IsSib2Offset(a - start) {
      PlacedAt(s.log, start, a);
      DciAlone(s, a, Reservation(a, Sib2, start));
    }
  }

  /** No SIB2 in the subframe of a RAR's DCI. */
  lemma DciAlone(s: Sys, a: nat, r: Reservation)
    requires Inv(s) && Reservation(a, RarDci, a) in s.log && r.owner.Sib2? && r.at == a
    ensures r !in s.log
  {
    hide Exact, Spaced, Sib1Times, Held, Closed, AllGood;
    var i :| 0 <= i < |s.log| && s.log[i] == Reservation(a, RarDci, a);
    forall k | 0 <= k < |s.log| ensures s.log[k] != r {
      if i < k { assert Compatible(s.log[i], s.log[k]); } else if k < i { assert Compatible(s.log[k], s.log[i]); }
    }
  }

  lemma PlacedAt(log: seq<Reservation>, start: nat, at: nat)
    requires Sib2Placed(log, start) && IsSib2Offset(at - start)
    ensures Reservation(at, Sib2, start) in log
  {
    var o: nat := at - start;
    assert IsSib2Offset(o);
  }

  // ---------------------------------------------------------------- RARs at the end of a hyperframe

  /** A RAR sent in one of the last nine passes of a hyperframe has its DCI in subframe 2 or 3 of the next one,
      and then only because user data has taken the start of SIB2 in subframe 1. */
  lemma LateRarNeedsBlockedSib2(s: Sys, inp: Input)
    requires Reached(s) && PassOf(s, inp).rarDone && At(0, s.now) + 9 >= RING
    ensures var i := At(0, Tx(s));
            && (i == 2 || i == 3)
            && exists k :: 0 <= k < |s.log| && s.log[k].at == Tx(s) - (i - 1) && s.log[k].owner.UserData?
  {
    hide Reached, At, IsSib2Start, PassOf, Inv, RarTime;
    ReachedInv(s);
    RarSentMeans(s, inp);
    var tx := Tx(s);
    LateTti(s.now);
    LateDci(tx);
    var i := At(0, tx);
    var a: nat := tx - (i - 1);
    StartBefore(tx);
    if Sib2Placed(s.log, a) {
      PlacedAt(s.log, a, tx);
      InMeansHeld(s.log, Reservation(tx, Sib2, a));
    }
    Sib2CompleteExactly(s, a);
    var k :| 0 <= k < |s.log| && s.log[k].at == a && (s.log[k].owner.UserData? || (s.log[k].owner.RarData? && s.log[k].pass + 5 == a));
    if s.log[k].owner.RarData? {
      RarShape(s, k);
      NoRarFiveBefore(a);
    }
  }

  lemma LateTti(now: nat)
    ensures At(0, now) + 9 >= RING ==> At(0, now + 4) >= RING - 5 || At(0, now + 4) <= 3
  {
  }

  lemma LateDci(tx: nat)
    requires RarTime(tx) && tx >= RING && (At(0, tx) >= RING - 5 || At(0, tx) <= 3)
    ensures At(0, tx) == 2 || At(0, tx) == 3
  {
    Calendar(tx);
  }

  lemma StartBefore(tx: nat)
    requires tx >= RING && (At(0, tx) == 2 || At(0, tx) == 3)
    ensures var a := tx - (At(0, tx) - 1); a >= RING && a < tx && At(0, a) == 1 && IsSib2Start(a)
  {
    var a: nat := tx - (At(0, tx) - 1);
    var q := tx / RING;
    assert tx == RING * q + At(0, tx);
    assert a == RING * q + 1;
    assert At(0, a) == 1;
    Calendar(a);
  }

  lemma NoRarFiveBefore(a: nat)
    requires At(0, a) == 1 && a >= 5
    ensures !RarTime(a - 5)
  {
    hide IsValidDlSf, IsSib1Sf, IsSib2Start;
    RingMod16(a);
    FiveBefore(a);
  }

  lemma FiveBefore(a: nat)
    requires a % 16 == 1 && a >= 5
    ensures (a - 5) % 16 == 12
  {
    var q := a / 16;
    assert a - 5 == 16 * (q - 1) + 12;
  }

  /** A RAR is answered in full only in a subframe that may carry its DCI and that nobody holds. */
  lemma RarSentMeans(s: Sys, inp: Input)
    requires Inv(s) && (PassOf(s, inp).rar.Some? || PassOf(s, inp).rarDone)
    ensures Tx(s) >= RING && RarTime(Tx(s)) && !Held(s.log, Tx(s))
  {
    hide BcMarks, At, Exact, AllGood, Orderly, Closed, Spaced, RarCanStart, RarTime;
    PassParts(s, inp);
    BcPhase(s);
    var abs := Absolute(Tx(s), BcMarksOf(s));
    RarCanStartMeans(TableAfterBc(s, inp), Tx(s), s.log + abs, s.grantAt);
    HeldAppend(s.log, abs, Tx(s));
  }

  lemma BcOwners(s: Sys)
    requires Inv(s)
    ensures var b := Absolute(Tx(s), BcMarksOf(s)); forall k :: 0 <= k < |b| ==> b[k].owner.Sib1? || b[k].owner.Sib2?
    ensures DciTime(Tx(s)) ==> BcMarksOf(s) == []
  {
    hide BcMarksOf, IsValidDlSf, IsSib1Sf, IsSib2Start, Inv, Held;
    BcMarkShape(s);
    Phase(Tx(s));
  }

  /** In a free subframe that may carry a DCI, the table is open when the RAR part looks at it. */
  lemma RarOpen(s: Sys, inp: Input)
    requires Inv(s) && RarTime(Tx(s)) && !Held(s.log, Tx(s))
    ensures RarCanStart(TableAfterBc(s, inp), At(0, Tx(s)))
  {
    hide At, RarCanStart, Held, BcMarks, IsValidDlSf, IsSib1Sf, IsSib2Start, Exact, AllGood, Orderly, Closed, Spaced;
    BcOwners(s);
    BcPhase(s);
    assert s.log + Absolute(Tx(s), BcMarksOf(s)) == s.log;
    RarCanStartMeans(TableAfterBc(s, inp), Tx(s), s.log, s.grantAt);
    Phase(Tx(s));
  }
}
