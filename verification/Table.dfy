/** The reservation tables shared by all downlink schedulers, as values: what it means to
    mark subframes, which subframes a user block may use, and the earliest fit. */
module Table {
  import opened Timing
  import opened Search

  type Table = t: seq<bool> | |t| == RING witness seq(RING, i => false)

  /** What a reserved downlink subframe is used for. */
  datatype Owner = Sib1(isNew: bool) | Sib2 | RarDci | RarData | UserDci | UserData

  /** A reservation made by a pass, `off` subframes after the pass's transmission TTI. */
  datatype Mark = Mark(off: nat, owner: Owner)

  /** The table after reserving the given offsets from `base`. */
  function Reserve(t: Table, base: nat, offs: seq<nat>): Table {
    if offs == [] then t
    else
      var n := |offs| - 1;
      Reserve(t, base, offs[..n])[At(base, offs[n]) := true]
  }

  lemma {:induction false} ReserveAt(t: Table, base: nat, offs: seq<nat>, i: nat)
    requires i < RING
    ensures Reserve(t, base, offs)[i] <==> t[i] || exists k :: 0 <= k < |offs| && At(base, offs[k]) == i
  {
    if offs != [] {
      var n := |offs| - 1;
      ReserveAt(t, base, offs[..n], i);
      assert forall k :: 0 <= k < n ==> offs[..n][k] == offs[k];
    }
  }

  lemma {:induction false} ReserveMore(t: Table, base: nat, a: seq<nat>, b: seq<nat>)
    ensures Reserve(t, base, a + b) == Reserve(Reserve(t, base, a), base, b)
  {
    if b == [] {
      assert a + b == a;
    } else {
      var n := |b| - 1;
      assert (a + b)[..|a| + n] == a + b[..n];
      ReserveMore(t, base, a, b[..n]);
    }
  }

  function Offsets(ms: seq<Mark>): (r: seq<nat>)
    ensures |r| == |ms| && forall k :: 0 <= k < |ms| ==> r[k] == ms[k].off
  {
    seq(|ms|, k requires 0 <= k < |ms| => ms[k].off)
  }

  lemma NothingReserved(t: Table, base: nat)
    ensures Reserve(t, base, Offsets([])) == t
  {
  }

  function Marks(offs: seq<nat>, owner: Owner): (r: seq<Mark>)
    ensures |r| == |offs| && forall k :: 0 <= k < |r| ==> r[k] == Mark(offs[k], owner)
  {
    seq(|offs|, k requires 0 <= k < |offs| => Mark(offs[k], owner))
  }

  /** A slot that user data may take. */
  predicate Eligible(t: Table, tti: nat)
    requires tti < RING
  {
    IsValidDlSf(tti) && !t[tti] && !IsSib1Sf(tti)
  }

  /** Which offsets from `start` are eligible. */
  function Free(t: Table, start: nat): nat -> bool {
    (o: nat) => Eligible(t, At(start, o))
  }

  /** The offsets an `n`-subframe user block takes: the earliest eligible ones within one turn of the ring. */
  function Fit(t: Table, start: nat, n: nat): seq<nat> {
    First(Free(t, start), 0, |t|, n)
  }

  /** Eligible slots in one turn of the ring. */
  function Room(t: Table, start: nat): nat {
    Count(Free(t, start), 0, RING)
  }

  /** Reserving `|offs|` subframes costs at most that many eligible slots. */
  lemma {:induction false} RoomAfterReserve(t: Table, start: nat, base: nat, offs: seq<nat>)
    ensures Room(Reserve(t, base, offs), start) + |offs| >= Room(t, start)
  {
    if offs != [] {
      var n := |offs| - 1;
      var u := Reserve(t, base, offs[..n]);
      RoomAfterReserve(t, start, base, offs[..n]);
      RoomAfterMark(u, start, At(base, offs[n]));
    }
  }

  lemma RoomAfterMark(t: Table, start: nat, i: nat)
    requires i < RING
    ensures Room(t[i := true], start) + 1 >= Room(t, start)
  {
    var u: Table := t[i := true];
    var e, f := Free(t, start), Free(u, start);
    if x: nat :| x < RING && At(start, x) == i {
      forall o: nat | o < RING && o != x ensures e(o) == f(o) {
        if o < x { AtInjective(start, o, x); } else { AtInjective(start, x, o); }
      }
      CountLose(e, f, 0, RING, x);
    } else {
      forall o: nat | o < RING ensures e(o) == f(o) {
        assert At(start, o) != i;
      }
      CountAgree(e, f, 0, RING);
    }
  }

  /** Subframes a user block may use, by their place in a pair of frames. */
  predicate UserPhase(a: nat) {
    var p := a % 20;
    p != 0 && p != 5 && p != 9 && p != 10 && p != 14 && p != 15
  }

  function UserPhases(): nat -> bool {
    (a: nat) => UserPhase(a)
  }

  lemma EligibleByPhase(t: Table, start: nat, o: nat)
    ensures Free(t, start)(o) <==> UserPhase(start + o) && !t[At(start, o)]
  {
    RingCalendar(start + o);
    Phase(start + o);
  }

  /** Any 20 consecutive subframes have 14 user phases. */
  lemma TwoFrames(a: nat)
    ensures Count(UserPhases(), a, a + 20) == 14
  {
    var e := UserPhases();
    forall o: nat ensures e(o + 20) == e(o) {}
    CountPeriod(e, 20, a);
    FirstTwoFrames();
  }

  lemma FirstTwoFrames()
    ensures Count(UserPhases(), 0, 20) == 14
  {
    var e := UserPhases();
    assert Count(e, 18, 20) == 2;
    assert Count(e, 16, 20) == 4;
    assert Count(e, 14, 20) == 4;
    assert Count(e, 12, 20) == 6;
    assert Count(e, 10, 20) == 7;
    assert Count(e, 8, 20) == 8;
    assert Count(e, 6, 20) == 10;
    assert Count(e, 4, 20) == 11;
    assert Count(e, 2, 20) == 13;
  }

  /** Where nothing is reserved, the eligible slots are the user phases. */
  lemma CountClear(t: Table, start: nat, lo: nat, hi: nat)
    requires forall o :: lo <= o < hi ==> !t[At(start, o)]
    ensures Count(Free(t, start), lo, hi) == Count(UserPhases(), lo + start, hi + start)
  {
    forall o | lo <= o < hi ensures UserPhases()(o + start) == Free(t, start)(o) {
      EligibleByPhase(t, start, o);
    }
    CountShift(UserPhases(), Free(t, start), lo, hi, start);
  }
}
