/** Whole runs of consecutive downlink passes: the ring-shaped reservation table stands for a
    set of absolute times, and who may hold a subframe. */
module DlRuns {
  import opened Timing
  import opened Search
  import opened Table
  import opened DlSpec

  /** A subframe of absolute time `at`, reserved for `owner` by the pass that scheduled subframe `pass`. */
  datatype Reservation = Reservation(at: nat, owner: Owner, pass: nat)

  /** What happens before and in one pass: detections, and what each visited user asks for. */
  datatype Input = Input(rach: seq<RarInfo>, reqs: seq<DlReq>)

  /** `now` is the absolute reception time of the next pass; `log` lists every reservation made so
      far, oldest first; `grantAt` is the time of the last user grant. */
  datatype Sys = Sys(now: nat, dl: DlState, log: seq<Reservation>, grantAt: int)

  const NEVER: int := -1000

  function Tx(s: Sys): nat { s.now + DL_DELAY }

  /** The first pass runs four subframes before the first transmission, which has TTI 0. */
  function Start(): Sys {
    Sys(RING - DL_DELAY, DlState(seq(RING, i => false), 0, [], Throttle(false, 0)), [], NEVER)
  }

  function AddAll(rars: seq<PendingRar>, infos: seq<RarInfo>): seq<PendingRar> {
    if infos == [] then rars else AddRach(AddAll(rars, infos[..|infos| - 1]), infos[|infos| - 1])
  }

  function Absolute(tx: nat, ms: seq<Mark>): (r: seq<Reservation>)
    ensures |r| == |ms|
    ensures forall k :: 0 <= k < |ms| ==> r[k] == Reservation(tx + ms[k].off, ms[k].owner, tx)
  {
    seq(|ms|, k requires 0 <= k < |ms| => Reservation(tx + ms[k].off, ms[k].owner, tx))
  }

  function PassOf(s: Sys, inp: Input): DlOut {
    DlPass(s.dl.(rars := AddAll(s.dl.rars, inp.rach)), At(0, s.now), inp.reqs)
  }

  function Step(s: Sys, inp: Input): Sys {
    var out := PassOf(s, inp);
    Sys(s.now + 1, out.next, s.log + Absolute(Tx(s), out.marks), if out.data != [] then Tx(s) else s.grantAt)
  }

  function Run(inputs: seq<Input>): Sys {
    if inputs == [] then Start() else Step(Run(inputs[..|inputs| - 1]), inputs[|inputs| - 1])
  }

  lemma RunMore(inputs: seq<Input>, inp: Input)
    ensures Run(inputs + [inp]) == Step(Run(inputs), inp)
  {
    hide Step;
    assert (inputs + [inp])[..|inputs|] == inputs;
  }

  // ---------------------------------------------------------------- the invariant

  ghost predicate Held(log: seq<Reservation>, a: nat) {
    exists k :: 0 <= k < |log| && log[k].at == a
  }

  /** The table is the log, read modulo the ring: from `now` on, for one turn. */
  ghost predicate Exact(t: Table, now: nat, log: seq<Reservation>) {
    forall a :: now <= a < now + RING ==> (t[At(0, a)] <==> Held(log, a))
  }

  /** How far each kind of reservation reaches beyond the transmission time. */
  predicate Near(r: Reservation, tx: nat, grantAt: int) {
    && r.pass < tx
    && match r.owner
       case Sib2 => r.at < tx + 10
       case RarData => r.at < tx + 7
       case UserData => r.at <= grantAt + 16 && grantAt < tx
       case UserDci => r.at <= grantAt < tx
       case _ => r.at < tx
  }

  /** Where SIB2 goes, counted from its start. */
  predicate IsSib2Offset(o: int) {
    o == 0 || o == 1 || o == 2 || o == 3 || o == 5 || o == 6 || o == 7 || o == 10
  }

  /** A subframe that may carry a DCI, of a RAR or of a user. */
  predicate DciTime(a: nat) { IsValidDlSf(a) && !IsSib1Sf(a) && !IsSib2Start(a) }
  predicate RarTime(a: nat) { DciTime(a) && a % 16 < 8 }
  predicate UserTime(a: nat) { DciTime(a) && a % 8 < 2 }

  /** Where a pass may place each kind of reservation. */
  predicate Shape(r: Reservation) {
    match r.owner
    case Sib1(_) => r.at == r.pass
    case Sib2 => IsSib2Start(r.pass) && IsSib2Offset(r.at - r.pass)
    case RarDci => r.at == r.pass && RarTime(r.pass)
    case RarData => RarTime(r.pass) && r.at == r.pass + RarDataOffset(At(0, r.pass))
    case UserDci => r.at == r.pass && UserTime(r.pass)
    case UserData => UserTime(r.pass) && r.pass + 5 <= r.at <= r.pass + 16 && UserPhase(r.at)
  }

  predicate Sib1Only(r: Reservation) {
    r.owner.Sib1? <==> r.at % 20 == 14
  }

  /** A later reservation `s` falls on an earlier one `r` only in this way. */
  predicate Compatible(r: Reservation, s: Reservation) {
    && (r.at == s.at ==>
         || (s.owner.Sib2? && s.at > s.pass && r.owner.RarData?)
         || (s.owner.RarData? && (r.owner.UserData? || r.owner.RarData?)))
    && (r.owner.UserDci? && s.owner.UserDci? ==> s.at > r.at + 25)
  }

  /** A user block leaves no hole that it could have used, SIB2 is placed as a whole, and data follows its DCI. */
  ghost predicate Filled(log: seq<Reservation>, r: Reservation) {
    && (r.owner.UserData? ==> forall t :: r.pass + 5 <= t < r.at && UserPhase(t) ==> Held(log, t))
    && (r.owner.Sib2? ==> forall o: nat :: IsSib2Offset(o) ==> Reservation(r.pass + o, Sib2, r.pass) in log)
    && (r.owner.RarData? ==> Reservation(r.pass, RarDci, r.pass) in log)
    && (r.owner.UserData? ==> Reservation(r.pass, UserDci, r.pass) in log)
  }

  /** No start of SIB2 goes by unused: SIB2 takes it unless someone else holds it. */
  ghost predicate Closed(log: seq<Reservation>, tx: nat) {
    && (forall k :: 0 <= k < |log| ==> Filled(log, log[k]))
    && (forall a :: RING <= a < tx && IsSib2Start(a) ==> Held(log, a))
  }

  ghost predicate Orderly(log: seq<Reservation>) {
    forall j, k :: 0 <= j < k < |log| ==> Compatible(log[j], log[k])
  }

  ghost predicate Spaced(th: Throttle, grantAt: int, tx: nat) {
    && grantAt < tx
    && (th.active ==> grantAt >= 0 && th.last == At(0, grantAt))
    && (!th.active ==> grantAt + 25 < tx)
  }

  /** Times of the SIB1 reservations, in order. */
  function Sib1Times(log: seq<Reservation>): seq<nat> {
    if log == [] then []
    else
      var n := |log| - 1;
      Sib1Times(log[..n]) + (if log[n].owner.Sib1? then [log[n].at] else [])
  }

  /** SIB1 subframes between the start and `tx`. */
  function Sib1Count(tx: nat): nat
    requires tx >= RING
  {
    (tx - RING + 5) / 20
  }

  /** Every SIB1 subframe so far, each once. */
  function Sib1Schedule(n: nat): (r: seq<nat>)
    ensures |r| == n
  {
    seq(n, k => RING + 14 + 20 * k)
  }

  /** A SIB1 reservation opens a new transmission exactly at the first one of a 256-frame period. */
  predicate NewAtPeriod(r: Reservation) {
    r.owner.Sib1? ==> (r.owner.isNew <==> r.at % 2560 == 14)
  }

  predicate Good(r: Reservation, tx: nat, grantAt: int) {
    Near(r, tx, grantAt) && Sib1Only(r) && NewAtPeriod(r) && Shape(r)
  }

  ghost predicate AllGood(log: seq<Reservation>, tx: nat, grantAt: int) {
    forall k :: 0 <= k < |log| ==> Good(log[k], tx, grantAt)
  }

  ghost predicate Inv(s: Sys) {
    var tx := Tx(s);
    && tx >= RING
    && Exact(s.dl.table, s.now, s.log)
    && AllGood(s.log, tx, s.grantAt)
    && Orderly(s.log)
    && Closed(s.log, tx)
    && Spaced(s.dl.throttle, s.grantAt, tx)
    && Sib1Times(s.log) == Sib1Schedule(Sib1Count(tx))
    && s.dl.sib1Idx == Sib1Count(tx) % SIB1_NUM_SF
  }

  /** What holds in the middle of the pass for `tx`, after some of its reservations. */
  ghost predicate Mid(t: Table, tx: nat, log: seq<Reservation>, grantAt: int) {
    && tx >= RING && grantAt < tx
    && Exact(t, tx - DL_DELAY + 1, log)
    && AllGood(log, tx + 1, grantAt)
    && (!Held(log, tx) ==> AllGood(log, tx, grantAt))
    && Orderly(log)
    && Closed(log, tx + 1)
  }

  // ---------------------------------------------------------------- the table follows the log

  lemma ExactReserve(t: Table, now: nat, log: seq<Reservation>, tx: nat, ms: seq<Mark>)
    requires Exact(t, now, log) && tx >= now
    requires forall k :: 0 <= k < |ms| ==> tx + ms[k].off < now + RING
    ensures Exact(Reserve(t, At(0, tx), Offsets(ms)), now, log + Absolute(tx, ms))
  {
    var u := Reserve(t, At(0, tx), Offsets(ms));
    var abs := Absolute(tx, ms);
    forall a | now <= a < now + RING ensures u[At(0, a)] <==> Held(log + abs, a) {
      ReserveAt(t, At(0, tx), Offsets(ms), At(0, a));
      HeldAppend(log, abs, a);
      forall k | 0 <= k < |ms| ensures At(At(0, tx), Offsets(ms)[k]) == At(0, a) <==> abs[k].at == a {
        SameTime(tx, ms[k].off, a);
      }
    }
  }

  lemma SameTime(tx: nat, off: nat, a: nat)
    requires tx + off < a + RING && a < tx + off + RING
    ensures At(At(0, tx), off) == At(0, a) <==> tx + off == a
  {
    AtAt(0, tx, off);
    if tx + off < a { AtInjective(0, tx + off, a); } else if a < tx + off { AtInjective(0, a, tx + off); }
  }

  lemma HeldAppend(log: seq<Reservation>, more: seq<Reservation>, a: nat)
    ensures Held(log + more, a) <==> Held(log, a) || Held(more, a)
  {
    if Held(log, a) {
      var k :| 0 <= k < |log| && log[k].at == a;
      assert (log + more)[k].at == a;
    }
    if Held(more, a) {
      var k :| 0 <= k < |more| && more[k].at == a;
      assert (log + more)[|log| + k].at == a;
    }
  }

  /** Clearing the entry of the received subframe drops no reservation that is still ahead. */
  lemma ExactClear(t: Table, now: nat, log: seq<Reservation>)
    requires Exact(t, now, log)
    requires forall k :: 0 <= k < |log| ==> log[k].at < now + RING
    ensures Exact(t[At(0, now) := false], now + 1, log)
  {
    forall a | now + 1 <= a < now + 1 + RING ensures t[At(0, now) := false][At(0, a)] <==> Held(log, a) {
      if a < now + RING {
        AtInjective(0, now, a);
      } else {
        AtAt(0, now, RING);
      }
    }
  }

  lemma OrderlyAppend(log: seq<Reservation>, more: seq<Reservation>)
    requires Orderly(log) && Orderly(more)
    requires forall j, k :: 0 <= j < |log| && 0 <= k < |more| ==> Compatible(log[j], more[k])
    ensures Orderly(log + more)
  {
    forall j, k | 0 <= j < k < |log + more| ensures Compatible((log + more)[j], (log + more)[k]) {
      if k >= |log| && j >= |log| { assert Compatible(more[j - |log|], more[k - |log|]); }
    }
  }

  lemma {:induction false} Sib1TimesAppend(log: seq<Reservation>, more: seq<Reservation>)
    ensures Sib1Times(log + more) == Sib1Times(log) + Sib1Times(more)
  {
    if more == [] {
      assert log + more == log;
    } else {
      var n := |more| - 1;
      assert (log + more)[..|log| + n] == log + more[..n];
      Sib1TimesAppend(log, more[..n]);
    }
  }

  lemma FilledMore(log: seq<Reservation>, more: seq<Reservation>, r: Reservation)
    requires Filled(log, r)
    ensures Filled(log + more, r)
  {
    hide Held, UserPhase, IsSib2Offset;
    if r.owner.UserData? {
      forall t | r.pass + 5 <= t < r.at && UserPhase(t) ensures Held(log + more, t) { HeldAppend(log, more, t); }
    }
  }

  lemma ClosedAppend(log: seq<Reservation>, more: seq<Reservation>, tx: nat)
    requires Closed(log, tx) && forall k :: 0 <= k < |more| ==> Filled(log + more, more[k])
    ensures Closed(log + more, tx)
  {
    hide Filled, Held, IsSib2Start;
    forall k | 0 <= k < |log| ensures Filled(log + more, log[k]) { FilledMore(log, more, log[k]); }
    forall a | RING <= a < tx && IsSib2Start(a) ensures Held(log + more, a) { HeldAppend(log, more, a); }
  }

  // ---------------------------------------------------------------- one pass, part by part

  /** The calendar sees a TTI and its absolute time alike. */
  lemma Calendar(a: nat)
    ensures IsValidDlSf(At(0, a)) == IsValidDlSf(a)
    ensures IsSib1Sf(At(0, a)) == IsSib1Sf(a) == (a % 20 == 14)
    ensures IsSib2Start(At(0, a)) == IsSib2Start(a)
    ensures At(0, a) % 20 == a % 20 && At(0, a) % 16 == a % 16 && At(0, a) % 8 == a % 8
  {
    hide IsValidDlSf, IsSib2Start;
    RingCalendar(a);
    RingPhase(a);
    RingSib2(a);
    RingMod16(a);
    RingMod8(a);
    Phase(a);
  }

  lemma Sib1CountStep(tx: nat)
    requires tx >= RING
    ensures tx % 20 == 14 ==> Sib1Count(tx + 1) == Sib1Count(tx) + 1 && tx == RING + 14 + 20 * Sib1Count(tx)
    ensures tx % 20 != 14 ==> Sib1Count(tx + 1) == Sib1Count(tx)
    ensures tx % 20 == 14 ==> (Sib1Count(tx) % SIB1_NUM_SF == 0 <==> tx % 2560 == 14)
  {
    hide At;
    var m := tx - RING;
    var q, p := m / 20, m % 20;
    assert m == 20 * q + p;
    assert tx % 20 == p;
    if p == 14 {
      var c := q / 128;
      assert tx == 2560 * (c + 4) + 20 * (q % 128) + 14;
    }
  }

  /** SIB1's subframe is never found taken: the "already allocated" branch cannot be reached. */
  lemma Sib1SlotIsFree(s: Sys)
    requires Inv(s) && IsSib1Sf(Tx(s))
    ensures !s.dl.table[At(0, Tx(s))]
  {
    Phase(Tx(s));
    forall k | 0 <= k < |s.log| ensures s.log[k].at != Tx(s) {
      assert Good(s.log[k], Tx(s), s.grantAt);
    }
  }

  function BcMarksOf(s: Sys): seq<Mark> {
    BcMarks(s.dl.table[At(0, s.now) := false], At(0, Tx(s)), s.dl.sib1Idx)
  }

  lemma BcMarkShape(s: Sys)
    requires Inv(s)
    ensures var ms := BcMarksOf(s); var tx := Tx(s);
            if tx % 20 == 14 then ms == [Mark(0, Sib1(s.dl.sib1Idx == 0))]
            else if IsSib2Start(tx) && !Held(s.log, tx) then ms == Marks([0, 1, 2, 3, 5, 6, 7, 10], Sib2)
            else ms == []
  {
    hide AllGood, Closed, Spaced, Orderly, IsSib2Start, Sib2Offsets, At;
    var tx := Tx(s);
    Calendar(tx);
    Phase(tx);
    if tx % 20 == 14 { Sib1SlotIsFree(s); }
    if IsSib2Start(tx) { Sib2Span(At(0, tx)); }
    AtInjective(0, s.now, tx);
  }

  lemma Sib2Good(tx: nat, grantAt: int)
    requires IsSib2Start(tx) && grantAt < tx
    ensures AllGood(Absolute(tx, Marks([0, 1, 2, 3, 5, 6, 7, 10], Sib2)), tx + 1, grantAt)
  {
    Phase(tx);
    hide IsSib2Start, IsValidDlSf, RarDataOffset, UserPhase;
    var offs := [0, 1, 2, 3, 5, 6, 7, 10];
    var q := tx / 20;
    forall k | 0 <= k < |offs| ensures offs[k] <= 10 && IsSib2Offset(offs[k]) && (tx + offs[k]) % 20 != 14 {
      assert tx + offs[k] == 20 * q + (1 + offs[k]);
    }
  }

  lemma BcGood(s: Sys)
    requires Inv(s)
    ensures AllGood(Absolute(Tx(s), BcMarksOf(s)), Tx(s) + 1, s.grantAt)
  {
    hide BcMarks, RarDataOffset, IsValidDlSf, IsSib1Sf, IsSib2Start, UserPhase, Exact, Orderly, Closed;
    BcMarkShape(s);
    Sib1CountStep(Tx(s));
    if Tx(s) % 20 != 14 && BcMarksOf(s) != [] { Sib2Good(Tx(s), s.grantAt); }
  }

  /** Where SIB2's reservations are in the list. */
  lemma Sib2Holds(tx: nat, o: nat)
    requires IsSib2Offset(o)
    ensures Reservation(tx + o, Sib2, tx) in Absolute(tx, Marks([0, 1, 2, 3, 5, 6, 7, 10], Sib2))
    ensures Held(Absolute(tx, Marks([0, 1, 2, 3, 5, 6, 7, 10], Sib2)), tx + o)
  {
    var abs := Absolute(tx, Marks([0, 1, 2, 3, 5, 6, 7, 10], Sib2));
    assert abs[if o <= 3 then o else if o <= 7 then o - 1 else 7] == Reservation(tx + o, Sib2, tx);
  }

  lemma BcClosed(s: Sys)
    requires Inv(s)
    ensures Closed(s.log + Absolute(Tx(s), BcMarksOf(s)), Tx(s) + 1)
  {
    hide BcMarks, AllGood, Exact, Orderly, Spaced, Held, IsSib2Start, UserPhase, Filled, Sib1Times, Closed;
    var tx, ms := Tx(s), BcMarksOf(s);
    BcMarkShape(s);
    if tx % 20 != 14 && IsSib2Start(tx) && !Held(s.log, tx) {
      Sib2Closed(s.log, tx);
    } else {
      QuietClosed(s.log, tx, ms);
    }
  }

  lemma Sib2Closed(log: seq<Reservation>, tx: nat)
    requires Closed(log, tx)
    ensures Closed(log + Absolute(tx, Marks([0, 1, 2, 3, 5, 6, 7, 10], Sib2)), tx + 1)
  {
    hide Held, IsSib2Start, UserPhase, Closed;
    var abs := Absolute(tx, Marks([0, 1, 2, 3, 5, 6, 7, 10], Sib2));
    forall k | 0 <= k < |abs| ensures Filled(log + abs, abs[k]) {
      forall o: nat | IsSib2Offset(o) ensures Reservation(tx + o, Sib2, tx) in log + abs { Sib2Holds(tx, o); }
    }
    hide Filled;
    ClosedAppend(log, abs, tx);
    Sib2Holds(tx, 0);
    HeldAppend(log, abs, tx);
    ClosedNext(log + abs, tx);
  }

  /** A pass that places no SIB2: it carries SIB1, or is no start, or finds the start held. */
  lemma QuietClosed(log: seq<Reservation>, tx: nat, ms: seq<Mark>)
    requires Closed(log, tx) && (forall k :: 0 <= k < |ms| ==> ms[k].owner.Sib1?)
    requires IsSib2Start(tx) ==> Held(log, tx) || (ms != [] && ms[0].off == 0)
    ensures Closed(log + Absolute(tx, ms), tx + 1)
  {
    hide IsSib2Start, UserPhase, Closed;
    var abs := Absolute(tx, ms);
    ClosedAppend(log, abs, tx);
    HeldAppend(log, abs, tx);
    if ms != [] { assert abs[0].at == tx + ms[0].off; }
    hide Filled, Held;
    ClosedNext(log + abs, tx);
  }

  lemma ClosedNext(log: seq<Reservation>, tx: nat)
    requires Closed(log, tx) && (IsSib2Start(tx) ==> Held(log, tx))
    ensures Closed(log, tx + 1)
  {
    hide Filled, Held, IsSib2Start;
  }

  lemma BcFresh(s: Sys)
    requires Inv(s)
    ensures var abs := Absolute(Tx(s), BcMarksOf(s));
            Orderly(abs) && forall j, k :: 0 <= j < |s.log| && 0 <= k < |abs| ==> Compatible(s.log[j], abs[k])
  {
    hide BcMarks, Shape, IsSib2Start;
    var abs := Absolute(Tx(s), BcMarksOf(s));
    BcMarkShape(s);
    forall j, k | 0 <= j < |s.log| && 0 <= k < |abs| ensures Compatible(s.log[j], abs[k]) {
      assert Good(s.log[j], Tx(s), s.grantAt);
      if IsSib2Start(Tx(s)) { Sib2MeetsRarOnly(s, j); }
    }
  }

  /** When SIB2 is placed, only RAR data lies ahead in its span: an earlier SIB2 is over, and a user block that
      reaches beyond the start would have taken the start. */
  lemma Sib2MeetsRarOnly(s: Sys, j: nat)
    requires Inv(s) && IsSib2Start(Tx(s)) && !Held(s.log, Tx(s)) && j < |s.log|
    ensures s.log[j].at >= Tx(s) ==> s.log[j].owner.RarData?
  {
    hide Exact, Orderly, Spaced, Sib1Times, Held, Closed;
    var tx, r := Tx(s), s.log[j];
    assert Good(r, tx, s.grantAt);
    ClosedAt(s.log, tx, j);
    HeldSelf(s.log, j);
    match r.owner
    case Sib2 => Sib2StartsApart(r.pass, tx);
    case UserData =>
      if r.at > tx { UserBeforeStart(r.pass, tx); }
    case _ =>
  }

  lemma HeldSelf(log: seq<Reservation>, j: nat)
    requires j < |log|
    ensures Held(log, log[j].at)
  {
  }

  lemma Sib2StartsApart(a: nat, b: nat)
    requires IsSib2Start(a) && IsSib2Start(b) && a < b
    ensures a + 40 <= b
  {
    hide IsSib2Start;
    Sib2StartForm(a);
    Sib2StartForm(b);
    FortyApart(a, b);
  }

  lemma FortyApart(a: nat, b: nat)
    requires a % 40 == 1 && b % 40 == 1 && a < b
    ensures a + 40 <= b
  {
    var p, q := a / 40, b / 40;
    assert a == 40 * p + 1 && b == 40 * q + 1;
  }

  /** A user's DCI before a start of SIB2 comes at least eight subframes before it. */
  lemma UserBeforeStart(dci: nat, tx: nat)
    requires UserTime(dci) && IsSib2Start(tx) && dci < tx
    ensures dci + 8 <= tx && UserPhase(tx)
  {
    Sib2StartForm(tx);
    Phase(dci);
    hide IsSib2Start, IsValidDlSf, IsSib1Sf;
    Mod40Parts(tx);
    TwentyBack(tx);
    EightApart(dci, tx);
  }

  lemma EightApart(a: nat, b: nat)
    requires a % 8 < 2 && b % 8 == 1 && a < b && a + 1 != b
    ensures a + 8 <= b
  {
  }

  lemma TwentyBack(b: nat)
    requires b % 20 == 1
    ensures (b - 1) % 20 == 0
  {
  }

  lemma Mod40Parts(a: nat)
    requires a % 40 == 1
    ensures a % 8 == 1 && a % 20 == 1
  {
    var q := a / 40;
    assert a == 8 * (5 * q) + 1;
    assert a == 20 * (2 * q) + 1;
  }

  lemma GoodAppend(log: seq<Reservation>, more: seq<Reservation>, tx: nat, grantAt: int)
    requires AllGood(log, tx, grantAt) && AllGood(more, tx, grantAt)
    ensures AllGood(log + more, tx, grantAt)
  {
  }

  lemma GoodLater(log: seq<Reservation>, tx: nat, tx': nat, grantAt: int, grantAt': int)
    requires AllGood(log, tx, grantAt) && tx <= tx' && grantAt <= grantAt' < tx'
    ensures AllGood(log, tx', grantAt')
  {
    forall k | 0 <= k < |log| ensures Good(log[k], tx', grantAt') {
      assert Good(log[k], tx, grantAt);
    }
  }

  lemma BcPhase(s: Sys)
    requires Inv(s)
    ensures var ms := BcMarksOf(s);
            && Mid(Reserve(s.dl.table[At(0, s.now) := false], At(0, Tx(s)), Offsets(ms)), Tx(s),
                   s.log + Absolute(Tx(s), ms), s.grantAt)
            && (Tx(s) % 20 == 14 ==> Held(s.log + Absolute(Tx(s), ms), Tx(s)))
  {
    hide BcMarks, At, Good, Compatible, Reserve, Sib1Times, Sib1Count, Closed, IsSib2Start;
    var tx, ms := Tx(s), BcMarksOf(s);
    BcClosed(s);
    var abs := Absolute(tx, ms);
    BcMarkShape(s);
    ReachIsShort(s);
    ExactClear(s.dl.table, s.now, s.log);
    ExactReserve(s.dl.table[At(0, s.now) := false], s.now + 1, s.log, tx, ms);
    BcFresh(s);
    OrderlyAppend(s.log, abs);
    BcGood(s);
    GoodLater(s.log, tx, tx + 1, s.grantAt, s.grantAt);
    GoodAppend(s.log, abs, tx + 1, s.grantAt);
    if ms != [] {
      assert abs[0].at == tx;
      HeldAppend(s.log, abs, tx);
    } else {
      assert s.log + abs == s.log;
    }
  }

  /** No reservation is more than 16 subframes ahead of the pass that made it. */
  lemma ReachIsShort(s: Sys)
    requires Inv(s)
    ensures forall k :: 0 <= k < |s.log| ==> s.log[k].at < Tx(s) + 16
  {
    forall k | 0 <= k < |s.log| ensures s.log[k].at < Tx(s) + 16 {
      assert Good(s.log[k], Tx(s), s.grantAt);
    }
  }

  /** RAR data, five to seven subframes ahead, misses every SIB2 already placed: it would have to start inside
      SIB2's own span. */
  lemma RarMissesSib2(log: seq<Reservation>, tx: nat, grantAt: int, j: nat, off: nat)
    requires Closed(log, tx + 1) && !Held(log, tx) && IsValidDlSf(tx) && 5 <= off <= 7
    requires j < |log| && log[j].owner.Sib2? && Good(log[j], tx, grantAt)
    ensures log[j].at != tx + off
  {
    hide IsValidDlSf, IsSib2Start, IsSib1Sf, Held, UserPhase, RarDataOffset, Closed, Sib1Only, NewAtPeriod;
    var r := log[j];
    var d: nat := tx - r.pass;
    ClosedAt(log, tx + 1, j);
    NotFour(r.pass, tx);
    forall o: nat | IsSib2Offset(o) ensures o != d {
      InMeansHeld(log, Reservation(r.pass + o, Sib2, r.pass));
    }
    if r.at == tx + off { SpanStep(d, off); }
  }

  lemma InMeansHeld(log: seq<Reservation>, r: Reservation)
    requires r in log
    ensures Held(log, r.at)
  {
  }

  lemma ClosedAt(log: seq<Reservation>, tx: nat, j: nat)
    requires Closed(log, tx) && j < |log|
    ensures Filled(log, log[j])
  {
    hide Filled;
  }

  lemma SpanStep(d: nat, off: nat)
    requires d > 0 && 5 <= off <= 7 && IsSib2Offset(d + off)
    ensures d == 4 || IsSib2Offset(d)
  {
  }

  lemma NotFour(start: nat, tx: nat)
    requires IsSib2Start(start) && IsValidDlSf(tx)
    ensures tx != start + 4
  {
    hide IsValidDlSf, IsSib2Start;
    Phase(start);
    Phase(start + 4);
    PhaseAdd(start, 4);
  }

  lemma RaGood(tx: nat, grantAt: int)
    requires RarTime(tx) && grantAt < tx && tx % 20 != 14
    ensures AllGood(Absolute(tx, [Mark(0, RarDci), Mark(RarDataOffset(At(0, tx)), RarData)]), tx + 1, grantAt)
    ensures 5 <= RarDataOffset(At(0, tx)) <= 7
  {
    RarDataPlace(tx);
    Phase(tx + RarDataOffset(At(0, tx)));
    hide IsValidDlSf, IsSib1Sf, IsSib2Start, RarDataOffset, At, UserPhase;
  }

  lemma RaApart(log: seq<Reservation>, tx: nat, grantAt: int, j: nat, off: nat)
    requires Closed(log, tx + 1) && !Held(log, tx) && IsValidDlSf(tx) && 5 <= off <= 7
    requires j < |log| && Good(log[j], tx, grantAt)
    ensures Compatible(log[j], Reservation(tx, RarDci, tx)) && Compatible(log[j], Reservation(tx + off, RarData, tx))
  {
    hide IsValidDlSf, Shape, Closed, Sib1Only, NewAtPeriod;
    HeldSelf(log, j);
    hide Held;
    if log[j].owner.Sib2? { RarMissesSib2(log, tx, grantAt, j, off); }
  }

  lemma RaFresh(t: Table, tx: nat, log: seq<Reservation>, grantAt: int)
    requires Mid(t, tx, log, grantAt) && !Held(log, tx) && RarTime(tx) && tx % 20 != 14
    ensures var abs := Absolute(tx, [Mark(0, RarDci), Mark(RarDataOffset(At(0, tx)), RarData)]);
            && AllGood(abs, tx + 1, grantAt) && Orderly(abs)
            && forall j, k :: 0 <= j < |log| && 0 <= k < |abs| ==> Compatible(log[j], abs[k])
  {
    hide RarDataOffset, At, IsValidDlSf, IsSib1Sf, IsSib2Start, Exact, Good, Closed, Held;
    RaGood(tx, grantAt);
    var off := RarDataOffset(At(0, tx));
    var abs := Absolute(tx, [Mark(0, RarDci), Mark(off, RarData)]);
    assert abs[0] == Reservation(tx, RarDci, tx) && abs[1] == Reservation(tx + off, RarData, tx);
    forall j, k | 0 <= j < |log| && 0 <= k < |abs| ensures Compatible(log[j], abs[k]) {
      RaApart(log, tx, grantAt, j, off);
    }
  }

  /** When a RAR can be sent: in the terms of the log. */
  lemma RarCanStartMeans(t: Table, tx: nat, log: seq<Reservation>, grantAt: int)
    requires Mid(t, tx, log, grantAt) && (tx % 20 == 14 ==> Held(log, tx))
    ensures RarCanStart(t, At(0, tx)) <==> RarTime(tx) && !Held(log, tx)
  {
    hide AllGood, Orderly, Filled, Held, At, IsValidDlSf, IsSib2Start;
    Calendar(tx);
    Phase(tx);
    assert t[At(0, tx)] <==> Held(log, tx);
  }

  lemma RaPhase(t: Table, tx: nat, log: seq<Reservation>, grantAt: int, rars: seq<PendingRar>)
    requires Mid(t, tx, log, grantAt)
    requires tx % 20 == 14 ==> Held(log, tx)
    ensures var ms := RaMarks(At(0, tx), RaPass(t, At(0, tx), rars));
            && Mid(Reserve(t, At(0, tx), Offsets(ms)), tx, log + Absolute(tx, ms), grantAt)
            && (tx % 20 == 14 ==> Held(log + Absolute(tx, ms), tx))
  {
    hide RarDataOffset, At, Reserve, RarCanStart, Good, Compatible, Closed, RarTime, Exact;
    var ra := RaPass(t, At(0, tx), rars);
    var ms := RaMarks(At(0, tx), ra);
    var abs := Absolute(tx, ms);
    if !ra.done {
      NothingReserved(t, At(0, tx));
      assert log + abs == log;
    } else {
      RarCanStartMeans(t, tx, log, grantAt);
      RaFresh(t, tx, log, grantAt);
      RarTimePlace(tx);
      ExactReserve(t, tx - DL_DELAY + 1, log, tx, ms);
      OrderlyAppend(log, abs);
      GoodAppend(log, abs, tx + 1, grantAt);
      RaClosed(log, tx);
      assert abs[0].at == tx;
      HeldAppend(log, abs, tx);
    }
  }

  lemma RarTimePlace(tx: nat)
    requires RarTime(tx)
    ensures 5 <= RarDataOffset(At(0, tx)) <= 7 && tx % 20 != 14
  {
    RarDataPlace(tx);
    Phase(tx);
  }

  lemma RaClosed(log: seq<Reservation>, tx: nat)
    requires Closed(log, tx + 1)
    ensures Closed(log + Absolute(tx, [Mark(0, RarDci), Mark(RarDataOffset(At(0, tx)), RarData)]), tx + 1)
  {
    hide Held, RarDataOffset, IsSib2Start, UserPhase;
    var abs := Absolute(tx, [Mark(0, RarDci), Mark(RarDataOffset(At(0, tx)), RarData)]);
    assert abs[0] == Reservation(tx, RarDci, tx);
    ClosedAppend(log, abs, tx + 1);
  }

  lemma ExpiredMeans(g: nat, tx: nat)
    requires g < tx && Expired(Throttle(true, At(0, g)), At(0, tx))
    ensures g + 25 < tx
  {
  }

  /** The subframes a user block took, counted from five after its DCI: free, in user phases, in order, and
      none that it could have used left out before the last. */
  ghost predicate FreshBlock(log: seq<Reservation>, tx: nat, f: seq<nat>) {
    && (forall k :: 0 <= k < |f| ==> f[k] < 12 && UserPhase(tx + 5 + f[k]) && !Held(log, tx + 5 + f[k]))
    && (forall j, k :: 0 <= j < k < |f| ==> f[j] < f[k])
    && (forall k, o: nat :: 0 <= k < |f| && o < f[k] && UserPhase(tx + 5 + o) ==> Held(log, tx + 5 + o) || o in f)
  }

  lemma UserBlock(t: Table, tx: nat, log: seq<Reservation>, grantAt: int, maxData: nat)
    requires Mid(t, tx, log, grantAt) && grantAt + 25 < tx && !Held(log, tx)
    ensures FreshBlock(log, tx, UserFit(t, At(0, tx), maxData))
  {
    hide Shape, Sib1Only, NewAtPeriod, At, Filled, Compatible, UserFit, Held, UserPhase;
    var f := UserFit(t, At(0, tx), maxData);
    forall a | tx + 10 <= a < tx + 17 ensures !t[At(0, a)] {
      ClearAhead(t, tx, log, grantAt, a);
    }
    UserFitSpan(t, tx, maxData);
    forall k | 0 <= k < |f| ensures UserPhase(tx + 5 + f[k]) && !Held(log, tx + 5 + f[k]) {
      BlockSlotFree(t, tx, log, grantAt, maxData, k);
    }
    forall j, k | 0 <= j < k < |f| ensures f[j] < f[k] {
      FitIncreases(t, At(0, tx), maxData, j, k);
    }
    forall k, o: nat | 0 <= k < |f| && o < f[k] && UserPhase(tx + 5 + o) ensures Held(log, tx + 5 + o) || o in f {
      BlockHasNoHole(t, tx, log, grantAt, maxData, k, o);
    }
  }

  lemma ClearAhead(t: Table, tx: nat, log: seq<Reservation>, grantAt: int, a: nat)
    requires Mid(t, tx, log, grantAt) && grantAt + 25 < tx && !Held(log, tx) && tx + 10 <= a < tx + 17
    ensures !t[At(0, a)]
  {
    hide Shape, Sib1Only, NewAtPeriod, At, Closed, Orderly;
    forall k | 0 <= k < |log| ensures log[k].at != a { assert Good(log[k], tx, grantAt); }
    assert t[At(0, a)] <==> Held(log, a);
  }

  lemma BlockSlotFree(t: Table, tx: nat, log: seq<Reservation>, grantAt: int, maxData: nat, k: nat)
    requires Mid(t, tx, log, grantAt) && k < |UserFit(t, At(0, tx), maxData)| && UserFit(t, At(0, tx), maxData)[k] < 12
    ensures var a := tx + 5 + UserFit(t, At(0, tx), maxData)[k]; UserPhase(a) && !Held(log, a)
  {
    hide UserFit, AllGood, Closed, Orderly, At, Held, IsValidDlSf, IsSib1Sf, IsSib2Start, UserPhase;
    var f := UserFit(t, At(0, tx), maxData);
    var a := tx + 5 + f[k];
    UserFitFree(t, At(0, tx), maxData, k);
    AtAt(0, tx, 5 + f[k]);
    Calendar(a);
    DataPhase(a);
    assert t[At(0, a)] <==> Held(log, a);
  }

  lemma DataPhase(a: nat)
    ensures UserPhase(a) <==> IsValidDlSf(a) && !IsSib1Sf(a)
  {
    Phase(a);
    hide IsValidDlSf, IsSib1Sf, IsSib2Start;
  }

  lemma BlockHasNoHole(t: Table, tx: nat, log: seq<Reservation>, grantAt: int, maxData: nat, k: nat, o: nat)
    requires Mid(t, tx, log, grantAt) && k < |UserFit(t, At(0, tx), maxData)|
    requires UserFit(t, At(0, tx), maxData)[k] < 12 && o < UserFit(t, At(0, tx), maxData)[k] && UserPhase(tx + 5 + o)
    ensures Held(log, tx + 5 + o) || o in UserFit(t, At(0, tx), maxData)
  {
    hide AllGood, Closed, Orderly, At, Held, Eligible, First, Count, UserPhase;
    var a := tx + 5 + o;
    var u: Table := t[At(0, tx) := true];
    var start := At(At(0, tx), 5);
    var e, f := Free(u, start), UserFit(t, At(0, tx), maxData);
    AtAt(0, tx, 5);
    AtAt(0, tx + 5, o);
    AtInjective(0, tx, a);
    assert t[At(0, a)] <==> Held(log, a);
    if !Held(log, a) {
      EligibleByPhase(u, start, o);
      SamePhase(tx + 5, o);
      FirstIsEarliest(e, 0, RING, N_SF[ISf(maxData)]);
      LastIsLargest(e, f, k);
      EarliestLeavesNoGap(e, 0, RING, f, o);
    }
  }

  lemma LastIsLargest(e: nat -> bool, f: seq<nat>, k: nat)
    requires IsEarliest(e, 0, RING, f) && k < |f|
    ensures f[k] <= f[|f| - 1]
  {
    if k < |f| - 1 { EarliestIncreases(e, 0, RING, f, k, |f| - 1); }
  }

  lemma SamePhase(a: nat, o: nat)
    requires o < 20
    ensures UserPhase(At(0, a) + o) == UserPhase(a + o)
  {
    RingPhase(a);
    PhaseAdd(a, o);
    PhaseAdd(At(0, a), o);
  }

  lemma FitIncreases(t: Table, tti: nat, maxData: nat, j: nat, k: nat)
    requires tti < RING && j < k < |UserFit(t, tti, maxData)|
    ensures UserFit(t, tti, maxData)[j] < UserFit(t, tti, maxData)[k]
  {
    var e := Free(t[tti := true], At(tti, 5));
    FirstIsEarliest(e, 0, RING, N_SF[ISf(maxData)]);
    EarliestIncreases(e, 0, RING, UserFit(t, tti, maxData), j, k);
  }

  /** The reservations of a user block, as marks. */
  predicate IsUserBlock(ms: seq<Mark>, f: seq<nat>) {
    && |ms| == 1 + |f| && ms[0] == Mark(0, UserDci)
    && forall k :: 0 <= k < |f| ==> ms[k + 1] == Mark(5 + f[k], UserData)
  }

  lemma UserFresh(log: seq<Reservation>, tx: nat, grantAt: int, f: seq<nat>, ms: seq<Mark>)
    requires AllGood(log, tx, grantAt) && grantAt + 25 < tx && !Held(log, tx)
    requires FreshBlock(log, tx, f) && IsUserBlock(ms, f)
    ensures forall j, k :: 0 <= j < |log| && 0 <= k < |ms| ==> Compatible(log[j], Absolute(tx, ms)[k])
  {
    hide Shape, Sib1Only, NewAtPeriod, UserPhase;
    var abs := Absolute(tx, ms);
    forall j, k | 0 <= j < |log| && 0 <= k < |ms| ensures Compatible(log[j], abs[k]) {
      assert Good(log[j], tx, grantAt);
      HeldSelf(log, j);
      if k > 0 { assert ms[(k - 1) + 1] == Mark(5 + f[k - 1], UserData); }
    }
  }

  lemma UserGood(log: seq<Reservation>, tx: nat, f: seq<nat>, ms: seq<Mark>)
    requires FreshBlock(log, tx, f) && IsUserBlock(ms, f) && UserTime(tx) && tx % 20 != 14
    ensures var abs := Absolute(tx, ms); AllGood(abs, tx + 1, tx) && Orderly(abs) && Sib1Times(abs) == []
    ensures forall k :: 0 <= k < |ms| ==> ms[k].off <= 16
  {
    hide IsValidDlSf, IsSib1Sf, IsSib2Start, Held, RarDataOffset, Sib1Times;
    var abs := Absolute(tx, ms);
    forall k | 0 <= k < |ms| ensures Good(abs[k], tx + 1, tx) && ms[k].off <= 16 {
      if k > 0 { assert ms[(k - 1) + 1] == Mark(5 + f[k - 1], UserData); }
    }
    UserOrderly(log, tx, f, ms);
    NoSib1(abs);
  }

  lemma UserOrderly(log: seq<Reservation>, tx: nat, f: seq<nat>, ms: seq<Mark>)
    requires FreshBlock(log, tx, f) && IsUserBlock(ms, f)
    ensures Orderly(Absolute(tx, ms))
  {
    hide Held, UserPhase;
    var abs := Absolute(tx, ms);
    forall j, k | 0 <= j < k < |abs| ensures Compatible(abs[j], abs[k]) {
      assert ms[(k - 1) + 1] == Mark(5 + f[k - 1], UserData);
      if j > 0 { assert ms[(j - 1) + 1] == Mark(5 + f[j - 1], UserData); }
    }
  }

  lemma UserClosed(log: seq<Reservation>, tx: nat, f: seq<nat>, ms: seq<Mark>)
    requires Closed(log, tx + 1) && FreshBlock(log, tx, f) && IsUserBlock(ms, f)
    ensures Closed(log + Absolute(tx, ms), tx + 1)
  {
    hide Held, UserPhase, IsSib2Start;
    var abs := Absolute(tx, ms);
    assert (log + abs)[|log|] == Reservation(tx, UserDci, tx);
    forall k | 0 <= k < |abs| ensures Filled(log + abs, abs[k]) {
      if k > 0 {
        assert ms[(k - 1) + 1] == Mark(5 + f[k - 1], UserData);
        forall t | abs[k].pass + 5 <= t < abs[k].at && UserPhase(t) ensures Held(log + abs, t) {
          var o: nat := t - tx - 5;
          assert o < f[k - 1];
          HeldAppend(log, abs, t);
          if o in f { BlockHolds(tx, f, ms, o); }
        }
      }
    }
    ClosedAppend(log, abs, tx + 1);
  }

  lemma BlockHolds(tx: nat, f: seq<nat>, ms: seq<Mark>, o: nat)
    requires IsUserBlock(ms, f) && o in f
    ensures Held(Absolute(tx, ms), tx + 5 + o)
  {
    var i :| 0 <= i < |f| && f[i] == o;
    assert ms[i + 1] == Mark(5 + f[i], UserData);
    assert Absolute(tx, ms)[i + 1].at == tx + 5 + o;
  }

  lemma {:induction false} NoSib1(log: seq<Reservation>)
    requires forall k :: 0 <= k < |log| ==> !log[k].owner.Sib1?
    ensures Sib1Times(log) == []
  {
    if log != [] { NoSib1(log[..|log| - 1]); }
  }

  /** The log after a pass, and what it says about the next one. */
  ghost predicate After(t: Table, tx: nat, log: seq<Reservation>, grantAt: int, th: Throttle) {
    && tx >= RING && Exact(t, tx - 3, log) && AllGood(log, tx + 1, grantAt) && Orderly(log)
    && Closed(log, tx + 1) && Spaced(th, grantAt, tx + 1)
  }

  lemma CanStartMeans(t: Table, tx: nat, log: seq<Reservation>, grantAt: int)
    requires Mid(t, tx, log, grantAt)
    ensures UserCanStart(t, At(0, tx)) <==> UserTime(tx) && !Held(log, tx)
    ensures UserTime(tx) ==> tx % 20 != 14
  {
    hide AllGood, Orderly, Filled, Held, At, IsValidDlSf, IsSib2Start, IsSib1Sf;
    Calendar(tx);
    Phase(tx);
    assert t[At(0, tx)] <==> Held(log, tx);
  }

  lemma GrantPhase(t: Table, tx: nat, log: seq<Reservation>, grantAt: int, maxData: nat)
    requires Mid(t, tx, log, grantAt) && grantAt + 25 < tx && UserCanStart(t, At(0, tx))
    ensures var ms := UserMarks(t, At(0, tx), maxData);
            && After(Reserve(t, At(0, tx), Offsets(ms)), tx, log + Absolute(tx, ms), tx, Throttle(true, At(0, tx)))
            && Sib1Times(Absolute(tx, ms)) == []
  {
    hide UserFit, Good, Compatible, UserCanStart, At, Reserve, Held, Exact, Sib1Times, FreshBlock, Closed, UserTime;
    var ms, f := UserMarks(t, At(0, tx), maxData), UserFit(t, At(0, tx), maxData);
    var abs := Absolute(tx, ms);
    CanStartMeans(t, tx, log, grantAt);
    UserBlock(t, tx, log, grantAt, maxData);
    BlockShape(ms, f);
    UserFresh(log, tx, grantAt, f, ms);
    UserGood(log, tx, f, ms);
    UserClosed(log, tx, f, ms);
    hide UserMarks;
    ExactReserve(t, tx - 3, log, tx, ms);
    OrderlyAppend(log, abs);
    GoodLater(log, tx, tx + 1, grantAt, tx);
    GoodAppend(log, abs, tx + 1, tx);
  }

  lemma BlockShape(ms: seq<Mark>, f: seq<nat>)
    requires |ms| == 1 + |f| && ms[0] == Mark(0, UserDci)
    requires forall k :: 1 <= k < |ms| ==> ms[k] == Mark(5 + f[k - 1], UserData)
    ensures IsUserBlock(ms, f)
  {
  }

  lemma UserPhasePart(t: Table, tx: nat, log: seq<Reservation>, grantAt: int, th: Throttle, reqs: seq<DlReq>)
    requires Mid(t, tx, log, grantAt) && Spaced(th, grantAt, tx)
    ensures var u := VisitUsers(UserState(t, th, [], []), At(0, tx), reqs);
            && After(u.table, tx, log + Absolute(tx, u.marks), if u.data != [] then tx else grantAt, u.throttle)
            && Sib1Times(Absolute(tx, u.marks)) == []
  {
    var tti := At(0, tx);
    var u0 := UserState(t, th, [], []);
    var u := VisitUsers(u0, tti, reqs);
    OneUserPerPass(u0, tti, reqs);
    if th.active && Expired(th, tti) { ExpiredMeans(grantAt, tx); }
    if NotGranted(u0, u, tti) {
      assert log + Absolute(tx, u.marks) == log;
    } else {
      var k :| 0 <= k < |reqs| && GrantedTo(u0, u, tti, reqs[k]);
      assert u.marks == UserMarks(t, tti, reqs[k].max);
      GrantPhase(t, tx, log, grantAt, reqs[k].max);
    }
  }

  // ---------------------------------------------------------------- the whole pass

  function StateBefore(s: Sys, inp: Input): DlState {
    s.dl.(rars := AddAll(s.dl.rars, inp.rach))
  }

  function TableAfterBc(s: Sys, inp: Input): Table {
    AfterBc(StateBefore(s, inp), At(0, s.now), At(0, Tx(s)))
  }

  function RaOf(s: Sys, inp: Input): RaOut {
    RaPart(StateBefore(s, inp), At(0, s.now), At(0, Tx(s)))
  }

  function RaMarksOf(s: Sys, inp: Input): seq<Mark> {
    RaMarks(At(0, Tx(s)), RaOf(s, inp))
  }

  function UsersOf(s: Sys, inp: Input): UserState {
    UserPart(StateBefore(s, inp), At(0, s.now), At(0, Tx(s)), inp.reqs)
  }

  function LogAfterRa(s: Sys, inp: Input): seq<Reservation> {
    s.log + Absolute(Tx(s), BcMarksOf(s)) + Absolute(Tx(s), RaMarksOf(s, inp))
  }

  lemma PassParts(s: Sys, inp: Input)
    ensures PassOf(s, inp) == DlPassAt(StateBefore(s, inp), At(0, s.now), At(0, Tx(s)), inp.reqs)
  {
    hide DlPassAt, AddAll;
    TxIndex(s.now);
  }

  lemma TxIndex(now: nat)
    ensures TtiAdd(At(0, now), DL_DELAY) == At(0, now + DL_DELAY)
  {
    AtAt(0, now, DL_DELAY);
  }

  /** What a step does, in the terms of its parts. */
  lemma StepParts(s: Sys, inp: Input)
    ensures var n := Step(s, inp); var u := UsersOf(s, inp); var bm := BcMarksOf(s);
            && n.now == s.now + 1
            && n.dl.table == u.table && n.dl.throttle == u.throttle && n.dl.rars == RaOf(s, inp).rars
            && n.log == LogAfterRa(s, inp) + Absolute(Tx(s), u.marks)
            && n.grantAt == (if u.data != [] then Tx(s) else s.grantAt)
            && n.dl.sib1Idx == if bm != [] && bm[0].owner.Sib1? then NextSib1Idx(s.dl.sib1Idx) else s.dl.sib1Idx
  {
    hide BcMarks, RaPart, RaMarks, UserPart, AfterBc, At, TtiAdd, AddAll, PassOf;
    PassParts(s, inp);
    var bm, rm, um := BcMarksOf(s), RaMarksOf(s, inp), UsersOf(s, inp).marks;
    assert Absolute(Tx(s), bm + rm + um) == Absolute(Tx(s), bm) + Absolute(Tx(s), rm) + Absolute(Tx(s), um);
  }

  lemma Sib1AfterBc(s: Sys)
    requires Inv(s)
    ensures Sib1Times(s.log + Absolute(Tx(s), BcMarksOf(s))) == Sib1Schedule(Sib1Count(Tx(s) + 1))
  {
    hide BcMarks, At, Exact, AllGood, Orderly, Spaced, Sib1Times;
    var tx, b := Tx(s), Absolute(Tx(s), BcMarksOf(s));
    BcMarkShape(s);
    Sib1CountStep(tx);
    BcSib1Times(tx, BcMarksOf(s));
    ScheduleGrows(Sib1Count(tx));
    Sib1TimesAppend(s.log, b);
  }

  lemma Sib1TimesProgress(s: Sys, inp: Input)
    requires Inv(s) && Sib1Times(Absolute(Tx(s), UsersOf(s, inp).marks)) == []
    ensures Sib1Times(LogAfterRa(s, inp) + Absolute(Tx(s), UsersOf(s, inp).marks)) == Sib1Schedule(Sib1Count(Tx(s) + 1))
  {
    hide BcMarks, AfterBc, RaPart, UserPart, At, Inv, Sib1Times, Sib1Count, Sib1Schedule;
    var log1 := s.log + Absolute(Tx(s), BcMarksOf(s));
    var r, u := Absolute(Tx(s), RaMarksOf(s, inp)), Absolute(Tx(s), UsersOf(s, inp).marks);
    Sib1AfterBc(s);
    NoSib1(r);
    Sib1TimesAppend(log1, r);
    Sib1TimesAppend(log1 + r, u);
  }

  lemma BcSib1Times(tx: nat, bm: seq<Mark>)
    requires if tx % 20 == 14 then |bm| == 1 && bm[0].off == 0 && bm[0].owner.Sib1?
             else forall k :: 0 <= k < |bm| ==> !bm[k].owner.Sib1?
    ensures Sib1Times(Absolute(tx, bm)) == if tx % 20 == 14 then [tx] else []
  {
    if tx % 20 == 14 { assert Absolute(tx, bm)[..0] == []; } else { NoSib1(Absolute(tx, bm)); }
  }

  lemma ScheduleGrows(n: nat)
    ensures Sib1Schedule(n + 1) == Sib1Schedule(n) + [RING + 14 + 20 * n]
  {
  }

  lemma Sib1IdxProgress(s: Sys)
    requires Inv(s)
    ensures var bm := BcMarksOf(s);
            (if bm != [] && bm[0].owner.Sib1? then NextSib1Idx(s.dl.sib1Idx) else s.dl.sib1Idx)
            == Sib1Count(Tx(s) + 1) % SIB1_NUM_SF
  {
    hide BcMarks, At, Exact, AllGood, Orderly, Spaced;
    BcMarkShape(s);
    Sib1CountStep(Tx(s));
    NextIdx(Sib1Count(Tx(s)));
    hide Sib1Count, NextSib1Idx;
  }

  lemma NextIdx(n: nat)
    ensures NextSib1Idx(n % SIB1_NUM_SF) == (n + 1) % SIB1_NUM_SF
  {
  }

  lemma Conclude(n: Sys, tx: nat)
    requires n.now == tx - 3 && After(n.dl.table, tx, n.log, n.grantAt, n.dl.throttle)
    requires Sib1Times(n.log) == Sib1Schedule(Sib1Count(tx + 1))
    requires n.dl.sib1Idx == Sib1Count(tx + 1) % SIB1_NUM_SF
    ensures Inv(n)
  {
    hide Exact, AllGood, Orderly, Closed, Sib1Times, Sib1Count, Spaced;
  }

  lemma StepKeepsInv(s: Sys, inp: Input)
    requires Inv(s)
    ensures Inv(Step(s, inp))
  {
    var tx := Tx(s);
    hide BcMarks, RaPass, RaMarks, VisitUsers, Reserve, Offsets, Mid, After, Absolute;
    var log1, t1 := s.log + Absolute(tx, BcMarksOf(s)), TableAfterBc(s, inp);
    assert Mid(t1, tx, log1, s.grantAt) by { BcPhase(s); }
    var t2 := Reserve(t1, At(0, tx), Offsets(RaMarksOf(s, inp)));
    assert Mid(t2, tx, LogAfterRa(s, inp), s.grantAt) by {
      BcPhase(s);
      RaPhase(t1, tx, log1, s.grantAt, AddAll(s.dl.rars, inp.rach));
    }
    StepParts(s, inp);
    UserPhasePart(t2, tx, LogAfterRa(s, inp), s.grantAt, s.dl.throttle, inp.reqs);
    Sib1TimesProgress(s, inp);
    Sib1IdxProgress(s);
    Conclude(Step(s, inp), tx);
  }

  lemma {:induction false} RunInv(inputs: seq<Input>)
    ensures Inv(Run(inputs))
    ensures Run(inputs).now == RING - DL_DELAY + |inputs|
  {
    if inputs != [] {
      RunInv(inputs[..|inputs| - 1]);
      StepKeepsInv(Run(inputs[..|inputs| - 1]), inputs[|inputs| - 1]);
    }
  }
}
