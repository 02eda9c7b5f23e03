/** TTI arithmetic and the subframe calendar of the NB-IoT carrier.

    A TTI is a subframe number inside one hyperframe (1024 frames of 10 subframes).
    Absolute times are unbounded naturals; `t % RING` is the TTI the program works with. */
module Timing {

  /** Subframes in a hyperframe: the length of both reservation tables. */
  const RING: nat := 10240

  /** From the reception TTI to the downlink transmission TTI. */
  const DL_DELAY: nat := 4

  /** From the reception TTI to the TTI in which a scheduled uplink block is received. */
  const UL_DELAY: nat := 13

  /** Distance from the pass that sends a RAR to the slot that parks its Msg3. */
  const MSG3_DELAY: nat := 9

  function TtiAdd(a: nat, b: nat): (r: nat)
    ensures r < RING
  {
    (a + b) % RING
  }

  function TtiSub(a: nat, b: nat): (r: nat)
    requires b <= a + RING
    ensures r < RING
  {
    (a + RING - b) % RING
  }

  /** Subframes 0 (NPBCH), 5 (NPSS) and 9 of even frames (NSSS) carry no downlink data. */
  predicate IsValidDlSf(tti: nat) {
    !(tti % 10 == 0 || tti % 10 == 5 || (tti % 10 == 9 && (tti / 10) % 2 == 0))
  }

  /** SIB1 owns subframe 4 of every odd frame (cell 99, 16 repetitions). */
  predicate IsSib1Sf(tti: nat) {
    tti % 10 == 4 && (tti / 10) % 2 == 1
  }

  /** First subframe of a SIB2 transmission. */
  predicate IsSib2Start(tti: nat) {
    tti % 10 == 1 && (tti / 10) % 512 < 16 && (tti / 10) % 4 == 0
  }

  /** The calendar has period 20 (two frames). */
  lemma Phase(tti: nat)
    ensures IsValidDlSf(tti) <==> tti % 20 != 0 && tti % 20 != 5 && tti % 20 != 9 && tti % 20 != 10 && tti % 20 != 15
    ensures IsSib1Sf(tti) <==> tti % 20 == 14
    ensures IsSib2Start(tti) ==> tti % 20 == 1
  {
    var q, p := tti / 20, tti % 20;
    assert tti == 20 * q + p;
    if p < 10 {
      assert tti / 10 == 2 * q && tti % 10 == p;
    } else {
      assert tti / 10 == 2 * q + 1 && tti % 10 == p - 10;
    }
  }

  lemma PhaseAdd(a: nat, o: nat)
    requires o < 20
    ensures (a + o) % 20 == if a % 20 + o < 20 then a % 20 + o else a % 20 + o - 20
  {
    var q := a / 20;
    assert a + o == 20 * q + (a % 20 + o);
  }

  /** Reducing a time to its TTI does not change its place in the calendar. */
  lemma RingPhase(a: nat)
    ensures (a % RING) % 20 == a % 20
  {
    var q, r := a / RING, a % RING;
    var x, y := r / 20, r % 20;
    assert a == 20 * (512 * q + x) + y;
  }

  lemma RingCalendar(a: nat)
    ensures IsValidDlSf(a % RING) == IsValidDlSf(a)
    ensures IsSib1Sf(a % RING) == IsSib1Sf(a)
  {
    RingPhase(a);
    Phase(a);
    Phase(a % RING);
  }

  lemma RingSib2(a: nat)
    ensures IsSib2Start(a % RING) == IsSib2Start(a)
  {
    hide IsSib2Start;
    Sib2StartForm(a);
    Sib2StartForm(a % RING);
    RingMod40(a);
    RingMod5120(a);
  }

  /** The starts of SIB2 in other words: every fourth of the first 16 frames of 512. */
  lemma Sib2StartForm(a: nat)
    ensures IsSib2Start(a) <==> a % 40 == 1 && a % 5120 < 160
  {
    FrameOf40(a);
    FrameOf5120(a);
  }

  lemma FrameOf40(a: nat)
    ensures a % 40 == 1 <==> a % 10 == 1 && (a / 10) % 4 == 0
  {
    var q, r := a / 40, a % 40;
    var x, y := r / 10, r % 10;
    assert a == 10 * (4 * q + x) + y;
    TenSplit(a, 4 * q + x, y);
    assert r == 1 <==> x == 0 && y == 1;
  }

  lemma FrameOf5120(a: nat)
    ensures a % 5120 < 160 <==> (a / 10) % 512 < 16
  {
    var q, r := a / 5120, a % 5120;
    var x, y := r / 10, r % 10;
    assert a == 10 * (512 * q + x) + y;
    TenSplit(a, 512 * q + x, y);
    assert r < 160 <==> x < 16;
  }

  lemma TenSplit(a: nat, f: nat, y: nat)
    requires a == 10 * f + y && y < 10
    ensures a / 10 == f && a % 10 == y
  {
  }

  lemma RingMod8(a: nat)
    ensures (a % RING) % 8 == a % 8
  {
    var q, r := a / RING, a % RING;
    var x, y := r / 8, r % 8;
    assert a == 8 * (1280 * q + x) + y;
  }

  lemma RingMod16(a: nat)
    ensures (a % RING) % 16 == a % 16
  {
    var q, r := a / RING, a % RING;
    var x, y := r / 16, r % 16;
    assert a == 16 * (640 * q + x) + y;
  }

  lemma RingMod40(a: nat)
    ensures (a % RING) % 40 == a % 40
  {
    var q, r := a / RING, a % RING;
    var x, y := r / 40, r % 40;
    assert a == 40 * (256 * q + x) + y;
  }

  lemma RingMod5120(a: nat)
    ensures (a % RING) % 5120 == a % 5120
  {
    var q, r := a / RING, a % RING;
    var x, y := r / 5120, r % 5120;
    assert a == 5120 * (2 * q + x) + y;
  }

  /** The table index `off` subframes after `base`. */
  function At(base: nat, off: nat): (i: nat)
    ensures i < RING
  {
    (base + off) % RING
  }

  lemma AtAt(base: nat, a: nat, b: nat)
    ensures At(At(base, a), b) == At(base, a + b)
  {
    var q := (base + a) / RING;
    assert base + a + b == RING * q + (At(base, a) + b);
  }

  /** Two times less than one turn apart share a TTI only when they are equal. */
  lemma AtInjective(base: nat, a: nat, b: nat)
    requires a < b < a + RING
    ensures At(base, a) != At(base, b)
  {
    var p, q := (base + a) / RING, (base + b) / RING;
    assert base + a == RING * p + At(base, a) && base + b == RING * q + At(base, b);
  }

  /** Steps from a subframe to the next one that can carry downlink data. */
  function StepsToValid(tti: nat): (n: nat)
    ensures n <= 2
    ensures IsValidDlSf(tti + n)
    ensures forall t :: tti <= t < tti + n ==> !IsValidDlSf(t)
  {
    Phase(tti);
    Phase(tti + 1);
    Phase(tti + 2);
    if IsValidDlSf(tti) then 0 else if IsValidDlSf(tti + 1) then 1 else 2
  }

  lemma StepsByPhase(a: nat)
    ensures var p := a % 20;
            StepsToValid(a) == if p == 9 then 2 else if p == 0 || p == 5 || p == 10 || p == 15 then 1 else 0
  {
    hide IsValidDlSf, IsSib1Sf, IsSib2Start;
    Phase(a);
    Phase(a + 1);
    Phase(a + 2);
    PhaseAdd(a, 1);
    PhaseAdd(a, 2);
  }
}
