/** The slots that hold per-TTI allocations, used as a map keyed by TTI: a Msg3 parked nine
    TTIs ahead is delivered by the uplink pass of that TTI, or lost at the end of a hyperframe. */
module Msg3Runs {
  import opened Timing
  import opened UlSpec
  import opened DlSpec

  /** Slots in the ring. */
  const N_SLOTS: nat := 40

  datatype Slot = Slot(ttiRx: nat, bc: seq<BcAlloc>, rar: seq<RarAlloc>, data: seq<DlAlloc>, ul: seq<UlAlloc>)

  type Slots = s: seq<Slot> | |s| == N_SLOTS witness seq(N_SLOTS, i => NewSlot(10241))

  function NewSlot(tti: nat): Slot {
    Slot(tti, [], [], [], [])
  }

  /** Slots before the first pass carry an impossible TTI. */
  function NoSlots(): Slots {
    seq(N_SLOTS, i => NewSlot(10241))
  }

  function Index(tti: nat): (i: nat)
    ensures i < N_SLOTS
  {
    tti % N_SLOTS
  }

  /** The slot of `tti` is started anew unless it already belongs to that TTI. */
  function Bind(slots: Slots, tti: nat): Slots {
    if slots[Index(tti)].ttiRx == tti then slots else slots[Index(tti) := NewSlot(tti)]
  }

  function PushUl(slots: Slots, tti: nat, more: seq<UlAlloc>): Slots {
    slots[Index(tti) := slots[Index(tti)].(ul := slots[Index(tti)].ul + more)]
  }

  /** One TTI: the downlink pass adds to its own slot and, when it has sent a whole RAR, turns to the slot of
      nine TTIs later to park the Msg3 there; the uplink pass adds grants for new data. */
  datatype Tti = Tti(bc: seq<BcAlloc>, rar: seq<RarAlloc>, data: seq<DlAlloc>, rarDone: bool, park: seq<UlAlloc>, news: seq<UlAlloc>)

  predicate TtiOk(t: Tti) {
    && |t.park| <= (if t.rarDone then 1 else 0) && (forall k :: 0 <= k < |t.park| ==> t.park[k].kind.Msg3?)
    && (forall k :: 0 <= k < |t.news| ==> t.news[k].kind.NewTx?)
  }

  function FillDl(slots: Slots, tti: nat, t: Tti): Slots {
    var s := slots[Index(tti)];
    slots[Index(tti) := s.(bc := s.bc + t.bc, rar := s.rar + t.rar, data := s.data + t.data)]
  }

  /** The slots after the downlink pass of `tti`. */
  function AfterDl(slots: Slots, tti: nat, t: Tti): Slots {
    var s1 := FillDl(Bind(slots, tti), tti, t);
    if t.rarDone then PushUl(Bind(s1, tti + MSG3_DELAY), tti + MSG3_DELAY, t.park) else s1
  }

  /** The slots after both passes of the TTI at absolute time `n`. */
  function AfterTti(slots: Slots, n: nat, t: Tti): Slots {
    var tti := At(0, n);
    PushUl(Bind(AfterDl(slots, tti, t), tti), tti, t.news)
  }

  function SlotsAfter(start: nat, ttis: seq<Tti>): Slots {
    if ttis == [] then NoSlots()
    else
      var k := |ttis| - 1;
      AfterTti(SlotsAfter(start, ttis[..k]), start + k, ttis[k])
  }

  function Msg3s(ul: seq<UlAlloc>): seq<UlAlloc> {
    if ul == [] then []
    else
      var n := |ul| - 1;
      Msg3s(ul[..n]) + (if ul[n].kind.Msg3? then [ul[n]] else [])
  }

  lemma {:induction false} Msg3sAppend(a: seq<UlAlloc>, b: seq<UlAlloc>)
    ensures Msg3s(a + b) == Msg3s(a) + Msg3s(b)
  {
    if b == [] {
      assert a + b == a;
    } else {
      var n := |b| - 1;
      assert (a + b)[..|a| + n] == a + b[..n];
      Msg3sAppend(a, b[..n]);
    }
  }

  lemma {:induction false} NoMsg3s(a: seq<UlAlloc>)
    requires forall k :: 0 <= k < |a| ==> a[k].kind.NewTx?
    ensures Msg3s(a) == []
  {
    if a != [] { NoMsg3s(a[..|a| - 1]); }
  }

  /** The Msg3 parked by the pass of time `n`, as the slot of time `n + 9` sees it. */
  function ParkedFor(start: nat, ttis: seq<Tti>, n: nat): seq<UlAlloc> {
    if start + MSG3_DELAY <= n < start + MSG3_DELAY + |ttis| then ttis[n - MSG3_DELAY - start].park else []
  }

  /** The key under which a Msg3 for time `n` was parked: the reduced TTI of the parking pass plus nine. */
  function ParkKey(n: nat): nat
    requires n >= MSG3_DELAY
  {
    At(0, n - MSG3_DELAY) + MSG3_DELAY
  }

  /** The slot cannot be taken for one of time `n`. */
  predicate Foreign(s: Slot, n: nat)
    requires n >= MSG3_DELAY
  {
    s.ul == [] || (s.ttiRx != At(0, n) && s.ttiRx != ParkKey(n))
  }

  /** Before the pass of time `n`: the slots of the next nine TTIs hold what was parked for them, all
      others are out of date. */
  ghost predicate RingInv(start: nat, ttis: seq<Tti>, slots: Slots) {
    var n := start + |ttis|;
    && start >= N_SLOTS
    && (forall a :: n <= a < n + MSG3_DELAY ==>
         var s := slots[Index(a)];
         if ParkedFor(start, ttis, a) != [] then s.ttiRx == ParkKey(a) && s.ul == ParkedFor(start, ttis, a)
         else Foreign(s, a))
    && (forall a :: n + MSG3_DELAY <= a < n + N_SLOTS ==> Foreign(slots[Index(a)], a))
  }

  lemma IndexOfTti(n: nat)
    ensures Index(At(0, n)) == Index(n)
    ensures Index(At(0, n) + MSG3_DELAY) == Index(n + MSG3_DELAY)
  {
    var q := n / RING;
    assert n == N_SLOTS * (256 * q) + At(0, n);
    hide At;
    WholeTurns(256 * q, At(0, n));
    WholeTurns(256 * q, At(0, n) + MSG3_DELAY);
  }

  lemma WholeTurns(k: nat, x: nat)
    ensures (N_SLOTS * k + x) % N_SLOTS == x % N_SLOTS
  {
    var q, r := x / N_SLOTS, x % N_SLOTS;
    assert N_SLOTS * k + x == N_SLOTS * (k + q) + r;
  }

  lemma IndexApart(a: nat, b: nat)
    requires a < b < a + N_SLOTS
    ensures Index(a) != Index(b)
  {
    var p, q := a / N_SLOTS, b / N_SLOTS;
    assert a == N_SLOTS * p + Index(a) && b == N_SLOTS * q + Index(b);
  }

  /** A parked Msg3 is found under its TTI exactly when the parking pass was not among the last nine of a
      hyperframe, because the key it is parked under is not reduced. */
  lemma KeyMatches(n: nat)
    requires n >= MSG3_DELAY
    ensures ParkKey(n) == At(0, n) <==> At(0, n - MSG3_DELAY) + MSG3_DELAY < RING
  {
    var q := (n - MSG3_DELAY) / RING;
    assert n == RING * q + ParkKey(n);
  }

  /** A slot used for time `n` is out of date for time `n + 40`. */
  lemma KeysApart(n: nat)
    ensures At(0, n) != At(0, n + N_SLOTS) && At(0, n) != ParkKey(n + N_SLOTS)
  {
    AtInjective(0, n, n + N_SLOTS);
    KeyMatches(n + N_SLOTS);
    hide At;
  }

  predicate Delivered(n: nat)
    requires n >= MSG3_DELAY
  {
    At(0, n - MSG3_DELAY) + MSG3_DELAY < RING
  }

  lemma NeighboursApart(n: nat)
    ensures Index(n) != Index(n + MSG3_DELAY)
    ensures forall a :: n < a < n + N_SLOTS && a != n + MSG3_DELAY ==> Index(a) != Index(n) && Index(a) != Index(n + MSG3_DELAY)
  {
    hide Index;
    IndexApart(n, n + MSG3_DELAY);
    forall a | n < a < n + N_SLOTS && a != n + MSG3_DELAY ensures Index(a) != Index(n) && Index(a) != Index(n + MSG3_DELAY) {
      IndexApart(n, a);
      if a < n + MSG3_DELAY { IndexApart(a, n + MSG3_DELAY); } else { IndexApart(n + MSG3_DELAY, a); }
    }
  }

  /** Starting a slot for its TTI keeps a Msg3 only when it was parked under that very key. */
  lemma BindOwn(start: nat, ttis: seq<Tti>, slots: Slots)
    requires RingInv(start, ttis, slots)
    ensures var n := start + |ttis|; var s := Bind(slots, At(0, n))[Index(n)];
            s.ttiRx == At(0, n) && s.ul == if Delivered(n) then ParkedFor(start, ttis, n) else []
  {
    hide At, Index;
    IndexOfTti(start + |ttis|);
    KeyMatches(start + |ttis|);
  }

  lemma DlEffect(start: nat, ttis: seq<Tti>, slots: Slots, t: Tti)
    requires RingInv(start, ttis, slots)
    ensures var n := start + |ttis|; var r := AfterDl(slots, At(0, n), t);
            && (forall a :: n < a < n + N_SLOTS && a != n + MSG3_DELAY ==> r[Index(a)] == slots[Index(a)])
            && (if t.rarDone then r[Index(n + MSG3_DELAY)].ttiRx == ParkKey(n + MSG3_DELAY) && r[Index(n + MSG3_DELAY)].ul == t.park
                else r[Index(n + MSG3_DELAY)] == slots[Index(n + MSG3_DELAY)])
            && r[Index(n)].ttiRx == At(0, n)
            && r[Index(n)].ul == if Delivered(n) then ParkedFor(start, ttis, n) else []
  {
    hide At, Index, Delivered;
    var n := start + |ttis|;
    BindOwn(start, ttis, slots);
    IndexOfTti(n);
    NeighboursApart(n);
    assert Foreign(slots[Index(n + MSG3_DELAY)], n + MSG3_DELAY);
    hide RingInv, ParkedFor;
    var s1 := FillDl(Bind(slots, At(0, n)), At(0, n), t);
    assert s1[Index(n + MSG3_DELAY)] == slots[Index(n + MSG3_DELAY)];
  }

  /** What one TTI does to the slots. */
  lemma TtiEffect(start: nat, ttis: seq<Tti>, slots: Slots, t: Tti)
    requires RingInv(start, ttis, slots)
    ensures var n := start + |ttis|; var r := AfterTti(slots, n, t);
            && (forall a :: n < a < n + N_SLOTS && a != n + MSG3_DELAY ==> r[Index(a)] == slots[Index(a)])
            && (if t.rarDone then r[Index(n + MSG3_DELAY)].ttiRx == ParkKey(n + MSG3_DELAY) && r[Index(n + MSG3_DELAY)].ul == t.park
                else r[Index(n + MSG3_DELAY)] == slots[Index(n + MSG3_DELAY)])
            && r[Index(n)].ttiRx == At(0, n)
            && r[Index(n)].ul == (if Delivered(n) then ParkedFor(start, ttis, n) else []) + t.news
  {
    hide At, Index, Delivered, AfterDl, RingInv, ParkedFor;
    var n := start + |ttis|;
    DlEffect(start, ttis, slots, t);
    IndexOfTti(n);
    NeighboursApart(n);
  }

  lemma TtiKeepsInv(start: nat, ttis: seq<Tti>, slots: Slots, t: Tti)
    requires RingInv(start, ttis, slots) && TtiOk(t)
    ensures RingInv(start, ttis + [t], AfterTti(slots, start + |ttis|, t))
  {
    hide At, Index, AfterTti, ParkKey;
    var n := start + |ttis|;
    TtiEffect(start, ttis, slots, t);
    KeysApart(n);
    SameIndex(n);
    var more, r := ttis + [t], AfterTti(slots, n, t);
    forall a | n + 1 <= a < n + 1 + MSG3_DELAY
      ensures if ParkedFor(start, more, a) != [] then r[Index(a)].ttiRx == ParkKey(a) && r[Index(a)].ul == ParkedFor(start, more, a)
              else Foreign(r[Index(a)], a)
    {
      assert ParkedFor(start, more, a) == if a == n + MSG3_DELAY then t.park else ParkedFor(start, ttis, a);
    }
    forall a | n + 1 + MSG3_DELAY <= a < n + 1 + N_SLOTS ensures Foreign(r[Index(a)], a) {
      if a < n + N_SLOTS { assert Foreign(slots[Index(a)], a); }
    }
  }

  lemma SameIndex(n: nat)
    ensures Index(n + N_SLOTS) == Index(n)
  {
  }

  lemma {:induction false} RunKeepsInv(start: nat, ttis: seq<Tti>)
    requires start >= N_SLOTS && forall k :: 0 <= k < |ttis| ==> TtiOk(ttis[k])
    ensures RingInv(start, ttis, SlotsAfter(start, ttis))
  {
    hide At, Index, AfterTti;
    if ttis != [] {
      var k := |ttis| - 1;
      RunKeepsInv(start, ttis[..k]);
      TtiKeepsInv(start, ttis[..k], SlotsAfter(start, ttis[..k]), ttis[k]);
      assert ttis == ttis[..k] + [ttis[k]];
    }
  }

  /** Whatever carries the key of an upcoming TTI has no downlink allocations yet. */
  ghost predicate Unused(n: nat, slots: Slots) {
    forall a :: n <= a < n + N_SLOTS ==> NoDl(slots[Index(a)]) || slots[Index(a)].ttiRx != At(0, a)
  }

  predicate NoDl(s: Slot) {
    s.bc == [] && s.rar == [] && s.data == []
  }

  lemma TtiKeepsUnused(n: nat, slots: Slots, t: Tti)
    requires Unused(n, slots)
    ensures Unused(n + 1, AfterTti(slots, n, t))
  {
    hide At, Index;
    NeighboursApart(n);
    IndexOfTti(n);
    KeysApart(n);
    SameIndex(n);
    KeyMatches(n + MSG3_DELAY);
    var r := AfterTti(slots, n, t);
    assert NoDl(slots[Index(n + MSG3_DELAY)]) || slots[Index(n + MSG3_DELAY)].ttiRx != At(0, n + MSG3_DELAY);
    forall a | n + 1 <= a < n + 1 + N_SLOTS ensures NoDl(r[Index(a)]) || r[Index(a)].ttiRx != At(0, a) {
      if a < n + N_SLOTS { assert NoDl(slots[Index(a)]) || slots[Index(a)].ttiRx != At(0, a); }
    }
  }

  /** In every run, a downlink pass starts with an empty slot. */
  lemma {:induction false} PassStartsEmpty(start: nat, ttis: seq<Tti>)
    requires start >= N_SLOTS
    ensures Unused(start + |ttis|, SlotsAfter(start, ttis))
    ensures var n := start + |ttis|; NoDl(Bind(SlotsAfter(start, ttis), At(0, n))[Index(n)])
  {
    hide At, Index, AfterTti;
    IndexOfTti(start + |ttis|);
    if ttis != [] {
      var k := |ttis| - 1;
      PassStartsEmpty(start, ttis[..k]);
      TtiKeepsUnused(start + k, SlotsAfter(start, ttis[..k]), ttis[k]);
    }
  }

  lemma OnlyParked(p: seq<UlAlloc>, news: seq<UlAlloc>)
    requires |p| <= 1 && forall k :: 0 <= k < |p| ==> p[k].kind.Msg3?
    requires forall k :: 0 <= k < |news| ==> news[k].kind.NewTx?
    ensures Msg3s(p + news) == p
  {
    Msg3sAppend(p, news);
    NoMsg3s(news);
    if p != [] { assert p[..0] == []; }
  }
}
