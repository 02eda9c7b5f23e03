/** Blocks of four uplink subframes: a grant for new data tests and marks the first one only, so blocks can
    overlap. Here is exactly when they do, in every run of the carrier. */
module UplinkBlocks {
  import opened Timing
  import opened Table
  import opened Options
  import opened DlSpec
  import opened DlRuns
  import opened SchedulerUe
  import opened UlSpec
  import opened Msg3Runs
  import opened CellSpec
  import opened CellRuns
  import opened UlRuns
  import opened Msg3Fate
  import opened UplinkSafety

  /** What a pass may reserve. */
  predicate ShapeOk(h: UlHold) {
    match h.owner
    case Msg3Block => Msg3At(h.pass, 0) <= h.at <= Msg3At(h.pass, 3)
    case NewTxStart => h.at == h.pass + UL_DELAY && (h.pass + DL_DELAY) % 8 < 2
    case NewTxDci => h.at == h.pass + DL_DELAY
  }

  /** A Msg3 block is in the log as a whole. */
  ghost predicate WholeMsg3(log: seq<UlHold>, h: UlHold) {
    h.owner.Msg3Block? ==> forall i: nat :: i < UL_LEN ==> UlHold(Msg3At(h.pass, i), Msg3Block, h.pass) in log
  }

  ghost predicate LogShape(now: nat, log: seq<UlHold>) {
    && (forall k :: 0 <= k < |log| ==> ShapeOk(log[k]) && log[k].pass < now && WholeMsg3(log, log[k]))
    && forall j, k :: 0 <= j < k < |log| && log[j].owner == log[k].owner != Msg3Block ==> log[j].pass < log[k].pass
  }

  lemma Msg3Shape(now: nat)
    ensures var m := Msg3Holds(now); forall k :: 0 <= k < |m| ==> ShapeOk(m[k]) && m[k].pass == now && WholeMsg3(m, m[k])
  {
    hide At, RarDataOffset;
    var m := Msg3Holds(now);
    forall i: nat | i < UL_LEN ensures UlHold(Msg3At(now, i), Msg3Block, now) in m {
      assert m[i] == UlHold(Msg3At(now, i), Msg3Block, now);
    }
  }

  lemma WholeMsg3More(a: seq<UlHold>, b: seq<UlHold>, h: UlHold)
    requires WholeMsg3(a, h) || WholeMsg3(b, h)
    ensures WholeMsg3(a + b, h)
  {
    hide Msg3At;
  }

  lemma GrantPlace(c: Cell)
    requires CellOk(c) && GrantsNewTx(c)
    ensures (c.now + DL_DELAY) % 8 < 2
  {
    hide DlOf, ParkOf, UesMid, SlotsMid, VisitsUl, TtiAdd, RoundRobin, CellOk, Index, At;
    VisitsTable(DlOf(c).next.table, UlStart(c), TtiOf(c), UlOrder(c));
    TxIndex(c.now);
    EightOfRing(c.now + DL_DELAY);
  }

  lemma EightOfRing(a: nat)
    ensures At(0, a) % 8 == a % 8
  {
    RingMod8(a);
  }

  lemma PassShape(c: Cell)
    requires CellOk(c)
    ensures var m := HoldsOf(c);
            && (forall k :: 0 <= k < |m| ==> ShapeOk(m[k]) && m[k].pass == c.now && WholeMsg3(m, m[k]))
            && forall j, k :: 0 <= j < k < |m| ==> !(m[j].owner == m[k].owner != Msg3Block)
  {
    hide OwesMsg3, UlOf, UlStart, Msg3At, CellOk, ShapeOk, GrantsNewTx;
    var a := if OwesMsg3(c) then Msg3Holds(c.now) else [];
    var b := if GrantsNewTx(c) then NewTxHolds(c.now) else [];
    Msg3Shape(c.now);
    assert forall k :: 0 <= k < |a| ==> a[k].owner.Msg3Block?;
    forall k | 0 <= k < |a + b| ensures ShapeOk((a + b)[k]) && (a + b)[k].pass == c.now && WholeMsg3(a + b, (a + b)[k]) {
      if k < |a| {
        WholeMsg3More(a, b, a[k]);
      } else {
        GrantPlace(c);
        NewTxShape(c.now);
      }
    }
  }

  lemma NewTxShape(now: nat)
    requires (now + DL_DELAY) % 8 < 2
    ensures ShapeOk(NewTxHolds(now)[0]) && ShapeOk(NewTxHolds(now)[1])
  {
  }

  lemma {:induction false} LogHasShape(events: seq<Event>)
    ensures LogShape(CellAfter(events).now, UlLog(events))
  {
    hide CellStep, HoldsOf, CellOk, ShapeOk, WholeMsg3, Msg3At;
    if events != [] {
      var n := |events| - 1;
      var c, log := CellAfter(events[..n]), UlLog(events[..n]);
      LogHasShape(events[..n]);
      if events[n].Pass? {
        PassGives(c);
        PassShape(c);
        ShapeAppend(c.now, log, HoldsOf(c));
      } else {
        OtherKeeps(c, events[n]);
        assert UlLog(events) == log;
      }
    }
  }

  lemma ShapeAppend(now: nat, log: seq<UlHold>, m: seq<UlHold>)
    requires LogShape(now, log)
    requires forall k :: 0 <= k < |m| ==> ShapeOk(m[k]) && m[k].pass == now && WholeMsg3(m, m[k])
    requires forall j, k :: 0 <= j < k < |m| ==> !(m[j].owner == m[k].owner != Msg3Block)
    ensures LogShape(now + 1, log + m)
  {
    hide ShapeOk, WholeMsg3;
    var l := log + m;
    forall k | 0 <= k < |l| ensures ShapeOk(l[k]) && l[k].pass < now + 1 && WholeMsg3(l, l[k]) {
      if k < |log| { WholeMsg3More(log, m, log[k]); } else { WholeMsg3More(log, m, m[k - |log|]); }
    }
    forall j, k | 0 <= j < k < |l| && l[j].owner == l[k].owner != Msg3Block ensures l[j].pass < l[k].pass {}
  }

  // ---------------------------------------------------------------- who overlaps whom

  /** The block of four subframes from `a` on. */
  predicate InBlock(a: nat, x: nat) {
    a <= x < a + UL_LEN
  }

  ghost predicate Overlap(a: nat, b: nat) {
    exists x: nat :: InBlock(a, x) && InBlock(b, x)
  }

  lemma OverlapMeans(a: nat, b: nat)
    ensures Overlap(a, b) <==> a < b + UL_LEN && b < a + UL_LEN
  {
    if a < b + UL_LEN && b < a + UL_LEN {
      var x := if a < b then b else a;
      assert InBlock(a, x) && InBlock(b, x);
    }
  }

  /** Two blocks of new data overlap exactly when they were granted in consecutive TTIs. */
  lemma NewDataOverlapsExactly(events: seq<Event>, j: nat, k: nat)
    requires j < k < |UlLog(events)| && UlLog(events)[j].owner.NewTxStart? && UlLog(events)[k].owner.NewTxStart?
    ensures Overlap(UlLog(events)[j].at, UlLog(events)[k].at) <==> UlLog(events)[k].pass == UlLog(events)[j].pass + 1
  {
    hide CellAfter, UlLog, Overlap, WholeMsg3, Msg3At;
    LogHasShape(events);
    var r, s := UlLog(events)[j], UlLog(events)[k];
    assert ShapeOk(r) && ShapeOk(s);
    OverlapMeans(r.at, s.at);
    WindowsApart(r.pass + DL_DELAY, s.pass + DL_DELAY);
  }

  lemma WindowsApart(a: nat, b: nat)
    requires a < b && a % 8 < 2 && b % 8 < 2
    ensures b < a + 4 <==> b == a + 1
  {
  }

  /** A Msg3 and a block of new data overlap exactly when the pass of the grant comes one to three subframes
      later than the distance between the RAR's DCI and its data after the pass of the RAR. */
  lemma Msg3OverlapsExactly(events: seq<Event>, j: nat, k: nat)
    requires j < |UlLog(events)| && k < |UlLog(events)| && UlLog(events)[j].owner.Msg3Block? && UlLog(events)[k].owner.NewTxStart?
    ensures var p, q := UlLog(events)[j].pass, UlLog(events)[k].pass; var off := RarDataOffset(At(0, p + DL_DELAY));
            Overlap(Msg3At(p, 0), UlLog(events)[k].at) <==> p + off + 1 <= q <= p + off + 3
  {
    hide CellAfter, UlLog, Overlap, RarDataOffset, At, WholeMsg3;
    LogHasShape(events);
    var r, s := UlLog(events)[j], UlLog(events)[k];
    assert ShapeOk(s) && WholeMsg3(UlLog(events), r);
    OverlapMeans(Msg3At(r.pass, 0), s.at);
    forall i: nat | i < UL_LEN ensures s.at != Msg3At(r.pass, i) { StartMissesMsg3(events, r, k, i); }
    assert s.at != Msg3At(r.pass, 0) && s.at != Msg3At(r.pass, 1) && s.at != Msg3At(r.pass, 2) && s.at != Msg3At(r.pass, 3);
  }

  lemma StartMissesMsg3(events: seq<Event>, r: UlHold, k: nat, i: nat)
    requires k < |UlLog(events)| && UlLog(events)[k].owner.NewTxStart? && i < UL_LEN
    requires r.owner.Msg3Block? && WholeMsg3(UlLog(events), r)
    ensures UlLog(events)[k].at != Msg3At(r.pass, i)
  {
    hide CellAfter, UlLog, Msg3At;
    assert UlHold(Msg3At(r.pass, i), Msg3Block, r.pass) in UlLog(events);
    var m :| 0 <= m < |UlLog(events)| && UlLog(events)[m] == UlHold(Msg3At(r.pass, i), Msg3Block, r.pass);
    if UlLog(events)[k].at == Msg3At(r.pass, i) {
      if m < k { NoUplinkDoubleBooking(events, m, k); } else { NoUplinkDoubleBooking(events, k, m); }
    }
  }

  // ---------------------------------------------------------------- the mark at the time of the DCI

  /** Exactly when two uplink reservations share a subframe: the later one is the mark that a grant for new data
      leaves at the time of its DCI, and the earlier one is the start of the block granted nine passes before,
      or a Msg3 subframe at that time. */
  lemma UplinkSharesExactly(events: seq<Event>, j: nat, k: nat)
    requires j < k < |UlLog(events)|
    ensures var r, s := UlLog(events)[j], UlLog(events)[k];
            r.at == s.at <==> && s.owner.NewTxDci?
                              && ((r.owner.NewTxStart? && s.pass == r.pass + 9)
                                  || (r.owner.Msg3Block? && s.pass + DL_DELAY == r.at))
  {
    hide CellAfter, UlLog, WholeMsg3, Msg3At;
    LogHasShape(events);
    var r, s := UlLog(events)[j], UlLog(events)[k];
    assert ShapeOk(r) && ShapeOk(s);
    if r.at == s.at { NoUplinkDoubleBooking(events, j, k); }
  }

  /** The mark of a grant falls into a Msg3 block exactly when its pass comes 13 to 16 subframes later than the
      RAR's data offset after the RAR's pass. */
  lemma DciMarkInMsg3Exactly(events: seq<Event>, j: nat, k: nat)
    requires j < |UlLog(events)| && k < |UlLog(events)| && UlLog(events)[j].owner.Msg3Block? && UlLog(events)[k].owner.NewTxDci?
    ensures var p, q := UlLog(events)[j].pass, UlLog(events)[k].pass; var off := RarDataOffset(At(0, p + DL_DELAY));
            InBlock(Msg3At(p, 0), UlLog(events)[k].at) <==> p + off + 13 <= q <= p + off + 16
  {
    hide CellAfter, UlLog, RarDataOffset, At, WholeMsg3;
    LogHasShape(events);
    assert ShapeOk(UlLog(events)[k]);
  }

  /** Whether something other than such a mark holds subframe `a`. */
  ghost predicate TakenByBlock(log: seq<UlHold>, a: nat) {
    exists k :: 0 <= k < |log| && log[k].at == a && !log[k].owner.NewTxDci?
  }

  /** No mark lies as far ahead as a pass looks. */
  lemma MarksAreBehind(events: seq<Event>, a: nat)
    requires CellAfter(events).now + UL_DELAY <= a
    ensures UlHeld(UlLog(events), a) <==> TakenByBlock(UlLog(events), a)
  {
    hide CellAfter, UlLog, WholeMsg3, Msg3At;
    LogHasShape(events);
    forall k | 0 <= k < |UlLog(events)| && UlLog(events)[k].owner.NewTxDci? ensures UlLog(events)[k].at < a {
      assert ShapeOk(UlLog(events)[k]);
    }
  }

  /** The mark refuses nobody. In every run a grant for new data finds its start taken exactly when a Msg3 or the
      start of another grant holds it. */
  lemma StartTakenExactly(events: seq<Event>)
    ensures var c := CellAfter(events);
            UlStart(c).ul[TtiAdd(TtiOf(c), UL_DELAY)] <==> TakenByBlock(UlLog(events), c.now + UL_DELAY)
  {
    hide CellAfter, UlLog, At, Ttis, SlotsAfter, RingInv, TtiOk, DlOf, ParkOf, UesMid, SlotsMid, OwesMsg3, TtiAdd, TakenByBlock;
    var c := CellAfter(events);
    CellIsSlotRun(events);
    RunKeepsInv(RING - DL_DELAY, Ttis(events));
    UlRunInv(events);
    ParkKeeps(c, Ttis(events), UlLog(events));
    var m := if OwesMsg3(c) then Msg3Holds(c.now) else [];
    UlIndex(c.now);
    AtInjective(0, c.now, c.now + UL_DELAY);
    assert ParkOf(c).ul[At(0, c.now + UL_DELAY)] <==> UlHeld(UlLog(events) + m, c.now + UL_DELAY);
    UlHeldAppend(UlLog(events), m, c.now + UL_DELAY);
    assert !UlHeld(m, c.now + UL_DELAY);
    MarksAreBehind(events, c.now + UL_DELAY);
  }

  /** And a Msg3 finds one of its four subframes taken exactly when another Msg3 or the start of a grant holds
      one. */
  lemma Msg3TakenExactly(events: seq<Event>)
    ensures var c := CellAfter(events);
            !Msg3Free(c.ul, c.now + DL_DELAY) <==> exists i: nat :: i < UL_LEN && TakenByBlock(UlLog(events), Msg3At(c.now, i))
  {
    hide CellAfter, UlLog, At, TakenByBlock, Msg3Slot, Msg3At;
    var now, ul := CellAfter(events).now, CellAfter(events).ul;
    var tx := now + DL_DELAY;
    if !Msg3Free(ul, tx) {
      var i :| 0 <= i < UL_LEN && ul[Msg3Slot(tx, i)];
      Msg3SlotTaken(events, i);
    }
    if i: nat :| i < UL_LEN && TakenByBlock(UlLog(events), Msg3At(now, i)) {
      Msg3SlotTaken(events, i);
      assert ul[Msg3Slot(tx, i)];
    }
  }

  lemma Msg3SlotTaken(events: seq<Event>, i: nat)
    requires i < UL_LEN
    ensures var c := CellAfter(events); c.ul[Msg3Slot(c.now + DL_DELAY, i)] <==> TakenByBlock(UlLog(events), Msg3At(c.now, i))
  {
    hide CellAfter, UlLog, At, TakenByBlock, RarDataOffset;
    var c := CellAfter(events);
    UlRunInv(events);
    assert Msg3Slot(c.now + DL_DELAY, i) == At(0, Msg3At(c.now, i));
    assert c.ul[At(0, Msg3At(c.now, i))] <==> UlHeld(UlLog(events), Msg3At(c.now, i));
    MarksAreBehind(events, Msg3At(c.now, i));
  }
}
