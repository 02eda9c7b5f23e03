/** The uplink ring over whole runs of the carrier: it stands for a set of absolute times, and nothing is put
    on a subframe that is taken, except the mark that a grant for new data makes at its DCI's time. */
module UplinkSafety {
  import opened Timing
  import opened Table
  import opened Options
  import opened DlSpec
  import opened DlRuns
  import opened SchedulerUe
  import opened UlSpec
  import opened Msg3Runs
  import opened CellSpec
  import opened CellRuns
  import opened UlRuns
  import opened Msg3Fate

  datatype UlOwner = Msg3Block | NewTxStart | NewTxDci

  /** An uplink subframe of absolute time `at`, reserved by the pass of time `pass`. */
  datatype UlHold = UlHold(at: nat, owner: UlOwner, pass: nat)

  /** Subframe i of the Msg3 that the pass of time `now` parks. */
  function Msg3At(now: nat, i: nat): (a: nat)
    ensures i < UL_LEN ==> now + 22 <= a <= now + 27
  {
    now + DL_DELAY + RarDataOffset(At(0, now + DL_DELAY)) + 13 + i
  }

  function Msg3Holds(now: nat): (r: seq<UlHold>)
    ensures |r| == UL_LEN
  {
    seq(UL_LEN, i requires 0 <= i < UL_LEN => UlHold(Msg3At(now, i), Msg3Block, now))
  }

  function NewTxHolds(now: nat): (r: seq<UlHold>)
    ensures |r| == 2
  {
    [UlHold(now + UL_DELAY, NewTxStart, now), UlHold(now + DL_DELAY, NewTxDci, now)]
  }

  /** Whether the uplink pass grants a block for new data. */
  predicate GrantsNewTx(c: Cell)
    requires CellOk(c)
  {
    |UlOf(c).allocs| > |UlStart(c).allocs|
  }

  /** What the two passes of a TTI reserve, in order. */
  function HoldsOf(c: Cell): seq<UlHold>
    requires CellOk(c)
  {
    (if OwesMsg3(c) then Msg3Holds(c.now) else []) + (if GrantsNewTx(c) then NewTxHolds(c.now) else [])
  }

  /** Every uplink reservation of a run, oldest first. */
  function UlLog(events: seq<Event>): seq<UlHold> {
    if events == [] then []
    else
      var n := |events| - 1;
      UlLog(events[..n]) + if events[n].Pass? then HoldsOf(CellAfter(events[..n])) else []
  }

  ghost predicate UlHeld(log: seq<UlHold>, a: nat) {
    exists k :: 0 <= k < |log| && log[k].at == a
  }

  /** The table is the log, read modulo the ring: from `now` on, for one turn. */
  ghost predicate UlExact(t: Table, now: nat, log: seq<UlHold>) {
    forall a :: now <= a < now + RING ==> (t[At(0, a)] <==> UlHeld(log, a))
  }

  predicate UlCompatible(r: UlHold, s: UlHold) {
    r.at == s.at ==> s.owner.NewTxDci?
  }

  ghost predicate UlInv(t: Table, now: nat, log: seq<UlHold>) {
    && UlExact(t, now, log)
    && (forall k :: 0 <= k < |log| ==> log[k].at < now + 28)
    && forall j, k :: 0 <= j < k < |log| ==> UlCompatible(log[j], log[k])
  }

  // ---------------------------------------------------------------- the table follows the log

  lemma UlHeldAppend(log: seq<UlHold>, more: seq<UlHold>, a: nat)
    ensures UlHeld(log + more, a) <==> UlHeld(log, a) || UlHeld(more, a)
  {
    if UlHeld(log, a) {
      var k :| 0 <= k < |log| && log[k].at == a;
      assert (log + more)[k].at == a;
    }
    if UlHeld(more, a) {
      var k :| 0 <= k < |more| && more[k].at == a;
      assert (log + more)[|log| + k].at == a;
    }
  }

  /** One more subframe is taken: free before, or the mark of a grant. */
  lemma TakeOne(t: Table, now: nat, log: seq<UlHold>, h: UlHold)
    requires UlInv(t, now, log) && now <= h.at < now + 28 && (t[At(0, h.at)] ==> h.owner.NewTxDci?)
    ensures UlInv(t[At(0, h.at) := true], now, log + [h])
  {
    hide At;
    var u: Table := t[At(0, h.at) := true];
    forall a | now <= a < now + RING ensures u[At(0, a)] <==> UlHeld(log + [h], a) {
      UlHeldAppend(log, [h], a);
      assert [h][0] == h;
      if a < h.at { AtInjective(0, a, h.at); } else if h.at < a { AtInjective(0, h.at, a); }
    }
    assert t[At(0, h.at)] <==> UlHeld(log, h.at);
    forall j, k | 0 <= j < k < |log + [h]| ensures UlCompatible((log + [h])[j], (log + [h])[k]) {
      if k < |log| { assert UlCompatible(log[j], log[k]); }
    }
  }

  /** Giving the entry of the received subframe free loses no reservation that is still ahead. */
  lemma ClearOne(t: Table, now: nat, log: seq<UlHold>)
    requires UlInv(t, now, log)
    ensures UlInv(t[At(0, now) := false], now + 1, log)
  {
    hide At;
    forall a | now + 1 <= a < now + 1 + RING ensures t[At(0, now) := false][At(0, a)] <==> UlHeld(log, a) {
      if a < now + RING { AtInjective(0, now, a); } else { AtAt(0, now, RING); SameTurn(now); }
    }
  }

  lemma SameTurn(now: nat)
    ensures At(0, now + RING) == At(0, now)
  {
  }

  // ---------------------------------------------------------------- Msg3

  lemma ParkTable(ul: Table, ttiRx: nat, rar: Option<RarAlloc>, users: set<nat>)
    ensures ParkAll(ul, [], ttiRx, RarList(rar), users).ul
            == if rar.Some? && rar.value.grant.rnti in users && FreeRun(ul, Msg3Start(ttiRx), UL_LEN)
               then Reserve(ul, Msg3Start(ttiRx), Upto(UL_LEN)) else ul
  {
    hide Msg3Start, FreeRun, Reserve;
    if rar.Some? {
      assert RarList(rar)[..0] == [];
      assert ParkAll(ul, [], ttiRx, [], users) == UlOut(ul, [], Success);
    }
  }

  function Marked(ul: Table, now: nat, n: nat): Table
    requires n <= UL_LEN
  {
    if n == 0 then ul else Marked(ul, now, n - 1)[At(0, Msg3At(now, n - 1)) := true]
  }

  lemma {:induction false} ReserveIsMarked(ul: Table, now: nat, base: nat, n: nat)
    requires n <= UL_LEN && forall i :: 0 <= i < UL_LEN ==> At(base, i) == At(0, Msg3At(now, i))
    ensures Reserve(ul, base, Upto(n)) == Marked(ul, now, n)
  {
    hide At;
    if n > 0 {
      ReserveIsMarked(ul, now, base, n - 1);
      assert Upto(n)[..n - 1] == Upto(n - 1);
    }
  }

  /** The uplink table after the downlink pass. */
  lemma ParkedTable(c: Cell, ttis: seq<Tti>)
    requires CellOk(c) && RingInv(RING - DL_DELAY, ttis, c.slots) && c.now == RING - DL_DELAY + |ttis|
    ensures ParkOf(c).ul == if OwesMsg3(c) then Marked(c.ul, c.now, UL_LEN) else c.ul
  {
    hide DlOf, RingInv, At, Index, Bind, Msg3Start, FreeRun, ParkAll, Msg3Free, CellOk, Reserve, RarDataOffset;
    hide Marked;
    ParkSlotEmpty(RING - DL_DELAY, ttis, c.slots);
    ParkTable(c.ul, TtiOf(c) + MSG3_DELAY, DlOf(c).rar, c.ues.Keys);
    Msg3RunFree(c);
    DoneHasRar(c);
    Msg3FollowsRar(c.now + DL_DELAY);
    forall i: nat | i < UL_LEN ensures At(Msg3Start(TtiOf(c) + MSG3_DELAY), i) == At(0, Msg3At(c.now, i)) {}
    ReserveIsMarked(c.ul, c.now, Msg3Start(TtiOf(c) + MSG3_DELAY), UL_LEN);
  }

  lemma {:induction false} TakeMsg3(t: Table, now: nat, log: seq<UlHold>, n: nat)
    requires UlInv(t, now, log) && Msg3Free(t, now + DL_DELAY) && n <= UL_LEN
    ensures UlInv(Marked(t, now, n), now, log + Msg3Holds(now)[..n])
  {
    hide At, UlInv, RarDataOffset;
    if n == 0 {
      assert log + Msg3Holds(now)[..0] == log;
    } else {
      var h := Msg3Holds(now)[n - 1];
      TakeMsg3(t, now, log, n - 1);
      NextFree(t, now, log, n - 1);
      TakeOne(Marked(t, now, n - 1), now, log + Msg3Holds(now)[..n - 1], h);
      assert log + Msg3Holds(now)[..n] == (log + Msg3Holds(now)[..n - 1]) + [h];
    }
  }

  lemma NextFree(t: Table, now: nat, log: seq<UlHold>, n: nat)
    requires UlInv(t, now, log) && Msg3Free(t, now + DL_DELAY) && n < UL_LEN
    requires UlInv(Marked(t, now, n), now, log + Msg3Holds(now)[..n])
    ensures !Marked(t, now, n)[At(0, Msg3At(now, n))]
  {
    hide At, Marked, RarDataOffset;
    var a := Msg3At(now, n);
    assert !t[Msg3Slot(now + DL_DELAY, n)];
    assert t[At(0, a)] <==> UlHeld(log, a);
    UlHeldAppend(log, Msg3Holds(now)[..n], a);
    assert forall i :: 0 <= i < n ==> Msg3Holds(now)[..n][i].at < a;
  }

  // ---------------------------------------------------------------- grants for new data

  /** An uplink pass grants nobody, or one user, whose start was free. */
  lemma {:induction false} VisitsTable(dl: Table, v: UlVisit, ttiRx: nat, order: seq<nat>)
    requires UesOk(v.ues) && forall k :: 0 <= k < |order| ==> order[k] in v.ues
    ensures var w := VisitsUl(dl, v, ttiRx, order); var s, d := TtiAdd(ttiRx, UL_DELAY), TtiAdd(ttiRx, DL_DELAY);
            || (w.ul == v.ul && w.allocs == v.allocs)
            || (!v.ul[s] && w.ul == v.ul[s := true][d := true] && |w.allocs| == |v.allocs| + 1 && d % 8 < 2)
  {
    hide VisitUl, TtiAdd;
    if order != [] {
      var n := |order| - 1;
      VisitsTable(dl, v, ttiRx, order[..n]);
      VisitTable(dl, VisitsUl(dl, v, ttiRx, order[..n]), ttiRx, order[n]);
    }
  }

  lemma VisitTable(dl: Table, v: UlVisit, ttiRx: nat, r: nat)
    requires UesOk(v.ues) && r in v.ues
    ensures var w := VisitUl(dl, v, ttiRx, r); var s, d := TtiAdd(ttiRx, UL_DELAY), TtiAdd(ttiRx, DL_DELAY);
            || (w.ul == v.ul && w.allocs == v.allocs)
            || (!v.ul[s] && w.ul == v.ul[s := true][d := true] && |w.allocs| == |v.allocs| + 1 && d % 8 < 2)
  {
    hide TtiAdd, PendingUl, IsValidDlSf, ClearReports;
  }

  // ---------------------------------------------------------------- runs

  lemma UlPassKeeps(c: Cell, log: seq<UlHold>)
    requires CellOk(c) && UlInv(ParkOf(c).ul, c.now, log)
    ensures UlInv(UlOf(c).ul, c.now + 1, log + if GrantsNewTx(c) then NewTxHolds(c.now) else [])
  {
    hide At, DlOf, ParkOf, UesMid, SlotsMid, VisitsUl, UlInv, TtiAdd, RoundRobin, CellOk, Index;
    var t: Table := ParkOf(c).ul[TtiOf(c) := false];
    ClearOne(ParkOf(c).ul, c.now, log);
    VisitsTable(DlOf(c).next.table, UlStart(c), TtiOf(c), UlOrder(c));
    TxIndex(c.now);
    UlIndex(c.now);
    if GrantsNewTx(c) {
      var h := NewTxHolds(c.now);
      TakeOne(t, c.now + 1, log, h[0]);
      TakeOne(t[At(0, h[0].at) := true], c.now + 1, log + [h[0]], h[1]);
      assert log + h == (log + [h[0]]) + [h[1]];
    } else {
      assert log + [] == log;
    }
  }

  lemma UlIndex(now: nat)
    ensures TtiAdd(At(0, now), UL_DELAY) == At(0, now + UL_DELAY)
  {
    AtAt(0, now, UL_DELAY);
  }

  /** The table that the uplink pass starts from. */
  lemma ParkKeeps(c: Cell, ttis: seq<Tti>, log: seq<UlHold>)
    requires CellOk(c) && RingInv(RING - DL_DELAY, ttis, c.slots) && c.now == RING - DL_DELAY + |ttis|
    requires UlInv(c.ul, c.now, log)
    ensures UlInv(ParkOf(c).ul, c.now, log + if OwesMsg3(c) then Msg3Holds(c.now) else [])
  {
    hide DlOf, ParkOf, RingInv, UlInv, CellOk, Marked;
    ParkedTable(c, ttis);
    if OwesMsg3(c) {
      TakeMsg3(c.ul, c.now, log, UL_LEN);
      assert Msg3Holds(c.now)[..UL_LEN] == Msg3Holds(c.now);
    } else {
      assert log + [] == log;
    }
  }

  lemma PassKeeps(c: Cell, ttis: seq<Tti>, log: seq<UlHold>)
    requires CellOk(c) && RingInv(RING - DL_DELAY, ttis, c.slots) && c.now == RING - DL_DELAY + |ttis|
    requires UlInv(c.ul, c.now, log)
    ensures UlInv(UlOf(c).ul, c.now + 1, log + HoldsOf(c))
  {
    hide DlOf, ParkOf, UlOf, UlStart, RingInv, UlInv, CellOk, OwesMsg3;
    var m := if OwesMsg3(c) then Msg3Holds(c.now) else [];
    ParkKeeps(c, ttis, log);
    UlPassKeeps(c, log + m);
    assert log + HoldsOf(c) == (log + m) + if GrantsNewTx(c) then NewTxHolds(c.now) else [];
  }

  lemma {:induction false} UlRunInv(events: seq<Event>)
    ensures UlInv(CellAfter(events).ul, CellAfter(events).now, UlLog(events))
  {
    hide CellStep, UlInv, HoldsOf, CellOk, Ttis, SlotsAfter, RingInv, TtiOk;
    if events == [] {
      UlInitInv();
    } else {
      var n := |events| - 1;
      var c := CellAfter(events[..n]);
      UlRunInv(events[..n]);
      if events[n].Pass? {
        CellIsSlotRun(events[..n]);
        RunKeepsInv(RING - DL_DELAY, Ttis(events[..n]));
        PassKeeps(c, Ttis(events[..n]), UlLog(events[..n]));
        PassGives(c);
      } else {
        OtherKeeps(c, events[n]);
        assert UlLog(events) == UlLog(events[..n]);
      }
    }
  }

  lemma UlInitInv()
    ensures UlInv(Init().ul, Init().now, [])
  {
  }

  /** In every run, at every time ahead within one turn, the uplink entry is set exactly when a reservation for
      that time has been made; all are less than 28 subframes ahead, so clearing loses none. */
  lemma UplinkRingIsExact(events: seq<Event>, a: nat)
    requires CellAfter(events).now <= a < CellAfter(events).now + RING
    ensures CellAfter(events).ul[At(0, a)] <==> exists k :: 0 <= k < |UlLog(events)| && UlLog(events)[k].at == a
    ensures forall k :: 0 <= k < |UlLog(events)| ==> UlLog(events)[k].at < CellAfter(events).now + 28
  {
    hide CellAfter, UlLog, At;
    UlRunInv(events);
    assert CellAfter(events).ul[At(0, a)] <==> UlHeld(UlLog(events), a);
  }

  /** Two reservations share an uplink subframe only when the later one is the mark that a grant for new data
      leaves at the time of its DCI. So no two Msg3 blocks meet, and no start of new data meets a Msg3. */
  lemma NoUplinkDoubleBooking(events: seq<Event>, j: nat, k: nat)
    requires j < k < |UlLog(events)| && UlLog(events)[j].at == UlLog(events)[k].at
    ensures UlLog(events)[k].owner.NewTxDci?
  {
    hide CellAfter, UlLog, UlExact;
    UlRunInv(events);
    assert UlCompatible(UlLog(events)[j], UlLog(events)[k]);
  }
}
