/** What becomes of the Msg3 of an answered detection, over whole runs of the carrier: when it is parked, when
    it is delivered, and a run in which it is lost. */
module Msg3Fate {
  import opened Timing
  import opened Table
  import opened Options
  import opened DlSpec
  import opened DlRuns
  import opened DownlinkSafety
  import opened Sharing
  import opened UlSpec
  import opened Msg3Runs
  import opened CellSpec
  import opened CellRuns
  import opened UlRuns

  // ---------------------------------------------------------------- what a pass parks

  /** Subframe i of the Msg3 block that follows a RAR with its DCI in `tx`: 13 after the RAR's data. */
  function Msg3Slot(tx: nat, i: nat): (a: nat)
    ensures a < RING
  {
    At(0, tx + RarDataOffset(At(0, tx)) + 13 + i)
  }

  predicate Msg3Free(ul: Table, tx: nat) {
    forall i :: 0 <= i < UL_LEN ==> !ul[Msg3Slot(tx, i)]
  }

  /** The pass completes the answer of a RAR to a known user whose four uplink subframes are free. */
  predicate OwesMsg3(c: Cell)
    requires CellOk(c)
  {
    && DlOf(c).rarDone && DlOf(c).rar.Some? && DlOf(c).rar.value.grant.rnti in c.ues
    && Msg3Free(c.ul, c.now + DL_DELAY)
  }

  function Msg3Of(c: Cell): seq<UlAlloc>
    requires CellOk(c)
  {
    if OwesMsg3(c) then [UlAlloc(Msg3, DlOf(c).rar.value.grant.rnti, 0, UL_LEN)] else []
  }

  lemma ParkOne(ul: Table, ttiRx: nat, rar: Option<RarAlloc>, users: set<nat>)
    ensures ParkAll(ul, [], ttiRx, RarList(rar), users).allocs
            == if rar.Some? && rar.value.grant.rnti in users && FreeRun(ul, Msg3Start(ttiRx), UL_LEN)
               then [UlAlloc(Msg3, rar.value.grant.rnti, 0, UL_LEN)] else []
  {
    hide Msg3Start, FreeRun, Reserve;
    if rar.Some? {
      assert RarList(rar)[..0] == [];
      assert ParkAll(ul, [], ttiRx, [], users).allocs == [];
    }
  }

  lemma ParkSlotEmpty(start: nat, ttis: seq<Tti>, slots: Slots)
    requires RingInv(start, ttis, slots)
    ensures var at := At(0, start + |ttis|) + MSG3_DELAY; Bind(slots, at)[Index(at)].ul == []
  {
    hide At, Index, ParkedFor;
    var n := start + |ttis|;
    IndexOfTti(n);
    assert Foreign(slots[Index(n + MSG3_DELAY)], n + MSG3_DELAY);
  }

  lemma Msg3RunFree(c: Cell)
    ensures FreeRun(c.ul, Msg3Start(TtiOf(c) + MSG3_DELAY), UL_LEN) <==> Msg3Free(c.ul, c.now + DL_DELAY)
  {
    hide At, Msg3Start, RarDataOffset;
    var tx := c.now + DL_DELAY;
    Msg3FollowsRar(tx);
    var start := Msg3Start(TtiOf(c) + MSG3_DELAY);
    forall i: nat | i < UL_LEN ensures Msg3Slot(tx, i) == At(start, i) {}
    hide Msg3Slot;
    if FreeRun(c.ul, start, UL_LEN) {
      forall i | 0 <= i < UL_LEN ensures !c.ul[Msg3Slot(tx, i)] { assert !c.ul[At(start, i)]; }
    }
    if Msg3Free(c.ul, tx) {
      forall i | 0 <= i < UL_LEN ensures !c.ul[At(start, i)] { assert !c.ul[Msg3Slot(tx, i)]; }
    }
  }

  /** In every run a pass parks exactly that user's Msg3. */
  lemma ParkedExactly(events: seq<Event>)
    ensures ParkOf(CellAfter(events)).allocs == Msg3Of(CellAfter(events))
  {
    hide CellAfter, Ttis, ParkOf, Msg3Of, RingInv, SlotsAfter, CellOk, TtiOk;
    CellIsSlotRun(events);
    RunKeepsInv(RING - DL_DELAY, Ttis(events));
    ParkedAs(CellAfter(events), Ttis(events));
  }

  lemma ParkedAs(c: Cell, ttis: seq<Tti>)
    requires CellOk(c) && RingInv(RING - DL_DELAY, ttis, c.slots) && c.now == RING - DL_DELAY + |ttis|
    ensures ParkOf(c).allocs == Msg3Of(c)
  {
    hide DlOf, RingInv, At, Index, Bind, Msg3Start, FreeRun, ParkAll, ParkedIn, Msg3Free, CellOk;
    ParkedInEmpty(c.ul, TtiOf(c), RarList(DlOf(c).rar), c.ues.Keys);
    ParkSlotEmpty(RING - DL_DELAY, ttis, c.slots);
    ParkOne(c.ul, TtiOf(c) + MSG3_DELAY, DlOf(c).rar, c.ues.Keys);
    Msg3RunFree(c);
    DoneHasRar(c);
  }

  lemma ParkedInEmpty(ul: Table, ttiRx: nat, rars: seq<RarAlloc>, users: set<nat>)
    ensures ParkedIn([], ul, ttiRx, rars, users).allocs == ParkAll(ul, [], ttiRx + MSG3_DELAY, rars, users).allocs
  {
    hide ParkAll;
  }

  lemma DoneHasRar(c: Cell)
    requires CellOk(c)
    ensures DlOf(c).rarDone ==> DlOf(c).rar.Some?
  {
    hide AfterBc, BcPart, UserPart, Reqs, RarCanStart;
  }

  // ---------------------------------------------------------------- nine passes later

  lemma {:induction false} TtisAt(events: seq<Event>, i: nat, j: nat)
    requires i < j <= |events| && events[i].Pass?
    ensures var n := |Ttis(events[..i])|;
            n < |Ttis(events[..j])| && Ttis(events[..j])[n] == TtiDone(CellAfter(events[..i]))
    decreases j
  {
    hide TtiDone, CellAfter;
    assert events[..j][..j - 1] == events[..j - 1];
    if i < j - 1 { TtisAt(events, i, j - 1); }
  }

  lemma Msg3sOfPass(events: seq<Event>)
    ensures Msg3s(UlOf(CellAfter(events)).allocs) == Arriving(Ttis(events), CellAfter(events).now)
  {
    hide CellAfter, Arriving, Ttis, DlOf, UlStart, UlOrder, VisitsUl, TtiOf, Msg3s;
    var c := CellAfter(events);
    StartIsParked(events);
    UlVisitsExtend(DlOf(c).next.table, UlStart(c), TtiOf(c), UlOrder(c));
    var a, n := UlOf(c).allocs, |UlStart(c).allocs|;
    assert a == a[..n] + a[n..];
    OnlyParked(a[..n], a[n..]);
  }

  /** In every run, the Msg3s of a pass's uplink result are exactly the one that the pass nine TTIs before owed,
      unless that one was among the last nine of a hyperframe; then it is lost. */
  lemma Msg3Exactly(events: seq<Event>, i: nat, j: nat)
    requires i < j < |events| && events[i].Pass?
    requires CellAfter(events[..j]).now == CellAfter(events[..i]).now + MSG3_DELAY
    ensures var c := CellAfter(events[..i]);
            Msg3s(UlOf(CellAfter(events[..j])).allocs) == if At(0, c.now) + MSG3_DELAY < RING then Msg3Of(c) else []
  {
    hide CellAfter, Ttis, UlOf, Msg3s, Msg3Of, ParkOf, SlotsAfter, TtiOk, At, DlOf, UlStart;
    CellIsSlotRun(events[..i]);
    CellIsSlotRun(events[..j]);
    TtisAt(events, i, j);
    Msg3sOfPass(events[..j]);
    ParkedExactly(events[..i]);
  }

  /** The passes of the first nine TTIs have none. */
  lemma NoEarlyMsg3(events: seq<Event>)
    requires CellAfter(events).now < RING - DL_DELAY + MSG3_DELAY
    ensures Msg3s(UlOf(CellAfter(events)).allocs) == []
  {
    hide CellAfter, Ttis, UlOf, Msg3s, At, Delivered;
    Msg3sOfPass(events);
  }

  // ---------------------------------------------------------------- when one is lost

  /** A Msg3 is lost exactly when its RAR's DCI is in subframe 2 or 3 of a hyperframe, and in every run that
      happens only because user data has taken the start of SIB2 in subframe 1. */
  lemma LostExactly(events: seq<Event>)
    requires DlOf(CellAfter(events)).rarDone
    ensures var c := CellAfter(events); var s, i := Run(Inputs(events)), At(0, c.now + DL_DELAY);
            && (At(0, c.now) + MSG3_DELAY >= RING <==> i == 2 || i == 3)
            && (i == 2 || i == 3 ==>
                 exists k :: 0 <= k < |s.log| && s.log[k].at == c.now + DL_DELAY - (i - 1) && s.log[k].owner.UserData?)
  {
    hide CellAfter, Inputs, Run, At, Reached, PassOf, DlOf, Reqs, CellOk;
    var c := CellAfter(events);
    var inp := Input(PendingRach(events), Reqs(c));
    CellIsRun(events);
    PassIsPassOf(c, Run(Inputs(events)), PendingRach(events));
    ReachedExactly(Run(Inputs(events)));
    LastNine(c.now);
    if At(0, c.now) + MSG3_DELAY >= RING { LateRarNeedsBlockedSib2(Run(Inputs(events)), inp); }
  }

  lemma PassIsPassOf(c: Cell, s: Sys, pending: seq<RarInfo>)
    requires CellOk(c) && Matches(c, s, pending)
    ensures DlOf(c) == PassOf(s, Input(pending, Reqs(c)))
  {
    hide DlPass, AddRach, Reqs, CellOk;
  }

  lemma LastNine(now: nat)
    ensures At(0, now + 4) == 2 || At(0, now + 4) == 3 ==> At(0, now) + MSG3_DELAY >= RING
  {
    var q := now / RING;
    assert now == RING * q + At(0, now);
  }
}
