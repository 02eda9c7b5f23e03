/** Runs of the whole carrier: any sequence of detections, user configuration, buffer reports and TTIs,
    each TTI a downlink pass followed by an uplink pass. The runs of downlink passes and of slots are
    projections of these. */
module CellRuns {
  import opened Timing
  import opened Table
  import opened DlSpec
  import opened DlRuns
  import opened Packing
  import opened Estimate
  import opened SchedulerUe
  import opened UlSpec
  import opened Msg3Runs
  import opened CellSpec

  /** `now` is the absolute reception time of the next TTI. */
  datatype Cell = Cell(now: nat, dl: DlState, ul: Table, slots: Slots, ues: map<nat, UeState>, order: seq<nat>)

  ghost predicate CellOk(c: Cell) {
    UesOk(c.ues) && Ascending(c.order) && forall r :: r in c.order <==> r in c.ues
  }

  type Bearers = d: seq<Direction> | |d| == MAX_LC witness seq(MAX_LC, _ => Idle)
  type SfIndex = i: nat | i < 8

  /** What the layers around the scheduler do to a user's record between passes. `Serve` stands for the
      generation of a downlink result, which empties queues; the wait time is 30 wherever it is set. */
  datatype Change =
    | DlBuffer(lcid: nat, tx: nat, retx: nat)
    | MacBuffer(ce: Ce, n: nat)
    | UlBuffer(lcid: nat, bsr: nat, setValue: bool)
    | Wait
    | Sr(on: bool)
    | Serve(iSf: SfIndex)

  function Changed(ue: UeState, change: Change): (r: UeState)
    requires |ue.lch| == MAX_LC
    ensures r.rnti == ue.rnti && |r.lch| == MAX_LC && (r.timer == ue.timer || r.timer == 30)
  {
    match change
    case DlBuffer(lcid, tx, retx) =>
      if lcid < MAX_LC then ue.(lch := ue.lch[lcid := ue.lch[lcid].(bufTx := tx, bufRetx := retx)]) else ue
    case MacBuffer(ce, n) => ue.(ces := WithCes(ue.ces, ce, n))
    case UlBuffer(lcid, bsr, setValue) =>
      if lcid < MAX_LC then ue.(lch := ue.lch[lcid := ue.lch[lcid].(bsr := if setValue then bsr else ue.lch[lcid].bsr + bsr)])
      else ue
    case Wait => ue.(timer := 30)
    case Sr(on) => ue.(sr := on)
    case Serve(iSf) => FormatN1(ue, iSf).ue
  }

  /** Serving a record does not show in the uplink: its reports, its scheduling request and its wait stay. */
  lemma ServeKeepsUplink(ue: UeState, iSf: SfIndex)
    requires |ue.lch| == MAX_LC
    ensures var r := Changed(ue, Serve(iSf)); PendingUl(r) == PendingUl(ue) && r.timer == ue.timer && r.rnti == ue.rnti
  {
    hide Sweep, PickMcs, CesThatFit, Requested, TbsBytes, CeTotal, UlBytes;
    SameReports(ue.lch, Changed(ue, Serve(iSf)).lch, 0);
  }

  lemma {:induction false} SameReports(a: seq<Bearer>, b: seq<Bearer>, i: nat)
    requires SameBearers(a, b) && i <= |a|
    ensures UlBytes(a, i) == UlBytes(b, i)
    decreases |a| - i
  {
    if i < |a| { SameReports(a, b, i + 1); }
  }

  datatype Event =
    | Rach(info: RarInfo)
    | Cfg(rnti: nat, dirs: Bearers)
    | Rem(rnti: nat)
    | Report(rnti: nat, change: Change)
    | Pass

  function Init(): Cell {
    Cell(RING - DL_DELAY, Start().dl, seq(RING, i => false), NoSlots(), map[], [])
  }

  // ---------------------------------------------------------------- one TTI

  function TtiOf(c: Cell): (t: nat)
    ensures t < RING
  {
    At(0, c.now)
  }

  function Reqs(c: Cell): seq<DlReq>
    requires CellOk(c)
  {
    Asks(c.ues, RoundRobin(c.order, TtiAdd(TtiOf(c), DL_DELAY)))
  }

  /** The downlink pass. */
  function DlOf(c: Cell): DlOut
    requires CellOk(c)
  {
    DlPass(c.dl, TtiOf(c), Reqs(c))
  }

  /** What it parks, and the uplink table with it. */
  function ParkOf(c: Cell): UlOut
    requires CellOk(c)
  {
    Parked(c.slots, c.ul, TtiOf(c), DlOf(c), c.ues.Keys)
  }

  function UesMid(c: Cell): (u: map<nat, UeState>)
    requires CellOk(c)
    ensures UesOk(u) && u.Keys == c.ues.Keys
  {
    GrantsOk(c.ues, DlOf(c).data);
    AfterGrants(c.ues, DlOf(c).data)
  }

  /** The slots when the uplink pass has turned to its own. */
  function SlotsMid(c: Cell): Slots
    requires CellOk(c)
  {
    Bind(AfterPass(c.slots, c.ul, TtiOf(c), DlOf(c), c.ues.Keys), TtiOf(c))
  }

  function UlStart(c: Cell): (v: UlVisit)
    requires CellOk(c)
    ensures UesOk(v.ues) && v.ues.Keys == c.ues.Keys
  {
    UlVisit(ParkOf(c).ul[TtiOf(c) := false], SlotsMid(c)[Index(TtiOf(c))].ul, UesMid(c))
  }

  function UlOrder(c: Cell): (o: seq<nat>)
    requires CellOk(c)
    ensures forall k :: 0 <= k < |o| ==> o[k] in c.ues
  {
    RoundRobin(c.order, TtiAdd(TtiOf(c), UL_DELAY))
  }

  /** The uplink pass. */
  function UlOf(c: Cell): (v: UlVisit)
    requires CellOk(c)
    ensures UesOk(v.ues) && v.ues.Keys == c.ues.Keys
  {
    VisitsUl(DlOf(c).next.table, UlStart(c), TtiOf(c), UlOrder(c))
  }

  function AfterBoth(c: Cell): (d: Cell)
    requires CellOk(c)
    ensures CellOk(d)
  {
    var i := Index(TtiOf(c));
    Cell(c.now + 1, DlOf(c).next, UlOf(c).ul, SlotsMid(c)[i := SlotsMid(c)[i].(ul := UlOf(c).allocs)], UlOf(c).ues, c.order)
  }

  /** A pass's grants keep the records in order; the granted users wait for 30 attempts. */
  lemma {:induction false} GrantsOk(ues: map<nat, UeState>, data: seq<DlAlloc>)
    requires UesOk(ues)
    ensures var u := AfterGrants(ues, data); UesOk(u) && u.Keys == ues.Keys
    ensures var u := AfterGrants(ues, data);
            forall r :: r in ues ==> u[r].timer == if HasAlloc(data, r) then 30 else ues[r].timer
  {
    if data != [] {
      var n := |data| - 1;
      GrantsOk(ues, data[..n]);
      forall r | r in ues ensures HasAlloc(data, r) <==> HasAlloc(data[..n], r) || data[n].rnti == r {
        HasAllocLast(data, r);
      }
    }
  }

  lemma HasAllocLast(data: seq<DlAlloc>, r: nat)
    requires data != []
    ensures HasAlloc(data, r) <==> HasAlloc(data[..|data| - 1], r) || data[|data| - 1].rnti == r
  {
    var n := |data| - 1;
    if HasAlloc(data, r) {
      var k :| 0 <= k < |data| && data[k].rnti == r;
      if k < n { assert data[..n][k].rnti == r; }
    }
    if HasAlloc(data[..n], r) {
      var k :| 0 <= k < n && data[..n][k].rnti == r;
      assert data[k].rnti == r;
    }
  }

  // ---------------------------------------------------------------- runs

  function CellStep(c: Cell, e: Event): (d: Cell)
    requires CellOk(c)
    ensures CellOk(d)
  {
    match e
    case Rach(info) => c.(dl := c.dl.(rars := AddRach(c.dl.rars, info)))
    case Cfg(rnti, dirs) =>
      if rnti in c.ues then c.(ues := c.ues[rnti := Configured(c.ues[rnti], dirs)])
      else
        InsertKeeps(c.order, rnti);
        c.(ues := c.ues[rnti := Configured(NewUe(rnti), dirs)], order := Insert(c.order, rnti))
    case Rem(rnti) =>
      WithoutKeeps(c.order, rnti);
      c.(ues := c.ues - {rnti}, order := Without(c.order, rnti))
    case Report(rnti, change) =>
      if rnti in c.ues then c.(ues := c.ues[rnti := Changed(c.ues[rnti], change)]) else c
    case Pass => AfterBoth(c)
  }

  function CellAfter(events: seq<Event>): (c: Cell)
    ensures CellOk(c)
  {
    if events == [] then Init() else CellStep(CellAfter(events[..|events| - 1]), events[|events| - 1])
  }

  // ---------------------------------------------------------------- projections

  /** Detections since the last TTI. */
  function PendingRach(events: seq<Event>): seq<RarInfo> {
    if events == [] then []
    else
      var n := |events| - 1;
      match events[n]
      case Rach(info) => PendingRach(events[..n]) + [info]
      case Pass => []
      case _ => PendingRach(events[..n])
  }

  /** The run of downlink passes inside a run of the carrier. */
  function Inputs(events: seq<Event>): seq<Input> {
    if events == [] then []
    else
      var n := |events| - 1;
      Inputs(events[..n]) + if events[n].Pass? then [Input(PendingRach(events[..n]), Reqs(CellAfter(events[..n])))] else []
  }

  /** `c` is the state `s` of the downlink run, with the detections `pending` added. */
  predicate Matches(c: Cell, s: Sys, pending: seq<RarInfo>) {
    c.now == s.now && c.dl == s.dl.(rars := AddAll(s.dl.rars, pending))
  }

  lemma PassMatches(c: Cell, s: Sys, pending: seq<RarInfo>)
    requires CellOk(c) && Matches(c, s, pending)
    ensures Matches(CellStep(c, Pass), Step(s, Input(pending, Reqs(c))), [])
  {
    hide DlPass, AddRach, Reqs, ParkOf, UlOf, SlotsMid, CellOk;
  }

  lemma OtherMatches(c: Cell, e: Event, s: Sys, pending: seq<RarInfo>)
    requires CellOk(c) && Matches(c, s, pending) && !e.Pass?
    ensures Matches(CellStep(c, e), s, if e.Rach? then pending + [e.info] else pending)
  {
    hide AddRach, CellOk, Changed, Configured, Insert, Without, Ascending;
  }

  lemma {:induction false} CellIsRun(events: seq<Event>)
    ensures Matches(CellAfter(events), Run(Inputs(events)), PendingRach(events))
  {
    hide CellStep, Reqs, Step, Start, CellOk, Matches;
    if events == [] {
      InitMatches();
    } else {
      var n := |events| - 1;
      var c := CellAfter(events[..n]);
      CellIsRun(events[..n]);
      if events[n].Pass? {
        PassMatches(c, Run(Inputs(events[..n])), PendingRach(events[..n]));
        RunMore(Inputs(events[..n]), Input(PendingRach(events[..n]), Reqs(c)));
      } else {
        OtherMatches(c, events[n], Run(Inputs(events[..n])), PendingRach(events[..n]));
        assert Inputs(events) == Inputs(events[..n]);
      }
    }
  }

  lemma InitMatches()
    ensures Matches(Init(), Start(), [])
  {
  }

  /** What the TTIs of a run do to the slots. */
  function Ttis(events: seq<Event>): seq<Tti> {
    if events == [] then []
    else
      var n := |events| - 1;
      Ttis(events[..n]) + if events[n].Pass? then [TtiDone(CellAfter(events[..n]))] else []
  }

  function TtiDone(c: Cell): Tti
    requires CellOk(c)
  {
    var a, b := UlOf(c).allocs, UlStart(c).allocs;
    Tti(DlOf(c).bc, RarList(DlOf(c).rar), DlOf(c).data, DlOf(c).rarDone, ParkOf(c).allocs, if |b| <= |a| then a[|b|..] else [])
  }

  lemma TtiIsSlotStep(c: Cell)
    requires CellOk(c)
    ensures TtiOk(TtiDone(c)) && AfterBoth(c).slots == AfterTti(c.slots, c.now, TtiDone(c))
  {
    hide DlPass, Reqs, Parked, VisitsUl, AfterPass, Index, Bind, At, RoundRobin, TtiOk, AfterTti;
    TwoPassesAreOneTti(c.slots, c.now, DlOf(c), c.ul, c.ues.Keys, DlOf(c).next.table, UlStart(c), UlOrder(c));
  }

  lemma PassGives(c: Cell)
    requires CellOk(c)
    ensures var d := CellStep(c, Pass); d.now == c.now + 1 && d.dl == DlOf(c).next && d.ul == UlOf(c).ul && d.ues == UlOf(c).ues
  {
    hide DlOf, UlOf, SlotsMid, CellOk;
  }

  lemma OtherKeeps(c: Cell, e: Event)
    requires CellOk(c) && !e.Pass?
    ensures var d := CellStep(c, e); d.slots == c.slots && d.ul == c.ul && d.now == c.now
  {
    hide AddRach, CellOk, Changed, Configured, Insert, Without, Ascending;
  }

  ghost predicate SlotsMatch(c: Cell, ttis: seq<Tti>) {
    && c.slots == SlotsAfter(RING - DL_DELAY, ttis) && c.now == RING - DL_DELAY + |ttis|
    && forall k :: 0 <= k < |ttis| ==> TtiOk(ttis[k])
  }

  lemma PassSlotsMatch(c: Cell, ttis: seq<Tti>)
    requires CellOk(c) && SlotsMatch(c, ttis)
    ensures SlotsMatch(CellStep(c, Pass), ttis + [TtiDone(c)])
  {
    hide AfterTti, TtiDone, TtiOk, AfterBoth, UlOf, DlOf, CellOk;
    TtiIsSlotStep(c);
    PassGives(c);
    assert (ttis + [TtiDone(c)])[..|ttis|] == ttis;
  }

  lemma {:induction false} CellIsSlotRun(events: seq<Event>)
    ensures SlotsMatch(CellAfter(events), Ttis(events))
  {
    hide CellStep, TtiDone, SlotsAfter, CellOk, TtiOk;
    if events == [] {
      InitSlotsMatch();
    } else {
      var n := |events| - 1;
      CellIsSlotRun(events[..n]);
      if events[n].Pass? {
        PassSlotsMatch(CellAfter(events[..n]), Ttis(events[..n]));
      } else {
        OtherKeeps(CellAfter(events[..n]), events[n]);
        assert Ttis(events) == Ttis(events[..n]);
      }
    }
  }

  lemma InitSlotsMatch()
    ensures SlotsMatch(Init(), [])
  {
  }
}
