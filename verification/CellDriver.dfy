/** The carrier scheduler's objects driven through any sequence of events: they go through exactly the
    states of the runs, and no pass ever finds its preconditions unmet. */
module CellDriver {
  import opened Timing
  import opened Table
  import opened DlSpec
  import opened DlRuns
  import opened DownlinkSafety
  import opened RarRuns
  import opened Packing
  import opened Estimate
  import opened SchedulerUe
  import opened UlSpec
  import opened Msg3Runs
  import opened CellSpec
  import opened CellRuns
  import opened Carrier
  import opened Grid

  // ---------------------------------------------------------------- what a pass needs

  /** The slot of the pass is empty, the oldest RAR owes a response, and a user block finds room. */
  ghost predicate PassReady(c: Cell) {
    && NoDl(Bind(c.slots, TtiOf(c))[Index(TtiOf(c))])
    && (c.dl.rars != [] ==> c.dl.rars[0].grants != [])
    && Room(c.dl.table[TtiOf(c) := false], At(TtiAdd(TtiOf(c), DL_DELAY), 5)) >= 14
  }

  /** In every run, the next pass finds what it needs. */
  lemma EveryPassReady(events: seq<Event>)
    ensures PassReady(CellAfter(events))
  {
    hide CellAfter, Inputs, Ttis, Room, At, TtiAdd, Index, Bind, SlotsAfter, Inv, TtiOk;
    var c, s := CellAfter(events), Run(Inputs(events));
    CellIsRun(events);
    RunInv(Inputs(events));
    RoomInInv(s);
    FrontHasGrants(Inputs(events), PendingRach(events));
    CellIsSlotRun(events);
    PassStartsEmpty(RING - DL_DELAY, Ttis(events));
    IndexOfTti(c.now);
  }

  /** The RAR that a detection joins has room for one more response. */
  predicate RarHasRoom(rars: seq<PendingRar>, info: RarInfo) {
    forall k :: 0 <= k < |rars| && rars[k].nprachTti == info.nprachTti ==> |rars[k].grants| < MAX_RAR_LIST
  }

  // ---------------------------------------------------------------- the objects

  /** The carrier's objects as a value. */
  ghost function Image(c: CarrierSched, now: nat): Cell
    requires c.Valid()
    reads c, c.dl, c.ul, c.bc, c.bc.sib1Sfn, c.ra, c.slots, c.ueDb.Values
  {
    Cell(now, c.Dl(), c.Ul(), c.SlotVals(), c.Ues(), c.order)
  }

  /** The downlink pass of a TTI. */
  method DownlinkPass(c: CarrierSched, ttiRx: nat, ghost k: Cell)
    requires c.Valid() && CellOk(k) && Image(c, k.now) == k && PassReady(k) && ttiRx == TtiOf(k)
    modifies c`lastAlloc, c`allocActive, c.slots, c.dl, c.ul, c.bc`sib1SfIdx, c.ra, c.ueDb.Values
    ensures c.Valid() && c.Dl() == DlOf(k).next && c.Ul() == ParkOf(k).ul && c.Ues() == UesMid(k)
    ensures c.SlotVals() == AfterPass(k.slots, k.ul, TtiOf(k), DlOf(k), k.ues.Keys)
  {
    hide Ascending, DlPass, AfterPass, Parked, Bind, Index, RoundRobin, TtiAdd, Room, AfterGrants, NoDl, At;
    hide ContiguousWindows;
    hide CarrierSched.UsersOk, CarrierSched.Ues;
    c.DlTti(ttiRx);
  }

  /** Both passes of one TTI. */
  method GenerateTtiResult(c: CarrierSched, ttiRx: nat, ghost k: Cell)
    requires c.Valid() && CellOk(k) && Image(c, k.now) == k && PassReady(k) && ttiRx == TtiOf(k)
    modifies c`lastAlloc, c`allocActive, c.slots, c.dl, c.ul, c.bc`sib1SfIdx, c.ra, c.ueDb.Values
    ensures c.Valid() && Image(c, k.now + 1) == CellStep(k, Pass)
  {
    hide Ascending, DlOf, AfterPass, ParkOf, UesMid, Bind, Index, VisitsUl, RoundRobin, TtiAdd, PassReady, At;
    hide ContiguousWindows;
    hide CarrierSched.UsersOk, CarrierSched.Ues;
    DownlinkPass(c, ttiRx, k);
    c.UlTti(ttiRx);
  }

  /** One report or counter update for one user. */
  method ChangeUser(u: SchedUe, change: CellRuns.Change)
    requires u.Valid()
    modifies u`lch, u`pendingCes, u`msgWaitTimer, u`sr
    ensures u.Valid() && u.Val() == Changed(old(u.Val()), change)
  {
    hide WithCes, FormatN1;
    match change
    case DlBuffer(lcid, tx, retx) => u.DlBufferState(lcid, tx, retx);
    case MacBuffer(ce, n) => u.MacBufferState(ce, n);
    case UlBuffer(lcid, bsr, setValue) => u.UlBufferState(lcid, bsr, setValue);
    case Wait => u.UlWaitTimer(30, true);
    case Sr(on) => u.SetSr(on);
    case Serve(iSf) =>
      var mcs, tbs, ces, sdus := u.GenerateFormatN1(iSf);
      assert Grant(u.Val(), mcs, tbs, ces, sdus).ue == u.Val();
  }

  /** A change of one user, if it is known. */
  method Tell(c: CarrierSched, rnti: nat, change: CellRuns.Change)
    requires c.Valid()
    modifies c.ueDb.Values
    ensures c.Valid() && c.Dl() == old(c.Dl()) && c.Ul() == old(c.Ul()) && c.SlotVals() == old(c.SlotVals())
    ensures c.Ues() == if rnti in old(c.Ues()) then old(c.Ues())[rnti := Changed(old(c.Ues())[rnti], change)] else old(c.Ues())
  {
    hide Ascending, Changed, ContiguousWindows;
    if rnti in c.ueDb {
      ChangeUser(c.ueDb[rnti], change);
      c.OneUserChanged(rnti);
    }
  }

  /** A user is configured or removed. */
  method Register(c: CarrierSched, e: Event, now: nat, ghost k: Cell)
    requires c.Valid() && CellOk(k) && Image(c, now) == k && (e.Cfg? || e.Rem?)
    modifies c`ueDb, c`order, c.ueDb.Values
    ensures c.Valid() && Image(c, now) == CellStep(k, e)
    ensures fresh(c.ueDb.Values - old(c.ueDb.Values))
  {
    hide Ascending, Configured, Insert, Without, ContiguousWindows, CellOk;
    hide CarrierSched.UsersOk, CarrierSched.Ues, CarrierSched.SlotVals;
    match e
    case Cfg(rnti, dirs) => c.UeCfg(rnti, dirs);
    case Rem(rnti) => var ok := c.UeRem(rnti);
  }

  /** A detection must find room in its RAR. */
  ghost predicate EventReady(k: Cell, e: Event) {
    PassReady(k) && (e.Rach? ==> RarHasRoom(k.dl.rars, e.info))
  }

  /** One event, on objects that show the state `k`. */
  method DoEvent(c: CarrierSched, e: Event, now: nat, ghost k: Cell)
    requires c.Valid() && CellOk(k) && Image(c, now) == k && EventReady(k, e)
    modifies c`lastAlloc, c`allocActive, c`ueDb, c`order, c.slots, c.dl, c.ul, c.bc`sib1SfIdx, c.ra, c.ueDb.Values
    ensures c.Valid() && Image(c, if e.Pass? then now + 1 else now) == CellStep(k, e)
    ensures fresh(c.ueDb.Values - old(c.ueDb.Values))
  {
    hide PassReady, Ascending, AddRach, ContiguousWindows, AfterBoth, CellOk;
    hide CarrierSched.UsersOk, CarrierSched.Ues, CarrierSched.SlotVals;
    match e
    case Rach(info) => c.DlRachInfo(info);
    case Cfg(_, _) => Register(c, e, now, k);
    case Rem(_) => Register(c, e, now, k);
    case Report(rnti, change) => Tell(c, rnti, change);
    case Pass => GenerateTtiResult(c, now % RING, k);
  }

  /** Drives a new carrier through any events. It shows the states of the run all along, and every pass can
      run; all that is asked is that no opportunity has more than eight pending detections. */
  method Drive(events: seq<Event>) returns (c: CarrierSched)
    requires forall i :: 0 <= i < |events| && events[i].Rach? ==> RarHasRoom(CellAfter(events[..i]).dl.rars, events[i].info)
    ensures fresh(c) && c.Valid() && Image(c, CellAfter(events).now) == CellAfter(events)
  {
    hide PassReady, CellStep, Ascending, ContiguousWindows;
    c := new CarrierSched();
    var now: nat := RING - DL_DELAY;
    assert Image(c, now) == CellAfter([]);
    var i := 0;
    while i < |events|
      invariant 0 <= i <= |events|
      invariant fresh(c) && fresh(c.dl) && fresh(c.ul) && fresh(c.bc) && fresh(c.ra)
      invariant (forall s <- c.slots :: fresh(s)) && fresh(c.ueDb.Values)
      invariant c.Valid() && Image(c, now) == CellAfter(events[..i])
    {
      EveryPassReady(events[..i]);
      assert events[..i + 1][..i] == events[..i];
      DoEvent(c, events[i], now, CellAfter(events[..i]));
      if events[i].Pass? { now := now + 1; }
      i := i + 1;
    }
    assert events[..i] == events;
  }

  // ---------------------------------------------------------------- when a RAR runs out of room

  /** All detections of a run, in order. */
  function Detected(events: seq<Event>): seq<RarInfo> {
    if events == [] then []
    else
      var n := |events| - 1;
      Detected(events[..n]) + if events[n].Rach? then [events[n].info] else []
  }

  lemma {:induction false} DetectedSplit(events: seq<Event>)
    ensures Detected(events) == Arrived(Inputs(events)) + PendingRach(events)
  {
    hide CellAfter, Reqs, Arrived;
    if events == [] {
      ArrivedNone();
    } else {
      var n := |events| - 1;
      var i := Inputs(events[..n]);
      DetectedSplit(events[..n]);
      if events[n].Pass? {
        ArrivedMore(i, Input(PendingRach(events[..n]), Reqs(CellAfter(events[..n]))));
      } else {
        assert Inputs(events) == i;
      }
    }
  }

  lemma ArrivedNone()
    ensures Arrived([]) == []
  {
  }

  lemma ArrivedMore(inputs: seq<Input>, inp: Input)
    ensures Arrived(inputs + [inp]) == Arrived(inputs) + inp.rach
  {
    assert (inputs + [inp])[..|inputs|] == inputs;
  }

  lemma {:induction false} GrantsArePending(rars: seq<PendingRar>, k: nat)
    requires k < |rars|
    ensures |rars[k].grants| <= |PendingOf(rars, rars[k].nprachTti)|
  {
    if k > 0 { GrantsArePending(rars[1..], k - 1); }
  }

  /** A RAR never owes more responses than its opportunity has had detections. */
  lemma PendingAreDetected(events: seq<Event>, k: nat)
    requires k < |CellAfter(events).dl.rars|
    ensures var r := CellAfter(events).dl.rars[k]; |r.grants| <= |Only(Detected(events), r.nprachTti)|
  {
    hide CellAfter, Inputs, Run, PendingOf, Only, Arrived, PendingRach, Detected;
    var rars := CellAfter(events).dl.rars;
    var p := rars[k].nprachTti;
    CellIsRun(events);
    RarFifo(Inputs(events), p);
    AddAllKeeps(Run(Inputs(events)).dl.rars, PendingRach(events), p);
    OnlyAppend(Arrived(Inputs(events)), PendingRach(events), p);
    DetectedSplit(events);
    GrantsArePending(rars, k);
  }

  /** So a detection finds room as long as its opportunity has had fewer than eight before. */
  lemma RoomWhileFew(events: seq<Event>, info: RarInfo)
    requires |Only(Detected(events), info.nprachTti)| < MAX_RAR_LIST
    ensures RarHasRoom(CellAfter(events).dl.rars, info)
  {
    hide CellAfter, Only, Detected;
    var rars := CellAfter(events).dl.rars;
    forall k | 0 <= k < |rars| && rars[k].nprachTti == info.nprachTti ensures |rars[k].grants| < MAX_RAR_LIST {
      PendingAreDetected(events, k);
    }
  }

  /** `n` detections alike, and the responses they are owed. */
  function Alike(n: nat, info: RarInfo): (r: seq<Event>)
    ensures |r| == n
  {
    if n == 0 then [] else Alike(n - 1, info) + [Rach(info)]
  }

  function Owed(n: nat, info: RarInfo): (r: seq<RarInfo>)
    ensures |r| == n
  {
    if n == 0 then [] else Owed(n - 1, info) + [info]
  }

  lemma {:induction false} AlikeJoin(n: nat, info: RarInfo)
    ensures CellAfter(Alike(n, info)).dl.rars
            == if n == 0 then [] else [PendingRar(RaRnti(info.nprachTti), info.nprachTti, Owed(n, info))]
  {
    hide RaRnti, AddRach, CellAfter;
    if n == 0 {
      assert CellAfter([]).dl.rars == [] by { NothingPending(); }
    } else {
      AlikeJoin(n - 1, info);
      RachJoins(Alike(n - 1, info), info);
      AddRachHead(CellAfter(Alike(n - 1, info)).dl.rars, info);
      if n == 1 { assert Owed(1, info) == [info]; }
    }
  }

  lemma NothingPending()
    ensures CellAfter([]).dl.rars == []
  {
  }

  lemma RachJoins(events: seq<Event>, info: RarInfo)
    ensures CellAfter(events + [Rach(info)]).dl.rars == AddRach(CellAfter(events).dl.rars, info)
  {
    hide AddRach;
    assert (events + [Rach(info)])[..|events|] == events;
  }

  /** Eight detections of one opportunity before the next TTI, and the ninth finds none. */
  lemma NinthFindsNoRoom(info: RarInfo)
    ensures !RarHasRoom(CellAfter(Alike(8, info)).dl.rars, info)
  {
    hide CellAfter, Alike, Owed;
    AlikeJoin(8, info);
    assert CellAfter(Alike(8, info)).dl.rars[0].nprachTti == info.nprachTti;
  }
}
