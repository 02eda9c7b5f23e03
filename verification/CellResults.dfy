/** What one TTI of a run of the carrier leaves behind: its result in the slot, the broadcast in it, and the users'
    records; and what the reports between the TTIs do to a record. */
module CellResults {
  import opened Timing
  import opened Search
  import opened Table
  import opened Options
  import opened DlSpec
  import opened DlRuns
  import opened Packing
  import opened Estimate
  import opened SchedulerUe
  import opened UlSpec
  import opened Msg3Runs
  import opened CellSpec
  import opened CellRuns
  import opened UlRuns

  // ---------------------------------------------------------------- the result

  lemma DlSlot(slots: Slots, n: nat, t: Tti)
    requires NoDl(Bind(slots, At(0, n))[Index(At(0, n))])
    ensures var r := AfterDl(slots, At(0, n), t)[Index(At(0, n))];
            r.ttiRx == At(0, n) && r.bc == t.bc && r.rar == t.rar && r.data == t.data
  {
    hide At, Index;
    IndexOfTti(n);
    NeighboursApart(n);
  }

  /** In every run the result that a TTI leaves in its slot is what its two passes allocated, and nothing that an
      earlier TTI left there. */
  lemma ResultExactly(events: seq<Event>)
    ensures var c := CellAfter(events); var r := CellAfter(events + [Pass]).slots[Index(TtiOf(c))];
            && r.ttiRx == TtiOf(c) && r.bc == DlOf(c).bc && r.data == DlOf(c).data && r.ul == UlOf(c).allocs
            && r.rar == if DlOf(c).rar.Some? then [DlOf(c).rar.value] else []
  {
    hide CellAfter, DlOf, UlOf, ParkOf, At, Index, Ttis, SlotsAfter, TtiOk;
    var c := CellAfter(events);
    CellMore(events + [Pass], |events|);
    assert (events + [Pass])[..|events|] == events && (events + [Pass])[..|events| + 1] == events + [Pass];
    CellIsSlotRun(events);
    PassStartsEmpty(RING - DL_DELAY, Ttis(events));
    IndexOfTti(c.now);
    DlSlot(c.slots, c.now, Tti(DlOf(c).bc, RarList(DlOf(c).rar), DlOf(c).data, DlOf(c).rarDone,
                               Parked(c.slots, c.ul, TtiOf(c), DlOf(c), c.ues.Keys).allocs, []));
    SlotStays(c);
  }

  lemma SlotStays(c: Cell)
    requires CellOk(c)
    requires AfterPass(c.slots, c.ul, TtiOf(c), DlOf(c), c.ues.Keys)[Index(TtiOf(c))].ttiRx == TtiOf(c)
    ensures SlotsMid(c) == AfterPass(c.slots, c.ul, TtiOf(c), DlOf(c), c.ues.Keys)
  {
    hide AfterPass, DlOf, TtiOf, Index;
  }

  // ---------------------------------------------------------------- the broadcast in it

  /** The broadcast of a pass: SIB1 in its subframes, announced as new in the first of each 256 frames; SIB2 in a free
      start; nothing otherwise. */
  lemma BroadcastExactly(s: Sys, inp: Input)
    requires Inv(s)
    ensures PassOf(s, inp).bc == if Tx(s) % 20 == 14 then [BcAlloc(true, Tx(s) % 2560 == 14)]
                                 else if IsSib2Start(Tx(s)) && !Held(s.log, Tx(s)) then [BcAlloc(false, false)] else []
  {
    hide AddAll, RaPart, UserPart, BcMarks, At, IsSib2Start, Exact, AllGood, Orderly, Closed, Spaced, Held;
    PassParts(s, inp);
    BcMarkShape(s);
    Sib1CountStep(Tx(s));
  }

  // ---------------------------------------------------------------- the records

  /** The record of a user that has just been granted a downlink block: 70 bytes more on channel 3, and a wait
      of 30. */
  predicate IsGranted(ue: UeState, after: UeState) {
    && |after.lch| == |ue.lch| && after == ue.(lch := after.lch, timer := 30)
    && forall l :: 0 <= l < |ue.lch| ==> after.lch[l] == ue.lch[l].(bsr := ue.lch[l].bsr + if l == 3 then 70 else 0)
  }

  lemma {:induction false} GrantedRecords(ues: map<nat, UeState>, data: seq<DlAlloc>, r: nat)
    requires UesOk(ues) && r in ues && |data| <= 1
    ensures var u := AfterGrants(ues, data); if HasAlloc(data, r) then IsGranted(ues[r], u[r]) else u[r] == ues[r]
  {
    if data != [] {
      HasAllocLast(data, r);
      assert data[..0] == [];
      assert AfterGrants(ues, []) == ues;
    }
  }

  /** The uplink pass finds exactly this record. */
  lemma MidRecord(c: Cell, r: nat)
    requires CellOk(c) && r in c.ues
    ensures if DlGranted(c, r) then IsGranted(c.ues[r], UesMid(c)[r]) else UesMid(c)[r] == c.ues[r]
  {
    hide DlOf, HasAlloc, AfterGrants, IsGranted;
    OneBlock(c);
    GrantedRecords(c.ues, DlOf(c).data, r);
  }

  lemma OneBlock(c: Cell)
    requires CellOk(c)
    ensures |DlOf(c).data| <= 1
  {
    hide BcPart, AfterBc, RaPart, RaMarks, Reserve, TtiAdd, Requested, UserMarks, UserCanStart;
    var tti := TtiAdd(TtiOf(c), DL_DELAY);
    var t2 := Reserve(AfterBc(c.dl, TtiOf(c), tti), tti, Offsets(RaMarks(tti, RaPart(c.dl, TtiOf(c), tti))));
    OneUserPerPass(UserState(t2, c.dl.throttle, [], []), tti, Reqs(c));
  }

  /** Configuring a user gives its bearers their directions. A known user keeps all the rest of its record, a new one
      has nothing to send, has reported nothing and need not wait; no other record changes. */
  lemma CfgExactly(c: Cell, rnti: nat, dirs: Bearers)
    requires CellOk(c)
    ensures var d := CellStep(c, Cfg(rnti, dirs));
            && d.ues.Keys == c.ues.Keys + {rnti} && (forall r :: r in c.ues && r != rnti ==> d.ues[r] == c.ues[r])
            && (forall l :: 0 <= l < MAX_LC ==> d.ues[rnti].lch[l].dir == dirs[l])
            && (rnti in c.ues ==> KeepsAllBut(c.ues[rnti], d.ues[rnti]))
            && (rnti !in c.ues ==> IsBlank(d.ues[rnti], rnti))
  {
    hide Ascending, Insert;
  }

  predicate IsBlank(ue: UeState, rnti: nat) {
    && ue.rnti == rnti && ue.ces == [] && ue.timer == 0 && !ue.sr
    && forall l :: 0 <= l < |ue.lch| ==> ue.lch[l].bufTx == 0 && ue.lch[l].bufRetx == 0 && ue.lch[l].bsr == 0
  }

  /** Only the directions of the bearers differ. */
  predicate KeepsAllBut(ue: UeState, after: UeState) {
    && |after.lch| == |ue.lch| && after == ue.(lch := after.lch)
    && forall l :: 0 <= l < |ue.lch| ==> after.lch[l] == ue.lch[l].(dir := after.lch[l].dir)
  }

  /** Removing a user takes its record and its turn, and nothing else. */
  lemma RemExactly(c: Cell, rnti: nat)
    requires CellOk(c)
    ensures var d := CellStep(c, Rem(rnti));
            && d.ues.Keys == c.ues.Keys - {rnti} && (forall r :: r in d.ues ==> d.ues[r] == c.ues[r])
            && (forall r :: r in d.order <==> r in c.order && r != rnti)
            && d.dl == c.dl && d.ul == c.ul && d.slots == c.slots
  {
    hide Ascending, Without;
    WithoutKeeps(c.order, rnti);
  }

  // ---------------------------------------------------------------- reports

  function Reported(b: Bearer): nat {
    if b.dir.Ul? || b.dir.Both? then b.bsr else 0
  }

  /** What a user has for the uplink: what its six channels have reported, as far as they carry the uplink, or 125
      bytes for a bare scheduling request. */
  lemma PendingExactly(ue: UeState)
    requires |ue.lch| == MAX_LC
    ensures var l := ue.lch;
            var n := Reported(l[0]) + Reported(l[1]) + Reported(l[2]) + Reported(l[3]) + Reported(l[4]) + Reported(l[5]);
            PendingUl(ue) == if n > 0 then n else if ue.sr then 125 else 0
  {
    var l := ue.lch;
    assert UlBytes(l, 6) == 0;
    assert UlBytes(l, 5) == Reported(l[5]);
    assert UlBytes(l, 4) == Reported(l[4]) + UlBytes(l, 5);
    assert UlBytes(l, 3) == Reported(l[3]) + UlBytes(l, 4);
    assert UlBytes(l, 2) == Reported(l[2]) + UlBytes(l, 3);
    assert UlBytes(l, 1) == Reported(l[1]) + UlBytes(l, 2);
    assert UlBytes(l, 0) == Reported(l[0]) + UlBytes(l, 1);
  }

  /** A report of downlink queues replaces the two queues of its channel, new data behind retransmissions, and is
      ignored for a channel that does not exist. */
  lemma DlReportExactly(ue: UeState, lcid: nat, tx: nat, retx: nat)
    requires |ue.lch| == MAX_LC
    ensures var r := Changed(ue, DlBuffer(lcid, tx, retx));
            && SameBearers(ue.lch, r.lch) && r == ue.(lch := r.lch)
            && Queues(r.lch) == if lcid >= MAX_LC then Queues(ue.lch)
                                else Queues(ue.lch)[2 * lcid := retx][2 * lcid + 1 := tx]
  {
    var r := Changed(ue, DlBuffer(lcid, tx, retx));
    if lcid < MAX_LC { QueuesOf(r.lch, Queues(ue.lch)[2 * lcid := retx][2 * lcid + 1 := tx]); }
  }

  /** Control elements join the queue: contention resolutions in front of all others, the rest behind. */
  lemma CeReportExactly(ue: UeState, ce: Ce, n: nat)
    requires |ue.lch| == MAX_LC
    ensures var r := Changed(ue, MacBuffer(ce, n));
            && r == ue.(ces := r.ces) && |r.ces| == |ue.ces| + n
            && (ce == ConResId ==> r.ces[n..] == ue.ces && forall k :: 0 <= k < n ==> r.ces[k] == ConResId)
            && (ce != ConResId ==> r.ces[..|ue.ces|] == ue.ces && forall k :: |ue.ces| <= k < |r.ces| ==> r.ces[k] == ce)
  {
  }

  lemma {:induction false} UlBytesWith(lch: seq<Bearer>, l: nat, bsr: nat, i: nat)
    requires l < |lch| && i <= |lch|
    ensures UlBytes(lch[l := lch[l].(bsr := bsr)], i) + (if i <= l then Reported(lch[l]) else 0)
            == UlBytes(lch, i) + (if i <= l then Reported(lch[l].(bsr := bsr)) else 0)
    decreases |lch| - i
  {
    if i < |lch| { UlBytesWith(lch, l, bsr, i + 1); }
  }

  /** An uplink report replaces what its channel had reported, or adds to it; nothing else changes. */
  lemma UlReportExactly(ue: UeState, lcid: nat, bsr: nat, setValue: bool)
    requires |ue.lch| == MAX_LC && lcid < MAX_LC && IsUl(ue.lch[lcid])
    ensures var r := Changed(ue, UlBuffer(lcid, bsr, setValue));
            && r == ue.(lch := r.lch) && Queues(r.lch) == Queues(ue.lch)
            && UlBytes(r.lch, 0) == UlBytes(ue.lch, 0) - (if setValue then ue.lch[lcid].bsr else 0) + bsr
  {
    var r := Changed(ue, UlBuffer(lcid, bsr, setValue));
    UlBytesWith(ue.lch, lcid, if setValue then bsr else ue.lch[lcid].bsr + bsr, 0);
    QueuesOf(r.lch, Queues(ue.lch));
  }

  /** A scheduling request counts for as long as it stands, and only while nothing is reported. */
  lemma SrExactly(ue: UeState, on: bool)
    requires |ue.lch| == MAX_LC && UlBytes(ue.lch, 0) == 0
    ensures PendingUl(Changed(ue, Sr(on))) == if on then 125 else 0
  {
  }

  /** Serving a user takes from its record what its grant carries, and nothing else. */
  lemma ServeExactly(ue: UeState, iSf: SfIndex)
    requires |ue.lch| == MAX_LC
    ensures var g, r := FormatN1(ue, iSf), Changed(ue, Serve(iSf));
            && g.ces + r.ces == ue.ces && r == ue.(ces := r.ces, lch := r.lch) && SameBearers(ue.lch, r.lch)
            && forall j :: 0 <= j < 2 * MAX_LC ==> Queues(r.lch)[j] + Taken(g.sdus, j) == Queues(ue.lch)[j]
  {
    hide FormatN1, Queues, Taken;
    GrantConserves(ue, iSf);
  }
}
