/** One NPDCCH per subframe: both encoders of the PHY use the same location, so a TTI may carry the
    DCI of a RAR, of a user's downlink grant or of an uplink grant, but not two of them. */
module Npdcch {
  import opened Timing
  import opened Table
  import opened DlSpec
  import opened Options
  import opened Packing
  import opened SchedulerUe
  import opened UlSpec

  function NewTxCount(ul: seq<UlAlloc>): nat {
    if ul == [] then 0 else NewTxCount(ul[..|ul| - 1]) + (if ul[|ul| - 1].kind.NewTx? then 1 else 0)
  }

  function DlDcis(out: DlOut): nat {
    (if out.rar.Some? then 1 else 0) + |out.data|
  }

  /** The surroundings of one TTI: what the users ask for, and the uplink state before the uplink pass. */
  datatype Env = Env(reqs: seq<DlReq>, ul: Table, parked: seq<UlAlloc>, ues: map<nat, UeState>, order: seq<nat>)

  ghost predicate EnvOk(e: Env) {
    && UesOk(e.ues) && (forall k :: 0 <= k < |e.order| ==> e.order[k] in e.ues)
    && NewTxCount(e.parked) == 0
  }

  /** The DCIs that the downlink and the uplink pass of one TTI put on the NPDCCH. */
  function Dcis(d: DlState, ttiRx: nat, e: Env): nat
    requires ttiRx < RING && EnvOk(e)
  {
    var out := DlPass(d, ttiRx, e.reqs);
    DlDcis(out) + NewTxCount(VisitsUl(out.next.table, UlVisit(e.ul, e.parked, e.ues), ttiRx, e.order).allocs)
  }

  lemma NewTxPush(ul: seq<UlAlloc>, a: UlAlloc)
    ensures NewTxCount(ul + [a]) == NewTxCount(ul) + (if a.kind.NewTx? then 1 else 0)
  {
    assert (ul + [a])[..|ul|] == ul;
  }

  /** A TTI's uplink DCI can be sent only in a free, valid subframe of the search space. */
  predicate UlOpen(dl: Table, ttiRx: nat) {
    var tti := TtiAdd(ttiRx, DL_DELAY);
    IsValidDlSf(tti) && !dl[tti] && tti % 8 < 2
  }

  lemma VisitCount(dl: Table, v: UlVisit, ttiRx: nat, rnti: nat)
    requires UesOk(v.ues) && rnti in v.ues
    ensures var r := VisitUl(dl, v, ttiRx, rnti); var t := TtiAdd(ttiRx, UL_DELAY);
            || (r.ul == v.ul && NewTxCount(r.allocs) == NewTxCount(v.allocs))
            || (!v.ul[t] && r.ul[t] && UlOpen(dl, ttiRx) && NewTxCount(r.allocs) == NewTxCount(v.allocs) + 1)
  {
    hide AllocNewTx, UlOpen, UlBytes;
    NewTxEffect(dl, v.ul, v.allocs, ttiRx, v.ues[rnti]);
  }

  lemma NewTxEffect(dl: Table, ul: Table, allocs: seq<UlAlloc>, ttiRx: nat, ue: UeState)
    ensures var o := AllocNewTx(dl, ul, allocs, ttiRx, ue); var t := TtiAdd(ttiRx, UL_DELAY);
            if o.outcome == Success then
              !ul[t] && o.ul[t] && UlOpen(dl, ttiRx) && NewTxCount(o.allocs) == NewTxCount(allocs) + 1
            else o.ul == ul && o.allocs == allocs
  {
    hide IsValidDlSf, TtiAdd, UlBytes;
    NewTxPush(allocs, UlAlloc(NewTx, ue.rnti, if PendingUl(ue) >= 125 then 12 else 9, UL_LEN));
  }

  /** An uplink pass issues at most one grant for new data. */
  lemma {:induction false} OneUlGrantPerPass(dl: Table, v: UlVisit, ttiRx: nat, order: seq<nat>)
    requires UesOk(v.ues) && forall k :: 0 <= k < |order| ==> order[k] in v.ues
    ensures var r := VisitsUl(dl, v, ttiRx, order);
            || (r.ul == v.ul && NewTxCount(r.allocs) == NewTxCount(v.allocs))
            || (r.ul[TtiAdd(ttiRx, UL_DELAY)] && UlOpen(dl, ttiRx) && NewTxCount(r.allocs) == NewTxCount(v.allocs) + 1)
  {
    hide VisitUl, UlOpen, TtiAdd;
    if order != [] {
      var n := |order| - 1;
      OneUlGrantPerPass(dl, v, ttiRx, order[..n]);
      VisitCount(dl, VisitsUl(dl, v, ttiRx, order[..n]), ttiRx, order[n]);
    }
  }

  // ---------------------------------------------------------------- the downlink pass

  lemma FirstMarkReserves(t: Table, tti: nat, ms: seq<Mark>)
    requires tti < RING && ms != [] && ms[0].off == 0
    ensures Reserve(t, tti, Offsets(ms))[tti]
  {
    ReserveAt(t, tti, Offsets(ms), tti);
    AtZero(tti);
    assert At(tti, Offsets(ms)[0]) == tti;
  }

  lemma AtZero(tti: nat)
    requires tti < RING
    ensures At(tti, 0) == tti
  {
  }

  /** The downlink pass sends at most one DCI, and blocks its subframe, unless it sends one response of
      a RAR that owes several. */
  lemma DlDciBlocks(d: DlState, ttiRx: nat, reqs: seq<DlReq>)
    requires ttiRx < RING
    ensures var out := DlPass(d, ttiRx, reqs); var tti := TtiAdd(ttiRx, DL_DELAY);
            && (out.rarDone ==> out.rar.Some?)
            && ((out.rar.Some? ==> out.rarDone) ==> DlDcis(out) <= 1 && (DlDcis(out) == 1 ==> out.next.table[tti]))
            && |out.data| <= 1 && (out.data != [] ==> IsValidDlSf(tti) && tti % 8 < 2 && out.next.table[tti])
  {
    var tti := TtiAdd(ttiRx, DL_DELAY);
    hide IsValidDlSf, TtiAdd, BcPart, AfterBc, IsSib1Sf;
    var t1, ra := AfterBc(d, ttiRx, tti), RaPart(d, ttiRx, tti);
    var t2 := Reserve(t1, tti, Offsets(RaMarks(tti, ra)));
    if ra.done { FirstMarkReserves(t1, tti, RaMarks(tti, ra)); }
    var u0 := UserState(t2, d.throttle, [], []);
    OneUserPerPass(u0, tti, reqs);
    var u := UserPart(d, ttiRx, tti, reqs);
    hide RaPart, RaMarks, VisitUsers;
    if !NotGranted(u0, u, tti) {
      var k :| 0 <= k < |reqs| && GrantedTo(u0, u, tti, reqs[k]);
      FirstMarkReserves(t2, tti, UserMarks(t2, tti, reqs[k].max));
    }
  }

  // ---------------------------------------------------------------- exactly when

  /** The oldest pending RAR owes several responses, and the subframe may carry one of them. */
  predicate AnswersInPart(d: DlState, tti: nat)
    requires tti < RING
  {
    && d.rars != [] && |d.rars[0].grants| >= 2
    && IsValidDlSf(tti) && tti % 16 < 8 && !d.table[tti] && !IsSib1Sf(tti) && !IsSib2Start(tti)
  }

  /** System information leaves a subframe open exactly when it is not its own. */
  lemma OpenForRar(d: DlState, ttiRx: nat)
    requires ttiRx < RING
    ensures var tti := TtiAdd(ttiRx, DL_DELAY);
            RarCanStart(AfterBc(d, ttiRx, tti), tti)
            <==> IsValidDlSf(tti) && tti % 16 < 8 && !d.table[tti] && !IsSib1Sf(tti) && !IsSib2Start(tti)
  {
    hide IsValidDlSf, IsSib1Sf, IsSib2Start, Sib2Offsets, Reserve;
    var tti := TtiAdd(ttiRx, DL_DELAY);
    var t: Table := d.table[ttiRx := false];
    assert t[tti] == d.table[tti];
    if IsSib2Start(tti) { Sib2Span(tti); }
    var ms := BcPart(d, ttiRx, tti);
    if ms != [] { FirstMarkReserves(t, tti, ms); } else { NothingReserved(t, tti); }
    Phase(tti);
  }

  lemma PartlyAnswered(d: DlState, ttiRx: nat, reqs: seq<DlReq>)
    requires ttiRx < RING
    ensures var out := DlPass(d, ttiRx, reqs); out.rar.Some? && !out.rarDone <==> AnswersInPart(d, TtiAdd(ttiRx, DL_DELAY))
  {
    hide AfterBc, BcPart, UserPart, TtiAdd, IsValidDlSf, IsSib1Sf, IsSib2Start, RarCanStart;
    OpenForRar(d, ttiRx);
  }

  lemma PartialRarLeavesOpen(d: DlState, ttiRx: nat)
    requires ttiRx < RING && AnswersInPart(d, TtiAdd(ttiRx, DL_DELAY))
    ensures var out := DlPass(d, ttiRx, []); var tti := TtiAdd(ttiRx, DL_DELAY);
            out.rar.Some? && !out.next.table[tti] && out.data == []
  {
    hide BcPart, AfterBc, IsValidDlSf, TtiAdd, IsSib1Sf, IsSib2Start;
    PartlyAnswered(d, ttiRx, []);
  }

  /** A user that has reported one byte on channel 0. */
  function Asking(): UeState {
    UeState(4097, [Bearer(Both, 0, 0, 1)] + seq(MAX_LC - 1, i => Bearer(Idle, 0, 0, 0)), [], 0, false)
  }

  function Witness(): Env {
    Env([], seq(RING, i => false), [], map[4097 := Asking()], [4097])
  }

  lemma WitnessPending()
    ensures EnvOk(Witness()) && PendingUl(Asking()) == 1
  {
    var lch := Asking().lch;
    assert UlBytes(lch, 4) == 0;
    assert UlBytes(lch, 2) == 0;
    assert UlBytes(lch, 1) == 0;
  }

  lemma WitnessIsGranted(dl: Table, ttiRx: nat)
    requires UlOpen(dl, ttiRx)
    ensures EnvOk(Witness())
    ensures NewTxCount(VisitsUl(dl, UlVisit(Witness().ul, [], Witness().ues), ttiRx, Witness().order).allocs) == 1
  {
    hide IsValidDlSf, TtiAdd, UlBytes;
    WitnessPending();
    var v := UlVisit(Witness().ul, [], Witness().ues);
    assert Witness().order[..0] == [];
    assert VisitsUl(dl, v, ttiRx, [4097]) == VisitUl(dl, VisitsUl(dl, v, ttiRx, []), ttiRx, 4097);
    var o := AllocNewTx(dl, v.ul, [], ttiRx, Asking());
    assert o.outcome == Success;
    NewTxPush([], o.allocs[0]);
  }

  /** In every state: the TTI sends at most one DCI, whatever the users ask for and have reported, if and only
      if its subframe lies outside the users' search space or no RAR is answered in part in it. */
  lemma OneNpdcchExactly(d: DlState, ttiRx: nat)
    requires ttiRx < RING
    ensures (forall e: Env :: EnvOk(e) ==> Dcis(d, ttiRx, e) <= 1)
            <==> TtiAdd(ttiRx, DL_DELAY) % 8 >= 2 || !AnswersInPart(d, TtiAdd(ttiRx, DL_DELAY))
  {
    hide DlPass, VisitsUl, TtiAdd, AnswersInPart, IsValidDlSf;
    if TtiAdd(ttiRx, DL_DELAY) % 8 >= 2 || !AnswersInPart(d, TtiAdd(ttiRx, DL_DELAY)) {
      forall e: Env | EnvOk(e) ensures Dcis(d, ttiRx, e) <= 1 {
        PartlyAnswered(d, ttiRx, e.reqs);
        DlDciBlocks(d, ttiRx, e.reqs);
        OneUlGrantPerPass(DlPass(d, ttiRx, e.reqs).next.table, UlVisit(e.ul, e.parked, e.ues), ttiRx, e.order);
      }
    } else {
      PartialRarLeavesOpen(d, ttiRx);
      AnswersValid(d, TtiAdd(ttiRx, DL_DELAY));
      WitnessIsGranted(DlPass(d, ttiRx, []).next.table, ttiRx);
      assert Dcis(d, ttiRx, Witness()) == 2;
    }
  }

  lemma AnswersValid(d: DlState, tti: nat)
    requires tti < RING && AnswersInPart(d, tti)
    ensures IsValidDlSf(tti)
  {
  }
}
