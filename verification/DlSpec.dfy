/** One downlink pass of the MAC scheduler as a function of its state: broadcast, then RAR,
    then the round-robin visit of the users. */
module DlSpec {
  import opened Options
  import opened Timing
  import opened Search
  import opened Table

  /** A detected preamble waiting for its random access response. */
  datatype RarInfo = RarInfo(preamble: nat, taCmd: nat, rnti: nat, nprachTti: nat)

  /** The responses owed to one NPRACH opportunity, in arrival order. */
  datatype PendingRar = PendingRar(raRnti: nat, nprachTti: nat, grants: seq<RarInfo>)

  datatype BcAlloc = BcAlloc(isSib1: bool, isNew: bool)
  datatype RarAlloc = RarAlloc(raRnti: nat, grant: RarInfo)
  datatype DlAlloc = DlAlloc(rnti: nat, iSf: nat)

  /** The spacing of user grants: whether one is recent, and the TTI of the last one. */
  datatype Throttle = Throttle(active: bool, last: nat)

  /** What a user asks for when it is visited. */
  datatype DlReq = DlReq(rnti: nat, min: nat, max: nat)

  datatype DlState = DlState(table: Table, sib1Idx: nat, rars: seq<PendingRar>, throttle: Throttle)

  datatype DlOut = DlOut(next: DlState, marks: seq<Mark>, bc: seq<BcAlloc>, rar: Option<RarAlloc>,
                         rarDone: bool, data: seq<DlAlloc>)

  // ---------------------------------------------------------------- broadcast

  /** Subframes of one SIB1 period (16 repetitions of 8 subframes). */
  const SIB1_NUM_SF: nat := 128
  const SIB2_NUM_SF: nat := 8

  function ValidFrom(tti: nat): nat -> bool {
    (o: nat) => IsValidDlSf(At(tti, o))
  }

  /** The first eight valid subframes from `tti` on; the search never gets near its bound. */
  function Sib2Offsets(tti: nat): seq<nat> {
    First(ValidFrom(tti), 0, RING + tti, SIB2_NUM_SF)
  }

  function BcMarks(t: Table, tti: nat, sib1Idx: nat): seq<Mark>
    requires tti < RING
  {
    if IsSib1Sf(tti) then
      if t[tti] then [] else [Mark(0, Sib1(sib1Idx == 0))]
    else if IsValidDlSf(tti) && IsSib2Start(tti) && !t[tti] then Marks(Sib2Offsets(tti), Sib2)
    else []
  }

  function NextSib1Idx(idx: nat): nat {
    if idx + 1 == SIB1_NUM_SF then 0 else idx + 1
  }

  // ---------------------------------------------------------------- random access response

  function RaRnti(nprachTti: nat): nat {
    (1 + nprachTti / 10 / 4 % 0x1_0000) % 0x1_0000
  }

  /** A new detection joins the pending RAR of its NPRACH opportunity or opens a new one. */
  function AddRach(rars: seq<PendingRar>, info: RarInfo): seq<PendingRar> {
    if rars == [] then [PendingRar(RaRnti(info.nprachTti), info.nprachTti, [info])]
    else if rars[0].nprachTti == info.nprachTti && rars[0].raRnti == RaRnti(info.nprachTti) then
      [rars[0].(grants := rars[0].grants + [info])] + rars[1..]
    else [rars[0]] + AddRach(rars[1..], info)
  }

  predicate RarCanStart(t: Table, tti: nat)
    requires tti < RING
  {
    IsValidDlSf(tti) && !t[tti] && tti % 16 < 8
  }

  /** Distance from the RAR's DCI to its data subframe. */
  function RarDataOffset(tti: nat): nat {
    5 + StepsToValid(At(tti, 5))
  }

  datatype RaOut = RaOut(rars: seq<PendingRar>, rar: Option<RarAlloc>, done: bool)

  function RaPass(t: Table, tti: nat, rars: seq<PendingRar>): RaOut
    requires tti < RING
  {
    if rars == [] || !RarCanStart(t, tti) || rars[0].grants == [] then RaOut(rars, None, false)
    else
      var front := rars[0];
      var alloc := Some(RarAlloc(front.raRnti, front.grants[0]));
      if |front.grants| == 1 then RaOut(rars[1..], alloc, true)
      else RaOut([front.(grants := front.grants[1..])] + rars[1..], alloc, false)
  }

  function RaMarks(tti: nat, ra: RaOut): (ms: seq<Mark>)
    ensures forall k :: 0 <= k < |ms| ==> ms[k].owner.RarDci? || ms[k].owner.RarData?
  {
    if ra.done then [Mark(0, RarDci), Mark(RarDataOffset(tti), RarData)] else []
  }

  // ---------------------------------------------------------------- users

  /** Subframes per resource index, table 16.4.1.3-1 of TS 36.213. */
  const N_SF: seq<nat> := [1, 2, 3, 4, 5, 6, 8, 10]

  function ISf(maxData: nat): (i: nat)
    ensures i < |N_SF|
  {
    if maxData > 20 then 2 else 0
  }

  predicate UserCanStart(t: Table, tti: nat)
    requires tti < RING
  {
    IsValidDlSf(tti) && !t[tti] && tti % 8 < 2 && !IsSib1Sf(tti)
  }

  /** Offsets, counted from five subframes after the DCI, of a user's data subframes. */
  function UserFit(t: Table, tti: nat, maxData: nat): seq<nat>
    requires tti < RING
  {
    Fit(t[tti := true], At(tti, 5), N_SF[ISf(maxData)])
  }

  function UserMarks(t: Table, tti: nat, maxData: nat): (ms: seq<Mark>)
    requires tti < RING
    ensures |ms| == 1 + |UserFit(t, tti, maxData)|
    ensures ms[0] == Mark(0, UserDci)
    ensures forall k :: 1 <= k < |ms| ==> ms[k] == Mark(5 + UserFit(t, tti, maxData)[k - 1], UserData)
  {
    var f := UserFit(t, tti, maxData);
    [Mark(0, UserDci)] + seq(|f|, k requires 0 <= k < |f| => Mark(5 + f[k], UserData))
  }

  datatype UserState = UserState(table: Table, throttle: Throttle, data: seq<DlAlloc>, marks: seq<Mark>)

  predicate Expired(th: Throttle, tti: nat) {
    (tti + RING - th.last) % RING > 25
  }

  predicate HasAlloc(data: seq<DlAlloc>, rnti: nat) {
    exists k :: 0 <= k < |data| && data[k].rnti == rnti
  }

  function VisitUser(u: UserState, tti: nat, req: DlReq): UserState
    requires tti < RING
  {
    if HasAlloc(u.data, req.rnti) then u
    else if u.throttle.active then
      if Expired(u.throttle, tti) then u.(throttle := u.throttle.(active := false)) else u
    else if req.min > 0 && UserCanStart(u.table, tti) then
      var ms := UserMarks(u.table, tti, req.max);
      UserState(Reserve(u.table, tti, Offsets(ms)), Throttle(true, tti), u.data + [DlAlloc(req.rnti, ISf(req.max))], u.marks + ms)
    else u
  }

  function VisitUsers(u: UserState, tti: nat, reqs: seq<DlReq>): UserState
    requires tti < RING
  {
    if reqs == [] then u
    else VisitUser(VisitUsers(u, tti, reqs[..|reqs| - 1]), tti, reqs[|reqs| - 1])
  }

  // ---------------------------------------------------------------- the pass

  /** The marks of the broadcast, RAR and user parts, each made on the table the previous part left. */
  function BcPart(d: DlState, ttiRx: nat, tti: nat): seq<Mark>
    requires ttiRx < RING && tti < RING
  {
    BcMarks(d.table[ttiRx := false], tti, d.sib1Idx)
  }

  function AfterBc(d: DlState, ttiRx: nat, tti: nat): Table
    requires ttiRx < RING && tti < RING
  {
    Reserve(d.table[ttiRx := false], tti, Offsets(BcPart(d, ttiRx, tti)))
  }

  function RaPart(d: DlState, ttiRx: nat, tti: nat): RaOut
    requires ttiRx < RING && tti < RING
  {
    RaPass(AfterBc(d, ttiRx, tti), tti, d.rars)
  }

  function UserPart(d: DlState, ttiRx: nat, tti: nat, reqs: seq<DlReq>): UserState
    requires ttiRx < RING && tti < RING
  {
    var t2 := Reserve(AfterBc(d, ttiRx, tti), tti, Offsets(RaMarks(tti, RaPart(d, ttiRx, tti))));
    VisitUsers(UserState(t2, d.throttle, [], []), tti, reqs)
  }

  predicate IsSib1Part(bm: seq<Mark>) {
    bm != [] && bm[0].owner.Sib1?
  }

  /** The pass run for reception TTI `ttiRx` schedules the transmission four subframes later. */
  function DlPass(d: DlState, ttiRx: nat, reqs: seq<DlReq>): DlOut
    requires ttiRx < RING
  {
    DlPassAt(d, ttiRx, TtiAdd(ttiRx, DL_DELAY), reqs)
  }

  function DlPassAt(d: DlState, ttiRx: nat, tti: nat, reqs: seq<DlReq>): DlOut
    requires ttiRx < RING && tti < RING
  {
    var bm := BcPart(d, ttiRx, tti);
    var ra := RaPart(d, ttiRx, tti);
    var u := UserPart(d, ttiRx, tti, reqs);
    DlOut(DlState(u.table, if IsSib1Part(bm) then NextSib1Idx(d.sib1Idx) else d.sib1Idx, ra.rars, u.throttle),
          bm + RaMarks(tti, ra) + u.marks,
          if bm == [] then [] else [BcAlloc(IsSib1Part(bm), IsSib1Part(bm) && d.sib1Idx == 0)],
          ra.rar, ra.done, u.data)
  }

  // ---------------------------------------------------------------- where blocks land

  /** SIB2 spans eleven subframes and steps over NPSS, NSSS and NPBCH. */
  lemma Sib2Span(tti: nat)
    requires IsSib2Start(tti)
    ensures Sib2Offsets(tti) == [0, 1, 2, 3, 5, 6, 7, 10]
  {
    forall o: nat | o < 11 ensures ValidFrom(tti)(o) <==> o != 4 && o != 8 && o != 9 {
      Sib2Phase(tti, o);
    }
    hide First, At, IsValidDlSf;
    FirstEight(ValidFrom(tti), RING + tti);
  }

  lemma Sib2Phase(tti: nat, o: nat)
    requires IsSib2Start(tti) && o < 11
    ensures IsValidDlSf(At(tti, o)) <==> o != 4 && o != 8 && o != 9
  {
    hide IsValidDlSf, IsSib1Sf, IsSib2Start;
    RingCalendar(tti + o);
    Phase(tti + o);
    Phase(tti);
    PhaseAdd(tti, o);
  }

  lemma FirstEight(e: nat -> bool, hi: nat)
    requires hi > 10
    requires forall o: nat :: o < 11 ==> (e(o) <==> o != 4 && o != 8 && o != 9)
    ensures First(e, 0, hi, 8) == [0, 1, 2, 3, 5, 6, 7, 10]
  {
    assert First(e, 10, hi, 1) == [10] + First(e, 11, hi, 0);
    assert First(e, 8, hi, 1) == [10];
    assert First(e, 7, hi, 2) == [7, 10];
    assert First(e, 6, hi, 3) == [6, 7, 10];
    assert First(e, 5, hi, 4) == [5, 6, 7, 10];
    assert First(e, 3, hi, 5) == [3, 5, 6, 7, 10];
    assert First(e, 2, hi, 6) == [2, 3, 5, 6, 7, 10];
    assert First(e, 1, hi, 7) == [1, 2, 3, 5, 6, 7, 10];
  }

  /** The RAR data subframe comes 5 to 7 subframes after its DCI, and is never a SIB1 subframe. */
  lemma RarDataPlace(tx: nat)
    requires IsValidDlSf(tx)
    ensures 5 <= RarDataOffset(At(0, tx)) <= 7
    ensures IsValidDlSf(tx + RarDataOffset(At(0, tx))) && !IsSib1Sf(tx + RarDataOffset(At(0, tx)))
  {
    hide IsValidDlSf, IsSib1Sf, IsSib2Start, StepsToValid;
    var n := RarDataOffset(At(0, tx));
    RarDataSteps(tx);
    Phase(tx);
    Phase(tx + n);
    PhaseAdd(tx, 5);
    PhaseAdd(tx, n);
  }

  lemma RarDataSteps(tx: nat)
    ensures var p := (tx + 5) % 20;
            RarDataOffset(At(0, tx)) == 5 + (if p == 9 then 2 else if p == 0 || p == 5 || p == 10 || p == 15 then 1 else 0)
  {
    hide IsValidDlSf, StepsToValid;
    AtAt(0, tx, 5);
    RingPhase(tx + 5);
    assert At(0, tx + 5) % 20 == (tx + 5) % 20;
    hide At;
    StepsByPhase(At(0, tx + 5));
  }

  /** In seven clear subframes a user block always finds its three. */
  lemma SevenPhases(a: nat)
    ensures Count(UserPhases(), a, a + 7) >= 3
  {
    CountSeven(UserPhases(), a);
    PhaseAdd(a, 1);
    PhaseAdd(a, 2);
    PhaseAdd(a, 3);
    PhaseAdd(a, 4);
    PhaseAdd(a, 5);
    PhaseAdd(a, 6);
  }

  lemma CountSeven(e: nat -> bool, a: nat)
    ensures Count(e, a, a + 7) == (if e(a) then 1 else 0) + (if e(a + 1) then 1 else 0) + (if e(a + 2) then 1 else 0)
              + (if e(a + 3) then 1 else 0) + (if e(a + 4) then 1 else 0) + (if e(a + 5) then 1 else 0) + (if e(a + 6) then 1 else 0)
  {
    assert Count(e, a + 6, a + 7) == if e(a + 6) then 1 else 0;
    assert Count(e, a + 5, a + 7) == (if e(a + 5) then 1 else 0) + Count(e, a + 6, a + 7);
    assert Count(e, a + 3, a + 7) == (if e(a + 3) then 1 else 0) + ((if e(a + 4) then 1 else 0) + Count(e, a + 5, a + 7));
    assert Count(e, a + 1, a + 7) == (if e(a + 1) then 1 else 0) + ((if e(a + 2) then 1 else 0) + Count(e, a + 3, a + 7));
  }

  /** If the subframes 10 to 16 after the DCI are clear, the whole block lies within 16 subframes. */
  lemma UserFitSpan(t: Table, tx: nat, maxData: nat)
    requires forall a :: tx + 10 <= a < tx + 17 ==> !t[At(0, a)]
    ensures var f := UserFit(t, At(0, tx), maxData);
            |f| == N_SF[ISf(maxData)] && forall k :: 0 <= k < |f| ==> f[k] < 12
  {
    hide At, Eligible, First, Count;
    var u: Table := t[At(0, tx) := true];
    var start := At(At(0, tx), 5);
    forall o | 5 <= o < 12 ensures !u[At(start, o)] {
      AtAt(0, tx, 5);
      AtAt(0, tx + 5, o);
      AtInjective(0, tx, tx + 5 + o);
    }
    FitInTwelve(u, start, N_SF[ISf(maxData)]);
  }

  lemma FitInTwelve(u: Table, start: nat, n: nat)
    requires forall o :: 5 <= o < 12 ==> !u[At(start, o)]
    requires n <= 3
    ensures var f := Fit(u, start, n); |f| == n && forall k :: 0 <= k < |f| ==> f[k] < 12
  {
    hide At, Eligible, First, Count, UserPhases, UserPhase;
    var e := Free(u, start);
    CountClear(u, start, 5, 12);
    SevenPhases(5 + start);
    CountSplit(e, 0, 5, 12);
    CountSplit(e, 0, 12, RING);
    FirstLength(e, 0, RING, n);
    FirstIsEarliest(e, 0, RING, n);
    var f := Fit(u, start, n);
    forall k | 0 <= k < |f| ensures f[k] < 12 {
      if f[k] >= 12 { CountSplit(e, 0, 12, f[k]); }
    }
  }

  /** A user's data subframes were free, valid and not SIB1's when it was granted. */
  lemma UserFitFree(t: Table, tti: nat, maxData: nat, k: nat)
    requires tti < RING && k < |UserFit(t, tti, maxData)|
    ensures var a := At(tti, 5 + UserFit(t, tti, maxData)[k]);
            IsValidDlSf(a) && !IsSib1Sf(a) && !t[a] && a != tti
  {
    var u: Table := t[tti := true];
    FirstIsEarliest(Free(u, At(tti, 5)), 0, RING, N_SF[ISf(maxData)]);
    AtAt(tti, 5, UserFit(t, tti, maxData)[k]);
  }

  // ---------------------------------------------------------------- at most one user per pass

  /** The throttle lets a user be granted. */
  predicate Ready(th: Throttle, tti: nat) {
    !th.active || Expired(th, tti)
  }

  predicate NotGranted(u0: UserState, u: UserState, tti: nat) {
    && u.table == u0.table && u.data == u0.data && u.marks == u0.marks
    && (u.throttle == u0.throttle || (Ready(u0.throttle, tti) && u.throttle == u0.throttle.(active := false)))
  }

  predicate GrantedTo(u0: UserState, u: UserState, tti: nat, req: DlReq)
    requires tti < RING
  {
    && req.min > 0 && UserCanStart(u0.table, tti) && Ready(u0.throttle, tti)
    && u.marks == u0.marks + UserMarks(u0.table, tti, req.max)
    && u.table == Reserve(u0.table, tti, Offsets(UserMarks(u0.table, tti, req.max)))
    && u.data == u0.data + [DlAlloc(req.rnti, ISf(req.max))]
    && u.throttle == Throttle(true, tti)
  }

  lemma VisitBeforeGrant(u0: UserState, u: UserState, tti: nat, req: DlReq)
    requires tti < RING && u0.data == [] && NotGranted(u0, u, tti)
    ensures var v := VisitUser(u, tti, req); NotGranted(u0, v, tti) || GrantedTo(u0, v, tti, req)
  {
    assert !HasAlloc(u.data, req.rnti);
  }

  lemma VisitAfterGrant(u0: UserState, u: UserState, tti: nat, granted: DlReq, req: DlReq)
    requires tti < RING && GrantedTo(u0, u, tti, granted)
    ensures VisitUser(u, tti, req) == u
  {
    hide UserMarks, Reserve, UserCanStart, Offsets, Expired;
    GrantIsFresh(tti);
  }

  lemma GrantIsFresh(tti: nat)
    ensures !Expired(Throttle(true, tti), tti)
  {
  }

  /** A pass grants no user, or exactly one of those visited. */
  lemma {:induction false} OneUserPerPass(u0: UserState, tti: nat, reqs: seq<DlReq>)
    requires tti < RING && u0.data == []
    ensures var u := VisitUsers(u0, tti, reqs);
            NotGranted(u0, u, tti) || exists k :: 0 <= k < |reqs| && GrantedTo(u0, u, tti, reqs[k])
  {
    if reqs != [] {
      var n := |reqs| - 1;
      var u1 := VisitUsers(u0, tti, reqs[..n]);
      OneUserPerPass(u0, tti, reqs[..n]);
      if NotGranted(u0, u1, tti) {
        VisitBeforeGrant(u0, u1, tti, reqs[n]);
      } else {
        var k :| 0 <= k < n && GrantedTo(u0, u1, tti, reqs[..n][k]);
        VisitAfterGrant(u0, u1, tti, reqs[k], reqs[n]);
        assert GrantedTo(u0, VisitUsers(u0, tti, reqs), tti, reqs[k]);
      }
    }
  }
}
