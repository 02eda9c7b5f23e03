/** The scheduler's objects that work on the shared reservation tables: the broadcast scheduler with
    its table of SIB1 windows, and the per-TTI allocation record. */
module Grid {
  import opened Timing
  import opened Search
  import opened Table
  import opened DlSpec
  import opened Packing
  import opened SchedulerUe
  import opened UlSpec
  import opened Msg3Runs

  const SIB1_NB_TTI: nat := 256
  const SIB1_NB_MAX_REP: nat := 16

  /** The hard-wired broadcast configuration: cell identity and `schedulingInfoSIB1`. */
  const CELL_ID: nat := 99
  const SCHED_INFO_SIB1: nat := 5

  /** Repetitions of SIB1, table 16.4.1.3-3 of TS 36.213. */
  const N_REP_SIB1: seq<nat> := [4, 8, 16, 4, 8, 16, 4, 8, 16, 4, 8, 16, 0, 0, 0, 0]

  /** First radio frame of SIB1 for 4, 8 and 16 repetitions, table 16.4.1.3-4 of TS 36.213. */
  const FIRST_FRAME_SIB1: seq<seq<int>> := [[0, 16, 32, 48], [0, 16, -1, -1], [0, 1, -1, -1]]

  function NumRep(): nat { N_REP_SIB1[SCHED_INFO_SIB1] }

  function RepIndex(rep: nat): (i: nat)
    ensures i < 3
  {
    if rep == 8 then 1 else if rep == 16 then 2 else 0
  }

  function StartingFrame(): int {
    FIRST_FRAME_SIB1[RepIndex(NumRep())][CELL_ID % (if NumRep() == 4 then 4 else 2)]
  }

  /** Added to the frame number before the parity test. */
  function Sib1Start(): nat {
    if NumRep() == 16 && CELL_ID % 2 == 1 then 1 else 0
  }

  /** With this configuration the windows of 16 frames follow each other without a gap from frame 1 on. */
  predicate ContiguousWindows(w: seq<nat>) {
    |w| == 4 * SIB1_NB_MAX_REP && forall i :: 0 <= i < |w| ==> w[i] == 1 + 16 * i
  }

  class BcSched {
    const sib1Sfn: array<nat>
    var sib1SfIdx: nat
    const sib1NumSf: nat

    predicate Valid()
      reads sib1Sfn
    {
      ContiguousWindows(sib1Sfn[..]) && sib1NumSf == 8 * NumRep()
    }

    constructor ()
      ensures Valid() && fresh(sib1Sfn) && sib1SfIdx == 0
    {
      sib1Sfn := new nat[4 * SIB1_NB_MAX_REP];
      sib1NumSf := 8 * NumRep();
      sib1SfIdx := 0;
      new;
      var numRep, start := NumRep(), StartingFrame();
      assert numRep == 16 && start == 1;
      var idx, k := 0, 0;
      while k < 4
        invariant 0 <= k <= 4 && idx == 16 * k
        invariant forall i :: 0 <= i < idx ==> sib1Sfn[i] == 1 + 16 * i
        modifies sib1Sfn
      {
        var i := 0;
        while i < numRep
          invariant 0 <= i <= numRep && idx == 16 * k + i
          invariant forall j :: 0 <= j < idx ==> sib1Sfn[j] == 1 + 16 * j
          modifies sib1Sfn
        {
          sib1Sfn[idx] := k * SIB1_NB_TTI + start + i * SIB1_NB_TTI / numRep;
          idx := idx + 1;
          i := i + 1;
        }
        k := k + 1;
      }
    }

    /** The window search finds exactly subframe 4 of the odd frames. */
    method IsSib1Sf(sfn: nat, sfIdx: nat) returns (r: bool)
      requires Valid() && sfn < 1024 && sfIdx < 10
      ensures r == Timing.IsSib1Sf(10 * sfn + sfIdx)
    {
      hide Timing.IsSib1Sf;
      Sib1SfIs(sfn, sfIdx);
      r := false;
      if sfIdx != 4 { return; }
      var start := Sib1Start();
      assert forall i :: 0 <= i < 64 ==> sib1Sfn[i] == sib1Sfn[..][i];
      var i := 0;
      while i < SIB1_NB_MAX_REP * 4
        invariant 0 <= i <= SIB1_NB_MAX_REP * 4
        invariant sfn % 2 == 1 ==> sfn >= 1 + 16 * i
      {
        if sfn >= sib1Sfn[i] && sfn < sib1Sfn[i] + 16 && (sfn + start) % 2 == 0 {
          r := true;
          break;
        }
        i := i + 1;
      }
    }

    /** Broadcast part of a downlink pass: SIB1 in its own subframe, SIB2 from its start on. */
    method AllocSibs(slot: SfSched)
      requires Valid() && slot.Valid()
      modifies this`sib1SfIdx, slot`bcAllocs, slot.dl
      ensures Valid()
      ensures var tti := slot.TtiTxDl(); var bm := BcMarks(old(slot.dl[..]), tti, old(sib1SfIdx));
              && slot.dl[..] == Reserve(old(slot.dl[..]), tti, Offsets(bm))
              && sib1SfIdx == (if IsSib1Part(bm) then NextSib1Idx(old(sib1SfIdx)) else old(sib1SfIdx))
              && slot.bcAllocs == old(slot.bcAllocs)
                 + if bm == [] then [] else [BcAlloc(IsSib1Part(bm), IsSib1Part(bm) && old(sib1SfIdx) == 0)]
    {
      hide TtiAdd, Reserve, Sib2Offsets;
      var tti := slot.TtiTxDl();
      ReserveNothing(slot.dl[..], tti);
      var sfIdx, sfn := tti % 10, tti / 10;
      assert 10 * sfn + sfIdx == tti;
      var isSib1 := IsSib1Sf(sfn, sfIdx);
      assert sfIdx != 0 && sfIdx != 5 && !(sfIdx == 9 && sfn % 2 == 0) <==> IsValidDlSf(tti);
      assert sfIdx == 1 && sfn % 512 < 16 && sfn % 4 == 0 <==> IsSib2Start(tti);
      hide IsValidDlSf, IsSib2Start, Timing.IsSib1Sf;
      if isSib1 {
        if slot.dl[tti] { return; }
        var isNew := sib1SfIdx == 0;
        slot.dl[tti] := true;
        sib1SfIdx := sib1SfIdx + 1;
        slot.bcAllocs := slot.bcAllocs + [BcAlloc(true, isNew)];
        if sib1SfIdx == sib1NumSf { sib1SfIdx := 0; }
        OneMark(old(slot.dl[..]), tti, Mark(0, Sib1(isNew)));
      } else if sfIdx != 0 && sfIdx != 5 && !(sfIdx == 9 && sfn % 2 == 0) {
        if sfIdx == 1 && sfn % 512 < 16 && sfn % 4 == 0 {
          if slot.dl[tti] { return; }
          Sib2Span(tti);
          MarkSib2(slot.dl, tti);
          slot.bcAllocs := slot.bcAllocs + [BcAlloc(false, false)];
        }
      }
    }

    /** Reserves the first eight valid subframes from a SIB2 start on, taken or not. */
    static method MarkSib2(dl: array<bool>, tti: nat)
      requires dl.Length == RING && tti < RING && IsSib2Start(tti)
      modifies dl
      ensures dl[..] == Reserve(old(dl[..]), tti, Offsets(Marks(Sib2Offsets(tti), Sib2)))
    {
      hide IsValidDlSf, IsSib2Start, Reserve, First, Count, At;
      ghost var t0 := dl[..];
      ghost var e := ValidFrom(tti);
      Sib2Span(tti);
      ghost var hi := RING + tti;
      FirstLength(e, 0, hi, SIB2_NUM_SF);
      var allocI: nat, rem: nat := 0, SIB2_NUM_SF;
      ghost var done: seq<nat> := [];
      ReserveNothing(t0, tti);
      while rem > 0
        invariant rem <= SIB2_NUM_SF
        invariant dl[..] == Reserve(t0, tti, done)
        invariant done + First(e, allocI, hi, rem) == First(e, 0, hi, SIB2_NUM_SF)
        invariant Count(e, allocI, hi) >= rem
        decreases hi - allocI
      {
        SearchStep(e, allocI, hi, rem);
        var t := TtiAdd(tti, allocI);
        TtiAddIsAt(tti, allocI);
        if IsValidDlSf(t) {
          dl[t] := true;
          ReserveOne(t0, tti, done, allocI);
          done := done + [allocI];
          rem := rem - 1;
        }
        allocI := allocI + 1;
      }
      NothingLeft(e, allocI, hi);
      assert done == Sib2Offsets(tti);
      assert Offsets(Marks(done, Sib2)) == done;
    }
  }

  /** One step of a search that is known to succeed. */
  lemma SearchStep(e: nat -> bool, i: nat, hi: nat, n: nat)
    requires n > 0 && Count(e, i, hi) >= n
    ensures i < hi
    ensures if e(i) then First(e, i, hi, n) == [i] + First(e, i + 1, hi, n - 1) && Count(e, i + 1, hi) >= n - 1
            else First(e, i, hi, n) == First(e, i + 1, hi, n) && Count(e, i + 1, hi) >= n
  {
  }

  lemma NothingLeft(e: nat -> bool, i: nat, hi: nat)
    ensures First(e, i, hi, 0) == []
  {
  }

  lemma ReserveNothing(t: Table, base: nat)
    ensures Reserve(t, base, []) == t
  {
  }

  lemma ReserveOne(t: Table, base: nat, done: seq<nat>, o: nat)
    ensures Reserve(t, base, done + [o]) == Reserve(t, base, done)[At(base, o) := true]
  {
    assert (done + [o])[..|done|] == done;
  }

  lemma OneMark(t: Table, tti: nat, m: Mark)
    requires tti < RING && m.off == 0
    ensures Reserve(t, tti, Offsets([m])) == t[tti := true]
  {
    assert Offsets([m])[..0] == [];
  }

  lemma Sib1SfIs(sfn: nat, sfIdx: nat)
    requires sfIdx < 10
    ensures Timing.IsSib1Sf(10 * sfn + sfIdx) <==> sfIdx == 4 && sfn % 2 == 1
  {
    assert (10 * sfn + sfIdx) / 10 == sfn && (10 * sfn + sfIdx) % 10 == sfIdx;
  }

  // ---------------------------------------------------------------- one TTI

  /** The allocations of one TTI. The reservation tables are shared by all of them. */
  class SfSched {
    const dl: array<bool>
    const ul: array<bool>
    var ttiRx: nat
    var bcAllocs: seq<BcAlloc>
    var rarAllocs: seq<RarAlloc>
    var dataAllocs: seq<DlAlloc>
    var ulAllocs: seq<UlAlloc>

    predicate Valid() {
      dl.Length == RING && ul.Length == RING && dl != ul
    }

    function Val(): Slot
      reads this
    {
      Slot(ttiRx, bcAllocs, rarAllocs, dataAllocs, ulAllocs)
    }

    function TtiTxDl(): (t: nat)
      reads this
      ensures t < RING
    {
      TtiAdd(ttiRx, DL_DELAY)
    }

    function TtiTxUl(): (t: nat)
      reads this
      ensures t < RING
    {
      TtiAdd(ttiRx, UL_DELAY)
    }

    constructor (dl: array<bool>, ul: array<bool>)
      requires dl.Length == RING && ul.Length == RING && dl != ul
      ensures Valid() && this.dl == dl && this.ul == ul && Val() == NewSlot(10241)
    {
      this.dl := dl;
      this.ul := ul;
      ttiRx := 10241;
      bcAllocs, rarAllocs, dataAllocs, ulAllocs := [], [], [], [];
    }

    method NewTti(tti: nat)
      modifies this
      ensures Val() == NewSlot(tti)
    {
      bcAllocs := [];
      rarAllocs := [];
      dataAllocs := [];
      ulAllocs := [];
      ttiRx := tti;
    }

    method IsDlAlloc(user: SchedUe) returns (r: bool)
      ensures r == HasAlloc(dataAllocs, user.rnti)
    {
      var i := 0;
      while i < |dataAllocs|
        invariant 0 <= i <= |dataAllocs| && forall k :: 0 <= k < i ==> dataAllocs[k].rnti != user.rnti
      {
        if dataAllocs[i].rnti == user.rnti { return true; }
        i := i + 1;
      }
      return false;
    }

    method IsUlAlloc(user: SchedUe) returns (r: bool)
      ensures r == HasUlAlloc(ulAllocs, user.rnti)
    {
      var i := 0;
      while i < |ulAllocs|
        invariant 0 <= i <= |ulAllocs| && forall k :: 0 <= k < i ==> ulAllocs[k].rnti != user.rnti
      {
        if ulAllocs[i].rnti == user.rnti { return true; }
        i := i + 1;
      }
      return false;
    }

    /** Answers the first detection of a pending RAR, if it has one. */
    method AllocRar(rar: PendingRar) returns (o: Outcome, n: nat)
      modifies `rarAllocs
      ensures if rar.grants == [] then o == Error && n == 0 && rarAllocs == old(rarAllocs)
              else o == Success && n == 1 && rarAllocs == old(rarAllocs) + [RarAlloc(rar.raRnti, rar.grants[0])]
    {
      if |rar.grants| == 0 { return Error, 0; }
      // the control channel never refuses, so the first try with all grants ends the search
      rarAllocs := rarAllocs + [RarAlloc(rar.raRnti, rar.grants[0])];
      return Success, 1;
    }

    /** Grants a user a downlink block: the DCI now, the data in the earliest free subframes from five
        subframes later on. The search ends because one turn of the ring has room enough. */
    method AllocDlUser(user: SchedUe, maxData: nat) returns (o: Outcome)
      requires Valid() && user.Valid()
      requires Room(dl[..], At(TtiTxDl(), 5)) > N_SF[ISf(maxData)]
      modifies `dataAllocs, dl, user`lch, user`msgWaitTimer
      ensures user.Valid()
      ensures var t, tti := old(dl[..]), TtiTxDl();
              if HasAlloc(old(dataAllocs), user.rnti) || !UserCanStart(t, tti) then
                && o == (if HasAlloc(old(dataAllocs), user.rnti) then Error else RbCollision)
                && dl[..] == t && dataAllocs == old(dataAllocs) && user.Val() == old(user.Val())
              else
                && o == Success
                && dl[..] == Reserve(t, tti, Offsets(UserMarks(t, tti, maxData)))
                && dataAllocs == old(dataAllocs) + [DlAlloc(user.rnti, ISf(maxData))]
                && user.Val() == Granted(old(user.Val()))
    {
      hide Reserve, UserMarks, Room, TtiAdd, Offsets, Fit;
      var has := IsDlAlloc(user);
      if has { return Error; }
      var tti := TtiTxDl();
      if !IsValidDlSf(tti) { return RbCollision; }
      if dl[tti] { return RbCollision; }
      if tti % 8 >= 2 { return RbCollision; }
      var test := new BcSched();
      assert 10 * (tti / 10) + tti % 10 == tti;
      var isSib1 := test.IsSib1Sf(tti / 10, tti % 10);
      if isSib1 { return RbCollision; }

      hide IsValidDlSf, Timing.IsSib1Sf;
      var iSf := 0;
      if maxData > 20 { iSf := 2; }
      var n := N_SF[iSf];
      FillFrom(test, tti, n);
      UserMarksOffsets(old(dl[..]), tti, maxData);
      dataAllocs := dataAllocs + [DlAlloc(user.rnti, iSf)];
      user.UlBufferState(3, 70, false);
      user.UlWaitTimer(30, true);
      return Success;
    }

    /** The DCI's subframe and the earliest `n` subframes for the data. */
    method FillFrom(test: BcSched, tti: nat, n: nat)
      requires Valid() && test.Valid() && tti < RING
      requires Room(dl[..], At(tti, 5)) > n
      modifies dl
      ensures var t := old(dl[..]); var u: Table := t[tti := true];
              dl[..] == Reserve(u, At(tti, 5), Fit(u, At(tti, 5), n))
    {
      hide IsValidDlSf, Timing.IsSib1Sf, Reserve, Room, At, First, Count;
      ghost var t := dl[..];
      RoomAfterMark(t, At(tti, 5), tti);
      dl[tti] := true;
      var start := TtiAdd(tti, 5);
      TtiAddIsAt(tti, 5);
      ghost var u: Table := dl[..];
      assert u == t[tti := true];
      ghost var e := Free(u, start);
      RoomIs(u, start);
      ReserveNothing(u, start);
      ghost var done: seq<nat> := [];
      var allocI: nat, rem: nat := 0, n;
      while rem > 0
        invariant rem <= n
        invariant dl[..] == Reserve(u, start, done)
        invariant forall k :: 0 <= k < |done| ==> done[k] < allocI
        invariant done + First(e, allocI, RING, rem) == First(e, 0, RING, n)
        invariant Count(e, allocI, RING) >= rem
        decreases RING - allocI
      {
        SearchStep(e, allocI, RING, rem);
        var a := TtiAdd(start, allocI);
        TtiAddIsAt(start, allocI);
        assert 10 * (a / 10) + a % 10 == a;
        var isSib1 := test.IsSib1Sf(a / 10, a % 10);
        StillFree(u, start, done, allocI);
        assert dl[a] == dl[..][a];
        if IsValidDlSf(a) && !dl[a] && !isSib1 {
          dl[a] := true;
          ReserveOne(u, start, done, allocI);
          done := done + [allocI];
          rem := rem - 1;
        }
        allocI := allocI + 1;
      }
      NothingLeft(e, allocI, RING);
      assert done == Fit(u, start, n);
    }

    /** Reserves uplink resources: the block a RAR announced, or a grant for new data with its DCI. */
    method AllocUl(user: SchedUe, kind: UlKind, blockLen: nat, blockMcs: nat) returns (o: Outcome)
      requires Valid() && user.Valid()
      requires kind.Msg3? ==> blockLen == UL_LEN && blockMcs == 0
      modifies `ulAllocs, ul, user`msgWaitTimer
      ensures user.Valid()
      ensures kind.Msg3? ==>
                var m := UlSpec.AllocMsg3(old(ul[..]), old(ulAllocs), ttiRx, user.rnti);
                UlOut(ul[..], ulAllocs, o) == m && user.Val() == old(user.Val())
      ensures kind.NewTx? ==>
                NewTxOut(ul[..], ulAllocs, user.Val(), o)
                == AllocNewTx(old(dl[..]), old(ul[..]), old(ulAllocs), ttiRx, old(user.Val()))
    {
      var has := IsUlAlloc(user);
      if has { return Error; }
      var len, mcs := blockLen, blockMcs;
      if kind.Msg3? {
        var free := ReserveMsg3();
        if !free { return RbCollision; }
      } else {
        len := 4;
        var pending := user.GetPendingUlNewData();
        mcs := if pending >= 125 then 12 else 9;
        if user.msgWaitTimer != 0 {
          user.msgWaitTimer := user.msgWaitTimer - 1;
          return DciCollision;
        }
        var tti, ttiUl := TtiTxDl(), TtiTxUl();
        if !IsValidDlSf(tti) {
          return DciCollision;
        } else if dl[tti] {
          return DciCollision;
        } else if tti % 8 >= 2 {
          return DciCollision;
        }
        var i := 0;
        while i < len
          invariant 0 <= i <= len && (i > 0 ==> !ul[ttiUl])
        {
          if ul[ttiUl] { return RbCollision; }
          i := i + 1;
        }
        MarkUl(ttiUl, tti, len);
      }
      ulAllocs := ulAllocs + [UlAlloc(kind, user.rnti, mcs, len)];
      return Success;
    }

    /** Marks one uplink subframe, as often as the block is long, and the subframe of the DCI. */
    method MarkUl(ttiUl: nat, ttiDl: nat, len: nat)
      requires Valid() && ttiUl < RING && ttiDl < RING && len > 0
      modifies ul
      ensures ul[..] == old(ul[..])[ttiUl := true][ttiDl := true]
    {
      var i := 0;
      while i < len
        invariant 0 <= i <= len && ul[..] == if i == 0 then old(ul[..]) else old(ul[..])[ttiUl := true]
      {
        ul[ttiUl] := true;
        i := i + 1;
      }
      ul[ttiDl] := true;
    }

    /** Reserves the Msg3 block of this slot, all of it or nothing. */
    method ReserveMsg3() returns (free: bool)
      requires Valid()
      modifies ul
      ensures free == FreeRun(old(ul[..]), Msg3Start(ttiRx), UL_LEN)
      ensures ul[..] == if free then Reserve(old(ul[..]), Msg3Start(ttiRx), Upto(UL_LEN)) else old(ul[..])
    {
      hide IsValidDlSf, Reserve, TtiAdd;
      var dci := (TtiTxDl() + RING - MSG3_DELAY) % RING;
      var rarTti := (dci + 5) % RING;
      ghost var first, steps := rarTti, 0;
      SkipStep(first, 0);
      while !IsValidDlSf(rarTti)
        invariant rarTti == At(first, steps) && steps <= StepsToValid(first)
        invariant ul[..] == old(ul[..])
        decreases 2 - steps
      {
        SkipStep(first, steps);
        rarTti := TtiAdd(rarTti, 1);
        steps := steps + 1;
      }
      SkipStep(first, steps);
      var start := rarTti + 13;
      assert start == Msg3Start(ttiRx);
      hide At, Msg3Start;
      ghost var t := ul[..];
      assert t == old(ul[..]) && Upto(0) == [];
      var i: nat := 0;
      while i < UL_LEN
        invariant i <= UL_LEN && ul[..] == t && forall k :: 0 <= k < i ==> !t[At(start, k)]
      {
        var a := TtiAdd(start, i);
        TtiAddIsAt(start, i);
        assert ul[a] == ul[..][a];
        if ul[a] { return false; }
        i := i + 1;
      }
      i := 0;
      ReserveNothing(t, start);
      while i < UL_LEN
        invariant i <= UL_LEN && ul[..] == Reserve(t, start, Upto(i))
      {
        var a := TtiAdd(start, i);
        TtiAddIsAt(start, i);
        ul[a] := true;
        ReserveOne(t, start, Upto(i), i);
        assert Upto(i) + [i] == Upto(i + 1);
        i := i + 1;
      }
      return true;
    }
  }

  /** Skipping one subframe at a time ends at the next valid one, in at most two steps. */
  lemma SkipStep(first: nat, steps: nat)
    requires first < RING && steps <= StepsToValid(first)
    ensures At(first, 0) == first
    ensures IsValidDlSf(At(first, steps)) <==> steps == StepsToValid(first)
    ensures TtiAdd(At(first, steps), 1) == At(first, steps + 1)
    ensures At(first, steps) == (first + steps) % RING
  {
    AtAt(first, steps, 1);
    TtiAddIsAt(At(first, steps), 1);
    RingCalendar(first + steps);
    hide IsValidDlSf;
  }

  lemma TtiAddIsAt(a: nat, b: nat)
    ensures TtiAdd(a, b) == At(a, b)
  {
  }

  lemma RoomIs(t: Table, start: nat)
    ensures Room(t, start) == Count(Free(t, start), 0, RING)
  {
  }

  /** Within one turn the search does not come back to a subframe it has taken. */
  lemma StillFree(t: Table, start: nat, done: seq<nat>, i: nat)
    requires i < RING && forall k :: 0 <= k < |done| ==> done[k] < i
    ensures Reserve(t, start, done)[At(start, i)] == t[At(start, i)]
  {
    hide At;
    ReserveAt(t, start, done, At(start, i));
    forall k | 0 <= k < |done| ensures At(start, done[k]) != At(start, i) {
      AtInjective(start, done[k], i);
    }
  }

  lemma UserMarksOffsets(t: Table, tti: nat, maxData: nat)
    requires tti < RING
    ensures Reserve(t, tti, Offsets(UserMarks(t, tti, maxData)))
            == Reserve(t[tti := true], At(tti, 5), UserFit(t, tti, maxData))
  {
    var ms, f := UserMarks(t, tti, maxData), UserFit(t, tti, maxData);
    assert Offsets(ms) == [0] + seq(|f|, k requires 0 <= k < |f| => 5 + f[k]);
    hide UserMarks, UserFit;
    ShiftReserve(t, tti, f);
  }

  lemma {:induction false} ShiftReserve(t: Table, tti: nat, f: seq<nat>)
    requires tti < RING
    ensures Reserve(t, tti, [0] + seq(|f|, k requires 0 <= k < |f| => 5 + f[k])) == Reserve(t[tti := true], At(tti, 5), f)
  {
    var s := [0] + seq(|f|, k requires 0 <= k < |f| => 5 + f[k]);
    if f == [] {
      assert s == [0] && s[..0] == [];
    } else {
      var n := |f| - 1;
      ShiftReserve(t, tti, f[..n]);
      assert s[..n + 1] == [0] + seq(n, k requires 0 <= k < n => 5 + f[..n][k]);
      AtAt(tti, 5, f[n]);
    }
  }
}
