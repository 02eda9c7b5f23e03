/** The scheduler's record of one UE. */
module SchedulerUe {
  import opened Packing
  import opened Estimate

  /** `n` control elements join the queue: contention resolution in front, the others behind. */
  function WithCes(ces: seq<Ce>, ce: Ce, n: nat): seq<Ce> {
    if ce == ConResId then seq(n, _ => ce) + ces else ces + seq(n, _ => ce)
  }

  lemma OneMoreCe(ces: seq<Ce>, ce: Ce, n: nat)
    ensures WithCes(ces, ce, n + 1) == if ce == ConResId then [ce] + WithCes(ces, ce, n) else WithCes(ces, ce, n) + [ce]
    ensures WithCes(ces, ce, 0) == ces
  {
    if ce == ConResId { assert seq(n + 1, _ => ce) == [ce] + seq(n, _ => ce); }
    else { assert seq(n + 1, _ => ce) == seq(n, _ => ce) + [ce]; }
  }

  function UlBytes(lch: seq<Bearer>, i: nat): nat
    decreases |lch| - i
  {
    if i >= |lch| then 0 else (if IsUl(lch[i]) then lch[i].bsr else 0) + UlBytes(lch, i + 1)
  }

  /** What the UE is believed to have for the uplink; a scheduling request stands for 125 bytes. */
  function PendingUl(ue: UeState): nat {
    var n := UlBytes(ue.lch, 0);
    if n == 0 && ue.sr then 125 else n
  }

  /** The first non-empty queue from `k` on, or the number of queues. */
  function FirstFull(q: seq<nat>, k: nat): (j: nat)
    requires k <= |q|
    ensures k <= j <= |q|
    ensures forall i :: k <= i < j ==> q[i] == 0
    ensures j < |q| ==> q[j] > 0
    decreases |q| - k
  {
    if k == |q| || q[k] > 0 then k else FirstFull(q, k + 1)
  }

  lemma {:induction false} FirstFullIs(q: seq<nat>, k: nat, j: nat)
    requires k <= j < |q| && q[j] > 0 && forall i :: k <= i < j ==> q[i] == 0
    ensures FirstFull(q, k) == j
  {
  }

  lemma {:induction false} SweepSkips(q: seq<nat>, i: nat, k: nat, room: nat)
    requires i <= k <= |q| && forall j :: i <= j < k ==> q[j] == 0
    ensures Sweep(q, i, room) == Sweep(q, k, room)
    decreases k - i
  {
    if i < k { SweepSkips(q, i + 1, k, room); }
  }

  /** Starting over from the first channel after each SDU is the same as one sweep. */
  lemma RescanIsSweep(q: seq<nat>, room: nat)
    requires room >= MIN_SDU
    ensures var k := FirstFull(q, 0);
            if k == |q| then Sweep(q, 0, room) == Packed(q, [], room)
            else
              var n := Min(q[k], MaxSdu(room));
              var s := Sweep(q[k := q[k] - n], 0, room - Cost(n));
              Sweep(q, 0, room) == s.(sdus := [Sdu(k, n)] + s.sdus)
  {
    var k := FirstFull(q, 0);
    SweepSkips(q, 0, k, room);
    if k < |q| {
      var n := Min(q[k], MaxSdu(room));
      var q1 := q[k := q[k] - n];
      if n == q[k] { SweepSkips(q1, 0, k + 1, room - Cost(n)); }
    }
  }

  lemma NoRoom(q: seq<nat>, room: nat)
    requires room < MIN_SDU
    ensures Sweep(q, 0, room) == Packed(q, [], room)
  {
  }

  lemma WithOwnQueues(lch: seq<Bearer>)
    ensures WithQueues(lch, Queues(lch)) == lch
  {
  }

  /** What a downlink grant does to the user: a promised report on channel 3 and a wait of 30 attempts. */
  function Granted(ue: UeState): UeState
    requires |ue.lch| == MAX_LC
  {
    ue.(lch := ue.lch[3 := ue.lch[3].(bsr := ue.lch[3].bsr + 70)], timer := 30)
  }

  /** A new user's record. */
  function NewUe(rnti: nat): UeState {
    UeState(rnti, seq(MAX_LC, _ => Bearer(Idle, 0, 0, 0)), [], 0, false)
  }

  /** Configuration sets the directions of the bearers and leaves queues, reports, control elements and the wait
      timer alone. */
  function Configured(ue: UeState, dirs: seq<Direction>): (r: UeState)
    requires |ue.lch| == MAX_LC && |dirs| == MAX_LC
    ensures |r.lch| == MAX_LC && r == ue.(lch := r.lch)
    ensures forall l :: 0 <= l < MAX_LC ==> r.lch[l] == ue.lch[l].(dir := dirs[l])
  {
    ue.(lch := seq(MAX_LC, l requires 0 <= l < MAX_LC => ue.lch[l].(dir := dirs[l])))
  }

  class SchedUe {
    const rnti: nat
    var lch: seq<Bearer>
    var pendingCes: seq<Ce>
    var msgWaitTimer: nat
    var sr: bool

    predicate Valid()
      reads this
    {
      |lch| == MAX_LC
    }

    function Val(): UeState
      reads this
    {
      UeState(rnti, lch, pendingCes, msgWaitTimer, sr)
    }

    constructor (rnti: nat)
      ensures Valid() && Val() == NewUe(rnti)
    {
      this.rnti := rnti;
      lch := seq(MAX_LC, _ => Bearer(Idle, 0, 0, 0));
      pendingCes := [];
      msgWaitTimer := 0;
      sr := false;
    }

    method SetCfg(dirs: seq<Direction>)
      requires Valid() && |dirs| == MAX_LC
      modifies `lch
      ensures |lch| == MAX_LC && Val() == Configured(old(Val()), dirs)
    {
      var i := 0;
      while i < MAX_LC
        invariant 0 <= i <= MAX_LC && |lch| == MAX_LC
        invariant forall l :: 0 <= l < MAX_LC ==> lch[l] == if l < i then old(lch)[l].(dir := dirs[l]) else old(lch)[l]
      {
        lch := lch[i := lch[i].(dir := dirs[i])];
        i := i + 1;
      }
    }

    method DlBufferState(lcid: nat, tx: nat, retx: nat)
      requires Valid()
      modifies `lch
      ensures lch == if lcid < MAX_LC then old(lch)[lcid := old(lch)[lcid].(bufTx := tx, bufRetx := retx)] else old(lch)
    {
      if lcid < MAX_LC {
        lch := lch[lcid := lch[lcid].(bufRetx := retx)];
        lch := lch[lcid := lch[lcid].(bufTx := tx)];
      }
    }

    method MacBufferState(ce: Ce, n: nat)
      modifies `pendingCes
      ensures pendingCes == WithCes(old(pendingCes), ce, n)
    {
      hide WithCes;
      OneMoreCe(pendingCes, ce, 0);
      var i := 0;
      while i < n
        invariant 0 <= i <= n && pendingCes == WithCes(old(pendingCes), ce, i)
      {
        OneMoreCe(old(pendingCes), ce, i);
        if ce == ConResId { pendingCes := [ce] + pendingCes; } else { pendingCes := pendingCes + [ce]; }
        i := i + 1;
      }
    }

    method UlBufferState(lcid: nat, bsr: nat, setValue: bool)
      requires Valid()
      modifies `lch
      ensures lch == if lcid >= MAX_LC then old(lch)
                     else old(lch)[lcid := old(lch)[lcid].(bsr := if setValue then bsr else old(lch)[lcid].bsr + bsr)]
    {
      if lcid < MAX_LC {
        lch := lch[lcid := lch[lcid].(bsr := if setValue then bsr else lch[lcid].bsr + bsr)];
      }
    }

    method UlWaitTimer(time: nat, setValue: bool)
      modifies `msgWaitTimer
      ensures msgWaitTimer == if setValue then time else old(msgWaitTimer) + time
    {
      msgWaitTimer := if setValue then time else msgWaitTimer + time;
    }

    method SetSr(on: bool)
      modifies `sr
      ensures sr == on
    {
      sr := on;
    }

    method GetPendingUlNewData() returns (n: nat)
      requires Valid()
      ensures n == PendingUl(Val())
    {
      n := 0;
      var i := 0;
      while i < MAX_LC
        invariant 0 <= i <= MAX_LC && n + UlBytes(lch, i) == UlBytes(lch, 0)
      {
        if IsUl(lch[i]) { n := n + lch[i].bsr; }
        i := i + 1;
      }
      if n == 0 && sr { n := 125; }
    }

    method GetRequestedDlBytes() returns (min: nat, max: nat)
      requires Valid()
      ensures Request(min, max) == Requested(Val())
    {
      if !IsDl(lch[0]) { return 0, 0; }
      var srb0, ce, rb := 0, 0, 0;
      if lch[0].bufTx > 0 || lch[0].bufRetx > 0 {
        srb0 := SduBytes(0, lch[0].bufRetx);
        srb0 := srb0 + SduBytes(0, lch[0].bufTx);
      }
      var k := 0;
      while k < |pendingCes|
        invariant 0 <= k <= |pendingCes| && ce + CeTotal(pendingCes[k..]) == CeTotal(pendingCes)
      {
        ce := ce + CeSize(pendingCes[k]);
        assert pendingCes[k..][1..] == pendingCes[k + 1..];
        k := k + 1;
      }
      var i := 1;
      while i < MAX_LC
        invariant 1 <= i <= MAX_LC && rb + RbBytes(lch, i) == RbBytes(lch, 1)
      {
        if IsDl(lch[i]) {
          rb := rb + SduBytes(i, lch[i].bufRetx);
          rb := rb + SduBytes(i, lch[i].bufTx);
        }
        i := i + 1;
      }
      max := srb0 + ce + rb;
      min := srb0;
      if |pendingCes| > 0 && pendingCes[0] == ConResId { min := min + CeSize(pendingCes[0]); }
      if min == 0 {
        if ce > 0 { min := CeSize(pendingCes[0]); } else if rb > 0 { min := MIN_SDU; }
      }
    }

    /** Takes one RLC PDU of at most `room` bytes from the first bearer that has data. */
    method AllocRlcPdu(room: nat) returns (n: nat, queue: nat)
      requires Valid() && room > 0
      modifies `lch
      ensures Valid()
      ensures var q := old(Queues(lch)); var k := FirstFull(q, 0);
              if k == |q| then n == 0 && lch == old(lch)
              else n == Min(q[k], room) && queue == k && lch == WithQueues(old(lch), q[k := q[k] - n])
    {
      n, queue := 0, 0;
      ghost var q := Queues(lch);
      var i := 0;
      while i < MAX_LC && n == 0
        invariant 0 <= i <= MAX_LC
        invariant n == 0 ==> lch == old(lch) && forall j :: 0 <= j < 2 * i ==> q[j] == 0
        invariant n > 0 ==> queue < |q| && FirstFull(q, 0) == queue && n == Min(q[queue], room)
                            && lch == WithQueues(old(lch), q[queue := q[queue] - n])
      {
        assert q[2 * i] == lch[i].bufRetx && q[2 * i + 1] == lch[i].bufTx;
        if lch[i].bufRetx > 0 {
          n, queue := Min(lch[i].bufRetx, room), 2 * i;
          FirstFullIs(q, 0, 2 * i);
          lch := lch[i := lch[i].(bufRetx := lch[i].bufRetx - n)];
        } else if lch[i].bufTx > 0 {
          n, queue := Min(lch[i].bufTx, room), 2 * i + 1;
          FirstFullIs(q, 0, 2 * i + 1);
          lch := lch[i := lch[i].(bufTx := lch[i].bufTx - n)];
        }
        i := i + 1;
      }
    }

    /** Fills `total` bytes with SDUs; the bytes used never exceed it. */
    method AllocateMacSdus(total: nat) returns (used: nat, sdus: seq<Sdu>)
      requires Valid()
      modifies `lch
      ensures Valid() && used <= total
      ensures var p := Sweep(old(Queues(lch)), 0, total);
              |p.q| == 2 * MAX_LC && sdus == p.sdus && used + p.room == total && lch == WithQueues(old(lch), p.q)
    {
      hide Sweep, FirstFull, Queues;
      var rem: nat := total;
      sdus := [];
      ghost var goal := Sweep(Queues(lch), 0, total);
      WithOwnQueues(lch);
      while rem >= MIN_SDU
        invariant rem <= total && Valid()
        invariant lch == WithQueues(old(lch), Queues(lch))
        invariant var s := Sweep(Queues(lch), 0, rem); goal == Packed(s.q, sdus + s.sdus, s.room)
        decreases rem
      {
        RescanIsSweep(Queues(lch), rem);
        ghost var q := Queues(lch);
        var maxSdu := rem - Subheader(rem - 2);
        var n, queue := AllocRlcPdu(maxSdu);
        if n == 0 { break; }
        QueuesOf(lch, q[queue := q[queue] - n]);
        rem := rem - (n + Subheader(n));
        sdus := sdus + [Sdu(queue, n)];
      }
      if rem < MIN_SDU { NoRoom(Queues(lch), rem); }
      used := total - rem;
    }

    /** Takes control elements from the head of the queue while they fit. */
    method AllocateMacCes(total: nat) returns (used: nat, ces: seq<Ce>)
      modifies `pendingCes
      ensures var n := CesThatFit(old(pendingCes), total);
              ces == old(pendingCes)[..n] && pendingCes == old(pendingCes)[n..] && used == CeTotal(ces) <= total
    {
      var rem: nat := total;
      ces := [];
      ghost var all, n := pendingCes, CesThatFit(pendingCes, total);
      while |pendingCes| > 0
        invariant |ces| <= |all| && ces == all[..|ces|] && pendingCes == all[|ces|..]
        invariant rem <= total && |ces| + CesThatFit(pendingCes, rem) == n
        invariant total - rem + CeTotal(all[|ces|..n]) == CeTotal(all[..n])
        decreases |pendingCes|
      {
        var size := CeSize(pendingCes[0]);
        if rem < size { break; }
        assert all[|ces|..n][1..] == all[|ces| + 1..n];
        ces := ces + [pendingCes[0]];
        rem := rem - size;
        pendingCes := pendingCes[1..];
      }
      assert |ces| == n && all[n..n] == [];
      used := total - rem;
    }

    /** The smallest MCS whose block is larger than the request, or the largest MCS. */
    static method SearchMcs(iSf: nat, request: nat) returns (mcs: nat, tbs: nat)
      requires iSf < 8
      ensures mcs == PickMcs(0, iSf, request) && tbs == TbsBytes(mcs, iSf)
    {
      hide TbsBytes;
      mcs, tbs := 0, 0;
      while mcs < N_MCS
        invariant mcs <= N_MCS
        invariant if mcs < N_MCS then PickMcs(0, iSf, request) == PickMcs(mcs, iSf, request)
                  else PickMcs(0, iSf, request) == N_MCS - 1 && tbs == TbsBytes(N_MCS - 1, iSf)
      {
        tbs := TbsBytes(mcs, iSf);
        if tbs > request { return; }
        mcs := mcs + 1;
      }
      mcs := N_MCS - 1;
    }

    method GenerateFormatN1(iSf: nat) returns (mcs: nat, tbs: nat, ces: seq<Ce>, sdus: seq<Sdu>)
      requires Valid() && iSf < 8
      modifies `lch, `pendingCes
      ensures Valid()
      ensures Grant(Val(), mcs, tbs, ces, sdus) == FormatN1(old(Val()), iSf)
    {
      hide Sweep, PickMcs, CesThatFit, Requested, TbsBytes, CeTotal, Queues;
      var min, max := GetRequestedDlBytes();
      mcs, tbs := SearchMcs(iSf, max);
      var ceBytes, sduBytes;
      ceBytes, ces := AllocateMacCes(tbs);
      sduBytes, sdus := AllocateMacSdus(tbs - ceBytes);
    }
  }
}
