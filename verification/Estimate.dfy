/** The request of a UE against what the packer needs: is the estimate of one function good
    enough for the greedy packer of another? */
module Estimate {
  import opened Packing
  import opened DlSpec

  /** Transport block sizes of NPDSCH in bits, table 16.4.1.5.1-1 of TS 36.213. */
  const TBS: seq<seq<nat>> := [
    [16, 32, 56, 88, 120, 152, 208, 256],
    [24, 56, 88, 144, 176, 208, 256, 344],
    [32, 72, 144, 176, 208, 256, 328, 424],
    [40, 104, 176, 208, 256, 328, 440, 568],
    [56, 120, 208, 256, 328, 408, 552, 680],
    [72, 144, 224, 328, 424, 504, 680, 0],
    [88, 176, 256, 392, 504, 600, 0, 0],
    [104, 224, 328, 472, 584, 680, 0, 0],
    [120, 256, 392, 536, 680, 0, 0, 0],
    [136, 296, 456, 616, 0, 0, 0, 0],
    [144, 328, 504, 680, 0, 0, 0, 0],
    [176, 376, 584, 0, 0, 0, 0, 0],
    [208, 440, 680, 0, 0, 0, 0, 0]]

  const N_MCS: nat := 13

  function TbsBytes(mcs: nat, iSf: nat): nat
    requires mcs < N_MCS && iSf < 8
  {
    TBS[mcs][iSf] / 8
  }

  /** The first MCS from `m` on whose block is larger than the request; the last one if none is. */
  function PickMcs(m: nat, iSf: nat, request: nat): (r: nat)
    requires m < N_MCS && iSf < 8
    ensures m <= r < N_MCS
    ensures TbsBytes(r, iSf) > request || r == N_MCS - 1
    ensures forall k :: m <= k < r ==> TbsBytes(k, iSf) <= request
    decreases N_MCS - m
  {
    if TbsBytes(m, iSf) > request || m == N_MCS - 1 then m else PickMcs(m + 1, iSf, request)
  }

  // ---------------------------------------------------------------- the request

  /** Bytes the estimate sets aside for a queue of `bytes` of channel `lcid`. */
  function SduBytes(lcid: nat, bytes: nat): nat {
    if bytes == 0 then 0 else if lcid == 0 then Cost(bytes) else Max(Cost(bytes), MIN_SDU)
  }

  function Srb0Bytes(b: Bearer): nat {
    SduBytes(0, b.bufRetx) + SduBytes(0, b.bufTx)
  }

  /** The bearers from `i` on that carry downlink data. */
  function RbBytes(lch: seq<Bearer>, i: nat): nat
    decreases |lch| - i
  {
    if i >= |lch| then 0
    else (if IsDl(lch[i]) then SduBytes(i, lch[i].bufRetx) + SduBytes(i, lch[i].bufTx) else 0) + RbBytes(lch, i + 1)
  }

  datatype Request = Request(min: nat, max: nat)

  function Requested(ue: UeState): Request
    requires |ue.lch| == MAX_LC
  {
    if !IsDl(ue.lch[0]) then Request(0, 0)
    else
      var srb0, ce, rb := Srb0Bytes(ue.lch[0]), CeTotal(ue.ces), RbBytes(ue.lch, 1);
      var m := srb0 + (if ue.ces != [] && ue.ces[0] == ConResId then CeSize(ConResId) else 0);
      Request(if m > 0 then m else if ce > 0 then CeSize(ue.ces[0]) else if rb > 0 then MIN_SDU else 0,
              srb0 + ce + rb)
  }

  /** A user asks for a minimum exactly when it has something to send. */
  lemma MinWhenAnything(ue: UeState)
    requires |ue.lch| == MAX_LC
    ensures Requested(ue).min > 0 <==> Requested(ue).max > 0
  {
  }

  // ---------------------------------------------------------------- its size

  /** The bearers as the estimate sees them: data on one that does not carry the downlink does not count. */
  function DlOnly(lch: seq<Bearer>): (r: seq<Bearer>)
    ensures |r| == |lch|
    ensures forall l :: 0 <= l < |lch| ==> r[l] == if IsDl(lch[l]) then lch[l] else lch[l].(bufTx := 0, bufRetx := 0)
  {
    seq(|lch|, l requires 0 <= l < |lch| => if IsDl(lch[l]) then lch[l] else lch[l].(bufTx := 0, bufRetx := 0))
  }

  /** Payload bytes, subheader bytes, and what SDUs of one and two bytes lack to five, in the queues from `k` on. */
  function Payload(q: seq<nat>, k: nat): nat
    decreases |q| - k
  {
    if k >= |q| then 0 else q[k] + Payload(q, k + 1)
  }

  function Headers(q: seq<nat>, k: nat): nat
    decreases |q| - k
  {
    if k >= |q| then 0 else (if q[k] == 0 then 0 else if q[k] <= 128 then 2 else 3) + Headers(q, k + 1)
  }

  function Lacking(q: seq<nat>, k: nat): nat
    decreases |q| - k
  {
    if k >= |q| then 0 else (if q[k] == 1 then 2 else if q[k] == 2 then 1 else 0) + Lacking(q, k + 1)
  }

  /** All queues as whole SDUs take their payload and a subheader each. */
  lemma {:induction false} TotalExactly(q: seq<nat>, k: nat)
    ensures Total(Whole(q, k)) == Payload(q, k) + Headers(q, k)
    decreases |q| - k
  {
    if k < |q| {
      TotalExactly(q, k + 1);
      if q[k] > 0 {
        assert Whole(q, k) == [Sdu(k, q[k])] + Whole(q, k + 1);
        assert Whole(q, k)[1..] == Whole(q, k + 1);
      } else {
        assert Whole(q, k) == Whole(q, k + 1);
      }
    }
  }

  lemma {:induction false} RbExactly(lch: seq<Bearer>, i: nat)
    requires 1 <= i
    ensures var q := Queues(DlOnly(lch)); RbBytes(lch, i) == Payload(q, 2 * i) + Headers(q, 2 * i) + Lacking(q, 2 * i)
    decreases |lch| - i
  {
    hide Queues, SduBytes;
    var q := Queues(DlOnly(lch));
    if i < |lch| {
      RbExactly(lch, i + 1);
      PairExactly(q, 2 * i);
      assert q[2 * i] == DlOnly(lch)[i].bufRetx && q[2 * i + 1] == DlOnly(lch)[i].bufTx;
      SduAbove(i, q[2 * i]);
      SduAbove(i, q[2 * i + 1]);
    }
  }

  lemma SduAbove(lcid: nat, bytes: nat)
    requires lcid > 0
    ensures SduBytes(lcid, bytes) == SduBytes(1, bytes) && SduBytes(lcid, 0) == 0
  {
  }

  lemma PairExactly(q: seq<nat>, k: nat)
    requires k + 1 < |q|
    ensures Payload(q, k) + Headers(q, k) + Lacking(q, k)
            == SduBytes(1, q[k]) + SduBytes(1, q[k + 1]) + (Payload(q, k + 2) + Headers(q, k + 2) + Lacking(q, k + 2))
    ensures Payload(q, k) + Headers(q, k)
            == SduBytes(0, q[k]) + SduBytes(0, q[k + 1]) + (Payload(q, k + 2) + Headers(q, k + 2))
  {
  }

  /** Control elements by kind: seven bytes for contention resolution, five for the long activation, two for a
      timing advance or an activation, one for the others. */
  lemma {:induction false} CeTotalExactly(ces: seq<Ce>)
    ensures var m := multiset(ces);
            CeTotal(ces)
            == 7 * m[ConResId] + 5 * m[ScellActivation4] + 2 * (m[TaCmd] + m[ScellActivation]) + m[DrxCmd] + m[OtherCe]
  {
    if ces != [] {
      CeTotalExactly(ces[1..]);
      assert ces == [ces[0]] + ces[1..];
    }
  }

  /** The request of every user, exactly: all its control elements, all its downlink data with subheaders, and what
      one- and two-byte SDUs above channel 0 lack to five bytes. At least it asks for SRB0 with a contention
      resolution that comes first, else for the first control element, else for five bytes. */
  lemma RequestExactly(ue: UeState)
    requires |ue.lch| == MAX_LC
    ensures var q := Queues(DlOnly(ue.lch)); var first := ue.ces != [] && ue.ces[0] == ConResId;
            Requested(ue) ==
            if !IsDl(ue.lch[0]) then Request(0, 0)
            else Request(if q[0] > 0 || q[1] > 0 || first
                         then Payload(q[..2], 0) + Headers(q[..2], 0) + (if first then 7 else 0)
                         else if ue.ces != [] then CeTotal(ue.ces[..1]) else if Payload(q, 2) > 0 then 5 else 0,
                         CeTotal(ue.ces) + Total(Whole(q, 0)) + Lacking(q, 2))
  {
    hide Total, Whole, CeSize, RbBytes;
    var q := Queues(DlOnly(ue.lch));
    assert q[2 * 0] == DlOnly(ue.lch)[0].bufRetx && q[2 * 0 + 1] == DlOnly(ue.lch)[0].bufTx;
    RbExactly(ue.lch, 1);
    TotalExactly(q, 0);
    PairExactly(q, 0);
    PairExactly(q[..2], 0);
    NoPayload(q, 2);
    FirstCe(ue.ces);
  }

  lemma {:induction false} NoPayload(q: seq<nat>, k: nat)
    ensures Payload(q, k) == 0 ==> Headers(q, k) == 0 && Lacking(q, k) == 0
    ensures Payload(q, k) == 0 <==> Empty(q, k)
    decreases |q| - k
  {
    if k < |q| { NoPayload(q, k + 1); }
  }

  lemma FirstCe(ces: seq<Ce>)
    ensures ces != [] ==> CeTotal(ces[..1]) == CeSize(ces[0]) && CeTotal(ces) >= CeSize(ces[0]) > 0
    ensures CeSize(ConResId) == 7
  {
    if ces != [] { assert ces[..1][1..] == []; }
  }

  /** Without SRB0 data and a leading contention resolution, a block carries something exactly when it has the
      minimum. */
  lemma MinIsLeast(ue: UeState, room: nat)
    requires |ue.lch| == MAX_LC && IsDl(ue.lch[0]) && OnlyDlData(ue.lch)
    requires ue.lch[0].bufRetx == 0 && ue.lch[0].bufTx == 0 && (ue.ces == [] || ue.ces[0] != ConResId)
    ensures var n := CesThatFit(ue.ces, room); CeTotal(ue.ces[..n]) <= room
    ensures var n := CesThatFit(ue.ces, room);
            n > 0 || Sweep(Queues(ue.lch), 0, room - CeTotal(ue.ces[..n])).sdus != [] <==> 0 < Requested(ue).min <= room
  {
    hide Requested, Total, Whole, Headers;
    var q := Queues(ue.lch);
    CesFit(ue.ces, room);
    RequestExactly(ue);
    assert DlOnly(ue.lch) == ue.lch;
    assert q[2 * 0] == ue.lch[0].bufRetx && q[2 * 0 + 1] == ue.lch[0].bufTx;
    NoPayload(q, 2);
    FirstCe(ue.ces);
    SendsWhenRoom(q, 0, room);
    assert Empty(q, 0) <==> Empty(q, 2);
  }

  /** The packer takes something exactly when there is data and room for five bytes. */
  lemma {:induction false} SendsWhenRoom(q: seq<nat>, k: nat, room: nat)
    ensures Sweep(q, k, room).sdus != [] <==> room >= MIN_SDU && !Empty(q, k)
    decreases |q| - k
  {
    if k < |q| { SendsWhenRoom(q, k + 1, room); }
  }

  // ---------------------------------------------------------------- the grant

  function WithQueues(lch: seq<Bearer>, q: seq<nat>): (r: seq<Bearer>)
    requires |q| == 2 * |lch|
    ensures SameBearers(lch, r)
    ensures forall l :: 0 <= l < |lch| ==> r[l].bufRetx == q[2 * l] && r[l].bufTx == q[2 * l + 1]
  {
    seq(|lch|, l requires 0 <= l < |lch| => lch[l].(bufRetx := q[2 * l], bufTx := q[2 * l + 1]))
  }

  lemma {:induction false} QueuesOf(lch: seq<Bearer>, q: seq<nat>)
    requires |q| == 2 * |lch|
    requires forall l :: 0 <= l < |lch| ==> lch[l].bufRetx == q[2 * l] && lch[l].bufTx == q[2 * l + 1]
    ensures Queues(lch) == q
  {
    forall k | 0 <= k < |q| ensures Queues(lch)[k] == q[k] {
      var l := k / 2;
      assert Queues(lch)[2 * l] == lch[l].bufRetx && Queues(lch)[2 * l + 1] == lch[l].bufTx;
    }
  }

  lemma {:induction false} EmptyQueues(lch: seq<Bearer>, i: nat)
    requires i <= |lch|
    ensures Empty(Queues(lch), 2 * i) <==> forall l :: i <= l < |lch| ==> lch[l].bufRetx == 0 && lch[l].bufTx == 0
    decreases |lch| - i
  {
    if i < |lch| {
      EmptyQueues(lch, i + 1);
      EmptyPair(Queues(lch), 2 * i);
      var q := Queues(lch);
      assert q[2 * i] == lch[i].bufRetx && q[2 * i + 1] == lch[i].bufTx;
    }
  }

  lemma EmptyPair(q: seq<nat>, k: nat)
    requires k + 1 < |q|
    ensures Empty(q, k) <==> q[k] == 0 && q[k + 1] == 0 && Empty(q, k + 2)
  {
  }

  /** What a downlink grant carries, and what it leaves with the user. */
  datatype Grant = Grant(ue: UeState, mcs: nat, tbs: nat, ces: seq<Ce>, sdus: seq<Sdu>)

  function FormatN1(ue: UeState, iSf: nat): (g: Grant)
    requires |ue.lch| == MAX_LC && iSf < 8
  {
    var mcs := PickMcs(0, iSf, Requested(ue).max);
    var tbs := TbsBytes(mcs, iSf);
    var n := CesThatFit(ue.ces, tbs);
    CesFit(ue.ces, tbs);
    var p := Sweep(Queues(ue.lch), 0, tbs - CeTotal(ue.ces[..n]));
    SweepLength(Queues(ue.lch), 0, tbs - CeTotal(ue.ces[..n]));
    Grant(ue.(ces := ue.ces[n..], lch := WithQueues(ue.lch, p.q)), mcs, tbs, ue.ces[..n], p.sdus)
  }

  lemma SweepLength(q: seq<nat>, k: nat, room: nat)
    ensures |Sweep(q, k, room).q| == |q|
    decreases |q| - k
  {
  }

  predicate AllSent(ue: UeState) {
    ue.ces == [] && forall l :: 0 <= l < |ue.lch| ==> ue.lch[l].bufRetx == 0 && ue.lch[l].bufTx == 0
  }

  /** A grant sends everything exactly when its block has the bytes the packer needs. */
  lemma GrantDrainsExactly(ue: UeState, iSf: nat)
    requires |ue.lch| == MAX_LC && iSf < 8
    ensures var g := FormatN1(ue, iSf);
            AllSent(g.ue) <==> CeTotal(ue.ces) + Need(Queues(ue.lch), 0) <= g.tbs
  {
    hide PickMcs, TbsBytes, Requested, CesThatFit, Need, Sweep, Queues;
    var g := FormatN1(ue, iSf);
    var q, n := Queues(ue.lch), CesThatFit(ue.ces, g.tbs);
    CesFit(ue.ces, g.tbs);
    var room := g.tbs - CeTotal(ue.ces[..n]);
    var p := Sweep(q, 0, room);
    DrainsExactly(q, 0, room);
    SweepLength(q, 0, room);
    QueuesOf(g.ue.lch, p.q);
    EmptyQueues(g.ue.lch, 0);
    if n == |ue.ces| { assert ue.ces[..n] == ue.ces; }
  }

  /** A grant carries the first control elements, as many as fit, and bytes of the queues, and leaves the rest with
      the user; the block holds exactly these and what is left over. */
  lemma GrantConserves(ue: UeState, iSf: nat)
    requires |ue.lch| == MAX_LC && iSf < 8
    ensures var g := FormatN1(ue, iSf);
            && g.tbs == TbsBytes(PickMcs(0, iSf, Requested(ue).max), iSf) && g.mcs == PickMcs(0, iSf, Requested(ue).max)
            && g.ces + g.ue.ces == ue.ces && (g.ue.ces != [] ==> CeTotal(g.ces) + CeSize(g.ue.ces[0]) > g.tbs)
            && CeTotal(g.ces) + Total(g.sdus) <= g.tbs
    ensures var g := FormatN1(ue, iSf);
            && g.ue == ue.(ces := g.ue.ces, lch := g.ue.lch) && SameBearers(ue.lch, g.ue.lch)
            && forall j :: 0 <= j < 2 * MAX_LC ==> Queues(g.ue.lch)[j] + Taken(g.sdus, j) == Queues(ue.lch)[j]
  {
    hide PickMcs, TbsBytes, Requested, CesThatFit, Sweep, Queues, Taken, Total, CeSize;
    var g := FormatN1(ue, iSf);
    var q, n := Queues(ue.lch), CesThatFit(ue.ces, g.tbs);
    CesFit(ue.ces, g.tbs);
    var room := g.tbs - CeTotal(ue.ces[..n]);
    PackFillsBlock(q, 0, room);
    SweepLength(q, 0, room);
    QueuesOf(g.ue.lch, Sweep(q, 0, room).q);
    forall j | 0 <= j < 2 * MAX_LC ensures Queues(g.ue.lch)[j] + Taken(g.sdus, j) == q[j] { PackConserves(q, 0, room, j); }
  }

  // ---------------------------------------------------------------- is the estimate sound?

  /** Bearers that are not configured for the downlink hold no data. */
  predicate OnlyDlData(lch: seq<Bearer>) {
    forall l :: 0 <= l < |lch| ==> IsDl(lch[l]) || (lch[l].bufRetx == 0 && lch[l].bufTx == 0)
  }

  /** All that is left to send, in the end, is a single byte of SRB0. */
  predicate OneByteTail(lch: seq<Bearer>)
    requires |lch| == MAX_LC
  {
    Empty(Queues(lch), 2) && (lch[0].bufTx == 1 || (lch[0].bufTx == 0 && lch[0].bufRetx == 1))
  }

  lemma {:induction false} RbNeed(lch: seq<Bearer>, i: nat)
    requires OnlyDlData(lch) && 1 <= i <= |lch|
    ensures Need(Queues(lch), 2 * i) <= RbBytes(lch, i)
    ensures RbBytes(lch, i) == 0 <==> Empty(Queues(lch), 2 * i)
    decreases |lch| - i
  {
    var q := Queues(lch);
    if i < |lch| {
      RbNeed(lch, i + 1);
      NeedPair(q, 2 * i);
      EmptyPair(q, 2 * i);
    }
  }

  /** `Need` over a pair of neighbouring queues. */
  lemma NeedPair(q: seq<nat>, k: nat)
    requires k + 1 < |q|
    ensures var n := Need(q, k + 2); var a, b := q[k], q[k + 1];
            Need(q, k) == if !Empty(q, k + 2) then (if a > 0 then Cost(a) else 0) + (if b > 0 then Cost(b) else 0) + n
                          else if b > 0 then (if a > 0 then Cost(a) else 0) + Max(MIN_SDU, Cost(b))
                          else if a > 0 then Max(MIN_SDU, Cost(a)) else 0
  {
    NeedZero(q, k + 2);
    assert Need(q, k + 1) == if q[k + 1] == 0 then Need(q, k + 2)
                             else if Empty(q, k + 2) then Max(MIN_SDU, Cost(q[k + 1])) else Cost(q[k + 1]) + Need(q, k + 2);
  }

  /** The estimate, plus the one byte by which a chosen block exceeds it, covers the packer's need for
      every user except one whose last queue is a single SRB0 byte. */
  lemma EstimateIsSoundExactly(ue: UeState)
    requires |ue.lch| == MAX_LC && IsDl(ue.lch[0]) && OnlyDlData(ue.lch)
    ensures CeTotal(ue.ces) + Need(Queues(ue.lch), 0) <= Requested(ue).max + 1 <==> !OneByteTail(ue.lch)
    ensures CeTotal(ue.ces) + Need(Queues(ue.lch), 0) <= Requested(ue).max + 2
  {
    RbNeed(ue.lch, 1);
    NeedPair(Queues(ue.lch), 0);
  }

  /** For requests up to 84 bytes the MCS search finds a block larger than the request. */
  lemma BlockExceedsRequest(request: nat)
    requires request <= 84
    ensures var iSf := ISf(request); TbsBytes(PickMcs(0, iSf, request), iSf) > request
  {
    var iSf := ISf(request);
    var m := PickMcs(0, iSf, request);
    assert TbsBytes(12, 0) == 26 && TbsBytes(12, 2) == 85;
  }

  /** Whether some MCS has a block of this size. */
  predicate IsBlockSize(bytes: nat, iSf: nat)
    requires iSf < 8
  {
    exists m :: 0 <= m < N_MCS && TbsBytes(m, iSf) == bytes
  }

  /** In the two columns that the scheduler uses, a larger MCS has a larger block. */
  lemma {:induction false} ColumnRises(iSf: nat, i: nat, j: nat)
    requires (iSf == 0 || iSf == 2) && i < j < N_MCS
    ensures TbsBytes(i, iSf) < TbsBytes(j, iSf)
    decreases j - i
  {
    if i + 1 < j {
      ColumnRises(iSf, i, j - 1);
      ColumnRises(iSf, j - 1, j);
    }
  }

  /** The blocks of one and of three subframes, in bytes. */
  lemma UsedBlocks(m: nat)
    requires m < N_MCS
    ensures TbsBytes(m, 0) == [2, 3, 4, 5, 7, 9, 11, 13, 15, 17, 18, 22, 26][m]
    ensures TbsBytes(m, 2) == [7, 11, 18, 22, 26, 28, 32, 41, 49, 57, 63, 73, 85][m]
  {
  }

  /** The chosen block is the smallest that is larger than the request. */
  lemma PickedIsSmallest(request: nat, m: nat)
    requires request <= 84 && m < N_MCS
    ensures var iSf := ISf(request);
            && TbsBytes(PickMcs(0, iSf, request), iSf) > request
            && (TbsBytes(m, iSf) > request ==> TbsBytes(m, iSf) >= TbsBytes(PickMcs(0, iSf, request), iSf))
  {
    hide TbsBytes;
    var iSf := ISf(request);
    var p := PickMcs(0, iSf, request);
    BlockExceedsRequest(request);
    if p < m { ColumnRises(iSf, p, m); }
  }

  /** The search picks a block one byte larger than the request exactly when there is one. */
  lemma TightBlock(request: nat)
    requires request <= 84
    ensures var iSf := ISf(request);
            TbsBytes(PickMcs(0, iSf, request), iSf) == request + 1 <==> IsBlockSize(request + 1, iSf)
  {
    hide TbsBytes;
    var iSf := ISf(request);
    var p := PickMcs(0, iSf, request);
    BlockExceedsRequest(request);
    if IsBlockSize(request + 1, iSf) {
      var m :| 0 <= m < N_MCS && TbsBytes(m, iSf) == request + 1;
      if p < m { ColumnRises(iSf, p, m); }
    }
  }

  /** One grant serves every request of at most 84 bytes, except a last single SRB0 byte when there is a block
      one byte larger than the request. */
  lemma ServedByOneGrant(ue: UeState)
    requires |ue.lch| == MAX_LC && IsDl(ue.lch[0]) && OnlyDlData(ue.lch)
    requires Requested(ue).max <= 84
    ensures var max := Requested(ue).max;
            AllSent(FormatN1(ue, ISf(max)).ue) <==> !(OneByteTail(ue.lch) && IsBlockSize(max + 1, ISf(max)))
  {
    hide TbsBytes, IsBlockSize;
    EstimateIsSoundExactly(ue);
    BlockExceedsRequest(Requested(ue).max);
    TightBlock(Requested(ue).max);
    GrantDrainsExactly(ue, ISf(Requested(ue).max));
  }

  /** The exception is real: one pending byte on SRB0 asks for 3 bytes, gets a block of 4, and stays. */
  lemma OneByteIsNeverSent()
    ensures var ue := UeState(4097, [Bearer(Both, 1, 0, 0)] + seq(MAX_LC - 1, _ => Bearer(Idle, 0, 0, 0)), [], 0, false);
            Requested(ue).max == 3 && FormatN1(ue, ISf(3)).tbs == 4 && FormatN1(ue, ISf(3)).ue == ue
  {
    var lch := [Bearer(Both, 1, 0, 0)] + seq(MAX_LC - 1, _ => Bearer(Idle, 0, 0, 0));
    var ue := UeState(4097, lch, [], 0, false);
    assert RbBytes(lch, 5) == 0;
    assert RbBytes(lch, 3) == 0;
    assert RbBytes(lch, 1) == 0;
    assert PickMcs(2, 0, 3) == 2;
    assert WithQueues(lch, Queues(lch)) == lch;
    assert ue.ces[0..] == [];
  }
}
