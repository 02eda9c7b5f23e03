/** The byte accounting of one UE: what a user asks for, and how control elements and
    SDUs fill a transport block. */
module Packing {

  /** Logical channels per UE. */
  const MAX_LC: nat := 6

  /** Room below which no SDU is started: a subheader and an RLC header. */
  const MIN_SDU: nat := 5

  datatype Direction = Idle | Ul | Dl | Both

  datatype Bearer = Bearer(dir: Direction, bufTx: nat, bufRetx: nat, bsr: nat)

  /** Downlink MAC control elements. */
  datatype Ce = ConResId | TaCmd | DrxCmd | ScellActivation | ScellActivation4 | OtherCe

  datatype UeState = UeState(rnti: nat, lch: seq<Bearer>, ces: seq<Ce>, timer: nat, sr: bool)

  /** An SDU taken from queue `queue`: retransmissions of bearer `l` are queue `2l`, new data is `2l + 1`. */
  datatype Sdu = Sdu(queue: nat, nbytes: nat)

  predicate IsDl(b: Bearer) { b.dir.Dl? || b.dir.Both? }
  predicate IsUl(b: Bearer) { b.dir.Ul? || b.dir.Both? }

  function Min(a: nat, b: nat): nat { if a < b then a else b }
  function Max(a: nat, b: nat): nat { if a > b then a else b }

  /** Subheader and payload of a control element. */
  function CeSize(c: Ce): nat {
    1 + match c
        case ConResId => 6
        case TaCmd => 1
        case ScellActivation => 1
        case ScellActivation4 => 4
        case _ => 0
  }

  /** MAC subheader of an SDU: 2 bytes up to 128 bytes of payload, 3 above. */
  function Subheader(n: nat): nat { if n > 128 then 3 else 2 }

  /** Bytes that an SDU of `n` bytes takes in the transport block. */
  function Cost(n: nat): nat { n + Subheader(n) }

  /** Largest SDU the packer starts with `room` bytes left. */
  function MaxSdu(room: nat): (n: nat)
    requires room >= MIN_SDU
    ensures n > 0 && Cost(n) <= room
    ensures forall m: nat :: Cost(m) <= room ==> m <= n
  {
    room - Subheader(room - 2)
  }

  // ---------------------------------------------------------------- queues of a UE

  function Queues(lch: seq<Bearer>): (q: seq<nat>)
    ensures |q| == 2 * |lch|
    ensures forall l :: 0 <= l < |lch| ==> q[2 * l] == lch[l].bufRetx && q[2 * l + 1] == lch[l].bufTx
  {
    if lch == [] then [] else Queues(lch[..|lch| - 1]) + [lch[|lch| - 1].bufRetx, lch[|lch| - 1].bufTx]
  }

  /** Only the queue lengths differ. */
  predicate SameBearers(a: seq<Bearer>, b: seq<Bearer>) {
    |a| == |b| && forall l :: 0 <= l < |a| ==> a[l].dir == b[l].dir && a[l].bsr == b[l].bsr
  }

  predicate Empty(q: seq<nat>, k: nat) {
    forall j :: k <= j < |q| ==> q[j] == 0
  }

  // ---------------------------------------------------------------- packing SDUs

  datatype Packed = Packed(q: seq<nat>, sdus: seq<Sdu>, room: nat)

  /** Fill `room` bytes in one sweep over the queues, from queue `k` on. */
  function Sweep(q: seq<nat>, k: nat, room: nat): Packed
    decreases |q| - k
  {
    if k >= |q| || room < MIN_SDU then Packed(q, [], room)
    else if q[k] == 0 then Sweep(q, k + 1, room)
    else
      var n := Min(q[k], MaxSdu(room));
      var rest := Sweep(q[k := q[k] - n], k + 1, room - Cost(n));
      rest.(sdus := [Sdu(k, n)] + rest.sdus)
  }

  function Total(sdus: seq<Sdu>): nat {
    if sdus == [] then 0 else Cost(sdus[0].nbytes) + Total(sdus[1..])
  }

  /** Bytes taken from queue `k`. */
  function Taken(sdus: seq<Sdu>, k: nat): nat {
    if sdus == [] then 0 else (if sdus[0].queue == k then sdus[0].nbytes else 0) + Taken(sdus[1..], k)
  }

  /** The non-empty queues from `k` on, each as one SDU. */
  function Whole(q: seq<nat>, k: nat): seq<Sdu>
    decreases |q| - k
  {
    if k >= |q| then []
    else (if q[k] > 0 then [Sdu(k, q[k])] else []) + Whole(q, k + 1)
  }

  /** The block holds exactly the SDUs and what is left. */
  lemma {:induction false} PackFillsBlock(q: seq<nat>, k: nat, room: nat)
    ensures var p := Sweep(q, k, room); Total(p.sdus) + p.room == room
    decreases |q| - k
  {
    if k < |q| && room >= MIN_SDU {
      if q[k] == 0 {
        PackFillsBlock(q, k + 1, room);
      } else {
        var n := Min(q[k], MaxSdu(room));
        PackFillsBlock(q[k := q[k] - n], k + 1, room - Cost(n));
        assert Sweep(q, k, room).sdus[1..] == Sweep(q[k := q[k] - n], k + 1, room - Cost(n)).sdus;
      }
    }
  }

  /** Conservation: what leaves a queue is in the block, and nothing else is. */
  lemma {:induction false} PackConserves(q: seq<nat>, k: nat, room: nat, j: nat)
    requires j < |q|
    ensures var p := Sweep(q, k, room); |p.q| == |q| && p.q[j] + Taken(p.sdus, j) == q[j]
    ensures j < k ==> Taken(Sweep(q, k, room).sdus, j) == 0
    decreases |q| - k
  {
    if k < |q| && room >= MIN_SDU {
      if q[k] == 0 {
        PackConserves(q, k + 1, room, j);
      } else {
        var n := Min(q[k], MaxSdu(room));
        var q1 := q[k := q[k] - n];
        PackConserves(q1, k + 1, room - Cost(n), j);
        hide MaxSdu, Cost;
        assert Sweep(q, k, room).sdus[1..] == Sweep(q[k := q[k] - n], k + 1, room - Cost(n)).sdus;
      }
    }
  }

  /** `s` is the beginning of `w`, except that its last SDU may be cut short. */
  predicate CutPrefix(s: seq<Sdu>, w: seq<Sdu>) {
    && |s| <= |w|
    && forall i :: 0 <= i < |s| ==>
         s[i].queue == w[i].queue && 0 < s[i].nbytes <= w[i].nbytes && (i < |s| - 1 ==> s[i] == w[i])
  }

  lemma CutPrepend(x: Sdu, s: seq<Sdu>, y: Sdu, w: seq<Sdu>)
    requires CutPrefix(s, w) && x.queue == y.queue && 0 < x.nbytes <= y.nbytes && (s != [] ==> x == y)
    ensures CutPrefix([x] + s, [y] + w)
  {
    var s1, w1 := [x] + s, [y] + w;
    forall i | 0 <= i < |s1|
      ensures s1[i].queue == w1[i].queue && 0 < s1[i].nbytes <= w1[i].nbytes && (i < |s1| - 1 ==> s1[i] == w1[i])
    {
      if i > 0 { assert s1[i] == s[i - 1] && w1[i] == w[i - 1]; }
    }
  }

  /** Order: lower channels first and retransmissions before new data, at most one SDU for each
      queue that held data, and only the last one may be a fragment. */
  lemma {:induction false} PackOrder(q: seq<nat>, k: nat, room: nat)
    ensures CutPrefix(Sweep(q, k, room).sdus, Whole(q, k))
    decreases |q| - k
  {
    if k < |q| && room >= MIN_SDU {
      if q[k] == 0 {
        PackOrder(q, k + 1, room);
      } else {
        var n := Min(q[k], MaxSdu(room));
        var q1 := q[k := q[k] - n];
        PackOrder(q1, k + 1, room - Cost(n));
        WholeAgrees(q, q1, k + 1);
        var rest := Sweep(q1, k + 1, room - Cost(n)).sdus;
        if n < q[k] { assert rest == []; }
        CutPrepend(Sdu(k, n), rest, Sdu(k, q[k]), Whole(q, k + 1));
      }
    }
  }

  lemma {:induction false} WholeAgrees(q: seq<nat>, r: seq<nat>, k: nat)
    requires |q| == |r| && forall j :: k <= j < |q| ==> q[j] == r[j]
    ensures Whole(q, k) == Whole(r, k)
    decreases |q| - k
  {
    if k < |q| { WholeAgrees(q, r, k + 1); }
  }

  /** Packing stops only when everything is gone or fewer than five bytes remain. */
  lemma {:induction false} PackStops(q: seq<nat>, k: nat, room: nat)
    ensures var p := Sweep(q, k, room); p.room < MIN_SDU || Empty(p.q, k)
    decreases |q| - k
  {
    if k < |q| && room >= MIN_SDU {
      if q[k] == 0 {
        PackStops(q, k + 1, room);
        PackConserves(q, k + 1, room, k);
      } else {
        var n := Min(q[k], MaxSdu(room));
        var q1 := q[k := q[k] - n];
        PackStops(q1, k + 1, room - Cost(n));
        PackConserves(q1, k + 1, room - Cost(n), k);
        if n < q[k] && k + 1 < |q| { assert Sweep(q1, k + 1, room - Cost(n)).room == room - Cost(n); }
      }
    }
  }

  // ---------------------------------------------------------------- exactly when everything fits

  /** The smallest block that takes all the queues from `k` on. */
  function Need(q: seq<nat>, k: nat): nat
    decreases |q| - k
  {
    if k >= |q| then 0
    else if q[k] == 0 then Need(q, k + 1)
    else if Empty(q, k + 1) then Max(MIN_SDU, Cost(q[k]))
    else Cost(q[k]) + Need(q, k + 1)
  }

  lemma {:induction false} NeedAgrees(q: seq<nat>, r: seq<nat>, k: nat)
    requires |q| == |r| && forall j :: k <= j < |q| ==> q[j] == r[j]
    ensures Need(q, k) == Need(r, k)
    decreases |q| - k
  {
    if k < |q| { NeedAgrees(q, r, k + 1); }
  }

  lemma {:induction false} NeedZero(q: seq<nat>, k: nat)
    ensures Need(q, k) == 0 <==> Empty(q, k)
    ensures Need(q, k) > 0 ==> Need(q, k) >= MIN_SDU
    decreases |q| - k
  {
    if k < |q| { NeedZero(q, k + 1); }
  }

  /** The packer empties the queues exactly when the block has `Need` bytes. */
  lemma {:induction false} DrainsExactly(q: seq<nat>, k: nat, room: nat)
    ensures Empty(Sweep(q, k, room).q, k) <==> room >= Need(q, k)
    decreases |q| - k
  {
    NeedZero(q, k);
    if k < |q| && room >= MIN_SDU {
      if q[k] == 0 {
        DrainsExactly(q, k + 1, room);
        PackConserves(q, k + 1, room, k);
      } else {
        var n := Min(q[k], MaxSdu(room));
        var q1 := q[k := q[k] - n];
        DrainsExactly(q1, k + 1, room - Cost(n));
        DrainsOne(q, k, room, n);
      }
    }
  }

  /** The step of the packer that takes `n` bytes of queue `k`. */
  lemma DrainsOne(q: seq<nat>, k: nat, room: nat, n: nat)
    requires k < |q| && room >= MIN_SDU && q[k] > 0 && n == Min(q[k], MaxSdu(room))
    requires var q1 := q[k := q[k] - n]; Empty(Sweep(q1, k + 1, room - Cost(n)).q, k + 1) <==> room - Cost(n) >= Need(q1, k + 1)
    ensures Empty(Sweep(q, k, room).q, k) <==> room >= Need(q, k)
  {
    var q1 := q[k := q[k] - n];
    var p := Sweep(q1, k + 1, room - Cost(n)).q;
    PackConserves(q1, k + 1, room - Cost(n), k);
    NeedAgrees(q, q1, k + 1);
    NeedZero(q, k + 1);
    assert p[k] == q[k] - n && Sweep(q, k, room).q == p;
    assert n == q[k] <==> Cost(q[k]) <= room;
    hide Sweep, MaxSdu;
    assert Empty(p, k) <==> p[k] == 0 && Empty(p, k + 1);
  }

  // ---------------------------------------------------------------- control elements

  function CeTotal(ces: seq<Ce>): nat {
    if ces == [] then 0 else CeSize(ces[0]) + CeTotal(ces[1..])
  }

  /** How many control elements from the head of the queue fit in `room`. */
  function CesThatFit(ces: seq<Ce>, room: nat): (n: nat)
    ensures n <= |ces|
  {
    if ces == [] || room < CeSize(ces[0]) then 0 else 1 + CesThatFit(ces[1..], room - CeSize(ces[0]))
  }

  /** Control elements go first in, first out; all of them go exactly when they fit together. */
  lemma {:induction false} CesFit(ces: seq<Ce>, room: nat)
    ensures var n := CesThatFit(ces, room);
            && CeTotal(ces[..n]) <= room
            && CeTotal(ces[..n]) + CeTotal(ces[n..]) == CeTotal(ces)
            && (n < |ces| ==> CeTotal(ces[..n]) + CeSize(ces[n]) > room)
    ensures CesThatFit(ces, room) == |ces| <==> CeTotal(ces) <= room
  {
    if ces != [] && room >= CeSize(ces[0]) {
      CesFit(ces[1..], room - CeSize(ces[0]));
      var m := CesThatFit(ces[1..], room - CeSize(ces[0]));
      assert ces[..m + 1][1..] == ces[1..][..m];
      assert ces[m + 1..] == ces[1..][m..];
    } else {
      assert ces[..0] == [] && ces[0..] == ces;
    }
  }
}
