/** The transceiver thread's hyperframe and TTI bookkeeping refines a single counter of transmissions. */
module TxRx {
  import opened Timing

  const NOF_HFN: nat := 1024

  /** What one round hands to a worker. */
  datatype Work = Work(txHfn: nat, ttiRx: nat, workerCnt: nat)

  /** Round k transmits subframe k, counted from the start of hyperframe 0, and therefore receives the
      subframe four earlier. */
  function WorkOf(k: nat, nofWorkers: nat): Work
    requires nofWorkers > 0
  {
    Work(k / RING % NOF_HFN, (k + RING - DL_DELAY) % RING, k % nofWorkers)
  }

  /** The fields at the start of round k, from one counter. */
  function HfnAt(k: nat): nat {
    (NOF_HFN - 1 + (k + RING - DL_DELAY - 1) / RING) % NOF_HFN
  }

  function TtiAt(k: nat): nat {
    (k + RING - DL_DELAY - 1) % RING
  }

  class Transceiver {
    var hfn: nat
    var tti: nat
    var txWorkerCnt: nat
    const nofWorkers: nat

    constructor (nofWorkers: nat)
      requires nofWorkers > 0
      ensures this.nofWorkers == nofWorkers && txWorkerCnt == 0
    {
      this.nofWorkers := nofWorkers;
      hfn, tti, txWorkerCnt := 0, 0, 0;
    }

    /** Runs until the worker pool closes, which is after `rounds` rounds. */
    method RunThread(rounds: nat) returns (given: seq<Work>)
      requires nofWorkers > 0 && txWorkerCnt == 0
      modifies this
      ensures |given| == rounds && forall k :: 0 <= k < rounds ==> given[k] == WorkOf(k, nofWorkers)
    {
      hide WorkOf, HfnAt, TtiAt;
      tti := TtiSub(0, DL_DELAY + 1);
      hfn := 1023;
      Initially(nofWorkers);
      given := [];
      while |given| < rounds
        invariant |given| <= rounds && forall k :: 0 <= k < |given| ==> given[k] == WorkOf(k, nofWorkers)
        invariant hfn == HfnAt(|given|) && tti == TtiAt(|given|) && txWorkerCnt == WorkOf(|given|, nofWorkers).workerCnt
      {
        Advance(|given|, nofWorkers);
        var txHfn := hfn;
        if tti >= 10240 - DL_DELAY - 1 {
          txHfn := (txHfn + 1) % 1024;
          if tti >= 10240 - 1 {
            hfn := txHfn;
          }
        }
        tti := TtiAdd(tti, 1);
        given := given + [Work(txHfn, tti, txWorkerCnt)];
        txWorkerCnt := (txWorkerCnt + 1) % nofWorkers;
      }
    }
  }

  lemma Initially(nofWorkers: nat)
    requires nofWorkers > 0
    ensures HfnAt(0) == 1023 && TtiAt(0) == TtiSub(0, DL_DELAY + 1) && WorkOf(0, nofWorkers).workerCnt == 0
  {
  }

  /** One round in terms of the counter. */
  lemma Advance(k: nat, nofWorkers: nat)
    requires nofWorkers > 0
    ensures var h, t := HfnAt(k), TtiAt(k); var w, v := WorkOf(k, nofWorkers), WorkOf(k + 1, nofWorkers);
            && w.txHfn == (if t >= 10240 - DL_DELAY - 1 then (h + 1) % 1024 else h)
            && HfnAt(k + 1) == (if t >= 10240 - 1 then (h + 1) % 1024 else h)
            && w.ttiRx == TtiAdd(t, 1) == TtiAt(k + 1)
            && v.workerCnt == (w.workerCnt + 1) % nofWorkers
  {
    var m := k + RING - DL_DELAY - 1;
    var q, t := m / RING, m % RING;
    Carry(m, 1);
    Hyperframes(q);
    if t >= RING - DL_DELAY - 1 {
      assert k == RING * q + (t - (RING - DL_DELAY - 1));
      assert k / RING == q;
    } else {
      assert q >= 1;
      assert k == RING * (q - 1) + (t + DL_DELAY + 1);
      assert k / RING == q - 1;
    }
    NextWorker(k, nofWorkers);
  }

  lemma Carry(m: nat, d: nat)
    requires d <= 1
    ensures (m + d) / RING == m / RING + (if m % RING + d >= RING then 1 else 0)
    ensures (m + d) % RING == m % RING + d - (if m % RING + d >= RING then RING else 0) == TtiAdd(m % RING, d)
  {
    var q, t := m / RING, m % RING;
    assert m + d == RING * q + (t + d);
  }

  lemma Hyperframes(q: nat)
    ensures ((NOF_HFN - 1 + q) % NOF_HFN + 1) % NOF_HFN == q % NOF_HFN
    ensures (NOF_HFN - 1 + (q + 1)) % NOF_HFN == q % NOF_HFN
    ensures q >= 1 ==> (NOF_HFN - 1 + q) % NOF_HFN == (q - 1) % NOF_HFN
  {
  }

  lemma NextWorker(k: nat, n: nat)
    requires n > 0
    ensures (k + 1) % n == (k % n + 1) % n
  {
    var q, r := k / n, k % n;
    assert k + 1 == n * q + (r + 1);
    if r + 1 < n { Unique(k + 1, n, q, r + 1); } else { assert k + 1 == n * (q + 1) + 0; Unique(k + 1, n, q + 1, 0); }
  }

  lemma Unique(a: nat, n: nat, q: nat, r: nat)
    requires n > 0 && a == n * q + r && r < n
    ensures a % n == r
  {
    var x, y := a / n, a % n;
    assert a == n * x + y && y < n;
    if x > q { TimesMore(n, q, x); } else if q > x { TimesMore(n, x, q); }
  }

  lemma {:induction false} TimesMore(n: nat, q: nat, x: nat)
    requires x > q
    ensures n * x >= n * q + n
  {
    if x > q + 1 { TimesMore(n, q, x - 1); }
    assert n * x == n * (x - 1) + n;
  }

  /** The worker transmits in hyperframe and TTI of the counter, and the downlink and uplink schedulers,
      called for the subframes four and thirteen later, both run the pass of its reception TTI. */
  lemma OneCounter(k: nat, nofWorkers: nat)
    requires nofWorkers > 0
    ensures var w := WorkOf(k, nofWorkers);
            && RING * w.txHfn + TtiAdd(w.ttiRx, DL_DELAY) == k % (RING * NOF_HFN)
            && TtiSub(TtiAdd(w.ttiRx, DL_DELAY), DL_DELAY) == w.ttiRx
            && TtiSub(TtiAdd(w.ttiRx, UL_DELAY), UL_DELAY) == w.ttiRx
  {
    var w := WorkOf(k, nofWorkers);
    var q, t := k / RING, k % RING;
    var h := q % NOF_HFN;
    assert k == RING * NOF_HFN * (q / NOF_HFN) + (RING * h + t);
    Unique(k, RING * NOF_HFN, q / NOF_HFN, RING * h + t);
    BackAndForth(k);
    AddSub(w.ttiRx, DL_DELAY);
    AddSub(w.ttiRx, UL_DELAY);
  }

  lemma BackAndForth(k: nat)
    ensures TtiAdd((k + RING - DL_DELAY) % RING, DL_DELAY) == k % RING
  {
    var t := k % RING;
    assert k + RING - DL_DELAY == RING * (k / RING) + (t + RING - DL_DELAY);
    assert (k + RING - DL_DELAY) % RING == if t >= DL_DELAY then t - DL_DELAY else t + RING - DL_DELAY;
  }

  lemma AddSub(t: nat, d: nat)
    requires t < RING && d < RING
    ensures TtiSub(TtiAdd(t, d), d) == t
  {
  }
}
