/** Resource elements of NPUSCH format 1: placing the symbols of a block on subframe grids, collecting
    the grids of a grant, and gathering the symbols again. The arithmetic on symbols is not interpreted. */
module Npusch {
  const NRE: nat := 12
  const NOF_SLOTS_PER_SF: nat := 2
  const NSYMB: nat := 7

  /** The symbol of each slot that carries the reference signal. */
  const DMRS: nat := 3

  const SF_RE: nat := NOF_SLOTS_PER_SF * NSYMB * NRE
  const DATA_SYMS: nat := 12
  const MAX_NOF_RU: nat := 10

  // ---------------------------------------------------------------- one subframe

  /** Data symbols before symbol `l` of a slot. */
  function Before(slot: nat, l: nat): nat {
    6 * slot + if l <= DMRS then l else l - 1
  }

  /** The n-th symbol of a subframe that carries data. */
  function DataSym(n: nat): (s: nat)
    requires n < DATA_SYMS
    ensures s < 14 && s % 7 != DMRS && Before(s / 7, s % 7) == n
  {
    7 * (n / 6) + if n % 6 < DMRS then n % 6 else n % 6 + 1
  }

  lemma DataSymOf(slot: nat, l: nat)
    requires slot < NOF_SLOTS_PER_SF && l < NSYMB && l != DMRS
    ensures Before(slot, l) < DATA_SYMS && DataSym(Before(slot, l)) == 7 * slot + l
  {
  }

  /** Subcarriers `sc0`, ..., `sc0 + w - 1`. */
  predicate BlockOk(sc0: nat, w: nat) {
    sc0 + w <= NRE
  }

  /** First resource element of the n-th data symbol in a grid that starts at `base`. */
  function ReAt(base: nat, sc0: nat, n: nat): nat
    requires n < DATA_SYMS
  {
    base + NRE * DataSym(n) + sc0
  }

  function Replace<S>(g: seq<S>, at: nat, part: seq<S>): (r: seq<S>)
    requires at + |part| <= |g|
    ensures |r| == |g| && forall p :: 0 <= p < |g| ==> r[p] == if at <= p < at + |part| then part[p - at] else g[p]
  {
    g[..at] + part + g[at + |part|..]
  }

  /** Symbols that blocks of width `w` hold on `n` data symbols: n times w. */
  function Len(n: nat, w: nat): nat {
    if n == 0 then 0 else Len(n - 1, w) + w
  }

  lemma {:induction false} LenIs(n: nat, w: nat)
    ensures Len(n, w) == n * w
  {
    if n > 0 { LenIs(n - 1, w); }
  }

  lemma {:induction false} LenGrows(k: nat, n: nat, w: nat)
    requires k < n
    ensures Len(k, w) + w <= Len(n, w)
  {
    if k < n - 1 { LenGrows(k, n - 1, w); }
  }

  /** Consecutive symbols `s` on the first `n` data symbols of the grid. */
  function Put<S>(g: seq<S>, base: nat, sc0: nat, w: nat, s: seq<S>, n: nat): (r: seq<S>)
    requires BlockOk(sc0, w) && n <= DATA_SYMS && base + SF_RE <= |g| && Len(n, w) <= |s|
    ensures |r| == |g|
  {
    if n == 0 then g
    else Replace(Put(g, base, sc0, w, s, n - 1), ReAt(base, sc0, n - 1), s[Len(n - 1, w)..Len(n, w)])
  }

  /** The block of the first `n` data symbols, in order. */
  function Get<S>(g: seq<S>, base: nat, sc0: nat, w: nat, n: nat): (r: seq<S>)
    requires BlockOk(sc0, w) && n <= DATA_SYMS && base + SF_RE <= |g|
    ensures |r| == Len(n, w)
  {
    if n == 0 then []
    else Get(g, base, sc0, w, n - 1) + g[ReAt(base, sc0, n - 1)..ReAt(base, sc0, n - 1) + w]
  }

  lemma {:induction false} PutHolds<S>(g: seq<S>, base: nat, sc0: nat, w: nat, s: seq<S>, n: nat, k: nat, i: nat)
    requires BlockOk(sc0, w) && n <= DATA_SYMS && base + SF_RE <= |g| && Len(n, w) <= |s| && k < n && i < w
    ensures Len(k, w) + i < |s|
    ensures Put(g, base, sc0, w, s, n)[ReAt(base, sc0, k) + i] == s[Len(k, w) + i]
  {
    hide DataSym, Replace, Put, Len;
    LenGrows(k, n, w);
    PutStep(g, base, sc0, w, s, n - 1);
    if k < n - 1 {
      PutHolds(g, base, sc0, w, s, n - 1, k, i);
      DataSymsApart(k, n - 1);
    }
  }

  lemma DataSymsApart(j: nat, k: nat)
    requires j < k < DATA_SYMS
    ensures DataSym(j) < DataSym(k)
  {
  }

  /** Nothing outside the block changes, and in particular not the fourth symbol of a slot, the reference symbol. */
  lemma {:induction false} PutNowhereElse<S>(g: seq<S>, base: nat, sc0: nat, w: nat, s: seq<S>, n: nat, sym: nat, sub: nat)
    requires BlockOk(sc0, w) && n <= DATA_SYMS && base + SF_RE <= |g| && Len(n, w) <= |s|
    requires sym < 14 && sub < NRE && (sym % 7 == 3 || !(sc0 <= sub < sc0 + w))
    ensures Put(g, base, sc0, w, s, n)[base + NRE * sym + sub] == g[base + NRE * sym + sub]
  {
    hide DataSym, Replace;
    if n > 0 {
      PutNowhereElse(g, base, sc0, w, s, n - 1, sym, sub);
      assert DataSym(n - 1) != sym || !(sc0 <= sub < sc0 + w);
    }
  }

  lemma {:induction false} PutInGrid<S>(g: seq<S>, base: nat, sc0: nat, w: nat, s: seq<S>, n: nat, p: nat)
    requires BlockOk(sc0, w) && n <= DATA_SYMS && base + SF_RE <= |g| && Len(n, w) <= |s|
    requires p < |g| && (p < base || p >= base + SF_RE)
    ensures Put(g, base, sc0, w, s, n)[p] == g[p]
  {
    hide DataSym, Replace;
    if n > 0 { PutInGrid(g, base, sc0, w, s, n - 1, p); }
  }

  /** The block of the k-th data symbol holds the k-th slice of `s`. */
  predicate Holds<S(==)>(g: seq<S>, base: nat, sc0: nat, w: nat, s: seq<S>, k: nat)
    requires BlockOk(sc0, w) && base + SF_RE <= |g| && k < DATA_SYMS
  {
    Len(k, w) + w <= |s| && g[ReAt(base, sc0, k)..ReAt(base, sc0, k) + w] == s[Len(k, w)..Len(k, w) + w]
  }

  lemma PutHoldsBlock<S>(g: seq<S>, base: nat, sc0: nat, w: nat, s: seq<S>, k: nat)
    requires BlockOk(sc0, w) && base + SF_RE <= |g| && Len(DATA_SYMS, w) <= |s| && k < DATA_SYMS
    ensures Holds(Put(g, base, sc0, w, s, DATA_SYMS), base, sc0, w, s, k)
  {
    hide DataSym, Put, Len;
    var r := Put(g, base, sc0, w, s, DATA_SYMS);
    LenGrows(k, DATA_SYMS, w);
    var a, b := r[ReAt(base, sc0, k)..ReAt(base, sc0, k) + w], s[Len(k, w)..Len(k, w) + w];
    forall i | 0 <= i < w ensures a[i] == b[i] {
      PutHolds(g, base, sc0, w, s, DATA_SYMS, k, i);
    }
    assert a == b;
  }

  lemma {:induction false} GetIs<S>(g: seq<S>, base: nat, sc0: nat, w: nat, s: seq<S>, n: nat)
    requires BlockOk(sc0, w) && n <= DATA_SYMS && base + SF_RE <= |g| && Len(n, w) <= |s|
    requires forall k :: 0 <= k < n ==> Holds(g, base, sc0, w, s, k)
    ensures Get(g, base, sc0, w, n) == s[..Len(n, w)]
  {
    hide DataSym;
    if n > 0 {
      assert Holds(g, base, sc0, w, s, n - 1);
      GetIs(g, base, sc0, w, s, n - 1);
    }
  }

  /** What was put on a subframe is what is read from it. */
  lemma GetAfterPut<S>(g: seq<S>, base: nat, sc0: nat, w: nat, s: seq<S>)
    requires BlockOk(sc0, w) && base + SF_RE <= |g| && |s| == Len(DATA_SYMS, w)
    ensures Get(Put(g, base, sc0, w, s, DATA_SYMS), base, sc0, w, DATA_SYMS) == s
  {
    hide DataSym, Put, Get, Len;
    var r := Put(g, base, sc0, w, s, DATA_SYMS);
    forall k | 0 <= k < DATA_SYMS ensures Holds(r, base, sc0, w, s, k) {
      PutHoldsBlock(g, base, sc0, w, s, k);
    }
    GetIs(r, base, sc0, w, s, DATA_SYMS);
    assert s[..Len(DATA_SYMS, w)] == s;
  }

  // ---------------------------------------------------------------- copying in place

  method CopyBlock<S>(src: array<S>, from: nat, dst: array<S>, to: nat, n: nat)
    requires src != dst && from + n <= src.Length && to + n <= dst.Length
    modifies dst
    ensures dst[..] == Replace(old(dst[..]), to, src[from..from + n])
  {
    var i := 0;
    while i < n
      invariant 0 <= i <= n
      invariant dst[..] == Replace(old(dst[..]), to, src[from..from + i])
    {
      dst[to + i] := src[from + i];
      i := i + 1;
    }
  }

  /** A copy in either direction: what the output holds after `n` data symbols. */
  ghost function Copied<S>(o: seq<S>, outAt: nat, x: seq<S>, inAt: nat, sc0: nat, w: nat, putting: bool, n: nat): (r: seq<S>)
    requires CopyOk(|o|, outAt, |x|, inAt, sc0, w, putting) && n <= DATA_SYMS
    ensures |r| == |o|
  {
    LenUpTo(n, w);
    if putting then Put(o, outAt, sc0, w, x[inAt..], n) else Replace(o, outAt, Get(x, inAt, sc0, w, n))
  }

  predicate CopyOk(outLen: nat, outAt: nat, inLen: nat, inAt: nat, sc0: nat, w: nat, putting: bool) {
    && BlockOk(sc0, w)
    && inAt + (if putting then Len(DATA_SYMS, w) else SF_RE) <= inLen
    && outAt + (if putting then SF_RE else Len(DATA_SYMS, w)) <= outLen
  }

  lemma LenUpTo(n: nat, w: nat)
    requires n <= DATA_SYMS
    ensures Len(n, w) <= Len(DATA_SYMS, w)
  {
    hide Len;
    if n < DATA_SYMS { LenGrows(n, DATA_SYMS, w); }
  }

  lemma CopiedStep<S>(o: seq<S>, outAt: nat, x: seq<S>, inAt: nat, sc0: nat, w: nat, putting: bool, n: nat)
    requires CopyOk(|o|, outAt, |x|, inAt, sc0, w, putting) && n < DATA_SYMS
    ensures Len(n + 1, w) == Len(n, w) + w <= Len(DATA_SYMS, w)
    ensures var from := if putting then inAt + Len(n, w) else ReAt(inAt, sc0, n);
            var to := if putting then ReAt(outAt, sc0, n) else outAt + Len(n, w);
            && from + w <= |x| && to + w <= |o|
            && Copied(o, outAt, x, inAt, sc0, w, putting, n + 1)
               == Replace(Copied(o, outAt, x, inAt, sc0, w, putting, n), to, x[from..from + w])
  {
    hide DataSym, Replace, Len, Put, Get;
    LenGrows(n, DATA_SYMS, w);
    LenNext(n, w);
    if putting {
      PutStep(o, outAt, sc0, w, x[inAt..], n);
      DropThenSlice(x, inAt, Len(n, w), w);
    } else {
      GetStep(x, inAt, sc0, w, n);
      ReplaceTwice(o, outAt, Get(x, inAt, sc0, w, n), x[ReAt(inAt, sc0, n)..ReAt(inAt, sc0, n) + w]);
    }
  }

  lemma LenNext(n: nat, w: nat)
    ensures Len(n + 1, w) == Len(n, w) + w
  {
  }

  lemma PutStep<S>(g: seq<S>, base: nat, sc0: nat, w: nat, s: seq<S>, n: nat)
    requires BlockOk(sc0, w) && n < DATA_SYMS && base + SF_RE <= |g| && Len(n + 1, w) <= |s|
    ensures Len(n, w) + w == Len(n + 1, w)
    ensures Put(g, base, sc0, w, s, n + 1) == Replace(Put(g, base, sc0, w, s, n), ReAt(base, sc0, n), s[Len(n, w)..Len(n, w) + w])
  {
    hide DataSym, Replace;
  }

  lemma GetStep<S>(g: seq<S>, base: nat, sc0: nat, w: nat, n: nat)
    requires BlockOk(sc0, w) && n < DATA_SYMS && base + SF_RE <= |g|
    ensures Get(g, base, sc0, w, n + 1) == Get(g, base, sc0, w, n) + g[ReAt(base, sc0, n)..ReAt(base, sc0, n) + w]
  {
    hide DataSym, Replace;
  }

  lemma DropThenSlice<S>(x: seq<S>, a: nat, b: nat, n: nat)
    requires a + b + n <= |x|
    ensures x[a..][b..b + n] == x[a + b..a + b + n]
  {
  }

  lemma ReplaceTwice<S>(o: seq<S>, at: nat, a: seq<S>, b: seq<S>)
    requires at + |a| + |b| <= |o|
    ensures Replace(Replace(o, at, a), at + |a|, b) == Replace(o, at, a + b)
  {
  }

  lemma NothingCopied<S>(o: seq<S>, outAt: nat, x: seq<S>, inAt: nat, sc0: nat, w: nat, putting: bool)
    requires CopyOk(|o|, outAt, |x|, inAt, sc0, w, putting)
    ensures Copied(o, outAt, x, inAt, sc0, w, putting, 0) == o && Len(0, w) == 0
  {
  }

  /** Copies between a subframe grid and consecutive symbols, in the direction `advanceInput` says: from the
      symbols onto the grid, or from the grid to the symbols. Returns how many symbols that were. */
  method Copy<S>(input: array<S>, inAt: nat, output: array<S>, outAt: nat, sc0: nat, nofSc: nat, advanceInput: bool)
    returns (n: nat)
    requires input != output && CopyOk(output.Length, outAt, input.Length, inAt, sc0, nofSc, advanceInput)
    modifies output
    ensures n == Len(DATA_SYMS, nofSc)
    ensures advanceInput ==> output[..] == Put(old(output[..]), outAt, sc0, nofSc, input[inAt..], DATA_SYMS)
    ensures !advanceInput ==> output[..] == Replace(old(output[..]), outAt, Get(input[..], inAt, sc0, nofSc, DATA_SYMS))
  {
    n := CopyLoops(input, inAt, output, outAt, sc0, nofSc, advanceInput);
    assert input[..][inAt..] == input[inAt..];
  }

  method CopyLoops<S>(input: array<S>, inAt: nat, output: array<S>, outAt: nat, sc0: nat, nofSc: nat, advanceInput: bool)
    returns (n: nat)
    requires input != output && CopyOk(output.Length, outAt, input.Length, inAt, sc0, nofSc, advanceInput)
    modifies output
    ensures n == Len(DATA_SYMS, nofSc)
    ensures output[..] == Copied(old(output[..]), outAt, input[..], inAt, sc0, nofSc, advanceInput, DATA_SYMS)
  {
    hide DataSym, Len, Copied, Replace, Put, Get;
    ghost var o, x := output[..], input[..];
    NothingCopied(o, outAt, x, inAt, sc0, nofSc, advanceInput);
    var inPtr, outPtr := inAt, outAt;
    var slot: nat := 0;
    while slot < NOF_SLOTS_PER_SF
      invariant slot <= NOF_SLOTS_PER_SF
      invariant output[..] == Copied(o, outAt, x, inAt, sc0, nofSc, advanceInput, Before(slot, 0))
      invariant if advanceInput then inPtr == inAt + Len(Before(slot, 0), nofSc) else outPtr == outAt + Len(Before(slot, 0), nofSc)
    {
      var l: nat := 0;
      while l < NSYMB
        invariant l <= NSYMB
        invariant output[..] == Copied(o, outAt, x, inAt, sc0, nofSc, advanceInput, Before(slot, l))
        invariant if advanceInput then inPtr == inAt + Len(Before(slot, l), nofSc) else outPtr == outAt + Len(Before(slot, l), nofSc)
      {
        if l != 3 {
          var idx := (slot * 7 + l) * NRE + sc0;
          DataSymOf(slot, l);
          CopiedStep(o, outAt, x, inAt, sc0, nofSc, advanceInput, Before(slot, l));
          if advanceInput { outPtr := outAt + idx; } else { inPtr := inAt + idx; }
          CopyBlock(input, inPtr, output, outPtr, nofSc);
          if advanceInput { inPtr := inPtr + nofSc; } else { outPtr := outPtr + nofSc; }
        }
        l := l + 1;
      }
      slot := slot + 1;
    }
    n := if advanceInput then inPtr - inAt else outPtr - outAt;
  }
}
