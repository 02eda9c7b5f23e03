/** The uplink receiver's accumulation of a grant's subframes and the transmitter's counters. */
module EnbUl {
  import opened Npusch

  datatype UlGrant = UlGrant(tbs: nat, sc0: nat, nofSc: nat, nofSlots: nat, nofRep: nat) {
    /** Subframes of one repetition. */
    function NumSf(): nat { nofSlots / 2 }

    /** Symbols of one subframe. */
    function PerSf(): nat { Len(DATA_SYMS, nofSc) }

    /** The block lies in the carrier and the subframes fit the buffers. */
    predicate Fits() {
      BlockOk(sc0, nofSc) && NumSf() <= MAX_NOF_RU
    }
  }

  datatype Reply<S> = InvalidInputs | ExpectMore | Decode(syms: seq<S>, ests: seq<S>)

  /** `grids` and `ests` are the received subframes and their channel estimates, oldest first. */
  datatype UlState<S> = UlState(hasGrant: bool, grant: UlGrant, grids: seq<seq<S>>, ests: seq<seq<S>>)

  function NewGrant<S>(g: UlGrant): UlState<S> {
    UlState(true, g, [], [])
  }

  predicate AllGrids<S>(gs: seq<seq<S>>) {
    forall k :: 0 <= k < |gs| ==> |gs[k]| == SF_RE
  }

  /** The symbols of consecutive subframes. */
  function Gather<S>(gs: seq<seq<S>>, sc0: nat, w: nat): (r: seq<S>)
    requires BlockOk(sc0, w) && AllGrids(gs)
    ensures |r| == Len(|gs|, Len(DATA_SYMS, w))
  {
    if gs == [] then []
    else
      var n := |gs| - 1;
      Gather(gs[..n], sc0, w) + Get(gs[n], 0, sc0, w, DATA_SYMS)
  }

  predicate UlOk<S>(u: UlState<S>) {
    (u.hasGrant ==> u.grant.Fits()) && AllGrids(u.grids) && AllGrids(u.ests) && |u.grids| == |u.ests|
  }

  /** One subframe: `grid` after the FFT and `est` its channel estimate. */
  function Receive<S>(u: UlState<S>, grid: seq<S>, est: seq<S>): (r: (UlState<S>, Reply<S>))
    requires UlOk(u) && |grid| == SF_RE && |est| == SF_RE
    ensures UlOk(r.0) && r.0.grant == u.grant
  {
    if !u.hasGrant || |u.grids| >= u.grant.NumSf() then (u, InvalidInputs)
    else
      var v := u.(grids := u.grids + [grid], ests := u.ests + [est]);
      if |v.grids| == u.grant.NumSf() * u.grant.nofRep then
        (v.(hasGrant := false), Decode(Gather(v.grids, u.grant.sc0, u.grant.nofSc), Gather(v.ests, u.grant.sc0, u.grant.nofSc)))
      else (v, ExpectMore)
  }

  function ReceiveAll<S>(g: UlGrant, grids: seq<seq<S>>, ests: seq<seq<S>>): (u: UlState<S>)
    requires g.Fits() && AllGrids(grids) && AllGrids(ests) && |grids| == |ests|
    ensures UlOk(u) && u.grant == g
  {
    if grids == [] then NewGrant(g)
    else
      var n := |grids| - 1;
      Receive(ReceiveAll(g, grids[..n], ests[..n]), grids[n], ests[n]).0
  }

  lemma {:induction false} Accumulated<S>(g: UlGrant, grids: seq<seq<S>>, ests: seq<seq<S>>)
    requires g.Fits() && AllGrids(grids) && AllGrids(ests) && |grids| == |ests|
    ensures var u := ReceiveAll(g, grids, ests); var n := if |grids| <= g.NumSf() then |grids| else g.NumSf();
            && u.grids == grids[..n] && u.ests == ests[..n]
            && (u.hasGrant <==> !(g.nofRep == 1 && 1 <= g.NumSf() <= |grids|))
  {
    hide Gather;
    if grids != [] {
      var k := |grids| - 1;
      Accumulated(g, grids[..k], ests[..k]);
      CompleteMeans(k + 1, g.NumSf(), g.nofRep);
    }
  }

  lemma CompleteMeans(n: nat, sf: nat, rep: nat)
    ensures 1 <= n <= sf ==> (n == sf * rep <==> n == sf && rep == 1)
  {
    if rep >= 2 { assert sf * rep >= sf * 2; }
  }

  /** What the receiver answers to the next subframe of a grant. It decodes exactly once, when the grant has
      no repetition and its last subframe has arrived; with repetitions it never does and refuses every
      subframe after the first pass. */
  lemma NextReply<S>(g: UlGrant, grids: seq<seq<S>>, ests: seq<seq<S>>, grid: seq<S>, est: seq<S>)
    requires g.Fits() && AllGrids(grids) && AllGrids(ests) && |grids| == |ests| && |grid| == SF_RE && |est| == SF_RE
    ensures var n := |grids| + 1;
            Receive(ReceiveAll(g, grids, ests), grid, est).1
            == if n > g.nofSlots / 2 then InvalidInputs
               else if n == g.nofSlots / 2 && g.nofRep == 1 then
                 Decode(Gather(grids + [grid], g.sc0, g.nofSc), Gather(ests + [est], g.sc0, g.nofSc))
               else ExpectMore
  {
    Accumulated(g, grids, ests);
    CompleteMeans(|grids| + 1, g.NumSf(), g.nofRep);
    if |grids| < g.NumSf() { assert grids[..|grids|] == grids && ests[..|ests|] == ests; }
  }

  // ---------------------------------------------------------------- end to end

  /** The k-th subframe of a block with symbols `tx`, on top of whatever else is on the grid. */
  function TxGrid<S>(g: UlGrant, base: seq<S>, tx: seq<S>, k: nat): (r: seq<S>)
    requires g.Fits() && |base| == SF_RE && Len(k, g.PerSf()) + g.PerSf() <= |tx|
    ensures |r| == SF_RE
  {
    Put(base, 0, g.sc0, g.nofSc, tx[Len(k, g.PerSf())..], DATA_SYMS)
  }

  lemma {:induction false} PutPrefix<S>(g: seq<S>, base: nat, sc0: nat, w: nat, s: seq<S>, t: seq<S>, n: nat)
    requires BlockOk(sc0, w) && n <= DATA_SYMS && base + SF_RE <= |g|
    requires Len(n, w) <= |s| && Len(n, w) <= |t| && s[..Len(n, w)] == t[..Len(n, w)]
    ensures Put(g, base, sc0, w, s, n) == Put(g, base, sc0, w, t, n)
  {
    hide DataSym, Replace;
    if n > 0 {
      assert s[..Len(n - 1, w)] == s[..Len(n, w)][..Len(n - 1, w)];
      assert t[..Len(n - 1, w)] == t[..Len(n, w)][..Len(n - 1, w)];
      PutPrefix(g, base, sc0, w, s, t, n - 1);
      assert s[Len(n - 1, w)..Len(n, w)] == s[..Len(n, w)][Len(n - 1, w)..];
      assert t[Len(n - 1, w)..Len(n, w)] == t[..Len(n, w)][Len(n - 1, w)..];
    }
  }

  lemma GetTxGrid<S>(g: UlGrant, base: seq<S>, tx: seq<S>, k: nat)
    requires g.Fits() && |base| == SF_RE && Len(k, g.PerSf()) + g.PerSf() <= |tx|
    ensures Get(TxGrid(g, base, tx, k), 0, g.sc0, g.nofSc, DATA_SYMS) == tx[Len(k, g.PerSf())..Len(k, g.PerSf()) + g.PerSf()]
  {
    hide Put, Get, Len;
    var rest := tx[Len(k, g.PerSf())..];
    var part := tx[Len(k, g.PerSf())..Len(k, g.PerSf()) + g.PerSf()];
    assert rest[..g.PerSf()] == part == part[..g.PerSf()];
    PutPrefix(base, 0, g.sc0, g.nofSc, rest, part, DATA_SYMS);
    GetAfterPut(base, 0, g.sc0, g.nofSc, part);
  }

  /** The subframes of a whole block. */
  function TxGrids<S>(g: UlGrant, bases: seq<seq<S>>, tx: seq<S>): (gs: seq<seq<S>>)
    requires g.Fits() && AllGrids(bases) && |tx| == Len(|bases|, g.PerSf())
    ensures |gs| == |bases| && AllGrids(gs)
  {
    seq(|bases|, k requires 0 <= k < |bases| => (LenGrows(k, |bases|, g.PerSf()); TxGrid(g, bases[k], tx, k)))
  }

  lemma {:induction false} GatherTx<S>(g: UlGrant, bases: seq<seq<S>>, tx: seq<S>, n: nat)
    requires g.Fits() && AllGrids(bases) && |tx| == Len(|bases|, g.PerSf()) && n <= |bases|
    ensures Len(n, g.PerSf()) <= |tx|
    ensures Gather(TxGrids(g, bases, tx)[..n], g.sc0, g.nofSc) == tx[..Len(n, g.PerSf())]
  {
    hide TxGrid, Get, Len, TxGrids;
    var gs := TxGrids(g, bases, tx);
    if n > 0 {
      GatherTx(g, bases, tx, n - 1);
      TxGridsAt(g, bases, tx, n - 1);
      GetTxGrid(g, bases[n - 1], tx, n - 1);
      assert gs[..n][..n - 1] == gs[..n - 1];
    } else {
      NoLen(g.PerSf());
    }
  }

  lemma NoLen(w: nat)
    ensures Len(0, w) == 0
  {
  }

  lemma TxGridsAt<S>(g: UlGrant, bases: seq<seq<S>>, tx: seq<S>, k: nat)
    requires g.Fits() && AllGrids(bases) && |tx| == Len(|bases|, g.PerSf()) && k < |bases|
    ensures Len(k + 1, g.PerSf()) == Len(k, g.PerSf()) + g.PerSf() <= |tx|
    ensures TxGrids(g, bases, tx)[k] == TxGrid(g, bases[k], tx, k)
  {
    hide TxGrid;
    LenGrows(k, |bases|, g.PerSf());
  }

  lemma RoundTrip<S>(g: UlGrant, bases: seq<seq<S>>, ests: seq<seq<S>>, tx: seq<S>)
    requires g.Fits() && g.nofRep == 1 && |bases| == |ests| == g.NumSf() >= 1 && AllGrids(bases) && AllGrids(ests)
    requires |tx| == Len(g.NumSf(), g.PerSf())
    ensures var gs := TxGrids(g, bases, tx); var n := |gs| - 1;
            && Receive(ReceiveAll(g, gs[..n], ests[..n]), gs[n], ests[n]).1 == Decode(tx, Gather(ests, g.sc0, g.nofSc))
            && forall k :: 0 <= k < n ==> Receive(ReceiveAll(g, gs[..k], ests[..k]), gs[k], ests[k]).1 == ExpectMore
  {
    hide Receive, ReceiveAll, Gather, TxGrids, Len;
    var gs := TxGrids(g, bases, tx);
    var n := |gs| - 1;
    GatherTx(g, bases, tx, |gs|);
    assert gs[..|gs|] == gs && tx[..|tx|] == tx;
    assert gs[..n] + [gs[n]] == gs && ests[..n] + [ests[n]] == ests;
    NextReply(g, gs[..n], ests[..n], gs[n], ests[n]);
    forall k | 0 <= k < n ensures Receive(ReceiveAll(g, gs[..k], ests[..k]), gs[k], ests[k]).1 == ExpectMore {
      NextReply(g, gs[..k], ests[..k], gs[k], ests[k]);
    }
  }

  lemma BlockLength(g: UlGrant)
    requires g.Fits()
    ensures Len(g.NumSf(), g.PerSf()) == g.nofSlots / 2 * (12 * g.nofSc)
  {
    hide Len;
    PerSfBound(g.nofSc);
    LenIs(g.NumSf(), g.PerSf());
  }

  /** Round trip: for every block position and number of subframes, whatever else the grids carry, the
      receiver waits for the last subframe and then gathers exactly the transmitted symbols. */
  lemma EndToEnd<S>(g: UlGrant, bases: seq<seq<S>>, ests: seq<seq<S>>, tx: seq<S>)
    requires g.Fits() && g.nofRep == 1 && |bases| == |ests| == g.nofSlots / 2 >= 1 && AllGrids(bases) && AllGrids(ests)
    requires |tx| == g.nofSlots / 2 * (12 * g.nofSc)
    ensures |tx| == Len(|bases|, g.PerSf())
    ensures var gs := TxGrids(g, bases, tx); var n := |gs| - 1;
            && Receive(ReceiveAll(g, gs[..n], ests[..n]), gs[n], ests[n]).1 == Decode(tx, Gather(ests, g.sc0, g.nofSc))
            && forall k :: 0 <= k < n ==> Receive(ReceiveAll(g, gs[..k], ests[..k]), gs[k], ests[k]).1 == ExpectMore
  {
    hide Receive, ReceiveAll, Gather, TxGrids, Len;
    BlockLength(g);
    RoundTrip(g, bases, ests, tx);
  }

  // ---------------------------------------------------------------- the receiver

  const BUFFER_RE: nat := SF_RE * MAX_NOF_RU

  /** The first `n` subframes in a buffer. */
  function Slices<S>(b: seq<S>, n: nat): (r: seq<seq<S>>)
    requires SF_RE * n <= |b|
    ensures |r| == n && AllGrids(r)
  {
    seq(n, k requires 0 <= k < n => b[SF_RE * k..SF_RE * k + SF_RE])
  }

  lemma SliceOfSlice<S>(b: seq<S>, at: nat, n: nat, a: nat, w: nat)
    requires at + n <= |b| && a + w <= n
    ensures b[at..at + n][a..a + w] == b[at + a..at + a + w]
  {
    var l, r := b[at..at + n][a..a + w], b[at + a..at + a + w];
    assert |l| == |r| && forall i :: 0 <= i < w ==> l[i] == r[i];
  }

  lemma {:induction false} GetInSlice<S>(b: seq<S>, at: nat, sc0: nat, w: nat, n: nat)
    requires BlockOk(sc0, w) && n <= DATA_SYMS && at + SF_RE <= |b|
    ensures Get(b, at, sc0, w, n) == Get(b[at..at + SF_RE], 0, sc0, w, n)
  {
    hide DataSym;
    if n > 0 {
      GetInSlice(b, at, sc0, w, n - 1);
      SliceOfSlice(b, at, SF_RE, ReAt(0, sc0, n - 1), w);
    }
  }

  lemma GatherStep<S>(b: seq<S>, n: nat, sc0: nat, w: nat)
    requires BlockOk(sc0, w) && SF_RE * (n + 1) <= |b|
    ensures Gather(Slices(b, n + 1), sc0, w) == Gather(Slices(b, n), sc0, w) + Get(b, SF_RE * n, sc0, w, DATA_SYMS)
    ensures Len(n + 1, Len(DATA_SYMS, w)) == Len(n, Len(DATA_SYMS, w)) + Len(DATA_SYMS, w)
  {
    hide Get, DataSym, Put;
    GetInSlice(b, SF_RE * n, sc0, w, DATA_SYMS);
    assert Slices(b, n + 1)[..n] == Slices(b, n);
  }

  lemma PerSfBound(w: nat)
    requires w <= NRE
    ensures Len(DATA_SYMS, w) == 12 * w <= 144
  {
    hide Len;
    LenIs(DATA_SYMS, w);
  }

  lemma OffsetOk(i: nat, n: nat, w: nat)
    requires i < n <= MAX_NOF_RU && w <= NRE
    ensures Len(i, Len(DATA_SYMS, w)) == i * (6 * 2 * w)
    ensures Len(i, Len(DATA_SYMS, w)) + Len(DATA_SYMS, w) <= BUFFER_RE
  {
    hide Len;
    PerSfBound(w);
    LenIs(i, Len(DATA_SYMS, w));
    OffsetBound(i, 12 * w);
  }

  lemma OffsetBound(i: nat, l: nat)
    requires i <= 9 && l <= 144
    ensures i * l <= 9 * 144
  {
    assert i * l <= 9 * l;
  }

  datatype Result = Success | Error | Invalid | MoreSf

  class Receiver<S(0)> {
    const sfBuffer: array<S>
    const ceBuffer: array<S>
    const rxSyms: array<S>
    const rxCe: array<S>
    var hasUlGrant: bool
    var grant: UlGrant
    var numSf: nat
    var sfIdx: nat

    ghost predicate Valid()
      reads this
    {
      && sfBuffer.Length == BUFFER_RE && ceBuffer.Length == BUFFER_RE && rxSyms.Length == BUFFER_RE && rxCe.Length == BUFFER_RE
      && sfBuffer != ceBuffer && sfBuffer != rxSyms && sfBuffer != rxCe && ceBuffer != rxSyms && ceBuffer != rxCe && rxSyms != rxCe
      && numSf == sfIdx && numSf <= MAX_NOF_RU
    }

    ghost function Val(): (u: UlState<S>)
      requires Valid()
      reads this, sfBuffer, ceBuffer
      ensures (hasUlGrant ==> grant.Fits()) ==> UlOk(u)
    {
      UlState(hasUlGrant, grant, Slices(sfBuffer[..], numSf), Slices(ceBuffer[..], numSf))
    }

    constructor ()
      ensures Valid() && !hasUlGrant && fresh(sfBuffer) && fresh(ceBuffer) && fresh(rxSyms) && fresh(rxCe)
    {
      sfBuffer := new S[BUFFER_RE];
      ceBuffer := new S[BUFFER_RE];
      rxSyms := new S[BUFFER_RE];
      rxCe := new S[BUFFER_RE];
      hasUlGrant, grant, numSf, sfIdx := false, UlGrant(0, 0, 0, 0, 0), 0, 0;
    }

    /** Takes any grant; whether it fits matters when its subframes come in. */
    method CfgGrant(g: UlGrant)
      requires Valid()
      modifies this
      ensures Valid() && Val() == NewGrant(g)
    {
      grant := g;
      sfIdx := 0;
      numSf := 0;
      hasUlGrant := true;
    }

    /** A subframe: its resource elements after the FFT and their channel estimates. What the decoder makes
        of the gathered symbols is given by `crcOk`. */
    method DecodeNpusch(sfSymbols: array<S>, ce: array<S>, crcOk: bool) returns (o: Result)
      requires Valid() && sfSymbols.Length == SF_RE && ce.Length == SF_RE && (hasUlGrant ==> grant.Fits())
      requires {sfSymbols, ce} !! {sfBuffer, ceBuffer, rxSyms, rxCe}
      modifies this, sfBuffer, ceBuffer, rxSyms, rxCe
      ensures Valid()
      ensures var r := Receive(old(Val()), sfSymbols[..], ce[..]);
              && Val() == r.0
              && match r.1
                 case InvalidInputs => o == Invalid
                 case ExpectMore => o == MoreSf
                 case Decode(syms, ests) =>
                   && o == (if crcOk then Success else Error)
                   && |syms| <= BUFFER_RE && rxSyms[..|syms|] == syms
                   && |ests| <= BUFFER_RE && rxCe[..|ests|] == ests
    {
      hide Gather, Len;
      if !hasUlGrant { return Invalid; }
      var cfgSf := grant.nofSlots / 2;
      if numSf >= cfgSf { return Invalid; }
      ghost var u := Val();
      SliceAdded(sfBuffer[..], sfIdx, sfSymbols[..]);
      SliceAdded(ceBuffer[..], sfIdx, ce[..]);
      assert sfSymbols[0..SF_RE] == sfSymbols[..] && ce[0..SF_RE] == ce[..];
      CopyBlock(sfSymbols, 0, sfBuffer, sfIdx * SF_RE, SF_RE);
      CopyBlock(ce, 0, ceBuffer, sfIdx * SF_RE, SF_RE);
      numSf := numSf + 1;
      sfIdx := sfIdx + 1;
      assert Val() == u.(grids := u.grids + [sfSymbols[..]], ests := u.ests + [ce[..]]);
      if numSf == cfgSf * grant.nofRep {
        CompleteMeans(numSf, cfgSf, grant.nofRep);
        GatherAll();
        o := if crcOk then Success else Error;
        hasUlGrant := false;
      } else {
        o := MoreSf;
      }
    }

    /** Gathers the symbols and estimates of all subframes of the grant. */
    method GatherAll()
      requires Valid() && grant.Fits() && numSf == grant.NumSf()
      modifies rxSyms, rxCe
      ensures var s := Gather(Val().grids, grant.sc0, grant.nofSc); |s| <= BUFFER_RE && rxSyms[..|s|] == s
      ensures var e := Gather(Val().ests, grant.sc0, grant.nofSc); |e| <= BUFFER_RE && rxCe[..|e|] == e
    {
      hide Gather, Len, Get;
      var num, numRePerSf := grant.nofSlots / 2, 6 * 2 * grant.nofSc;
      ghost var b, c := sfBuffer[..], ceBuffer[..];
      var i: nat := 0;
      NothingGathered<S>(b, grant.sc0, grant.nofSc);
      NothingGathered<S>(c, grant.sc0, grant.nofSc);
      while i < num
        invariant i <= num
        invariant var s := Gather(Slices(b, i), grant.sc0, grant.nofSc); |s| <= BUFFER_RE && rxSyms[..|s|] == s
        invariant var e := Gather(Slices(c, i), grant.sc0, grant.nofSc); |e| <= BUFFER_RE && rxCe[..|e|] == e
      {
        OffsetOk(i, num, grant.nofSc);
        GatherStep(b, i, grant.sc0, grant.nofSc);
        GatherStep(c, i, grant.sc0, grant.nofSc);
        var n := Copy(sfBuffer, i * SF_RE, rxSyms, i * numRePerSf, grant.sc0, grant.nofSc, false);
        n := Copy(ceBuffer, i * SF_RE, rxCe, i * numRePerSf, grant.sc0, grant.nofSc, false);
        i := i + 1;
      }
    }
  }

  lemma NothingGathered<S>(b: seq<S>, sc0: nat, w: nat)
    requires BlockOk(sc0, w)
    ensures Gather(Slices(b, 0), sc0, w) == []
  {
  }

  /** Storing a subframe after the first `n` adds it to them. */
  lemma SliceAdded<S>(b: seq<S>, n: nat, grid: seq<S>)
    requires SF_RE * (n + 1) <= |b| && |grid| == SF_RE
    ensures Slices(Replace(b, n * SF_RE, grid), n + 1) == Slices(b, n) + [grid]
  {
    var r := Replace(b, n * SF_RE, grid);
    forall k | 0 <= k < n ensures Slices(r, n + 1)[k] == Slices(b, n)[k] {
      assert r[SF_RE * k..SF_RE * k + SF_RE] == b[SF_RE * k..SF_RE * k + SF_RE];
    }
    assert r[SF_RE * n..SF_RE * n + SF_RE] == grid;
  }

  // ---------------------------------------------------------------- the transmitter

  class Transmitter<S(0)> {
    const txSyms: array<S>
    var grant: UlGrant
    var isEncoded: bool
    var numSf: nat
    var sfIdx: nat

    ghost predicate Valid()
      reads this
    {
      txSyms.Length == BUFFER_RE
    }

    constructor ()
      ensures Valid() && fresh(txSyms)
    {
      txSyms := new S[BUFFER_RE];
      grant, isEncoded, numSf, sfIdx := UlGrant(0, 0, 0, 0, 0), false, 0, 0;
    }

    method CfgGrant(g: UlGrant)
      requires Valid()
      modifies this
      ensures Valid() && grant == g && !isEncoded && numSf == 0 && sfIdx == 0
    {
      grant := g;
      sfIdx := 0;
      numSf := 0;
      isEncoded := false;
    }

    /** The symbols of subframe `sfIdx` lie in the buffer, also when the block has no such subframe. */
    predicate InBuffer()
      reads this
    {
      grant.Fits() && Len(sfIdx, grant.PerSf()) + grant.PerSf() <= BUFFER_RE
    }

    /** Puts the next subframe of the block on a grid. The first call of a grant encodes the data: `code` are
        the symbols the channel coder returns. A call after the last subframe puts what the buffer holds there. */
    method Encode(code: seq<S>, coderOk: bool, sfSymbols: array<S>) returns (o: Result)
      requires Valid() && sfSymbols != txSyms && sfSymbols.Length == SF_RE
      requires |code| == Len(grant.NumSf(), grant.PerSf()) && |code| <= BUFFER_RE
      requires grant.tbs != 0 ==> InBuffer()
      modifies this, txSyms, sfSymbols
      ensures Valid() && grant == old(grant)
      ensures if grant.tbs == 0 then o == Invalid && unchanged(this) && sfSymbols[..] == old(sfSymbols[..])
              else if !old(isEncoded) && !coderOk then o == Error && unchanged(this) && sfSymbols[..] == old(sfSymbols[..])
              else
                && o == Success && isEncoded && numSf == old(numSf) + 1 && sfIdx == old(sfIdx) + 1
                && txSyms[..] == (if old(isEncoded) then old(txSyms[..]) else Replace(old(txSyms[..]), 0, code))
                && sfSymbols[..] == TxGrid(grant, old(sfSymbols[..]), txSyms[..], old(sfIdx))
    {
      hide Len, TxGrid;
      if grant.tbs == 0 { return Invalid; }
      if !isEncoded {
        if !coderOk { return Error; }
        CodeData(code);
        isEncoded := true;
      }
      PutNext(sfSymbols);
      numSf := numSf + 1;
      sfIdx := sfIdx + 1;
      o := Success;
    }

    method CodeData(code: seq<S>)
      requires |code| <= txSyms.Length
      modifies txSyms
      ensures txSyms[..] == Replace(old(txSyms[..]), 0, code)
    {
      var i := 0;
      while i < |code|
        invariant 0 <= i <= |code|
        invariant txSyms[..] == Replace(old(txSyms[..]), 0, code[..i])
      {
        txSyms[i] := code[i];
        i := i + 1;
      }
      assert code[..i] == code;
    }

    method PutNext(sfSymbols: array<S>)
      requires Valid() && sfSymbols != txSyms && sfSymbols.Length == SF_RE && InBuffer()
      modifies sfSymbols
      ensures sfSymbols[..] == TxGrid(grant, old(sfSymbols[..]), txSyms[..], sfIdx)
    {
      hide Len, Put;
      PerSfBound(grant.nofSc);
      LenIs(sfIdx, grant.PerSf());
      assert txSyms[..][Len(sfIdx, grant.PerSf())..] == txSyms[Len(sfIdx, grant.PerSf())..];
      var n := Copy(txSyms, sfIdx * (6 * 2 * grant.nofSc), sfSymbols, 0, grant.sc0, grant.nofSc, true);
    }
  }
}
