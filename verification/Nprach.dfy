/** The streaming NPRACH detector: preamble hopping, and detection from sample chunks of any size with
    the unfinished symbol carried over. The arithmetic on samples is not interpreted. */
module Nprach {
  const SAMP_SIZE: nat := 512
  const SYM_GROUP_SIZE: nat := 5
  const SUBCARRIERS: nat := 12
  const SUBC_HALF: nat := 6
  const GROUPS: nat := 4
  const BASE_SUBC: nat := 36

  /** First FFT bin of the twelve tones: 48 tones in the middle of 512 bins, from tone 36 on. */
  const SUBC_OFFSET: nat := (SAMP_SIZE - 48) / 2 + BASE_SUBC

  // ---------------------------------------------------------------- hopping

  /** Bitwise exclusive or with 1. */
  function Xor1(x: nat): nat {
    if x % 2 == 0 then x + 1 else x - 1
  }

  function Across(sc: nat): nat {
    if sc < SUBC_HALF then sc + SUBC_HALF else sc - SUBC_HALF
  }

  /** The tone that a preamble starting on `startSc` uses in symbol group `sg`. */
  function SubcarrierSg(startSc: nat, sg: nat): (sc: nat)
    ensures startSc < SUBCARRIERS ==> sc < SUBCARRIERS
  {
    match sg % 4
    case 0 => startSc
    case 1 => Xor1(startSc)
    case 2 => Xor1(Across(startSc))
    case _ => Across(startSc)
  }

  /** The three hops within four symbol groups are one, six and one tones wide, and the narrow ones go in
      opposite directions (section 10.1.6 of TS 36.211). */
  lemma HopWidths(startSc: nat)
    requires startSc < SUBCARRIERS
    ensures var h := (g: nat) => SubcarrierSg(startSc, g) as int;
            && h(0) == startSc
            && h(1) - h(0) == (if startSc % 2 == 0 then 1 else -1)
            && h(2) - h(1) == (if startSc < 6 then 6 else -6)
            && h(3) - h(2) == h(0) - h(1)
  {
  }

  /** Different preambles never share a tone, and every tone belongs to one. */
  lemma HoppingIsBijective(sg: nat, tone: nat)
    requires tone < SUBCARRIERS
    ensures exists sc :: 0 <= sc < SUBCARRIERS && SubcarrierSg(sc, sg) == tone
    ensures forall a: nat, b: nat :: a < SUBCARRIERS && b < SUBCARRIERS && a != b ==> SubcarrierSg(a, sg) != SubcarrierSg(b, sg)
  {
    var back := if sg % 4 == 2 then Across(Xor1(tone)) else SubcarrierSg(tone, sg);
    HopBack(back, sg);
    forall a: nat, b: nat | a < SUBCARRIERS && b < SUBCARRIERS && a != b ensures SubcarrierSg(a, sg) != SubcarrierSg(b, sg) {
      HopBack(a, sg);
      HopBack(b, sg);
    }
  }

  /** Hopping can be undone. */
  lemma HopBack(sc: nat, sg: nat)
    requires sc < SUBCARRIERS
    ensures var t := SubcarrierSg(sc, sg); sc == if sg % 4 == 2 then Across(Xor1(t)) else SubcarrierSg(t, sg)
  {
  }

  // ---------------------------------------------------------------- the detector as a function

  /** The arithmetic of the front end: product with the frequency shift, FFT bins, and the threshold. */
  datatype Front<!S> = Front(mul: (S, S) -> S, shift: nat -> S, bin: (seq<S>, nat) -> S, loud: S -> bool) {
    function Mix(w: seq<S>): (r: seq<S>)
      ensures |r| == |w|
    {
      seq(|w|, i requires 0 <= i < |w| => mul(w[i], shift(i)))
    }

    /** What is stored for a symbol of group `g` received as the samples `w`. */
    function Row(g: nat, w: seq<S>): (r: seq<S>)
      ensures |r| == SUBCARRIERS
    {
      seq(SUBCARRIERS, sc requires 0 <= sc < SUBCARRIERS => bin(Mix(w), SUBC_OFFSET + SubcarrierSg(sc, g)))
    }
  }

  /** `next` is the symbol expected in group `group`, 0 for the cyclic prefix; `carry` are the samples of that
      symbol so far; `rows` holds one entry for every other symbol of the groups. */
  datatype Det<S> = Det(group: nat, next: nat, carry: seq<S>, rows: seq<seq<S>>)

  function Fresh<S>(): Det<S> {
    Det(0, 0, [], [])
  }

  function RowCount(group: nat, next: nat): nat {
    SYM_GROUP_SIZE * group + if next == 0 then 0 else next - 1
  }

  predicate DetOk<S>(d: Det<S>) {
    && d.next <= SYM_GROUP_SIZE && (d.group < GROUPS || (d.group == GROUPS && d.next == 0))
    && |d.carry| < SAMP_SIZE && |d.rows| == RowCount(d.group, d.next)
  }

  function OneSymbol<S>(f: Front<S>, d: Det<S>, w: seq<S>): Det<S> {
    var rows := if d.next == 0 then d.rows else d.rows + [f.Row(d.group, w)];
    if d.next == SYM_GROUP_SIZE then Det(d.group + 1, 0, d.carry, rows) else Det(d.group, d.next + 1, d.carry, rows)
  }

  /** Reads whole symbols until the preamble is complete or the samples run out. */
  function Symbols<S>(f: Front<S>, d: Det<S>, s: seq<S>): Det<S>
    decreases |s|
  {
    if d.group >= GROUPS then d.(carry := [])
    else if |s| < SAMP_SIZE then d.(carry := s)
    else Symbols(f, OneSymbol(f, d, s[..SAMP_SIZE]), s[SAMP_SIZE..])
  }

  /** One call. A chunk that does not complete the carried symbol replaces the carried samples, since it
      is stored at the start of the buffer. */
  function Feed<S>(f: Front<S>, d: Det<S>, chunk: seq<S>): Det<S> {
    if |d.carry| + |chunk| < SAMP_SIZE then d.(carry := chunk) else Symbols(f, d, d.carry + chunk)
  }

  lemma {:induction false} SymbolsOk<S>(f: Front<S>, d: Det<S>, s: seq<S>)
    requires DetOk(d)
    ensures DetOk(Symbols(f, d, s))
    decreases |s|
  {
    hide f.Row;
    if d.group < GROUPS && |s| >= SAMP_SIZE { SymbolsOk(f, OneSymbol(f, d, s[..SAMP_SIZE]), s[SAMP_SIZE..]); }
  }

  lemma {:induction false} CarryIrrelevant<S>(f: Front<S>, d: Det<S>, c: seq<S>, s: seq<S>)
    ensures Symbols(f, d.(carry := c), s) == Symbols(f, d, s)
    decreases |s|
  {
    if d.group < GROUPS && |s| >= SAMP_SIZE {
      var e := OneSymbol(f, d, s[..SAMP_SIZE]);
      assert OneSymbol(f, d.(carry := c), s[..SAMP_SIZE]) == e.(carry := c);
      CarryIrrelevant(f, e, c, s[SAMP_SIZE..]);
    }
  }

  /** Reading can be interrupted anywhere and resumed with what was carried over. */
  lemma {:induction false} Resume<S>(f: Front<S>, d: Det<S>, a: seq<S>, b: seq<S>)
    ensures var e := Symbols(f, d, a);
            Symbols(f, d, a + b) == if e.group >= GROUPS then e else Symbols(f, e, e.carry + b)
    decreases |a|
  {
    hide f.Row;
    if d.group >= GROUPS {
    } else if |a| < SAMP_SIZE {
      CarryIrrelevant(f, d, a, a + b);
    } else {
      assert (a + b)[..SAMP_SIZE] == a[..SAMP_SIZE];
      assert (a + b)[SAMP_SIZE..] == a[SAMP_SIZE..] + b;
      Resume(f, OneSymbol(f, d, a[..SAMP_SIZE]), a[SAMP_SIZE..], b);
    }
  }

  function Flatten<S>(chunks: seq<seq<S>>): seq<S> {
    if chunks == [] then [] else Flatten(chunks[..|chunks| - 1]) + chunks[|chunks| - 1]
  }

  /** A run of calls; once the preamble is complete the caller resets the detector instead of calling again. */
  function FeedAll<S>(f: Front<S>, chunks: seq<seq<S>>): Det<S> {
    if chunks == [] then Fresh()
    else
      var d := FeedAll(f, chunks[..|chunks| - 1]);
      if d.group >= GROUPS then d else Feed(f, d, chunks[|chunks| - 1])
  }

  /** Every chunk either starts on a symbol boundary or completes the symbol it continues. */
  predicate NoShortChunk<S>(f: Front<S>, chunks: seq<seq<S>>) {
    chunks == [] ||
    (var n := |chunks| - 1;
     var d := FeedAll(f, chunks[..n]);
     NoShortChunk(f, chunks[..n]) && (d.group >= GROUPS || d.carry == [] || |d.carry| + |chunks[n]| >= SAMP_SIZE))
  }

  lemma {:induction false} LongChunks<S>(f: Front<S>, chunks: seq<seq<S>>)
    requires forall k :: 0 <= k < |chunks| ==> |chunks[k]| >= SAMP_SIZE
    ensures NoShortChunk(f, chunks)
  {
    if chunks != [] { LongChunks(f, chunks[..|chunks| - 1]); }
  }

  /** Splitting the samples into chunks makes no difference. */
  lemma {:induction false} ChunksDoNotMatter<S>(f: Front<S>, chunks: seq<seq<S>>)
    requires NoShortChunk(f, chunks)
    ensures FeedAll(f, chunks) == Symbols(f, Fresh(), Flatten(chunks))
  {
    hide OneSymbol;
    if chunks != [] {
      var n := |chunks| - 1;
      ChunksDoNotMatter(f, chunks[..n]);
      Resume(f, Fresh(), Flatten(chunks[..n]), chunks[n]);
      var d := FeedAll(f, chunks[..n]);
      if d.group < GROUPS && d.carry == [] { assert d.carry + chunks[n] == chunks[n]; }
    }
  }

  function Consumed<S>(d: Det<S>): nat {
    SAMP_SIZE * ((SYM_GROUP_SIZE + 1) * d.group + d.next) + |d.carry|
  }

  lemma {:induction false} SymbolsConsume<S>(f: Front<S>, d: Det<S>, s: seq<S>)
    requires DetOk(d) && d.group < GROUPS
    ensures var e := Symbols(f, d, s); e.group < GROUPS ==> Consumed(e) == Consumed(d) - |d.carry| + |s|
    decreases |s|
  {
    hide f.Row;
    if |s| >= SAMP_SIZE {
      var e := OneSymbol(f, d, s[..SAMP_SIZE]);
      if e.group < GROUPS { SymbolsConsume(f, e, s[SAMP_SIZE..]); }
    }
  }

  lemma {:induction false} SymbolsDone<S>(f: Front<S>, d: Det<S>, s: seq<S>)
    requires DetOk(d) && d.group < GROUPS && Symbols(f, d, s).group >= GROUPS
    ensures var e := Symbols(f, d, s); e.group == GROUPS && e.next == 0 && e.carry == []
    decreases |s|
  {
    hide f.Row;
    var e := OneSymbol(f, d, s[..SAMP_SIZE]);
    if e.group < GROUPS { SymbolsDone(f, e, s[SAMP_SIZE..]); }
  }

  /** Samples from the start of the symbol that `d` expects to the end of the preamble. */
  function Missing<S>(d: Det<S>): int {
    SAMP_SIZE * ((SYM_GROUP_SIZE + 1) * (GROUPS - d.group) - d.next)
  }

  /** The preamble is complete exactly when 24 symbols have been received. */
  lemma {:induction false} CompleteAfter24<S>(f: Front<S>, d: Det<S>, s: seq<S>)
    requires DetOk(d) && d.group < GROUPS
    ensures Symbols(f, d, s).group == GROUPS <==> Missing(d) <= |s|
    decreases |s|
  {
    hide f.Row;
    if |s| >= SAMP_SIZE {
      var e := OneSymbol(f, d, s[..SAMP_SIZE]);
      if e.group < GROUPS { CompleteAfter24(f, e, s[SAMP_SIZE..]); }
    }
  }

  /** A call accounts for all its samples exactly when it starts on a symbol boundary or completes the carried
      symbol, and does not run beyond the end of the preamble. Otherwise samples are lost. */
  lemma NoSampleLostExactly<S>(f: Front<S>, d: Det<S>, chunk: seq<S>)
    requires DetOk(d) && d.group < GROUPS
    ensures var n := |d.carry| + |chunk|;
            Consumed(Feed(f, d, chunk)) == Consumed(d) + |chunk| <==> (d.carry == [] || n >= SAMP_SIZE) && n <= Missing(d)
  {
    hide Symbols;
    var s := d.carry + chunk;
    CompleteAfter24(f, d, s);
    SymbolsConsume(f, d, s);
    if Symbols(f, d, s).group >= GROUPS { SymbolsDone(f, d, s); }
  }

  /** Chunks of 300 and 200 samples: the first is forgotten. */
  lemma ShortChunksDiffer<S>(f: Front<S>, a: seq<S>, b: seq<S>)
    requires |a| == 300 && |b| == 200
    ensures FeedAll(f, [a, b]) == Det(0, 0, b, []) && FeedAll(f, [a + b]) == Det(0, 0, a + b, [])
  {
    assert [a, b][..1] == [a] && [a][..0] == [] && [a + b][..0] == [];
    assert FeedAll(f, [a]) == Feed(f, Fresh(), a) == Det(0, 0, a, []);
  }

  /** Where symbol `k` of group `g` starts, counted from the symbol that `d` expects. */
  function SymbolAt<S>(d: Det<S>, g: nat, k: nat): int {
    SAMP_SIZE * ((SYM_GROUP_SIZE + 1) * g + k - ((SYM_GROUP_SIZE + 1) * d.group + d.next))
  }

  lemma {:induction false} RowsFrom<S>(f: Front<S>, d: Det<S>, s: seq<S>, g: nat, k: nat)
    requires DetOk(d) && g < GROUPS && 1 <= k <= SYM_GROUP_SIZE
    requires 0 <= SymbolAt(d, g, k) && SymbolAt(d, g, k) + SAMP_SIZE <= |s|
    ensures var at := SymbolAt(d, g, k); var rows := Symbols(f, d, s).rows;
            && |rows| > SYM_GROUP_SIZE * g + k - 1
            && rows[SYM_GROUP_SIZE * g + k - 1] == f.Row(g, s[at..at + SAMP_SIZE])
    decreases |s|
  {
    var w := s[..SAMP_SIZE];
    var e := OneSymbol(f, d, w);
    var at := SymbolAt(d, g, k);
    if at == 0 {
      SamePlace(d.group, d.next, g, k);
      RowsStay(f, e, s[SAMP_SIZE..]);
    } else {
      NextPlace(d.group, d.next, g, k);
      RowsFrom(f, e, s[SAMP_SIZE..], g, k);
      WindowAfter(s, at);
    }
  }

  lemma WindowAfter<S>(s: seq<S>, at: nat)
    requires SAMP_SIZE <= at && at + SAMP_SIZE <= |s|
    ensures s[SAMP_SIZE..][at - SAMP_SIZE..at] == s[at..at + SAMP_SIZE]
  {
    var l, r := s[SAMP_SIZE..][at - SAMP_SIZE..at], s[at..at + SAMP_SIZE];
    assert |l| == |r| && forall i :: 0 <= i < SAMP_SIZE ==> l[i] == r[i];
  }

  /** The first symbol of what is buffered and what is left of a chunk. */
  lemma FirstSymbol<S>(buf: seq<S>, chunk: seq<S>, at: nat)
    requires |buf| <= SAMP_SIZE && at <= |chunk| && |buf| + |chunk| - at >= SAMP_SIZE
    ensures var n := SAMP_SIZE - |buf|; var all := buf + chunk[at..];
            && all[..SAMP_SIZE] == buf + chunk[at..at + n]
            && all[SAMP_SIZE..] == chunk[at + n..]
  {
    var n := SAMP_SIZE - |buf|;
    assert chunk[at..] == chunk[at..at + n] + chunk[at + n..];
    assert buf + chunk[at..] == (buf + chunk[at..at + n]) + chunk[at + n..];
  }

  lemma SamePlace(group: nat, next: nat, g: nat, k: nat)
    requires next <= SYM_GROUP_SIZE && 1 <= k <= SYM_GROUP_SIZE
    requires (SYM_GROUP_SIZE + 1) * g + k == (SYM_GROUP_SIZE + 1) * group + next
    ensures group == g && next == k
  {
  }

  lemma NextPlace(group: nat, next: nat, g: nat, k: nat)
    requires next <= SYM_GROUP_SIZE && 1 <= k <= SYM_GROUP_SIZE && g < GROUPS
    requires (SYM_GROUP_SIZE + 1) * g + k > (SYM_GROUP_SIZE + 1) * group + next
    ensures group < GROUPS
  {
  }

  lemma {:induction false} RowsStay<S>(f: Front<S>, d: Det<S>, s: seq<S>)
    ensures d.rows <= Symbols(f, d, s).rows
    decreases |s|
  {
    if d.group < GROUPS && |s| >= SAMP_SIZE { RowsStay(f, OneSymbol(f, d, s[..SAMP_SIZE]), s[SAMP_SIZE..]); }
  }

  /** The samples of the symbol that starts at `at`, each times the frequency shift for its place. */
  ghost predicate IsMixed<S>(f: Front<S>, stream: seq<S>, at: nat, m: seq<S>) {
    |m| == 512 && at + 512 <= |stream| && forall i :: 0 <= i < 512 ==> m[i] == f.mul(stream[at + i], f.shift(i))
  }

  /** However the stream was chunked, the row of symbol `k` of group `g` comes from the 512 samples from
      512 (6g + k) on, each multiplied by the frequency shift; its column for preamble `sc` is the FFT bin of the
      tone to which the preamble hops: the carrier's 48 tones begin with bin 232, the preambles' twelve 36 later. */
  lemma RowIsItsWindow<S>(f: Front<S>, chunks: seq<seq<S>>, g: nat, k: nat, sc: nat, m: seq<S>)
    requires NoShortChunk(f, chunks)
    requires g < GROUPS && 1 <= k <= SYM_GROUP_SIZE && sc < SUBCARRIERS
    requires IsMixed(f, Flatten(chunks), 512 * (6 * g + k), m)
    ensures var rows := FeedAll(f, chunks).rows;
            && |rows| > 5 * g + k - 1 && |rows[5 * g + k - 1]| == SUBCARRIERS
            && rows[5 * g + k - 1][sc] == f.bin(m, 232 + 36 + SubcarrierSg(sc, g))
  {
    hide SubcarrierSg, f.Mix, NoShortChunk, Symbols;
    var at := 512 * (6 * g + k);
    ChunksDoNotMatter(f, chunks);
    assert SymbolAt<S>(Fresh(), g, k) == at;
    RowsFrom(f, Fresh(), Flatten(chunks), g, k);
    MixedIs(f, Flatten(chunks), at, m);
  }

  lemma MixedIs<S>(f: Front<S>, stream: seq<S>, at: nat, m: seq<S>)
    requires IsMixed(f, stream, at, m)
    ensures m == f.Mix(stream[at..at + 512])
  {
  }

  // ---------------------------------------------------------------- the decision

  /** Loud entries of column `sc` among the first `n` rows. */
  function LoudRows<S>(f: Front<S>, rows: seq<seq<S>>, sc: nat, n: nat): nat
    requires n <= |rows| && forall k :: 0 <= k < |rows| ==> |rows[k]| == SUBCARRIERS
    requires sc < SUBCARRIERS
  {
    if n == 0 then 0 else LoudRows(f, rows, sc, n - 1) + if f.loud(rows[n - 1][sc]) then 1 else 0
  }

  const NOF_ROWS: nat := 20

  /** A preamble is seen on a tone when at most one of its twenty rows is quiet. */
  predicate Heard<S>(f: Front<S>, rows: seq<seq<S>>, sc: nat)
    requires |rows| == NOF_ROWS && (forall k :: 0 <= k < |rows| ==> |rows[k]| == SUBCARRIERS) && sc < SUBCARRIERS
  {
    LoudRows(f, rows, sc, NOF_ROWS) > 18
  }

  lemma {:induction false} LoudRowsBound<S>(f: Front<S>, rows: seq<seq<S>>, sc: nat, n: nat)
    requires n <= |rows| && (forall k :: 0 <= k < |rows| ==> |rows[k]| == SUBCARRIERS) && sc < SUBCARRIERS
    ensures LoudRows(f, rows, sc, n) <= n
    ensures LoudRows(f, rows, sc, n) == n <==> forall k :: 0 <= k < n ==> f.loud(rows[k][sc])
  {
    if n > 0 { LoudRowsBound(f, rows, sc, n - 1); }
  }

  lemma {:induction false} TwoQuiet<S>(f: Front<S>, rows: seq<seq<S>>, sc: nat, n: nat)
    requires n <= |rows| && (forall k :: 0 <= k < |rows| ==> |rows[k]| == SUBCARRIERS) && sc < SUBCARRIERS
    ensures LoudRows(f, rows, sc, n) + 1 >= n <==>
            forall j, k :: 0 <= j < k < n ==> f.loud(rows[j][sc]) || f.loud(rows[k][sc])
  {
    if n > 0 {
      TwoQuiet(f, rows, sc, n - 1);
      LoudRowsBound(f, rows, sc, n - 1);
    }
  }

  /** A tone is heard exactly when no two rows are quiet. */
  lemma HeardMeans<S>(f: Front<S>, rows: seq<seq<S>>, sc: nat)
    requires |rows| == NOF_ROWS && (forall k :: 0 <= k < |rows| ==> |rows[k]| == SUBCARRIERS) && sc < SUBCARRIERS
    ensures Heard(f, rows, sc) <==>
            forall j, k :: 0 <= j < k < NOF_ROWS ==> f.loud(rows[j][sc]) || f.loud(rows[k][sc])
  {
    TwoQuiet(f, rows, sc, NOF_ROWS);
  }

  // ---------------------------------------------------------------- the detector

  class Detector<S(0)> {
    const front: Front<S>
    const fftIn: array<S>
    const fftOut: array<S>
    const detBuf: array2<S>
    var bufSamp: nat
    var curSymg: nat
    var nxtSym: nat

    ghost predicate Valid()
      reads this
    {
      && fftIn.Length == SAMP_SIZE && fftOut.Length == SAMP_SIZE && fftIn != fftOut
      && detBuf.Length0 == NOF_ROWS && detBuf.Length1 == SUBCARRIERS
      && bufSamp < SAMP_SIZE && nxtSym <= SYM_GROUP_SIZE
      && (curSymg < GROUPS || (curSymg == GROUPS && nxtSym == 0))
    }

    ghost function Rows(n: nat): (r: seq<seq<S>>)
      requires detBuf.Length0 == NOF_ROWS && detBuf.Length1 == SUBCARRIERS && n <= NOF_ROWS
      reads detBuf
      ensures |r| == n && forall i :: 0 <= i < n ==> |r[i]| == SUBCARRIERS && forall sc :: 0 <= sc < SUBCARRIERS ==> r[i][sc] == detBuf[i, sc]
    {
      seq(n, i requires 0 <= i < n reads detBuf => seq(SUBCARRIERS, sc requires 0 <= sc < SUBCARRIERS reads detBuf => detBuf[i, sc]))
    }

    /** The state as a value, with `carry` in the buffer. */
    ghost function ValWith(carry: seq<S>): Det<S>
      requires Valid()
      reads this, detBuf
    {
      Det(curSymg, nxtSym, carry, Rows(RowCount(curSymg, nxtSym)))
    }

    ghost function Val(): Det<S>
      requires Valid()
      reads this, detBuf, fftIn
    {
      ValWith(fftIn[..bufSamp])
    }

    constructor (front: Front<S>)
      ensures Valid() && Val() == Fresh() && this.front == front && fresh(fftIn) && fresh(fftOut) && fresh(detBuf)
    {
      this.front := front;
      fftIn := new S[SAMP_SIZE];
      fftOut := new S[SAMP_SIZE];
      detBuf := new S[NOF_ROWS, SUBCARRIERS];
      bufSamp, curSymg, nxtSym := 0, 0, 0;
    }

    /** The caller resets the detector between preambles; samples carried over are kept. */
    method Reset()
      requires Valid()
      modifies `curSymg, `nxtSym
      ensures Valid() && Val() == Fresh<S>().(carry := old(Val()).carry)
    {
      nxtSym := 0;
      curSymg := 0;
    }

    /** Copies `part` into the buffer at `at`. */
    method CopyIn(at: nat, part: seq<S>)
      requires at + |part| <= fftIn.Length
      modifies fftIn
      ensures fftIn[..] == old(fftIn[..at]) + part + old(fftIn[at + |part|..])
    {
      var i := 0;
      while i < |part|
        invariant 0 <= i <= |part|
        invariant fftIn[..] == old(fftIn[..at]) + part[..i] + old(fftIn[at + i..])
      {
        fftIn[at + i] := part[i];
        i := i + 1;
      }
      assert part[..i] == part;
    }

    /** Frequency shift in place, then the transform. */
    method Transform()
      requires Valid()
      modifies fftIn, fftOut
      ensures forall i :: 0 <= i < SAMP_SIZE ==> fftOut[i] == front.bin(front.Mix(old(fftIn[..])), i)
    {
      ghost var w := fftIn[..];
      var i := 0;
      while i < SAMP_SIZE
        invariant 0 <= i <= SAMP_SIZE
        invariant forall j :: 0 <= j < SAMP_SIZE ==> fftIn[j] == if j < i then front.mul(w[j], front.shift(j)) else w[j]
        modifies fftIn
      {
        fftIn[i] := front.mul(fftIn[i], front.shift(i));
        i := i + 1;
      }
      assert fftIn[..] == front.Mix(w);
      i := 0;
      while i < SAMP_SIZE
        invariant 0 <= i <= SAMP_SIZE && fftIn[..] == front.Mix(w)
        invariant forall j :: 0 <= j < i ==> fftOut[j] == front.bin(front.Mix(w), j)
        modifies fftOut
      {
        fftOut[i] := front.bin(fftIn[..], i);
        i := i + 1;
      }
    }

    /** Files each preamble's tone of group `sg` in row `row`. */
    method StoreDetectBuf(row: nat, sg: nat)
      requires Valid() && row < NOF_ROWS
      modifies detBuf
      ensures forall i, sc :: 0 <= i < NOF_ROWS && 0 <= sc < SUBCARRIERS ==>
                detBuf[i, sc] == if i == row then fftOut[SUBC_OFFSET + SubcarrierSg(sc, sg)] else old(detBuf[i, sc])
    {
      hide SubcarrierSg;
      var startSc: nat := 0;
      while startSc < SUBCARRIERS
        invariant startSc <= SUBCARRIERS
        invariant forall i, sc :: 0 <= i < NOF_ROWS && 0 <= sc < SUBCARRIERS ==>
                    detBuf[i, sc] == if i == row && sc < startSc then fftOut[SUBC_OFFSET + SubcarrierSg(sc, sg)] else old(detBuf[i, sc])
      {
        detBuf[row, startSc] := fftOut[SUBC_OFFSET + SubcarrierSg(startSc, sg)];
        startSc := startSc + 1;
      }
    }

    /** A symbol is complete in the buffer. */
    method OneRow()
      requires Valid() && curSymg < GROUPS && 1 <= nxtSym
      modifies fftIn, fftOut, detBuf
      ensures var r := RowCount(curSymg, nxtSym);
              r < NOF_ROWS && Rows(r + 1) == old(Rows(r)) + [front.Row(curSymg, old(fftIn[..]))]
    {
      ghost var w := fftIn[..];
      Transform();
      var symNum := curSymg * SYM_GROUP_SIZE + nxtSym - 1;
      StoreDetectBuf(symNum, curSymg);
      forall i | 0 <= i < symNum ensures Rows(symNum + 1)[i] == old(Rows(RowCount(curSymg, nxtSym)))[i] {
        assert forall sc :: 0 <= sc < SUBCARRIERS ==> Rows(symNum + 1)[i][sc] == old(Rows(RowCount(curSymg, nxtSym)))[i][sc];
      }
      assert Rows(symNum + 1)[symNum] == front.Row(curSymg, w);
    }

    /** The next symbol has been received: the end of it is `part`, the rest waits in the buffer. */
    method TakeSymbol(offset: nat, part: seq<S>) returns (finished: bool)
      requires Valid() && curSymg < GROUPS && offset + |part| == SAMP_SIZE
      modifies `curSymg, `nxtSym, fftIn, fftOut, detBuf
      ensures Valid() && finished == (curSymg == GROUPS)
      ensures ValWith([]) == OneSymbol(front, old(ValWith([])), old(fftIn[..offset]) + part)
    {
      hide front.Row, SubcarrierSg;
      finished := false;
      if nxtSym != 0 {
        CopyIn(offset, part);
        assert fftIn[..] == old(fftIn[..offset]) + part;
        OneRow();
      }
      if nxtSym == SYM_GROUP_SIZE {
        nxtSym := 0;
        curSymg := curSymg + 1;
        if curSymg == 4 { finished := true; }
      } else {
        nxtSym := nxtSym + 1;
      }
    }

    /** One call with a chunk of samples. */
    method Detect(signal: seq<S>) returns (found: bool, index: nat)
      requires Valid() && curSymg < GROUPS
      modifies `bufSamp, `curSymg, `nxtSym, fftIn, fftOut, detBuf
      ensures Valid() && Val() == Feed(front, old(Val()), signal)
      ensures curSymg < GROUPS ==> !found
      ensures curSymg == GROUPS ==>
                var rows := Rows(NOF_ROWS);
                && (found <==> exists sc: nat :: sc < SUBCARRIERS && Heard(front, rows, sc))
                && (found ==> BASE_SUBC <= index < BASE_SUBC + SUBCARRIERS && Heard(front, rows, index - BASE_SUBC)
                              && forall sc: nat :: index - BASE_SUBC < sc < SUBCARRIERS ==> !Heard(front, rows, sc))
    {
      hide Symbols, OneSymbol, Heard, front.Row;
      ghost var d0 := Val();
      found, index := false, 0;
      var bufOffset, inOffset, rem, finished := bufSamp, 0, |signal|, false;
      CarryIrrelevant(front, d0, [], d0.carry + signal);
      assert signal[0..] == signal;
      while rem + bufOffset >= SAMP_SIZE
        invariant Valid() && curSymg < GROUPS && bufSamp == old(bufSamp) && !finished
        invariant 0 <= inOffset <= |signal| && rem == |signal| - inOffset
        invariant inOffset == 0 ==> bufOffset == bufSamp && Val() == d0
        invariant inOffset > 0 ==> bufOffset == 0
        invariant inOffset > 0 ==> |d0.carry| + |signal| >= SAMP_SIZE
        invariant Symbols(front, ValWith([]), fftIn[..bufOffset] + signal[inOffset..]) == Symbols(front, d0, d0.carry + signal)
      {
        // the cyclic prefix is as long as a symbol and is only swallowed
        var readAmount := SAMP_SIZE - bufOffset;
        ghost var all := fftIn[..bufOffset] + signal[inOffset..];
        SymbolsStep(front, ValWith([]), all);
        FirstSymbol(fftIn[..bufOffset], signal, inOffset);
        finished := TakeSymbol(bufOffset, signal[inOffset..inOffset + readAmount]);
        rem := rem - readAmount;
        inOffset := inOffset + readAmount;
        bufOffset := 0;
        assert fftIn[..0] + signal[inOffset..] == signal[inOffset..];
        if finished { break; }
      }
      SymbolsEnd(front, ValWith([]), signal[inOffset..]);
      if finished {
        found, index := Decide();
        bufSamp := 0;
      } else {
        if rem > 0 { CopyIn(0, signal[inOffset..]); }
        bufSamp := rem;
      }
      assert fftIn[..bufSamp] == if finished then [] else signal[inOffset..];
      if inOffset == 0 {
        assert signal[inOffset..] == signal;
        assert Val() == d0.(carry := signal);
      } else {
        assert fftIn[..0] + signal[inOffset..] == signal[inOffset..];
        assert Val() == Symbols(front, d0, d0.carry + signal);
      }
    }

    /** The preamble seen on the highest tone, if any. */
    method Decide() returns (found: bool, index: nat)
      requires Valid()
      ensures var rows := Rows(NOF_ROWS);
              && (found <==> exists sc: nat :: sc < SUBCARRIERS && Heard(front, rows, sc))
              && (found ==> BASE_SUBC <= index < BASE_SUBC + SUBCARRIERS && Heard(front, rows, index - BASE_SUBC)
                            && forall sc: nat :: index - BASE_SUBC < sc < SUBCARRIERS ==> !Heard(front, rows, sc))
    {
      ghost var rows := Rows(NOF_ROWS);
      found, index := false, 0;
      var sc: nat := 0;
      while sc < 12
        invariant sc <= 12
        invariant found <==> exists c: nat :: c < sc && Heard(front, rows, c)
        invariant found ==> BASE_SUBC <= index < BASE_SUBC + sc && Heard(front, rows, index - BASE_SUBC)
                            && forall c: nat :: index - BASE_SUBC < c < sc ==> !Heard(front, rows, c)
      {
        var count, i := 0, 0;
        while i < 20
          invariant 0 <= i <= 20 && count == LoudRows(front, rows, sc, i)
        {
          if front.loud(detBuf[i, sc]) { count := count + 1; }
          i := i + 1;
        }
        assert Heard(front, rows, sc) == (count > 18);
        if count > 18 {
          index := sc + 36;
          found := true;
        }
        sc := sc + 1;
      }
    }
  }

  lemma SymbolsStep<S>(f: Front<S>, d: Det<S>, s: seq<S>)
    requires d.group < GROUPS && |s| >= SAMP_SIZE
    ensures Symbols(f, d, s) == Symbols(f, OneSymbol(f, d, s[..SAMP_SIZE]), s[SAMP_SIZE..])
  {
    hide OneSymbol;
  }

  lemma SymbolsEnd<S>(f: Front<S>, d: Det<S>, s: seq<S>)
    ensures d.group >= GROUPS ==> Symbols(f, d, s) == d.(carry := [])
    ensures d.group < GROUPS && |s| < SAMP_SIZE ==> Symbols(f, d, s) == d.(carry := s)
  {
  }
}
