/** The RAR queue over whole runs: every detection is answered exactly once, in order. */
module RarRuns {
  import opened Timing
  import opened DlSpec
  import opened Options
  import opened DlRuns

  /** Pending responses of the NPRACH opportunity `p`, oldest first. */
  function PendingOf(rars: seq<PendingRar>, p: nat): seq<RarInfo> {
    if rars == [] then []
    else (if rars[0].nprachTti == p then rars[0].grants else []) + PendingOf(rars[1..], p)
  }

  function Only(infos: seq<RarInfo>, p: nat): seq<RarInfo> {
    if infos == [] then []
    else
      var n := |infos| - 1;
      Only(infos[..n], p) + (if infos[n].nprachTti == p then [infos[n]] else [])
  }

  predicate WellFormedRar(r: PendingRar) {
    && r.raRnti == RaRnti(r.nprachTti) && r.grants != []
    && forall k :: 0 <= k < |r.grants| ==> r.grants[k].nprachTti == r.nprachTti
  }

  /** Pending RARs owe at least one response each and belong to distinct NPRACH opportunities. */
  ghost predicate QueueOk(rars: seq<PendingRar>) {
    && (forall i :: 0 <= i < |rars| ==> WellFormedRar(rars[i]))
    && (forall i, j :: 0 <= i < j < |rars| ==> rars[i].nprachTti != rars[j].nprachTti)
  }

  lemma {:induction false} AddRachKeeps(rars: seq<PendingRar>, info: RarInfo)
    requires QueueOk(rars)
    ensures var r := AddRach(rars, info);
            && QueueOk(r)
            && |rars| <= |r| <= |rars| + 1
            && (forall i :: 0 <= i < |rars| ==> r[i].nprachTti == rars[i].nprachTti)
            && (|r| == |rars| + 1 ==>
                 r[|rars|].nprachTti == info.nprachTti && forall i :: 0 <= i < |rars| ==> rars[i].nprachTti != info.nprachTti)
  {
    if rars != [] && rars[0].nprachTti != info.nprachTti {
      var tail := rars[1..];
      AddRachKeeps(tail, info);
      var r := AddRach(rars, info);
      assert r == [rars[0]] + AddRach(tail, info);
      forall i | 1 <= i < |rars| ensures r[i].nprachTti == rars[i].nprachTti && rars[i] == tail[i - 1] {}
    } else if rars != [] {
      assert WellFormedRar(rars[0]);
    }
  }

  lemma {:induction false} AddRachPending(rars: seq<PendingRar>, info: RarInfo, p: nat)
    requires QueueOk(rars)
    ensures PendingOf(AddRach(rars, info), p) == PendingOf(rars, p) + (if info.nprachTti == p then [info] else [])
  {
    var r := AddRach(rars, info);
    if rars == [] {
      assert r[1..] == [];
    } else if rars[0].nprachTti == info.nprachTti {
      assert r[1..] == rars[1..];
      if p == info.nprachTti { NotPending(rars[1..], p); }
    } else {
      assert r[1..] == AddRach(rars[1..], info);
      AddRachPending(rars[1..], info, p);
    }
  }

  lemma {:induction false} NotPending(rars: seq<PendingRar>, p: nat)
    requires forall i :: 0 <= i < |rars| ==> rars[i].nprachTti != p
    ensures PendingOf(rars, p) == []
  {
    if rars != [] { NotPending(rars[1..], p); }
  }

  lemma {:induction false} AddAllKeeps(rars: seq<PendingRar>, infos: seq<RarInfo>, p: nat)
    requires QueueOk(rars)
    ensures QueueOk(AddAll(rars, infos))
    ensures PendingOf(AddAll(rars, infos), p) == PendingOf(rars, p) + Only(infos, p)
  {
    if infos != [] {
      var n := |infos| - 1;
      AddAllKeeps(rars, infos[..n], p);
      AddRachKeeps(AddAll(rars, infos[..n]), infos[n]);
      AddRachPending(AddAll(rars, infos[..n]), infos[n], p);
    }
  }

  function Sent(rar: Option<RarAlloc>): seq<RarInfo> {
    if rar.Some? then [rar.value.grant] else []
  }

  /** The queue after one response of its head has been sent. */
  function WithoutFirst(rars: seq<PendingRar>): seq<PendingRar>
    requires rars != [] && rars[0].grants != []
  {
    if |rars[0].grants| == 1 then rars[1..] else [rars[0].(grants := rars[0].grants[1..])] + rars[1..]
  }

  lemma WithoutFirstOk(rars: seq<PendingRar>)
    requires QueueOk(rars) && rars != []
    ensures WellFormedRar(rars[0]) && QueueOk(WithoutFirst(rars))
  {
    hide RaRnti;
    assert WellFormedRar(rars[0]);
    var r := WithoutFirst(rars);
    var d := if |rars[0].grants| == 1 then 1 else 0;
    forall i | 0 <= i < |r| ensures WellFormedRar(r[i]) && r[i].nprachTti == rars[i + d].nprachTti {
      assert WellFormedRar(rars[i + d]);
    }
  }

  lemma WithoutFirstPending(rars: seq<PendingRar>, p: nat)
    requires rars != [] && WellFormedRar(rars[0])
    ensures PendingOf(rars, p) == (if rars[0].nprachTti == p then [rars[0].grants[0]] else []) + PendingOf(WithoutFirst(rars), p)
  {
    hide RaRnti;
    var g, r, rest := rars[0].grants, WithoutFirst(rars), PendingOf(rars[1..], p);
    if |g| > 1 {
      assert r[1..] == rars[1..];
      assert g + rest == [g[0]] + (g[1..] + rest);
    } else {
      assert g == [g[0]];
    }
  }

  /** A pass takes what it sends from the head of the queue. */
  lemma RaPassKeeps(rars: seq<PendingRar>, out: RaOut, p: nat)
    requires QueueOk(rars)
    requires out.rar.None? ==> out.rars == rars
    requires out.rar.Some? ==>
               rars != [] && rars[0].grants != [] && out.rar.value.grant == rars[0].grants[0] && out.rars == WithoutFirst(rars)
    ensures QueueOk(out.rars)
    ensures PendingOf(rars, p) == Only(Sent(out.rar), p) + PendingOf(out.rars, p)
  {
    hide RaRnti, WithoutFirst, PendingOf;
    if out.rar.Some? {
      WithoutFirstOk(rars);
      WithoutFirstPending(rars, p);
      assert Sent(out.rar)[..0] == [];
    } else {
      assert Only([], p) == [];
    }
  }

  // ---------------------------------------------------------------- over a run

  function Arrived(inputs: seq<Input>): seq<RarInfo> {
    if inputs == [] then [] else Arrived(inputs[..|inputs| - 1]) + inputs[|inputs| - 1].rach
  }

  /** Responses sent in a run: each pass adds at most one. */
  function Emitted(inputs: seq<Input>): seq<RarInfo> {
    if inputs == [] then []
    else
      var n := |inputs| - 1;
      Emitted(inputs[..n]) + Sent(PassOf(Run(inputs[..n]), inputs[n]).rar)
  }

  lemma {:induction false} OnlyAppend(a: seq<RarInfo>, b: seq<RarInfo>, p: nat)
    ensures Only(a + b, p) == Only(a, p) + Only(b, p)
  {
    if b == [] {
      assert a + b == a;
    } else {
      var n := |b| - 1;
      assert (a + b)[..|a| + n] == a + b[..n];
      OnlyAppend(a, b[..n], p);
    }
  }

  lemma StepRar(s: Sys, inp: Input)
    ensures var out, rars := PassOf(s, inp), AddAll(s.dl.rars, inp.rach);
            && Step(s, inp).dl.rars == out.next.rars
            && (out.rar.None? ==> out.next.rars == rars)
            && (out.rar.Some? ==>
                 && rars != [] && rars[0].grants != [] && out.rar.value.grant == rars[0].grants[0]
                 && out.next.rars == WithoutFirst(rars))
  {
    hide AddAll, AfterBc, UserPart, BcPart, RarCanStart;
  }

  lemma Regroup(e: seq<RarInfo>, before: seq<RarInfo>, r: seq<RarInfo>, s: seq<RarInfo>, after: seq<RarInfo>)
    requires before + r == s + after
    ensures (e + before) + r == (e + s) + after
  {
    assert (e + before) + r == e + (before + r);
    assert (e + s) + after == e + (s + after);
  }

  lemma EmptyStart()
    ensures Start().dl.rars == []
  {
  }

  /** Conservation: what arrived for an NPRACH opportunity is what was sent for it followed by what is
      still pending, in order; so nothing is lost, sent twice or reordered. */
  lemma {:induction false} RarFifo(inputs: seq<Input>, p: nat)
    ensures QueueOk(Run(inputs).dl.rars)
    ensures Only(Arrived(inputs), p) == Only(Emitted(inputs), p) + PendingOf(Run(inputs).dl.rars, p)
  {
    hide Step, PassOf, Start;
    if inputs == [] {
      EmptyStart();
    } else {
      var n := |inputs| - 1;
      var s, inp := Run(inputs[..n]), inputs[n];
      RarFifo(inputs[..n], p);
      AddAllKeeps(s.dl.rars, inp.rach, p);
      StepRar(s, inp);
      var out := PassOf(s, inp);
      RaPassKeeps(AddAll(s.dl.rars, inp.rach), RaOut(out.next.rars, out.rar, out.rarDone), p);
      OnlyAppend(Arrived(inputs[..n]), inp.rach, p);
      OnlyAppend(Emitted(inputs[..n]), Sent(out.rar), p);
      Regroup(Only(Emitted(inputs[..n]), p), PendingOf(s.dl.rars, p), Only(inp.rach, p),
              Only(Sent(out.rar), p), PendingOf(out.next.rars, p));
    }
  }

  /** The scheduling loop never meets a RAR without grants, on which it would not stop. */
  lemma FrontHasGrants(inputs: seq<Input>, infos: seq<RarInfo>)
    ensures var rars := AddAll(Run(inputs).dl.rars, infos); rars != [] ==> rars[0].grants != []
  {
    RarFifo(inputs, 0);
    AddAllKeeps(Run(inputs).dl.rars, infos, 0);
    var rars := AddAll(Run(inputs).dl.rars, infos);
    assert rars != [] ==> WellFormedRar(rars[0]);
  }

  /** The RA-RNTI of an opportunity: one to 256, four frames sharing one (section 5.1.4 of TS 36.321). */
  lemma RaRntiExactly(tti: nat)
    requires tti < RING
    ensures RaRnti(tti) == 1 + tti / 40 && 1 <= RaRnti(tti) <= 256
  {
    var q, r := tti / 40, tti % 40;
    var x, y := r / 10, r % 10;
    assert tti == 10 * (4 * q + x) + y;
    TenOf(tti, 4 * q + x, y);
    FourOf(4 * q + x, q, x);
    assert tti / 10 / 4 == q;
  }

  lemma TenOf(a: nat, f: nat, y: nat)
    requires a == 10 * f + y && y < 10
    ensures a / 10 == f
  {
  }

  lemma FourOf(f: nat, q: nat, x: nat)
    requires f == 4 * q + x && x < 4
    ensures f / 4 == q
  {
  }

  /** In every run a response is sent under the RA-RNTI of the opportunity in which its preamble was detected. */
  lemma SentUnderRaRnti(inputs: seq<Input>, inp: Input)
    requires var out := PassOf(Run(inputs), inp); out.rar.Some? && out.rar.value.grant.nprachTti < RING
    ensures var rar := PassOf(Run(inputs), inp).rar.value; rar.raRnti == 1 + rar.grant.nprachTti / 40
  {
    hide Run, AddAll, RaRnti, AfterBc, UserPart, BcPart, RarCanStart;
    var rars := AddAll(Run(inputs).dl.rars, inp.rach);
    RarFifo(inputs, 0);
    AddAllKeeps(Run(inputs).dl.rars, inp.rach, 0);
    assert WellFormedRar(rars[0]);
    RaRntiExactly(rars[0].nprachTti);
  }
}
