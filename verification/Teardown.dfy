/** S1AP and RRC together: a context that S1AP gives up is gone from all tables of the stack after the
    next clock tick. */
module Teardown {
  import S = S1ap
  import L = Lifecycle

  datatype Joint = Joint(core: S.St, stack: L.Tables)

  datatype Event = Core(s1ap: S.Event) | Stack(rrc: L.Event)

  /** RRC is told about the contexts that S1AP gives up. */
  function Told(t: L.Tables, rntis: seq<nat>): L.Tables {
    if rntis == [] then t else L.Push(Told(t, rntis[..|rntis| - 1]), L.RelUserCmd(rntis[|rntis| - 1]))
  }

  ghost predicate Step(a: Joint, e: Event, b: Joint) {
    match e
    case Core(x) =>
      && S.Step(a.core, x, b.core) && a.core.released <= b.core.released
      && b.stack == Told(a.stack, b.core.released[|a.core.released|..])
    case Stack(x) => b.core == a.core && b.stack == L.Do(a.stack, x)
  }

  /** Identifiers are below the 32-bit limit, and no detection is given an RNTI in use. */
  ghost predicate Allowed(a: Joint, e: Event) {
    match e
    case Core(x) => S.ValidEvent(x)
    case Stack(x) => x.Rach? ==> a.stack.last !in a.stack.mac
  }

  ghost predicate IsRun(js: seq<Joint>, es: seq<Event>) {
    && |js| == |es| + 1 && js[0] == Joint(S.Init(), L.EmptyTables()) && |es| < S.ID_LIMIT - 2
    && forall i :: 0 <= i < |es| ==> Allowed(js[i], es[i]) && Step(js[i], es[i], js[i + 1])
  }

  lemma {:induction false} ToldAgrees(t: L.Tables, rntis: seq<nat>)
    requires L.Agree(t)
    ensures L.Agree(Told(t, rntis)) && t.queue <= Told(t, rntis).queue
    ensures |Told(t, rntis).queue| == |t.queue| + |rntis|
    ensures forall k :: 0 <= k < |rntis| ==> Told(t, rntis).queue[|t.queue| + k] == L.RelUserCmd(rntis[k])
  {
    hide L.Agree;
    if rntis != [] {
      var n := |rntis| - 1;
      ToldAgrees(t, rntis[..n]);
      L.MessageAgrees(Told(t, rntis[..n]), L.RelUserCmd(rntis[n]));
    }
  }

  lemma DoAgrees(t: L.Tables, e: L.Event)
    requires L.Agree(t) && (e.Rach? ==> t.last !in t.mac)
    ensures L.Agree(L.Do(t, e))
  {
    hide L.Agree, L.Drain;
    match e
    case Rach => L.RachAgreesExactly(t);
    case Task => L.TaskAgrees(t);
    case Message(p) => L.MessageAgrees(t, p);
    case Tick => L.DrainAgrees(t);
  }

  lemma {:induction false} RunInv(js: seq<Joint>, es: seq<Event>, i: nat)
    requires IsRun(js, es) && i <= |es|
    ensures S.Inv(js[i].core) && js[i].core.next <= i + 1 && L.Agree(js[i].stack)
  {
    hide S.Inv, S.Step, S.Effect, L.Agree, L.Do;
    if i == 0 {
      S.InitInv();
      L.EmptyAgrees();
    } else {
      RunInv(js, es, i - 1);
      assert Allowed(js[i - 1], es[i - 1]) && Step(js[i - 1], es[i - 1], js[i - 1 + 1]);
      match es[i - 1]
      case Core(x) =>
        S.StepKeepsInv(js[i - 1].core, x, js[i].core);
        NextBound(js[i - 1].core, x, js[i].core);
        ToldAgrees(js[i - 1].stack, js[i].core.released[|js[i - 1].core.released|..]);
      case Stack(x) => DoAgrees(js[i - 1].stack, x);
    }
  }

  lemma NextBound(s: S.St, e: S.Event, t: S.St)
    requires S.Inv(s) && S.Step(s, e, t) && s.next + 1 < S.ID_LIMIT
    ensures t.next <= s.next + 1
  {
    hide S.Step;
    S.StepEffect(s, e, t);
  }

  /** Event i makes S1AP give up context `k`. */
  predicate Erases(js: seq<Joint>, i: nat, k: nat) {
    i + 1 < |js| && k in js[i].core.users && k !in js[i + 1].core.users
  }

  lemma ErasedIsTold(js: seq<Joint>, es: seq<Event>, i: nat, k: nat)
    requires IsRun(js, es) && Erases(js, i, k)
    ensures L.RelUserCmd(js[i].core.users[k].rnti) in js[i + 1].stack.queue
  {
    hide S.Inv, S.Step, L.Agree, L.Do;
    RunInv(js, es, i);
    assert Step(js[i], es[i], js[i + 1]);
    var a, b := js[i], js[i + 1];
    S.StepEffect(a.core, es[i].s1ap, b.core);
    var r := a.core.users[k].rnti;
    assert b.core.released == a.core.released + [r];
    assert b.core.released[|a.core.released|..] == [r];
    ToldAgrees(a.stack, [r]);
    assert b.stack.queue[|a.stack.queue|] == L.RelUserCmd(r);
  }

  lemma {:induction false} StaysTold(js: seq<Joint>, es: seq<Event>, i: nat, j: nat, p: L.Pdu)
    requires IsRun(js, es) && i <= j <= |es| && p in js[i].stack.queue
    requires forall m :: i <= m < j ==> es[m] != Stack(L.Tick)
    ensures p in js[j].stack.queue
    decreases j
  {
    hide S.Step, L.Agree, L.AddUser;
    if i < j {
      StaysTold(js, es, i, j - 1, p);
      RunInv(js, es, j - 1);
      assert Step(js[j - 1], es[j - 1], js[j - 1 + 1]);
      var a, b := js[j - 1], js[j];
      match es[j - 1]
      case Core(_) => ToldAgrees(a.stack, b.core.released[|a.core.released|..]);
      case Stack(x) => DoKeepsQueue(a.stack, x);
      assert a.stack.queue <= b.stack.queue;
    }
  }

  lemma DoKeepsQueue(t: L.Tables, e: L.Event)
    requires !e.Tick?
    ensures t.queue <= L.Do(t, e).queue
  {
  }

  /** A context that S1AP gives up is told to RRC, and the next tick takes its RNTI out of the tables of RRC,
      RLC, PDCP and the scheduler; MAC then knows it only if its random access is still to be handled. */
  lemma ErasedIsGone(js: seq<Joint>, es: seq<Event>, i: nat, j: nat, k: nat)
    requires IsRun(js, es) && Erases(js, i, k) && i < j < |es| && es[j] == Stack(L.Tick)
    requires forall m :: i < m < j ==> es[m] != Stack(L.Tick)
    ensures var r, t := js[i].core.users[k].rnti, js[j + 1].stack;
            && r !in t.rrc && r !in t.rlc && r !in t.pdcp && r !in t.sched
            && (r in t.mac <==> r in t.tasks)
  {
    hide S.Step, L.Drain, L.Released;
    var r := js[i].core.users[k].rnti;
    ErasedIsTold(js, es, i, k);
    StaysTold(js, es, i + 1, j, L.RelUserCmd(r));
    RunInv(js, es, j + 1);
    assert Step(js[j], es[j], js[j + 1]);
    L.DrainReleasesExactly(js[j].stack);
    InReleased(js[j].stack.queue, r);
  }

  lemma InReleased(q: seq<L.Pdu>, r: nat)
    requires L.RelUserCmd(r) in q
    ensures r in L.Released(q)
  {
  }
}
