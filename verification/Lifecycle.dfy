/** The life of a user context: the tables of MAC, scheduler, RLC, PDCP and RRC, the random access tasks
    that fill them one after the other, and the RRC queue that empties them. */
module Lifecycle {
  import opened Search

  const FIRST_RNTI: nat := 4097
  const RNTI_LIMIT: nat := 60000
  const NOF_RNTI: nat := RNTI_LIMIT - FIRST_RNTI

  /** The RNTI of multicast, which has no RRC context. */
  const MRNTI: nat := 0xFFFD

  datatype State = Idle | WaitForConSetupComplete | WaitForConReconfComplete

  /** An entry of the RRC queue. Uplink messages say what they turn out to be. */
  datatype Pdu =
    | Ccch(rnti: nat, isConnRequest: bool)
    | Dcch(rnti: nat, isSetupComplete: bool)
    | RemUserCmd(rnti: nat)
    | RelUserCmd(rnti: nat)
    | BadBearer(rnti: nat)

  /** What RRC does for a user that is still connected when it is released. */
  datatype Farewell = ClearBuffer(rnti: nat) | ConnectionRelease(rnti: nat)

  /** The tables as values; `tasks` are the detections the stack has not got round to, `sent` what RRC has told
      RLC and the users on release. */
  datatype Tables = Tables(last: nat, mac: set<nat>, tasks: seq<nat>, sched: set<nat>, rlc: set<nat>, pdcp: set<nat>,
                           rrc: map<nat, State>, queue: seq<Pdu>, sent: seq<Farewell>)

  function EmptyTables(): Tables {
    Tables(FIRST_RNTI, {}, [], {}, {}, {}, map[], [], [])
  }

  // ---------------------------------------------------------------- the operations

  function NextRnti(last: nat): nat {
    if last + 1 >= RNTI_LIMIT then FIRST_RNTI else last + 1
  }

  function RachDetected(t: Tables): Tables {
    t.(last := NextRnti(t.last), mac := t.mac + {t.last}, tasks := t.tasks + [t.last])
  }

  function AddUser(t: Tables, rnti: nat): Tables {
    if rnti in t.rrc then t
    else t.(rrc := if rnti != MRNTI then t.rrc[rnti := Idle] else t.rrc, rlc := t.rlc + {rnti}, pdcp := t.pdcp + {rnti})
  }

  /** The next random access task registers its user with the scheduler and RRC. */
  function RunTask(t: Tables): Tables {
    if t.tasks == [] then t
    else AddUser(t.(tasks := t.tasks[1..], sched := t.sched + {t.tasks[0]}), t.tasks[0])
  }

  function UeRem(t: Tables, rnti: nat): Tables {
    if rnti in t.mac then t.(mac := t.mac - {rnti}, sched := t.sched - {rnti}) else t
  }

  /** Configures the scheduler for a user that MAC knows. */
  function MacCfg(t: Tables, rnti: nat): Tables {
    if rnti in t.mac then t.(sched := t.sched + {rnti}) else t
  }

  function RemoveUser(t: Tables, rnti: nat): Tables {
    if rnti in t.rrc then
      var u := UeRem(t, rnti);
      u.(rlc := u.rlc - {rnti}, pdcp := u.pdcp - {rnti}, rrc := u.rrc - {rnti})
    else t
  }

  function Push(t: Tables, p: Pdu): Tables {
    t.(queue := t.queue + [p])
  }

  /** A release: a user that is not idle is told so, with RLC's buffer cleared first; the removal follows later. */
  function Release(t: Tables, rnti: nat): Tables
    requires rnti in t.rrc
  {
    var u := if t.rrc[rnti].Idle? then t else t.(sent := t.sent + [ClearBuffer(rnti), ConnectionRelease(rnti)]);
    Push(u, RemUserCmd(rnti))
  }

  /** Takes the oldest entry off the queue and acts on it. */
  function Handle(t0: Tables): Tables
    requires t0.queue != []
  {
    var p, t := t0.queue[0], t0.(queue := t0.queue[1..]);
    if p.rnti !in t.rrc then t
    else
      match p
      case Ccch(rnti, ok) =>
        if ok then var u := MacCfg(t, rnti); u.(rrc := u.rrc[rnti := WaitForConSetupComplete]) else t
      case Dcch(rnti, ok) => if ok then t.(rrc := t.rrc[rnti := WaitForConReconfComplete]) else t
      case RemUserCmd(rnti) => RemoveUser(t, rnti)
      case RelUserCmd(rnti) => Release(t, rnti)
      case BadBearer(_) => t
  }

  /** Bounds the work that a queue causes: a release leads to one removal. */
  function Weight(queue: seq<Pdu>): nat {
    if queue == [] then 0 else (if queue[0].RelUserCmd? then 2 else 1) + Weight(queue[1..])
  }

  lemma {:induction false} WeightAppend(q: seq<Pdu>, p: Pdu)
    ensures Weight(q + [p]) == Weight(q) + if p.RelUserCmd? then 2 else 1
  {
    if q == [] {
      assert q + [p] == [p];
      assert Weight([p]) == (if p.RelUserCmd? then 2 else 1) + Weight([]);
    } else {
      assert (q + [p])[1..] == q[1..] + [p];
      WeightAppend(q[1..], p);
    }
  }

  /** Although handling may add to the queue, it always comes closer to its end. */
  lemma HandleShrinks(t: Tables)
    requires t.queue != []
    ensures Weight(Handle(t).queue) < Weight(t.queue)
  {
    WeightAppend(t.queue[1..], RemUserCmd(t.queue[0].rnti));
  }

  /** One clock tick of RRC: handles entries until the queue is empty. */
  function Drain(t: Tables): Tables
    decreases Weight(t.queue)
  {
    if t.queue == [] then t else HandleShrinks(t); Drain(Handle(t))
  }

  // ---------------------------------------------------------------- agreement

  /** RRC, RLC, PDCP and the scheduler know the same users; MAC knows these and the ones whose random
      access is still queued, each once. */
  ghost predicate Agree(t: Tables) {
    && t.rrc.Keys == t.rlc == t.pdcp == t.sched
    && t.rrc.Keys <= t.mac
    && (forall r :: r in t.mac && r !in t.rrc <==> r in t.tasks)
    && Distinct(t.tasks)
    && FIRST_RNTI <= t.last < RNTI_LIMIT && (forall r :: r in t.mac ==> r < RNTI_LIMIT)
  }

  /** A detection keeps the tables in agreement exactly when its RNTI is not in use. */
  lemma RachAgreesExactly(t: Tables)
    requires Agree(t)
    ensures Agree(RachDetected(t)) <==> t.last !in t.mac
  {
    var u := RachDetected(t);
    assert u.tasks[|t.tasks|] == t.last;
    if t.last in t.mac && t.last in t.tasks {
      var k :| 0 <= k < |t.tasks| && t.tasks[k] == t.last;
      assert u.tasks[k] == u.tasks[|t.tasks|];
    }
    if t.last !in t.mac {
      forall r ensures r in u.tasks <==> r in t.tasks || r == t.last {}
    }
  }

  lemma TaskAgrees(t: Tables)
    requires Agree(t)
    ensures Agree(RunTask(t))
  {
    if t.tasks != [] {
      var r, u := t.tasks[0], RunTask(t);
      assert t.tasks == [r] + t.tasks[1..];
      assert r in t.tasks && r !in t.rrc && r in t.mac;
      forall x ensures x in u.tasks <==> x in t.tasks && x != r {
        if x in u.tasks { var k :| 0 <= k < |u.tasks| && u.tasks[k] == x; assert t.tasks[k + 1] == x; }
      }
      assert u.rrc.Keys == t.rrc.Keys + {r};
    }
  }

  lemma HandleAgrees(t: Tables)
    requires Agree(t) && t.queue != []
    ensures Agree(Handle(t))
  {
    var r, u := t.queue[0].rnti, Handle(t);
    if r in t.rrc {
      assert r in t.mac && r !in t.tasks;
      if t.queue[0].RemUserCmd? { assert u.rrc.Keys == t.rrc.Keys - {r}; } else { assert u.rrc.Keys == t.rrc.Keys; }
    }
  }

  lemma {:induction false} DrainAgrees(t: Tables)
    requires Agree(t)
    ensures Agree(Drain(t)) && Drain(t).tasks == t.tasks && Drain(t).last == t.last
    decreases Weight(t.queue)
  {
    hide Agree;
    if t.queue != [] {
      HandleShrinks(t);
      HandleAgrees(t);
      DrainAgrees(Handle(t));
    }
  }

  // ---------------------------------------------------------------- what a tick removes

  /** The users that a queue releases or removes. */
  function Released(queue: seq<Pdu>): set<nat> {
    set k | 0 <= k < |queue| && (queue[k].RelUserCmd? || queue[k].RemUserCmd?) :: queue[k].rnti
  }

  lemma ReleasedFirst(q: seq<Pdu>)
    requires q != []
    ensures Released(q) == Released(q[1..]) + if q[0].RelUserCmd? || q[0].RemUserCmd? then {q[0].rnti} else {}
  {
    forall r | r in Released(q) ensures r in Released(q[1..]) || ((q[0].RelUserCmd? || q[0].RemUserCmd?) && r == q[0].rnti) {
      var k :| 0 <= k < |q| && (q[k].RelUserCmd? || q[k].RemUserCmd?) && q[k].rnti == r;
      if k > 0 { assert q[1..][k - 1] == q[k]; }
    }
    forall r | r in Released(q[1..]) ensures r in Released(q) {
      var k :| 0 <= k < |q| - 1 && (q[1..][k].RelUserCmd? || q[1..][k].RemUserCmd?) && q[1..][k].rnti == r;
      assert q[k + 1] == q[1..][k];
    }
  }

  lemma ReleasedPush(q: seq<Pdu>, p: Pdu)
    ensures Released(q + [p]) == Released(q) + if p.RelUserCmd? || p.RemUserCmd? then {p.rnti} else {}
  {
    forall r | r in Released(q) ensures r in Released(q + [p]) {
      var k :| 0 <= k < |q| && (q[k].RelUserCmd? || q[k].RemUserCmd?) && q[k].rnti == r;
      assert (q + [p])[k] == q[k];
    }
    assert (q + [p])[|q|] == p;
  }

  /** What one entry does to the users and to what is still to be released. */
  lemma HandleReleases(t: Tables)
    requires t.queue != []
    ensures var u := Handle(t);
            && u.rrc.Keys - Released(u.queue) == t.rrc.Keys - Released(t.queue)
            && u.rrc.Keys <= t.rrc.Keys && Released(u.queue) <= Released(t.queue)
  {
    ReleasedFirst(t.queue);
    ReleasedPush(t.queue[1..], RemUserCmd(t.queue[0].rnti));
  }

  /** A tick empties the queue and removes exactly the users that the queue released; with the tables in
      agreement, from all of them. */
  lemma {:induction false} DrainReleasesExactly(t: Tables)
    ensures Drain(t).queue == [] && Drain(t).rrc.Keys == t.rrc.Keys - Released(t.queue)
    decreases Weight(t.queue)
  {
    hide Handle, Released;
    if t.queue != [] {
      HandleShrinks(t);
      HandleReleases(t);
      DrainReleasesExactly(Handle(t));
    } else {
      NothingReleased();
    }
  }

  lemma NothingReleased()
    ensures Released([]) == {}
  {
  }

  /** A released user is in no table after the tick, and all other users stay in all of theirs. */
  lemma ReleaseChain(t: Tables, rnti: nat)
    requires Agree(t) && rnti in t.rrc
    ensures var u := Drain(t);
            if rnti in Released(t.queue) then
              rnti !in u.rrc && rnti !in u.rlc && rnti !in u.pdcp && rnti !in u.sched && rnti !in u.mac
            else rnti in u.rrc && rnti in u.rlc && rnti in u.pdcp && rnti in u.sched && rnti in u.mac
  {
    hide Drain, Released;
    DrainAgrees(t);
    DrainReleasesExactly(t);
    assert rnti !in t.tasks;
  }

  /** Entry `k` of the queue releases the user before any entry removes it. */
  predicate ReleasedAt(queue: seq<Pdu>, k: nat, rnti: nat) {
    k < |queue| && queue[k] == RelUserCmd(rnti) && forall j :: 0 <= j < k ==> queue[j] != RemUserCmd(rnti)
  }

  lemma {:induction false} SentGrows(t: Tables)
    ensures t.sent <= Drain(t).sent
    decreases Weight(t.queue)
  {
    if t.queue != [] {
      HandleShrinks(t);
      SentGrows(Handle(t));
    }
  }

  /** A user that is connected when it is released is told so by the tick that removes it. */
  lemma {:induction false} ConnectedIsTold(t: Tables, k: nat, rnti: nat)
    requires rnti in t.rrc && !t.rrc[rnti].Idle? && ReleasedAt(t.queue, k, rnti)
    ensures ConnectionRelease(rnti) in Drain(t).sent
    decreases Weight(t.queue)
  {
    hide Handle;
    HandleShrinks(t);
    if k == 0 {
      ToldFirst(t, rnti);
      SentGrows(Handle(t));
    } else {
      OthersFirst(t, k, rnti);
      ConnectedIsTold(Handle(t), k - 1, rnti);
    }
  }

  lemma ToldFirst(t: Tables, rnti: nat)
    requires rnti in t.rrc && !t.rrc[rnti].Idle? && ReleasedAt(t.queue, 0, rnti)
    ensures ConnectionRelease(rnti) in Handle(t).sent
  {
    assert Handle(t).sent[|t.sent| + 1] == ConnectionRelease(rnti);
  }

  lemma OthersFirst(t: Tables, k: nat, rnti: nat)
    requires rnti in t.rrc && !t.rrc[rnti].Idle? && k > 0 && ReleasedAt(t.queue, k, rnti)
    ensures var u := Handle(t); rnti in u.rrc && !u.rrc[rnti].Idle? && ReleasedAt(u.queue, k - 1, rnti)
  {
    var u := Handle(t);
    assert t.queue[0] != RemUserCmd(rnti);
    assert forall j :: 0 <= j < |t.queue| - 1 ==> u.queue[j] == t.queue[j + 1];
  }

  /** A user joins idle, and is known to all when its task has run. */
  lemma JoinsIdle(t: Tables)
    requires t.tasks != [] && t.tasks[0] !in t.rrc && t.tasks[0] != MRNTI
    ensures var u, r := RunTask(t), t.tasks[0];
            r in u.rrc && u.rrc[r] == Idle && r in u.rlc && r in u.pdcp && r in u.sched && u.tasks == t.tasks[1..]
  {
  }

  /** The multicast RNTI joins RLC and PDCP without a context in RRC. */
  lemma MulticastJoins(t: Tables)
    requires 0xFFFD !in t.rrc
    ensures var u := AddUser(t, 0xFFFD); u == t.(rlc := t.rlc + {0xFFFD}, pdcp := t.pdcp + {0xFFFD})
  {
  }

  /** A connection request registers its user with the scheduler exactly when MAC knows it. */
  lemma RequestConfigures(t: Tables, rnti: nat)
    requires t.queue != [] && t.queue[0] == Ccch(rnti, true) && rnti in t.rrc
    ensures var u := Handle(t); u.sched == t.sched + (if rnti in t.mac then {rnti} else {}) && u.mac == t.mac
  {
  }

  /** The state of a user after an entry: a connection request makes it wait for the set-up to complete, a completed
      set-up for the reconfiguration, and everything else leaves it as it was. */
  lemma StateExactly(t: Tables, rnti: nat)
    requires t.queue != [] && rnti in t.rrc && t.queue[0] != RemUserCmd(rnti)
    ensures var p, u := t.queue[0], Handle(t);
            rnti in u.rrc && u.rrc[rnti] == if p.rnti == rnti && p.Ccch? && p.isConnRequest then WaitForConSetupComplete
                                            else if p.rnti == rnti && p.Dcch? && p.isSetupComplete then WaitForConReconfComplete
                                            else t.rrc[rnti]
  {
  }

  /** How often the user has been sent a release message. */
  function ToldTimes(sent: seq<Farewell>, rnti: nat): nat {
    multiset(sent)[ConnectionRelease(rnti)]
  }

  /** A message that makes an idle user a connected one. */
  predicate Wakes(p: Pdu, rnti: nat) {
    p.rnti == rnti && ((p.Ccch? && p.isConnRequest) || (p.Dcch? && p.isSetupComplete))
  }

  /** No entry from `from` on releases the user. */
  predicate NoneReleases(queue: seq<Pdu>, from: nat, rnti: nat) {
    forall j :: from <= j < |queue| ==> queue[j] != RelUserCmd(rnti)
  }

  /** What an entry that does not release the user does to it and to the rest of the queue. */
  lemma OtherEntry(t: Tables, rnti: nat)
    requires t.queue != [] && t.queue[0] != RelUserCmd(rnti)
    ensures var u := Handle(t);
            && ToldTimes(u.sent, rnti) == ToldTimes(t.sent, rnti)
            && |t.queue| - 1 <= |u.queue| <= |t.queue|
            && (forall j :: 0 <= j < |t.queue| - 1 ==> u.queue[j] == t.queue[j + 1])
            && (|u.queue| == |t.queue| ==> u.queue[|t.queue| - 1].RemUserCmd?)
    ensures rnti in t.rrc && t.queue[0] != RemUserCmd(rnti)
            ==> rnti in Handle(t).rrc && (Handle(t).rrc[rnti].Idle? <==> t.rrc[rnti].Idle? && !Wakes(t.queue[0], rnti))
  {
  }

  lemma {:induction false} NoMoreTold(t: Tables, rnti: nat)
    requires NoneReleases(t.queue, 0, rnti)
    ensures ToldTimes(Drain(t).sent, rnti) == ToldTimes(t.sent, rnti)
    decreases Weight(t.queue)
  {
    hide Handle, Wakes, ToldTimes;
    if t.queue != [] {
      HandleShrinks(t);
      OtherEntry(t, rnti);
      NoMoreTold(Handle(t), rnti);
    }
  }

  lemma ReleasedNow(t: Tables, rnti: nat)
    requires rnti in t.rrc && t.queue != [] && t.queue[0] == RelUserCmd(rnti) && NoneReleases(t.queue, 1, rnti)
    ensures var u := Handle(t);
            && ToldTimes(u.sent, rnti) == ToldTimes(t.sent, rnti) + (if t.rrc[rnti].Idle? then 0 else 1)
            && NoneReleases(u.queue, 0, rnti)
  {
  }

  /** A user that one entry of the queue releases is sent a release message by the tick, once, unless it is idle then:
      idle before the tick, and not woken by an earlier entry. */
  lemma {:induction false} ToldExactly(t: Tables, k: nat, rnti: nat)
    requires rnti in t.rrc && ReleasedAt(t.queue, k, rnti)
    requires NoneReleases(t.queue, k + 1, rnti) && NoneReleases(t.queue[..k], 0, rnti)
    ensures ToldTimes(Drain(t).sent, rnti) == ToldTimes(t.sent, rnti)
              + if t.rrc[rnti].Idle? && forall j :: 0 <= j < k ==> !Wakes(t.queue[j], rnti) then 0 else 1
    decreases Weight(t.queue)
  {
    hide Handle, Wakes, ToldTimes;
    HandleShrinks(t);
    var u := Handle(t);
    if k == 0 {
      ReleasedNow(t, rnti);
      NoMoreTold(u, rnti);
    } else {
      assert t.queue[..k][0] == t.queue[0];
      OtherEntry(t, rnti);
      assert u.queue[..k - 1] == t.queue[1..k] && t.queue[..k][1..] == t.queue[1..k];
      ToldExactly(u, k - 1, rnti);
      WakesBehind(t.queue, u.queue, k, rnti);
    }
  }

  lemma WakesBehind(q: seq<Pdu>, r: seq<Pdu>, k: nat, rnti: nat)
    requires 0 < k < |q| && k - 1 < |r| && forall j :: 0 <= j < k - 1 ==> r[j] == q[j + 1]
    ensures (forall j :: 0 <= j < k ==> !Wakes(q[j], rnti))
            <==> !Wakes(q[0], rnti) && forall j :: 0 <= j < k - 1 ==> !Wakes(r[j], rnti)
  {
    hide Wakes;
    if forall j :: 0 <= j < k - 1 ==> !Wakes(r[j], rnti) {
      forall j | 1 <= j < k ensures !Wakes(q[j], rnti) { assert q[j] == r[j - 1]; }
    }
  }

  /** What is sent comes in pairs: the user's buffer is cleared right before its release message. */
  predicate InPairs(sent: seq<Farewell>) {
    && |sent| % 2 == 0
    && forall i :: 0 <= i < |sent| && i % 2 == 0 ==> sent[i].ClearBuffer? && sent[i + 1] == ConnectionRelease(sent[i].rnti)
  }

  lemma HandlePairs(t: Tables)
    requires t.queue != [] && InPairs(t.sent)
    ensures InPairs(Handle(t).sent)
  {
  }

  lemma {:induction false} DrainPairs(t: Tables)
    requires InPairs(t.sent)
    ensures InPairs(Drain(t).sent)
    decreases Weight(t.queue)
  {
    hide Handle, InPairs;
    if t.queue != [] {
      HandleShrinks(t);
      HandlePairs(t);
      DrainPairs(Handle(t));
    }
  }

  // ---------------------------------------------------------------- RNTIs

  /** The RNTI of the k-th detection. */
  function RntiOf(k: nat): nat {
    FIRST_RNTI + k % NOF_RNTI
  }

  lemma NextRntiIs(k: nat)
    ensures NextRnti(RntiOf(k)) == RntiOf(k + 1)
  {
  }

  /** Two detections get the same RNTI exactly when a multiple of 55903 lies between them. */
  lemma ReissueDistance(j: nat, k: nat)
    requires j <= k
    ensures RntiOf(j) == RntiOf(k) <==> (k - j) % NOF_RNTI == 0
  {
    var p, q := j / NOF_RNTI, k / NOF_RNTI;
    assert j == NOF_RNTI * p + j % NOF_RNTI && k == NOF_RNTI * q + k % NOF_RNTI;
    if RntiOf(j) == RntiOf(k) {
      assert k - j == NOF_RNTI * (q - p);
    }
  }

  // ---------------------------------------------------------------- whole runs

  datatype Event = Rach | Task | Message(pdu: Pdu) | Tick

  function Do(t: Tables, e: Event): Tables {
    match e
    case Rach => RachDetected(t)
    case Task => RunTask(t)
    case Message(p) => Push(t, p)
    case Tick => Drain(t)
  }

  function Run(es: seq<Event>): Tables {
    if es == [] then EmptyTables() else Do(Run(es[..|es| - 1]), es[|es| - 1])
  }

  /** No detection of the run is given an RNTI that MAC still knows. */
  predicate NoReuse(es: seq<Event>) {
    es == [] || (var n := |es| - 1; NoReuse(es[..n]) && (es[n].Rach? ==> Run(es[..n]).last !in Run(es[..n]).mac))
  }

  function Rachs(es: seq<Event>): nat {
    if es == [] then 0 else Rachs(es[..|es| - 1]) + if es[|es| - 1].Rach? then 1 else 0
  }

  lemma MessageAgrees(t: Tables, p: Pdu)
    requires Agree(t)
    ensures Agree(Push(t, p))
  {
  }

  /** In every run without reuse the tables agree after each event. */
  lemma {:induction false} RunAgrees(es: seq<Event>)
    requires NoReuse(es)
    ensures Agree(Run(es))
  {
    hide Agree;
    if es == [] {
      EmptyAgrees();
    } else {
      var n := |es| - 1;
      var t := Run(es[..n]);
      RunAgrees(es[..n]);
      match es[n]
      case Rach => RachAgreesExactly(t);
      case Task => TaskAgrees(t);
      case Message(p) => MessageAgrees(t, p);
      case Tick => DrainAgrees(t);
    }
  }

  /** So it is after every event of every run. */
  lemma {:induction false} RunPairs(es: seq<Event>)
    ensures InPairs(Run(es).sent)
  {
    hide InPairs;
    if es == [] {
      NothingSent();
    } else {
      RunPairs(es[..|es| - 1]);
      if es[|es| - 1].Tick? { DrainPairs(Run(es[..|es| - 1])); }
    }
  }

  lemma NothingSent()
    ensures InPairs([])
  {
  }

  lemma EmptyAgrees()
    ensures Agree(EmptyTables())
  {
  }

  /** And only there: the first reuse breaks the agreement. */
  lemma ReuseDisagrees(es: seq<Event>)
    requires NoReuse(es) && Run(es).last in Run(es).mac
    ensures !Agree(Run(es + [Rach]))
  {
    RunAgrees(es);
    assert (es + [Rach])[..|es|] == es;
    RachAgreesExactly(Run(es));
  }

  lemma {:induction false} DrainKeepsLast(t: Tables)
    ensures Drain(t).last == t.last
    decreases Weight(t.queue)
  {
    if t.queue != [] {
      HandleShrinks(t);
      DrainKeepsLast(Handle(t));
    }
  }

  /** The next detection of a run gets the RNTI of its number. */
  lemma {:induction false} RunRnti(es: seq<Event>)
    ensures Run(es).last == RntiOf(Rachs(es))
  {
    hide Drain, RntiOf;
    if es == [] {
      FirstRnti();
    } else {
      RunRnti(es[..|es| - 1]);
      NextRntiIs(Rachs(es[..|es| - 1]));
      if es[|es| - 1].Tick? { DrainKeepsLast(Run(es[..|es| - 1])); }
    }
  }

  lemma FirstRnti()
    ensures RntiOf(0) == FIRST_RNTI
  {
  }

  // ---------------------------------------------------------------- a run with reuse

  /** `n` detections and nothing else. */
  function Detections(n: nat): (r: seq<Event>)
    ensures |r| == n
  {
    seq(n, _ => Rach)
  }

  lemma {:induction false} DetectionsRun(n: nat)
    requires n <= NOF_RNTI
    ensures NoReuse(Detections(n)) && Run(Detections(n)).last == RntiOf(n)
    ensures forall r :: r in Run(Detections(n)).mac <==> FIRST_RNTI <= r < FIRST_RNTI + n
  {
    hide RntiOf, NextRnti;
    if n == 0 {
      FirstRnti();
    } else {
      DetectionsRun(n - 1);
      assert Detections(n)[..n - 1] == Detections(n - 1);
      RntiInTurn(n - 1);
      NextRntiIs(n - 1);
    }
  }

  lemma RntiInTurn(n: nat)
    requires n < NOF_RNTI
    ensures RntiOf(n) == FIRST_RNTI + n
  {
  }

  /** After 55903 detections whose users all stay, the next one is given an RNTI in use, and the tables no
      longer agree. */
  lemma ReuseReached()
    ensures NoReuse(Detections(NOF_RNTI)) && !Agree(Run(Detections(NOF_RNTI) + [Rach]))
  {
    hide Run, NoReuse, Agree, RntiOf;
    DetectionsRun(NOF_RNTI);
    ReissueDistance(0, NOF_RNTI);
    FirstRnti();
    ReuseDisagrees(Detections(NOF_RNTI));
  }
}
