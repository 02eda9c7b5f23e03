/** The S1AP contexts: which UE an eNB identifier stands for, and when RRC is told to release one. */
module S1ap {
  import opened Options

  const INVALID_RNTI: nat := 0
  const ID_LIMIT: nat := 0x1_0000_0000

  datatype Ctxt = Ctxt(mmePresent: bool, rnti: nat, enbId: nat, mmeId: nat, releaseRequested: bool)

  /** A downlink NAS message handed to RRC, or an uplink one sent to the MME. */
  datatype DlInfo = DlInfo(rnti: nat, pdu: nat)
  datatype UlInfo = UlInfo(enbId: nat, mmeId: nat, pdu: nat)

  /** The contexts by eNB identifier, and what has been handed to RRC and MME so far. */
  datatype St = St(users: map<nat, Ctxt>, next: nat, connected: bool, released: seq<nat>, dl: seq<DlInfo>, ul: seq<UlInfo>)

  function Init(): St {
    St(map[], 1, false, [], [], [])
  }

  predicate WithRnti(users: map<nat, Ctxt>, k: nat, rnti: nat) {
    rnti != INVALID_RNTI && k in users && users[k].rnti == rnti
  }

  predicate WithMme(users: map<nat, Ctxt>, k: nat, mmeId: nat) {
    k in users && users[k].mmePresent && users[k].mmeId == mmeId
  }

  ghost predicate HasRnti(users: map<nat, Ctxt>, rnti: nat) {
    exists k :: WithRnti(users, k, rnti)
  }

  ghost predicate HasMme(users: map<nat, Ctxt>, mmeId: nat) {
    exists k :: WithMme(users, k, mmeId)
  }

  function NewCtxt(s: St, rnti: nat): Ctxt {
    Ctxt(false, rnti, s.next, 0, false)
  }

  function BumpId(s: St): St {
    s.(next := (s.next + 1) % ID_LIMIT)
  }

  /** A new context takes an identifier whether or not it can be stored. It is refused when its RNTI or
      identifier is in use, or when some context has the MME identifier 0, the value a new one starts with. */
  ghost function Admit(s: St, rnti: nat): St {
    if HasRnti(s.users, rnti) || s.next in s.users || HasMme(s.users, 0) then BumpId(s)
    else BumpId(s.(users := s.users[s.next := NewCtxt(s, rnti)]))
  }

  function Erase(s: St, k: nat): St
    requires k in s.users
  {
    s.(users := s.users - {s.users[k].enbId}, released := s.released + [s.users[k].rnti])
  }

  function RequestRelease(s: St, k: nat): St
    requires k in s.users
  {
    if s.connected && s.users[k].mmePresent then s.(users := s.users[k := s.users[k].(releaseRequested := true)]) else s
  }

  /** RRC reports a user as inactive. A context whose release was requested before is given up. */
  function Inactive(s: St, k: nat): St
    requires k in s.users
  {
    if s.users[k].releaseRequested then Erase(s, k) else RequestRelease(s, k)
  }

  /** A message of the MME for context `enbId` settles its MME identifier. */
  function Touch(s: St, enbId: nat, mmeId: nat): St
    requires enbId in s.users
  {
    s.(users := s.users[enbId := s.users[enbId].(mmePresent := true, mmeId := mmeId)])
  }

  datatype Event =
    | InitialUe(rnti: nat, tmsi: bool)
    | UserRelease(rnti: nat)
    | UlNas(rnti: nat, pdu: nat)
    | DlNas(enbId: nat, mmeId: nat, pdu: nat, bufferOk: bool)
    | CtxtSetup(enbId: nat, mmeId: nat, csFallback: bool)
    | ReleasePair(enbId: nat, mmeId: nat)
    | ReleaseMme(mmeId: nat)
    | Connection(up: bool)

  /** What an event may do. Searches by RNTI or MME identifier return any context that fits. */
  ghost predicate Step(s: St, e: Event, t: St) {
    match e
    case InitialUe(rnti, tmsi) => t == Admit(s, rnti)
    case UserRelease(rnti) =>
      if HasRnti(s.users, rnti) then exists k :: WithRnti(s.users, k, rnti) && t == Inactive(s, k) else t == s
    case UlNas(rnti, pdu) =>
      if HasRnti(s.users, rnti) && s.connected then
        exists k :: WithRnti(s.users, k, rnti) && t == s.(ul := s.ul + [UlInfo(s.users[k].enbId, s.users[k].mmeId, pdu)])
      else t == s
    case DlNas(enbId, mmeId, pdu, ok) =>
      if enbId in s.users then
        var u := Touch(s, enbId, mmeId);
        t == if ok then u.(dl := u.dl + [DlInfo(u.users[enbId].rnti, pdu)]) else u
      else t == s
    case CtxtSetup(enbId, mmeId, fallback) =>
      if enbId in s.users then
        var u := Touch(s, enbId, mmeId);
        t == if fallback then RequestRelease(u, enbId) else u
      else t == s
    case ReleasePair(enbId, mmeId) => if enbId in s.users then t == Erase(Touch(s, enbId, mmeId), enbId) else t == s
    case ReleaseMme(mmeId) =>
      if HasMme(s.users, mmeId) then exists k :: WithMme(s.users, k, mmeId) && t == Erase(s, k) else t == s
    case Connection(up) => t == s.(connected := up)
  }

  // ---------------------------------------------------------------- what every step keeps

  /** Contexts are filed under their own identifier, below the next one, with valid and distinct RNTIs. */
  ghost predicate Inv(s: St) {
    && (forall k :: k in s.users ==> s.users[k].enbId == k && 1 <= k < s.next && s.users[k].rnti != INVALID_RNTI)
    && (forall j, k :: j in s.users && k in s.users && j != k ==> s.users[j].rnti != s.users[k].rnti)
    && 1 <= s.next
  }

  predicate ValidEvent(e: Event) {
    e.InitialUe? ==> e.rnti != INVALID_RNTI
  }

  lemma AdmitKeepsInv(s: St, rnti: nat)
    requires Inv(s) && rnti != INVALID_RNTI && s.next + 1 < ID_LIMIT
    ensures Inv(Admit(s, rnti))
  {
    forall k | k in s.users ensures !HasRnti(s.users, rnti) ==> s.users[k].rnti != rnti {
      if s.users[k].rnti == rnti { assert WithRnti(s.users, k, rnti); }
    }
  }

  /** The contexts are the same up to what the MME has told about them. */
  ghost predicate SameContexts(s: St, t: St) {
    && t.users.Keys == s.users.Keys && t.next == s.next && t.released == s.released
    && forall k :: k in s.users ==> t.users[k].rnti == s.users[k].rnti && t.users[k].enbId == s.users[k].enbId
  }

  /** Apart from new contexts, an event removes at most one context. */
  lemma StepShape(s: St, e: Event, t: St)
    requires Step(s, e, t) && !e.InitialUe?
    ensures SameContexts(s, t) || exists u, k :: SameContexts(s, u) && k in u.users && t == Erase(u, k)
  {
    match e
    case UserRelease(rnti) =>
      if HasRnti(s.users, rnti) {
        var k :| WithRnti(s.users, k, rnti) && t == Inactive(s, k);
        if s.users[k].releaseRequested { assert SameContexts(s, s) && k in s.users && t == Erase(s, k); }
      }
    case ReleasePair(enbId, mmeId) =>
      if enbId in s.users {
        var u := Touch(s, enbId, mmeId);
        assert SameContexts(s, u) && enbId in u.users && t == Erase(u, enbId);
      }
    case ReleaseMme(mmeId) =>
      if HasMme(s.users, mmeId) {
        var k :| WithMme(s.users, k, mmeId) && t == Erase(s, k);
        assert SameContexts(s, s) && k in s.users && t == Erase(s, k);
      }
    case _ =>
  }

  lemma StepKeepsInv(s: St, e: Event, t: St)
    requires Inv(s) && ValidEvent(e) && Step(s, e, t) && s.next + 1 < ID_LIMIT
    ensures Inv(t)
  {
    if e.InitialUe? {
      AdmitKeepsInv(s, e.rnti);
    } else {
      StepShape(s, e, t);
      hide Step;
    }
  }

  /** Old identifiers keep their UE or go away for good, and RRC is told about a release exactly when a
      context goes away. */
  ghost predicate Effect(s: St, t: St) {
    && s.next <= t.next <= s.next + 1
    && (forall k :: k in t.users && k < s.next ==> k in s.users && t.users[k].rnti == s.users[k].rnti)
    && (if forall k :: k in s.users ==> k in t.users then t.released == s.released
        else exists k :: k in s.users && t.users.Keys == s.users.Keys - {k} && t.released == s.released + [s.users[k].rnti])
  }

  lemma EraseEffect(s: St, u: St, k: nat)
    requires Inv(s) && k in s.users && u.next == s.next && u.released == s.released && u.users.Keys == s.users.Keys
    requires forall j :: j in s.users ==> u.users[j].rnti == s.users[j].rnti && u.users[j].enbId == j
    ensures Effect(s, Erase(u, k))
  {
    assert k !in Erase(u, k).users;
    assert Erase(u, k).users.Keys == s.users.Keys - {k};
  }

  lemma StepEffect(s: St, e: Event, t: St)
    requires Inv(s) && Step(s, e, t) && s.next + 1 < ID_LIMIT
    ensures Effect(s, t)
  {
    if !e.InitialUe? {
      StepShape(s, e, t);
      hide Step;
      if !SameContexts(s, t) {
        var u, k :| SameContexts(s, u) && k in u.users && t == Erase(u, k);
        EraseEffect(s, u, k);
      }
    }
  }

  /** The RNTI 0 is not found by searches, so it can be stored twice. */
  lemma InvalidRntiTwice()
    ensures var t := Admit(Admit(Init(), INVALID_RNTI), INVALID_RNTI);
            1 in t.users && 2 in t.users && t.users[1].rnti == t.users[2].rnti
  {
  }

  // ---------------------------------------------------------------- whole runs

  /** States before and after each event of a run. */
  ghost predicate IsRun(ss: seq<St>, es: seq<Event>) {
    && |ss| == |es| + 1 && ss[0] == Init() && |es| < ID_LIMIT - 2
    && forall i :: 0 <= i < |es| ==> ValidEvent(es[i]) && Step(ss[i], es[i], ss[i + 1])
  }

  lemma {:induction false} RunInv(ss: seq<St>, es: seq<Event>, i: nat)
    requires IsRun(ss, es) && i <= |es|
    ensures Inv(ss[i]) && ss[i].next <= i + 1
  {
    hide Inv, Step;
    if i > 0 {
      RunInv(ss, es, i - 1);
      assert ValidEvent(es[i - 1]) && Step(ss[i - 1], es[i - 1], ss[i - 1 + 1]);
      StepKeepsInv(ss[i - 1], es[i - 1], ss[i]);
      StepEffect(ss[i - 1], es[i - 1], ss[i]);
    } else {
      InitInv();
    }
  }

  lemma InitInv()
    ensures Inv(Init())
  {
  }

  /** An identifier stays bound to one UE for the whole run and is never used again after its context has
      gone: whatever is stored later under an identifier given out before time i was there at time i. */
  lemma {:induction false} IdsNeverReused(ss: seq<St>, es: seq<Event>, i: nat, j: nat, k: nat)
    requires IsRun(ss, es) && i <= j <= |es| && k in ss[j].users && k < ss[i].next
    ensures k in ss[i].users && ss[i].users[k].rnti == ss[j].users[k].rnti
    decreases j
  {
    hide Inv, Step;
    if i < j {
      RunInv(ss, es, j - 1);
      assert Step(ss[j - 1], es[j - 1], ss[j - 1 + 1]);
      StepEffect(ss[j - 1], es[j - 1], ss[j]);
      NextGrows(ss, es, i, j - 1);
      IdsNeverReused(ss, es, i, j - 1, k);
    }
  }

  lemma {:induction false} NextGrows(ss: seq<St>, es: seq<Event>, i: nat, j: nat)
    requires IsRun(ss, es) && i <= j <= |es|
    ensures ss[i].next <= ss[j].next
    decreases j
  {
    hide Inv, Step;
    if i < j {
      RunInv(ss, es, j - 1);
      assert Step(ss[j - 1], es[j - 1], ss[j - 1 + 1]);
      StepEffect(ss[j - 1], es[j - 1], ss[j]);
      NextGrows(ss, es, i, j - 1);
    }
  }

  /** Downlink NAS goes only to the UE that was given the identifier: if message j for identifier `id` is
      delivered, its RNTI is that of the context stored under `id` at any earlier time at which there was
      one, and in particular of the one for which the identifier was taken. */
  lemma DlNasReachesOwner(ss: seq<St>, es: seq<Event>, i: nat, j: nat, id: nat)
    requires IsRun(ss, es) && i <= j < |es| && es[j].DlNas? && es[j].enbId == id && ss[j + 1].dl != ss[j].dl
    requires id < ss[i].next
    ensures id in ss[i].users && ss[j + 1].dl == ss[j].dl + [DlInfo(ss[i].users[id].rnti, es[j].pdu)]
  {
    hide Inv;
    assert Step(ss[j], es[j], ss[j + 1]);
    IdsNeverReused(ss, es, i, j, id);
  }

  /** Downlink message j is delivered once, to the RNTI for which event i took the identifier, if and only if its
      buffer was there and a context is still stored under the identifier; otherwise nothing is delivered. */
  lemma DlNasExactly(ss: seq<St>, es: seq<Event>, i: nat, j: nat)
    requires IsRun(ss, es) && i < j < |es| && es[i].InitialUe? && es[j].DlNas? && es[j].enbId == ss[i].next
    ensures ss[j + 1].dl
            == ss[j].dl + if es[j].bufferOk && es[j].enbId in ss[j].users then [DlInfo(es[i].rnti, es[j].pdu)] else []
  {
    hide Inv, WithRnti, WithMme;
    var id := es[j].enbId;
    assert Step(ss[j], es[j], ss[j + 1]);
    if id in ss[j].users {
      RunInv(ss, es, i);
      NotYetTaken(ss[i]);
      TakenBy(ss, es, i);
      IdsNeverReused(ss, es, i + 1, j, id);
    }
  }

  lemma NotYetTaken(s: St)
    requires Inv(s)
    ensures s.next !in s.users
  {
  }

  lemma TakenBy(ss: seq<St>, es: seq<Event>, i: nat)
    requires IsRun(ss, es) && i < |es| && es[i].InitialUe? && ss[i].next !in ss[i].users
    ensures ss[i + 1].next == ss[i].next + 1
    ensures ss[i].next in ss[i + 1].users ==> ss[i + 1].users[ss[i].next].rnti == es[i].rnti
  {
    RunInv(ss, es, i);
    assert Step(ss[i], es[i], ss[i + 1]);
  }

  /** An identifier that nobody has taken yet delivers nothing. */
  lemma UnknownIsDropped(ss: seq<St>, es: seq<Event>, j: nat)
    requires IsRun(ss, es) && j < |es| && es[j].DlNas? && (es[j].enbId >= ss[j].next || es[j].enbId == 0)
    ensures ss[j + 1].dl == ss[j].dl
  {
    RunInv(ss, es, j);
    assert Step(ss[j], es[j], ss[j + 1]);
  }

  /** Uplink message j is sent once, under the identifiers of the context with its RNTI, if and only if there is one
      and the MME is connected; otherwise nothing changes. */
  lemma UlNasExactly(ss: seq<St>, es: seq<Event>, j: nat, k: nat)
    requires IsRun(ss, es) && j < |es| && es[j].UlNas?
    ensures k in ss[j].users && ss[j].users[k].rnti == es[j].rnti && ss[j].connected
            ==> ss[j + 1].ul == ss[j].ul + [UlInfo(k, ss[j].users[k].mmeId, es[j].pdu)]
    ensures !ss[j].connected || (forall x :: x in ss[j].users ==> ss[j].users[x].rnti != es[j].rnti) ==> ss[j + 1] == ss[j]
  {
    RunInv(ss, es, j);
    assert Step(ss[j], es[j], ss[j + 1]);
    if k in ss[j].users && ss[j].users[k].rnti == es[j].rnti { assert WithRnti(ss[j].users, k, es[j].rnti); }
  }

  /** Nothing else is handed to RRC or sent as NAS. */
  lemma OthersSendNothing(ss: seq<St>, es: seq<Event>, j: nat)
    requires IsRun(ss, es) && j < |es|
    ensures !es[j].DlNas? ==> ss[j + 1].dl == ss[j].dl
    ensures !es[j].UlNas? ==> ss[j + 1].ul == ss[j].ul
  {
    hide Inv;
    assert Step(ss[j], es[j], ss[j + 1]);
  }

  /** The MME is connected as the connection has last reported. */
  lemma ConnectedExactly(ss: seq<St>, es: seq<Event>, j: nat)
    requires IsRun(ss, es) && j < |es|
    ensures ss[j + 1].connected == if es[j].Connection? then es[j].up else ss[j].connected
  {
    hide Inv;
    assert Step(ss[j], es[j], ss[j + 1]);
  }

  // ---------------------------------------------------------------- when a context goes

  /** In every run a context goes with an event exactly when RRC reports its user inactive and its release has been
      requested before, or when the MME's command names it by its identifier, or picks it by its MME identifier. */
  lemma GoesExactly(ss: seq<St>, es: seq<Event>, j: nat, k: nat)
    requires IsRun(ss, es) && j < |es| && k in ss[j].users
    ensures !es[j].ReleaseMme? ==>
              (k !in ss[j + 1].users <==> || (es[j] == UserRelease(ss[j].users[k].rnti) && ss[j].users[k].releaseRequested)
                                          || (es[j].ReleasePair? && es[j].enbId == k))
    ensures es[j].ReleaseMme? && k !in ss[j + 1].users ==> WithMme(ss[j].users, k, es[j].mmeId)
  {
    RunInv(ss, es, j);
    assert Step(ss[j], es[j], ss[j + 1]);
    var s, e, t := ss[j], es[j], ss[j + 1];
    match e
    case UserRelease(rnti) =>
      if HasRnti(s.users, rnti) {
        var x :| WithRnti(s.users, x, rnti) && t == Inactive(s, x);
      }
      assert s.users[k].rnti == rnti ==> WithRnti(s.users, k, rnti);
    case ReleaseMme(mmeId) =>
      if HasMme(s.users, mmeId) {
        var x :| WithMme(s.users, x, mmeId) && t == Erase(s, x);
      }
    case _ =>
  }

  /** A command by MME identifier takes exactly one of the contexts that have it. */
  lemma OneGoes(ss: seq<St>, es: seq<Event>, j: nat)
    requires IsRun(ss, es) && j < |es| && es[j].ReleaseMme? && HasMme(ss[j].users, es[j].mmeId)
    ensures |ss[j + 1].users.Keys| == |ss[j].users.Keys| - 1
  {
    RunInv(ss, es, j);
    assert Step(ss[j], es[j], ss[j + 1]);
    var x :| WithMme(ss[j].users, x, es[j].mmeId) && ss[j + 1] == Erase(ss[j], x);
    assert ss[j + 1].users.Keys == ss[j].users.Keys - {x};
  }

  /** A release is marked as requested exactly when the MME can be asked for it: it is connected and known to the
      context, and RRC reports the user inactive or the set-up asks for fallback. */
  lemma RequestedExactly(ss: seq<St>, es: seq<Event>, j: nat, k: nat)
    requires IsRun(ss, es) && j < |es| && k in ss[j].users && k in ss[j + 1].users
    ensures ss[j + 1].users[k].releaseRequested
            <==> || ss[j].users[k].releaseRequested
                 || (ss[j].connected && es[j] == UserRelease(ss[j].users[k].rnti) && ss[j].users[k].mmePresent)
                 || (ss[j].connected && es[j].CtxtSetup? && es[j].enbId == k && es[j].csFallback)
  {
    RunInv(ss, es, j);
    assert Step(ss[j], es[j], ss[j + 1]);
    var s, e, t := ss[j], es[j], ss[j + 1];
    match e
    case UserRelease(rnti) =>
      if HasRnti(s.users, rnti) {
        var x :| WithRnti(s.users, x, rnti) && t == Inactive(s, x);
      }
      assert s.users[k].rnti == rnti ==> WithRnti(s.users, k, rnti);
    case ReleaseMme(mmeId) =>
      if HasMme(s.users, mmeId) {
        var x :| WithMme(s.users, x, mmeId) && t == Erase(s, x);
      }
    case _ =>
  }

  /** The MME identifier of a context is the one of the last message that named it; a new context has none. */
  lemma MmeIdExactly(ss: seq<St>, es: seq<Event>, j: nat, k: nat)
    requires IsRun(ss, es) && j < |es| && k in ss[j].users && k in ss[j + 1].users
    ensures var named := (es[j].DlNas? || es[j].CtxtSetup?) && es[j].enbId == k;
            && (named ==> ss[j + 1].users[k].mmePresent && ss[j + 1].users[k].mmeId == es[j].mmeId)
            && (!named ==> ss[j + 1].users[k].mmePresent == ss[j].users[k].mmePresent
                           && ss[j + 1].users[k].mmeId == ss[j].users[k].mmeId)
  {
    RunInv(ss, es, j);
    assert Step(ss[j], es[j], ss[j + 1]);
    var s, e, t := ss[j], es[j], ss[j + 1];
    match e
    case UserRelease(rnti) =>
      if HasRnti(s.users, rnti) {
        var x :| WithRnti(s.users, x, rnti) && t == Inactive(s, x);
      }
    case ReleaseMme(mmeId) =>
      if HasMme(s.users, mmeId) {
        var x :| WithMme(s.users, x, mmeId) && t == Erase(s, x);
      }
    case _ =>
  }

  /** RNTIs of the contexts that went away in the first `n` events. */
  ghost function Gone(ss: seq<St>, n: nat): seq<nat>
    requires n < |ss|
  {
    if n == 0 then []
    else Gone(ss, n - 1) + if exists k :: k in ss[n - 1].users && k !in ss[n].users then
                             var k :| k in ss[n - 1].users && k !in ss[n].users; [ss[n - 1].users[k].rnti]
                           else []
  }

  /** RRC is told to release exactly the UEs whose contexts have gone, in that order. */
  lemma {:induction false} ReleasesAreExact(ss: seq<St>, es: seq<Event>, n: nat)
    requires IsRun(ss, es) && n <= |es|
    ensures ss[n].released == Gone(ss, n)
  {
    hide Inv, Step;
    if n > 0 {
      RunInv(ss, es, n - 1);
      assert Step(ss[n - 1], es[n - 1], ss[n - 1 + 1]);
      StepEffect(ss[n - 1], es[n - 1], ss[n]);
      ReleasesAreExact(ss, es, n - 1);
    }
  }

  // ---------------------------------------------------------------- who is let in

  /** In every run a new context is stored exactly when its RNTI is unused and no context has been given the
      MME identifier 0; its identifier is always unused. */
  lemma AdmittedExactly(ss: seq<St>, es: seq<Event>, i: nat)
    requires IsRun(ss, es) && i < |es| && es[i].InitialUe?
    ensures ss[i + 1].users != ss[i].users <==> !HasRnti(ss[i].users, es[i].rnti) && !HasMme(ss[i].users, 0)
    ensures ss[i + 1].users != ss[i].users ==> ss[i + 1].users == ss[i].users[ss[i].next := NewCtxt(ss[i], es[i].rnti)]
  {
    RunInv(ss, es, i);
    assert Step(ss[i], es[i], ss[i + 1]);
    assert ss[i].next !in ss[i].users;
  }

  /** Context `k` has been given the MME identifier 0. */
  predicate IsZero(users: map<nat, Ctxt>, k: nat) {
    WithMme(users, k, 0)
  }

  /** Whether an event names context `k`, of user `rnti`, in a way that may change or remove it. */
  predicate Frees(e: Event, k: nat, rnti: nat) {
    match e
    case DlNas(id, mmeId, _, _) => id == k && mmeId != 0
    case CtxtSetup(id, mmeId, _) => id == k && mmeId != 0
    case ReleasePair(id, _) => id == k
    case ReleaseMme(mmeId) => mmeId == 0
    case UserRelease(r) => r == rnti
    case _ => false
  }

  lemma ZeroStays(s: St, e: Event, t: St, k: nat)
    requires Inv(s) && ValidEvent(e) && Step(s, e, t) && IsZero(s.users, k) && !Frees(e, k, s.users[k].rnti)
    ensures IsZero(t.users, k) && t.users[k].rnti == s.users[k].rnti
    ensures e.InitialUe? ==> t.users == s.users
  {
    match e
    case InitialUe(_, _) => assert HasMme(s.users, 0);
    case UserRelease(r) =>
      if HasRnti(s.users, r) { var m :| WithRnti(s.users, m, r) && t == Inactive(s, m); }
    case ReleaseMme(id) =>
      if HasMme(s.users, id) { var m :| WithMme(s.users, m, id) && t == Erase(s, m); }
    case _ =>
  }

  /** Once a context has the MME identifier 0, no UE is let in until some event names that context. */
  lemma {:induction false} ZeroBlocks(ss: seq<St>, es: seq<Event>, i: nat, j: nat, k: nat)
    requires IsRun(ss, es) && i <= j < |es| && IsZero(ss[i].users, k)
    requires forall m :: i <= m <= j ==> !Frees(es[m], k, ss[i].users[k].rnti)
    ensures IsZero(ss[j + 1].users, k) && ss[j + 1].users[k].rnti == ss[i].users[k].rnti
    ensures es[j].InitialUe? ==> ss[j + 1].users == ss[j].users
    decreases j
  {
    hide Inv, Step, IsZero, Frees;
    RunInv(ss, es, j);
    if i < j { ZeroBlocks(ss, es, i, j - 1, k); }
    assert ValidEvent(es[j]) && Step(ss[j], es[j], ss[j + 1]);
    ZeroStays(ss[j], es[j], ss[j + 1], k);
  }

  /** The MME can bring this about with one message, for the first UE. */
  function ZeroEvents(r: nat, q: nat, pdu: nat): seq<Event> {
    [InitialUe(r, false), DlNas(1, 0, pdu, true), InitialUe(q, false)]
  }

  lemma ZeroReached(r: nat, q: nat, pdu: nat) returns (ss: seq<St>)
    requires r != INVALID_RNTI && q != INVALID_RNTI && r != q
    ensures IsRun(ss, ZeroEvents(r, q, pdu)) && IsZero(ss[2].users, 1)
    ensures !HasRnti(ss[2].users, q) && ss[3].users == ss[2].users
  {
    var s1 := Admit(Init(), r);
    var u := Touch(s1, 1, 0);
    var s2 := u.(dl := u.dl + [DlInfo(r, pdu)]);
    ss := [Init(), s1, s2, Admit(s2, q)];
    assert WithMme(s2.users, 1, 0);
  }

  // ---------------------------------------------------------------- the entity

  class Entity {
    var users: map<nat, Ctxt>
    var nextEnbUeS1apId: nat
    var mmeConnected: bool
    /** Calls of RRC's `release_complete` and `write_dl_info`, and NAS messages sent to the MME. */
    var released: seq<nat>
    var dlInfo: seq<DlInfo>
    var ulInfo: seq<UlInfo>

    ghost function Val(): St
      reads this
    {
      St(users, nextEnbUeS1apId, mmeConnected, released, dlInfo, ulInfo)
    }

    constructor ()
      ensures Val() == Init()
    {
      users, nextEnbUeS1apId, mmeConnected := map[], 1, false;
      released, dlInfo, ulInfo := [], [], [];
    }

    method SetConnected(up: bool)
      modifies this
      ensures Step(old(Val()), Connection(up), Val())
    {
      mmeConnected := up;
    }

    /** Any context with this RNTI, unless the RNTI is the invalid one. */
    method FindUeRnti(rnti: nat) returns (k: Option<nat>)
      ensures k.Some? <==> HasRnti(users, rnti)
      ensures k.Some? ==> WithRnti(users, k.value, rnti)
    {
      if rnti == INVALID_RNTI { return None; }
      if u :| u in users && users[u].rnti == rnti {
        assert WithRnti(users, u, rnti);
        return Some(u);
      }
      assert forall u :: u in users ==> users[u].rnti != rnti;
      k := None;
    }

    method FindUeMmeid(mmeId: nat) returns (k: Option<nat>)
      ensures k.Some? <==> HasMme(users, mmeId)
      ensures k.Some? ==> WithMme(users, k.value, mmeId)
    {
      if u :| u in users && users[u].mmePresent && users[u].mmeId == mmeId {
        assert WithMme(users, u, mmeId);
        return Some(u);
      }
      assert forall u :: u in users ==> !(users[u].mmePresent && users[u].mmeId == mmeId);
      k := None;
    }

    /** Stores a context unless it repeats an RNTI or identifier. */
    method AddUser(c: Ctxt) returns (ok: bool)
      modifies `users
      ensures ok <==> !HasRnti(old(users), c.rnti) && c.enbId !in old(users) && !HasMme(old(users), c.mmeId)
      ensures users == if ok then old(users)[c.enbId := c] else old(users)
    {
      var r := FindUeRnti(c.rnti);
      if r.Some? { return false; }
      if c.enbId in users { return false; }
      var m := FindUeMmeid(c.mmeId);
      if m.Some? { return false; }
      users := users[c.enbId := c];
      ok := true;
    }

    /** The first message of a UE. With a temporary identity an existing context of the RNTI is used again,
        although the new one has already taken an identifier. */
    method InitialUeMessage(rnti: nat, tmsi: bool)
      modifies this
      ensures Step(old(Val()), InitialUe(rnti, tmsi), Val())
    {
      var c := Ctxt(false, rnti, nextEnbUeS1apId, 0, false);
      nextEnbUeS1apId := (nextEnbUeS1apId + 1) % ID_LIMIT;
      if tmsi {
        var u := FindUeRnti(rnti);
        if u.Some? { return; }
      }
      var ok := AddUser(c);
    }

    method EraseUser(k: nat)
      requires k in users
      modifies `users
      ensures users == old(users) - {old(users)[k].enbId}
    {
      users := users - {users[k].enbId};
    }

    /** RRC reports inactivity; `sctpOk` is the outcome of sending. */
    method ReleaseUser(rnti: nat, sctpOk: bool) returns (r: bool)
      modifies this
      ensures Step(old(Val()), UserRelease(rnti), Val())
      ensures r ==> HasRnti(users, rnti)
    {
      var u := FindUeRnti(rnti);
      if u.None? { return false; }
      var k := u.value;
      assert WithRnti(users, k, rnti);
      if users[k].releaseRequested {
        EraseUser(k);
        released := released + [rnti];
        assert Val() == Inactive(old(Val()), k);
        return false;
      }
      if users[k].mmePresent {
        r := SendUeCtxtReleaseRequest(k, sctpOk);
        assert Val() == Inactive(old(Val()), k);
        assert WithRnti(users, k, rnti);
        return;
      }
      assert Val() == Inactive(old(Val()), k);
      r := true;
    }

    method SendUeCtxtReleaseRequest(k: nat, sctpOk: bool) returns (r: bool)
      requires k in users
      modifies `users
      ensures Val() == RequestRelease(old(Val()), k)
      ensures r == (sctpOk && mmeConnected && old(users)[k].mmePresent)
    {
      if !mmeConnected { return false; }
      if !users[k].mmePresent { return false; }
      users := users[k := users[k].(releaseRequested := true)];
      r := sctpOk;
    }

    /** An uplink NAS message of a UE goes to the MME under the UE's identifiers. */
    method WritePdu(rnti: nat, pdu: nat)
      modifies `ulInfo
      ensures Step(old(Val()), UlNas(rnti, pdu), Val())
    {
      var u := FindUeRnti(rnti);
      if u.None? || !mmeConnected { return; }
      assert WithRnti(users, u.value, rnti);
      ulInfo := ulInfo + [UlInfo(users[u.value].enbId, users[u.value].mmeId, pdu)];
    }

    /** The context a message of the MME is for; its MME identifier is taken from the message. */
    method FindS1apMsgUser(enbId: nat, mmeId: nat) returns (found: bool)
      modifies `users
      ensures found == (enbId in old(users)) && Val() == if found then Touch(old(Val()), enbId, mmeId) else old(Val())
    {
      found := enbId in users;
      if found { users := users[enbId := users[enbId].(mmePresent := true, mmeId := mmeId)]; }
    }

    method HandleDlNasTransport(enbId: nat, mmeId: nat, pdu: nat, bufferOk: bool) returns (r: bool)
      modifies this
      ensures Step(old(Val()), DlNas(enbId, mmeId, pdu, bufferOk), Val())
      ensures r == (bufferOk && enbId in old(users))
    {
      var found := FindS1apMsgUser(enbId, mmeId);
      if !found || !bufferOk { return false; }
      dlInfo := dlInfo + [DlInfo(users[enbId].rnti, pdu)];
      r := true;
    }

    method HandleInitialCtxtSetupRequest(enbId: nat, mmeId: nat, csFallback: bool, sctpOk: bool) returns (r: bool)
      modifies this
      ensures Step(old(Val()), CtxtSetup(enbId, mmeId, csFallback), Val())
      ensures r == (enbId in old(users))
    {
      var found := FindS1apMsgUser(enbId, mmeId);
      if !found { return false; }
      if csFallback { var sent := SendUeCtxtReleaseRequest(enbId, sctpOk); }
      r := true;
    }

    /** The MME releases a UE named by both identifiers. */
    method HandleReleaseCommandPair(enbId: nat, mmeId: nat) returns (r: bool)
      modifies this
      ensures Step(old(Val()), ReleasePair(enbId, mmeId), Val())
      ensures r == (enbId in old(users))
    {
      var found := FindS1apMsgUser(enbId, mmeId);
      if !found { return false; }
      FinishRelease(enbId);
      r := true;
    }

    /** The MME releases a UE named by its own identifier only. */
    method HandleReleaseCommandMme(mmeId: nat) returns (r: bool)
      modifies this
      ensures Step(old(Val()), ReleaseMme(mmeId), Val())
      ensures r == HasMme(old(users), mmeId)
    {
      var u := FindUeMmeid(mmeId);
      if u.None? { return false; }
      assert WithMme(users, u.value, mmeId);
      FinishRelease(u.value);
      r := true;
    }

    method FinishRelease(k: nat)
      requires k in users
      modifies `users, `released
      ensures Val() == Erase(old(Val()), k)
    {
      var rnti := users[k].rnti;
      EraseUser(k);
      released := released + [rnti];
    }
  }
}
