/** The carrier scheduler: one downlink and one uplink pass per TTI over the shared tables, the
    pending RARs, the slots and the user table. */
module Carrier {
  import opened Timing
  import opened Table
  import opened DlSpec
  import opened Options
  import opened Packing
  import opened Estimate
  import opened SchedulerUe
  import opened UlSpec
  import opened Msg3Runs
  import opened Grid
  import opened CellSpec

  /** Responses that one RAR can hold. */
  const MAX_RAR_LIST: nat := 8

  predicate SameOpportunity(r: PendingRar, info: RarInfo) {
    r.nprachTti == info.nprachTti && r.raRnti == RaRnti(info.nprachTti)
  }

  /** A detection joins the first RAR of its opportunity, or the queue. */
  lemma {:induction false} AddRachAt(rars: seq<PendingRar>, i: nat, info: RarInfo)
    requires i <= |rars| && forall k :: 0 <= k < i ==> !SameOpportunity(rars[k], info)
    requires i < |rars| ==> SameOpportunity(rars[i], info)
    ensures AddRach(rars, info) == if i < |rars| then rars[i := rars[i].(grants := rars[i].grants + [info])]
                                   else rars + [PendingRar(RaRnti(info.nprachTti), info.nprachTti, [info])]
  {
    hide RaRnti, AddRach;
    if i == 0 {
      AddRachHead(rars, info);
    } else {
      forall k | 0 <= k < i - 1 ensures !SameOpportunity(rars[1..][k], info) {
        assert rars[1..][k] == rars[k + 1];
      }
      AddRachAt(rars[1..], i - 1, info);
      AddRachHead(rars, info);
      assert rars == [rars[0]] + rars[1..];
    }
  }

  lemma AddRachHead(rars: seq<PendingRar>, info: RarInfo)
    ensures AddRach(rars, info) == if rars == [] then [PendingRar(RaRnti(info.nprachTti), info.nprachTti, [info])]
              else if SameOpportunity(rars[0], info) then rars[0 := rars[0].(grants := rars[0].grants + [info])]
              else [rars[0]] + AddRach(rars[1..], info)
  {
    hide RaRnti;
  }

  /** The pending RARs, oldest first. */
  class RaSched {
    var pendingRars: seq<PendingRar>

    constructor ()
      ensures pendingRars == []
    {
      pendingRars := [];
    }

    /** Random access part of a downlink pass. A RAR without grants would keep the loop running, so
        the queue must not have one in front. */
    method DlSched(slot: SfSched) returns (o: Outcome)
      requires slot.Valid()
      requires pendingRars != [] ==> pendingRars[0].grants != []
      modifies this, slot`rarAllocs, slot.dl
      ensures var tti := slot.TtiTxDl(); var ra := RaPass(old(slot.dl[..]), tti, old(pendingRars));
              && slot.dl[..] == Reserve(old(slot.dl[..]), tti, Offsets(RaMarks(tti, ra)))
              && pendingRars == ra.rars && (o == Success <==> ra.done)
              && slot.rarAllocs == old(slot.rarAllocs) + if ra.rar.Some? then [ra.rar.value] else []
    {
      hide Reserve, RarDataOffset, TtiAdd;
      var tti := slot.TtiTxDl();
      ReserveNothing(slot.dl[..], tti);
      if |pendingRars| == 0 { return DciCollision; }
      if !IsValidDlSf(tti) { return RbCollision; }
      if slot.dl[tti] { return RbCollision; }
      if tti % 16 >= 8 { return RbCollision; }
      hide IsValidDlSf;
      var rar := pendingRars[0];
      var ret, n := slot.AllocRar(rar);
      if n == |rar.grants| {
        pendingRars := pendingRars[1..];
        MarkRar(slot.dl, tti);
        return Success;
      } else {
        pendingRars := [rar.(grants := rar.grants[n..])] + pendingRars[1..];
        return DciCollision;
      }
    }

    /** The DCI's subframe, and the first valid one from five subframes later on. */
    static method MarkRar(dl: array<bool>, tti: nat)
      requires dl.Length == RING && tti < RING
      modifies dl
      ensures dl[..] == Reserve(old(dl[..]), tti, Offsets([Mark(0, RarDci), Mark(RarDataOffset(tti), RarData)]))
    {
      hide IsValidDlSf, Reserve, TtiAdd, At;
      ghost var t := dl[..];
      dl[tti] := true;
      var rarTti := TtiAdd(tti, 5);
      TtiAddIsAt(tti, 5);
      ghost var first, steps := rarTti, 0;
      SkipStep(first, 0);
      while !IsValidDlSf(rarTti)
        invariant rarTti == At(first, steps) && steps <= StepsToValid(first)
        invariant dl[..] == t[tti := true]
        decreases 2 - steps
      {
        SkipStep(first, steps);
        rarTti := TtiAdd(rarTti, 1);
        steps := steps + 1;
      }
      SkipStep(first, steps);
      dl[rarTti] := true;
      AtAt(tti, 5, steps);
      var ms := [Mark(0, RarDci), Mark(RarDataOffset(tti), RarData)];
      assert Offsets(ms) == [0] + [5 + steps];
      ReserveOne(t, tti, [0], 5 + steps);
      OneMark(t, tti, Mark(0, RarDci));
      assert Offsets([Mark(0, RarDci)]) == [0];
    }

    /** A detected preamble. The array of a RAR's responses has room for eight. */
    method DlRachInfo(info: RarInfo)
      requires forall k :: 0 <= k < |pendingRars| && pendingRars[k].nprachTti == info.nprachTti ==> |pendingRars[k].grants| < MAX_RAR_LIST
      modifies this
      ensures pendingRars == AddRach(old(pendingRars), info)
    {
      hide RaRnti, AddRach;
      var raRnti := RaRnti(info.nprachTti);
      var i := 0;
      while i < |pendingRars|
        invariant 0 <= i <= |pendingRars| && pendingRars == old(pendingRars)
        invariant forall k :: 0 <= k < i ==> !SameOpportunity(pendingRars[k], info)
      {
        var r := pendingRars[i];
        if r.nprachTti == info.nprachTti && raRnti == r.raRnti {
          AddRachAt(pendingRars, i, info);
          pendingRars := pendingRars[i := r.(grants := r.grants + [info])];
          return;
        }
        i := i + 1;
      }
      AddRachAt(pendingRars, i, info);
      pendingRars := pendingRars + [PendingRar(raRnti, info.nprachTti, [info])];
    }

    /** Parks the Msg3s of the RAR just sent in the slot of nine TTIs later. */
    static method UlSched(dlSlot: SfSched, msg3Slot: SfSched, users: map<nat, SchedUe>)
      requires msg3Slot.Valid() && dlSlot != msg3Slot
      requires forall r :: r in users ==> users[r].rnti == r && users[r].Valid()
      modifies msg3Slot`ulAllocs, msg3Slot.ul, set r | r in users :: users[r]
      ensures forall r :: r in users ==> users[r].Val() == old(users[r].Val())
      ensures var m := ParkAll(old(msg3Slot.ul[..]), old(msg3Slot.ulAllocs), msg3Slot.ttiRx, dlSlot.rarAllocs, users.Keys);
              msg3Slot.ul[..] == m.ul && msg3Slot.ulAllocs == m.allocs
    {
      hide AllocMsg3;
      var i := 0;
      ghost var t, a := msg3Slot.ul[..], msg3Slot.ulAllocs;
      while i < |dlSlot.rarAllocs|
        invariant 0 <= i <= |dlSlot.rarAllocs|
        invariant forall r :: r in users ==> users[r].Val() == old(users[r].Val())
        invariant var m := ParkAll(t, a, msg3Slot.ttiRx, dlSlot.rarAllocs[..i], users.Keys);
                  msg3Slot.ul[..] == m.ul && msg3Slot.ulAllocs == m.allocs
      {
        var rnti := dlSlot.rarAllocs[i].grant.rnti;
        assert dlSlot.rarAllocs[..i + 1][..i] == dlSlot.rarAllocs[..i];
        if rnti in users {
          var o := msg3Slot.AllocUl(users[rnti], Msg3, UL_LEN, 0);
        }
        i := i + 1;
      }
      assert dlSlot.rarAllocs[..i] == dlSlot.rarAllocs;
    }
  }

  // ---------------------------------------------------------------- the carrier

  lemma RequestedGranted(ue: UeState)
    requires |ue.lch| == MAX_LC
    ensures Requested(Granted(ue)) == Requested(ue)
  {
    RbSame(ue.lch, Granted(ue).lch, 1);
  }

  lemma {:induction false} RbSame(a: seq<Bearer>, b: seq<Bearer>, i: nat)
    requires |a| == |b| && i <= |a|
    requires forall l :: 0 <= l < |a| ==> a[l].dir == b[l].dir && a[l].bufTx == b[l].bufTx && a[l].bufRetx == b[l].bufRetx
    ensures RbBytes(a, i) == RbBytes(b, i)
    decreases |a| - i
  {
    if i < |a| { RbSame(a, b, i + 1); }
  }

  class CarrierSched {
    const dl: array<bool>
    const ul: array<bool>
    const slots: seq<SfSched>
    const bc: BcSched
    const ra: RaSched
    var ueDb: map<nat, SchedUe>
    /** The keys of `ueDb` in the order in which it is walked. */
    var order: seq<nat>
    var lastAlloc: nat
    var allocActive: bool

    ghost predicate Fixed()
      reads bc.sib1Sfn
    {
      && dl.Length == RING && ul.Length == RING && dl != ul
      && |slots| == N_SLOTS
      && (forall i :: 0 <= i < N_SLOTS ==> slots[i].dl == dl && slots[i].ul == ul)
      && (forall i, j :: 0 <= i < j < N_SLOTS ==> slots[i] != slots[j])
      && bc.Valid()
    }

    ghost predicate UsersOk()
      reads this, ueDb.Values
    {
      && (forall r :: r in ueDb ==> ueDb[r].rnti == r && ueDb[r].Valid())
      && Ascending(order) && (forall r :: r in order <==> r in ueDb)
    }

    ghost predicate Valid()
      reads this, bc.sib1Sfn, ueDb.Values
    {
      Fixed() && UsersOk()
    }

    ghost function Dl(): DlState
      requires Fixed()
      reads this, dl, bc, bc.sib1Sfn, ra
    {
      DlState(dl[..], bc.sib1SfIdx, ra.pendingRars, Throttle(allocActive, lastAlloc))
    }

    ghost function Ul(): Table
      requires Fixed()
      reads this, ul, bc.sib1Sfn
    {
      ul[..]
    }

    ghost function SlotVals(): Slots
      requires |slots| == N_SLOTS
      reads slots
    {
      seq(N_SLOTS, i requires 0 <= i < N_SLOTS reads slots => slots[i].Val())
    }

    ghost function Ues(): (u: map<nat, UeState>)
      requires UsersOk()
      reads this, ueDb.Values
      ensures u.Keys == ueDb.Keys && forall r :: r in u ==> u[r] == ueDb[r].Val() && u[r].rnti == r && |u[r].lch| == MAX_LC
    {
      map r | r in ueDb :: ueDb[r].Val()
    }

    /** What the users ask for in the pass for `tti`, in the order of their visit. */
    ghost function Requests(tti: nat): seq<DlReq>
      requires UsersOk()
      reads this, ueDb.Values
    {
      Asks(Ues(), RoundRobin(order, tti))
    }

    constructor ()
      ensures Valid() && fresh(dl) && fresh(ul) && fresh(bc) && fresh(bc.sib1Sfn) && fresh(ra) && (forall s <- slots :: fresh(s))
      ensures ueDb == map[] && order == []
      ensures forall i :: 0 <= i < RING ==> !dl[i] && !ul[i]
      ensures Dl() == DlState(dl[..], 0, [], Throttle(false, 0)) && SlotVals() == NoSlots()
    {
      var d := new bool[RING](i => false);
      var u := new bool[RING](i => false);
      var ss: seq<SfSched> := [];
      while |ss| < N_SLOTS
        invariant |ss| <= N_SLOTS && forall i :: 0 <= i < RING ==> !d[i] && !u[i]
        invariant forall i :: 0 <= i < |ss| ==> fresh(ss[i]) && ss[i].dl == d && ss[i].ul == u && ss[i].Val() == NewSlot(10241)
        invariant forall i, j :: 0 <= i < j < |ss| ==> ss[i] != ss[j]
      {
        var s := new SfSched(d, u);
        ss := ss + [s];
      }
      var b := new BcSched();
      var r := new RaSched();
      dl, ul, slots, bc, ra := d, u, ss, b, r;
      ueDb, order := map[], [];
      lastAlloc, allocActive := 0, false;
    }

    method GetSfSched(tti: nat) returns (s: SfSched)
      requires Fixed()
      modifies slots
      ensures s == slots[Index(tti)] && SlotVals() == Bind(old(SlotVals()), tti)
    {
      hide Index;
      s := slots[Index(tti)];
      if s.ttiRx != tti { s.NewTti(tti); }
      assert SlotVals() == Bind(old(SlotVals()), tti);
    }

    method DlRachInfo(info: RarInfo)
      requires forall k :: 0 <= k < |ra.pendingRars| && ra.pendingRars[k].nprachTti == info.nprachTti
                 ==> |ra.pendingRars[k].grants| < MAX_RAR_LIST
      modifies ra
      ensures ra.pendingRars == AddRach(old(ra.pendingRars), info)
    {
      ra.DlRachInfo(info);
    }

    // -------------------------------------------------------------- downlink users

    /** The user table after no record has changed. */
    twostate lemma NoUserChanged()
      requires old(UsersOk()) && ueDb == old(ueDb) && order == old(order)
      requires forall r :: r in ueDb ==> ueDb[r].Val() == old(ueDb[r].Val())
      ensures UsersOk() && Ues() == old(Ues())
    {
    }

    /** Visits one user. `u` is the pass so far; a user that is granted now finds room enough. */
    method AllocateUser(user: SchedUe, slot: SfSched, ghost u: UserState)
      requires Fixed() && slot in slots && user.Valid()
      requires u.table == dl[..] && u.throttle == Throttle(allocActive, lastAlloc) && u.data == slot.dataAllocs
      requires allocActive || Room(dl[..], At(slot.TtiTxDl(), 5)) > 3
      modifies `lastAlloc, `allocActive, slot`dataAllocs, dl, user
      ensures user.Valid()
      ensures var req := Requested(old(user.Val()));
              var v := VisitUser(u, slot.TtiTxDl(), DlReq(user.rnti, req.min, req.max));
              && dl[..] == v.table && Throttle(allocActive, lastAlloc) == v.throttle && slot.dataAllocs == v.data
              && user.Val() == if v.data == u.data then old(user.Val()) else Granted(old(user.Val()))
    {
      hide UserCanStart, UserMarks, Reserve, Room, Requested, TtiAdd, At, Ascending, Granted;
      var has := slot.IsDlAlloc(user);
      if has { return; }
      var tti := slot.TtiTxDl();
      if allocActive {
        if (tti + RING - lastAlloc) % RING > 25 { allocActive := false; }
        return;
      }
      var min, max := user.GetRequestedDlBytes();
      if min > 0 {
        var o := slot.AllocDlUser(user, max);
        if o == Success {
          lastAlloc := tti;
          allocActive := true;
        }
      }
    }

    lemma Listed(k: nat)
      requires UsersOk() && k < |order|
      ensures order[k] in ueDb
    {
    }

    /** The user table after one user's record has changed. */
    twostate lemma OneUserChanged(rnti: nat)
      requires old(UsersOk()) && rnti in ueDb && ueDb == old(ueDb) && order == old(order)
      requires ueDb[rnti].Valid()
      requires forall r :: r in ueDb && r != rnti ==> ueDb[r].Valid() && ueDb[r].Val() == old(ueDb[r].Val())
      ensures UsersOk() && Ues() == old(Ues())[rnti := ueDb[rnti].Val()]
    {
    }

    /** One visit of a pass over the users: `ues` are the records before the pass. */
    method VisitInPass(rnti: nat, slot: SfSched, ghost u: UserState, ghost ues: map<nat, UeState>) returns (ghost v: UserState)
      requires Valid() && slot in slots && rnti in ueDb && PassSoFar(slot, u, ues)
      requires allocActive || Room(dl[..], At(slot.TtiTxDl(), 5)) > 3
      modifies `lastAlloc, `allocActive, slot`dataAllocs, dl, ueDb[rnti]
      ensures Valid() && PassSoFar(slot, v, ues)
      ensures v == VisitUser(u, slot.TtiTxDl(), DlReq(rnti, Requested(ues[rnti]).min, Requested(ues[rnti]).max))
    {
      hide Room, At, TtiAdd, Requested, Granted, VisitUser, AfterGrants, Ascending, ContiguousWindows, IsValidDlSf;
      ghost var tti := slot.TtiTxDl();
      label L:
      ghost var before := Ues();
      AllocateUser(ueDb[rnti], slot, u);
      OneUserChanged@L(rnti);
      RequestedGranted(before[rnti]);
      var ask := DlReq(rnti, Requested(ues[rnti]).min, Requested(ues[rnti]).max);
      v := VisitUser(u, tti, ask);
      VisitData(u, tti, ask);
      GrantsStep(ues, u.data, v.data);
    }

    /** The tables and the records agree with the part `u` of a pass that began with the records `ues`. */
    ghost predicate PassSoFar(slot: SfSched, u: UserState, ues: map<nat, UeState>)
      requires UsersOk()
      reads this, ueDb.Values, dl, slot
    {
      && dl[..] == u.table && Throttle(allocActive, lastAlloc) == u.throttle && slot.dataAllocs == u.data
      && ues.Keys == ueDb.Keys && (forall r :: r in ues ==> |ues[r].lch| == MAX_LC)
      && Ues() == AfterGrants(ues, u.data)
      && forall r :: r in ues ==> Requested(Ues()[r]) == Requested(ues[r])
    }

    /** Visits every user once, in round-robin order. */
    method SchedUsersDl(slot: SfSched)
      requires Valid() && slot in slots && slot.dataAllocs == []
      requires Room(dl[..], At(slot.TtiTxDl(), 5)) > 3
      modifies `lastAlloc, `allocActive, slot`dataAllocs, dl, ueDb.Values
      ensures Valid()
      ensures var tti := slot.TtiTxDl();
              var u := VisitUsers(UserState(old(dl[..]), old(Throttle(allocActive, lastAlloc)), [], []), tti, old(Requests(slot.TtiTxDl())));
              && dl[..] == u.table && Throttle(allocActive, lastAlloc) == u.throttle && slot.dataAllocs == u.data
              && Ues() == AfterGrants(old(Ues()), u.data)
    {
      hide Room, At, TtiAdd, Requested, Granted, VisitUser, VisitUsers, RoundRobin, AfterGrants, Ascending;
      ghost var u0 := UserState(dl[..], Throttle(allocActive, lastAlloc), [], []);
      NoGrants(Ues());
      ghost var asks := Requests(slot.TtiTxDl());
      WalkUsersDl(slot, u0, Ues(), asks);
    }

    /** The walk over the user table, from the entry the TTI selects and wrapping at the end. */
    method WalkUsersDl(slot: SfSched, ghost u0: UserState, ghost ues: map<nat, UeState>, ghost asks: seq<DlReq>)
      requires Valid() && slot in slots && u0.data == [] && PassSoFar(slot, u0, ues)
      requires Room(u0.table, At(slot.TtiTxDl(), 5)) > 3
      requires AreAsks(asks, ues, RoundRobin(order, slot.TtiTxDl()))
      modifies `lastAlloc, `allocActive, slot`dataAllocs, dl, ueDb.Values
      ensures Valid() && PassSoFar(slot, VisitUsers(u0, slot.TtiTxDl(), asks), ues)
    {
      hide Room, At, TtiAdd, Requested, Granted, VisitUser, VisitUsers, RoundRobin, AfterGrants, Ascending;
      hide PassSoFar, AreAsks, FirstIndex, UsersOk, Ues, ContiguousWindows;
      var n := |order|;
      var tti := slot.TtiTxDl();
      NoVisits(u0, tti);
      var iter: nat := FirstIndex(n, tti);
      var c: nat := 0;
      ghost var p, u := iter, u0;
      assert asks[..0] == [];
      AsksLength(asks, ues, RoundRobin(order, tti));
      while c < n
        invariant c <= n && iter == if p + c <= n then p + c else p + c - n
        invariant Valid() && ueDb == old(ueDb) && order == old(order)
        invariant u == VisitUsers(u0, tti, asks[..c])
        invariant PassSoFar(slot, u, ues)
      {
        if iter == n { iter := 0; }
        var rnti := order[iter];
        AskAt(order, tti, c, asks, ues);
        Listed(iter);
        CanAskNow(slot, u0, u, asks[..c], ues);
        VisitStep(u0, tti, asks, c);
        u := VisitInPass(rnti, slot, u, ues);
        iter := iter + 1;
        c := c + 1;
      }
      assert asks[..c] == asks;
    }

    lemma CanAskNow(slot: SfSched, u0: UserState, u: UserState, reqs: seq<DlReq>, ues: map<nat, UeState>)
      requires UsersOk() && PassSoFar(slot, u, ues)
      requires u0.data == [] && u == VisitUsers(u0, slot.TtiTxDl(), reqs)
      requires Room(u0.table, At(slot.TtiTxDl(), 5)) > 3
      ensures allocActive || Room(dl[..], At(slot.TtiTxDl(), 5)) > 3
    {
      hide Room, At;
      CanAsk(u0, u, slot.TtiTxDl(), reqs);
    }

    // ------------------------------------------------------------- the passes

    /** The slots after one of them has changed. */
    twostate lemma OneSlotChanged(i: nat)
      requires |slots| == N_SLOTS && i < N_SLOTS
      requires forall j :: 0 <= j < N_SLOTS && j != i ==> slots[j].Val() == old(slots[j].Val())
      ensures SlotVals() == old(SlotVals())[i := slots[i].Val()]
    {
    }

    /** The cell-wide part of a downlink pass: the table entry of `ttiRx` is given free, then system
        information and random access responses reserve. It is a pass without users. */
    method SchedCommon(s: SfSched, ttiRx: nat) returns (o: Outcome)
      requires Fixed() && ttiRx < RING && s in slots && s.ttiRx == ttiRx && NoDl(s.Val())
      requires ra.pendingRars != [] ==> ra.pendingRars[0].grants != []
      modifies dl, bc`sib1SfIdx, ra, s`bcAllocs, s`rarAllocs
      ensures Fixed()
      ensures var out := DlPass(old(Dl()), ttiRx, []);
              && Dl() == out.next && (o == Success <==> out.rarDone)
              && s.bcAllocs == out.bc && s.rarAllocs == RarList(out.rar)
    {
      hide Reserve, BcMarks, RaPass, RaMarks, TtiAdd, NextSib1Idx, IsSib1Part;
      dl[ttiRx] := false;
      assert dl[..] == old(dl[..])[ttiRx := false];
      bc.AllocSibs(s);
      o := ra.DlSched(s);
    }

    /** Turns to the slot of nine TTIs later and parks the Msg3 of the RAR just sent there. */
    method ParkMsg3(s: SfSched, ttiRx: nat)
      requires Valid() && s == slots[Index(ttiRx)]
      modifies slots, ul, ueDb.Values
      ensures Valid() && Ues() == old(Ues()) && s.Val() == old(s.Val())
      ensures var at := ttiRx + MSG3_DELAY; var b := Bind(old(SlotVals()), at);
              var p := ParkedIn(b[Index(at)].ul, old(Ul()), ttiRx, s.rarAllocs, ueDb.Keys);
              Ul() == p.ul && SlotVals() == PushUl(b, at, p.allocs)
    {
      hide ParkAll, Index, Ascending, Bind;
      BindKey(SlotVals(), ttiRx + MSG3_DELAY);
      var at := ttiRx + MSG3_DELAY;
      NeighboursApart(ttiRx);
      var m := GetSfSched(at);
      assert s.Val() == old(s.Val()) by { assert SlotVals()[Index(ttiRx)] == s.Val(); }
      ParkAllExtends(ul[..], m.ulAllocs, at, s.rarAllocs, ueDb.Keys);
      ghost var b, u := SlotVals(), m.ulAllocs;
      assert b[Index(at)] == m.Val();
      assert m.ttiRx == at;
      label L:
      RaSched.UlSched(s, m, ueDb);
      NoUserChanged();
      OneSlotChanged@L(Index(at));
      assert m.ulAllocs == u + m.ulAllocs[|u|..];
      assert m.Val() == b[Index(at)].(ul := m.ulAllocs);
    }

    /** Takes the slot of `ttiRx` and runs the cell-wide part in it. */
    method StartTti(ttiRx: nat) returns (s: SfSched, o: Outcome)
      requires Fixed() && UsersOk() && ttiRx < RING
      requires NoDl(Bind(SlotVals(), ttiRx)[Index(ttiRx)])
      requires ra.pendingRars != [] ==> ra.pendingRars[0].grants != []
      modifies slots, dl, bc`sib1SfIdx, ra
      ensures Valid() && Ues() == old(Ues())
      ensures s == slots[Index(ttiRx)] && s.ttiRx == ttiRx && s.dataAllocs == []
      ensures var out := DlPass(old(Dl()), ttiRx, []); var b := Bind(old(SlotVals()), ttiRx);
              && Dl() == out.next && (o == Success <==> out.rarDone) && s.rarAllocs == RarList(out.rar)
              && SlotVals() == b[Index(ttiRx) := b[Index(ttiRx)].(bc := out.bc, rar := RarList(out.rar))]
    {
      hide Index, Bind, DlPass, TtiAdd, Ascending;
      BindKey(SlotVals(), ttiRx);
      s := GetSfSched(ttiRx);
      assert SlotVals()[Index(ttiRx)] == s.Val();
      label Common:
      o := SchedCommon(s, ttiRx);
      OneSlotChanged@Common(Index(ttiRx));
      NoUserChanged();
    }

    /** The downlink pass up to the users, ending with the slot of `ttiRx`. */
    method DlCommon(ttiRx: nat) returns (s: SfSched)
      requires Valid() && ttiRx < RING
      requires NoDl(Bind(SlotVals(), ttiRx)[Index(ttiRx)])
      requires ra.pendingRars != [] ==> ra.pendingRars[0].grants != []
      modifies slots, dl, ul, bc`sib1SfIdx, ra, ueDb.Values
      ensures Valid() && Ues() == old(Ues()) && s == slots[Index(ttiRx)] && s.ttiRx == ttiRx && s.dataAllocs == []
      ensures var out := DlPass(old(Dl()), ttiRx, []);
              && Dl() == out.next && Ul() == Parked(old(SlotVals()), old(Ul()), ttiRx, out, ueDb.Keys).ul
              && SlotVals() == AfterPass(old(SlotVals()), old(Ul()), ttiRx, out, ueDb.Keys)
    {
      hide Index, Bind, DlPass, AfterPass, TtiAdd, Ascending, ParkedIn, SlotVals, Dl, Ues, UsersOk, Ul;
      ghost var d, sl := Dl(), SlotVals();
      UsersComeLast(d, ttiRx, []);
      var o;
      s, o := StartTti(ttiRx);
      SlotsOfPass(sl, ttiRx, DlPass(d, ttiRx, []), Ul(), ueDb.Keys, SlotVals()[Index(ttiRx)]);
      if o == Success {
        ParkMsg3(s, ttiRx);
      }
    }

    /** The downlink pass of reception TTI `ttiRx`. */
    method DlTti(ttiRx: nat)
      requires Valid() && ttiRx < RING
      requires NoDl(Bind(SlotVals(), ttiRx)[Index(ttiRx)])
      requires ra.pendingRars != [] ==> ra.pendingRars[0].grants != []
      requires Room(dl[..][ttiRx := false], At(TtiAdd(ttiRx, DL_DELAY), 5)) >= 14
      modifies `lastAlloc, `allocActive, slots, dl, ul, bc`sib1SfIdx, ra, ueDb.Values
      ensures Valid()
      ensures var out := DlPass(old(Dl()), ttiRx, old(Requests(TtiAdd(ttiRx, DL_DELAY))));
              && Dl() == out.next && Ues() == AfterGrants(old(Ues()), out.data)
              && Ul() == Parked(old(SlotVals()), old(Ul()), ttiRx, out, ueDb.Keys).ul
              && SlotVals() == AfterPass(old(SlotVals()), old(Ul()), ttiRx, out, ueDb.Keys)
    {
      hide ContiguousWindows, UsersOk, Ues, Index, Bind, DlPass, AfterPass, Parked, TtiAdd, Ascending;
      hide AfterGrants, VisitUsers, Requests, Room;
      ghost var d, sl, u, reqs := Dl(), SlotVals(), Ul(), Requests(TtiAdd(ttiRx, DL_DELAY));
      PassInTwoParts(d, sl, u, ttiRx, reqs, ueDb.Keys);
      var s := DlCommon(ttiRx);
      SameRequests();
      DlUsers(s, Index(ttiRx));
    }

    /** The users' part of a downlink pass. */
    method DlUsers(s: SfSched, ghost i: nat)
      requires Valid() && i < N_SLOTS && s == slots[i] && s.dataAllocs == []
      requires Room(Dl().table, At(s.TtiTxDl(), 5)) > 3
      modifies `lastAlloc, `allocActive, s`dataAllocs, dl, ueDb.Values
      ensures Valid()
      ensures var u := VisitUsers(UserState(old(Dl().table), old(Dl().throttle), [], []), s.TtiTxDl(), old(Requests(s.TtiTxDl())));
              && Dl() == old(Dl()).(table := u.table, throttle := u.throttle) && Ues() == AfterGrants(old(Ues()), u.data)
              && SlotVals() == old(SlotVals())[i := old(SlotVals())[i].(data := u.data)]
    {
      hide ContiguousWindows, UsersOk, Ues, Index, TtiAdd, Ascending, AfterGrants, VisitUsers, Requests, Room;
      assert SlotVals()[i] == s.Val();
      SchedUsersDl(s);
      OneSlotChanged(i);
    }

    // ---------------------------------------------------------------- uplink users

    /** The uplink table, the slot and the records agree with the part `v` of an uplink pass. */
    ghost predicate UlSoFar(slot: SfSched, v: UlVisit)
      requires Fixed() && UsersOk()
      reads this, ueDb.Values, ul, bc.sib1Sfn, slot
    {
      Ul() == v.ul && slot.ulAllocs == v.allocs && Ues() == v.ues
    }

    /** Tries to give one user a grant for the data it has reported, which starts its buffer reports over. */
    method AllocateUserNewTx(user: SchedUe, slot: SfSched)
      requires Fixed() && slot in slots && user.Valid()
      modifies slot`ulAllocs, ul, user
      ensures user.Valid()
      ensures var one := UlVisit(old(Ul()), old(slot.ulAllocs), map[user.rnti := old(user.Val())]);
              var w := VisitUl(dl[..], one, slot.ttiRx, user.rnti);
              Ul() == w.ul && slot.ulAllocs == w.allocs && user.Val() == w.ues[user.rnti]
    {
      hide AllocNewTx, ContiguousWindows, PendingUl;
      var has := slot.IsUlAlloc(user);
      if has { return; }
      var pending := user.GetPendingUlNewData();
      if pending > 0 {
        var o := slot.AllocUl(user, NewTx, 0, 0);
        if o == Success {
          user.UlBufferState(0, 0, true);
          user.UlBufferState(3, 0, true);
        }
      }
    }

    /** One visit of an uplink pass that has come to `v`. */
    method VisitInUlPass(rnti: nat, slot: SfSched, ghost v: UlVisit) returns (ghost w: UlVisit)
      requires Valid() && slot in slots && rnti in ueDb && UlSoFar(slot, v)
      modifies slot`ulAllocs, ul, ueDb[rnti]
      ensures Valid() && UlSoFar(slot, w) && UesOk(v.ues) && rnti in v.ues
      ensures w == VisitUl(dl[..], v, slot.ttiRx, rnti)
    {
      hide VisitUl, Ascending, ContiguousWindows;
      w := VisitUl(dl[..], v, slot.ttiRx, rnti);
      OneUlVisit(dl[..], v, slot.ttiRx, rnti);
      label L:
      AllocateUserNewTx(ueDb[rnti], slot);
      OneUserChanged@L(rnti);
    }

    /** Visits every user once, in round-robin order. */
    method SchedUsersUl(slot: SfSched)
      requires Valid() && slot in slots
      modifies slot`ulAllocs, ul, ueDb.Values
      ensures Valid()
      ensures var v := VisitsUl(dl[..], UlVisit(old(Ul()), old(slot.ulAllocs), old(Ues())), slot.ttiRx, RoundRobin(order, slot.TtiTxUl()));
              UlSoFar(slot, v)
    {
      hide VisitUl, VisitsUl, RoundRobin, Ascending, TtiAdd, ContiguousWindows;
      ghost var v0 := UlVisit(Ul(), slot.ulAllocs, Ues());
      assert UlSoFar(slot, v0);
      WalkUsersUl(slot, v0);
    }

    /** The walk over the user table, from the entry the TTI selects and wrapping at the end. */
    method WalkUsersUl(slot: SfSched, ghost v0: UlVisit)
      requires Valid() && slot in slots && UlSoFar(slot, v0) && UesOk(v0.ues)
      requires var rr := RoundRobin(order, slot.TtiTxUl()); forall k :: 0 <= k < |rr| ==> rr[k] in v0.ues
      modifies slot`ulAllocs, ul, ueDb.Values
      ensures Valid() && UlSoFar(slot, VisitsUl(dl[..], v0, slot.ttiRx, RoundRobin(order, slot.TtiTxUl())))
    {
      hide VisitUl, VisitsUl, RoundRobin, Ascending, UlSoFar, TtiAdd, ContiguousWindows, UesOk, FirstIndex;
      hide UsersOk, Ues;
      var n := |order|;
      var tti := slot.TtiTxUl();
      ghost var rr, t := RoundRobin(order, tti), dl[..];
      NoUlVisits(t, v0, slot.ttiRx);
      var iter: nat := FirstIndex(n, tti);
      var c: nat := 0;
      ghost var p, v := iter, v0;
      assert rr[..0] == [];
      while c < n
        invariant c <= n && iter == if p + c <= n then p + c else p + c - n
        invariant Valid() && ueDb == old(ueDb) && order == old(order) && dl[..] == t
        invariant v == VisitsUl(t, v0, slot.ttiRx, rr[..c])
        invariant UlSoFar(slot, v)
      {
        if iter == n { iter := 0; }
        RoundRobinAt(order, tti, c);
        Listed(iter);
        UlVisitStep(t, v0, slot.ttiRx, rr, c);
        v := VisitInUlPass(order[iter], slot, v);
        iter := iter + 1;
        c := c + 1;
      }
      assert rr[..c] == rr;
    }

    /** The uplink pass of reception TTI `ttiRx`. */
    method UlTti(ttiRx: nat)
      requires Valid() && ttiRx < RING
      modifies slots, ul, ueDb.Values
      ensures Valid()
      ensures var b := Bind(old(SlotVals()), ttiRx); var own := b[Index(ttiRx)];
              var v := VisitsUl(dl[..], UlVisit(old(Ul())[ttiRx := false], own.ul, old(Ues())), ttiRx, RoundRobin(order, TtiAdd(ttiRx, UL_DELAY)));
              && Ul() == v.ul && Ues() == v.ues
              && SlotVals() == b[Index(ttiRx) := own.(ul := v.allocs)]
    {
      hide Index, Bind, VisitsUl, RoundRobin, Ascending, TtiAdd, ContiguousWindows;
      BindKey(SlotVals(), ttiRx);
      var s := GetSfSched(ttiRx);
      assert SlotVals()[Index(ttiRx)] == s.Val();
      ul[ttiRx] := false;
      assert Ul() == old(Ul())[ttiRx := false];
      NoUserChanged();
      label Users:
      SchedUsersUl(s);
      OneSlotChanged@Users(Index(ttiRx));
    }

    // ---------------------------------------------------------------- the user table

    /** Adds a user unless it is known, and sets the directions of its bearers; all else in its record, and
        all other records, stay. */
    method UeCfg(rnti: nat, dirs: seq<Direction>)
      requires Valid() && |dirs| == MAX_LC
      modifies `ueDb, `order, if rnti in ueDb then {ueDb[rnti]} else {}
      ensures Valid() && rnti in ueDb && ueDb == old(ueDb)[rnti := ueDb[rnti]]
      ensures if rnti in old(ueDb) then ueDb[rnti] == old(ueDb)[rnti] else fresh(ueDb[rnti])
      ensures var known := rnti in old(ueDb);
              && order == (if known then old(order) else Insert(old(order), rnti))
              && Ues() == old(Ues())[rnti := Configured(if known then old(Ues())[rnti] else NewUe(rnti), dirs)]
    {
      hide Ascending, Insert, ContiguousWindows, Configured;
      if rnti !in ueDb {
        AddUser(rnti);
      }
      label Added:
      ueDb[rnti].SetCfg(dirs);
      OneUserChanged@Added(rnti);
    }

    method AddUser(rnti: nat)
      requires Valid() && rnti !in ueDb
      modifies `ueDb, `order
      ensures Valid() && rnti in ueDb && fresh(ueDb[rnti]) && ueDb == old(ueDb)[rnti := ueDb[rnti]]
      ensures order == Insert(old(order), rnti) && Ues() == old(Ues())[rnti := NewUe(rnti)]
    {
      hide Ascending, Insert, ContiguousWindows;
      InsertKeeps(order, rnti);
      var u := new SchedUe(rnti);
      ueDb := ueDb[rnti := u];
      order := Insert(order, rnti);
    }

    /** Removes a user; unknown ones are an error. */
    method UeRem(rnti: nat) returns (ok: bool)
      requires Valid()
      modifies `ueDb, `order
      ensures Valid() && ok == (rnti in old(ueDb)) && ueDb == old(ueDb) - {rnti}
      ensures order == Without(old(order), rnti) && Ues() == old(Ues()) - {rnti}
    {
      hide Ascending, Without, ContiguousWindows;
      ok := rnti in ueDb;
      if ok {
        ueDb := ueDb - {rnti};
        WithoutKeeps(order, rnti);
        order := Without(order, rnti);
      } else {
        WithoutNothing(order, rnti);
      }
    }

    twostate lemma SameRequests()
      requires old(UsersOk()) && UsersOk() && order == old(order) && Ues() == old(Ues())
      ensures forall tti :: Requests(tti) == old(Requests(tti))
    {
    }
  }

  /** A visit looks at one record only. */
  lemma OneUlVisit(dl: Table, v: UlVisit, ttiRx: nat, rnti: nat)
    requires UesOk(v.ues) && rnti in v.ues
    ensures var w := VisitUl(dl, UlVisit(v.ul, v.allocs, map[rnti := v.ues[rnti]]), ttiRx, rnti);
            VisitUl(dl, v, ttiRx, rnti) == UlVisit(w.ul, w.allocs, v.ues[rnti := w.ues[rnti]])
  {
    hide AllocNewTx, PendingUl, ClearReports;
  }

  ghost predicate AreAsks(asks: seq<DlReq>, ues: map<nat, UeState>, users: seq<nat>) {
    && (forall k :: 0 <= k < |users| ==> users[k] in ues && |ues[users[k]].lch| == MAX_LC)
    && asks == Asks(ues, users)
  }

  lemma AsksLength(asks: seq<DlReq>, ues: map<nat, UeState>, users: seq<nat>)
    requires AreAsks(asks, ues, users)
    ensures |asks| == |users|
  {
  }

  lemma AskAt(order: seq<nat>, tti: nat, c: nat, asks: seq<DlReq>, ues: map<nat, UeState>)
    requires c < |order| == |asks| && AreAsks(asks, ues, RoundRobin(order, tti))
    ensures var p := FirstIndex(|order|, tti); var r := order[if p + c < |order| then p + c else p + c - |order|];
            r in ues && |ues[r].lch| == MAX_LC && asks[c] == DlReq(r, Requested(ues[r]).min, Requested(ues[r]).max)
  {
    hide Requested;
    RoundRobinAt(order, tti, c);
  }

  /** Where the walk over `n` users starts. */
  function FirstIndex(n: nat, tti: nat): (i: nat)
    ensures if n == 0 then i == 0 else i < n
  {
    if n == 0 then 0 else tti % n
  }

  lemma RoundRobinAt(users: seq<nat>, tti: nat, c: nat)
    requires c < |users|
    ensures var p := FirstIndex(|users|, tti);
            RoundRobin(users, tti)[c] == users[if p + c < |users| then p + c else p + c - |users|]
  {
    RoundRobinIsFair(users, tti);
    WrapIndex(tti % |users|, c, |users|);
  }

  lemma BindKey(slots: Slots, tti: nat)
    ensures Bind(slots, tti)[Index(tti)].ttiRx == tti
    ensures forall i :: 0 <= i < N_SLOTS && i != Index(tti) ==> Bind(slots, tti)[i] == slots[i]
  {
  }

  /** The slots after a pass without users, put together from its steps: `own` is the slot after the
      cell-wide part. */
  lemma SlotsOfPass(slots: Slots, ttiRx: nat, out: DlOut, ul: Table, users: set<nat>, own: Slot)
    requires out.data == []
    requires var b := Bind(slots, ttiRx)[Index(ttiRx)]; NoDl(b) && own == b.(bc := out.bc, rar := RarList(out.rar))
    ensures var s2 := Bind(slots, ttiRx)[Index(ttiRx) := own]; var at := ttiRx + MSG3_DELAY;
            && Parked(s2, ul, ttiRx, out, users) == Parked(slots, ul, ttiRx, out, users)
            && AfterPass(slots, ul, ttiRx, out, users)
               == if out.rarDone then PushUl(Bind(s2, at), at, Parked(s2, ul, ttiRx, out, users).allocs) else s2
  {
    hide ParkedIn, Index;
    NeighboursApart(ttiRx);
    var t := Tti(out.bc, RarList(out.rar), out.data, out.rarDone, Parked(slots, ul, ttiRx, out, users).allocs, []);
    assert FillDl(Bind(slots, ttiRx), ttiRx, t)[Index(ttiRx)] == own;
  }

  /** The users come last, on what the cell-wide part has left. */
  lemma UsersComeLast(d: DlState, ttiRx: nat, reqs: seq<DlReq>)
    requires ttiRx < RING
    ensures var tti := TtiAdd(ttiRx, DL_DELAY); var out0, out := DlPass(d, ttiRx, []), DlPass(d, ttiRx, reqs);
            var u := VisitUsers(UserState(out0.next.table, d.throttle, [], []), tti, reqs);
            && out0.data == [] && out0.next.throttle == d.throttle
            && out.next == out0.next.(table := u.table, throttle := u.throttle)
            && out.data == u.data && out.bc == out0.bc && out.rar == out0.rar && out.rarDone == out0.rarDone
  {
    hide BcMarks, RaPass, RaMarks, Reserve, VisitUser, IsSib1Part, NextSib1Idx, TtiAdd;
  }

  /** A pass is the cell-wide part and then the users on what that part has left. */
  lemma PassInTwoParts(d: DlState, slots: Slots, ul: Table, ttiRx: nat, reqs: seq<DlReq>, users: set<nat>)
    requires ttiRx < RING && NoDl(Bind(slots, ttiRx)[Index(ttiRx)])
    requires Room(d.table[ttiRx := false], At(TtiAdd(ttiRx, DL_DELAY), 5)) >= 14
    ensures var out0, out := DlPass(d, ttiRx, []), DlPass(d, ttiRx, reqs);
            var u := VisitUsers(UserState(out0.next.table, out0.next.throttle, [], []), TtiAdd(ttiRx, DL_DELAY), reqs);
            var s := AfterPass(slots, ul, ttiRx, out0, users);
            && Room(out0.next.table, At(TtiAdd(ttiRx, DL_DELAY), 5)) > 3
            && out.next == DlState(u.table, out0.next.sib1Idx, out0.next.rars, u.throttle) && out.data == u.data
            && Parked(slots, ul, ttiRx, out, users).ul == Parked(slots, ul, ttiRx, out0, users).ul
            && AfterPass(slots, ul, ttiRx, out, users) == s[Index(ttiRx) := s[Index(ttiRx)].(data := out.data)]
  {
    hide DlPass, Room, At, TtiAdd, Bind, Index, Parked, AfterPass, VisitUsers, NoDl;
    RoomAfterCommon(d, ttiRx);
    UsersComeLast(d, ttiRx, reqs);
    UsersFillTheirSlot(slots, ul, ttiRx, DlPass(d, ttiRx, []), DlPass(d, ttiRx, reqs), users);
  }

  lemma RoomAfterCommon(d: DlState, ttiRx: nat)
    requires ttiRx < RING
    requires Room(d.table[ttiRx := false], At(TtiAdd(ttiRx, DL_DELAY), 5)) >= 14
    ensures Room(DlPass(d, ttiRx, []).next.table, At(TtiAdd(ttiRx, DL_DELAY), 5)) > 3
  {
    hide Room, At, TtiAdd, BcMarks, RaPass, RaMarks, Reserve, VisitUser, IsSib1Part, NextSib1Idx;
    RoomForUsers(d, ttiRx, TtiAdd(ttiRx, DL_DELAY));
  }

  lemma UsersFillTheirSlot(slots: Slots, ul: Table, ttiRx: nat, out0: DlOut, out: DlOut, users: set<nat>)
    requires out0.data == [] && NoDl(Bind(slots, ttiRx)[Index(ttiRx)])
    requires out.bc == out0.bc && out.rar == out0.rar && out.rarDone == out0.rarDone
    ensures Parked(slots, ul, ttiRx, out, users) == Parked(slots, ul, ttiRx, out0, users)
    ensures var s := AfterPass(slots, ul, ttiRx, out0, users);
            AfterPass(slots, ul, ttiRx, out, users) == s[Index(ttiRx) := s[Index(ttiRx)].(data := out.data)]
  {
    hide ParkedIn, Index;
    NeighboursApart(ttiRx);
    var p := Parked(slots, ul, ttiRx, out, users).allocs;
    var t0 := Tti(out.bc, RarList(out.rar), [], out.rarDone, p, []);
    var b := Bind(slots, ttiRx);
    var f0, f := FillDl(b, ttiRx, t0), FillDl(b, ttiRx, t0.(data := out.data));
    assert f[Index(ttiRx)] == f0[Index(ttiRx)].(data := out.data);
    assert f == f0[Index(ttiRx) := f0[Index(ttiRx)].(data := out.data)];
  }

  /** Broadcast takes at most eight subframes and a RAR two, so a grant still finds its three. */
  lemma RoomForUsers(d: DlState, ttiRx: nat, tti: nat)
    requires ttiRx < RING && tti < RING
    requires Room(d.table[ttiRx := false], At(tti, 5)) >= 14
    ensures Room(Reserve(AfterBc(d, ttiRx, tti), tti, Offsets(RaMarks(tti, RaPart(d, ttiRx, tti)))), At(tti, 5)) > 3
  {
    hide Room, At, Reserve, RaPass, RarDataOffset, IsSib1Sf, IsValidDlSf, IsSib2Start, Sib2Offsets;
    if IsSib2Start(tti) { Sib2Span(tti); }
    RoomAfterReserve(d.table[ttiRx := false], At(tti, 5), tti, Offsets(BcPart(d, ttiRx, tti)));
    RoomAfterReserve(AfterBc(d, ttiRx, tti), At(tti, 5), tti, Offsets(RaMarks(tti, RaPart(d, ttiRx, tti))));
  }

  lemma NoVisits(u: UserState, tti: nat)
    requires tti < RING
    ensures VisitUsers(u, tti, []) == u
  {
  }

  lemma VisitStep(u: UserState, tti: nat, reqs: seq<DlReq>, c: nat)
    requires tti < RING && c < |reqs|
    ensures VisitUsers(u, tti, reqs[..c + 1]) == VisitUser(VisitUsers(u, tti, reqs[..c]), tti, reqs[c])
  {
    hide VisitUser;
    assert reqs[..c + 1][..c] == reqs[..c];
  }

  lemma NoGrants(ues: map<nat, UeState>)
    requires forall r :: r in ues ==> |ues[r].lch| == MAX_LC
    ensures AfterGrants(ues, []) == ues
  {
  }

  /** Room for a grant lasts until the pass has granted one. */
  lemma CanAsk(u0: UserState, u: UserState, tti: nat, reqs: seq<DlReq>)
    requires tti < RING && u0.data == [] && u == VisitUsers(u0, tti, reqs)
    requires Room(u0.table, At(tti, 5)) > 3
    ensures u.throttle.active || Room(u.table, At(tti, 5)) > 3
  {
    hide Room, At;
    OneUserPerPass(u0, tti, reqs);
  }

  lemma VisitData(u: UserState, tti: nat, req: DlReq)
    requires tti < RING
    ensures var v := VisitUser(u, tti, req); v.data == u.data || v.data == u.data + [DlAlloc(req.rnti, ISf(req.max))]
  {
    hide UserMarks, Reserve, UserCanStart, Expired;
  }

  lemma GrantsStep(ues: map<nat, UeState>, data: seq<DlAlloc>, more: seq<DlAlloc>)
    requires forall r :: r in ues ==> |ues[r].lch| == MAX_LC
    requires more == data || (|more| == |data| + 1 && more[..|data|] == data && more[|data|].rnti in ues)
    ensures AfterGrants(ues, more) == if more == data then AfterGrants(ues, data)
            else AfterGrants(ues, data)[more[|data|].rnti := Granted(AfterGrants(ues, data)[more[|data|].rnti])]
  {
  }
}
