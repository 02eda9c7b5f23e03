/** The objects that hold the user tables, each changed in place by its own methods. */
module EnbStack {
  import opened Lifecycle

  /** The scheduler's user table (what it stores per user is in `SchedulerUe`). */
  class SchedTable {
    var ueDb: set<nat>

    constructor ()
      ensures ueDb == {}
    {
      ueDb := {};
    }

    method UeCfg(rnti: nat)
      modifies this
      ensures ueDb == old(ueDb) + {rnti}
    {
      if rnti !in ueDb { ueDb := ueDb + {rnti}; }
    }

    method UeRem(rnti: nat) returns (ok: bool)
      modifies this
      ensures ok == (rnti in old(ueDb)) && ueDb == old(ueDb) - {rnti}
    {
      ok := rnti in ueDb;
      if ok { ueDb := ueDb - {rnti}; }
    }
  }

  /** The user table of RLC or PDCP. */
  class UserTable {
    var users: set<nat>

    constructor ()
      ensures users == {}
    {
      users := {};
    }

    method AddUser(rnti: nat)
      modifies this
      ensures users == old(users) + {rnti}
    {
      if rnti !in users { users := users + {rnti}; }
    }

    method RemUser(rnti: nat)
      modifies this
      ensures users == old(users) - {rnti}
    {
      if rnti in users { users := users - {rnti}; }
    }
  }

  class Mac {
    const scheduler: SchedTable
    var ueDb: set<nat>
    var lastRnti: nat
    var stackTaskQueue: seq<nat>

    constructor (scheduler: SchedTable)
      ensures this.scheduler == scheduler && ueDb == {} && lastRnti == FIRST_RNTI && stackTaskQueue == []
    {
      this.scheduler := scheduler;
      ueDb, lastRnti, stackTaskQueue := {}, FIRST_RNTI, [];
    }

    method AllocateRnti() returns (rnti: nat)
      modifies `lastRnti
      ensures rnti == old(lastRnti) && lastRnti == NextRnti(old(lastRnti))
    {
      rnti := lastRnti;
      lastRnti := lastRnti + 1;
      if lastRnti >= 60000 { lastRnti := 4097; }
    }

    /** Creates the user at once and leaves its registration with the other layers to the stack. */
    method RachDetected()
      modifies this
      ensures lastRnti == NextRnti(old(lastRnti))
      ensures ueDb == old(ueDb) + {old(lastRnti)} && stackTaskQueue == old(stackTaskQueue) + [old(lastRnti)]
    {
      var rnti := AllocateRnti();
      ueDb := ueDb + {rnti};
      stackTaskQueue := stackTaskQueue + [rnti];
    }

    method UeCfg(rnti: nat) returns (ok: bool)
      modifies scheduler
      ensures ok == (rnti in ueDb) && scheduler.ueDb == old(scheduler.ueDb) + if ok then {rnti} else {}
    {
      ok := rnti in ueDb;
      if ok { scheduler.UeCfg(rnti); }
    }

    method UeRem(rnti: nat) returns (ok: bool)
      modifies `ueDb, scheduler
      ensures ok == (rnti in old(ueDb)) && ueDb == old(ueDb) - {rnti}
      ensures scheduler.ueDb == old(scheduler.ueDb) - if ok then {rnti} else {}
    {
      ok := rnti in ueDb;
      if ok {
        var found := scheduler.UeRem(rnti);
        ueDb := ueDb - {rnti};
      }
    }
  }

  class Rrc {
    const mac: Mac
    const rlc: UserTable
    const pdcp: UserTable
    var users: map<nat, State>
    var rxPduQueue: seq<Pdu>
    /** Calls of RLC's `clear_buffer` and release messages to users. */
    var sent: seq<Farewell>

    ghost predicate Valid() {
      rlc != pdcp
    }

    ghost function Val(): Tables
      reads this, mac, mac.scheduler, rlc, pdcp
    {
      Tables(mac.lastRnti, mac.ueDb, mac.stackTaskQueue, mac.scheduler.ueDb, rlc.users, pdcp.users, users, rxPduQueue, sent)
    }

    constructor ()
      ensures Valid() && Val() == EmptyTables() && fresh(mac) && fresh(mac.scheduler) && fresh(rlc) && fresh(pdcp)
    {
      var s := new SchedTable();
      mac := new Mac(s);
      rlc := new UserTable();
      pdcp := new UserTable();
      users, rxPduQueue, sent := map[], [], [];
    }

    method AddUser(rnti: nat)
      requires Valid()
      modifies `users, rlc, pdcp
      ensures Val() == Lifecycle.AddUser(old(Val()), rnti)
    {
      if rnti !in users {
        if rnti != MRNTI { users := users[rnti := Idle]; }
        rlc.AddUser(rnti);
        pdcp.AddUser(rnti);
      }
    }

    /** Runs the oldest random access task of MAC. */
    method RunTask()
      requires Valid()
      modifies `users, mac`stackTaskQueue, mac.scheduler, rlc, pdcp
      ensures Val() == Lifecycle.RunTask(old(Val()))
    {
      if |mac.stackTaskQueue| > 0 {
        var rnti := mac.stackTaskQueue[0];
        mac.stackTaskQueue := mac.stackTaskQueue[1..];
        mac.scheduler.UeCfg(rnti);
        AddUser(rnti);
      }
    }

    method WritePdu(p: Pdu)
      modifies `rxPduQueue
      ensures Val() == Push(old(Val()), p)
    {
      rxPduQueue := rxPduQueue + [p];
    }

    method RemUserThread(rnti: nat)
      modifies `rxPduQueue
      ensures Val() == Push(old(Val()), RemUserCmd(rnti))
    {
      rxPduQueue := rxPduQueue + [RemUserCmd(rnti)];
    }

    method ReleaseComplete(rnti: nat)
      modifies `rxPduQueue
      ensures Val() == Push(old(Val()), RelUserCmd(rnti))
    {
      rxPduQueue := rxPduQueue + [RelUserCmd(rnti)];
    }

    /** Clears RLC's buffer and sends a release message. */
    method SendConnectionRelease(rnti: nat)
      modifies `sent
      ensures sent == old(sent) + [ClearBuffer(rnti), ConnectionRelease(rnti)]
    {
      sent := sent + [ClearBuffer(rnti)];
      sent := sent + [ConnectionRelease(rnti)];
    }

    /** A release acknowledged by the core network: a connected user is told; the removal itself goes through
        the queue. */
    method ProcessReleaseComplete(rnti: nat)
      modifies `rxPduQueue, `sent
      ensures Val() == if rnti in users then Release(old(Val()), rnti) else old(Val())
    {
      if rnti in users {
        if !users[rnti].Idle? { SendConnectionRelease(rnti); }
        RemUserThread(rnti);
      }
    }

    method RemUser(rnti: nat)
      requires Valid()
      modifies `users, mac`ueDb, mac.scheduler, rlc, pdcp
      ensures Val() == RemoveUser(old(Val()), rnti)
    {
      if rnti in users {
        var found := mac.UeRem(rnti);
        rlc.RemUser(rnti);
        pdcp.RemUser(rnti);
        users := users - {rnti};
      }
    }

    /** A connection request sets the user up, which tells the scheduler about its bearers. */
    method ParseUlCcch(rnti: nat, isConnRequest: bool)
      requires rnti in users
      modifies `users, mac.scheduler
      ensures Val() == if isConnRequest then
                         var u := MacCfg(old(Val()), rnti); u.(rrc := u.rrc[rnti := WaitForConSetupComplete])
                       else old(Val())
    {
      if isConnRequest {
        var ok := mac.UeCfg(rnti);
        users := users[rnti := WaitForConSetupComplete];
      }
    }

    method ParseUlDcch(rnti: nat, isSetupComplete: bool)
      requires rnti in users
      modifies `users
      ensures Val() == if isSetupComplete then old(Val()).(rrc := old(Val()).rrc[rnti := WaitForConReconfComplete]) else old(Val())
    {
      if isSetupComplete { users := users[rnti := WaitForConReconfComplete]; }
    }

    /** Handles queued entries, including those that handling adds, until none is left. */
    method TtiClock()
      requires Valid()
      modifies this, mac`ueDb, mac.scheduler, rlc, pdcp
      ensures Val() == Drain(old(Val()))
    {
      hide RemoveUser, MacCfg;
      while |rxPduQueue| > 0
        invariant Drain(Val()) == Drain(old(Val()))
        decreases Weight(rxPduQueue)
      {
        HandleShrinks(Val());
        HandleOne();
      }
    }

    method HandleOne()
      requires Valid() && rxPduQueue != []
      modifies this, mac`ueDb, mac.scheduler, rlc, pdcp
      ensures Val() == Handle(old(Val()))
    {
      hide RemoveUser, MacCfg;
      var p := rxPduQueue[0];
      rxPduQueue := rxPduQueue[1..];
      if p.rnti !in users { return; }
      match p
      case Ccch(rnti, ok) => ParseUlCcch(rnti, ok);
      case Dcch(rnti, ok) => ParseUlDcch(rnti, ok);
      case RemUserCmd(rnti) => RemUser(rnti);
      case RelUserCmd(rnti) => ProcessReleaseComplete(rnti);
      case BadBearer(_) =>
    }
  }
}
