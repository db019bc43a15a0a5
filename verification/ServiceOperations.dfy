/** The service operations as the program runs them: each method body is the program's own sequence of
    database calls, with other requests and the syncer free to act before every call. What the calls run into
    is given by the caller. Each method is proved to be a run of the protocol, so everything proved about runs
    holds of it. */
module ServiceOperations {
  import opened Rows
  import opened Schema
  import opened SortedView
  import opened Options
  import opened Protocol
  import opened Integrity
  import opened Effects
  import opened Freshness
  import opened Replies
  import opened Requests
  import opened Interference
  import opened Ticks

  /** Request `me` commits at `j`, and its commit puts `row` at the end of the service table. */
  ghost predicate AppendedBy(mode: ZeroRows, es: seq<Event>, j: nat, me: nat, row: Service) {
    && CommitAt(mode, es, j) && es[j].tid == me
    && After(mode, es[..j + 1]).db.services == After(mode, es[..j]).db.services + [row]
  }

  /** It does so at `start` or later. */
  ghost predicate Appended(mode: ZeroRows, es: seq<Event>, start: nat, me: nat, row: Service) {
    exists j: nat :: start <= j < |es| && AppendedBy(mode, es, j, me, row)
  }

  predicate Holding(tasks: map<nat, Task>, me: nat, task: Task) {
    me in tasks && tasks[me] == task
  }

  lemma CreationCommits(mode: ZeroRows, s: State, me: nat, name: string, description: string, fault: Fault)
    requires Holding(s.tasks, me, Task(Op.CreateService(name, description), Write))
    requires Execute(mode, s.db, Op.CreateService(name, description), fault).1 == OK
    ensures ServiceCommit(mode, s, Client(me, fault))
    ensures Apply(mode, s, Client(me, fault)).db.services
         == s.db.services + [Service(s.db.nextId, name, description, 0, false)]
  {
  }

  lemma CreationAppends(mode: ZeroRows, es: seq<Event>, start: nat, me: nat, name: string, description: string,
                        fault: Fault)
    requires start <= |es| && Holding(After(mode, es).tasks, me, Task(Op.CreateService(name, description), Write))
    requires Execute(mode, After(mode, es).db, Op.CreateService(name, description), fault).1 == OK
    ensures Appended(mode, es + [Client(me, fault)], start, me,
                     Service(After(mode, es).db.nextId, name, description, 0, false))
  {
    var s, e := After(mode, es), Client(me, fault);
    var longer, row := es + [e], Service(s.db.nextId, name, description, 0, false);
    CreationCommits(mode, s, me, name, description, fault);
    AfterNext(mode, es, e);
    assert longer[..|es|] == es && longer[|es|] == e;
    assert longer[..|es| + 1] == longer;
    assert CommitAt(mode, longer, |es|);
    assert AppendedBy(mode, longer, |es|, me, row);
  }

  lemma AppendStays(mode: ZeroRows, es: seq<Event>, longer: seq<Event>, start: nat, later: nat, me: nat, row: Service)
    requires Appended(mode, es, later, me, row) && start <= later && es <= longer
    ensures Appended(mode, longer, start, me, row)
  {
    var j: nat :| later <= j < |es| && AppendedBy(mode, es, j, me, row);
    assert longer[..j] == es[..j] && longer[..j + 1] == es[..j + 1];
    assert AppendedBy(mode, longer, j, me, row);
  }

  /** One request: the run it arrived in, its id, what it asks for and what its calls will run into. */
  datatype Call = Call(since: seq<Event>, me: nat, op: Op, faults: Faults)

  class Operations {
    const mode: ZeroRows
    var db: Database
    var toRefreshViews: bool
    ghost var run: seq<Event>

    ghost predicate Holds(s: State)
      reads this
    {
      db == s.db && toRefreshViews == s.flag && !s.syncer.Down?
    }

    /** The fields are where the run has led, and the process is up. */
    ghost predicate Valid()
      reads this
    {
      Holds(After(mode, run))
    }

    /** The call has come as far as `pc`, by its script and no other way. */
    ghost predicate At(call: Call, pc: Pc)
      reads this
    {
      && Holds(After(mode, run)) && Holding(After(mode, run).tasks, call.me, Task(call.op, pc))
      && call.me !in After(mode, call.since).tasks
      && Follows(call.since, run, call.me, call.op, call.faults, pc)
    }

    constructor (mode: ZeroRows, db: Database, ghost past: seq<Event>)
      requires After(mode, past).syncer.Down? && After(mode, past).db == db
      ensures Valid() && run == past + [Start] && this.mode == mode
      ensures After(mode, run).syncer == Booting(0) && !toRefreshViews
    {
      this.mode, this.db, toRefreshViews, run := mode, db, false, past + [Start];
      AfterNext(mode, past, Start);
    }

    // Interference and bookkeeping

    /** Others act; what they do is known only by ByOthers. */
    method Interfere(ghost me: nat)
      requires Valid()
      modifies this
      ensures Valid() && ByOthers(mode, old(run), run, me)
    {
    }

    method Wait(ghost call: Call, ghost pc: Pc)
      requires At(call, pc)
      modifies this
      ensures At(call, pc) && old(run) <= run
    {
      Interfere(call.me);
      OthersKeepTask(mode, old(run), run, call.me);
      FollowsMeanwhile(mode, call.since, old(run), run, call.me, call.op, call.faults, pc);
    }

    /** The request takes the next step of its script. */
    ghost method Advance(call: Call, pc: Pc, pc': Pc, fault: Fault)
      requires At(call, pc) && !pc.Finished? && StepsTaken(call.op, pc) < |Script(call.me, call.op, call.faults)|
      requires Script(call.me, call.op, call.faults)[StepsTaken(call.op, pc)] == Client(call.me, fault)
      requires pc'.Finished? || StepsTaken(call.op, pc') == StepsTaken(call.op, pc) + 1
      modifies this`run
      ensures run == old(run) + [Client(call.me, fault)]
      ensures After(mode, run) == ClientStep(mode, old(After(mode, run)), call.me, fault)
      ensures Follows(call.since, run, call.me, call.op, call.faults, pc')
    {
      AfterNext(mode, run, Client(call.me, fault));
      FollowsNext(call.since, run, call.me, call.op, call.faults, pc, pc');
      run := run + [Client(call.me, fault)];
    }

    /** The request arrives; its id is new to the process. */
    ghost method Arrive(call: Call)
      requires Valid() && run == call.since && call.me !in After(mode, run).tasks
      modifies this`run
      ensures At(call, Check) && old(run) <= run
    {
      AfterNext(mode, run, Begin(call.me, call.op));
      assert run[|run|..] == [];
      DidNext(run, run, call.me, [], Begin(call.me, call.op));
      assert Script(call.me, call.op, call.faults)[..1] == [Begin(call.me, call.op)];
      run := run + [Begin(call.me, call.op)];
    }

    /** The existence check: others act, then the database answers from the state it is in. */
    method Query(ghost call: Call)
      requires At(call, Check)
      modifies this
      ensures At(call, AfterCheck(db, call.op, call.faults.check)) && old(run) <= run
    {
      Wait(call, Check);
      Advance(call, Check, AfterCheck(db, call.op, call.faults.check), call.faults.check);
    }

    /** The query for a rival name. */
    method QueryName(ghost call: Call)
      requires At(call, CheckName) && call.op.UpdateService?
      modifies this
      ensures At(call, AfterCheckName(db, call.op, call.faults.checkName)) && old(run) <= run
    {
      Wait(call, CheckName);
      Advance(call, CheckName, AfterCheckName(db, call.op, call.faults.checkName), call.faults.checkName);
    }

    /** The database hands over the outcome of the write: the committed state and the answer. */
    method Land(ghost call: Call, committed: Database, ghost reply: Reply)
      requires At(call, Write) && (committed, reply) == Execute(mode, db, call.op, call.faults.write)
      modifies this`db, this`run
      ensures At(call, if reply == OK && AsksForRefresh(call.op) then SetFlag else Finished(reply))
      ensures run == old(run) + [Client(call.me, call.faults.write)]
    {
      var pc := if reply == OK && AsksForRefresh(call.op) then SetFlag else Finished(reply);
      Advance(call, Write, pc, call.faults.write);
      db := committed;
    }

    method AskForRefresh(ghost call: Call)
      requires At(call, SetFlag) && !call.op.UpdateVersion?
      modifies this
      ensures At(call, Finished(OK)) && old(run) <= run
    {
      Wait(call, SetFlag);
      Advance(call, SetFlag, Finished(OK), NoFault);
      toRefreshViews := true;
    }

    /** An answered request has succeeded exactly if it committed. */
    lemma Answered(call: Call, reply: Reply)
      requires At(call, Finished(reply)) && AsksForRefresh(call.op)
      ensures reply == OK <==> exists j: nat :: CommitBy(mode, run, j, call.me)
    {
      SuccessIffCommitted(mode, run, call.me);
    }

    method InterfereClients()
      requires Valid()
      modifies this
      ensures Valid() && ByClients(old(run), run)
    {
    }

    /** Clients act; what they do is known only by ByClients. */
    method WaitForClients()
      requires Valid()
      modifies this
      ensures Valid() && ByClients(old(run), run)
      ensures After(mode, run).syncer == old(After(mode, run).syncer)
      ensures old(toRefreshViews) ==> toRefreshViews
      ensures ViewPoint(mode, run) == old(ViewPoint(mode, run)) && Synced(old(run), run, [])
    {
      InterfereClients();
      ClientsKeepSyncer(mode, old(run), run);
    }

    // Operations

    /** The insert of CreateService. */
    method InsertNewService(ghost call: Call, name: string, description: string, fault: Fault)
      returns (service: Option<Service>, reply: Reply)
      requires At(call, Write) && call.op == Op.CreateService(name, description) && fault == call.faults.write
      modifies this
      ensures At(call, if reply == OK then SetFlag else Finished(reply))
      ensures old(run) < run && (service.Some? <==> reply == OK)
      ensures service.Some? ==> service.value == Service(service.value.id, name, description, 0, false)
      ensures service.Some? ==> Appended(mode, run, |old(run)|, call.me, service.value)
    {
      service, reply := None, ErrInternal;
      Wait(call, Write);
      var newService := Service(db.nextId, name, description, 0, false);
      var created := InsertService(db, name, description);
      if !fault.NoFault? || created.Failed? {
        if fault.NoFault? && created.error == DuplicateKey {
          reply := ErrServiceAlreadyExists;
        }
        Land(call, db, reply);
        return;
      }
      service, reply := Some(newService), OK;
      CreationAppends(mode, run, |old(run)|, call.me, name, description, fault);
      Land(call, created.db, reply);
    }

    method CreateService(ghost me: nat, name: string, description: string, faults: Faults)
      returns (service: Option<Service>, reply: Reply)
      requires Valid() && me !in After(mode, run).tasks
      modifies this
      ensures Valid() && Served(mode, old(run), run, me, Op.CreateService(name, description), faults, reply)
      ensures service.Some? <==> reply == OK
      ensures service.Some? ==> service.value == Service(service.value.id, name, description, 0, false)
      ensures service.Some? ==> Appended(mode, run, |old(run)|, me, service.value)
    {
      ghost var call := Call(run, me, Op.CreateService(name, description), faults);
      service, reply := None, ErrInternal;
      Arrive(call);
      Query(call);
      if !faults.check.NoFault? {
        return;
      }
      var withSameName := |Select(db.services, LiveName(name))|;
      if withSameName == 1 {
        reply := ErrServiceAlreadyExists;
        return;
      }

      ghost var checked := run;
      service, reply := InsertNewService(call, name, description, faults.write);
      if reply == OK {
        ghost var landed := run;
        AskForRefresh(call);
        AppendStays(mode, landed, run, |old(run)|, |checked|, me, service.value);
      }
    }

    /** The update statement of UpdateService. */
    method UpdateRow(ghost call: Call, id: nat, name: string, description: string, fault: Fault) returns (reply: Reply)
      requires At(call, Write) && call.op == Op.UpdateService(id, name, description) && fault == call.faults.write
      modifies this
      ensures At(call, if reply == OK then SetFlag else Finished(reply)) && old(run) <= run
    {
      reply := ErrInternal;
      Wait(call, Write);
      var updated := UpdateServiceRow(mode, db, id, name, description);
      if !fault.NoFault? || updated.Failed? {
        if fault.NoFault? && updated.error == DuplicateKey {
          reply := ErrServiceAlreadyExists;
        } else if fault.NoFault? && updated.error == RecordNotFound {
          reply := ErrServiceDoesNotExist;
        }
        Land(call, db, reply);
        return;
      }
      reply := OK;
      Land(call, updated.db, reply);
    }

    /** The struct returned holds what was asked for, and a zero count. */
    method UpdateService(ghost me: nat, id: nat, name: string, description: string, faults: Faults)
      returns (service: Option<Service>, reply: Reply)
      requires Valid() && me !in After(mode, run).tasks
      modifies this
      ensures Valid() && Served(mode, old(run), run, me, Op.UpdateService(id, name, description), faults, reply)
      ensures service == if reply == OK then Some(Service(id, name, description, 0, false)) else None
    {
      ghost var call := Call(run, me, Op.UpdateService(id, name, description), faults);
      service, reply := None, ErrInternal;
      Arrive(call);
      Query(call);
      if !faults.check.NoFault? {
        return;
      }
      if |Select(db.services, LiveId(id))| == 0 {
        reply := ErrServiceDoesNotExist;
        return;
      }

      QueryName(call);
      if !faults.checkName.NoFault? {
        return;
      }
      if |Select(db.services, LiveOtherWithName(name, id))| == 1 {
        reply := ErrServiceAlreadyExists;
        return;
      }

      reply := UpdateRow(call, id, name, description, faults.write);
      if reply == OK {
        AskForRefresh(call);
        service := Some(Service(id, name, description, 0, false));
      }
    }

    /** The transaction body works on `tx`; only a commit hands it over. */
    method DeleteServiceInTransaction(id: nat, fault: Fault) returns (committed: Database, reply: Reply)
      ensures (committed, reply) == DeleteServiceTx(mode, db, id, fault)
      ensures reply != OK ==> committed == db
      ensures Consistent(db) && reply == OK ==>
        && Picked(db.services, committed.services, (s: Service) => s.id != id)
        && Picked(db.versions, committed.versions, (v: Version) => v.serviceId != id)
    {
      if Consistent(db) {
        if Execute(mode, db, Op.DeleteService(id), fault).1 == OK {
          DeleteServiceKeepsOrder(mode, db, id, fault);
        }
      }
      committed, reply := db, ErrInternal;
      var tx := db;
      if fault.AtBegin? {
        reply := ErrTransaction;
        return;
      }
      if fault.AtFirst? {
        return;
      }
      var versionsGone := RemoveVersionsOf(mode, tx, id);
      if versionsGone.Committed? {
        tx := versionsGone.db;
      } else if versionsGone.error != RecordNotFound {
        return;
      }
      if fault.AtSecond? {
        return;
      }
      var serviceGone := RemoveService(mode, tx, id);
      if serviceGone.Failed? {
        return;
      }
      tx := serviceGone.db;
      if fault.AtCommit? {
        reply := ErrTransaction;
        return;
      }
      committed, reply := tx, OK;
    }

    method DeleteService(ghost me: nat, id: nat, faults: Faults) returns (reply: Reply)
      requires Valid() && me !in After(mode, run).tasks
      modifies this
      ensures Valid() && Served(mode, old(run), run, me, Op.DeleteService(id), faults, reply)
    {
      ghost var call := Call(run, me, Op.DeleteService(id), faults);
      reply := ErrInternal;
      Arrive(call);
      Query(call);
      if !faults.check.NoFault? {
        return;
      }
      if |Select(db.services, LiveId(id))| == 0 {
        reply := ErrServiceDoesNotExist;
        return;
      }

      Wait(call, Write);
      var committed;
      committed, reply := DeleteServiceInTransaction(id, faults.write);
      Land(call, committed, reply);

      if reply == OK {
        AskForRefresh(call);
      }
    }

    method CreateVersionInTransaction(serviceId: nat, versionTag: string, info: string, fault: Fault)
      returns (committed: Database, reply: Reply)
      ensures (committed, reply) == CreateVersionTx(mode, db, serviceId, versionTag, info, fault)
      ensures reply != OK ==> committed == db
      ensures Consistent(db) && reply == OK ==>
        && committed.versions == db.versions + [Version(serviceId, versionTag, info, false)]
        && OnlyCountMoved(db.services, committed.services, serviceId, 1)
    {
      if Consistent(db) {
        CreateVersionEffect(mode, db, serviceId, versionTag, info, fault);
      }
      committed, reply := db, ErrInternal;
      if fault.AtBegin? {
        reply := ErrTransaction;
        return;
      }
      if fault.AtFirst? {
        return;
      }
      var created := InsertVersion(db, serviceId, versionTag, info);
      if created.Failed? {
        if created.error == DuplicateKey {
          reply := ErrVersionAlreadyExists;
        }
        return;
      }
      var tx := created.db;
      if fault.AtSecond? {
        return;
      }
      var bumped := BumpCount(mode, tx, serviceId, 1);
      if bumped.Failed? {
        return;
      }
      tx := bumped.db;
      if fault.AtCommit? {
        reply := ErrTransaction;
        return;
      }
      committed, reply := tx, OK;
    }

    method CreateServiceVersion(ghost me: nat, serviceId: nat, versionTag: string, info: string, faults: Faults)
      returns (version: Option<Version>, reply: Reply)
      requires Valid() && me !in After(mode, run).tasks
      modifies this
      ensures Valid() && Served(mode, old(run), run, me, CreateVersion(serviceId, versionTag, info), faults, reply)
      ensures version == if reply == OK then Some(Version(serviceId, versionTag, info, false)) else None
    {
      ghost var call := Call(run, me, CreateVersion(serviceId, versionTag, info), faults);
      version, reply := None, ErrInternal;
      Arrive(call);
      Query(call);
      if !faults.check.NoFault? {
        return;
      }
      if |Select(db.versions, LiveKey(serviceId, versionTag))| == 1 {
        reply := ErrVersionAlreadyExists;
        return;
      }

      Wait(call, Write);
      var committed;
      committed, reply := CreateVersionInTransaction(serviceId, versionTag, info, faults.write);
      Land(call, committed, reply);

      if reply == OK {
        AskForRefresh(call);
        version := Some(Version(serviceId, versionTag, info, false));
      }
    }

    /** Touches no service row and asks for no refresh. */
    method UpdateServiceVersion(ghost me: nat, serviceId: nat, versionTag: string, info: string, faults: Faults)
      returns (version: Option<Version>, reply: Reply)
      requires Valid() && me !in After(mode, run).tasks
      modifies this
      ensures Valid() && Served(mode, old(run), run, me, UpdateVersion(serviceId, versionTag, info), faults, reply)
      ensures version == if reply == OK then Some(Version(serviceId, versionTag, info, false)) else None
    {
      ghost var call := Call(run, me, UpdateVersion(serviceId, versionTag, info), faults);
      version, reply := None, ErrInternal;
      Arrive(call);
      Query(call);
      if !faults.check.NoFault? {
        return;
      }
      if |Select(db.versions, LiveKey(serviceId, versionTag))| == 0 {
        reply := ErrVersionDoesNotExist;
        return;
      }

      Wait(call, Write);
      var versionToUpdate := Version(serviceId, versionTag, info, false);
      var updated := UpdateVersionRow(mode, db, serviceId, versionTag, info);
      if !faults.write.NoFault? || updated.Failed? {
        if faults.write.NoFault? && updated.error == RecordNotFound {
          reply := ErrVersionDoesNotExist;
        }
        Land(call, db, reply);
        return;
      }
      reply := OK;
      Land(call, updated.db, reply);
      version := Some(versionToUpdate);
    }

    method DeleteVersionInTransaction(serviceId: nat, versionTag: string, fault: Fault)
      returns (committed: Database, reply: Reply)
      ensures (committed, reply) == DeleteVersionTx(mode, db, serviceId, versionTag, fault)
      ensures reply != OK ==> committed == db
      ensures Consistent(db) && reply == OK ==>
        && Picked(db.versions, committed.versions, (v: Version) => !(v.serviceId == serviceId && v.tag == versionTag))
        && OnlyCountMoved(db.services, committed.services, serviceId, -1)
    {
      if Consistent(db) {
        DeleteVersionEffect(mode, db, serviceId, versionTag, fault);
      }
      if DeleteVersionTx(mode, db, serviceId, versionTag, fault).1 == OK {
        DeleteVersionKeepsOrder(mode, db, serviceId, versionTag, fault);
      }
      committed, reply := db, ErrInternal;
      if fault.AtBegin? {
        reply := ErrTransaction;
        return;
      }
      if fault.AtFirst? {
        return;
      }
      var removed := RemoveVersion(mode, db, serviceId, versionTag);
      if removed.Failed? {
        if removed.error == RecordNotFound {
          reply := ErrVersionDoesNotExist;
        }
        return;
      }
      var tx := removed.db;
      if fault.AtSecond? {
        return;
      }
      var bumped := BumpCount(mode, tx, serviceId, -1);
      if bumped.Failed? {
        return;
      }
      tx := bumped.db;
      if fault.AtCommit? {
        reply := ErrTransaction;
        return;
      }
      committed, reply := tx, OK;
    }

    method DeleteServiceVersion(ghost me: nat, serviceId: nat, versionTag: string, faults: Faults)
      returns (reply: Reply)
      requires Valid() && me !in After(mode, run).tasks
      modifies this
      ensures Valid() && Served(mode, old(run), run, me, DeleteVersion(serviceId, versionTag), faults, reply)
    {
      ghost var call := Call(run, me, DeleteVersion(serviceId, versionTag), faults);
      reply := ErrInternal;
      Arrive(call);
      Query(call);
      if !faults.check.NoFault? {
        return;
      }
      if |Select(db.versions, LiveKey(serviceId, versionTag))| == 0 {
        reply := ErrVersionDoesNotExist;
        return;
      }

      Wait(call, Write);
      var committed;
      committed, reply := DeleteVersionInTransaction(serviceId, versionTag, faults.write);
      Land(call, committed, reply);

      if reply == OK {
        AskForRefresh(call);
      }
    }

    // The syncer

    method RefreshViews(fail: bool) returns (ok: bool)
      requires Valid()
      requires var at := After(mode, run).syncer; at.Booting? || at.Scheduled? || at.MustRefresh?
      modifies this
      ensures ok == !fail
      ensures run == old(run) + [Refresh(ok)] && toRefreshViews == old(toRefreshViews)
      ensures After(mode, run) == RefreshStep(old(After(mode, run)), ok)
      ensures db == After(mode, run).db && (After(mode, run).syncer.Down? || Valid())
      ensures ok ==> Fresh(After(mode, run)) && ViewPoint(mode, run) == |run|
    {
      ok := !fail;
      if ok {
        db := db.(view := SortByName(db.services));
      }
      AfterNext(mode, run, Refresh(ok));
      ViewPointNext(mode, run, Refresh(ok));
      run := run + [Refresh(ok)];
    }

    /** One attempt, with clients free to act before it. */
    method Attempt(fail: bool) returns (ok: bool)
      requires Valid()
      requires var at := After(mode, run).syncer; (at.Booting? || at.Scheduled?) && at.failed < MAX_ATTEMPTS
      modifies this
      ensures ok == !fail && Synced(old(run), run, [Refresh(ok)])
      ensures After(mode, run).syncer == AfterAttempt(old(After(mode, run).syncer), ok)
      ensures db == After(mode, run).db && (After(mode, run).syncer.Down? || Valid())
      ensures ok ==> Fresh(After(mode, run)) && ViewPoint(mode, run) == |run|
    {
      WaitForClients();
      AttemptMoves(After(mode, run), !fail);
      ghost var waited := run;
      ok := RefreshViews(fail);
      SyncedOne(waited, Refresh(ok));
      SyncedMore(old(run), waited, run, [], [Refresh(ok)]);
    }

    /** Three attempts; when all fail the caller ends the process. */
    method RefreshViewsWithAttempts(fails: Attempts) returns (ok: bool)
      requires Valid()
      requires var at := After(mode, run).syncer; at == Booting(0) || at == Scheduled(0)
      modifies this
      ensures ok == !AllFail(fails) && Synced(old(run), run, AttemptSteps(fails))
      ensures ok ==> Valid() && After(mode, run).syncer.Idle?
      ensures ok ==> Fresh(After(mode, run)) && ViewPoint(mode, run) == |run|
      ensures !ok ==> After(mode, run).syncer.Down? && db == After(mode, run).db
    {
      var attempts: nat := 0;
      ghost var booting := After(mode, run).syncer.Booting?;
      ghost var failed: seq<Event> := [];
      SyncedNone(run);
      while attempts < MAX_ATTEMPTS
        invariant attempts <= MAX_ATTEMPTS
        invariant Synced(old(run), run, failed) && failed == seq(attempts, _ => Refresh(false))
        invariant forall k :: 0 <= k < attempts ==> fails[k]
        invariant attempts < MAX_ATTEMPTS ==>
          Valid() && After(mode, run).syncer == if booting then Booting(attempts) else Scheduled(attempts)
        invariant attempts == MAX_ATTEMPTS ==> After(mode, run).syncer.Down? && db == After(mode, run).db
      {
        ghost var before := run;
        ok := Attempt(fails[attempts]);
        SyncedMore(old(run), before, run, failed, [Refresh(ok)]);
        failed := failed + [Refresh(ok)];
        if ok {
          assert failed == AttemptSteps(fails);
          return;
        }
        attempts := attempts + 1;
      }
      assert failed == AttemptSteps(fails);
      ok := false;
    }

    /** Records a tick the select loop has taken. */
    ghost method Tell(e: Event)
      requires Valid() && (e == ContextDone || e == ScheduledTick || e == CheckTick)
      modifies this`run
      ensures run == old(run) + [e] && Valid() && Synced(old(run), run, [e])
      ensures After(mode, run) == Apply(mode, old(After(mode, run)), e)
    {
      AfterNext(mode, run, e);
      TickKeeps(mode, After(mode, run), e);
      SyncedOne(run, e);
      run := run + [e];
    }

    /** The scheduled branch of the select loop. */
    method OnScheduledSync(fails: Attempts) returns (ok: bool)
      requires Valid() && After(mode, run).syncer.Idle?
      modifies this
      ensures ok == !AllFail(fails) && Synced(old(run), run, TurnSteps(ScheduledSync(fails), false))
      ensures ok ==> Valid() && After(mode, run).syncer.Idle?
      ensures ok ==> Fresh(After(mode, run)) && ViewPoint(mode, run) == |run|
      ensures !ok ==> After(mode, run).syncer.Down? && db == After(mode, run).db
    {
      Tell(ScheduledTick);
      ghost var ticked := run;
      ok := RefreshViewsWithAttempts(fails);
      SyncedMore(old(run), ticked, run, [ScheduledTick], AttemptSteps(fails));
    }

    /** The refresh itself; clients act before it and, up to the clear, after it. */
    method RefreshOnRequest(fail: bool) returns (ok: bool)
      requires Valid() && After(mode, run).syncer.MustRefresh? && toRefreshViews
      modifies this
      ensures Valid() && toRefreshViews && ok == !fail && Synced(old(run), run, [Refresh(ok)])
      ensures After(mode, run).syncer == if ok then MustClear else Idle
      ensures ok ==> ViewPoint(mode, run) > |old(run)|
    {
      WaitForClients();
      ghost var waited := run;
      ok := RefreshViews(fail);
      ghost var refreshed := run;
      SyncedOne(waited, Refresh(ok));
      SyncedMore(old(run), waited, run, [], [Refresh(ok)]);
      WaitForClients();
      SyncedMore(old(run), refreshed, run, [Refresh(ok)], []);
    }

    method Clear()
      requires Valid() && After(mode, run).syncer.MustClear?
      modifies this`toRefreshViews, this`run
      ensures run == old(run) + [ClearFlag] && Valid() && After(mode, run).syncer.Idle? && !toRefreshViews
      ensures Synced(old(run), run, [ClearFlag])
      ensures ViewPoint(mode, run) == old(ViewPoint(mode, run))
    {
      AfterNext(mode, run, ClearFlag);
      ViewPointNext(mode, run, ClearFlag);
      SyncedOne(run, ClearFlag);
      run := run + [ClearFlag];
      toRefreshViews := false;
    }

    /** What follows when the flag was found up: a clear, if the refresh succeeds. */
    method RefreshAndClear(fail: bool) returns (cleared: bool)
      requires Valid() && After(mode, run).syncer.MustRefresh? && toRefreshViews
      modifies this
      ensures Synced(old(run), run, RoundSteps(fail)) && cleared == !fail
      ensures Valid() && After(mode, run).syncer.Idle? && toRefreshViews == fail
      ensures cleared ==> ViewPoint(mode, run) > |old(run)|
    {
      cleared := RefreshOnRequest(fail);
      if cleared {
        ghost var refreshed := run;
        Clear();
        SyncedMore(old(run), refreshed, run, [Refresh(true)], [ClearFlag]);
      }
    }

    /** The branch that looks at the flag: read it, refresh, clear it, with clients free to act in
        between. It refreshes exactly if it found the flag up, and only a refresh that succeeded is
        followed by a clear; after a failed one the flag stays up for the next tick. */
    method OnRefreshRequestCheck(fail: bool) returns (cleared: bool)
      requires Valid() && After(mode, run).syncer.Idle?
      modifies this
      ensures Synced(old(run), run, TurnSteps(RefreshRequestCheck(fail), old(toRefreshViews)))
      ensures Valid() && After(mode, run).syncer.Idle?
      ensures cleared == (old(toRefreshViews) && !fail)
      ensures cleared ==> !toRefreshViews && ViewPoint(mode, run) > |old(run)|
      ensures !cleared && old(toRefreshViews) ==> toRefreshViews
    {
      cleared := false;
      var toRefresh := toRefreshViews;
      Tell(CheckTick);
      ghost var ticked := run;
      if toRefresh {
        cleared := RefreshAndClear(fail);
        SyncedMore(old(run), ticked, run, [CheckTick], RoundSteps(fail));
      }
    }

    /** While the process lives, whatever the view lacks is flagged, about to be, or was swallowed. */
    ghost predicate LagAccounted()
      reads this
    {
      forall j: nat :: CommitAt(mode, run, j) && j >= ViewPoint(mode, run) ==>
        toRefreshViews || Due(mode, run, j) || Swallowed(mode, run, j)
    }

    lemma LagIsAccounted()
      requires Valid() && !After(mode, run).syncer.Booting?
      ensures LagAccounted()
    {
      forall j: nat | CommitAt(mode, run, j) && j >= ViewPoint(mode, run)
        ensures toRefreshViews || Due(mode, run, j) || Swallowed(mode, run, j)
      {
        StalenessAccounted(mode, run, j);
      }
    }

    /** The branches of the select. */
    method Branch(tick: Tick) returns (fatal: bool)
      requires Valid() && After(mode, run).syncer.Idle?
      modifies this
      ensures Synced(old(run), run, TurnSteps(tick, old(toRefreshViews)))
      ensures fatal == Fatal(tick) && db == After(mode, run).db
      ensures After(mode, run).syncer == if fatal then Down else if tick.CtxDone? then Exited else Idle
      ensures !fatal ==> Valid()
      ensures !fatal && tick.ScheduledSync? ==> Fresh(After(mode, run)) && ViewPoint(mode, run) == |run|
    {
      fatal := false;
      match tick {
        case CtxDone =>
          Tell(ContextDone);
        case ScheduledSync(fails) =>
          var ok := OnScheduledSync(fails);
          fatal := !ok;
        case RefreshRequestCheck(fail) =>
          var cleared := OnRefreshRequestCheck(fail);
      }
    }

    /** One turn of the select loop; `found` is the flag as a check of it reads it. */
    method OnTick(tick: Tick) returns (fatal: bool, ghost found: bool)
      requires Valid() && After(mode, run).syncer.Idle?
      modifies this
      ensures Synced(old(run), run, TurnSteps(tick, found))
      ensures fatal == Fatal(tick) && db == After(mode, run).db
      ensures After(mode, run).syncer == if fatal then Down else if tick.CtxDone? then Exited else Idle
      ensures !fatal ==> Valid()
      ensures !fatal && tick.ScheduledSync? ==> Fresh(After(mode, run)) && ViewPoint(mode, run) == |run|
    {
      WaitForClients();
      ghost var waited := run;
      found := toRefreshViews;
      fatal := Branch(tick);
      SyncedMore(old(run), waited, run, [], TurnSteps(tick, found));
    }

    /** What the loop has achieved after the start-up sync and `taken` ticks: the steps called for, and a
        successful refresh after the start and after every scheduled tick. */
    ghost predicate UpToDate(since: seq<Event>, startUp: Attempts, ticks: seq<Tick>, taken: nat, found: seq<bool>)
      reads this
    {
      && Valid() && Looped(since, run, startUp, ticks, taken, found)
      && ViewPoint(mode, run) > |since| && SyncsDone(mode, run, |since|)
    }

    /** Where the loop stands after `taken` ticks, the last of which may have ended it. */
    ghost predicate Turned(since: seq<Event>, startUp: Attempts, ticks: seq<Tick>, taken: nat, found: seq<bool>)
      requires taken <= |ticks|
      reads this
    {
      var fatal, done := taken > 0 && Fatal(ticks[taken - 1]), taken > 0 && ticks[taken - 1].CtxDone?;
      && Looped(since, run, startUp, ticks, taken, found)
      && db == After(mode, run).db
      && After(mode, run).syncer == (if fatal then Down else if done then Exited else Idle)
      && (!fatal ==> UpToDate(since, startUp, ticks, taken, found))
    }

    method TakeTick(tick: Tick, ghost since: seq<Event>, ghost startUp: Attempts, ghost ticks: seq<Tick>,
                    ghost taken: nat, ghost found: seq<bool>)
      returns (fatal: bool, ghost flag: bool)
      requires taken < |ticks| && tick == ticks[taken] && Turned(since, startUp, ticks, taken, found)
      requires taken > 0 ==> !Fatal(ticks[taken - 1]) && !ticks[taken - 1].CtxDone?
      modifies this
      ensures fatal == Fatal(tick) && Turned(since, startUp, ticks, taken + 1, found + [flag])
    {
      ghost var before := run;
      fatal, flag := OnTick(tick);
      LoopedOnce(since, before, run, startUp, ticks, taken, found, flag);
      if !fatal {
        SyncsStayDone(mode, before, run, |since|, tick, flag);
      }
    }

    /** The select loop. */
    method Loop(ticks: seq<Tick>, ghost since: seq<Event>, ghost startUp: Attempts)
      returns (fatal: bool, ghost taken: nat, ghost found: seq<bool>)
      requires Turned(since, startUp, ticks, 0, [])
      modifies this
      ensures Takes(ticks, taken) && fatal == (taken > 0 && Fatal(ticks[taken - 1]))
      ensures Turned(since, startUp, ticks, taken, found)
    {
      var i, done := 0, false;
      fatal, found := false, [];
      while i < |ticks| && !done && !fatal
        invariant 0 <= i <= |ticks| && Turned(since, startUp, ticks, i, found)
        invariant forall k :: 0 <= k < i - 1 ==> !ticks[k].CtxDone? && !Fatal(ticks[k])
        invariant fatal == (i > 0 && Fatal(ticks[i - 1])) && done == (i > 0 && ticks[i - 1].CtxDone?)
        decreases |ticks| - i
      {
        ghost var flag;
        done := ticks[i].CtxDone?;
        fatal, flag := TakeTick(ticks[i], since, startUp, ticks, i, found);
        i, found := i + 1, found + [flag];
      }
      taken := i;
    }

    /** The start-up refresh. */
    method StartUp(startUp: Attempts, ghost ticks: seq<Tick>) returns (ok: bool)
      requires Valid() && After(mode, run).syncer == Booting(0)
      modifies this
      ensures ok == !AllFail(startUp) && Looped(old(run), run, startUp, ticks, 0, [])
      ensures if ok then Turned(old(run), startUp, ticks, 0, []) else After(mode, run).syncer.Down?
      ensures db == After(mode, run).db
    {
      ok := RefreshViewsWithAttempts(startUp);
      LoopStarts(mode, old(run), run, startUp, ticks);
    }

    /** Runs on the given ticks. It ends when the context is done, when the ticks are used up, or with
        the process, when the attempts of a start-up or scheduled refresh have failed. Between the steps of
        clients it takes the steps these ticks and failures call for, and no other. */
    method SyncDataWithSortedViews(startUp: Attempts, ticks: seq<Tick>)
      returns (fatal: bool, ghost taken: nat, ghost found: seq<bool>)
      requires Valid() && After(mode, run).syncer == Booting(0)
      modifies this
      ensures Looped(old(run), run, startUp, ticks, taken, found)
      ensures if AllFail(startUp) then taken == 0 else Takes(ticks, taken)
      ensures fatal == (AllFail(startUp) || (taken > 0 && Fatal(ticks[taken - 1])))
      ensures fatal <==> After(mode, run).syncer.Down?
      ensures db == After(mode, run).db
      ensures !fatal ==> UpToDate(old(run), startUp, ticks, taken, found) && LagAccounted()
      ensures !fatal ==>
        if CtxDone in ticks then After(mode, run).syncer.Exited? else After(mode, run).syncer.Idle?
    {
      var ok := StartUp(startUp, ticks);
      if !ok {
        return true, 0, [];
      }
      fatal, taken, found := Loop(ticks, old(run), startUp);
      if !fatal {
        LagIsAccounted();
        StopsIfDone(ticks, taken);
      }
    }
  }
}
