/** Requests racing to create the same service name, or the same version tag of one service. */
module Racing {
  import opened Rows
  import opened Schema
  import opened Protocol
  import opened Integrity

  /** What two creators can compete for. */
  datatype Key = NameKey(name: string) | TagKey(id: nat, tag: string)

  predicate Creates(op: Op, key: Key) {
    match key
    case NameKey(name) => op.CreateService? && op.name == name
    case TagKey(id, tag) => op.CreateVersion? && op.id == id && op.tag == tag
  }

  function Holders(db: Database, key: Key): nat {
    match key
    case NameKey(name) => |Select(db.services, HasName(name))|
    case TagKey(id, tag) => |Select(db.versions, HasKey(id, tag))|
  }

  function AlreadyExists(key: Key): Reply {
    if key.NameKey? then ErrServiceAlreadyExists else ErrVersionAlreadyExists
  }

  /** A creator that has committed: about to set the flag, or answered with success. */
  predicate Won(task: Task, key: Key) {
    Creates(task.op, key) && (task.pc.SetFlag? || task.pc == Finished(OK))
  }

  /** Other than by creating a row, the write could give the key to a row or take it from one, or take the
      service of the tag away. */
  predicate Disturbs(db: Database, op: Op, key: Key) {
    match key
    case NameKey(name) =>
      || (op.UpdateService? && op.name != ""
          && exists s :: s in db.services && s.id == op.id && (s.name == name) != (op.name == name))
      || (op.DeleteService? && exists s :: s in db.services && s.id == op.id && s.name == name)
    case TagKey(id, tag) => op == DeleteVersion(id, tag) || op == DeleteService(id)
  }

  /** The process stays up, no database call of a creator of the key fails, and nobody else disturbs the
      key. Other requests may do, and suffer, what they like. */
  predicate Calm(mode: ZeroRows, s: State, e: Event, key: Key) {
    && !Apply(mode, s, e).syncer.Down?
    && (e.Client? && e.tid in s.tasks ==>
          var Task(op, pc) := s.tasks[e.tid];
          && (Creates(op, key) && (pc.Check? || pc.Write?) ==> e.fault.NoFault?)
          && (pc.Write? ==> !Disturbs(s.db, op, key)))
  }

  ghost predicate NameChecksUpdate(tasks: map<nat, Task>) {
    forall tid :: tid in tasks && tasks[tid].pc.CheckName? ==> tasks[tid].op.UpdateService?
  }

  ghost predicate SoleWinner(tasks: map<nat, Task>, key: Key, w: nat) {
    && w in tasks && Won(tasks[w], key)
    && forall tid :: tid in tasks && Won(tasks[tid], key) ==> tid == w
  }

  /** The requests of a race. While the key is free nobody has won and no creator has finished; once it
      is taken there is exactly one winner. Whoever finishes is told success or already-exists. */
  ghost predicate Race(tasks: map<nat, Task>, key: Key, taken: bool) {
    && NameChecksUpdate(tasks)
    && (forall tid :: tid in tasks && Creates(tasks[tid].op, key) && tasks[tid].pc.Finished?
          ==> tasks[tid].pc.reply == OK || tasks[tid].pc.reply == AlreadyExists(key))
    && (!taken ==>
          forall tid :: tid in tasks && Creates(tasks[tid].op, key) ==>
            !tasks[tid].pc.SetFlag? && !tasks[tid].pc.Finished?)
    && (taken ==> exists w :: SoleWinner(tasks, key, w))
  }

  ghost predicate Orderly(s: State, key: Key) {
    && Consistent(s.db)
    && !s.syncer.Down?
    && (key.TagKey? ==> Exists(s.db.services, key.id))
    && Race(s.tasks, key, Holders(s.db, key) != 0)
  }

  /** One request moves on: it stays out of the race, or wins a free key, or neither wins nor gives up a
      win while the key is taken. */
  lemma RaceMove(tasks: map<nat, Task>, tid: nat, task: Task, key: Key, taken: bool, taken': bool)
    requires Race(tasks, key, taken)
    requires task.pc.CheckName? ==> task.op.UpdateService?
    requires Creates(task.op, key) && task.pc.Finished? ==> task.pc.reply == OK || task.pc.reply == AlreadyExists(key)
    requires
      || (!taken && !taken' && (Creates(task.op, key) ==> !task.pc.SetFlag? && !task.pc.Finished?))
      || (!taken && taken' && Won(task, key))
      || (taken && taken' && (Won(task, key) <==> tid in tasks && Won(tasks[tid], key)))
    ensures Race(tasks[tid := task], key, taken')
  {
    if taken {
      var w :| SoleWinner(tasks, key, w);
      assert SoleWinner(tasks[tid := task], key, w);
    } else if taken' {
      assert SoleWinner(tasks[tid := task], key, tid);
    }
  }

  /** What a creator of the key finds at its check and at its write. */
  lemma CreatorSteps(mode: ZeroRows, db: Database, op: Op, key: Key)
    requires Consistent(db) && Creates(op, key) && (key.TagKey? ==> Exists(db.services, key.id))
    ensures AfterCheck(db, op, NoFault) == if Holders(db, key) == 0 then Write else Finished(AlreadyExists(key))
    ensures Execute(mode, db, op, NoFault).1 == if Holders(db, key) == 0 then OK else AlreadyExists(key)
    ensures Holders(Execute(mode, db, op, NoFault).0, key) == 1
  {
    LiveIsAll(db);
    match key
    case NameKey(name) =>
      SelectInsert(db.services, Service(db.nextId, name, op.description, 0, false), HasName(name));
    case TagKey(id, tag) =>
      ExistsSelect(db.services, id);
      SelectInsert(db.versions, Version(id, tag, op.info, false), HasKey(id, tag));
  }

  lemma CreateServiceKeepsHolders(mode: ZeroRows, db: Database, op: Op, key: Key)
    requires op.CreateService? && !Creates(op, key)
    ensures Holders(Execute(mode, db, op, NoFault).0, key) == Holders(db, key)
  {
    if key.NameKey? {
      SelectInsert(db.services, Service(db.nextId, op.name, op.description, 0, false), HasName(key.name));
    }
  }

  lemma UpdateServiceKeepsHolders(mode: ZeroRows, db: Database, op: Op, key: Key)
    requires op.UpdateService? && !Disturbs(db, op, key)
    ensures Holders(Execute(mode, db, op, NoFault).0, key) == Holders(db, key)
  {
    if key.NameKey? {
      UpdateCount(db.services, LiveId(op.id), SetService(op.name, op.description), HasName(key.name));
    }
  }

  lemma DeleteServiceKeepsHolders(mode: ZeroRows, db: Database, op: Op, key: Key)
    requires op.DeleteService? && !Disturbs(db, op, key)
    ensures Holders(Execute(mode, db, op, NoFault).0, key) == Holders(db, key)
  {
    match key
    case NameKey(name) => DiscardCount(db.services, HasId(op.id), HasName(name));
    case TagKey(id, tag) => DiscardCount(db.versions, OfService(op.id), HasKey(id, tag));
  }

  lemma CreateVersionKeepsHolders(mode: ZeroRows, db: Database, op: Op, key: Key)
    requires op.CreateVersion? && !Creates(op, key)
    ensures Holders(Execute(mode, db, op, NoFault).0, key) == Holders(db, key)
  {
    match key
    case NameKey(name) => UpdateCount(db.services, LiveId(op.id), AddToCount(1), HasName(name));
    case TagKey(id, tag) => SelectInsert(db.versions, Version(op.id, op.tag, op.info, false), HasKey(id, tag));
  }

  lemma DeleteVersionKeepsHolders(mode: ZeroRows, db: Database, op: Op, key: Key)
    requires op.DeleteVersion? && !Disturbs(db, op, key)
    ensures Holders(Execute(mode, db, op, NoFault).0, key) == Holders(db, key)
  {
    match key
    case NameKey(name) => UpdateCount(db.services, LiveId(op.id), AddToCount(-1), HasName(name));
    case TagKey(id, tag) => DiscardCount(db.versions, HasKey(op.id, op.tag), HasKey(id, tag));
  }

  /** A write that neither creates nor disturbs the key leaves it with as many rows as before. */
  lemma OthersKeepHolders(mode: ZeroRows, db: Database, op: Op, fault: Fault, key: Key)
    requires !Creates(op, key) && !Disturbs(db, op, key)
    ensures Holders(Execute(mode, db, op, fault).0, key) == Holders(db, key)
  {
    ExecuteFrame(mode, db, op, fault);
    if fault.NoFault? {
      match op
      case CreateService(_, _) => CreateServiceKeepsHolders(mode, db, op, key);
      case UpdateService(_, _, _) => UpdateServiceKeepsHolders(mode, db, op, key);
      case DeleteService(_) => DeleteServiceKeepsHolders(mode, db, op, key);
      case CreateVersion(_, _, _) => CreateVersionKeepsHolders(mode, db, op, key);
      case UpdateVersion(id, tag, info) =>
        if key.TagKey? {
          UpdateCount(db.versions, LiveKey(id, tag), SetInfo(info), HasKey(key.id, key.tag));
        }
      case DeleteVersion(_, _) => DeleteVersionKeepsHolders(mode, db, op, key);
    }
  }

  lemma DeleteServiceKeepsOthers(mode: ZeroRows, db: Database, target: nat, fault: Fault, id: nat)
    requires Exists(db.services, id) && target != id
    ensures Exists(DeleteServiceTx(mode, db, target, fault).0.services, id)
  {
    DiscardMember(db.services, HasId(target));
    var s :| s in db.services && s.id == id;
    assert s in Discard(db.services, HasId(target));
  }

  lemma CreateServiceKeepsOthers(mode: ZeroRows, db: Database, name: string, description: string, fault: Fault, id: nat)
    requires Exists(db.services, id)
    ensures Exists(Execute(mode, db, CreateService(name, description), fault).0.services, id)
  {
    var s :| s in db.services && s.id == id;
    assert s in db.services + [Service(db.nextId, name, description, 0, false)];
  }

  /** Only its own deletion takes a service away. */
  lemma OthersKeepService(mode: ZeroRows, db: Database, op: Op, fault: Fault, id: nat)
    requires Exists(db.services, id) && op != DeleteService(id)
    ensures Exists(Execute(mode, db, op, fault).0.services, id)
  {
    match op
    case CreateService(name, description) => CreateServiceKeepsOthers(mode, db, name, description, fault, id);
    case UpdateService(target, name, description) =>
      UpdateKeepsIds(db.services, LiveId(target), SetService(name, description));
    case DeleteService(target) => DeleteServiceKeepsOthers(mode, db, target, fault, id);
    case CreateVersion(target, _, _) => UpdateKeepsIds(db.services, LiveId(target), AddToCount(1));
    case UpdateVersion(_, _, _) =>
    case DeleteVersion(target, _) => UpdateKeepsIds(db.services, LiveId(target), AddToCount(-1));
  }

  /** The race after a write that left the database `db'` and got the answer `reply`. */
  lemma RaceAfterWrite(s: State, tid: nat, db': Database, reply: Reply, task: Task, key: Key)
    requires Orderly(s, key) && Consistent(db') && (key.TagKey? ==> Exists(db'.services, key.id))
    requires tid in s.tasks && s.tasks[tid].pc.Write? && task.op == s.tasks[tid].op
    requires task.pc == if reply == OK && AsksForRefresh(task.op) then SetFlag else Finished(reply)
    requires if Creates(task.op, key)
             then Holders(db', key) == 1 && reply == (if Holders(s.db, key) == 0 then OK else AlreadyExists(key))
             else Holders(db', key) == Holders(s.db, key)
    ensures Orderly(s.(db := db', tasks := s.tasks[tid := task]), key)
  {
    RaceMove(s.tasks, tid, task, key, Holders(s.db, key) != 0, Holders(db', key) != 0);
  }

  /** A write by a racer or a bystander keeps the race in order. */
  lemma WriteKeepsRace(mode: ZeroRows, s: State, tid: nat, fault: Fault, key: Key)
    requires Orderly(s, key) && tid in s.tasks && s.tasks[tid].pc.Write? && Calm(mode, s, Client(tid, fault), key)
    ensures Orderly(Apply(mode, s, Client(tid, fault)), key)
  {
    var op := s.tasks[tid].op;
    var (db', reply) := Execute(mode, s.db, op, fault);
    ExecuteKeeps(mode, s.db, op, fault);
    if key.TagKey? {
      OthersKeepService(mode, s.db, op, fault, key.id);
    }
    if Creates(op, key) {
      CreatorSteps(mode, s.db, op, key);
    } else {
      OthersKeepHolders(mode, s.db, op, fault, key);
    }
    var task := Task(op, if reply == OK && AsksForRefresh(op) then SetFlag else Finished(reply));
    RaceAfterWrite(s, tid, db', reply, task, key);
  }

  /** A first check by a racer or a bystander keeps the race in order. */
  lemma CheckKeepsRace(mode: ZeroRows, s: State, tid: nat, fault: Fault, key: Key)
    requires Orderly(s, key) && tid in s.tasks && s.tasks[tid].pc.Check? && Calm(mode, s, Client(tid, fault), key)
    ensures Orderly(Apply(mode, s, Client(tid, fault)), key)
  {
    var op, taken := s.tasks[tid].op, Holders(s.db, key) != 0;
    if Creates(op, key) {
      CreatorSteps(mode, s.db, op, key);
    }
    RaceMove(s.tasks, tid, Task(op, AfterCheck(s.db, op, fault)), key, taken, taken);
  }

  /** So does what follows the first check, other than a write. */
  lemma ReadKeepsRace(mode: ZeroRows, s: State, tid: nat, fault: Fault, key: Key)
    requires Orderly(s, key) && tid in s.tasks && (s.tasks[tid].pc.CheckName? || s.tasks[tid].pc.SetFlag?)
    ensures Orderly(Apply(mode, s, Client(tid, fault)), key)
  {
    var Task(op, pc) := s.tasks[tid];
    var task := Task(op, if pc.CheckName? then AfterCheckName(s.db, op, fault) else Finished(OK));
    RaceMove(s.tasks, tid, task, key, Holders(s.db, key) != 0, Holders(s.db, key) != 0);
  }

  lemma SyncerKeepsRace(mode: ZeroRows, s: State, e: Event, key: Key)
    requires Orderly(s, key) && !e.Client? && !e.Begin? && !Apply(mode, s, e).syncer.Down?
    ensures Orderly(Apply(mode, s, e), key)
  {
    StepKeeps(mode, s, e);
    StepDatabase(mode, s, e);
    assert Apply(mode, s, e).tasks == s.tasks;
  }

  lemma StepKeepsRace(mode: ZeroRows, s: State, e: Event, key: Key)
    requires Orderly(s, key) && Calm(mode, s, e, key)
    ensures Orderly(Apply(mode, s, e), key)
  {
    if e.Begin? {
      if e.tid !in s.tasks {
        RaceMove(s.tasks, e.tid, Task(e.op, Check), key, Holders(s.db, key) != 0, Holders(s.db, key) != 0);
      }
    } else if !e.Client? {
      SyncerKeepsRace(mode, s, e, key);
    } else if e.tid in s.tasks {
      if s.tasks[e.tid].pc.Write? {
        WriteKeepsRace(mode, s, e.tid, e.fault, key);
      } else if s.tasks[e.tid].pc.Check? {
        CheckKeepsRace(mode, s, e.tid, e.fault, key);
      } else if !s.tasks[e.tid].pc.Finished? {
        ReadKeepsRace(mode, s, e.tid, e.fault, key);
      }
    }
  }

  /** Every step from position `n` on is calm. */
  ghost predicate CalmSince(mode: ZeroRows, es: seq<Event>, n: nat, key: Key) {
    forall k :: n <= k < |es| ==> Calm(mode, After(mode, es[..k]), es[k], key)
  }

  lemma {:induction false} RunKeepsRace(mode: ZeroRows, es: seq<Event>, n: nat, key: Key)
    requires n <= |es| && CalmSince(mode, es, n, key) && Orderly(After(mode, es[..n]), key)
    ensures Orderly(After(mode, es), key)
  {
    if n < |es| {
      var before := es[..|es| - 1];
      forall k | n <= k < |before|
        ensures Calm(mode, After(mode, before[..k]), before[k], key)
      {
        assert before[..k] == es[..k];
      }
      assert before[..n] == es[..n];
      RunKeepsRace(mode, before, n, key);
      StepKeepsRace(mode, After(mode, before), es[|es| - 1], key);
    } else {
      assert es[..n] == es;
    }
  }

  lemma CheckNameStep(mode: ZeroRows, s: State, e: Event)
    requires NameChecksUpdate(s.tasks)
    ensures NameChecksUpdate(Apply(mode, s, e).tasks)
  {
  }

  lemma {:induction false} CheckNameOnlyForUpdates(mode: ZeroRows, es: seq<Event>)
    ensures NameChecksUpdate(After(mode, es).tasks)
  {
    if es != [] {
      CheckNameOnlyForUpdates(mode, es[..|es| - 1]);
      CheckNameStep(mode, After(mode, es[..|es| - 1]), es[|es| - 1]);
    }
  }

  /** Let the key be free at position `n` of a run, with the process up and nobody after the key yet
      (for a tag, let the service exist). Any number of requests for the key, interleaved with each other
      and with anything that leaves the key alone, fail or not: whoever finishes is answered with success or
      already-exists, at most one ever wins, and as soon as one has finished there is exactly one winner
      and one row. */
  lemma RacingCreators(mode: ZeroRows, es: seq<Event>, n: nat, key: Key)
    requires n <= |es| && CalmSince(mode, es, n, key)
    requires var s := After(mode, es[..n]);
      && !s.syncer.Down? && Holders(s.db, key) == 0 && (key.TagKey? ==> Exists(s.db.services, key.id))
      && (forall tid :: tid in s.tasks ==> !Creates(s.tasks[tid].op, key))
    ensures var s := After(mode, es);
      && (forall tid :: tid in s.tasks && Creates(s.tasks[tid].op, key) && s.tasks[tid].pc.Finished?
            ==> s.tasks[tid].pc.reply == OK || s.tasks[tid].pc.reply == AlreadyExists(key))
      && (forall a, b :: a in s.tasks && b in s.tasks && Won(s.tasks[a], key) && Won(s.tasks[b], key) ==> a == b)
      && (forall tid :: tid in s.tasks && Creates(s.tasks[tid].op, key) && s.tasks[tid].pc.Finished?
            ==> Holders(s.db, key) == 1 && exists w :: w in s.tasks && Won(s.tasks[w], key))
  {
    IntegrityAlways(mode, es[..n]);
    CheckNameOnlyForUpdates(mode, es[..n]);
    RunKeepsRace(mode, es, n, key);
  }
}
