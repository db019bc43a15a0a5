/** One server process, its database, and everything that can happen to them: any number of requests
    in flight, each advancing one database call at a time, the goroutine that keeps the name-sorted
    view in step, failures of any call, and crash and restart. A run is a sequence of events; an event
    that is not possible in a state leaves the state alone, so every sequence is a run. */
module Protocol {
  import opened Rows
  import opened Schema
  import opened SortedView

  datatype Reply =
    | OK
    | ErrInternal
    | ErrServiceAlreadyExists
    | ErrServiceDoesNotExist
    | ErrVersionAlreadyExists
    | ErrVersionDoesNotExist
    | ErrTransaction  // what the driver reports when begin or commit fails

  datatype Op =
    | CreateService(name: string, description: string)
    | UpdateService(id: nat, name: string, description: string)
    | DeleteService(id: nat)
    | CreateVersion(id: nat, tag: string, info: string)
    | UpdateVersion(id: nat, tag: string, info: string)
    | DeleteVersion(id: nat, tag: string)

  /** Where a request is: before its existence check, before the check for a rival name, before its
      write, committed but before setting toRefreshViews, or done. */
  datatype Pc = Check | CheckName | Write | SetFlag | Finished(reply: Reply)

  datatype Task = Task(op: Op, pc: Pc)

  /** Where SyncDataWithSortedViews is. Booting and Scheduled count failed attempts; MustRefresh has
      read the flag as true; MustClear has refreshed and not yet cleared. Down: no process. */
  datatype Syncer = Down | Booting(failed: nat) | Idle | Scheduled(failed: nat) | MustRefresh | MustClear | Exited

  datatype State = State(db: Database, flag: bool, syncer: Syncer, tasks: map<nat, Task>)

  /** Where a database call fails, if it does. A single statement fails at whatever point; a transaction
      can fail to begin, at its first or second statement, or to commit. */
  datatype Fault = NoFault | AtBegin | AtFirst | AtSecond | AtCommit

  datatype Event =
    | Start
    | Crash
    | ContextDone
    | ScheduledTick
    | CheckTick
    | Refresh(ok: bool)
    | ClearFlag
    | Begin(tid: nat, op: Op)
    | Client(tid: nat, fault: Fault)

  const MAX_ATTEMPTS: nat := 3

  // Database calls of the operations

  function FromError(error: DbError, duplicate: Reply, missing: Reply): Reply {
    match error
    case DuplicateKey => duplicate
    case RecordNotFound => missing
    case _ => ErrInternal
  }

  /** A single statement: its effect, or nothing and an error. */
  function Single(db: Database, result: Outcome<Database>, fault: Fault, duplicate: Reply,
                  missing: Reply): (Database, Reply) {
    if !fault.NoFault? then (db, ErrInternal)
    else match result
      case Committed(db') => (db', OK)
      case Failed(error) => (db, FromError(error, duplicate, missing))
  }

  function CreateVersionTx(mode: ZeroRows, db: Database, id: nat, tag: string, info: string,
                           fault: Fault): (Database, Reply) {
    if fault.AtBegin? then (db, ErrTransaction)
    else if fault.AtFirst? then (db, ErrInternal)
    else match InsertVersion(db, id, tag, info)
      case Failed(error) => (db, FromError(error, ErrVersionAlreadyExists, ErrInternal))
      case Committed(inserted) =>
        if fault.AtSecond? then (db, ErrInternal)
        else match BumpCount(mode, inserted, id, 1)
          case Failed(_) => (db, ErrInternal)
          case Committed(bumped) => if fault.AtCommit? then (db, ErrTransaction) else (bumped, OK)
  }

  function DeleteVersionTx(mode: ZeroRows, db: Database, id: nat, tag: string, fault: Fault): (Database, Reply) {
    if fault.AtBegin? then (db, ErrTransaction)
    else if fault.AtFirst? then (db, ErrInternal)
    else match RemoveVersion(mode, db, id, tag)
      case Failed(error) => (db, FromError(error, ErrInternal, ErrVersionDoesNotExist))
      case Committed(removed) =>
        if fault.AtSecond? then (db, ErrInternal)
        else match BumpCount(mode, removed, id, -1)
          case Failed(_) => (db, ErrInternal)
          case Committed(bumped) => if fault.AtCommit? then (db, ErrTransaction) else (bumped, OK)
  }

  /** Deleting no version rows is tolerated, however it is reported. */
  function DeleteServiceTx(mode: ZeroRows, db: Database, id: nat, fault: Fault): (Database, Reply) {
    if fault.AtBegin? then (db, ErrTransaction)
    else if fault.AtFirst? then (db, ErrInternal)
    else
      var removed := RemoveVersionsOf(mode, db, id);
      var cleared := if removed.Committed? then removed.db else db;
      if removed.Failed? && removed.error != RecordNotFound then (db, ErrInternal)
      else if fault.AtSecond? then (db, ErrInternal)
      else match RemoveService(mode, cleared, id)
        case Failed(_) => (db, ErrInternal)
        case Committed(gone) => if fault.AtCommit? then (db, ErrTransaction) else (gone, OK)
  }

  /** The writing call of each operation. */
  function Execute(mode: ZeroRows, db: Database, op: Op, fault: Fault): (Database, Reply) {
    match op
    case CreateService(name, description) =>
      Single(db, InsertService(db, name, description), fault, ErrServiceAlreadyExists, ErrInternal)
    case UpdateService(id, name, description) =>
      Single(db, UpdateServiceRow(mode, db, id, name, description), fault,
             ErrServiceAlreadyExists, ErrServiceDoesNotExist)
    case DeleteService(id) => DeleteServiceTx(mode, db, id, fault)
    case CreateVersion(id, tag, info) => CreateVersionTx(mode, db, id, tag, info, fault)
    case UpdateVersion(id, tag, info) =>
      Single(db, UpdateVersionRow(mode, db, id, tag, info), fault, ErrInternal, ErrVersionDoesNotExist)
    case DeleteVersion(id, tag) => DeleteVersionTx(mode, db, id, tag, fault)
  }

  /** Where the existence check leads. */
  function AfterCheck(db: Database, op: Op, fault: Fault): Pc {
    if !fault.NoFault? then Finished(ErrInternal)
    else match op
      case CreateService(name, _) =>
        if |Select(db.services, LiveName(name))| == 1 then Finished(ErrServiceAlreadyExists) else Write
      case UpdateService(id, _, _) =>
        if |Select(db.services, LiveId(id))| == 0 then Finished(ErrServiceDoesNotExist) else CheckName
      case DeleteService(id) =>
        if |Select(db.services, LiveId(id))| == 0 then Finished(ErrServiceDoesNotExist) else Write
      case CreateVersion(id, tag, _) =>
        if |Select(db.versions, LiveKey(id, tag))| == 1 then Finished(ErrVersionAlreadyExists) else Write
      case UpdateVersion(id, tag, _) =>
        if |Select(db.versions, LiveKey(id, tag))| == 0 then Finished(ErrVersionDoesNotExist) else Write
      case DeleteVersion(id, tag) =>
        if |Select(db.versions, LiveKey(id, tag))| == 0 then Finished(ErrVersionDoesNotExist) else Write
  }

  function AfterCheckName(db: Database, op: Op, fault: Fault): Pc {
    if !fault.NoFault? then Finished(ErrInternal)
    else if op.UpdateService? && |Select(db.services, LiveOtherWithName(op.name, op.id))| == 1
    then Finished(ErrServiceAlreadyExists)
    else Write
  }

  /** UpdateServiceVersion leaves the service table alone and does not ask for a refresh. */
  predicate AsksForRefresh(op: Op) { !op.UpdateVersion? }

  // Steps

  function ClientStep(mode: ZeroRows, s: State, tid: nat, fault: Fault): State
    requires tid in s.tasks
  {
    var Task(op, pc) := s.tasks[tid];
    match pc
    case Check => s.(tasks := s.tasks[tid := Task(op, AfterCheck(s.db, op, fault))])
    case CheckName => s.(tasks := s.tasks[tid := Task(op, AfterCheckName(s.db, op, fault))])
    case Write =>
      var (db', reply) := Execute(mode, s.db, op, fault);
      var pc' := if reply == OK && AsksForRefresh(op) then SetFlag else Finished(reply);
      s.(db := db', tasks := s.tasks[tid := Task(op, pc')])
    case SetFlag => s.(flag := true, tasks := s.tasks[tid := Task(op, Finished(OK))])
    case Finished(_) => s
  }

  function Refreshed(db: Database): Database { db.(view := SortByName(db.services)) }

  /** The process is gone: its flag and its requests with it; the database stays. */
  function Halt(s: State): State { State(s.db, false, Down, map[]) }

  function RefreshStep(s: State, ok: bool): State {
    match s.syncer
    case Booting(failed) =>
      if ok then s.(db := Refreshed(s.db), syncer := Idle)
      else if failed + 1 < MAX_ATTEMPTS then s.(syncer := Booting(failed + 1)) else Halt(s)
    case Scheduled(failed) =>
      if ok then s.(db := Refreshed(s.db), syncer := Idle)
      else if failed + 1 < MAX_ATTEMPTS then s.(syncer := Scheduled(failed + 1)) else Halt(s)
    case MustRefresh =>
      if ok then s.(db := Refreshed(s.db), syncer := MustClear) else s.(syncer := Idle)
    case _ => s
  }

  function Apply(mode: ZeroRows, s: State, e: Event): State {
    match e
    case Start => if s.syncer.Down? then State(s.db, false, Booting(0), map[]) else s
    case Crash => Halt(s)
    case ContextDone => if s.syncer.Idle? then s.(syncer := Exited) else s
    case ScheduledTick => if s.syncer.Idle? then s.(syncer := Scheduled(0)) else s
    case CheckTick => if s.syncer.Idle? && s.flag then s.(syncer := MustRefresh) else s
    case Refresh(ok) => RefreshStep(s, ok)
    case ClearFlag => if s.syncer.MustClear? then s.(flag := false, syncer := Idle) else s
    case Begin(tid, op) =>
      if s.syncer.Down? || tid in s.tasks then s else s.(tasks := s.tasks[tid := Task(op, Check)])
    case Client(tid, fault) => if tid in s.tasks then ClientStep(mode, s, tid, fault) else s
  }

  /** The migrated database: empty tables and the view created over them; no process yet. */
  const MIGRATED: State := State(Database([], [], 1, []), false, Down, map[])

  function After(mode: ZeroRows, es: seq<Event>): State {
    if es == [] then MIGRATED else Apply(mode, After(mode, es[..|es| - 1]), es[|es| - 1])
  }

  lemma AfterNext(mode: ZeroRows, es: seq<Event>, e: Event)
    ensures After(mode, es + [e]) == Apply(mode, After(mode, es), e)
  {
    assert (es + [e])[..|es + [e]| - 1] == es;
  }

  /** Extends a run whose last state is known by one event. */
  lemma Push(mode: ZeroRows, es: seq<Event>, s: State, e: Event) returns (es': seq<Event>, s': State)
    requires After(mode, es) == s
    ensures es' == es + [e] && s' == Apply(mode, s, e) && After(mode, es') == s'
  {
    AfterNext(mode, es, e);
    es', s' := es + [e], Apply(mode, s, e);
  }

  // Observations on a step

  /** A refresh of the view that succeeds, whoever asked for it. */
  predicate RefreshSucceeds(s: State, e: Event) {
    e == Refresh(true) && (s.syncer.Booting? || s.syncer.Scheduled? || s.syncer.MustRefresh?)
  }

  /** A request at its writing call. */
  predicate Writes(s: State, e: Event) {
    e.Client? && e.tid in s.tasks && s.tasks[e.tid].pc.Write?
  }

  /** A committed write of one of the five operations that touch the service table. */
  predicate ServiceCommit(mode: ZeroRows, s: State, e: Event) {
    && Writes(s, e)
    && AsksForRefresh(s.tasks[e.tid].op)
    && Execute(mode, s.db, s.tasks[e.tid].op, e.fault).1 == OK
  }

  predicate SetsFlag(s: State, e: Event) {
    e.Client? && e.tid in s.tasks && s.tasks[e.tid].pc.SetFlag?
  }

  /** A refused write changes nothing, and a write outside the five leaves the service table alone. */
  lemma ExecuteFrame(mode: ZeroRows, db: Database, op: Op, fault: Fault)
    ensures Execute(mode, db, op, fault).1 != OK ==> Execute(mode, db, op, fault).0 == db
    ensures !AsksForRefresh(op) ==> Execute(mode, db, op, fault).0.services == db.services
    ensures Execute(mode, db, op, fault).0.view == db.view
    ensures !fault.NoFault? ==> Execute(mode, db, op, fault).1 != OK
  {
  }

  /** The only steps that touch the database are writing calls and successful refreshes. */
  lemma StepDatabase(mode: ZeroRows, s: State, e: Event)
    ensures Apply(mode, s, e).db
         == if Writes(s, e) then Execute(mode, s.db, s.tasks[e.tid].op, e.fault).0
            else if RefreshSucceeds(s, e) then Refreshed(s.db)
            else s.db
  {
  }

  /** Only a service commit changes the service table, and only a successful refresh the view. */
  lemma StepFrame(mode: ZeroRows, s: State, e: Event)
    ensures !ServiceCommit(mode, s, e) ==> Apply(mode, s, e).db.services == s.db.services
    ensures !RefreshSucceeds(s, e) ==> Apply(mode, s, e).db.view == s.db.view
    ensures RefreshSucceeds(s, e) ==> Apply(mode, s, e).db == Refreshed(s.db)
    ensures ServiceCommit(mode, s, e) ==> Apply(mode, s, e).tasks[e.tid].pc == SetFlag
  {
    if e.Client? && e.tid in s.tasks && s.tasks[e.tid].pc.Write? {
      ExecuteFrame(mode, s.db, s.tasks[e.tid].op, e.fault);
    }
  }
}
