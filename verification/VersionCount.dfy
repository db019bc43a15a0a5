/** The denormalised service.version_count, bumped inside transactions that are guarded by an
    existence check outside them. */
module VersionCount {
  import opened Rows
  import opened Schema
  import opened Protocol
  import opened Integrity

  predicate MissedDelete(mode: ZeroRows, db: Database, op: Op, fault: Fault, id: nat) {
    && op.DeleteVersion? && op.id == id
    && Execute(mode, db, op, fault).1 == OK
    && Select(db.versions, HasKey(id, op.tag)) == []
  }

  /** A committed deletion for service `id` that removed no row: its version was gone by the time the
      transaction ran, and the database reported success. */
  predicate Miss(mode: ZeroRows, s: State, e: Event, id: nat) {
    && Writes(s, e)
    && MissedDelete(mode, s.db, s.tasks[e.tid].op, e.fault, id)
  }

  function Misses(mode: ZeroRows, es: seq<Event>, id: nat): nat {
    if es == [] then 0
    else
      var before := es[..|es| - 1];
      Misses(mode, before, id) + if Miss(mode, After(mode, before), es[|es| - 1], id) then 1 else 0
  }

  /** The count of service `id`, if it exists, is its number of versions less `misses`. */
  predicate Counts(db: Database, id: nat, misses: int) {
    forall s :: s in db.services && s.id == id ==> s.versionCount == |Select(db.versions, OfService(id))| - misses
  }

  lemma NoVersionsBeforeService(db: Database, id: nat)
    requires Referential(db) && !Exists(db.services, id)
    ensures Select(db.versions, OfService(id)) == []
  {
    SelectEmpty(db.versions, OfService(id));
  }

  lemma CreateServiceCounts(db: Database, name: string, description: string, id: nat, misses: nat)
    requires Consistent(db) && Counts(db, id, misses) && (id >= db.nextId ==> misses == 0)
    requires InsertService(db, name, description).Committed?
    ensures Counts(InsertService(db, name, description).db, id, misses)
  {
    if id == db.nextId {
      NoVersionsBeforeService(db, id);
    }
  }

  /** Zero fields are skipped, so an update of a service keeps its version count. */
  lemma UpdateServiceCounts(mode: ZeroRows, db: Database, target: nat, name: string, description: string, id: nat,
                            misses: nat)
    requires Counts(db, id, misses) && UpdateServiceRow(mode, db, target, name, description).Committed?
    ensures Counts(UpdateServiceRow(mode, db, target, name, description).db, id, misses)
  {
    var db' := UpdateServiceRow(mode, db, target, name, description).db;
    forall s | s in db'.services && s.id == id
      ensures s.versionCount == |Select(db'.versions, OfService(id))| - misses
    {
      if db' != db {
        var before := UpdateMember(db.services, LiveId(target), SetService(name, description), s);
      }
    }
  }

  lemma BumpCounts(mode: ZeroRows, db: Database, target: nat, delta: int, id: nat, misses: int)
    requires NoneSoftDeleted(db) && Counts(db, id, misses) && BumpCount(mode, db, target, delta).Committed?
    ensures Counts(BumpCount(mode, db, target, delta).db, id, if id == target then misses - delta else misses)
  {
    var db' := BumpCount(mode, db, target, delta).db;
    forall s | s in db'.services && s.id == id
      ensures s.versionCount == |Select(db'.versions, OfService(id))| - if id == target then misses - delta else misses
    {
      var before := UpdateMember(db.services, LiveId(target), AddToCount(delta), s);
    }
  }

  /** The bump cancels the inserted row. */
  lemma CreateVersionCounts(mode: ZeroRows, db: Database, target: nat, tag: string, info: string, id: nat, misses: nat)
    requires Consistent(db) && Counts(db, id, misses)
    requires CreateVersionTx(mode, db, target, tag, info, NoFault).1 == OK
    ensures Counts(CreateVersionTx(mode, db, target, tag, info, NoFault).0, id, misses)
  {
    var inserted := InsertVersion(db, target, tag, info).db;
    SelectInsert(db.versions, Version(target, tag, info, false), OfService(id));
    assert Counts(inserted, id, if id == target then misses + 1 else misses);
    BumpCounts(mode, inserted, target, 1, id, if id == target then misses + 1 else misses);
  }

  /** The bump cancels the removed row, or is a miss. */
  lemma DeleteVersionCounts(mode: ZeroRows, db: Database, target: nat, tag: string, id: nat, misses: nat)
    requires Consistent(db) && Counts(db, id, misses)
    requires DeleteVersionTx(mode, db, target, tag, NoFault).1 == OK
    ensures var missed := id == target && Select(db.versions, HasKey(id, tag)) == [];
            Counts(DeleteVersionTx(mode, db, target, tag, NoFault).0, id, misses + if missed then 1 else 0)
  {
    var removed := RemoveVersion(mode, db, target, tag).db;
    var lost := |Select(db.versions, HasKey(target, tag))|;
    DiscardCount(db.versions, HasKey(target, tag), OfService(id));
    DiscardVersionsKeeps(db, HasKey(target, tag));
    assert Counts(removed, id, if id == target then misses - lost else misses);
    BumpCounts(mode, removed, target, -1, id, if id == target then misses - lost else misses);
  }

  lemma DeleteServiceCounts(mode: ZeroRows, db: Database, target: nat, id: nat, misses: nat)
    requires Consistent(db) && Counts(db, id, misses)
    requires DeleteServiceTx(mode, db, target, NoFault).1 == OK
    ensures Counts(DeleteServiceTx(mode, db, target, NoFault).0, id, misses)
  {
    DeleteServiceAllOrNothing(mode, db, target, NoFault);
    if id != target {
      DiscardCount(db.versions, OfService(target), OfService(id));
    }
  }

  lemma UpdateVersionCounts(mode: ZeroRows, db: Database, target: nat, tag: string, info: string, id: nat, misses: nat)
    requires Counts(db, id, misses) && UpdateVersionRow(mode, db, target, tag, info).Committed?
    ensures Counts(UpdateVersionRow(mode, db, target, tag, info).db, id, misses)
  {
    UpdateCount(db.versions, LiveKey(target, tag), SetInfo(info), OfService(id));
  }

  lemma ExecuteCounts(mode: ZeroRows, db: Database, op: Op, fault: Fault, id: nat, misses: nat)
    requires Consistent(db) && Counts(db, id, misses) && (id >= db.nextId ==> misses == 0)
    ensures Counts(Execute(mode, db, op, fault).0, id, misses + if MissedDelete(mode, db, op, fault, id) then 1 else 0)
  {
    ExecuteFrame(mode, db, op, fault);
    if Execute(mode, db, op, fault).1 == OK {
      assert fault.NoFault?;
      match op
      case CreateService(name, description) => CreateServiceCounts(db, name, description, id, misses);
      case UpdateService(target, name, description) =>
        UpdateServiceCounts(mode, db, target, name, description, id, misses);
      case DeleteService(target) => DeleteServiceCounts(mode, db, target, id, misses);
      case CreateVersion(target, tag, info) => CreateVersionCounts(mode, db, target, tag, info, id, misses);
      case UpdateVersion(target, tag, info) => UpdateVersionCounts(mode, db, target, tag, info, id, misses);
      case DeleteVersion(target, tag) => DeleteVersionCounts(mode, db, target, tag, id, misses);
    }
  }

  /** A version deletion past its check has seen a version, so its service id has been handed out. */
  ghost predicate DeletionsIssued(s: State) {
    forall tid | tid in s.tasks && s.tasks[tid].op.DeleteVersion? ::
      s.tasks[tid].pc.CheckName? || s.tasks[tid].pc.Write? ==> s.tasks[tid].op.id < s.db.nextId
  }

  lemma ExecuteIssues(mode: ZeroRows, db: Database, op: Op, fault: Fault)
    ensures Execute(mode, db, op, fault).0.nextId >= db.nextId
  {
  }

  lemma CheckedVersionIssued(db: Database, op: Op, fault: Fault)
    requires Consistent(db) && op.DeleteVersion? && AfterCheck(db, op, fault).Write?
    ensures op.id < db.nextId
  {
    SelectEmpty(db.versions, LiveKey(op.id, op.tag));
  }

  lemma ClientIssues(mode: ZeroRows, s: State, tid: nat, fault: Fault)
    requires Consistent(s.db) && DeletionsIssued(s) && tid in s.tasks
    ensures DeletionsIssued(ClientStep(mode, s, tid, fault))
    ensures ClientStep(mode, s, tid, fault).db.nextId >= s.db.nextId
  {
    var Task(op, pc) := s.tasks[tid];
    match pc
    case Check =>
      if op.DeleteVersion? && AfterCheck(s.db, op, fault).Write? {
        CheckedVersionIssued(s.db, op, fault);
      }
    case Write => ExecuteIssues(mode, s.db, op, fault);
    case _ =>
  }

  lemma StepIssues(mode: ZeroRows, s: State, e: Event)
    requires Consistent(s.db) && DeletionsIssued(s)
    ensures DeletionsIssued(Apply(mode, s, e))
    ensures Apply(mode, s, e).db.nextId >= s.db.nextId
  {
    if e.Client? && e.tid in s.tasks {
      ClientIssues(mode, s, e.tid, e.fault);
    }
  }

  lemma {:induction false} MissesIssued(mode: ZeroRows, es: seq<Event>, id: nat)
    ensures DeletionsIssued(After(mode, es))
    ensures Misses(mode, es, id) > 0 ==> id < After(mode, es).db.nextId
  {
    if es != [] {
      var before := es[..|es| - 1];
      MissesIssued(mode, before, id);
      IntegrityAlways(mode, before);
      StepIssues(mode, After(mode, before), es[|es| - 1]);
    }
  }

  /** Conservation, in every interleaving: the version count of each service is its number of version
      rows less the number of committed deletions that removed no row. */
  lemma {:induction false} Conservation(mode: ZeroRows, es: seq<Event>, id: nat)
    ensures Counts(After(mode, es).db, id, Misses(mode, es, id))
  {
    if es != [] {
      var before, e := es[..|es| - 1], es[|es| - 1];
      var s := After(mode, before);
      Conservation(mode, before, id);
      IntegrityAlways(mode, before);
      MissesIssued(mode, before, id);
      StepDatabase(mode, s, e);
      if Writes(s, e) {
        ExecuteCounts(mode, s.db, s.tasks[e.tid].op, e.fault, id, Misses(mode, before, id));
      }
    }
  }

  lemma {:induction false} StrictNeverMisses(es: seq<Event>, id: nat)
    ensures Misses(NotFound, es, id) == 0
  {
    if es != [] {
      StrictNeverMisses(es[..|es| - 1], id);
    }
  }

  /** A count is exact, in any run and however zero-row writes are reported, exactly when no deletion
      for that service has missed. */
  lemma CountExactIffNoMiss(mode: ZeroRows, es: seq<Event>, s: Service)
    requires s in After(mode, es).db.services
    ensures s.versionCount == |Select(After(mode, es).db.versions, OfService(s.id))| <==> Misses(mode, es, s.id) == 0
  {
    Conservation(mode, es, s.id);
  }

  /** When a zero-row delete is reported as not found, as the callers expect, the version count is
      always the number of version rows, and never negative. */
  lemma ExactUnderNotFound(es: seq<Event>, s: Service)
    requires s in After(NotFound, es).db.services
    ensures s.versionCount == |Select(After(NotFound, es).db.versions, OfService(s.id))| >= 0
  {
    Conservation(NotFound, es, s.id);
    StrictNeverMisses(es, s.id);
  }

  lemma OneServiceOneVersion() returns (es: seq<Event>, s: State)
    ensures After(Silent, es) == s && s.syncer.Booting? && 2 !in s.tasks && 3 !in s.tasks
    ensures s.db == Database([Service(1, "a", "", 1, false)], [Version(1, "v", "", false)], 2, [])
  {
    es, s := [], MIGRATED;
    es, s := Push(Silent, es, s, Start);
    es, s := Push(Silent, es, s, Begin(0, CreateService("a", "")));
    es, s := Push(Silent, es, s, Client(0, NoFault));
    es, s := Push(Silent, es, s, Client(0, NoFault));
    assert s.db.services == [Service(1, "a", "", 0, false)];
    es, s := Push(Silent, es, s, Begin(1, CreateVersion(1, "v", "")));
    es, s := Push(Silent, es, s, Client(1, NoFault));
    es, s := Push(Silent, es, s, Client(1, NoFault));
    assert s.db.versions == [Version(1, "v", "", false)];
  }

  lemma BothChecked() returns (es: seq<Event>, s: State)
    ensures After(Silent, es) == s && 2 in s.tasks && 3 in s.tasks
    ensures s.tasks[2] == s.tasks[3] == Task(DeleteVersion(1, "v"), Write)
    ensures s.db == Database([Service(1, "a", "", 1, false)], [Version(1, "v", "", false)], 2, [])
  {
    es, s := OneServiceOneVersion();
    es, s := Push(Silent, es, s, Begin(2, DeleteVersion(1, "v")));
    es, s := Push(Silent, es, s, Begin(3, DeleteVersion(1, "v")));
    es, s := Push(Silent, es, s, Client(2, NoFault));
    es, s := Push(Silent, es, s, Client(3, NoFault));
  }

  /** When it is reported as success, two deletions of one version that both pass the check drive the
      count to -1. */
  lemma RacingDeletionsGoNegative() returns (es: seq<Event>)
    ensures After(Silent, es).db.services == [Service(1, "a", "", -1, false)]
    ensures After(Silent, es).db.versions == []
  {
    var s;
    es, s := BothChecked();
    es, s := Push(Silent, es, s, Client(2, NoFault));
    assert s.db.versions == [] && s.db.services == [Service(1, "a", "", 0, false)];
    es, s := Push(Silent, es, s, Client(3, NoFault));
  }
}
