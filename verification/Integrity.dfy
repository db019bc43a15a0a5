/** What every run keeps in the tables: keys are unique, every version belongs to a service, ids are
    never handed out twice, and no row is ever soft-deleted. */
module Integrity {
  import opened Rows
  import opened Schema
  import opened SortedView
  import opened Protocol

  ghost predicate UniqueServices(rows: seq<Service>) {
    && (forall id :: |Select(rows, HasId(id))| <= 1)
    && (forall name :: |Select(rows, HasName(name))| <= 1)
  }

  ghost predicate UniqueVersions(rows: seq<Version>) {
    forall id, tag :: |Select(rows, HasKey(id, tag))| <= 1
  }

  predicate Exists(rows: seq<Service>, id: nat) {
    exists s :: s in rows && s.id == id
  }

  ghost predicate Referential(db: Database) {
    forall v :: v in db.versions ==> Exists(db.services, v.serviceId)
  }

  ghost predicate NoneSoftDeleted(db: Database) {
    && (forall s :: s in db.services || s in db.view ==> !s.softDeleted)
    && (forall v :: v in db.versions ==> !v.softDeleted)
  }

  ghost predicate IdsIssued(db: Database) {
    forall s :: s in db.services ==> s.id < db.nextId
  }

  ghost predicate Consistent(db: Database) {
    && UniqueServices(db.services)
    && UniqueVersions(db.versions)
    && Referential(db)
    && NoneSoftDeleted(db)
    && IdsIssued(db)
  }

  // Scoped and unscoped queries

  /** With no soft-deleted rows a scoped query sees what an unscoped one sees. */
  lemma LiveIsAll(db: Database)
    requires NoneSoftDeleted(db)
    ensures forall id :: Select(db.services, LiveId(id)) == Select(db.services, HasId(id))
    ensures forall name :: Select(db.services, LiveName(name)) == Select(db.services, HasName(name))
    ensures forall name, id ::
      Select(db.services, LiveOtherWithName(name, id)) == Select(db.services, OtherWithName(name, id))
    ensures forall id, tag :: Select(db.versions, LiveKey(id, tag)) == Select(db.versions, HasKey(id, tag))
  {
    forall id { SelectPointwise(db.services, LiveId(id), HasId(id)); }
    forall name { SelectPointwise(db.services, LiveName(name), HasName(name)); }
    forall name, id { SelectPointwise(db.services, LiveOtherWithName(name, id), OtherWithName(name, id)); }
    forall id, tag { SelectPointwise(db.versions, LiveKey(id, tag), HasKey(id, tag)); }
  }

  lemma ExistsSelect(rows: seq<Service>, id: nat)
    ensures Exists(rows, id) <==> Select(rows, HasId(id)) != []
  {
    SelectEmpty(rows, HasId(id));
  }

  // Service table

  lemma InsertServiceKeeps(db: Database, name: string, description: string)
    requires Consistent(db) && InsertService(db, name, description).Committed?
    ensures Consistent(InsertService(db, name, description).db)
  {
    var row := Service(db.nextId, name, description, 0, false);
    var db' := InsertService(db, name, description).db;
    forall id
      ensures |Select(db'.services, HasId(id))| <= 1
    {
      SelectInsert(db.services, row, HasId(id));
      if id == db.nextId {
        SelectEmpty(db.services, HasId(id));
      }
    }
    forall n
      ensures |Select(db'.services, HasName(n))| <= 1
    {
      SelectInsert(db.services, row, HasName(n));
    }
    forall v | v in db'.versions
      ensures Exists(db'.services, v.serviceId)
    {
      var s :| s in db.services && s.id == v.serviceId;
      assert s in db'.services;
    }
  }

  /** After a rename the name counts its old rivals and the renamed rows; no other name gains a row. */
  lemma {:induction false} RenameCounts(rows: seq<Service>, id: nat, name: string, description: string, n: string)
    requires name != ""
    ensures n != name ==> |Select(Update(rows, LiveId(id), SetService(name, description)), HasName(n))|
                          <= |Select(rows, HasName(n))|
    ensures (forall s :: s in rows ==> !s.softDeleted)
            ==> |Select(Update(rows, LiveId(id), SetService(name, description)), HasName(name))|
                == |Select(rows, OtherWithName(name, id))| + |Select(rows, HasId(id))|
  {
    if rows != [] {
      RenameCounts(rows[1..], id, name, description, n);
      assert rows[0] in rows && forall s :: s in rows[1..] ==> s in rows;
    }
  }

  lemma UpdateServiceKeepsNames(db: Database, id: nat, name: string, description: string)
    requires Consistent(db) && (name == "" || Select(db.services, OtherWithName(name, id)) == [])
    ensures UniqueServices(Update(db.services, LiveId(id), SetService(name, description)))
  {
    var rows' := Update(db.services, LiveId(id), SetService(name, description));
    forall i
      ensures |Select(rows', HasId(i))| <= 1
    {
      UpdateCount(db.services, LiveId(id), SetService(name, description), HasId(i));
    }
    forall n
      ensures |Select(rows', HasName(n))| <= 1
    {
      if name == "" {
        UpdateCount(db.services, LiveId(id), SetService(name, description), HasName(n));
      } else {
        RenameCounts(db.services, id, name, description, n);
      }
    }
  }

  lemma UpdateKeepsIds(rows: seq<Service>, where: Service -> bool, change: Service -> Service)
    requires forall s :: change(s).id == s.id
    ensures forall i :: Exists(Update(rows, where, change), i) <==> Exists(rows, i)
  {
    var rows' := Update(rows, where, change);
    forall i | Exists(rows, i)
      ensures Exists(rows', i)
    {
      var s :| s in rows && s.id == i;
      UpdateKeeps(rows, where, change, s);
    }
    forall i | Exists(rows', i)
      ensures Exists(rows, i)
    {
      var s :| s in rows' && s.id == i;
      var before := UpdateMember(rows, where, change, s);
    }
  }

  /** An update that leaves ids and soft-deletion alone leaves references and scoping alone. */
  lemma UpdateServicesFrame(db: Database, id: nat, change: Service -> Service)
    requires Referential(db) && NoneSoftDeleted(db) && IdsIssued(db)
    requires forall s :: change(s).id == s.id && change(s).softDeleted == s.softDeleted
    ensures var db' := db.(services := Update(db.services, LiveId(id), change));
            Referential(db') && NoneSoftDeleted(db') && IdsIssued(db')
  {
    UpdateKeepsIds(db.services, LiveId(id), change);
    forall s | s in Update(db.services, LiveId(id), change)
      ensures !s.softDeleted && s.id < db.nextId
    {
      var before := UpdateMember(db.services, LiveId(id), change, s);
    }
  }

  lemma UpdateServiceRowKeeps(mode: ZeroRows, db: Database, id: nat, name: string, description: string)
    requires Consistent(db) && UpdateServiceRow(mode, db, id, name, description).Committed?
    ensures Consistent(UpdateServiceRow(mode, db, id, name, description).db)
  {
    if Select(db.services, LiveId(id)) != [] {
      UpdateServiceKeepsNames(db, id, name, description);
      UpdateServicesFrame(db, id, SetService(name, description));
    }
  }

  lemma BumpCountKeeps(mode: ZeroRows, db: Database, id: nat, delta: int)
    requires Consistent(db) && BumpCount(mode, db, id, delta).Committed?
    ensures Consistent(BumpCount(mode, db, id, delta).db)
  {
    forall i { UpdateCount(db.services, LiveId(id), AddToCount(delta), HasId(i)); }
    forall n { UpdateCount(db.services, LiveId(id), AddToCount(delta), HasName(n)); }
    UpdateServicesFrame(db, id, AddToCount(delta));
  }

  lemma RemoveServiceKeeps(mode: ZeroRows, db: Database, id: nat)
    requires Consistent(db) && RemoveService(mode, db, id).Committed?
    ensures Consistent(RemoveService(mode, db, id).db)
  {
    var rows' := Discard(db.services, HasId(id));
    DiscardMember(db.services, HasId(id));
    SelectEmpty(db.versions, OfService(id));
    forall i { DiscardCount(db.services, HasId(id), HasId(i)); }
    forall n { DiscardCount(db.services, HasId(id), HasName(n)); }
    forall v | v in db.versions
      ensures Exists(rows', v.serviceId)
    {
      var s :| s in db.services && s.id == v.serviceId;
      assert s in rows';
    }
  }

  // Version table

  lemma InsertVersionKeeps(db: Database, id: nat, tag: string, info: string)
    requires Consistent(db) && InsertVersion(db, id, tag, info).Committed?
    ensures Consistent(InsertVersion(db, id, tag, info).db)
  {
    ExistsSelect(db.services, id);
    forall i, t { SelectInsert(db.versions, Version(id, tag, info, false), HasKey(i, t)); }
  }

  lemma UpdateVersionRowKeeps(mode: ZeroRows, db: Database, id: nat, tag: string, info: string)
    requires Consistent(db) && UpdateVersionRow(mode, db, id, tag, info).Committed?
    ensures Consistent(UpdateVersionRow(mode, db, id, tag, info).db)
  {
    forall i, t { UpdateCount(db.versions, LiveKey(id, tag), SetInfo(info), HasKey(i, t)); }
    forall v | v in Update(db.versions, LiveKey(id, tag), SetInfo(info))
      ensures !v.softDeleted && Exists(db.services, v.serviceId)
    {
      var before := UpdateMember(db.versions, LiveKey(id, tag), SetInfo(info), v);
    }
  }

  lemma DiscardVersionsKeeps(db: Database, kill: Version -> bool)
    requires Consistent(db)
    ensures Consistent(db.(versions := Discard(db.versions, kill)))
  {
    DiscardMember(db.versions, kill);
    forall i, t { DiscardCount(db.versions, kill, HasKey(i, t)); }
  }

  // Transactions, steps and runs

  lemma DeleteServiceTxKeeps(mode: ZeroRows, db: Database, id: nat, fault: Fault)
    requires Consistent(db)
    ensures Consistent(DeleteServiceTx(mode, db, id, fault).0)
  {
    DiscardVersionsKeeps(db, OfService(id));
    var removed := RemoveVersionsOf(mode, db, id);
    var cleared := if removed.Committed? then removed.db else db;
    if RemoveService(mode, cleared, id).Committed? {
      RemoveServiceKeeps(mode, cleared, id);
    }
  }

  lemma CreateVersionTxKeeps(mode: ZeroRows, db: Database, id: nat, tag: string, info: string, fault: Fault)
    requires Consistent(db)
    ensures Consistent(CreateVersionTx(mode, db, id, tag, info, fault).0)
  {
    var inserted := InsertVersion(db, id, tag, info);
    if inserted.Committed? {
      InsertVersionKeeps(db, id, tag, info);
      if BumpCount(mode, inserted.db, id, 1).Committed? {
        BumpCountKeeps(mode, inserted.db, id, 1);
      }
    }
  }

  lemma DeleteVersionTxKeeps(mode: ZeroRows, db: Database, id: nat, tag: string, fault: Fault)
    requires Consistent(db)
    ensures Consistent(DeleteVersionTx(mode, db, id, tag, fault).0)
  {
    var removed := RemoveVersion(mode, db, id, tag);
    DiscardVersionsKeeps(db, HasKey(id, tag));
    if removed.Committed? && BumpCount(mode, removed.db, id, -1).Committed? {
      BumpCountKeeps(mode, removed.db, id, -1);
    }
  }

  lemma ExecuteKeeps(mode: ZeroRows, db: Database, op: Op, fault: Fault)
    requires Consistent(db)
    ensures Consistent(Execute(mode, db, op, fault).0)
  {
    match op
    case CreateService(name, description) =>
      if InsertService(db, name, description).Committed? {
        InsertServiceKeeps(db, name, description);
      }
    case UpdateService(id, name, description) =>
      if UpdateServiceRow(mode, db, id, name, description).Committed? {
        UpdateServiceRowKeeps(mode, db, id, name, description);
      }
    case DeleteService(id) => DeleteServiceTxKeeps(mode, db, id, fault);
    case CreateVersion(id, tag, info) => CreateVersionTxKeeps(mode, db, id, tag, info, fault);
    case UpdateVersion(id, tag, info) =>
      if UpdateVersionRow(mode, db, id, tag, info).Committed? {
        UpdateVersionRowKeeps(mode, db, id, tag, info);
      }
    case DeleteVersion(id, tag) => DeleteVersionTxKeeps(mode, db, id, tag, fault);
  }

  lemma RefreshedKeeps(db: Database)
    requires Consistent(db)
    ensures Consistent(Refreshed(db))
  {
    SortByNameSorts(db.services);
  }

  lemma StepKeeps(mode: ZeroRows, s: State, e: Event)
    requires Consistent(s.db)
    ensures Consistent(Apply(mode, s, e).db)
  {
    StepDatabase(mode, s, e);
    if Writes(s, e) {
      ExecuteKeeps(mode, s.db, s.tasks[e.tid].op, e.fault);
    } else if RefreshSucceeds(s, e) {
      RefreshedKeeps(s.db);
    }
  }

  /** In every run: unique ids, names and (service, tag) pairs; every version refers to a service that
      exists; and no row of the tables or of the view is soft-deleted. */
  lemma {:induction false} IntegrityAlways(mode: ZeroRows, es: seq<Event>)
    ensures Consistent(After(mode, es).db)
  {
    if es != [] {
      IntegrityAlways(mode, es[..|es| - 1]);
      StepKeeps(mode, After(mode, es[..|es| - 1]), es[|es| - 1]);
    }
  }

  /** The duplicate counts the creators test against 1 are 0 or 1 in every run, scoped or not, so the
      test means that a row exists. */
  lemma DuplicateCounts(mode: ZeroRows, es: seq<Event>, name: string, id: nat, tag: string)
    ensures var db := After(mode, es).db;
      && |Select(db.services, LiveName(name))| <= 1
      && |Select(db.services, LiveOtherWithName(name, id))| <= 1
      && |Select(db.versions, LiveKey(id, tag))| <= 1
      && (|Select(db.services, LiveName(name))| == 1 <==> exists s :: s in db.services && s.name == name)
      && (|Select(db.versions, LiveKey(id, tag))| == 1
          <==> exists v :: v in db.versions && v.serviceId == id && v.tag == tag)
  {
    var db := After(mode, es).db;
    IntegrityAlways(mode, es);
    LiveIsAll(db);
    SelectEmpty(db.services, HasName(name));
    SelectEmpty(db.versions, HasKey(id, tag));
    SelectNarrower(db.services, OtherWithName(name, id), HasName(name));
  }

  /** Deleting a service, in any consistent database and with any fault, removes the service together
      with all its versions and nothing else, or changes nothing. */
  lemma DeleteServiceAllOrNothing(mode: ZeroRows, db: Database, id: nat, fault: Fault)
    requires Consistent(db)
    ensures var (db', reply) := Execute(mode, db, DeleteService(id), fault);
      && (reply != OK ==> db' == db)
      && (reply == OK ==>
            && !Exists(db'.services, id)
            && (forall s :: s in db'.services <==> s in db.services && s.id != id)
            && (forall v :: v in db'.versions <==> v in db.versions && v.serviceId != id))
      && (reply == OK || reply == ErrTransaction || reply == ErrInternal)
      && (reply == OK <==> fault.NoFault? && (mode.Silent? || Exists(db.services, id)))
      && (reply == ErrTransaction <==>
            fault.AtBegin? || (fault.AtCommit? && (mode.Silent? || Exists(db.services, id))))
  {
    DiscardMember(db.services, HasId(id));
    DiscardMember(db.versions, OfService(id));
    SelectEmpty(db.versions, OfService(id));
    SelectEmpty(Discard(db.versions, OfService(id)), OfService(id));
    ExistsSelect(db.services, id);
  }

  lemma DeleteServiceLeaves(mode: ZeroRows, db: Database, id: nat, fault: Fault)
    requires DeleteServiceTx(mode, db, id, fault).1 == OK
    ensures DeleteServiceTx(mode, db, id, fault).0
         == db.(services := Discard(db.services, HasId(id)), versions := Discard(db.versions, OfService(id)))
  {
    if RemoveVersionsOf(mode, db, id).Failed? {
      DiscardNone(db.versions, OfService(id));
    }
  }

  /** What a deletion of a service leaves stays in table order. */
  lemma DeleteServiceKeepsOrder(mode: ZeroRows, db: Database, id: nat, fault: Fault)
    requires Execute(mode, db, DeleteService(id), fault).1 == OK
    ensures var db' := Execute(mode, db, DeleteService(id), fault).0;
      && Picked(db.services, db'.services, (s: Service) => s.id != id)
      && Picked(db.versions, db'.versions, (v: Version) => v.serviceId != id)
  {
    DeleteServiceLeaves(mode, db, id, fault);
    var keptServices, keptVersions := (s: Service) => s.id != id, (v: Version) => v.serviceId != id;
    DiscardPicks(db.services, HasId(id), keptServices);
    DiscardPicks(db.versions, OfService(id), keptVersions);
    PickedAlike(db.services, Discard(db.services, HasId(id)), keptServices, (s: Service) => s.id != id);
    PickedAlike(db.versions, Discard(db.versions, OfService(id)), keptVersions, (v: Version) => v.serviceId != id);
  }
}
