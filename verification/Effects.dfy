/** What each writing call does to a consistent database, row by row, and exactly when it answers how. */
module Effects {
  import opened Rows
  import opened Schema
  import opened Protocol
  import opened Integrity

  predicate Named(rows: seq<Service>, name: string) { exists s :: s in rows && s.name == name }

  predicate Rival(rows: seq<Service>, name: string, id: nat) {
    exists s :: s in rows && s.name == name && s.id != id
  }

  predicate Tagged(rows: seq<Version>, id: nat, tag: string) {
    exists v :: v in rows && v.serviceId == id && v.tag == tag
  }

  /** The tables differ only in the version count of service `id`. */
  predicate OnlyCountMoved(before: seq<Service>, after: seq<Service>, id: nat, delta: int) {
    && |after| == |before|
    && forall i :: 0 <= i < |before| ==>
         after[i] == if before[i].id != id then before[i]
                     else before[i].(versionCount := before[i].versionCount + delta)
  }

  /** A service is created under an id no service has, at the end of the table, or not at all. */
  lemma CreateServiceEffect(mode: ZeroRows, db: Database, name: string, description: string, fault: Fault)
    requires Consistent(db)
    ensures var (db', reply) := Execute(mode, db, CreateService(name, description), fault);
      && (reply == OK <==> fault.NoFault? && !Named(db.services, name))
      && (reply == ErrServiceAlreadyExists <==> fault.NoFault? && Named(db.services, name))
      && (reply != OK ==> db' == db)
      && (reply == OK ==>
            && db'.services == db.services + [Service(db.nextId, name, description, 0, false)]
            && !Exists(db.services, db.nextId) && db'.nextId > db.nextId && db'.versions == db.versions)
  {
    SelectEmpty(db.services, HasName(name));
  }

  /** An update touches the row of that id alone, keeps its version count, and skips empty fields. */
  lemma UpdateServiceEffect(mode: ZeroRows, db: Database, id: nat, name: string, description: string, fault: Fault)
    requires Consistent(db)
    ensures var (db', reply) := Execute(mode, db, UpdateService(id, name, description), fault);
      var blocked := name != "" && Rival(db.services, name, id);
      && (reply == OK <==> fault.NoFault? && if Exists(db.services, id) then !blocked else mode.Silent?)
      && (reply == ErrServiceAlreadyExists <==> fault.NoFault? && Exists(db.services, id) && blocked)
      && (reply == ErrServiceDoesNotExist <==> fault.NoFault? && !Exists(db.services, id) && mode.NotFound?)
      && (reply != OK ==> db' == db)
      && (reply == OK ==> db'.versions == db.versions && |db'.services| == |db.services|)
      && (reply == OK ==> forall i :: 0 <= i < |db.services| ==> var s, s' := db.services[i], db'.services[i];
            if s.id != id then s' == s
            else && s'.id == id && s'.versionCount == s.versionCount && !s'.softDeleted
                 && s'.name == (if name == "" then s.name else name)
                 && s'.description == (if description == "" then s.description else description))
  {
    LiveIsAll(db);
    ExistsSelect(db.services, id);
    SelectEmpty(db.services, OtherWithName(name, id));
    if !Exists(db.services, id) {
      assert forall i :: 0 <= i < |db.services| ==> db.services[i] in db.services;
    }
    assert forall i :: 0 <= i < |db.services| ==> db.services[i] in db.services;
  }

  /** The row an update hands back, made of what was asked for and a zero count, is the row it stored exactly
      if there was a row to hit, without versions counted, and nothing was skipped that it did not lack. */
  lemma ReturnedIsStored(mode: ZeroRows, db: Database, id: nat, name: string, description: string)
    requires Consistent(db) && Execute(mode, db, UpdateService(id, name, description), NoFault).1 == OK
    ensures var db' := Execute(mode, db, UpdateService(id, name, description), NoFault).0;
      Service(id, name, description, 0, false) in db'.services
      <==> exists s :: s in db.services && s.id == id && s.versionCount == 0
                       && (name == "" ==> s.name == "") && (description == "" ==> s.description == "")
  {
    var db' := Execute(mode, db, UpdateService(id, name, description), NoFault).0;
    var row := Service(id, name, description, 0, false);
    UpdateServiceEffect(mode, db, id, name, description, NoFault);
    if row in db'.services {
      var i :| 0 <= i < |db'.services| && db'.services[i] == row;
      assert db.services[i] in db.services;
    }
    if s :| s in db.services && s.id == id && s.versionCount == 0
            && (name == "" ==> s.name == "") && (description == "" ==> s.description == "") {
      var i :| 0 <= i < |db.services| && db.services[i] == s;
      assert db'.services[i] == row;
    }
  }

  /** A version is added and its service counted up by one, both or neither. */
  lemma CreateVersionEffect(mode: ZeroRows, db: Database, id: nat, tag: string, info: string, fault: Fault)
    requires Consistent(db)
    ensures var (db', reply) := Execute(mode, db, CreateVersion(id, tag, info), fault);
      && (reply == OK <==> fault.NoFault? && Exists(db.services, id) && !Tagged(db.versions, id, tag))
      && (reply == ErrVersionAlreadyExists <==> !fault.AtBegin? && !fault.AtFirst? && Tagged(db.versions, id, tag))
      && (reply == ErrTransaction <==>
            fault.AtBegin? || (fault.AtCommit? && Exists(db.services, id) && !Tagged(db.versions, id, tag)))
      && (reply != OK ==> db' == db)
      && (reply == OK ==>
            && db'.versions == db.versions + [Version(id, tag, info, false)]
            && OnlyCountMoved(db.services, db'.services, id, 1))
  {
    ExistsSelect(db.services, id);
    LiveIsAll(db);
    SelectEmpty(db.versions, HasKey(id, tag));
    assert forall i :: 0 <= i < |db.services| ==> db.services[i] in db.services;
  }

  /** A version is removed and its service counted down by one, both or neither, except that under
      silent reporting the count also goes down when there was nothing to remove. */
  lemma DeleteVersionEffect(mode: ZeroRows, db: Database, id: nat, tag: string, fault: Fault)
    requires Consistent(db)
    ensures var (db', reply) := Execute(mode, db, DeleteVersion(id, tag), fault);
      && (reply == OK <==> fault.NoFault? && (mode.Silent? || Tagged(db.versions, id, tag)))
      && (reply == ErrVersionDoesNotExist
          <==> !fault.AtBegin? && !fault.AtFirst? && mode.NotFound? && !Tagged(db.versions, id, tag))
      && (reply == ErrTransaction <==>
            fault.AtBegin? || (fault.AtCommit? && (mode.Silent? || Tagged(db.versions, id, tag))))
      && (reply != OK ==> db' == db)
      && (reply == OK ==>
            && (forall v :: v in db'.versions <==> v in db.versions && !(v.serviceId == id && v.tag == tag))
            && OnlyCountMoved(db.services, db'.services, id, -1))
  {
    ExistsSelect(db.services, id);
    LiveIsAll(db);
    SelectEmpty(db.versions, HasKey(id, tag));
    DiscardMember(db.versions, HasKey(id, tag));
    assert forall i :: 0 <= i < |db.services| ==> db.services[i] in db.services;
  }

  lemma DeleteVersionLeaves(mode: ZeroRows, db: Database, id: nat, tag: string, fault: Fault)
    requires DeleteVersionTx(mode, db, id, tag, fault).1 == OK
    ensures DeleteVersionTx(mode, db, id, tag, fault).0.versions == Discard(db.versions, HasKey(id, tag))
  {
  }

  /** What a deletion of a version leaves stays in table order. */
  lemma DeleteVersionKeepsOrder(mode: ZeroRows, db: Database, id: nat, tag: string, fault: Fault)
    requires DeleteVersionTx(mode, db, id, tag, fault).1 == OK
    ensures Picked(db.versions, DeleteVersionTx(mode, db, id, tag, fault).0.versions,
                   (v: Version) => !(v.serviceId == id && v.tag == tag))
  {
    DeleteVersionLeaves(mode, db, id, tag, fault);
    var kept := (v: Version) => !(v.serviceId == id && v.tag == tag);
    DiscardPicks(db.versions, HasKey(id, tag), kept);
    PickedAlike(db.versions, Discard(db.versions, HasKey(id, tag)), kept,
                (v: Version) => !(v.serviceId == id && v.tag == tag));
  }

  /** An update of a version rewrites its info, unless empty, and no service row. */
  lemma UpdateVersionEffect(mode: ZeroRows, db: Database, id: nat, tag: string, info: string, fault: Fault)
    requires Consistent(db)
    ensures var (db', reply) := Execute(mode, db, UpdateVersion(id, tag, info), fault);
      && (reply == OK <==> fault.NoFault? && (mode.Silent? || Tagged(db.versions, id, tag)))
      && (reply == ErrVersionDoesNotExist <==> fault.NoFault? && mode.NotFound? && !Tagged(db.versions, id, tag))
      && db'.services == db.services && |db'.versions| == |db.versions|
      && forall i :: 0 <= i < |db.versions| ==> var v, v' := db.versions[i], db'.versions[i];
           && v'.serviceId == v.serviceId && v'.tag == v.tag && !v'.softDeleted
           && v'.info == if reply == OK && v.serviceId == id && v.tag == tag && info != "" then info else v.info
  {
    LiveIsAll(db);
    SelectEmpty(db.versions, HasKey(id, tag));
    assert forall i :: 0 <= i < |db.versions| ==> db.versions[i] in db.versions;
  }

  /** Two failed attempts at a start-up or scheduled refresh are retried; the third ends the process. */
  lemma ThreeFailuresEndTheProcess(mode: ZeroRows, s: State)
    requires s.syncer == Booting(0) || s.syncer == Scheduled(0)
    ensures var one := Apply(mode, s, Refresh(false));
            var two := Apply(mode, one, Refresh(false));
            && !one.syncer.Down? && !two.syncer.Down? && Apply(mode, two, Refresh(false)).syncer.Down?
            && RefreshSucceeds(one, Refresh(true)) && RefreshSucceeds(two, Refresh(true))
            && Apply(mode, two, Refresh(false)).db == s.db
  {
  }
}
