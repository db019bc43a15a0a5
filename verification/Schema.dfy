/** The service and version tables, the materialized view beside them, and the statements the
    operations send to the database: unique keys on service.name and version(service_id, tag), a
    foreign key from version to service, auto-increment ids, and the update rules of the ORM. */
module Schema {
  import opened Rows

  datatype Service = Service(id: nat, name: string, description: string, versionCount: int, softDeleted: bool)

  datatype Version = Version(serviceId: nat, tag: string, info: string, softDeleted: bool)

  /** `view` is the stored result of name_sorted_service; only a refresh writes it. */
  datatype Database = Database(services: seq<Service>, versions: seq<Version>, nextId: nat, view: seq<Service>)

  /** How a write that hits no row is reported: as success, as the ORM does, or as
      ErrRecordNotFound, as the callers expect. */
  datatype ZeroRows = Silent | NotFound

  datatype DbError = ConnectionLost | DuplicateKey | NoSuchService | RecordNotFound

  /** The table or database a statement leaves, or why the database refused it. */
  datatype Outcome<+D> = Committed(db: D) | Failed(error: DbError)

  // WHERE conditions. Model(...) queries skip soft-deleted rows; constraints and Unscoped deletes do not.

  function HasId(id: nat): Service -> bool { (s: Service) => s.id == id }
  function LiveId(id: nat): Service -> bool { (s: Service) => s.id == id && !s.softDeleted }
  function HasName(name: string): Service -> bool { (s: Service) => s.name == name }
  function LiveName(name: string): Service -> bool { (s: Service) => s.name == name && !s.softDeleted }
  function OtherWithName(name: string, id: nat): Service -> bool { (s: Service) => s.name == name && s.id != id }
  function LiveOtherWithName(name: string, id: nat): Service -> bool {
    (s: Service) => s.name == name && s.id != id && !s.softDeleted
  }

  function HasKey(id: nat, tag: string): Version -> bool { (v: Version) => v.tag == tag && v.serviceId == id }
  function LiveKey(id: nat, tag: string): Version -> bool {
    (v: Version) => v.tag == tag && v.serviceId == id && !v.softDeleted
  }
  function OfService(id: nat): Version -> bool { (v: Version) => v.serviceId == id }

  // SET clauses. A struct passed to Updates leaves out its zero-valued fields.

  function SetService(name: string, description: string): Service -> Service {
    (s: Service) => s.(name := if name == "" then s.name else name,
                       description := if description == "" then s.description else description)
  }
  function AddToCount(delta: int): Service -> Service {
    (s: Service) => s.(versionCount := s.versionCount + delta)
  }
  function SetInfo(info: string): Version -> Version {
    (v: Version) => v.(info := if info == "" then v.info else info)
  }

  // Single statements

  function InsertService(db: Database, name: string, description: string): Outcome<Database> {
    if Select(db.services, HasName(name)) != [] then Failed(DuplicateKey)
    else Committed(db.(services := db.services + [Service(db.nextId, name, description, 0, false)],
                       nextId := db.nextId + 1))
  }

  function UpdateServiceRow(mode: ZeroRows, db: Database, id: nat, name: string,
                            description: string): Outcome<Database> {
    if Select(db.services, LiveId(id)) == [] then
      (if mode.NotFound? then Failed(RecordNotFound) else Committed(db))
    else if name != "" && Select(db.services, OtherWithName(name, id)) != [] then Failed(DuplicateKey)
    else Committed(db.(services := Update(db.services, LiveId(id), SetService(name, description))))
  }

  function BumpCount(mode: ZeroRows, db: Database, id: nat, delta: int): Outcome<Database> {
    if mode.NotFound? && Select(db.services, LiveId(id)) == [] then Failed(RecordNotFound)
    else Committed(db.(services := Update(db.services, LiveId(id), AddToCount(delta))))
  }

  function RemoveService(mode: ZeroRows, db: Database, id: nat): Outcome<Database> {
    if mode.NotFound? && Select(db.services, HasId(id)) == [] then Failed(RecordNotFound)
    else if Select(db.versions, OfService(id)) != [] then Failed(NoSuchService)
    else Committed(db.(services := Discard(db.services, HasId(id))))
  }

  function InsertVersion(db: Database, id: nat, tag: string, info: string): Outcome<Database> {
    if Select(db.versions, HasKey(id, tag)) != [] then Failed(DuplicateKey)
    else if Select(db.services, HasId(id)) == [] then Failed(NoSuchService)
    else Committed(db.(versions := db.versions + [Version(id, tag, info, false)]))
  }

  function UpdateVersionRow(mode: ZeroRows, db: Database, id: nat, tag: string, info: string): Outcome<Database> {
    if mode.NotFound? && Select(db.versions, LiveKey(id, tag)) == [] then Failed(RecordNotFound)
    else Committed(db.(versions := Update(db.versions, LiveKey(id, tag), SetInfo(info))))
  }

  function RemoveVersion(mode: ZeroRows, db: Database, id: nat, tag: string): Outcome<Database> {
    if mode.NotFound? && Select(db.versions, HasKey(id, tag)) == [] then Failed(RecordNotFound)
    else Committed(db.(versions := Discard(db.versions, HasKey(id, tag))))
  }

  function RemoveVersionsOf(mode: ZeroRows, db: Database, id: nat): Outcome<Database> {
    if mode.NotFound? && Select(db.versions, OfService(id)) == [] then Failed(RecordNotFound)
    else Committed(db.(versions := Discard(db.versions, OfService(id))))
  }
}
