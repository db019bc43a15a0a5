/** The user table and the requests that work on it, one database call at a time. */
module Users {
  import opened Rows
  import opened Schema

  datatype User = User(id: nat, name: string, email: string, role: string, passwordHash: string,
                       temporaryPassword: bool, softDeleted: bool)

  datatype UserReply = OK | ErrInternal | ErrUserAlreadyExists | ErrUserDoesNotExist

  datatype UserOp =
    | CreateUser(name: string, email: string, role: string, passwordHash: string)
    | UpdateUser(id: nat, name: string, email: string, role: string)
    | DeleteUser(id: nat)
    | ChangePassword(email: string, passwordHash: string)

  datatype UserPc = Check | CheckEmail | Write | Finished(reply: UserReply)

  datatype UserTask = UserTask(op: UserOp, pc: UserPc)

  datatype UserTable = UserTable(rows: seq<User>, nextId: nat)

  datatype UserState = UserState(table: UserTable, tasks: map<nat, UserTask>)

  datatype UserEvent = Begin(tid: nat, op: UserOp) | Client(tid: nat, fails: bool) | Restart

  function HasUserId(id: nat): User -> bool { (u: User) => u.id == id }
  function LiveUserId(id: nat): User -> bool { (u: User) => u.id == id && !u.softDeleted }
  function HasEmail(email: string): User -> bool { (u: User) => u.email == email }
  function LiveEmail(email: string): User -> bool { (u: User) => u.email == email && !u.softDeleted }
  function OtherWithEmail(email: string, id: nat): User -> bool { (u: User) => u.email == email && u.id != id }
  function LiveOtherWithEmail(email: string, id: nat): User -> bool {
    (u: User) => u.email == email && u.id != id && !u.softDeleted
  }
  function LiveUser(): User -> bool { (u: User) => !u.softDeleted }

  /** Updates(struct): the hash and the flag are zero in the struct, so they are left out. */
  function SetUser(name: string, email: string, role: string): User -> User {
    (u: User) => u.(name := if name == "" then u.name else name,
                    email := if email == "" then u.email else email,
                    role := if role == "" then u.role else role)
  }

  /** Updates(map): every entry is written, false and empty ones too. */
  function SetPassword(email: string, hash: string): User -> User {
    (u: User) => u.(email := email, passwordHash := hash, temporaryPassword := false)
  }

  function InsertUser(t: UserTable, name: string, email: string, role: string, hash: string): Outcome<UserTable> {
    if Select(t.rows, HasEmail(email)) != [] then Failed(DuplicateKey)
    else Committed(UserTable(t.rows + [User(t.nextId, name, email, role, hash, true, false)], t.nextId + 1))
  }

  function UpdateUserRow(mode: ZeroRows, t: UserTable, id: nat, name: string, email: string,
                         role: string): Outcome<UserTable> {
    if Select(t.rows, LiveUserId(id)) == [] then (if mode.NotFound? then Failed(RecordNotFound) else Committed(t))
    else if email != "" && Select(t.rows, OtherWithEmail(email, id)) != [] then Failed(DuplicateKey)
    else Committed(t.(rows := Update(t.rows, LiveUserId(id), SetUser(name, email, role))))
  }

  function RemoveUser(mode: ZeroRows, t: UserTable, id: nat): Outcome<UserTable> {
    if mode.NotFound? && Select(t.rows, HasUserId(id)) == [] then Failed(RecordNotFound)
    else Committed(t.(rows := Discard(t.rows, HasUserId(id))))
  }

  function WritePassword(mode: ZeroRows, t: UserTable, email: string, hash: string): Outcome<UserTable> {
    if mode.NotFound? && Select(t.rows, LiveEmail(email)) == [] then Failed(RecordNotFound)
    else Committed(t.(rows := Update(t.rows, LiveEmail(email), SetPassword(email, hash))))
  }

  function Attempt(mode: ZeroRows, t: UserTable, op: UserOp): Outcome<UserTable> {
    match op
    case CreateUser(name, email, role, hash) => InsertUser(t, name, email, role, hash)
    case UpdateUser(id, name, email, role) => UpdateUserRow(mode, t, id, name, email, role)
    case DeleteUser(id) => RemoveUser(mode, t, id)
    case ChangePassword(email, hash) => WritePassword(mode, t, email, hash)
  }

  function FromError(op: UserOp, error: DbError): UserReply {
    match op
    case CreateUser(_, _, _, _) => if error.DuplicateKey? then ErrUserAlreadyExists else ErrInternal
    case UpdateUser(_, _, _, _) =>
      if error.DuplicateKey? then ErrUserAlreadyExists
      else if error.RecordNotFound? then ErrUserDoesNotExist
      else ErrInternal
    case DeleteUser(_) => ErrInternal
    case ChangePassword(_, _) => if error.RecordNotFound? then ErrUserDoesNotExist else ErrInternal
  }

  function Execute(mode: ZeroRows, t: UserTable, op: UserOp, fails: bool): (UserTable, UserReply) {
    if fails then (t, ErrInternal)
    else match Attempt(mode, t, op)
      case Committed(t') => (t', OK)
      case Failed(error) => (t, FromError(op, error))
  }

  function AfterCheck(t: UserTable, op: UserOp, fails: bool): UserPc {
    if fails then Finished(ErrInternal)
    else match op
      case CreateUser(_, email, _, _) =>
        if |Select(t.rows, LiveEmail(email))| == 1 then Finished(ErrUserAlreadyExists) else Write
      case UpdateUser(id, _, _, _) =>
        if |Select(t.rows, LiveUserId(id))| == 0 then Finished(ErrUserDoesNotExist) else CheckEmail
      case DeleteUser(id) =>
        if |Select(t.rows, LiveUserId(id))| == 0 then Finished(ErrUserDoesNotExist) else Write
      case ChangePassword(email, _) =>
        if |Select(t.rows, LiveEmail(email))| == 0 then Finished(ErrUserDoesNotExist) else Write
  }

  function AfterCheckEmail(t: UserTable, op: UserOp, fails: bool): UserPc {
    if fails then Finished(ErrInternal)
    else if op.UpdateUser? && |Select(t.rows, LiveOtherWithEmail(op.email, op.id))| == 1
    then Finished(ErrUserAlreadyExists)
    else Write
  }

  function ClientStep(mode: ZeroRows, s: UserState, tid: nat, fails: bool): UserState
    requires tid in s.tasks
  {
    var UserTask(op, pc) := s.tasks[tid];
    match pc
    case Check => s.(tasks := s.tasks[tid := UserTask(op, AfterCheck(s.table, op, fails))])
    case CheckEmail => s.(tasks := s.tasks[tid := UserTask(op, AfterCheckEmail(s.table, op, fails))])
    case Write =>
      var (t', reply) := Execute(mode, s.table, op, fails);
      UserState(t', s.tasks[tid := UserTask(op, Finished(reply))])
    case Finished(_) => s
  }

  function Apply(mode: ZeroRows, s: UserState, e: UserEvent): UserState {
    match e
    case Begin(tid, op) => if tid in s.tasks then s else s.(tasks := s.tasks[tid := UserTask(op, Check)])
    case Client(tid, fails) => if tid in s.tasks then ClientStep(mode, s, tid, fails) else s
    case Restart => s.(tasks := map[])
  }

  function After(mode: ZeroRows, es: seq<UserEvent>): UserState {
    if es == [] then UserState(UserTable([], 1), map[])
    else Apply(mode, After(mode, es[..|es| - 1]), es[|es| - 1])
  }

  lemma AfterNext(mode: ZeroRows, es: seq<UserEvent>, e: UserEvent)
    ensures After(mode, es + [e]) == Apply(mode, After(mode, es), e)
  {
    assert (es + [e])[..|es + [e]| - 1] == es;
  }

  predicate Writes(s: UserState, e: UserEvent) {
    e.Client? && e.tid in s.tasks && s.tasks[e.tid].pc.Write?
  }

  lemma StepTable(mode: ZeroRows, s: UserState, e: UserEvent)
    ensures Apply(mode, s, e).table
         == if Writes(s, e) then Execute(mode, s.table, s.tasks[e.tid].op, e.fails).0 else s.table
  {
  }

  // What every run keeps

  ghost predicate Consistent(t: UserTable) {
    && (forall id :: |Select(t.rows, HasUserId(id))| <= 1)
    && (forall email :: |Select(t.rows, HasEmail(email))| <= 1)
    && (forall u :: u in t.rows ==> !u.softDeleted && u.id < t.nextId)
  }

  lemma LiveIsAll(t: UserTable)
    requires Consistent(t)
    ensures forall id :: Select(t.rows, LiveUserId(id)) == Select(t.rows, HasUserId(id))
    ensures forall email :: Select(t.rows, LiveEmail(email)) == Select(t.rows, HasEmail(email))
    ensures Select(t.rows, LiveUser()) == t.rows
  {
    forall id { SelectPointwise(t.rows, LiveUserId(id), HasUserId(id)); }
    forall email { SelectPointwise(t.rows, LiveEmail(email), HasEmail(email)); }
    SelectAll(t.rows, LiveUser());
  }

  lemma InsertUserKeeps(t: UserTable, name: string, email: string, role: string, hash: string)
    requires Consistent(t) && InsertUser(t, name, email, role, hash).Committed?
    ensures Consistent(InsertUser(t, name, email, role, hash).db)
  {
    var row := User(t.nextId, name, email, role, hash, true, false);
    forall id
      ensures |Select(t.rows + [row], HasUserId(id))| <= 1
    {
      SelectInsert(t.rows, row, HasUserId(id));
      if id == t.nextId {
        SelectEmpty(t.rows, HasUserId(id));
      }
    }
    forall e { SelectInsert(t.rows, row, HasEmail(e)); }
  }

  /** After a rename the address counts its old rivals and the renamed row; no other address gains one. */
  lemma {:induction false} RenameCounts(rows: seq<User>, id: nat, name: string, email: string, role: string, e: string)
    requires email != ""
    ensures e != email ==> |Select(Update(rows, LiveUserId(id), SetUser(name, email, role)), HasEmail(e))|
                           <= |Select(rows, HasEmail(e))|
    ensures (forall u :: u in rows ==> !u.softDeleted)
            ==> |Select(Update(rows, LiveUserId(id), SetUser(name, email, role)), HasEmail(email))|
                == |Select(rows, OtherWithEmail(email, id))| + |Select(rows, HasUserId(id))|
  {
    if rows != [] {
      RenameCounts(rows[1..], id, name, email, role, e);
      assert rows[0] in rows && forall u :: u in rows[1..] ==> u in rows;
    }
  }

  lemma UpdateKeepsIssued(t: UserTable, where: User -> bool, change: User -> User)
    requires Consistent(t) && forall u :: change(u).id == u.id && change(u).softDeleted == u.softDeleted
    ensures forall id :: |Select(Update(t.rows, where, change), HasUserId(id))| <= 1
    ensures forall u :: u in Update(t.rows, where, change) ==> !u.softDeleted && u.id < t.nextId
  {
    forall id { UpdateCount(t.rows, where, change, HasUserId(id)); }
    forall u | u in Update(t.rows, where, change)
      ensures !u.softDeleted && u.id < t.nextId
    {
      var before := UpdateMember(t.rows, where, change, u);
    }
  }

  lemma UpdateUserRowKeeps(mode: ZeroRows, t: UserTable, id: nat, name: string, email: string, role: string)
    requires Consistent(t) && UpdateUserRow(mode, t, id, name, email, role).Committed?
    ensures Consistent(UpdateUserRow(mode, t, id, name, email, role).db)
  {
    if Select(t.rows, LiveUserId(id)) != [] {
      UpdateKeepsIssued(t, LiveUserId(id), SetUser(name, email, role));
      forall e
        ensures |Select(Update(t.rows, LiveUserId(id), SetUser(name, email, role)), HasEmail(e))| <= 1
      {
        if email == "" {
          UpdateCount(t.rows, LiveUserId(id), SetUser(name, email, role), HasEmail(e));
        } else {
          RenameCounts(t.rows, id, name, email, role, e);
        }
      }
    }
  }

  lemma WritePasswordKeeps(mode: ZeroRows, t: UserTable, email: string, hash: string)
    requires Consistent(t) && WritePassword(mode, t, email, hash).Committed?
    ensures Consistent(WritePassword(mode, t, email, hash).db)
  {
    UpdateKeepsIssued(t, LiveEmail(email), SetPassword(email, hash));
    forall e { UpdateCount(t.rows, LiveEmail(email), SetPassword(email, hash), HasEmail(e)); }
  }

  lemma RemoveUserKeeps(mode: ZeroRows, t: UserTable, id: nat)
    requires Consistent(t) && RemoveUser(mode, t, id).Committed?
    ensures Consistent(RemoveUser(mode, t, id).db)
  {
    DiscardMember(t.rows, HasUserId(id));
    forall i { DiscardCount(t.rows, HasUserId(id), HasUserId(i)); }
    forall e { DiscardCount(t.rows, HasUserId(id), HasEmail(e)); }
  }

  lemma ExecuteKeeps(mode: ZeroRows, t: UserTable, op: UserOp, fails: bool)
    requires Consistent(t)
    ensures Consistent(Execute(mode, t, op, fails).0)
    ensures Execute(mode, t, op, fails).0.nextId >= t.nextId
  {
    if Attempt(mode, t, op).Committed? {
      match op
      case CreateUser(name, email, role, hash) => InsertUserKeeps(t, name, email, role, hash);
      case UpdateUser(id, name, email, role) => UpdateUserRowKeeps(mode, t, id, name, email, role);
      case DeleteUser(id) => RemoveUserKeeps(mode, t, id);
      case ChangePassword(email, hash) => WritePasswordKeeps(mode, t, email, hash);
    }
  }

  /** In every run: unique ids and addresses, and no soft-deleted row. */
  lemma {:induction false} UsersConsistent(mode: ZeroRows, es: seq<UserEvent>)
    ensures Consistent(After(mode, es).table)
  {
    if es != [] {
      var s, e := After(mode, es[..|es| - 1]), es[|es| - 1];
      UsersConsistent(mode, es[..|es| - 1]);
      StepTable(mode, s, e);
      if Writes(s, e) {
        ExecuteKeeps(mode, s.table, s.tasks[e.tid].op, e.fails);
      }
    }
  }

  // Temporary passwords

  /** A ChangePassword write that reaches the row of user `id`. */
  ghost predicate PasswordWrite(s: UserState, e: UserEvent, id: nat) {
    && Writes(s, e) && !e.fails && s.tasks[e.tid].op.ChangePassword?
    && exists u :: u in s.table.rows && u.id == id && u.email == s.tasks[e.tid].op.email
  }

  /** The write that creates user `id`. */
  predicate Creation(mode: ZeroRows, s: UserState, e: UserEvent, id: nat) {
    && Writes(s, e) && s.tasks[e.tid].op.CreateUser?
    && Execute(mode, s.table, s.tasks[e.tid].op, e.fails).1 == OK && id == s.table.nextId
  }

  ghost predicate EverChanged(mode: ZeroRows, es: seq<UserEvent>, id: nat) {
    exists k :: 0 <= k < |es| && PasswordWrite(After(mode, es[..k]), es[k], id)
  }

  /** The hash given at creation, or by the latest ChangePassword write to the row. */
  ghost function LatestHash(mode: ZeroRows, es: seq<UserEvent>, id: nat): string {
    if es == [] then ""
    else
      var s, e := After(mode, es[..|es| - 1]), es[|es| - 1];
      if PasswordWrite(s, e, id) || Creation(mode, s, e, id) then s.tasks[e.tid].op.passwordHash
      else LatestHash(mode, es[..|es| - 1], id)
  }

  lemma EverChangedNext(mode: ZeroRows, es: seq<UserEvent>, e: UserEvent, id: nat)
    ensures EverChanged(mode, es + [e], id) <==> EverChanged(mode, es, id) || PasswordWrite(After(mode, es), e, id)
  {
    var longer := es + [e];
    assert longer[..|es|] == es && longer[|es|] == e;
    forall k | 0 <= k < |es|
      ensures longer[..k] == es[..k] && longer[k] == es[k]
    {
    }
    if EverChanged(mode, es, id) {
      var k :| 0 <= k < |es| && PasswordWrite(After(mode, es[..k]), es[k], id);
      assert PasswordWrite(After(mode, longer[..k]), longer[k], id);
    }
  }

  /** The lifecycle, as a relation between the table and what has happened to user `id`. */
  predicate Lifecycle(t: UserTable, id: nat, changed: bool, hash: string) {
    && (forall u :: u in t.rows && u.id == id ==> u.temporaryPassword == !changed && u.passwordHash == hash)
    && (changed ==> id < t.nextId)
  }

  lemma {:induction false} TwoRows(rows: seq<User>, a: User, b: User, id: nat)
    requires a in rows && b in rows && a != b && a.id == id && b.id == id
    ensures |Select(rows, HasUserId(id))| >= 2
  {
    SelectMember(rows, HasUserId(id));
    var hits := Select(rows, HasUserId(id));
    var i :| 0 <= i < |hits| && hits[i] == a;
    var j :| 0 <= j < |hits| && hits[j] == b;
  }

  lemma PasswordWriteKeepsLifecycle(t: UserTable, email: string, hash: string, id: nat, changed: bool, prior: string)
    requires Consistent(t) && Lifecycle(t, id, changed, prior)
    ensures var hit := exists u :: u in t.rows && u.id == id && u.email == email;
            Lifecycle(t.(rows := Update(t.rows, LiveEmail(email), SetPassword(email, hash))), id,
                      changed || hit, if hit then hash else prior)
  {
    var rows' := Update(t.rows, LiveEmail(email), SetPassword(email, hash));
    var hit := exists u :: u in t.rows && u.id == id && u.email == email;
    forall u | u in rows' && u.id == id
      ensures u.temporaryPassword == !(changed || hit) && u.passwordHash == if hit then hash else prior
    {
      var before := UpdateMember(t.rows, LiveEmail(email), SetPassword(email, hash), u);
      if hit && before.email != email {
        var other :| other in t.rows && other.id == id && other.email == email;
        TwoRows(t.rows, before, other, id);
        assert false;
      }
    }
  }

  /** An update that leaves out hash and flag keeps the lifecycle of every user. */
  lemma UpdateKeepsLifecycle(t: UserTable, where: User -> bool, change: User -> User, id: nat, changed: bool,
                             hash: string)
    requires Lifecycle(t, id, changed, hash)
    requires forall u :: var u' := change(u);
      u'.id == u.id && u'.temporaryPassword == u.temporaryPassword && u'.passwordHash == u.passwordHash
    ensures Lifecycle(t.(rows := Update(t.rows, where, change)), id, changed, hash)
  {
    forall u | u in Update(t.rows, where, change) && u.id == id
      ensures u.temporaryPassword == !changed && u.passwordHash == hash
    {
      var before := UpdateMember(t.rows, where, change, u);
    }
  }

  lemma WriteKeepsLifecycle(mode: ZeroRows, s: UserState, e: UserEvent, id: nat, changed: bool, hash: string)
    requires Consistent(s.table) && Lifecycle(s.table, id, changed, hash) && Writes(s, e)
    ensures Lifecycle(Execute(mode, s.table, s.tasks[e.tid].op, e.fails).0, id,
                      changed || PasswordWrite(s, e, id),
                      if PasswordWrite(s, e, id) || Creation(mode, s, e, id) then s.tasks[e.tid].op.passwordHash
                      else hash)
  {
    var t, op := s.table, s.tasks[e.tid].op;
    match op
    case CreateUser(name, email, role, given) =>
    case UpdateUser(target, name, email, role) =>
      UpdateKeepsLifecycle(t, LiveUserId(target), SetUser(name, email, role), id, changed, hash);
    case DeleteUser(target) => DiscardMember(t.rows, HasUserId(target));
    case ChangePassword(email, given) =>
      PasswordWriteKeepsLifecycle(t, email, given, id, changed, hash);
      SelectEmpty(t.rows, LiveEmail(email));
  }

  /** In every interleaving, across renames and restarts: the temporary-password flag of a user is set
      exactly as long as no ChangePassword write has reached the row, and the stored hash is the one
      given at creation or by the latest such write. */
  lemma {:induction false} TemporaryPasswordLifecycle(mode: ZeroRows, es: seq<UserEvent>, id: nat)
    ensures Lifecycle(After(mode, es).table, id, EverChanged(mode, es, id), LatestHash(mode, es, id))
  {
    if es != [] {
      var before, e := es[..|es| - 1], es[|es| - 1];
      var s := After(mode, before);
      assert before + [e] == es;
      TemporaryPasswordLifecycle(mode, before, id);
      UsersConsistent(mode, before);
      EverChangedNext(mode, before, e, id);
      StepTable(mode, s, e);
      if Writes(s, e) {
        WriteKeepsLifecycle(mode, s, e, id, EverChanged(mode, before, id), LatestHash(mode, before, id));
      }
    }
  }

  /** Once cleared, the flag of a user never comes back. */
  lemma FlagNeverReturns(mode: ZeroRows, es: seq<UserEvent>, n: nat, earlier: User, later: User)
    requires n <= |es| && earlier in After(mode, es[..n]).table.rows && later in After(mode, es).table.rows
    requires earlier.id == later.id && !earlier.temporaryPassword
    ensures !later.temporaryPassword
  {
    TemporaryPasswordLifecycle(mode, es[..n], earlier.id);
    TemporaryPasswordLifecycle(mode, es, later.id);
    var k :| 0 <= k < n && PasswordWrite(After(mode, es[..n][..k]), es[..n][k], earlier.id);
    assert es[..n][..k] == es[..k];
    assert PasswordWrite(After(mode, es[..k]), es[k], later.id);
  }

  // Row by row

  predicate Registered(t: UserTable, id: nat) { exists u :: u in t.rows && u.id == id }
  predicate Known(t: UserTable, email: string) { exists u :: u in t.rows && u.email == email }
  predicate Rival(t: UserTable, email: string, id: nat) { exists u :: u in t.rows && u.email == email && u.id != id }

  /** An update is refused exactly for an unknown id or an address another user has. */
  lemma UpdateUserReply(mode: ZeroRows, t: UserTable, id: nat, name: string, email: string, role: string, fails: bool)
    requires Consistent(t)
    ensures var (t', reply) := Execute(mode, t, UpdateUser(id, name, email, role), fails);
      var blocked := email != "" && Rival(t, email, id);
      && (reply == OK <==> !fails && if Registered(t, id) then !blocked else mode.Silent?)
      && (reply == ErrUserAlreadyExists <==> !fails && Registered(t, id) && blocked)
      && (reply == ErrUserDoesNotExist <==> !fails && !Registered(t, id) && mode.NotFound?)
      && (reply != OK ==> t' == t)
  {
    LiveIsAll(t);
    SelectEmpty(t.rows, HasUserId(id));
    SelectEmpty(t.rows, OtherWithEmail(email, id));
  }

  /** And then it touches the row of that id alone, skips empty fields, and leaves hash and flag. */
  lemma UpdateUserEffect(mode: ZeroRows, t: UserTable, id: nat, name: string, email: string, role: string)
    requires Consistent(t) && Execute(mode, t, UpdateUser(id, name, email, role), false).1 == OK
    ensures var t' := Execute(mode, t, UpdateUser(id, name, email, role), false).0;
      && |t'.rows| == |t.rows|
      && forall i :: 0 <= i < |t.rows| ==> var u, u' := t.rows[i], t'.rows[i];
            if u.id != id then u' == u
            else && u'.id == id && u'.passwordHash == u.passwordHash && u'.temporaryPassword == u.temporaryPassword
                 && u'.name == (if name == "" then u.name else name)
                 && u'.email == (if email == "" then u.email else email)
                 && u'.role == (if role == "" then u.role else role)
  {
    SelectEmpty(t.rows, LiveUserId(id));
    assert forall i :: 0 <= i < |t.rows| ==> t.rows[i] in t.rows;
  }

  /** A password change writes hash and flag of the one user with that address, and nothing else. */
  lemma ChangePasswordEffect(mode: ZeroRows, t: UserTable, email: string, hash: string, fails: bool)
    requires Consistent(t)
    ensures var (t', reply) := Execute(mode, t, ChangePassword(email, hash), fails);
      && (reply == OK <==> !fails && (Known(t, email) || mode.Silent?))
      && (reply == ErrUserDoesNotExist <==> !fails && !Known(t, email) && mode.NotFound?)
      && |t'.rows| == |t.rows|
      && forall i :: 0 <= i < |t.rows| ==>
           t'.rows[i] == if reply == OK && t.rows[i].email == email
                         then t.rows[i].(passwordHash := hash, temporaryPassword := false) else t.rows[i]
  {
    LiveIsAll(t);
    SelectEmpty(t.rows, HasEmail(email));
    assert forall i :: 0 <= i < |t.rows| ==> t.rows[i] in t.rows;
  }

  lemma DeleteUserEffect(mode: ZeroRows, t: UserTable, id: nat, fails: bool)
    requires Consistent(t)
    ensures var (t', reply) := Execute(mode, t, DeleteUser(id), fails);
      && (reply == OK <==> !fails && (Registered(t, id) || mode.Silent?))
      && (reply != OK ==> reply == ErrInternal && t' == t)
      && (reply == OK ==> Picked(t.rows, t'.rows, (u: User) => u.id != id))
      && forall u :: u in t'.rows <==> u in t.rows && !(reply == OK && u.id == id)
  {
    SelectEmpty(t.rows, HasUserId(id));
    DiscardMember(t.rows, HasUserId(id));
    DiscardPicks(t.rows, HasUserId(id), (u: User) => u.id != id);
  }

  /** A new user gets an unused id, the given hash, and a temporary password. */
  lemma CreateUserEffect(mode: ZeroRows, t: UserTable, name: string, email: string, role: string, hash: string,
                         fails: bool)
    requires Consistent(t)
    ensures var (t', reply) := Execute(mode, t, CreateUser(name, email, role, hash), fails);
      && (reply == OK <==> !fails && !Known(t, email))
      && (reply == ErrUserAlreadyExists <==> !fails && Known(t, email))
      && (reply != OK ==> t' == t)
      && (reply == OK ==>
            t'.rows == t.rows + [User(t.nextId, name, email, role, hash, true, false)] && !Registered(t, t.nextId))
  {
    SelectEmpty(t.rows, HasEmail(email));
  }
}
