/** The migration step that creates the admin user and the default roles, and may stop at any database
    call and be run again. */
module Seeding {
  import opened Rows
  import opened Schema
  import opened Users

  const ADMIN_NAME: string := "admin"
  const ADMIN_ROLE: string := "admin"
  const ADMIN_EMAIL: string := "admin@mgmtportal.com"

  /** The roles the migration is shipped with. */
  const DEFAULT_ROLES: map<string, string> := map[
    "basic" := "View service(s) and their version(s)",
    "advanced" := "View/Modify service(s) and view user(s) in systems",
    "admin" := "View/Modify service(s) and user(s) in systems"]

  datatype Role = Role(name: string, description: string)

  datatype Seeds = Seeds(users: UserTable, roles: seq<Role>)

  function RoleNamed(name: string): Role -> bool { (r: Role) => r.name == name }
  function RoleDescribed(description: string): Role -> bool { (r: Role) => r.description == description }

  /** Both role columns are unique. */
  ghost predicate UniqueRoles(roles: seq<Role>) {
    && (forall name :: |Select(roles, RoleNamed(name))| <= 1)
    && (forall description :: |Select(roles, RoleDescribed(description))| <= 1)
  }

  function InsertRole(roles: seq<Role>, role: Role): Outcome<seq<Role>> {
    if Select(roles, RoleNamed(role.name)) != [] || Select(roles, RoleDescribed(role.description)) != []
    then Failed(DuplicateKey)
    else Committed(roles + [role])
  }

  predicate Missing(roles: seq<Role>, defaults: map<string, string>, name: string) {
    name in defaults && Select(roles, RoleNamed(name)) == []
  }

  /** Seeding has nothing left to do: the admin address and every default role are there exactly once. */
  ghost predicate Complete(s: Seeds, defaults: map<string, string>) {
    && |Select(s.users.rows, HasEmail(ADMIN_EMAIL))| == 1
    && forall name :: name in defaults ==> |Select(s.roles, RoleNamed(name))| == 1
  }

  /** No role still to be created shares its description with a role there is or another to be created. */
  ghost predicate NoClash(roles: seq<Role>, defaults: map<string, string>) {
    forall name :: Missing(roles, defaults, name) ==>
      && (forall r :: r in roles ==> r.description != defaults[name])
      && (forall other :: Missing(roles, defaults, other) && other != name ==> defaults[other] != defaults[name])
  }

  ghost predicate Sound(s: Seeds) { Consistent(s.users) && UniqueRoles(s.roles) }

  /** What was added is missing default roles. */
  ghost predicate AddsMissing(before: seq<Role>, after: seq<Role>, defaults: map<string, string>) {
    && before <= after
    && forall r :: r in after[|before|..] ==> Missing(before, defaults, r.name) && r.description == defaults[r.name]
  }

  predicate AdminMissing(users: UserTable) { forall u :: u in users.rows ==> u.email != "admin@mgmtportal.com" }

  /** The admin user has been added at the end, with a temporary password of the given hash. */
  predicate AdminAdded(before: UserTable, after: UserTable, passHash: string) {
    && after.rows == before.rows
                     + [User(before.nextId, "admin", "admin@mgmtportal.com", "admin", passHash, true, false)]
    && after.nextId == before.nextId + 1
  }

  ghost function MissingNames(roles: seq<Role>, defaults: map<string, string>): set<string> {
    set name | name in defaults && Missing(roles, defaults, name)
  }

  /** A query for each default role visited, and an insert for each of them that was missing. */
  ghost function CallsMade(before: seq<Role>, defaults: map<string, string>, pending: set<string>): nat {
    |defaults.Keys - pending| + |MissingNames(before, defaults) - pending|
  }

  /** A run of the step: the hash it is given, the number of the call that fails, 0 for none, and whether the
      step succeeded. The calls are the hash, a query for the admin, the insert of the admin if missing, and for
      each default role a query and, if missing, an insert. */
  datatype Try = Try(passHash: string, failAt: nat, ok: bool)

  ghost function CallsNeeded(s: Seeds, defaults: map<string, string>): nat {
    2 + (if AdminMissing(s.users) then 1 else 0) + CallsMade(s.roles, defaults, {})
  }

  predicate Reaches(attempt: Try, call: nat) { attempt.failAt == 0 || attempt.failAt > call }

  /** What one run of the step, finished or not, does to the tables. The admin is added exactly if missing and
      none of the first three calls fails; and the step succeeds exactly if no descriptions clash and none of the
      calls it needs fails. */
  ghost predicate Ran(before: Seeds, after: Seeds, defaults: map<string, string>, attempt: Try) {
    && Sound(after)
    && (if AdminMissing(before.users) && Reaches(attempt, 3)
        then AdminAdded(before.users, after.users, attempt.passHash)
        else after.users == before.users)
    && AddsMissing(before.roles, after.roles, defaults)
    && (attempt.ok ==> Complete(after, defaults))
    && (attempt.ok <==> NoClash(before.roles, defaults) && Reaches(attempt, CallsNeeded(before, defaults)))
    && (Complete(before, defaults) ==> after == before)
  }

  /** Being complete, in words. */
  lemma CompleteMeans(s: Seeds, defaults: map<string, string>)
    requires Sound(s)
    ensures Complete(s, defaults)
       <==> !AdminMissing(s.users) && forall name :: name in defaults ==> exists r :: r in s.roles && r.name == name
  {
    SelectEmpty(s.users.rows, HasEmail(ADMIN_EMAIL));
    forall name | name in defaults
      ensures |Select(s.roles, RoleNamed(name))| == 1 <==> exists r :: r in s.roles && r.name == name
    {
      SelectEmpty(s.roles, RoleNamed(name));
    }
  }

  lemma NothingMissing(roles: seq<Role>, defaults: map<string, string>)
    ensures (forall name :: name in defaults ==> |Select(roles, RoleNamed(name))| == 1) ==>
              MissingNames(roles, defaults) == {}
  {
  }

  /** One more visited: the count of visited members grows by one. */
  lemma VisitOne<T>(members: set<T>, pending: set<T>, one: T)
    requires one in pending
    ensures |members - (pending - {one})| == |members - pending| + if one in members then 1 else 0
    ensures |members - (pending - {one})| <= |members|
  {
    if one in members {
      assert members - (pending - {one}) == (members - pending) + {one};
    } else {
      assert members - (pending - {one}) == members - pending;
    }
    assert |members| == |members - (pending - {one})| + |members * (pending - {one})|;
  }

  lemma CallsAtFirst(before: seq<Role>, defaults: map<string, string>)
    ensures CallsMade(before, defaults, defaults.Keys) == 0
  {
    assert defaults.Keys - defaults.Keys == {} && MissingNames(before, defaults) - defaults.Keys == {};
  }

  lemma CallsGrow(before: seq<Role>, defaults: map<string, string>, pending: set<string>, role: string)
    requires role in pending && pending <= defaults.Keys
    ensures CallsMade(before, defaults, pending - {role})
         == CallsMade(before, defaults, pending) + if Missing(before, defaults, role) then 2 else 1
    ensures CallsMade(before, defaults, pending - {role}) <= CallsMade(before, defaults, {})
    ensures Missing(before, defaults, role) ==> MissingNames(before, defaults) != {}
  {
    VisitOne(defaults.Keys, pending, role);
    VisitOne(MissingNames(before, defaults), pending, role);
    assert role in MissingNames(before, defaults) <==> Missing(before, defaults, role);
    assert defaults.Keys - {} == defaults.Keys && MissingNames(before, defaults) - {} == MissingNames(before, defaults);
  }

  lemma InsertRoleKeeps(roles: seq<Role>, role: Role)
    requires UniqueRoles(roles) && InsertRole(roles, role).Committed?
    ensures UniqueRoles(roles + [role])
    ensures forall name :: |Select(roles + [role], RoleNamed(name))|
                           == |Select(roles, RoleNamed(name))| + if name == role.name then 1 else 0
  {
    forall name { SelectInsert(roles, role, RoleNamed(name)); }
    forall description { SelectInsert(roles, role, RoleDescribed(description)); }
  }

  /** Progress of the walk over the role map: what has been visited is there once, what has not is as it was. */
  ghost predicate Walked(before: seq<Role>, now: seq<Role>, defaults: map<string, string>, pending: set<string>) {
    && UniqueRoles(now) && AddsMissing(before, now, defaults)
    && (forall name :: name in defaults && name !in pending ==> |Select(now, RoleNamed(name))| == 1)
    && (forall name :: name in pending ==> |Select(now, RoleNamed(name))| == |Select(before, RoleNamed(name))|)
  }

  lemma VisitPresent(before: seq<Role>, now: seq<Role>, defaults: map<string, string>, pending: set<string>,
                     role: string)
    requires Walked(before, now, defaults, pending) && role in pending && Select(now, RoleNamed(role)) != []
    ensures Walked(before, now, defaults, pending - {role})
  {
    assert |Select(now, RoleNamed(role))| == 1;
  }

  lemma VisitMissing(before: seq<Role>, now: seq<Role>, defaults: map<string, string>, pending: set<string>,
                     role: string)
    requires Walked(before, now, defaults, pending) && role in pending && Missing(now, defaults, role)
    requires InsertRole(now, Role(role, defaults[role])).Committed?
    ensures Walked(before, now + [Role(role, defaults[role])], defaults, pending - {role})
  {
    var added := Role(role, defaults[role]);
    InsertRoleKeeps(now, added);
    assert (now + [added])[|before|..] == now[|before|..] + [added];
  }

  /** A refused insert of a missing role is a clash of descriptions. */
  lemma RefusedMeansClash(before: seq<Role>, now: seq<Role>, defaults: map<string, string>, name: string)
    requires AddsMissing(before, now, defaults) && Missing(now, defaults, name)
    requires InsertRole(now, Role(name, defaults[name])).Failed?
    ensures !NoClash(before, defaults)
  {
    SelectEmpty(now, RoleDescribed(defaults[name]));
    SelectEmpty(now, RoleNamed(name));
    SelectEmpty(before, RoleNamed(name));
    var r :| r in now && r.description == defaults[name];
    assert now == before + now[|before|..];
    assert r.name != name;
    assert Missing(before, defaults, name);
  }

  /** Two rows with one description cannot both be there. */
  lemma {:induction false} SameDescriptionSameRow(roles: seq<Role>, a: Role, b: Role)
    requires UniqueRoles(roles) && a in roles && b in roles && a.description == b.description
    ensures a == b
  {
    var hits := Select(roles, RoleDescribed(a.description));
    SelectMember(roles, RoleDescribed(a.description));
    assert a in hits && b in hits;
    assert |hits| == 1;
    assert a == hits[0] && b == hits[0];
  }

  /** A role missing at first is still missing, or has been added with its description. */
  lemma MissingOrAdded(before: seq<Role>, after: seq<Role>, defaults: map<string, string>, name: string)
    requires AddsMissing(before, after, defaults) && Missing(before, defaults, name)
    ensures Missing(after, defaults, name) || Role(name, defaults[name]) in after
  {
    SelectEmpty(before, RoleNamed(name));
    SelectEmpty(after, RoleNamed(name));
    assert after == before + after[|before|..];
  }

  /** Nothing clashed at first if nothing clashes now, so not when every default role is there. */
  lemma NoClashWasThere(before: seq<Role>, after: seq<Role>, defaults: map<string, string>)
    requires AddsMissing(before, after, defaults) && UniqueRoles(after) && NoClash(after, defaults)
    ensures NoClash(before, defaults)
  {
    forall name | Missing(before, defaults, name)
      ensures forall r :: r in before ==> r.description != defaults[name]
      ensures forall other :: Missing(before, defaults, other) && other != name ==> defaults[other] != defaults[name]
    {
      SelectEmpty(before, RoleNamed(name));
      MissingOrAdded(before, after, defaults, name);
      forall r | r in before && r.description == defaults[name]
        ensures false
      {
        assert r in after;
        SameDescriptionSameRow(after, r, Role(name, defaults[name]));
      }
      forall other | Missing(before, defaults, other) && other != name
        ensures defaults[other] != defaults[name]
      {
        MissingOrAdded(before, after, defaults, other);
        if defaults[other] == defaults[name] {
          SameDescriptionSameRow(after, Role(other, defaults[other]), Role(name, defaults[name]));
        }
      }
    }
  }

  class Migration {
    var users: UserTable
    var roles: seq<Role>

    ghost function State(): Seeds
      reads this
    {
      Seeds(users, roles)
    }

    constructor (users: UserTable, roles: seq<Role>)
      ensures this.users == users && this.roles == roles
    {
      this.users, this.roles := users, roles;
    }

    /** One default role: a query, and an insert if there is none. */
    method ConfigureRole(role: string, defaults: map<string, string>, ghost before: seq<Role>,
                         ghost pending: set<string>, callsSoFar: nat, failAt: nat)
      returns (ok: bool, calls: nat)
      requires Walked(before, roles, defaults, pending) && role in pending && role in defaults
      requires failAt != 0 ==> callsSoFar < failAt
      modifies this`roles
      ensures ok ==> Walked(before, roles, defaults, pending - {role}) && (failAt != 0 ==> calls < failAt)
      ensures ok ==> calls == callsSoFar + if Missing(before, defaults, role) then 2 else 1
      ensures !ok ==> roles == old(roles)
      ensures !ok && NoClash(before, defaults) ==>
        0 < failAt <= callsSoFar + if Missing(before, defaults, role) then 2 else 1
      ensures !Missing(before, defaults, role) ==> roles == old(roles)
    {
      calls := callsSoFar + 1;
      if calls == failAt {
        return false, calls;
      }
      var configured := |Select(roles, RoleNamed(role))|;
      if configured == 0 {
        calls := calls + 1;
        if calls == failAt {
          return false, calls;
        }
        var created := InsertRole(roles, Role(role, defaults[role]));
        if created.Failed? {
          RefusedMeansClash(before, roles, defaults, role);
          return false, calls;
        }
        VisitMissing(before, roles, defaults, pending, role);
        roles := created.db;
      } else {
        VisitPresent(before, roles, defaults, pending, role);
      }
      ok := true;
    }

    /** The loop over the role map; it stops at the first error. */
    method ConfigureRoles(defaults: map<string, string>, callsSoFar: nat, failAt: nat) returns (ok: bool)
      requires UniqueRoles(roles)
      requires failAt != 0 ==> callsSoFar < failAt
      modifies this`roles
      ensures UniqueRoles(roles) && AddsMissing(old(roles), roles, defaults)
      ensures ok ==> forall name :: name in defaults ==> |Select(roles, RoleNamed(name))| == 1
      ensures MissingNames(old(roles), defaults) == {} ==> roles == old(roles)
      ensures ok <==> NoClash(old(roles), defaults)
                      && (failAt == 0 || failAt > callsSoFar + CallsMade(old(roles), defaults, {}))
    {
      var calls := callsSoFar;
      var pending := defaults.Keys;
      CallsAtFirst(roles, defaults);
      while pending != {}
        invariant pending <= defaults.Keys && (failAt != 0 ==> calls < failAt)
        invariant calls == callsSoFar + CallsMade(old(roles), defaults, pending)
        invariant Walked(old(roles), roles, defaults, pending)
        invariant MissingNames(old(roles), defaults) == {} ==> roles == old(roles)
      {
        var role :| role in pending;
        CallsGrow(old(roles), defaults, pending, role);
        ok, calls := ConfigureRole(role, defaults, old(roles), pending, calls, failAt);
        if !ok {
          return;
        }
        pending := pending - {role};
      }
      NoClashWasThere(old(roles), roles, defaults);
      ok := true;
    }

    /** The admin user: a query for the address, and an insert if there is none. */
    method ConfigureAdmin(passHash: string, failAt: nat) returns (ok: bool, calls: nat)
      requires Consistent(users)
      modifies this`users
      ensures Consistent(users)
      ensures calls == 2 + if AdminMissing(old(users)) then 1 else 0
      ensures ok <==> failAt == 0 || failAt > calls
      ensures if AdminMissing(old(users)) && ok then AdminAdded(old(users), users, passHash) else users == old(users)
      ensures ok ==> |Select(users.rows, HasEmail(ADMIN_EMAIL))| == 1
      ensures |Select(old(users).rows, HasEmail(ADMIN_EMAIL))| == 1 ==> !AdminMissing(old(users))
    {
      LiveIsAll(users);
      SelectEmpty(users.rows, HasEmail(ADMIN_EMAIL));
      calls := 2 + if |Select(users.rows, LiveEmail(ADMIN_EMAIL))| == 0 then 1 else 0;
      if failAt == 1 || failAt == 2 {
        return false, calls;
      }
      var withSameEmail := |Select(users.rows, LiveEmail(ADMIN_EMAIL))|;
      if withSameEmail == 0 {
        if failAt == 3 {
          return false, calls;
        }
        var created := InsertUser(users, ADMIN_NAME, ADMIN_EMAIL, ADMIN_ROLE, passHash);
        InsertUserKeeps(users, ADMIN_NAME, ADMIN_EMAIL, ADMIN_ROLE, passHash);
        SelectInsert(users.rows, User(users.nextId, ADMIN_NAME, ADMIN_EMAIL, ADMIN_ROLE, passHash, true, false),
                     HasEmail(ADMIN_EMAIL));
        users := created.db;
      }
      ok := true;
    }

    /** The role map is walked in an arbitrary order. */
    method InitDBEntities(passHash: string, defaults: map<string, string>, failAt: nat) returns (ok: bool)
      requires Sound(State())
      modifies this
      ensures Ran(old(State()), State(), defaults, Try(passHash, failAt, ok))
    {
      var calls;
      NothingMissing(roles, defaults);
      ok, calls := ConfigureAdmin(passHash, failAt);
      if !ok {
        return;
      }
      ok := ConfigureRoles(defaults, calls, failAt);
    }
  }

  // Clashes

  lemma DefaultDescriptionsDiffer()
    ensures forall a, b :: a in DEFAULT_ROLES && b in DEFAULT_ROLES && a != b ==> DEFAULT_ROLES[a] != DEFAULT_ROLES[b]
  {
    assert |DEFAULT_ROLES["basic"]| == 36 && |DEFAULT_ROLES["advanced"]| == 50 && |DEFAULT_ROLES["admin"]| == 45;
  }

  /** With the shipped roles nothing clashes while the table holds nothing but shipped roles. The migration
      is the only writer of that table, so a clash takes a row that another release or a person put there. */
  lemma ShippedRolesNeverClash(roles: seq<Role>)
    requires forall r :: r in roles ==> r.name in DEFAULT_ROLES && r.description == DEFAULT_ROLES[r.name]
    ensures NoClash(roles, DEFAULT_ROLES)
  {
    DefaultDescriptionsDiffer();
    forall name | Missing(roles, DEFAULT_ROLES, name)
      ensures forall r :: r in roles ==> r.description != DEFAULT_ROLES[name]
    {
      SelectEmpty(roles, RoleNamed(name));
    }
  }

  /** Such a row: a role of another name that describes itself as the shipped basic role does. */
  lemma ClashExample() returns (s: Seeds)
    ensures Sound(s) && Missing(s.roles, DEFAULT_ROLES, "basic")
    ensures !NoClash(s.roles, DEFAULT_ROLES)
    ensures InsertRole(s.roles, Role("basic", DEFAULT_ROLES["basic"])).Failed?
  {
    var viewer := Role("viewer", DEFAULT_ROLES["basic"]);
    s := Seeds(UserTable([], 1), [viewer]);
    SelectEmpty(s.roles, RoleNamed("basic"));
    assert viewer in s.roles;
    SelectEmpty(s.roles, RoleDescribed(DEFAULT_ROLES["basic"]));
  }

  // Running it again

  /** Attempts one after the other: `states[i]` to `states[i + 1]` is the run `tries[i]`. */
  ghost predicate Attempts(states: seq<Seeds>, tries: seq<Try>, defaults: map<string, string>) {
    && |states| == |tries| + 1
    && Sound(states[0])
    && forall i :: 0 <= i < |tries| ==> Ran(states[i], states[i + 1], defaults, tries[i])
  }

  lemma AddsMissingTrans(a: seq<Role>, b: seq<Role>, c: seq<Role>, defaults: map<string, string>)
    requires AddsMissing(a, b, defaults) && AddsMissing(b, c, defaults)
    ensures AddsMissing(a, c, defaults)
  {
    forall r | r in c[|a|..]
      ensures Missing(a, defaults, r.name) && r.description == defaults[r.name]
    {
      assert c[|a|..] == b[|a|..] + c[|b|..];
      if r in c[|b|..] {
        SelectEmpty(b, RoleNamed(r.name));
        SelectEmpty(a, RoleNamed(r.name));
        assert forall x :: x in a ==> x in b;
      }
    }
  }

  /** Of the first `n` runs it was run `i` that added the admin, with its own hash. */
  ghost predicate AdminFrom(states: seq<Seeds>, tries: seq<Try>, n: nat, i: nat)
    requires n <= |tries| < |states|
  {
    && i < n && AdminMissing(states[0].users)
    && AdminAdded(states[0].users, states[n].users, tries[i].passHash)
    && states[i].users == states[0].users && states[i + 1].users == states[n].users
  }

  ghost predicate AdminFromSome(states: seq<Seeds>, tries: seq<Try>, n: nat)
    requires n <= |tries| < |states|
  {
    exists i: nat :: AdminFrom(states, tries, n, i)
  }

  lemma RanAt(states: seq<Seeds>, tries: seq<Try>, defaults: map<string, string>, n: nat)
    requires Attempts(states, tries, defaults) && n < |tries|
    ensures Sound(states[n + 1]) && AddsMissing(states[n].roles, states[n + 1].roles, defaults)
    ensures states[n + 1].users == states[n].users
         || (AdminMissing(states[n].users) && AdminAdded(states[n].users, states[n + 1].users, tries[n].passHash))
  {
    assert Ran(states[n], states[n + 1], defaults, tries[n]);
  }

  /** Once added the admin is not missing any more. */
  lemma AdminOnce(before: UserTable, after: UserTable, passHash: string)
    requires AdminAdded(before, after, passHash)
    ensures !AdminMissing(after)
  {
    var rows := after.rows;
    assert rows[|rows| - 1] in rows && rows[|rows| - 1].email == "admin@mgmtportal.com";
  }

  lemma AdminFromNext(states: seq<Seeds>, tries: seq<Try>, defaults: map<string, string>, n: nat)
    requires Attempts(states, tries, defaults) && n < |tries|
    requires states[n].users == states[0].users || AdminFromSome(states, tries, n)
    ensures states[n + 1].users == states[0].users || AdminFromSome(states, tries, n + 1)
  {
    RanAt(states, tries, defaults, n);
    if i: nat :| AdminFrom(states, tries, n, i) {
      AdminOnce(states[0].users, states[n].users, tries[i].passHash);
      assert AdminFrom(states, tries, n + 1, i);
    } else if states[n + 1].users != states[0].users {
      assert AdminFrom(states, tries, n + 1, n);
    }
  }

  lemma {:induction false} AttemptsAdd(states: seq<Seeds>, tries: seq<Try>, defaults: map<string, string>, n: nat)
    requires Attempts(states, tries, defaults) && n <= |tries|
    ensures Sound(states[n])
    ensures states[n].users == states[0].users || AdminFromSome(states, tries, n)
    ensures AddsMissing(states[0].roles, states[n].roles, defaults)
  {
    if n > 0 {
      var m := n - 1;
      AttemptsAdd(states, tries, defaults, m);
      RanAt(states, tries, defaults, m);
      AdminFromNext(states, tries, defaults, m);
      AddsMissingTrans(states[0].roles, states[m].roles, states[n].roles, defaults);
    } else {
      assert states[0].roles[|states[0].roles|..] == [];
    }
  }

  /** Seeding is resumable and idempotent: after any number of failed attempts, the first that succeeds
      leaves the admin address and each default role there exactly once, every earlier row as it was and
      where it was, and nothing else added. The admin's hash, if it was missing, is the one given to the attempt
      that added it. No further attempt, failed or not, changes anything. */
  lemma SeedingResumes(states: seq<Seeds>, tries: seq<Try>, defaults: map<string, string>, again: Seeds, retry: Try)
    requires Attempts(states, tries, defaults) && tries != [] && tries[|tries| - 1].ok
    requires Ran(states[|tries|], again, defaults, retry)
    ensures var first, last := states[0], states[|tries|];
      && Complete(last, defaults)
      && (if AdminMissing(first.users) then AdminFromSome(states, tries, |tries|)
          else last.users == first.users)
      && AddsMissing(first.roles, last.roles, defaults)
      && again == last
  {
    AttemptsAdd(states, tries, defaults, |tries|);
    var n := |tries| - 1;
    assert Ran(states[n], states[n + 1], defaults, tries[n]);
    CompleteMeans(states[n + 1], defaults);
  }

  lemma StillMissing(before: seq<Role>, after: seq<Role>, defaults: map<string, string>, name: string)
    requires before <= after && Missing(after, defaults, name)
    ensures Missing(before, defaults, name)
  {
    SelectEmpty(before, RoleNamed(name));
    SelectEmpty(after, RoleNamed(name));
    assert forall r :: r in before ==> r in after;
  }

  lemma NoClashArises(before: seq<Role>, after: seq<Role>, defaults: map<string, string>)
    requires AddsMissing(before, after, defaults) && NoClash(before, defaults)
    ensures NoClash(after, defaults)
  {
    assert after == before + after[|before|..];
    forall name | Missing(after, defaults, name)
      ensures forall r :: r in after ==> r.description != defaults[name]
      ensures forall other :: Missing(after, defaults, other) && other != name ==> defaults[other] != defaults[name]
    {
      SelectEmpty(after, RoleNamed(name));
      StillMissing(before, after, defaults, name);
      forall other | Missing(after, defaults, other)
        ensures Missing(before, defaults, other)
      {
        StillMissing(before, after, defaults, other);
      }
    }
  }

  /** Failed attempts do not spoil the next: whatever attempts there were, one without a failing call
      succeeds exactly if no descriptions clashed at the outset. */
  lemma SeedingSucceedsWithoutFault(states: seq<Seeds>, tries: seq<Try>, defaults: map<string, string>,
                                    next: Seeds, last: Try)
    requires Attempts(states, tries, defaults) && Ran(states[|tries|], next, defaults, last) && last.failAt == 0
    ensures last.ok <==> NoClash(states[0].roles, defaults)
    ensures last.ok ==> Complete(next, defaults)
  {
    AttemptsAdd(states, tries, defaults, |tries|);
    if NoClash(states[0].roles, defaults) {
      NoClashArises(states[0].roles, states[|tries|].roles, defaults);
    }
    if NoClash(states[|tries|].roles, defaults) {
      NoClashWasThere(states[0].roles, states[|tries|].roles, defaults);
    }
  }
}
