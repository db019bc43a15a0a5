/** Requests racing to create a user with the same address. */
module UserRacing {
  import opened Rows
  import opened Schema
  import opened Users

  predicate Creates(op: UserOp, email: string) { op.CreateUser? && op.email == email }

  predicate Won(task: UserTask, email: string) { Creates(task.op, email) && task.pc == Finished(OK) }

  /** Other than by creating a user, the write could give the address to a user or take it from one. */
  predicate Disturbs(t: UserTable, op: UserOp, email: string) {
    || (op.UpdateUser? && op.email != ""
        && exists u :: u in t.rows && u.id == op.id && (u.email == email) != (op.email == email))
    || (op.DeleteUser? && exists u :: u in t.rows && u.id == op.id && u.email == email)
  }

  /** No restart, no failing call of a creator of the address, and nobody else disturbs the address. */
  predicate Calm(s: UserState, e: UserEvent, email: string) {
    && !e.Restart?
    && (e.Client? && e.tid in s.tasks ==>
          var UserTask(op, pc) := s.tasks[e.tid];
          && (Creates(op, email) && !pc.Finished? ==> !e.fails)
          && (pc.Write? ==> !Disturbs(s.table, op, email)))
  }

  ghost predicate SoleWinner(tasks: map<nat, UserTask>, email: string, w: nat) {
    && w in tasks && Won(tasks[w], email)
    && forall tid :: tid in tasks && Won(tasks[tid], email) ==> tid == w
  }

  ghost predicate EmailChecksUpdate(tasks: map<nat, UserTask>) {
    forall tid :: tid in tasks && tasks[tid].pc.CheckEmail? ==> tasks[tid].op.UpdateUser?
  }

  ghost predicate NobodyDone(tasks: map<nat, UserTask>, email: string) {
    forall tid :: tid in tasks && Creates(tasks[tid].op, email) ==> !tasks[tid].pc.Finished?
  }

  /** While the address is free no creator has finished; once it is taken there is exactly one winner,
      and every other finished creator was told that the user exists. */
  ghost predicate Race(tasks: map<nat, UserTask>, email: string, taken: bool) {
    && EmailChecksUpdate(tasks)
    && (forall tid :: tid in tasks && Creates(tasks[tid].op, email) && tasks[tid].pc.Finished?
          ==> tasks[tid].pc.reply == OK || tasks[tid].pc.reply == ErrUserAlreadyExists)
    && (!taken ==> NobodyDone(tasks, email))
    && (taken ==> exists w :: SoleWinner(tasks, email, w))
  }

  ghost predicate Orderly(s: UserState, email: string) {
    Consistent(s.table) && Race(s.tasks, email, Select(s.table.rows, HasEmail(email)) != [])
  }

  lemma RaceMove(tasks: map<nat, UserTask>, tid: nat, task: UserTask, email: string, taken: bool, taken': bool)
    requires Race(tasks, email, taken)
    requires task.pc.CheckEmail? ==> task.op.UpdateUser?
    requires Creates(task.op, email) && task.pc.Finished? ==>
      task.pc.reply == OK || task.pc.reply == ErrUserAlreadyExists
    requires
      || (!taken && !taken' && (Creates(task.op, email) ==> !task.pc.Finished?))
      || (!taken && taken' && Won(task, email))
      || (taken && taken' && (Won(task, email) <==> tid in tasks && Won(tasks[tid], email)))
    ensures Race(tasks[tid := task], email, taken')
  {
    if taken {
      var w :| SoleWinner(tasks, email, w);
      assert SoleWinner(tasks[tid := task], email, w);
    } else if taken' {
      assert SoleWinner(tasks[tid := task], email, tid);
    }
  }

  /** What racers and bystanders do to the address at their write. */
  lemma WriteOnAddress(mode: ZeroRows, t: UserTable, op: UserOp, fails: bool, email: string)
    requires Consistent(t) && !Disturbs(t, op, email) && (Creates(op, email) ==> !fails)
    ensures var (t', reply) := Execute(mode, t, op, fails);
            var taken, taken' := Select(t.rows, HasEmail(email)) != [], Select(t'.rows, HasEmail(email)) != [];
            if Creates(op, email) then taken' && reply == (if taken then ErrUserAlreadyExists else OK)
            else taken' == taken
  {
    match op
    case CreateUser(name, e, role, hash) =>
      SelectInsert(t.rows, User(t.nextId, name, e, role, hash, true, false), HasEmail(email));
    case UpdateUser(id, name, e, role) =>
      UpdateCount(t.rows, LiveUserId(id), SetUser(name, e, role), HasEmail(email));
    case DeleteUser(id) => DiscardCount(t.rows, HasUserId(id), HasEmail(email));
    case ChangePassword(e, hash) =>
      UpdateCount(t.rows, LiveEmail(e), SetPassword(e, hash), HasEmail(email));
  }

  lemma ClientKeepsRace(mode: ZeroRows, s: UserState, tid: nat, fails: bool, email: string)
    requires Orderly(s, email) && tid in s.tasks && Calm(s, Client(tid, fails), email)
    ensures Orderly(Apply(mode, s, Client(tid, fails)), email)
  {
    var UserTask(op, pc) := s.tasks[tid];
    var taken := Select(s.table.rows, HasEmail(email)) != [];
    match pc
    case Check =>
      LiveIsAll(s.table);
      RaceMove(s.tasks, tid, UserTask(op, AfterCheck(s.table, op, fails)), email, taken, taken);
    case CheckEmail =>
      RaceMove(s.tasks, tid, UserTask(op, AfterCheckEmail(s.table, op, fails)), email, taken, taken);
    case Write =>
      var (t', reply) := Execute(mode, s.table, op, fails);
      ExecuteKeeps(mode, s.table, op, fails);
      WriteOnAddress(mode, s.table, op, fails, email);
      RaceMove(s.tasks, tid, UserTask(op, Finished(reply)), email, taken, Select(t'.rows, HasEmail(email)) != []);
    case Finished(_) =>
  }

  lemma StepKeepsRace(mode: ZeroRows, s: UserState, e: UserEvent, email: string)
    requires Orderly(s, email) && Calm(s, e, email)
    ensures Orderly(Apply(mode, s, e), email)
  {
    var taken := Select(s.table.rows, HasEmail(email)) != [];
    if e.Begin? {
      if e.tid !in s.tasks {
        RaceMove(s.tasks, e.tid, UserTask(e.op, Check), email, taken, taken);
      }
    } else if e.tid in s.tasks {
      ClientKeepsRace(mode, s, e.tid, e.fails, email);
    }
  }

  ghost predicate CalmSince(mode: ZeroRows, es: seq<UserEvent>, n: nat, email: string) {
    forall k :: n <= k < |es| ==> Calm(After(mode, es[..k]), es[k], email)
  }

  lemma {:induction false} RunKeepsRace(mode: ZeroRows, es: seq<UserEvent>, n: nat, email: string)
    requires n <= |es| && CalmSince(mode, es, n, email) && Orderly(After(mode, es[..n]), email)
    ensures Orderly(After(mode, es), email)
  {
    if n < |es| {
      var before := es[..|es| - 1];
      forall k | n <= k < |before|
        ensures Calm(After(mode, before[..k]), before[k], email)
      {
        assert before[..k] == es[..k];
      }
      assert before[..n] == es[..n];
      RunKeepsRace(mode, before, n, email);
      StepKeepsRace(mode, After(mode, before), es[|es| - 1], email);
    } else {
      assert es[..n] == es;
    }
  }

  lemma EmailCheckStep(mode: ZeroRows, s: UserState, e: UserEvent)
    requires EmailChecksUpdate(s.tasks)
    ensures EmailChecksUpdate(Apply(mode, s, e).tasks)
  {
  }

  lemma {:induction false} EmailCheckOnlyForUpdates(mode: ZeroRows, es: seq<UserEvent>)
    ensures EmailChecksUpdate(After(mode, es).tasks)
  {
    if es != [] {
      EmailCheckOnlyForUpdates(mode, es[..|es| - 1]);
      EmailCheckStep(mode, After(mode, es[..|es| - 1]), es[|es| - 1]);
    }
  }

  /** Let the address be free at position `n` of a run with nobody after it yet. Any number of creators,
      interleaved with anything that leaves the address alone: whoever finishes is answered with success or
      already-exists, and as soon as one has finished exactly one of them has succeeded and there is one
      such user. */
  lemma RacingUserCreators(mode: ZeroRows, es: seq<UserEvent>, n: nat, email: string)
    requires n <= |es| && CalmSince(mode, es, n, email)
    requires var s := After(mode, es[..n]);
      Select(s.table.rows, HasEmail(email)) == [] && forall tid :: tid in s.tasks ==> !Creates(s.tasks[tid].op, email)
    ensures var s := After(mode, es);
      && (forall tid :: tid in s.tasks && Creates(s.tasks[tid].op, email) && s.tasks[tid].pc.Finished?
            ==> s.tasks[tid].pc.reply == OK || s.tasks[tid].pc.reply == ErrUserAlreadyExists)
      && (NobodyDone(s.tasks, email)
          || (|Select(s.table.rows, HasEmail(email))| == 1 && exists w :: SoleWinner(s.tasks, email, w)))
  {
    UsersConsistent(mode, es[..n]);
    EmailCheckOnlyForUpdates(mode, es[..n]);
    RunKeepsRace(mode, es, n, email);
  }
}
