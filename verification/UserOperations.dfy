/** The user operations as the program runs them, proved to be runs of the requests in Users, with the failures
    of their database calls given by the caller; and the paginated listing. */
module UserOperations {
  import opened Options
  import opened Rows
  import opened Schema
  import opened Paging
  import opened Fetching
  import opened Users
  import opened UserRequests

  ghost predicate ByOthers(before: seq<UserEvent>, after: seq<UserEvent>, me: nat) {
    && before <= after
    && forall k :: |before| <= k < |after| ==> !after[k].Restart? && after[k].tid != me
  }

  lemma {:induction false} OthersKeepTask(mode: ZeroRows, before: seq<UserEvent>, after: seq<UserEvent>, me: nat)
    requires ByOthers(before, after, me) && me in After(mode, before).tasks
    ensures me in After(mode, after).tasks && After(mode, after).tasks[me] == After(mode, before).tasks[me]
  {
    if before != after {
      OthersKeepTask(mode, before, after[..|after| - 1], me);
    }
  }

  /** Meanwhile the request itself does nothing. */
  lemma {:induction false} FollowsMeanwhile(since: seq<UserEvent>, before: seq<UserEvent>, after: seq<UserEvent>,
                                            me: nat, op: UserOp, failures: Failures, pc: UserPc)
    requires Follows(since, before, me, op, failures, pc) && ByOthers(before, after, me)
    ensures Follows(since, after, me, op, failures, pc)
  {
    if before != after {
      var shorter, e := after[..|after| - 1], after[|after| - 1];
      assert after == shorter + [e];
      FollowsMeanwhile(since, before, shorter, me, op, failures, pc);
      OwnSince(since, shorter, e, me);
    }
  }

  /** One request: the run it arrived in, its id, what it asks for and which of its calls will fail. */
  datatype Call = Call(since: seq<UserEvent>, me: nat, op: UserOp, failures: Failures)

  class Operations {
    const mode: ZeroRows
    var table: UserTable
    ghost var run: seq<UserEvent>

    ghost predicate Valid()
      reads this
    {
      table == After(mode, run).table
    }

    /** The call has come as far as `pc`, by its script and no other way. */
    ghost predicate At(call: Call, pc: UserPc)
      reads this
    {
      && Valid() && call.me in After(mode, run).tasks && After(mode, run).tasks[call.me] == UserTask(call.op, pc)
      && call.me !in After(mode, call.since).tasks
      && Follows(call.since, run, call.me, call.op, call.failures, pc)
    }

    constructor (mode: ZeroRows, table: UserTable, ghost past: seq<UserEvent>)
      requires table == After(mode, past).table
      ensures Valid() && run == past + [Restart] && this.mode == mode
    {
      this.mode, this.table, run := mode, table, past + [Restart];
      AfterNext(mode, past, Restart);
    }

    /** Others act; what they do is known only by ByOthers. */
    method Interfere(ghost me: nat)
      requires Valid()
      modifies this
      ensures Valid() && ByOthers(old(run), run, me)
    {
    }

    method Wait(ghost call: Call, ghost pc: UserPc)
      requires At(call, pc)
      modifies this
      ensures At(call, pc) && old(run) <= run
    {
      Interfere(call.me);
      OthersKeepTask(mode, old(run), run, call.me);
      FollowsMeanwhile(call.since, old(run), run, call.me, call.op, call.failures, pc);
    }

    /** The request takes the next step of its script. */
    ghost method Advance(call: Call, pc: UserPc, pc': UserPc, fails: bool)
      requires At(call, pc) && !pc.Finished? && StepsTaken(call.op, pc) < |Script(call.me, call.op, call.failures)|
      requires Script(call.me, call.op, call.failures)[StepsTaken(call.op, pc)] == Client(call.me, fails)
      requires pc'.Finished? || StepsTaken(call.op, pc') == StepsTaken(call.op, pc) + 1
      modifies this`run
      ensures run == old(run) + [Client(call.me, fails)]
      ensures After(mode, run) == ClientStep(mode, old(After(mode, run)), call.me, fails)
      ensures Follows(call.since, run, call.me, call.op, call.failures, pc')
    {
      AfterNext(mode, run, Client(call.me, fails));
      FollowsNext(call.since, run, call.me, call.op, call.failures, pc, pc');
      run := run + [Client(call.me, fails)];
    }

    ghost method Arrive(call: Call)
      requires Valid() && run == call.since && call.me !in After(mode, run).tasks
      modifies this`run
      ensures At(call, Check) && old(run) <= run
    {
      AfterNext(mode, run, Begin(call.me, call.op));
      assert run[|run|..] == [];
      OwnSince(run, run, Begin(call.me, call.op), call.me);
      assert Script(call.me, call.op, call.failures)[..1] == [Begin(call.me, call.op)];
      run := run + [Begin(call.me, call.op)];
    }

    /** The existence check: others act, then the database answers from the state it is in. */
    method Query(ghost call: Call)
      requires At(call, Check)
      modifies this
      ensures At(call, AfterCheck(table, call.op, call.failures.check)) && old(run) <= run
    {
      Wait(call, Check);
      Advance(call, Check, AfterCheck(table, call.op, call.failures.check), call.failures.check);
    }

    /** The query for another user with the address. */
    method QueryEmail(ghost call: Call)
      requires At(call, CheckEmail) && call.op.UpdateUser?
      modifies this
      ensures At(call, AfterCheckEmail(table, call.op, call.failures.checkEmail)) && old(run) <= run
    {
      Wait(call, CheckEmail);
      Advance(call, CheckEmail, AfterCheckEmail(table, call.op, call.failures.checkEmail), call.failures.checkEmail);
    }

    /** The outcome of the write takes effect. */
    method Land(ghost call: Call, written: UserTable, ghost reply: UserReply)
      requires At(call, Write) && (written, reply) == Execute(mode, table, call.op, call.failures.write)
      modifies this
      ensures At(call, Finished(reply)) && old(run) <= run
    {
      Advance(call, Write, Finished(reply), call.failures.write);
      table := written;
    }

    method CreateUser(ghost me: nat, name: string, email: string, role: string, passwordHash: string,
                      failures: Failures)
      returns (reply: UserReply)
      requires Valid() && me !in After(mode, run).tasks
      modifies this
      ensures Valid()
      ensures Served(mode, old(run), run, me, UserOp.CreateUser(name, email, role, passwordHash), failures, reply)
    {
      ghost var call := Call(run, me, UserOp.CreateUser(name, email, role, passwordHash), failures);
      reply := ErrInternal;
      Arrive(call);
      Query(call);
      if failures.check {
        return;
      }
      if |Select(table.rows, LiveEmail(email))| == 1 {
        reply := ErrUserAlreadyExists;
        return;
      }
      Wait(call, Write);
      var created := InsertUser(table, name, email, role, passwordHash);
      if failures.write || created.Failed? {
        if !failures.write && created.error == DuplicateKey {
          reply := ErrUserAlreadyExists;
        }
        Land(call, table, reply);
        return;
      }
      reply := OK;
      Land(call, created.db, reply);
    }

    /** The struct returned holds what was asked for, and neither hash nor flag. */
    method UpdateUser(ghost me: nat, id: nat, name: string, email: string, role: string, failures: Failures)
      returns (user: Option<User>, reply: UserReply)
      requires Valid() && me !in After(mode, run).tasks
      modifies this
      ensures Valid() && Served(mode, old(run), run, me, UserOp.UpdateUser(id, name, email, role), failures, reply)
      ensures user == if reply == OK then Some(User(id, name, email, role, "", false, false)) else None
    {
      ghost var call := Call(run, me, UserOp.UpdateUser(id, name, email, role), failures);
      user, reply := None, ErrInternal;
      Arrive(call);
      Query(call);
      if failures.check {
        return;
      }
      if |Select(table.rows, LiveUserId(id))| == 0 {
        reply := ErrUserDoesNotExist;
        return;
      }
      QueryEmail(call);
      if failures.checkEmail {
        return;
      }
      if |Select(table.rows, LiveOtherWithEmail(email, id))| == 1 {
        reply := ErrUserAlreadyExists;
        return;
      }
      Wait(call, Write);
      var userToUpdate := User(id, name, email, role, "", false, false);
      var updated := UpdateUserRow(mode, table, id, name, email, role);
      if failures.write || updated.Failed? {
        if !failures.write && updated.error == DuplicateKey {
          reply := ErrUserAlreadyExists;
        } else if !failures.write && updated.error == RecordNotFound {
          reply := ErrUserDoesNotExist;
        }
        Land(call, table, reply);
        return;
      }
      reply := OK;
      Land(call, updated.db, reply);
      user := Some(userToUpdate);
    }

    method DeleteUser(ghost me: nat, id: nat, failures: Failures) returns (reply: UserReply)
      requires Valid() && me !in After(mode, run).tasks
      modifies this
      ensures Valid() && Served(mode, old(run), run, me, UserOp.DeleteUser(id), failures, reply)
    {
      ghost var call := Call(run, me, UserOp.DeleteUser(id), failures);
      reply := ErrInternal;
      Arrive(call);
      Query(call);
      if failures.check {
        return;
      }
      if |Select(table.rows, LiveUserId(id))| == 0 {
        reply := ErrUserDoesNotExist;
        return;
      }
      Wait(call, Write);
      var removed := RemoveUser(mode, table, id);
      if failures.write || removed.Failed? {
        Land(call, table, reply);
        return;
      }
      reply := OK;
      Land(call, removed.db, reply);
    }

    method ChangePassword(ghost me: nat, email: string, passwordHash: string, failures: Failures)
      returns (reply: UserReply)
      requires Valid() && me !in After(mode, run).tasks
      modifies this
      ensures Valid() && Served(mode, old(run), run, me, UserOp.ChangePassword(email, passwordHash), failures, reply)
    {
      ghost var call := Call(run, me, UserOp.ChangePassword(email, passwordHash), failures);
      reply := ErrInternal;
      Arrive(call);
      Query(call);
      if failures.check {
        return;
      }
      if |Select(table.rows, LiveEmail(email))| == 0 {
        reply := ErrUserDoesNotExist;
        return;
      }
      Wait(call, Write);
      var written := WritePassword(mode, table, email, passwordHash);
      if failures.write || written.Failed? {
        if !failures.write && written.error == RecordNotFound {
          reply := ErrUserDoesNotExist;
        }
        Land(call, table, reply);
        return;
      }
      reply := OK;
      Land(call, written.db, reply);
    }
  }

  /** The users listing pages forward; its offset is computed before the count. */
  method FetchUsersWithPagination(atCount: UserTable, atSelect: UserTable, currentPage: int, pageSize: int,
                                  countFails: bool, selectFails: bool)
    returns (users: seq<User>, total: int, failed: bool, sent: Option<Query>)
    requires InRange(currentPage) && InRange(pageSize) && |atCount.rows| <= MAX_INT
    ensures failed == (countFails || selectFails)
    ensures failed ==> users == [] && total == 0
    ensures !countFails ==> sent == Some(Query.Query(pageSize, Int64((currentPage - 1) * pageSize)))
    ensures !failed ==> total == |Select(atCount.rows, LiveUser())|
    ensures !failed ==> users == Answer(Select(atSelect.rows, LiveUser()), sent, false)
    ensures !failed && Accepted(currentPage, pageSize) ==>
      Delivers(Select(atCount.rows, LiveUser()), Select(atSelect.rows, LiveUser()), currentPage, pageSize, false,
               sent, users)
  {
    users, total, failed, sent := [], 0, false, None;
    var offset := Int64((currentPage - 1) * pageSize);
    if countFails {
      failed := true;
      return;
    }
    total := |Select(atCount.rows, LiveUser())|;
    FetchDelivers(Select(atCount.rows, LiveUser()), Select(atSelect.rows, LiveUser()), currentPage, pageSize, false);
    sent := Some(Query.Query(pageSize, offset));
    if selectFails {
      total, failed := 0, true;
      return;
    }
    users := Window(Select(atSelect.rows, LiveUser()), pageSize, offset);
  }
}
