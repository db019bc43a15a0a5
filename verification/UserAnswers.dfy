/** Every answer of the user operations was the right one at some moment while the request was in flight. */
module UserAnswers {
  import opened Rows
  import opened Schema
  import opened Users
  import opened UserRacing

  predicate Allows(mode: ZeroRows, t: UserTable, op: UserOp) {
    match op
    case CreateUser(_, email, _, _) => !Known(t, email)
    case UpdateUser(id, _, email, _) => if Registered(t, id) then email == "" || !Rival(t, email, id) else mode.Silent?
    case DeleteUser(id) => mode.Silent? || Registered(t, id)
    case ChangePassword(email, _) => mode.Silent? || Known(t, email)
  }

  /** `reply` is right for `op` on table `t`; an internal error needs a fault, or a row to delete that is
      gone and reported so. */
  predicate Right(mode: ZeroRows, t: UserTable, op: UserOp, fails: bool, reply: UserReply) {
    match reply
    case OK => !fails && Allows(mode, t, op)
    case ErrUserAlreadyExists =>
      !fails && ((op.CreateUser? && Known(t, op.email)) || (op.UpdateUser? && Rival(t, op.email, op.id)))
    case ErrUserDoesNotExist =>
      !fails && (((op.UpdateUser? || op.DeleteUser?) && !Registered(t, op.id))
                 || (op.ChangePassword? && !Known(t, op.email)))
    case ErrInternal => fails || (op.DeleteUser? && !Registered(t, op.id) && mode.NotFound?)
  }

  /** The checks before a write refuse exactly what they say they refuse. */
  lemma ChecksAreExact(t: UserTable, op: UserOp)
    requires Consistent(t)
    ensures AfterCheck(t, op, false) ==
      match op
      case CreateUser(_, email, _, _) => if Known(t, email) then Finished(ErrUserAlreadyExists) else Write
      case UpdateUser(id, _, _, _) => if Registered(t, id) then CheckEmail else Finished(ErrUserDoesNotExist)
      case DeleteUser(id) => if Registered(t, id) then Write else Finished(ErrUserDoesNotExist)
      case ChangePassword(email, _) => if Known(t, email) then Write else Finished(ErrUserDoesNotExist)
    ensures op.UpdateUser? ==>
      AfterCheckEmail(t, op, false) == if Rival(t, op.email, op.id) then Finished(ErrUserAlreadyExists) else Write
  {
    LiveIsAll(t);
    match op
    case UpdateUser(id, _, email, _) =>
      SelectPointwise(t.rows, LiveOtherWithEmail(email, id), OtherWithEmail(email, id));
      SelectEmpty(t.rows, HasUserId(id));
      SelectEmpty(t.rows, OtherWithEmail(email, id));
      SelectNarrower(t.rows, OtherWithEmail(email, id), HasEmail(email));
    case DeleteUser(id) => SelectEmpty(t.rows, HasUserId(id));
    case _ => SelectEmpty(t.rows, HasEmail(op.email));
  }

  /** A check that fails answers with an internal error and leads to no write. */
  lemma FailedCheckEnds(t: UserTable, op: UserOp, fails: bool)
    ensures AfterCheck(t, op, fails) == Finished(ErrInternal) <==> fails
    ensures AfterCheckEmail(t, op, fails) == Finished(ErrInternal) <==> fails
  {
  }

  lemma WriteAnswersRight(mode: ZeroRows, t: UserTable, op: UserOp, fails: bool)
    requires Consistent(t)
    ensures Right(mode, t, op, fails, Execute(mode, t, op, fails).1)
  {
    match op
    case CreateUser(name, email, role, hash) => CreateUserEffect(mode, t, name, email, role, hash, fails);
    case UpdateUser(id, name, email, role) => UpdateUserReply(mode, t, id, name, email, role, fails);
    case DeleteUser(id) => DeleteUserEffect(mode, t, id, fails);
    case ChangePassword(email, hash) => ChangePasswordEffect(mode, t, email, hash, fails);
  }

  /** A request is answered by one of its own database calls, and rightly, or has been before. */
  lemma AnswerStep(mode: ZeroRows, s: UserState, e: UserEvent, tid: nat, reply: UserReply)
    requires Consistent(s.table) && EmailChecksUpdate(s.tasks)
    requires tid in Apply(mode, s, e).tasks && Apply(mode, s, e).tasks[tid].pc == Finished(reply)
    ensures tid in s.tasks && s.tasks[tid].op == Apply(mode, s, e).tasks[tid].op && !e.Restart?
    ensures s.tasks[tid].pc == Finished(reply)
         || (e.Client? && e.tid == tid && Right(mode, s.table, s.tasks[tid].op, e.fails, reply))
  {
    if tid in s.tasks && e.Client? && e.tid == tid {
      ChecksAreExact(s.table, s.tasks[tid].op);
      WriteAnswersRight(mode, s.table, s.tasks[tid].op, e.fails);
    }
  }

  /** Step `j` is a call of request `tid`, with the process since then, and `reply` was right for it then. */
  ghost predicate RightAt(mode: ZeroRows, es: seq<UserEvent>, j: nat, tid: nat, op: UserOp, reply: UserReply) {
    && j < |es| && es[j].Client? && es[j].tid == tid
    && (forall m :: j <= m <= |es| ==> tid in After(mode, es[..m]).tasks)
    && After(mode, es[..j]).tasks[tid].op == op
    && Right(mode, After(mode, es[..j]).table, op, es[j].fails, reply)
  }

  lemma RightLater(mode: ZeroRows, es: seq<UserEvent>, e: UserEvent, j: nat, tid: nat, op: UserOp, reply: UserReply)
    requires RightAt(mode, es, j, tid, op, reply) && tid in After(mode, es + [e]).tasks
    ensures RightAt(mode, es + [e], j, tid, op, reply)
  {
    var longer := es + [e];
    assert longer[..|longer|] == longer;
    forall m | j <= m <= |longer|
      ensures tid in After(mode, longer[..m]).tasks
    {
      if m <= |es| {
        assert longer[..m] == es[..m];
      }
    }
    assert longer[..j] == es[..j];
  }

  lemma RightNow(mode: ZeroRows, es: seq<UserEvent>, e: UserEvent, tid: nat, op: UserOp, reply: UserReply)
    requires e.Client? && e.tid == tid && tid in After(mode, es).tasks && tid in After(mode, es + [e]).tasks
    requires After(mode, es).tasks[tid].op == op && Right(mode, After(mode, es).table, op, e.fails, reply)
    ensures RightAt(mode, es + [e], |es|, tid, op, reply)
  {
    var longer := es + [e];
    assert longer[..|es|] == es && longer[|es|] == e;
    forall m | |es| <= m <= |longer|
      ensures tid in After(mode, longer[..m]).tasks
    {
      if m > |es| {
        assert longer[..m] == longer;
      }
    }
  }

  /** In every interleaving, with any faults: whatever a request has been answered was the right answer
      on the table as it stood at one of the request's own calls. */
  lemma {:induction false} AnswersAreRight(mode: ZeroRows, es: seq<UserEvent>, tid: nat, reply: UserReply)
    requires tid in After(mode, es).tasks && After(mode, es).tasks[tid].pc == Finished(reply)
    ensures exists j: nat :: RightAt(mode, es, j, tid, After(mode, es).tasks[tid].op, reply)
  {
    var before, e := es[..|es| - 1], es[|es| - 1];
    var s := After(mode, before);
    assert before + [e] == es;
    AfterNext(mode, before, e);
    UsersConsistent(mode, before);
    EmailCheckOnlyForUpdates(mode, before);
    AnswerStep(mode, s, e, tid, reply);
    if s.tasks[tid].pc == Finished(reply) {
      AnswersAreRight(mode, before, tid, reply);
      var j: nat :| RightAt(mode, before, j, tid, s.tasks[tid].op, reply);
      RightLater(mode, before, e, j, tid, s.tasks[tid].op, reply);
    } else {
      RightNow(mode, before, e, tid, s.tasks[tid].op, reply);
    }
  }
}
