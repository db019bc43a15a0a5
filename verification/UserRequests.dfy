/** One user request from its arrival to its answer: the database calls it makes, which of them fail, and what
    the answer must then be. */
module UserRequests {
  import opened Schema
  import opened Users
  import opened UserAnswers

  /** Which database calls of a request fail. One that is answered early makes fewer calls. */
  datatype Failures = Failures(check: bool, checkEmail: bool, write: bool)

  const NO_FAILURES: Failures := Failures(false, false, false)

  /** A step of request `me`. */
  predicate Acts(e: UserEvent, me: nat) { !e.Restart? && e.tid == me }

  function Own(es: seq<UserEvent>, me: nat): seq<UserEvent> {
    if es == [] then []
    else Own(es[..|es| - 1], me) + if Acts(es[|es| - 1], me) then [es[|es| - 1]] else []
  }

  lemma {:induction false} OwnMember(es: seq<UserEvent>, me: nat, j: nat)
    requires j < |es| && Acts(es[j], me)
    ensures es[j] in Own(es, me)
  {
    if j < |es| - 1 {
      OwnMember(es[..|es| - 1], me, j);
    }
  }

  lemma OwnSince(before: seq<UserEvent>, es: seq<UserEvent>, e: UserEvent, me: nat)
    requires before <= es
    ensures before <= es + [e]
    ensures Own((es + [e])[|before|..], me) == Own(es[|before|..], me) + if Acts(e, me) then [e] else []
  {
    var stretch := es[|before|..];
    assert (es + [e])[|before|..] == stretch + [e];
    assert (stretch + [e])[..|stretch + [e]| - 1] == stretch;
  }

  /** All steps of request `me` from arrival to answer, should it come that far. */
  function Script(me: nat, op: UserOp, failures: Failures): seq<UserEvent> {
    if op.UpdateUser? then
      [Begin(me, op), Client(me, failures.check), Client(me, failures.checkEmail), Client(me, failures.write)]
    else [Begin(me, op), Client(me, failures.check), Client(me, failures.write)]
  }

  /** How many steps of its script an unanswered request has behind it. */
  function StepsTaken(op: UserOp, pc: UserPc): nat {
    match pc
    case Check => 1
    case CheckEmail => 2
    case _ => if op.UpdateUser? then 3 else 2
  }

  /** Request `me` arrived after `before`, and up to `after` has followed its script as far as `pc`. */
  ghost predicate Follows(before: seq<UserEvent>, after: seq<UserEvent>, me: nat, op: UserOp, failures: Failures,
                          pc: UserPc) {
    var script, taken := Script(me, op, failures), StepsTaken(op, pc);
    && before <= after
    && if pc.Finished? then Own(after[|before|..], me) <= script
       else taken <= |script| && Own(after[|before|..], me) == script[..taken]
  }

  lemma FollowsNext(before: seq<UserEvent>, after: seq<UserEvent>, me: nat, op: UserOp, failures: Failures, pc: UserPc,
                    pc': UserPc)
    requires Follows(before, after, me, op, failures, pc) && !pc.Finished?
    requires StepsTaken(op, pc) < |Script(me, op, failures)|
    requires pc'.Finished? || StepsTaken(op, pc') == StepsTaken(op, pc) + 1
    ensures Follows(before, after + [Script(me, op, failures)[StepsTaken(op, pc)]], me, op, failures, pc')
  {
    var script, taken := Script(me, op, failures), StepsTaken(op, pc);
    assert script[..taken] + [script[taken]] == script[..taken + 1];
    assert Acts(script[taken], me);
    OwnSince(before, after, script[taken], me);
  }

  /** Request `me` arrived after `before` and has the answer `reply` at the end of `after`; of its calls exactly
      those failed that `failures` says. */
  ghost predicate Served(mode: ZeroRows, before: seq<UserEvent>, after: seq<UserEvent>, me: nat, op: UserOp,
                         failures: Failures, reply: UserReply) {
    && before <= after
    && me !in After(mode, before).tasks
    && me in After(mode, after).tasks && After(mode, after).tasks[me] == UserTask(op, Finished(reply))
    && Own(after[|before|..], me) <= Script(me, op, failures)
  }

  // Without a failure

  /** A request none of whose calls fails is answered rightly for one of them, and with an internal error only
      for a deletion whose user was gone by then, when a row not found is reported. */
  lemma FaultFreeAnswer(mode: ZeroRows, before: seq<UserEvent>, after: seq<UserEvent>, me: nat, op: UserOp,
                        reply: UserReply)
    requires Served(mode, before, after, me, op, NO_FAILURES, reply)
    ensures exists j: nat :: |before| < j < |after| && Right(mode, After(mode, after[..j]).table, op, false, reply)
    ensures reply == ErrInternal ==> op.DeleteUser? && mode.NotFound?
  {
    AnswersAreRight(mode, after, me, reply);
    var j: nat :| RightAt(mode, after, j, me, op, reply);
    assert after[..|before|] == before;
    assert j > |before|;
    var stretch := after[|before|..];
    assert stretch[j - |before|] == after[j];
    OwnMember(stretch, me, j - |before|);
    assert after[j] in Script(me, op, NO_FAILURES);
    assert Right(mode, After(mode, after[..j]).table, op, false, reply);
  }

  // Alone

  /** Nobody but `me` gets to a writing call from `start` on. */
  ghost predicate Undisturbed(mode: ZeroRows, es: seq<UserEvent>, start: nat, me: nat) {
    forall k :: start <= k < |es| && Writes(After(mode, es[..k]), es[k]) ==> es[k].tid == me
  }

  /** The answer a lone request gets. */
  function LoneReply(t: UserTable, op: UserOp): UserReply {
    match op
    case CreateUser(_, email, _, _) => if Known(t, email) then ErrUserAlreadyExists else OK
    case UpdateUser(id, _, email, _) =>
      if !Registered(t, id) then ErrUserDoesNotExist
      else if Rival(t, email, id) then ErrUserAlreadyExists
      else OK
    case DeleteUser(id) => if Registered(t, id) then OK else ErrUserDoesNotExist
    case ChangePassword(email, _) => if Known(t, email) then OK else ErrUserDoesNotExist
  }

  /** The table a lone request leaves. */
  function LoneEffect(mode: ZeroRows, t: UserTable, op: UserOp): UserTable {
    if LoneReply(t, op) == OK then Execute(mode, t, op, false).0 else t
  }

  predicate Passed(t: UserTable, op: UserOp) {
    AfterCheck(t, op, false) == Write
    || (AfterCheck(t, op, false) == CheckEmail && AfterCheckEmail(t, op, false) == Write)
  }

  /** How far a lone request for `op` has come, and what it has done to the table it found, `t`. */
  predicate Alone(mode: ZeroRows, t: UserTable, s: UserState, me: nat, op: UserOp) {
    && me in s.tasks && s.tasks[me].op == op
    && match s.tasks[me].pc
       case Check => s.table == t
       case CheckEmail => s.table == t && op.UpdateUser? && AfterCheck(t, op, false) == CheckEmail
       case Write => s.table == t && Passed(t, op)
       case Finished(reply) => LoneReply(t, op) == reply && s.table == LoneEffect(mode, t, op)
  }

  lemma PassedMeans(mode: ZeroRows, t: UserTable, op: UserOp)
    requires Consistent(t) && Passed(t, op)
    ensures Execute(mode, t, op, false).1 == LoneReply(t, op)
  {
    ChecksAreExact(t, op);
    WriteAnswersRight(mode, t, op, false);
    match op
    case CreateUser(name, email, role, hash) => CreateUserEffect(mode, t, name, email, role, hash, false);
    case UpdateUser(id, name, email, role) => UpdateUserReply(mode, t, id, name, email, role, false);
    case DeleteUser(id) => DeleteUserEffect(mode, t, id, false);
    case ChangePassword(email, hash) => ChangePasswordEffect(mode, t, email, hash, false);
  }

  lemma AloneCalls(mode: ZeroRows, t: UserTable, s: UserState, me: nat, op: UserOp)
    requires Alone(mode, t, s, me, op) && Consistent(t)
    ensures Alone(mode, t, Apply(mode, s, Client(me, false)), me, op)
  {
    ChecksAreExact(t, op);
    if s.tasks[me].pc.Write? {
      PassedMeans(mode, t, op);
    }
  }

  predicate NotYet(t: UserTable, s: UserState, me: nat) { me !in s.tasks && s.table == t }

  lemma UndisturbedNext(mode: ZeroRows, es: seq<UserEvent>, e: UserEvent, start: nat, me: nat)
    requires start <= |es| && Undisturbed(mode, es + [e], start, me)
    ensures Undisturbed(mode, es, start, me) && (Writes(After(mode, es), e) ==> e.tid == me)
  {
    var longer := es + [e];
    assert longer[..|es|] == es && longer[|es|] == e;
    forall k | start <= k < |es|
      ensures longer[..k] == es[..k] && longer[k] == es[k]
    {
    }
  }

  lemma NotYetStep(mode: ZeroRows, t: UserTable, s: UserState, e: UserEvent, me: nat)
    requires NotYet(t, s, me) && !Acts(e, me) && !Writes(s, e)
    ensures NotYet(t, Apply(mode, s, e), me)
  {
    StepTable(mode, s, e);
  }

  lemma {:induction false} NotYetArrived(mode: ZeroRows, before: seq<UserEvent>, after: seq<UserEvent>, me: nat)
    requires before <= after && me !in After(mode, before).tasks
    requires Own(after[|before|..], me) == [] && Undisturbed(mode, after, |before|, me)
    ensures NotYet(After(mode, before).table, After(mode, after), me)
  {
    if before != after {
      var es, e := after[..|after| - 1], after[|after| - 1];
      assert after == es + [e];
      OwnSince(before, es, e, me);
      UndisturbedNext(mode, es, e, |before|, me);
      NotYetArrived(mode, before, es, me);
      AfterNext(mode, es, e);
      NotYetStep(mode, After(mode, before).table, After(mode, es), e, me);
    }
  }

  lemma ScriptGoesOn(me: nat, op: UserOp, taken: seq<UserEvent>, e: UserEvent)
    requires taken + (if Acts(e, me) then [e] else []) <= Script(me, op, NO_FAILURES)
    ensures taken <= Script(me, op, NO_FAILURES)
    ensures Acts(e, me) ==> e == if taken == [] then Begin(me, op) else Client(me, false)
  {
    if Acts(e, me) {
      assert e == (taken + [e])[|taken|] == Script(me, op, NO_FAILURES)[|taken|];
    } else {
      assert taken + [] == taken;
    }
  }

  lemma AloneStep(mode: ZeroRows, t: UserTable, s: UserState, e: UserEvent, me: nat, op: UserOp)
    requires Consistent(t) && me in Apply(mode, s, e).tasks
    requires if e == Begin(me, op) then NotYet(t, s, me) else Alone(mode, t, s, me, op)
    requires if Acts(e, me) then e == Begin(me, op) || e == Client(me, false) else !Writes(s, e)
    ensures Alone(mode, t, Apply(mode, s, e), me, op)
  {
    StepTable(mode, s, e);
    if e == Client(me, false) {
      AloneCalls(mode, t, s, me, op);
    }
  }

  /** `me` follows its script from `before` on and nobody gets in between. */
  ghost predicate Lone(mode: ZeroRows, before: seq<UserEvent>, after: seq<UserEvent>, me: nat, op: UserOp) {
    && before <= after
    && Own(after[|before|..], me) <= Script(me, op, NO_FAILURES)
    && Undisturbed(mode, after, |before|, me)
  }

  lemma LoneNext(mode: ZeroRows, before: seq<UserEvent>, es: seq<UserEvent>, e: UserEvent, me: nat, op: UserOp)
    requires before <= es && Lone(mode, before, es + [e], me, op) && me in After(mode, es + [e]).tasks
    ensures Lone(mode, before, es, me, op)
    ensures if Acts(e, me) then e == Begin(me, op) || e == Client(me, false) else !Writes(After(mode, es), e)
    ensures if e == Begin(me, op) then Own(es[|before|..], me) == [] else me in After(mode, es).tasks
  {
    OwnSince(before, es, e, me);
    ScriptGoesOn(me, op, Own(es[|before|..], me), e);
    UndisturbedNext(mode, es, e, |before|, me);
    AfterNext(mode, es, e);
  }

  lemma AloneNext(mode: ZeroRows, before: seq<UserEvent>, es: seq<UserEvent>, e: UserEvent, me: nat, op: UserOp)
    requires me in After(mode, es + [e]).tasks
    requires var t, s := After(mode, before).table, After(mode, es);
             if e == Begin(me, op) then NotYet(t, s, me) else Alone(mode, t, s, me, op)
    requires if Acts(e, me) then e == Begin(me, op) || e == Client(me, false) else !Writes(After(mode, es), e)
    ensures Alone(mode, After(mode, before).table, After(mode, es + [e]), me, op)
  {
    UsersConsistent(mode, before);
    AfterNext(mode, es, e);
    AloneStep(mode, After(mode, before).table, After(mode, es), e, me, op);
  }

  lemma ArrivedSince(mode: ZeroRows, before: seq<UserEvent>, after: seq<UserEvent>, me: nat)
    requires before <= after && me !in After(mode, before).tasks && me in After(mode, after).tasks
    ensures |before| < |after| && before <= after[..|after| - 1]
  {
    assert before != after;
  }

  lemma {:induction false} AloneRun(mode: ZeroRows, before: seq<UserEvent>, after: seq<UserEvent>, me: nat, op: UserOp)
    requires Lone(mode, before, after, me, op)
    requires me !in After(mode, before).tasks && me in After(mode, after).tasks
    ensures Alone(mode, After(mode, before).table, After(mode, after), me, op)
    decreases |after|
  {
    ArrivedSince(mode, before, after, me);
    var es, e := after[..|after| - 1], after[|after| - 1];
    assert after == es + [e];
    LoneNext(mode, before, es, e, me, op);
    if e == Begin(me, op) {
      NotYetArrived(mode, before, es, me);
    } else {
      AloneRun(mode, before, es, me, op);
    }
    AloneNext(mode, before, es, e, me, op);
  }

  /** A request without failures that nobody's write gets in between answers as a sequential reading says, by
      what the table held when it arrived, however zero-row writes are reported; and it leaves the table changed
      by its one write, or, refused, as it was. */
  lemma LoneAnswer(mode: ZeroRows, before: seq<UserEvent>, after: seq<UserEvent>, me: nat, op: UserOp, reply: UserReply)
    requires Served(mode, before, after, me, op, NO_FAILURES, reply) && Undisturbed(mode, after, |before|, me)
    ensures reply == LoneReply(After(mode, before).table, op)
    ensures After(mode, after).table == LoneEffect(mode, After(mode, before).table, op)
  {
    AloneRun(mode, before, after, me, op);
  }
}
