/** Every answer was the right one at some moment between the request's arrival and its answer. */
module Answers {
  import opened Rows
  import opened Schema
  import opened Protocol
  import opened Integrity
  import opened Effects
  import opened Racing

  /** The answer a request has, or is about to give once it has set the flag. */
  predicate Answered(task: Task, reply: Reply) {
    task.pc == Finished(reply) || (task.pc.SetFlag? && reply == OK)
  }

  /** What success requires of the database; under silent reporting a row to hit is not part of it. */
  predicate Allows(mode: ZeroRows, db: Database, op: Op) {
    match op
    case CreateService(name, _) => !Named(db.services, name)
    case UpdateService(id, name, _) =>
      if Exists(db.services, id) then name == "" || !Rival(db.services, name, id) else mode.Silent?
    case DeleteService(id) => mode.Silent? || Exists(db.services, id)
    case CreateVersion(id, tag, _) => Exists(db.services, id) && !Tagged(db.versions, id, tag)
    case UpdateVersion(id, tag, _) => mode.Silent? || Tagged(db.versions, id, tag)
    case DeleteVersion(id, tag) => mode.Silent? || Tagged(db.versions, id, tag)
  }

  /** In the words of the interface: `reply` is right for `op` on database `db`, given the fault of the call. */
  predicate Right(mode: ZeroRows, db: Database, op: Op, fault: Fault, reply: Reply) {
    match reply
    case OK => fault.NoFault? && Allows(mode, db, op)
    case ErrServiceAlreadyExists =>
      || (op.CreateService? && Named(db.services, op.name))
      || (op.UpdateService? && Rival(db.services, op.name, op.id))
    case ErrServiceDoesNotExist => (op.UpdateService? || op.DeleteService?) && !Exists(db.services, op.id)
    case ErrVersionAlreadyExists => op.CreateVersion? && Tagged(db.versions, op.id, op.tag)
    case ErrVersionDoesNotExist => (op.UpdateVersion? || op.DeleteVersion?) && !Tagged(db.versions, op.id, op.tag)
    case ErrTransaction =>
      && (fault.AtBegin? || fault.AtCommit?)
      && (op.DeleteService? || op.CreateVersion? || op.DeleteVersion?)
    case ErrInternal =>
      // without a fault, only for a service gone between check and transaction
      || !fault.NoFault?
      || (op.CreateVersion? && !Exists(db.services, op.id))
      || (op.DeleteService? && !Exists(db.services, op.id) && mode.NotFound?)
  }

  /** The checks before a write refuse exactly what they say they refuse. */
  lemma ChecksAreExact(db: Database, op: Op)
    requires Consistent(db)
    ensures AfterCheck(db, op, NoFault) ==
      match op
      case CreateService(name, _) => if Named(db.services, name) then Finished(ErrServiceAlreadyExists) else Write
      case UpdateService(id, _, _) => if Exists(db.services, id) then CheckName else Finished(ErrServiceDoesNotExist)
      case DeleteService(id) => if Exists(db.services, id) then Write else Finished(ErrServiceDoesNotExist)
      case CreateVersion(id, tag, _) =>
        if Tagged(db.versions, id, tag) then Finished(ErrVersionAlreadyExists) else Write
      case UpdateVersion(id, tag, _) => if Tagged(db.versions, id, tag) then Write else Finished(ErrVersionDoesNotExist)
      case DeleteVersion(id, tag) => if Tagged(db.versions, id, tag) then Write else Finished(ErrVersionDoesNotExist)
    ensures op.UpdateService? ==>
      AfterCheckName(db, op, NoFault)
      == if Rival(db.services, op.name, op.id) then Finished(ErrServiceAlreadyExists) else Write
  {
    LiveIsAll(db);
    match op
    case CreateService(name, _) => SelectEmpty(db.services, HasName(name));
    case UpdateService(id, name, _) =>
      ExistsSelect(db.services, id);
      SelectEmpty(db.services, OtherWithName(name, id));
      SelectNarrower(db.services, OtherWithName(name, id), HasName(name));
    case DeleteService(id) => ExistsSelect(db.services, id);
    case _ => SelectEmpty(db.versions, HasKey(op.id, op.tag));
  }

  /** A check that fails answers with an internal error and leads to no write. */
  lemma FailedCheckEnds(db: Database, op: Op, fault: Fault)
    ensures AfterCheck(db, op, fault) == Finished(ErrInternal) <==> !fault.NoFault?
    ensures AfterCheckName(db, op, fault) == Finished(ErrInternal) <==> !fault.NoFault?
  {
  }

  lemma WriteAnswersRight(mode: ZeroRows, db: Database, op: Op, fault: Fault)
    requires Consistent(db)
    ensures Right(mode, db, op, fault, Execute(mode, db, op, fault).1)
  {
    match op
    case CreateService(name, description) => CreateServiceEffect(mode, db, name, description, fault);
    case UpdateService(id, name, description) => UpdateServiceEffect(mode, db, id, name, description, fault);
    case DeleteService(id) => DeleteServiceAllOrNothing(mode, db, id, fault);
    case CreateVersion(id, tag, info) => CreateVersionEffect(mode, db, id, tag, info, fault);
    case UpdateVersion(id, tag, info) => UpdateVersionEffect(mode, db, id, tag, info, fault);
    case DeleteVersion(id, tag) => DeleteVersionEffect(mode, db, id, tag, fault);
  }

  lemma CheckAnswersRight(mode: ZeroRows, db: Database, op: Op, fault: Fault, reply: Reply)
    requires Consistent(db)
    requires AfterCheck(db, op, fault) == Finished(reply)
             || (op.UpdateService? && AfterCheckName(db, op, fault) == Finished(reply))
    ensures Right(mode, db, op, fault, reply)
  {
    ChecksAreExact(db, op);
  }

  /** A request is answered by one of its own database calls, and rightly, or has been before. */
  lemma AnswerStep(mode: ZeroRows, s: State, e: Event, tid: nat, reply: Reply)
    requires Consistent(s.db) && NameChecksUpdate(s.tasks)
    requires tid in Apply(mode, s, e).tasks && Answered(Apply(mode, s, e).tasks[tid], reply)
    ensures tid in s.tasks && s.tasks[tid].op == Apply(mode, s, e).tasks[tid].op
    ensures Answered(s.tasks[tid], reply)
         || (e.Client? && e.tid == tid && Right(mode, s.db, s.tasks[tid].op, e.fault, reply))
  {
    if tid in s.tasks && e.Client? && e.tid == tid {
      var Task(op, pc) := s.tasks[tid];
      match pc
      case Check => CheckAnswersRight(mode, s.db, op, e.fault, reply);
      case CheckName => CheckAnswersRight(mode, s.db, op, e.fault, reply);
      case Write => WriteAnswersRight(mode, s.db, op, e.fault);
      case _ =>
    }
  }

  /** Step `j` is a call of request `tid`, with the process since then, and `reply` was right for it then. */
  ghost predicate RightAt(mode: ZeroRows, es: seq<Event>, j: nat, tid: nat, op: Op, reply: Reply) {
    && j < |es| && es[j].Client? && es[j].tid == tid
    && (forall m :: j <= m <= |es| ==> tid in After(mode, es[..m]).tasks)
    && After(mode, es[..j]).tasks[tid].op == op
    && Right(mode, After(mode, es[..j]).db, op, es[j].fault, reply)
  }

  lemma RightLater(mode: ZeroRows, es: seq<Event>, e: Event, j: nat, tid: nat, op: Op, reply: Reply)
    requires RightAt(mode, es, j, tid, op, reply) && tid in After(mode, es + [e]).tasks
    ensures RightAt(mode, es + [e], j, tid, op, reply)
  {
    var longer := es + [e];
    assert longer[..|longer|] == longer;
    forall m | j <= m <= |longer|
      ensures tid in After(mode, longer[..m]).tasks
    {
      if m <= |es| {
        assert longer[..m] == es[..m];
      }
    }
    assert longer[..j] == es[..j];
  }

  lemma RightNow(mode: ZeroRows, es: seq<Event>, e: Event, tid: nat, op: Op, reply: Reply)
    requires e.Client? && e.tid == tid && tid in After(mode, es).tasks && tid in After(mode, es + [e]).tasks
    requires After(mode, es).tasks[tid].op == op && Right(mode, After(mode, es).db, op, e.fault, reply)
    ensures RightAt(mode, es + [e], |es|, tid, op, reply)
  {
    var longer := es + [e];
    assert longer[..|es|] == es && longer[|es|] == e;
    forall m | |es| <= m <= |longer|
      ensures tid in After(mode, longer[..m]).tasks
    {
      if m > |es| {
        assert longer[..m] == longer;
      }
    }
  }

  /** In every interleaving, with any faults: whatever a request has been answered was the right answer
      on the database as it stood at one of the request's own calls. So success was possible and a
      refusal was justified at some moment while the request was in flight. */
  lemma {:induction false} AnswersAreRight(mode: ZeroRows, es: seq<Event>, tid: nat, reply: Reply)
    requires tid in After(mode, es).tasks && Answered(After(mode, es).tasks[tid], reply)
    ensures exists j: nat :: RightAt(mode, es, j, tid, After(mode, es).tasks[tid].op, reply)
  {
    var before, e := es[..|es| - 1], es[|es| - 1];
    var s := After(mode, before);
    assert before + [e] == es;
    AfterNext(mode, before, e);
    IntegrityAlways(mode, before);
    CheckNameOnlyForUpdates(mode, before);
    AnswerStep(mode, s, e, tid, reply);
    var op := s.tasks[tid].op;
    if Answered(s.tasks[tid], reply) {
      AnswersAreRight(mode, before, tid, reply);
      var j: nat :| RightAt(mode, before, j, tid, op, reply);
      RightLater(mode, before, e, j, tid, op, reply);
    } else {
      RightNow(mode, before, e, tid, op, reply);
    }
  }
}
