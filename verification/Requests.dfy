/** One request from its arrival to its answer: the database calls it makes, what each of them runs into,
    and what the answer must then be. */
module Requests {
  import opened Schema
  import opened Protocol
  import opened Integrity
  import opened Effects
  import opened Answers

  /** What the database calls of a request run into. A request that is answered early makes fewer calls. */
  datatype Faults = Faults(check: Fault, checkName: Fault, write: Fault)

  const NO_FAULTS: Faults := Faults(NoFault, NoFault, NoFault)

  /** A step of request `me`. */
  predicate Acts(e: Event, me: nat) { (e.Client? || e.Begin?) && e.tid == me }

  function Own(es: seq<Event>, me: nat): seq<Event> {
    if es == [] then []
    else Own(es[..|es| - 1], me) + if Acts(es[|es| - 1], me) then [es[|es| - 1]] else []
  }

  lemma OwnNext(es: seq<Event>, e: Event, me: nat)
    ensures Own(es + [e], me) == Own(es, me) + if Acts(e, me) then [e] else []
  {
    assert (es + [e])[..|es + [e]| - 1] == es;
  }

  lemma {:induction false} OwnMember(es: seq<Event>, me: nat, j: nat)
    requires j < |es| && Acts(es[j], me)
    ensures es[j] in Own(es, me)
  {
    if j < |es| - 1 {
      OwnMember(es[..|es| - 1], me, j);
    }
  }

  /** All steps of request `me` from arrival to answer, should it come that far. UpdateVersion sets no flag. */
  function Script(me: nat, op: Op, faults: Faults): seq<Event> {
    match op
    case UpdateService(_, _, _) =>
      [Begin(me, op), Client(me, faults.check), Client(me, faults.checkName), Client(me, faults.write),
       Client(me, NoFault)]
    case UpdateVersion(_, _, _) => [Begin(me, op), Client(me, faults.check), Client(me, faults.write)]
    case _ => [Begin(me, op), Client(me, faults.check), Client(me, faults.write), Client(me, NoFault)]
  }

  /** Between `before` and `after` request `me` has taken these steps and no other. */
  ghost predicate Did(before: seq<Event>, after: seq<Event>, me: nat, steps: seq<Event>) {
    before <= after && Own(after[|before|..], me) == steps
  }

  lemma DidNext(before: seq<Event>, after: seq<Event>, me: nat, steps: seq<Event>, e: Event)
    requires Did(before, after, me, steps)
    ensures Did(before, after + [e], me, steps + if Acts(e, me) then [e] else [])
  {
    assert (after + [e])[|before|..] == after[|before|..] + [e];
    OwnNext(after[|before|..], e, me);
  }

  /** How many steps of its script an unanswered request has behind it. */
  function StepsTaken(op: Op, pc: Pc): nat {
    match pc
    case Check => 1
    case CheckName => 2
    case Write => if op.UpdateService? then 3 else 2
    case _ => if op.UpdateService? then 4 else 3
  }

  /** Request `me` arrived after `before`, and up to `after` has followed its script as far as `pc`. */
  ghost predicate Follows(before: seq<Event>, after: seq<Event>, me: nat, op: Op, faults: Faults, pc: Pc) {
    var script, taken := Script(me, op, faults), StepsTaken(op, pc);
    && before <= after
    && if pc.Finished? then Own(after[|before|..], me) <= script
       else taken <= |script| && Did(before, after, me, script[..taken])
  }

  lemma FollowsNext(before: seq<Event>, after: seq<Event>, me: nat, op: Op, faults: Faults, pc: Pc, pc': Pc)
    requires Follows(before, after, me, op, faults, pc) && !pc.Finished?
    requires StepsTaken(op, pc) < |Script(me, op, faults)|
    requires pc'.Finished? || StepsTaken(op, pc') == StepsTaken(op, pc) + 1
    ensures Follows(before, after + [Script(me, op, faults)[StepsTaken(op, pc)]], me, op, faults, pc')
  {
    var script, taken := Script(me, op, faults), StepsTaken(op, pc);
    assert script[..taken] + [script[taken]] == script[..taken + 1];
    assert Acts(script[taken], me);
    DidNext(before, after, me, script[..taken], script[taken]);
  }

  /** Request `me` arrived after `before` and has the answer `reply` at the end of `after`; its calls ran into
      `faults` and nothing else. */
  ghost predicate Served(mode: ZeroRows, before: seq<Event>, after: seq<Event>, me: nat, op: Op, faults: Faults,
                         reply: Reply) {
    && before <= after
    && me !in After(mode, before).tasks
    && me in After(mode, after).tasks && After(mode, after).tasks[me] == Task(op, Finished(reply))
    && Own(after[|before|..], me) <= Script(me, op, faults)
  }

  // Without a fault

  /** A request whose calls run into no fault is never answered with a driver's error, and with an internal one
      only if its service was gone at one of its calls: before the insert of a version, or before the deletion
      of the service itself when a row not found is reported. Any other answer was right at one of its calls. */
  lemma FaultFreeAnswer(mode: ZeroRows, before: seq<Event>, after: seq<Event>, me: nat, op: Op, reply: Reply)
    requires Served(mode, before, after, me, op, NO_FAULTS, reply)
    ensures exists j: nat :: |before| < j < |after| && Right(mode, After(mode, after[..j]).db, op, NoFault, reply)
    ensures reply != ErrTransaction
    ensures reply == ErrInternal ==> op.CreateVersion? || (op.DeleteService? && mode.NotFound?)
    ensures reply == ErrInternal ==>
      exists j: nat :: |before| < j < |after| && !Exists(After(mode, after[..j]).db.services, op.id)
  {
    AnswersAreRight(mode, after, me, reply);
    var j: nat :| RightAt(mode, after, j, me, op, reply);
    assert after[..|before|] == before;
    assert j > |before|;
    var stretch := after[|before|..];
    assert stretch[j - |before|] == after[j];
    OwnMember(stretch, me, j - |before|);
    assert after[j] in Script(me, op, NO_FAULTS);
    assert Right(mode, After(mode, after[..j]).db, op, NoFault, reply);
  }

  // Alone

  /** The tables are the same, whatever the view holds. */
  predicate SameTables(a: Database, b: Database) {
    a.services == b.services && a.versions == b.versions && a.nextId == b.nextId
  }

  /** Nobody but `me` gets to a writing call from `start` on. */
  ghost predicate Undisturbed(mode: ZeroRows, es: seq<Event>, start: nat, me: nat) {
    forall k :: start <= k < |es| && Writes(After(mode, es[..k]), es[k]) ==> es[k].tid == me
  }

  /** The answer a lone request gets. */
  function LoneReply(db: Database, op: Op): Reply {
    match op
    case CreateService(name, _) => if Named(db.services, name) then ErrServiceAlreadyExists else OK
    case UpdateService(id, name, _) =>
      if !Exists(db.services, id) then ErrServiceDoesNotExist
      else if Rival(db.services, name, id) then ErrServiceAlreadyExists
      else OK
    case DeleteService(id) => if Exists(db.services, id) then OK else ErrServiceDoesNotExist
    case CreateVersion(id, tag, _) =>
      if Tagged(db.versions, id, tag) then ErrVersionAlreadyExists
      else if Exists(db.services, id) then OK
      else ErrInternal
    case UpdateVersion(id, tag, _) => if Tagged(db.versions, id, tag) then OK else ErrVersionDoesNotExist
    case DeleteVersion(id, tag) => if Tagged(db.versions, id, tag) then OK else ErrVersionDoesNotExist
  }

  /** The tables a lone request leaves. */
  function LoneEffect(mode: ZeroRows, db: Database, op: Op): Database {
    if LoneReply(db, op) == OK then Execute(mode, db, op, NoFault).0 else db
  }

  predicate Passed(db: Database, op: Op) {
    AfterCheck(db, op, NoFault) == Write
    || (AfterCheck(db, op, NoFault) == CheckName && AfterCheckName(db, op, NoFault) == Write)
  }

  /** How far a lone request for `op` has come, and what it has done to the tables it found, `db`. */
  predicate Alone(mode: ZeroRows, db: Database, s: State, me: nat, op: Op) {
    && me in s.tasks && s.tasks[me].op == op
    && match s.tasks[me].pc
       case Check => SameTables(s.db, db)
       case CheckName => SameTables(s.db, db) && op.UpdateService? && AfterCheck(db, op, NoFault) == CheckName
       case Write => SameTables(s.db, db) && Passed(db, op)
       case SetFlag => LoneReply(db, op) == OK && SameTables(s.db, LoneEffect(mode, db, op))
       case Finished(reply) => LoneReply(db, op) == reply && SameTables(s.db, LoneEffect(mode, db, op))
  }

  lemma ExecuteIgnoresView(mode: ZeroRows, db: Database, op: Op, view: seq<Service>)
    ensures Execute(mode, db.(view := view), op, NoFault)
         == (Execute(mode, db, op, NoFault).0.(view := view), Execute(mode, db, op, NoFault).1)
  {
  }

  /** What passed its checks gets the lone answer at its write. */
  lemma PassedMeans(mode: ZeroRows, db: Database, op: Op)
    requires Consistent(db) && Passed(db, op)
    ensures Execute(mode, db, op, NoFault).1 == LoneReply(db, op)
  {
    ChecksAreExact(db, op);
    match op
    case CreateService(name, description) => CreateServiceEffect(mode, db, name, description, NoFault);
    case UpdateService(id, name, description) => UpdateServiceEffect(mode, db, id, name, description, NoFault);
    case DeleteService(id) => DeleteServiceAllOrNothing(mode, db, id, NoFault);
    case CreateVersion(id, tag, info) =>
      CreateVersionEffect(mode, db, id, tag, info, NoFault);
      WriteAnswersRight(mode, db, op, NoFault);
    case UpdateVersion(id, tag, info) => UpdateVersionEffect(mode, db, id, tag, info, NoFault);
    case DeleteVersion(id, tag) => DeleteVersionEffect(mode, db, id, tag, NoFault);
  }

  lemma AloneReads(mode: ZeroRows, db: Database, s: State, me: nat, op: Op)
    requires Alone(mode, db, s, me, op) && Consistent(db) && !s.tasks[me].pc.Write?
    ensures Alone(mode, db, Apply(mode, s, Client(me, NoFault)), me, op)
  {
    ChecksAreExact(db, op);
  }

  lemma AloneWrites(mode: ZeroRows, db: Database, s: State, me: nat, op: Op)
    requires Alone(mode, db, s, me, op) && Consistent(db) && s.tasks[me].pc.Write?
    ensures Alone(mode, db, Apply(mode, s, Client(me, NoFault)), me, op)
  {
    ExecuteIgnoresView(mode, db, op, s.db.view);
    assert s.db == db.(view := s.db.view);
    PassedMeans(mode, db, op);
    ExecuteFrame(mode, db, op, NoFault);
  }

  /** Others that do not write leave tables and task alone, unless the process ends. */
  lemma OthersStandBy(mode: ZeroRows, s: State, e: Event, me: nat)
    requires !Acts(e, me) && !Writes(s, e) && me in Apply(mode, s, e).tasks
    ensures me in s.tasks && Apply(mode, s, e).tasks[me] == s.tasks[me]
    ensures SameTables(Apply(mode, s, e).db, s.db)
  {
    StepDatabase(mode, s, e);
  }

  lemma UndisturbedNext(mode: ZeroRows, es: seq<Event>, e: Event, start: nat, me: nat)
    requires start <= |es| && Undisturbed(mode, es + [e], start, me)
    ensures Undisturbed(mode, es, start, me) && (Writes(After(mode, es), e) ==> e.tid == me)
  {
    var longer := es + [e];
    assert longer[..|es|] == es && longer[|es|] == e;
    forall k | start <= k < |es|
      ensures longer[..k] == es[..k] && longer[k] == es[k]
    {
    }
  }

  lemma OwnSince(before: seq<Event>, es: seq<Event>, e: Event, me: nat)
    requires before <= es
    ensures before <= es + [e]
    ensures Own((es + [e])[|before|..], me) == Own(es[|before|..], me) + if Acts(e, me) then [e] else []
  {
    assert (es + [e])[|before|..] == es[|before|..] + [e];
    OwnNext(es[|before|..], e, me);
  }

  predicate NotYet(db: Database, s: State, me: nat) { me !in s.tasks && SameTables(s.db, db) }

  lemma NotYetStep(mode: ZeroRows, db: Database, s: State, e: Event, me: nat)
    requires NotYet(db, s, me) && !Acts(e, me) && !Writes(s, e)
    ensures NotYet(db, Apply(mode, s, e), me)
  {
    StepDatabase(mode, s, e);
  }

  lemma {:induction false} NotYetArrived(mode: ZeroRows, before: seq<Event>, after: seq<Event>, me: nat)
    requires before <= after && me !in After(mode, before).tasks
    requires Own(after[|before|..], me) == [] && Undisturbed(mode, after, |before|, me)
    ensures NotYet(After(mode, before).db, After(mode, after), me)
  {
    if before != after {
      var es, e := after[..|after| - 1], after[|after| - 1];
      assert after == es + [e];
      OwnSince(before, es, e, me);
      UndisturbedNext(mode, es, e, |before|, me);
      NotYetArrived(mode, before, es, me);
      AfterNext(mode, es, e);
      NotYetStep(mode, After(mode, before).db, After(mode, es), e, me);
    }
  }

  /** The next step of a script. */
  lemma ScriptStep(me: nat, op: Op, taken: seq<Event>, e: Event)
    requires taken + [e] <= Script(me, op, NO_FAULTS)
    ensures taken <= Script(me, op, NO_FAULTS)
    ensures e == if taken == [] then Begin(me, op) else Client(me, NoFault)
  {
    assert e == Script(me, op, NO_FAULTS)[|taken|];
  }

  lemma AloneStep(mode: ZeroRows, db: Database, s: State, e: Event, me: nat, op: Op)
    requires Consistent(db) && me in Apply(mode, s, e).tasks
    requires if e == Begin(me, op) then NotYet(db, s, me) else Alone(mode, db, s, me, op)
    requires if Acts(e, me) then e == Begin(me, op) || e == Client(me, NoFault) else !Writes(s, e)
    ensures Alone(mode, db, Apply(mode, s, e), me, op)
  {
    if e == Client(me, NoFault) {
      if s.tasks[me].pc.Write? {
        AloneWrites(mode, db, s, me, op);
      } else {
        AloneReads(mode, db, s, me, op);
      }
    } else if e != Begin(me, op) {
      OthersStandBy(mode, s, e, me);
    }
  }

  /** `me` follows its script from `before` on and nobody gets in between. */
  ghost predicate Lone(mode: ZeroRows, before: seq<Event>, after: seq<Event>, me: nat, op: Op) {
    && before <= after
    && Own(after[|before|..], me) <= Script(me, op, NO_FAULTS)
    && Undisturbed(mode, after, |before|, me)
  }

  lemma OnlyBeginAdds(mode: ZeroRows, s: State, e: Event, me: nat)
    requires me in Apply(mode, s, e).tasks && !(e.Begin? && e.tid == me)
    ensures me in s.tasks
  {
  }

  lemma ScriptGoesOn(me: nat, op: Op, taken: seq<Event>, e: Event)
    requires taken + (if Acts(e, me) then [e] else []) <= Script(me, op, NO_FAULTS)
    ensures taken <= Script(me, op, NO_FAULTS)
    ensures Acts(e, me) ==> e == if taken == [] then Begin(me, op) else Client(me, NoFault)
  {
    if Acts(e, me) {
      ScriptStep(me, op, taken, e);
    } else {
      assert taken + [] == taken;
    }
  }

  lemma LoneNext(mode: ZeroRows, before: seq<Event>, es: seq<Event>, e: Event, me: nat, op: Op)
    requires before <= es && Lone(mode, before, es + [e], me, op) && me in After(mode, es + [e]).tasks
    ensures Lone(mode, before, es, me, op)
    ensures if Acts(e, me) then e == Begin(me, op) || e == Client(me, NoFault) else !Writes(After(mode, es), e)
    ensures if e == Begin(me, op) then Own(es[|before|..], me) == [] else me in After(mode, es).tasks
  {
    OwnSince(before, es, e, me);
    ScriptGoesOn(me, op, Own(es[|before|..], me), e);
    UndisturbedNext(mode, es, e, |before|, me);
    AfterNext(mode, es, e);
    if e != Begin(me, op) {
      OnlyBeginAdds(mode, After(mode, es), e, me);
    }
  }

  lemma AloneNext(mode: ZeroRows, before: seq<Event>, es: seq<Event>, e: Event, me: nat, op: Op)
    requires me in After(mode, es + [e]).tasks
    requires var db, s := After(mode, before).db, After(mode, es);
             if e == Begin(me, op) then NotYet(db, s, me) else Alone(mode, db, s, me, op)
    requires if Acts(e, me) then e == Begin(me, op) || e == Client(me, NoFault) else !Writes(After(mode, es), e)
    ensures Alone(mode, After(mode, before).db, After(mode, es + [e]), me, op)
  {
    IntegrityAlways(mode, before);
    AfterNext(mode, es, e);
    AloneStep(mode, After(mode, before).db, After(mode, es), e, me, op);
  }

  lemma ArrivedSince(mode: ZeroRows, before: seq<Event>, after: seq<Event>, me: nat)
    requires before <= after && me !in After(mode, before).tasks && me in After(mode, after).tasks
    ensures |before| < |after| && before <= after[..|after| - 1]
  {
    assert before != after;
  }

  lemma {:induction false} AloneRun(mode: ZeroRows, before: seq<Event>, after: seq<Event>, me: nat, op: Op)
    requires Lone(mode, before, after, me, op)
    requires me !in After(mode, before).tasks && me in After(mode, after).tasks
    ensures Alone(mode, After(mode, before).db, After(mode, after), me, op)
    decreases |after|
  {
    ArrivedSince(mode, before, after, me);
    var es, e := after[..|after| - 1], after[|after| - 1];
    assert after == es + [e];
    LoneNext(mode, before, es, e, me, op);
    if e == Begin(me, op) {
      NotYetArrived(mode, before, es, me);
    } else {
      AloneRun(mode, before, es, me, op);
    }
    AloneNext(mode, before, es, e, me, op);
  }

  /** A request without faults that nobody's write gets in between answers as a sequential reading says, by what
      the tables held when it arrived, however zero-row writes are reported; and it leaves the tables changed
      by its one write, or, refused, as they were. */
  lemma LoneAnswer(mode: ZeroRows, before: seq<Event>, after: seq<Event>, me: nat, op: Op, reply: Reply)
    requires Served(mode, before, after, me, op, NO_FAULTS, reply) && Undisturbed(mode, after, |before|, me)
    ensures reply == LoneReply(After(mode, before).db, op)
    ensures SameTables(After(mode, after).db, LoneEffect(mode, After(mode, before).db, op))
  {
    AloneRun(mode, before, after, me, op);
  }

  // The flag

  predicate VersionUpdatesAskNothing(tasks: map<nat, Task>) {
    forall tid :: tid in tasks && tasks[tid].op.UpdateVersion? ==> !tasks[tid].pc.SetFlag?
  }

  lemma VersionUpdateStep(mode: ZeroRows, s: State, e: Event)
    requires VersionUpdatesAskNothing(s.tasks)
    ensures VersionUpdatesAskNothing(Apply(mode, s, e).tasks)
  {
  }

  /** In no run is an UpdateServiceVersion request ever about to set the flag. */
  lemma {:induction false} VersionUpdatesSetNoFlag(mode: ZeroRows, es: seq<Event>)
    ensures VersionUpdatesAskNothing(After(mode, es).tasks)
  {
    if es != [] {
      VersionUpdatesSetNoFlag(mode, es[..|es| - 1]);
      VersionUpdateStep(mode, After(mode, es[..|es| - 1]), es[|es| - 1]);
    }
  }
}
