/** What an answer says about the run: a request is answered with success exactly when its write has
    been committed, and it commits at most once. */
module Replies {
  import opened Schema
  import opened Protocol
  import opened Freshness

  /** Request `tid` of the current process committed at `j`. */
  ghost predicate CommitBy(mode: ZeroRows, es: seq<Event>, j: nat, tid: nat) {
    CommitAt(mode, es, j) && es[j].tid == tid && Boot(mode, es) <= j
  }

  predicate Succeeded(task: Task) { task.pc.SetFlag? || task.pc == Finished(OK) }

  lemma CommitByNext(mode: ZeroRows, es: seq<Event>, e: Event, j: nat, tid: nat)
    ensures CommitBy(mode, es + [e], j, tid)
       <==> if j == |es| then ServiceCommit(mode, After(mode, es), e) && e.tid == tid
            else CommitBy(mode, es, j, tid) && !(e == Start && After(mode, es).syncer.Down?)
  {
    BootNext(mode, es, e);
    if j < |es| {
      assert (es + [e])[..j] == es[..j];
    } else if j == |es| {
      assert (es + [e])[..j] == es;
    }
  }

  lemma SucceedStep(mode: ZeroRows, s: State, e: Event, tid: nat)
    requires tid in Apply(mode, s, e).tasks && AsksForRefresh(Apply(mode, s, e).tasks[tid].op)
    ensures tid in s.tasks ==> s.tasks[tid].op == Apply(mode, s, e).tasks[tid].op
    ensures Succeeded(Apply(mode, s, e).tasks[tid])
       <==> (tid in s.tasks && Succeeded(s.tasks[tid])) || (ServiceCommit(mode, s, e) && e.tid == tid)
    ensures !(ServiceCommit(mode, s, e) && e.tid == tid && Succeeded(s.tasks[tid]))
    ensures !(e == Start && s.syncer.Down?)
  {
  }

  /** One step of the theorem below, for a request that has arrived. */
  lemma ReplyNext(mode: ZeroRows, es: seq<Event>, e: Event, tid: nat)
    requires var s := After(mode, es);
      && tid in Apply(mode, s, e).tasks && AsksForRefresh(Apply(mode, s, e).tasks[tid].op)
      && (tid in s.tasks ==> (Succeeded(s.tasks[tid]) <==> exists j: nat :: CommitBy(mode, es, j, tid)))
      && (tid !in s.tasks ==> s.syncer.Down? || forall j: nat :: !CommitBy(mode, es, j, tid))
      && (s.syncer.Down? ==> s.tasks == map[])
    ensures Succeeded(After(mode, es + [e]).tasks[tid]) <==> exists j: nat :: CommitBy(mode, es + [e], j, tid)
  {
    var s := After(mode, es);
    AfterNext(mode, es, e);
    SucceedStep(mode, s, e, tid);
    forall j: nat { CommitByNext(mode, es, e, j, tid); }
    if tid in s.tasks && Succeeded(s.tasks[tid]) {
      var j: nat :| CommitBy(mode, es, j, tid);
      assert j < |es|;
      assert CommitBy(mode, es + [e], j, tid);
    } else if ServiceCommit(mode, s, e) && e.tid == tid {
      assert CommitBy(mode, es + [e], |es|, tid);
    }
  }

  lemma ArrivalStep(mode: ZeroRows, s: State, e: Event, tid: nat)
    requires tid !in Apply(mode, s, e).tasks
    ensures Apply(mode, s, e).syncer.Down? || (e == Start && s.syncer.Down?) || (tid !in s.tasks && !s.syncer.Down?)
    ensures !(ServiceCommit(mode, s, e) && e.tid == tid)
    ensures Apply(mode, s, e).syncer.Down? && s.tasks == map[] ==> Apply(mode, s, e).tasks == map[]
  {
  }

  lemma {:induction false} DownHasNoTasks(mode: ZeroRows, es: seq<Event>)
    ensures After(mode, es).syncer.Down? ==> After(mode, es).tasks == map[]
  {
    if es != [] {
      DownHasNoTasks(mode, es[..|es| - 1]);
    }
  }

  /** In every run, a request for one of the five writing operations has succeeded, or is about to say
      so, exactly when it has committed; a request unknown to the process has not. */
  lemma {:induction false} SuccessIffCommitted(mode: ZeroRows, es: seq<Event>, tid: nat)
    ensures var s := After(mode, es);
            tid in s.tasks && AsksForRefresh(s.tasks[tid].op) ==>
              (Succeeded(s.tasks[tid]) <==> exists j: nat :: CommitBy(mode, es, j, tid))
    ensures var s := After(mode, es);
            tid !in s.tasks && !s.syncer.Down? ==> forall j: nat :: !CommitBy(mode, es, j, tid)
  {
    if es != [] {
      var before, e := es[..|es| - 1], es[|es| - 1];
      var s := After(mode, before);
      assert before + [e] == es;
      AfterNext(mode, before, e);
      SuccessIffCommitted(mode, before, tid);
      DownHasNoTasks(mode, before);
      if tid in Apply(mode, s, e).tasks {
        if AsksForRefresh(Apply(mode, s, e).tasks[tid].op) {
          SucceedStep(mode, s, e, tid);
          ReplyNext(mode, before, e, tid);
        }
      } else {
        ArrivalStep(mode, s, e, tid);
        forall j: nat { CommitByNext(mode, before, e, j, tid); }
        if e == Start && s.syncer.Down? {
          BootNext(mode, before, e);
        }
      }
    }
  }

  /** No request commits twice. */
  lemma {:induction false} CommitsOnce(mode: ZeroRows, es: seq<Event>, tid: nat, i: nat, j: nat)
    requires CommitBy(mode, es, i, tid) && CommitBy(mode, es, j, tid) && !After(mode, es).syncer.Down?
    ensures i == j
  {
    var before, e := es[..|es| - 1], es[|es| - 1];
    var s := After(mode, before);
    assert before + [e] == es;
    CommitByNext(mode, before, e, i, tid);
    CommitByNext(mode, before, e, j, tid);
    AfterNext(mode, before, e);
    if s.syncer.Down? {
      DownHasNoTasks(mode, before);
    } else if i == |before| || j == |before| {
      SuccessIffCommitted(mode, before, tid);
    } else {
      CommitsOnce(mode, before, tid, i, j);
    }
  }
}
