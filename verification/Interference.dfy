/** What others do while a request waits for the database. */
module Interference {
  import opened Schema
  import opened Protocol
  import opened Requests

  /** What others may do while request `me` waits: anything but act for it, and the process stays up. */
  ghost predicate ByOthers(mode: ZeroRows, before: seq<Event>, after: seq<Event>, me: nat) {
    && before <= after
    && forall k :: |before| <= k < |after| ==>
         && (after[k].Client? || after[k].Begin? ==> after[k].tid != me)
         && !After(mode, after[..k + 1]).syncer.Down?
  }

  lemma OtherStep(mode: ZeroRows, s: State, e: Event, me: nat)
    requires me in s.tasks && !s.syncer.Down? && !Apply(mode, s, e).syncer.Down?
    requires e.Client? || e.Begin? ==> e.tid != me
    ensures me in Apply(mode, s, e).tasks && Apply(mode, s, e).tasks[me] == s.tasks[me]
  {
  }

  lemma {:induction false} OthersKeepTask(mode: ZeroRows, before: seq<Event>, after: seq<Event>, me: nat)
    requires ByOthers(mode, before, after, me) && !After(mode, before).syncer.Down?
    requires me in After(mode, before).tasks
    ensures me in After(mode, after).tasks && After(mode, after).tasks[me] == After(mode, before).tasks[me]
    ensures !After(mode, after).syncer.Down?
  {
    if |before| == |after| {
      assert before == after;
    } else {
      var last := |after| - 1;
      var shorter := after[..last];
      assert before <= shorter;
      forall k | |before| <= k < last
        ensures shorter[k] == after[k] && shorter[..k + 1] == after[..k + 1]
      {
      }
      OthersKeepTask(mode, before, shorter, me);
      assert after[..last + 1] == after == shorter + [after[last]];
      AfterNext(mode, shorter, after[last]);
      OtherStep(mode, After(mode, shorter), after[last], me);
    }
  }

  /** Meanwhile the request itself does nothing. */
  lemma {:induction false} FollowsMeanwhile(mode: ZeroRows, since: seq<Event>, before: seq<Event>, after: seq<Event>,
                                            me: nat, op: Op, faults: Faults, pc: Pc)
    requires Follows(since, before, me, op, faults, pc) && ByOthers(mode, before, after, me)
    ensures Follows(since, after, me, op, faults, pc)
  {
    if before != after {
      var shorter, e := after[..|after| - 1], after[|after| - 1];
      assert after == shorter + [e];
      forall k | |before| <= k < |shorter|
        ensures shorter[k] == after[k] && shorter[..k + 1] == after[..k + 1]
      {
      }
      FollowsMeanwhile(mode, since, before, shorter, me, op, faults, pc);
      DidNext(since, shorter, me, Own(shorter[|since|..], me), e);
    }
  }
}
