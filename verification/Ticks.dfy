/** What reaches the select loop of the syncer, and the steps it takes in answer. */
module Ticks {
  import opened Schema
  import opened Protocol
  import opened Freshness

  /** Which of the attempts at a refresh fail, should it come to them. */
  type Attempts = fails: seq<bool> | |fails| == MAX_ATTEMPTS witness [false, false, false]

  /** A tick, and which of the refreshes it may lead to fail. */
  datatype Tick = CtxDone | ScheduledSync(fails: Attempts) | RefreshRequestCheck(fail: bool)

  predicate AllFail(fails: Attempts) { fails[0] && fails[1] && fails[2] }

  /** The refreshes of a start-up or scheduled sync: up to the first that succeeds, three at most. */
  function AttemptSteps(fails: Attempts): seq<Event> {
    if !fails[0] then [Refresh(true)]
    else if !fails[1] then [Refresh(false), Refresh(true)]
    else [Refresh(false), Refresh(false), Refresh(!fails[2])]
  }

  /** A round: the refresh, and the clear if it succeeds. */
  function RoundSteps(fail: bool): seq<Event> {
    if fail then [Refresh(false)] else [Refresh(true), ClearFlag]
  }

  /** One turn of the loop; `found` is the flag as a check reads it. */
  function TurnSteps(tick: Tick, found: bool): seq<Event> {
    match tick
    case CtxDone => [ContextDone]
    case ScheduledSync(fails) => [ScheduledTick] + AttemptSteps(fails)
    case RefreshRequestCheck(fail) =>
      [CheckTick] + if found then RoundSteps(fail) else []
  }

  /** The turns for the first ticks, as many as there are readings of the flag. */
  function Turns(ticks: seq<Tick>, found: seq<bool>): seq<Event>
    requires |found| <= |ticks|
  {
    if found == [] then []
    else Turns(ticks, found[..|found| - 1]) + TurnSteps(ticks[|found| - 1], found[|found| - 1])
  }

  lemma TurnsNext(ticks: seq<Tick>, found: seq<bool>, flag: bool)
    requires |found| < |ticks|
    ensures Turns(ticks, found + [flag]) == Turns(ticks, found) + TurnSteps(ticks[|found|], flag)
  {
    assert (found + [flag])[..|found|] == found;
  }

  /** Three failures in a row end the process. */
  predicate Fatal(tick: Tick) { tick.ScheduledSync? && AllFail(tick.fails) }

  /** The loop takes `taken` of the ticks: all, or up to the first that ends it. */
  ghost predicate Takes(ticks: seq<Tick>, taken: nat) {
    && taken <= |ticks|
    && (forall k :: 0 <= k < taken - 1 ==> !ticks[k].CtxDone? && !Fatal(ticks[k]))
    && (taken < |ticks| ==> taken > 0 && (ticks[taken - 1].CtxDone? || Fatal(ticks[taken - 1])))
  }

  lemma StopsIfDone(ticks: seq<Tick>, taken: nat)
    requires Takes(ticks, taken) && !(taken > 0 && Fatal(ticks[taken - 1]))
    ensures CtxDone in ticks <==> taken > 0 && ticks[taken - 1].CtxDone?
  {
  }

  // The syncer's own steps

  predicate OfClient(e: Event) { e.Client? || e.Begin? }

  function NotOfClients(es: seq<Event>): seq<Event> {
    if es == [] then []
    else NotOfClients(es[..|es| - 1]) + if OfClient(es[|es| - 1]) then [] else [es[|es| - 1]]
  }

  lemma {:induction false} NotOfClientsAppend(a: seq<Event>, b: seq<Event>)
    ensures NotOfClients(a + b) == NotOfClients(a) + NotOfClients(b)
  {
    if b == [] {
      assert a + b == a;
    } else {
      var shorter, e := b[..|b| - 1], b[|b| - 1];
      NotOfClientsAppend(a, shorter);
      assert (a + b)[..|a + b| - 1] == a + shorter;
    }
  }

  lemma {:induction false} NotOfClientsMember(es: seq<Event>, k: nat)
    requires k < |es| && !OfClient(es[k])
    ensures es[k] in NotOfClients(es)
  {
    if k < |es| - 1 {
      NotOfClientsMember(es[..|es| - 1], k);
    }
  }

  /** Between `before` and `after` the syncer has taken these steps; all others were clients'. */
  ghost predicate Synced(before: seq<Event>, after: seq<Event>, steps: seq<Event>) {
    before <= after && NotOfClients(after) == NotOfClients(before) + steps
  }

  lemma SyncedMore(a: seq<Event>, b: seq<Event>, c: seq<Event>, first: seq<Event>, more: seq<Event>)
    requires Synced(a, b, first) && Synced(b, c, more)
    ensures Synced(a, c, first + more)
  {
    assert NotOfClients(a) + first + more == NotOfClients(a) + (first + more);
  }

  lemma SyncedNone(es: seq<Event>)
    ensures Synced(es, es, [])
  {
  }

  lemma SyncedOne(es: seq<Event>, e: Event)
    requires !OfClient(e)
    ensures Synced(es, es + [e], [e])
  {
    assert (es + [e])[..|es + [e]| - 1] == es;
  }

  lemma SyncedAfter(a: seq<Event>, b: seq<Event>, c: seq<Event>, start: seq<Event>, steps: seq<Event>, more: seq<Event>)
    requires Synced(a, b, start + steps) && Synced(b, c, more)
    ensures Synced(a, c, start + (steps + more))
  {
    SyncedMore(a, b, c, start + steps, more);
    assert start + (steps + more) == start + steps + more;
  }

  lemma SyncedMember(before: seq<Event>, after: seq<Event>, steps: seq<Event>, k: nat)
    requires Synced(before, after, steps) && |before| <= k < |after| && !OfClient(after[k])
    ensures after[k] in steps
  {
    assert after == before + after[|before|..];
    NotOfClientsAppend(before, after[|before|..]);
    var added := NotOfClients(after[|before|..]);
    assert added == (NotOfClients(before) + added)[|NotOfClients(before)|..];
    assert steps == (NotOfClients(before) + steps)[|NotOfClients(before)|..];
    NotOfClientsMember(after[|before|..], k - |before|);
  }

  /** After the start-up sync and the first `taken` ticks, of which `found` says what flag the checks read, the
      syncer has taken the steps these call for, and no other. */
  ghost predicate Looped(before: seq<Event>, after: seq<Event>, startUp: Attempts, ticks: seq<Tick>, taken: nat,
                         found: seq<bool>) {
    && |found| == taken <= |ticks|
    && Synced(before, after, AttemptSteps(startUp) + Turns(ticks, found))
  }

  lemma LoopedOnce(since: seq<Event>, before: seq<Event>, after: seq<Event>, startUp: Attempts, ticks: seq<Tick>,
                   taken: nat, found: seq<bool>, flag: bool)
    requires taken < |ticks| && Looped(since, before, startUp, ticks, taken, found)
    requires Synced(before, after, TurnSteps(ticks[taken], flag))
    ensures Looped(since, after, startUp, ticks, taken + 1, found + [flag])
  {
    TurnsNext(ticks, found, flag);
    SyncedAfter(since, before, after, AttemptSteps(startUp), Turns(ticks, found), TurnSteps(ticks[taken], flag));
  }

  /** Where an attempt leaves the syncer. */
  function AfterAttempt(at: Syncer, ok: bool): Syncer
    requires at.Booting? || at.Scheduled?
  {
    if ok then Idle
    else if at.failed + 1 == MAX_ATTEMPTS then Down
    else if at.Booting? then Booting(at.failed + 1)
    else Scheduled(at.failed + 1)
  }

  lemma AttemptMoves(s: State, ok: bool)
    requires (s.syncer.Booting? || s.syncer.Scheduled?) && s.syncer.failed < MAX_ATTEMPTS
    ensures RefreshStep(s, ok).syncer == AfterAttempt(s.syncer, ok)
    ensures !RefreshStep(s, ok).syncer.Down? ==> RefreshStep(s, ok).flag == s.flag
  {
  }

  // Clients meanwhile

  /** What clients may do while the syncer waits. */
  ghost predicate ByClients(before: seq<Event>, after: seq<Event>) {
    before <= after && forall k :: |before| <= k < |after| ==> OfClient(after[k])
  }

  lemma ClientStepKeepsSyncer(mode: ZeroRows, es: seq<Event>, e: Event)
    requires OfClient(e)
    ensures After(mode, es + [e]).syncer == After(mode, es).syncer
    ensures After(mode, es).flag ==> After(mode, es + [e]).flag
    ensures ViewPoint(mode, es + [e]) == ViewPoint(mode, es)
  {
    AfterNext(mode, es, e);
    ViewPointNext(mode, es, e);
  }

  lemma {:induction false} ClientsKeepSyncer(mode: ZeroRows, before: seq<Event>, after: seq<Event>)
    requires ByClients(before, after)
    ensures After(mode, after).syncer == After(mode, before).syncer
    ensures After(mode, before).flag ==> After(mode, after).flag
    ensures ViewPoint(mode, after) == ViewPoint(mode, before)
    ensures Synced(before, after, [])
  {
    if before != after {
      var last := |after| - 1;
      ClientsKeepSyncer(mode, before, after[..last]);
      assert after == after[..last] + [after[last]];
      ClientStepKeepsSyncer(mode, after[..last], after[last]);
    }
  }

  /** Every scheduled tick from `start` on has been followed by a successful refresh. */
  ghost predicate SyncsDone(mode: ZeroRows, es: seq<Event>, start: nat) {
    forall k :: start <= k < |es| && es[k] == ScheduledTick ==> k < ViewPoint(mode, es)
  }

  lemma SyncsStayDone(mode: ZeroRows, before: seq<Event>, after: seq<Event>, start: nat, tick: Tick, found: bool)
    requires SyncsDone(mode, before, start) && Synced(before, after, TurnSteps(tick, found))
    requires tick.ScheduledSync? ==> ViewPoint(mode, after) == |after|
    ensures SyncsDone(mode, after, start) && ViewPoint(mode, after) >= ViewPoint(mode, before)
  {
    assert after[..|before|] == before;
    ViewPointNeverDecreases(mode, after, |before|);
    forall k | start <= k < |after| && after[k] == ScheduledTick
      ensures k < ViewPoint(mode, after)
    {
      if k >= |before| {
        SyncedMember(before, after, TurnSteps(tick, found), k);
      } else {
        assert before[k] == after[k];
      }
    }
  }

  /** The loop starts out with the steps of the start-up sync, none of them a scheduled tick. */
  lemma LoopStarts(mode: ZeroRows, before: seq<Event>, after: seq<Event>, startUp: Attempts, ticks: seq<Tick>)
    requires Synced(before, after, AttemptSteps(startUp))
    ensures Looped(before, after, startUp, ticks, 0, []) && SyncsDone(mode, after, |before|)
  {
    assert AttemptSteps(startUp) + Turns(ticks, []) == AttemptSteps(startUp);
    forall k | |before| <= k < |after| && after[k] == ScheduledTick
      ensures false
    {
      SyncedMember(before, after, AttemptSteps(startUp), k);
    }
  }

  lemma TickKeeps(mode: ZeroRows, s: State, e: Event)
    requires e == ContextDone || e == ScheduledTick || e == CheckTick
    ensures var s' := Apply(mode, s, e);
            s'.db == s.db && s'.flag == s.flag && (s'.syncer.Down? <==> s.syncer.Down?)
  {
  }
}
