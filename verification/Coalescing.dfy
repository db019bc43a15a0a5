/** How many refreshes the flag causes: exactly one for each check that found it set, however many
    writes there are and whatever the scheduled ticks do. */
module Coalescing {
  import opened Schema
  import opened Protocol

  /** Steps of a run that are counted. FlagRaised is a flag access that finds the flag down; CheckFoundFlag
      a check tick that starts a round; FlagRefresh an attempt of such a round, failed or not. */
  datatype Kind =
    | Scheduling
    | FlagSet
    | FlagRaised
    | FlagLost
    | CheckTicked
    | CheckFoundFlag
    | FlagRefresh
    | RoundLost
    | RoundDone

  /** The process dies in this step: a crash, or the last attempt of a start-up or scheduled refresh. */
  predicate EndsProcess(s: State, e: Event) {
    e == Crash || (e == Refresh(false) && !s.syncer.Down? && RefreshStep(s, false).syncer.Down?)
  }

  predicate Is(kind: Kind, s: State, e: Event) {
    match kind
    case Scheduling => e.ScheduledTick?
    case FlagSet => SetsFlag(s, e)
    case FlagRaised => SetsFlag(s, e) && !s.flag
    case FlagLost => EndsProcess(s, e) && s.flag
    case CheckTicked => e.CheckTick?
    case CheckFoundFlag => e.CheckTick? && s.syncer.Idle? && s.flag
    case FlagRefresh => e.Refresh? && s.syncer.MustRefresh?
    case RoundLost => e.Crash? && s.syncer.MustRefresh?
    case RoundDone => e.ClearFlag? && s.syncer.MustClear?
  }

  function Count(mode: ZeroRows, es: seq<Event>, kind: Kind): nat {
    if es == [] then 0
    else
      Count(mode, es[..|es| - 1], kind) + if Is(kind, After(mode, es[..|es| - 1]), es[|es| - 1]) then 1 else 0
  }

  lemma CountNext(mode: ZeroRows, es: seq<Event>, e: Event, kind: Kind)
    ensures Count(mode, es + [e], kind) == Count(mode, es, kind) + if Is(kind, After(mode, es), e) then 1 else 0
  {
    assert (es + [e])[..|es + [e]| - 1] == es;
  }

  function One(condition: bool): nat { if condition then 1 else 0 }

  /** A round under way keeps the flag set, and a flag needs a process. */
  predicate FlagHeld(s: State) {
    (s.syncer.MustRefresh? || s.syncer.MustClear? ==> s.flag) && (s.syncer.Down? ==> !s.flag && s.tasks == map[])
  }

  /** In one step the flag goes up and down, and a round comes and goes, only as counted. */
  lemma FlagStep(mode: ZeroRows, s: State, e: Event)
    requires FlagHeld(s)
    ensures FlagHeld(Apply(mode, s, e))
    ensures var s' := Apply(mode, s, e);
      && One(s.flag) + One(Is(FlagRaised, s, e)) == One(s'.flag) + One(Is(RoundDone, s, e)) + One(Is(FlagLost, s, e))
      && One(s.syncer.MustRefresh?) + One(Is(CheckFoundFlag, s, e))
         == One(s'.syncer.MustRefresh?) + One(Is(FlagRefresh, s, e)) + One(Is(RoundLost, s, e))
      && (Is(FlagRaised, s, e) ==> Is(FlagSet, s, e))
      && (Is(CheckFoundFlag, s, e) ==> Is(CheckTicked, s, e))
  {
  }

  /** Coalescing, exactly, in every run. The flag goes up as often as it has been cleared after a round or
      lost with a process, give or take the one that is up now; and a check that found it set has led to
      one flag-driven refresh, unless a crash came first or the refresh is the next step. So writes that
      find the flag up, and check ticks that find it down, cause no refresh. */
  lemma {:induction false} RefreshesCoalesce(mode: ZeroRows, es: seq<Event>)
    ensures FlagHeld(After(mode, es))
    ensures Count(mode, es, RoundDone) + Count(mode, es, FlagLost) + One(After(mode, es).flag)
         == Count(mode, es, FlagRaised) <= Count(mode, es, FlagSet)
    ensures Count(mode, es, FlagRefresh) + Count(mode, es, RoundLost) + One(After(mode, es).syncer.MustRefresh?)
         == Count(mode, es, CheckFoundFlag) <= Count(mode, es, CheckTicked)
  {
    if es != [] {
      RefreshesCoalesce(mode, es[..|es| - 1]);
      FlagStep(mode, After(mode, es[..|es| - 1]), es[|es| - 1]);
    }
  }

  // The promise of one refresh per scheduled tick

  /** No step of the stretch from `n` on is of this kind. */
  ghost predicate NoneSince(mode: ZeroRows, es: seq<Event>, n: nat, kind: Kind) {
    forall k :: n <= k < |es| ==> !Is(kind, After(mode, es[..k]), es[k])
  }

  lemma NoneSinceNext(mode: ZeroRows, es: seq<Event>, e: Event, n: nat, kind: Kind)
    requires n <= |es|
    ensures NoneSince(mode, es + [e], n, kind) <==> NoneSince(mode, es, n, kind) && !Is(kind, After(mode, es), e)
  {
    var longer := es + [e];
    assert longer[..|es|] == es && longer[|es|] == e;
    forall k | n <= k < |es|
      ensures longer[..k] == es[..k] && longer[k] == es[k]
    {
    }
    if NoneSince(mode, longer, n, kind) {
      assert !Is(kind, After(mode, longer[..|es|]), longer[|es|]);
      forall k | n <= k < |es|
        ensures !Is(kind, After(mode, es[..k]), es[k])
      {
        assert !Is(kind, After(mode, longer[..k]), longer[k]);
      }
    }
  }

  ghost predicate Since(mode: ZeroRows, es: seq<Event>, n: nat, kind: Kind)
    requires n <= |es|
  {
    && Count(mode, es, kind) >= Count(mode, es[..n], kind)
    && (Count(mode, es, kind) == Count(mode, es[..n], kind) <==> NoneSince(mode, es, n, kind))
  }

  lemma SinceNext(mode: ZeroRows, es: seq<Event>, e: Event, n: nat, kind: Kind)
    requires n <= |es| && Since(mode, es, n, kind)
    ensures Since(mode, es + [e], n, kind)
  {
    CountNext(mode, es, e, kind);
    NoneSinceNext(mode, es, e, n, kind);
    assert (es + [e])[..n] == es[..n];
  }

  lemma SinceHere(mode: ZeroRows, es: seq<Event>, kind: Kind)
    ensures Since(mode, es, |es|, kind)
  {
    assert es[..|es|] == es;
  }

  lemma {:induction false} CountSince(mode: ZeroRows, es: seq<Event>, n: nat, kind: Kind)
    requires n <= |es|
    ensures Since(mode, es, n, kind)
    decreases |es|
  {
    if n == |es| {
      SinceHere(mode, es, kind);
    } else {
      var before, e := es[..|es| - 1], es[|es| - 1];
      assert es == before + [e];
      CountSince(mode, before, n, kind);
      SinceNext(mode, before, e, n, kind);
    }
  }

  /** A stretch of a run that starts and ends outside a round and loses none to a crash has exactly as many
      flag-driven refreshes as checks that found the flag set. Scheduled ticks have no part in it: a stretch
      without any, which by the promise should have no refresh, has none exactly when no check in it found
      the flag set, and at most one exactly when at most one check did. */
  lemma RefreshesPerStretch(mode: ZeroRows, es: seq<Event>, n: nat)
    requires n <= |es| && NoneSince(mode, es, n, RoundLost)
    requires !After(mode, es[..n]).syncer.MustRefresh? && !After(mode, es).syncer.MustRefresh?
    ensures Count(mode, es, FlagRefresh) - Count(mode, es[..n], FlagRefresh)
         == Count(mode, es, CheckFoundFlag) - Count(mode, es[..n], CheckFoundFlag)
    ensures NoneSince(mode, es, n, FlagRefresh) <==> NoneSince(mode, es, n, CheckFoundFlag)
  {
    RefreshesCoalesce(mode, es);
    RefreshesCoalesce(mode, es[..n]);
    CountSince(mode, es, n, RoundLost);
    CountSince(mode, es, n, FlagRefresh);
    CountSince(mode, es, n, CheckFoundFlag);
  }

  /** Scheduled ticks, flag sets and flag-driven refreshes so far. */
  function Tally(es: seq<Event>): (nat, nat, nat) {
    (Count(Silent, es, Scheduling), Count(Silent, es, FlagSet), Count(Silent, es, FlagRefresh))
  }

  lemma PushCounted(es: seq<Event>, s: State, e: Event) returns (es': seq<Event>, s': State)
    requires After(Silent, es) == s
    ensures After(Silent, es') == s' == Apply(Silent, s, e)
    ensures var (scheduled, sets, refreshes) := Tally(es);
      Tally(es') == (scheduled + One(Is(Scheduling, s, e)), sets + One(Is(FlagSet, s, e)),
                     refreshes + One(Is(FlagRefresh, s, e)))
  {
    CountNext(Silent, es, e, Scheduling);
    CountNext(Silent, es, e, FlagSet);
    CountNext(Silent, es, e, FlagRefresh);
    es', s' := Push(Silent, es, s, e);
  }

  lemma Started() returns (es: seq<Event>, s: State)
    ensures After(Silent, es) == s == MIGRATED.(syncer := Idle) && Tally(es) == (0, 0, 0)
  {
    es, s := PushCounted([], MIGRATED, Start);
    es, s := PushCounted(es, s, Refresh(true));
  }

  /** One write, committed and flagged. */
  lemma OneWrite() returns (es: seq<Event>, s: State)
    ensures After(Silent, es) == s && s.syncer.Idle? && s.flag && Tally(es) == (0, 1, 0)
  {
    var op := CreateService("a", "");
    es, s := Started();
    es, s := PushCounted(es, s, Begin(0, op));
    es, s := PushCounted(es, s, Client(0, NoFault));
    assert s.tasks == map[0 := Task(op, Write)];
    es, s := PushCounted(es, s, Client(0, NoFault));
    assert s.tasks == map[0 := Task(op, SetFlag)];
    es, s := PushCounted(es, s, Client(0, NoFault));
  }

  /** One write, no scheduled tick, and two flag-driven refreshes: the first fails, and the next check
      finds the flag still set. */
  lemma UnscheduledRefreshesExample() returns (es: seq<Event>)
    ensures Tally(es) == (0, 1, 2)
  {
    var s;
    es, s := OneWrite();
    es, s := PushCounted(es, s, CheckTick);
    es, s := PushCounted(es, s, Refresh(false));
    es, s := PushCounted(es, s, CheckTick);
    es, s := PushCounted(es, s, Refresh(true));
  }
}
