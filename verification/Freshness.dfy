/** How far the name-sorted view can lag behind the service table, and what accounts for the lag. */
module Freshness {
  import opened Rows
  import opened Schema
  import opened SortedView
  import opened Protocol

  /** Length of the run up to and including the last successful refresh. */
  function ViewPoint(mode: ZeroRows, es: seq<Event>): (n: nat)
    ensures n <= |es|
  {
    if es == [] then 0
    else if RefreshSucceeds(After(mode, es[..|es| - 1]), es[|es| - 1]) then |es|
    else ViewPoint(mode, es[..|es| - 1])
  }

  /** Length of the run up to and including the last start of the process. */
  function Boot(mode: ZeroRows, es: seq<Event>): (n: nat)
    ensures n <= |es|
  {
    if es == [] then 0
    else if es[|es| - 1] == Start && After(mode, es[..|es| - 1]).syncer.Down? then |es|
    else Boot(mode, es[..|es| - 1])
  }

  ghost predicate CommitAt(mode: ZeroRows, es: seq<Event>, j: nat) {
    j < |es| && ServiceCommit(mode, After(mode, es[..j]), es[j])
  }

  predicate Fresh(s: State) { s.db.view == SortByName(s.db.services) }

  // The view is one past state of the table

  /** The view is the sorted image of the service table as of the last successful refresh: one single
      past state, never a mixture of two. */
  lemma {:induction false} ViewIsPastImage(mode: ZeroRows, es: seq<Event>)
    ensures After(mode, es).db.view == SortByName(After(mode, es[..ViewPoint(mode, es)]).db.services)
  {
    if es != [] {
      var before, e := es[..|es| - 1], es[|es| - 1];
      var s := After(mode, before);
      ViewIsPastImage(mode, before);
      StepFrame(mode, s, e);
      if RefreshSucceeds(s, e) {
        assert es[..|es|] == es;
      } else {
        assert es[..ViewPoint(mode, es)] == before[..ViewPoint(mode, es)];
      }
    }
  }

  /** That past state never moves back, across failures, crashes and restarts. */
  lemma {:induction false} ViewPointNeverDecreases(mode: ZeroRows, es: seq<Event>, n: nat)
    requires n <= |es|
    ensures ViewPoint(mode, es[..n]) <= ViewPoint(mode, es)
  {
    if n == |es| {
      assert es[..n] == es;
    } else {
      assert es[..|es| - 1][..n] == es[..n];
      ViewPointNeverDecreases(mode, es[..|es| - 1], n);
    }
  }

  // Accounting for staleness

  /** A flag-driven round: the syncer refreshes at `r` and clears the flag at `c`, and is between the
      two all the while. */
  ghost predicate FlagRound(mode: ZeroRows, es: seq<Event>, r: nat, c: nat) {
    && r < c < |es|
    && es[r] == Refresh(true) && After(mode, es[..r]).syncer.MustRefresh?
    && es[c] == ClearFlag
    && forall k :: r < k <= c ==> After(mode, es[..k]).syncer.MustClear?
  }

  /** The commit fell between a syncer's refresh and its clear. */
  ghost predicate Swallowed(mode: ZeroRows, es: seq<Event>, j: nat) {
    exists r: nat, c: nat :: r < j < c && FlagRound(mode, es, r, c)
  }

  /** The request that committed at `j` has still to set the flag. */
  ghost predicate Due(mode: ZeroRows, es: seq<Event>, j: nat) {
    && j < |es| && es[j].Client? && Boot(mode, es) <= j
    && es[j].tid in After(mode, es).tasks && After(mode, es).tasks[es[j].tid].pc.SetFlag?
  }

  /** What stands for a commit the view does not show: no process; a start-up refresh still to come,
      for commits of an earlier process; a flag about to be set; a flag set; or the window. */
  ghost predicate Accounted(mode: ZeroRows, es: seq<Event>, j: nat) {
    var s := After(mode, es);
    || s.syncer.Down?
    || (s.syncer.Booting? && j < Boot(mode, es))
    || Due(mode, es, j)
    || s.flag
    || Swallowed(mode, es, j)
  }

  lemma MustClearFrom(mode: ZeroRows, s: State, e: Event)
    requires Apply(mode, s, e).syncer.MustClear?
    ensures if RefreshSucceeds(s, e) then e == Refresh(true) && s.syncer.MustRefresh? else s.syncer.MustClear?
  {
  }

  /** A syncer about to clear has been so since its own refresh, which is the last one. */
  lemma {:induction false} OpenRound(mode: ZeroRows, es: seq<Event>)
    requires After(mode, es).syncer.MustClear?
    ensures var r := ViewPoint(mode, es) - 1;
      && 0 <= r < |es|
      && es[r] == Refresh(true) && After(mode, es[..r]).syncer.MustRefresh?
      && forall k :: r < k <= |es| ==> After(mode, es[..k]).syncer.MustClear?
  {
    var before, e := es[..|es| - 1], es[|es| - 1];
    assert es[..|es|] == es;
    MustClearFrom(mode, After(mode, before), e);
    if !RefreshSucceeds(After(mode, before), e) {
      OpenRound(mode, before);
      var r := ViewPoint(mode, es) - 1;
      assert es[..r] == before[..r];
      forall k | r < k <= |es|
        ensures After(mode, es[..k]).syncer.MustClear?
      {
        if k < |es| {
          assert es[..k] == before[..k];
        }
      }
    }
  }

  lemma SwallowedLater(mode: ZeroRows, es: seq<Event>, e: Event, j: nat)
    requires Swallowed(mode, es, j)
    ensures Swallowed(mode, es + [e], j)
  {
    var r: nat, c: nat :| r < j < c && FlagRound(mode, es, r, c);
    assert (es + [e])[..r] == es[..r];
    forall k | r < k <= c
      ensures After(mode, (es + [e])[..k]).syncer.MustClear?
    {
      assert (es + [e])[..k] == es[..k];
    }
    assert FlagRound(mode, es + [e], r, c);
  }

  lemma ClearSwallows(mode: ZeroRows, es: seq<Event>, j: nat)
    requires After(mode, es).syncer.MustClear? && ViewPoint(mode, es) <= j < |es|
    ensures Swallowed(mode, es + [ClearFlag], j)
  {
    OpenRound(mode, es);
    var r, c, longer := ViewPoint(mode, es) - 1, |es|, es + [ClearFlag];
    assert longer[..r] == es[..r];
    forall k | r < k <= c
      ensures After(mode, longer[..k]).syncer.MustClear?
    {
      assert longer[..k] == es[..k];
    }
    assert FlagRound(mode, longer, r, c);
  }

  lemma BootNext(mode: ZeroRows, es: seq<Event>, e: Event)
    ensures Boot(mode, es + [e])
         == if e == Start && After(mode, es).syncer.Down? then |es| + 1 else Boot(mode, es)
  {
    assert (es + [e])[..|es + [e]| - 1] == es;
  }

  lemma ViewPointNext(mode: ZeroRows, es: seq<Event>, e: Event)
    ensures ViewPoint(mode, es + [e])
         == if RefreshSucceeds(After(mode, es), e) then |es| + 1 else ViewPoint(mode, es)
  {
    assert (es + [e])[..|es + [e]| - 1] == es;
  }

  // What each of the reasons turns into in one step.

  lemma DownNext(mode: ZeroRows, es: seq<Event>, e: Event)
    requires After(mode, es).syncer.Down?
    ensures var s := After(mode, es + [e]).syncer; s.Down? || (s.Booting? && |es| < Boot(mode, es + [e]))
  {
    AfterNext(mode, es, e);
    BootNext(mode, es, e);
  }

  lemma BootingNext(mode: ZeroRows, es: seq<Event>, e: Event)
    requires After(mode, es).syncer.Booting? && !RefreshSucceeds(After(mode, es), e)
    ensures var s := After(mode, es + [e]).syncer; s.Down? || (s.Booting? && Boot(mode, es + [e]) == Boot(mode, es))
  {
    AfterNext(mode, es, e);
    BootNext(mode, es, e);
  }

  /** A request due to set the flag stays due until it does so or is lost with the process. */
  lemma DueStays(mode: ZeroRows, s: State, e: Event, tid: nat)
    requires tid in s.tasks && s.tasks[tid].pc.SetFlag? && !s.syncer.Down?
    ensures var s' := Apply(mode, s, e);
            s'.flag || s'.syncer.Down? || (tid in s'.tasks && s'.tasks[tid].pc.SetFlag?)
  {
  }

  lemma DueNext(mode: ZeroRows, es: seq<Event>, e: Event, j: nat)
    requires Due(mode, es, j) && !After(mode, es).syncer.Down?
    ensures var s := After(mode, es + [e]); Due(mode, es + [e], j) || s.flag || s.syncer.Down?
  {
    AfterNext(mode, es, e);
    BootNext(mode, es, e);
    assert (es + [e])[j] == es[j];
    DueStays(mode, After(mode, es), e, es[j].tid);
  }

  /** A raised flag goes down only in a clear or with the process. */
  lemma FlagNext(mode: ZeroRows, es: seq<Event>, e: Event)
    requires var s := After(mode, es); s.flag && !s.syncer.Down? && !(e == ClearFlag && s.syncer.MustClear?)
    ensures After(mode, es + [e]).flag || After(mode, es + [e]).syncer.Down?
  {
    AfterNext(mode, es, e);
  }

  /** No step other than a refresh takes away what accounts for a commit without putting something
      else in its place. */
  lemma AccountedNext(mode: ZeroRows, es: seq<Event>, e: Event, j: nat)
    requires j < |es| && ViewPoint(mode, es) <= j && !RefreshSucceeds(After(mode, es), e)
    requires Accounted(mode, es, j)
    ensures Accounted(mode, es + [e], j)
  {
    var s := After(mode, es);
    if Swallowed(mode, es, j) {
      SwallowedLater(mode, es, e, j);
    } else if s.syncer.Down? {
      DownNext(mode, es, e);
    } else if s.syncer.Booting? && j < Boot(mode, es) {
      BootingNext(mode, es, e);
    } else if Due(mode, es, j) {
      DueNext(mode, es, e, j);
    } else if e == ClearFlag && s.syncer.MustClear? {
      ClearSwallows(mode, es, j);
    } else {
      FlagNext(mode, es, e);
    }
  }

  /** Staleness is accounted for, in every interleaving of requests, syncer, failed refreshes, crashes
      and restarts: each service-table commit the view does not reflect has no process to show it to, or
      a start-up refresh due, or a request still to set the flag, or the flag set, or was swallowed
      between a refresh and its clear. */
  lemma {:induction false} StalenessAccounted(mode: ZeroRows, es: seq<Event>, j: nat)
    requires CommitAt(mode, es, j) && j >= ViewPoint(mode, es)
    ensures Accounted(mode, es, j)
  {
    var before, e := es[..|es| - 1], es[|es| - 1];
    assert before + [e] == es;
    AfterNext(mode, before, e);
    BootNext(mode, before, e);
    ViewPointNext(mode, before, e);
    assert es[..j] == before[..j];
    if j < |before| {
      StalenessAccounted(mode, before, j);
      AccountedNext(mode, before, e, j);
    } else {
      assert before[..j] == before;
      StepFrame(mode, After(mode, before), e);
    }
  }

  /** Once the start-up refresh has succeeded, the view reflects everything committed before the start. */
  lemma {:induction false} RestartCovered(mode: ZeroRows, es: seq<Event>)
    ensures var s := After(mode, es).syncer;
            !s.Down? && !s.Booting? ==> Boot(mode, es) <= ViewPoint(mode, es)
  {
    if es != [] {
      RestartCovered(mode, es[..|es| - 1]);
    }
  }

  lemma {:induction false} ViewPointIsRefresh(mode: ZeroRows, es: seq<Event>)
    requires ViewPoint(mode, es) > 0
    ensures var r := ViewPoint(mode, es) - 1; RefreshSucceeds(After(mode, es[..r]), es[r])
  {
    var before := es[..|es| - 1];
    if !RefreshSucceeds(After(mode, before), es[|es| - 1]) {
      ViewPointIsRefresh(mode, before);
      assert before[..ViewPoint(mode, es) - 1] == es[..ViewPoint(mode, es) - 1];
    }
  }

  lemma RoundIsRefresh(mode: ZeroRows, es: seq<Event>, r: nat, c: nat)
    requires FlagRound(mode, es, r, c)
    ensures r + 1 <= ViewPoint(mode, es)
  {
    assert es[..r + 1][..r] == es[..r];
    assert ViewPoint(mode, es[..r + 1]) == r + 1;
    ViewPointNeverDecreases(mode, es, r + 1);
  }

  /** So while a started process has its flag down and no request due to set it for this commit, the
      view lacks the commit exactly when it fell into the window of the round that refreshed last. */
  lemma OnlyTheWindowIsLost(mode: ZeroRows, es: seq<Event>, j: nat)
    requires CommitAt(mode, es, j) && !Due(mode, es, j)
    requires var s := After(mode, es); !s.flag && !s.syncer.Down? && !s.syncer.Booting?
    ensures j >= ViewPoint(mode, es)
       <==> exists r: nat, c: nat :: r < j < c && FlagRound(mode, es, r, c) && ViewPoint(mode, es) == r + 1
  {
    if j >= ViewPoint(mode, es) {
      StalenessAccounted(mode, es, j);
      RestartCovered(mode, es);
      var r: nat, c: nat :| r < j < c && FlagRound(mode, es, r, c);
      RoundIsRefresh(mode, es, r, c);
      ViewPointIsRefresh(mode, es);
      assert ViewPoint(mode, es) == r + 1;
    }
  }

  /** An undisturbed request for a new name commits, sets the flag and reports success. */
  lemma CreateUndisturbed(mode: ZeroRows, es: seq<Event>, s: State, tid: nat, name: string)
    returns (es': seq<Event>, s': State)
    requires After(mode, es) == s && !s.syncer.Down? && tid !in s.tasks
    requires Select(s.db.services, HasName(name)) == Select(s.db.services, LiveName(name)) == []
    ensures After(mode, es') == s'
    ensures s' == State(InsertService(s.db, name, "").db, true, s.syncer,
                        s.tasks[tid := Task(CreateService(name, ""), Finished(OK))])
  {
    var op := CreateService(name, "");
    es', s' := Push(mode, es, s, Begin(tid, op));
    es', s' := Push(mode, es', s', Client(tid, NoFault));
    assert s'.tasks == s.tasks[tid := Task(op, Write)];
    es', s' := Push(mode, es', s', Client(tid, NoFault));
    assert s'.tasks == s.tasks[tid := Task(op, SetFlag)];
    es', s' := Push(mode, es', s', Client(tid, NoFault));
    assert s'.tasks == s.tasks[tid := Task(op, Finished(OK))];
  }

  lemma StartedWithOneService() returns (es: seq<Event>, s: State)
    ensures After(Silent, es) == s && s.syncer.MustClear? && s.flag
    ensures s.tasks == map[0 := Task(CreateService("a", ""), Finished(OK))]
    ensures s.db.services == s.db.view == [Service(1, "a", "", 0, false)]
  {
    es, s := [], MIGRATED;
    es, s := Push(Silent, es, s, Start);
    es, s := Push(Silent, es, s, Refresh(true));
    es, s := CreateUndisturbed(Silent, es, s, 0, "a");
    assert s.db.services == [Service(1, "a", "", 0, false)];
    assert SortByName(s.db.services) == Insert(s.db.services[0], []);
    es, s := Push(Silent, es, s, CheckTick);
    es, s := Push(Silent, es, s, Refresh(true));
  }

  /** That "stale implies flag set, or about to be" does not hold: here a request commits and sets the
      flag between the syncer's refresh and its clear, and when all requests have finished the flag is
      down, the syncer idle and the view without the new service. */
  lemma SwallowedFlagExample() returns (es: seq<Event>)
    ensures var s := After(Silent, es);
      && !s.flag && s.syncer.Idle? && !Fresh(s)
      && forall tid :: tid in s.tasks ==> s.tasks[tid].pc == Finished(OK)
  {
    var s;
    es, s := StartedWithOneService();
    es, s := CreateUndisturbed(Silent, es, s, 1, "b");
    es, s := Push(Silent, es, s, ClearFlag);
    SortByNameSorts(s.db.services);
    assert |SortByName(s.db.services)| == |multiset(SortByName(s.db.services))| == |multiset(s.db.services)| == 2;
  }

  // Convergence

  lemma {:induction false} UnchangedWithoutCommit(mode: ZeroRows, es: seq<Event>, n: nat)
    requires n <= |es| && forall j :: n <= j < |es| ==> !CommitAt(mode, es, j)
    ensures After(mode, es).db.services == After(mode, es[..n]).db.services
  {
    if n == |es| {
      assert es[..n] == es;
    } else {
      var before := es[..|es| - 1];
      forall j | n <= j < |before|
        ensures !CommitAt(mode, before, j)
      {
        assert before[..j] == es[..j];
        assert !CommitAt(mode, es, j);
      }
      UnchangedWithoutCommit(mode, before, n);
      assert before[..n] == es[..n];
      assert !CommitAt(mode, es, |es| - 1);
      StepFrame(mode, After(mode, before), es[|es| - 1]);
    }
  }

  /** The view equals the sorted table whenever no commit followed the last successful refresh; so a
      refresh of any kind makes it fresh and it stays fresh until the next commit. */
  lemma FreshUntilNextCommit(mode: ZeroRows, es: seq<Event>)
    requires forall j :: ViewPoint(mode, es) <= j < |es| ==> !CommitAt(mode, es, j)
    ensures Fresh(After(mode, es))
  {
    ViewIsPastImage(mode, es);
    UnchangedWithoutCommit(mode, es, ViewPoint(mode, es));
  }

  lemma RefreshMakesFresh(mode: ZeroRows, es: seq<Event>, e: Event)
    requires RefreshSucceeds(After(mode, es), e)
    ensures Fresh(After(mode, es + [e])) && ViewPoint(mode, es + [e]) == |es + [e]|
  {
    ViewPointNext(mode, es, e);
    FreshUntilNextCommit(mode, es + [e]);
  }

  lemma RoundEnds(mode: ZeroRows, es: seq<Event>)
    requires After(mode, es).syncer.MustClear?
    ensures After(mode, es + [ClearFlag]) == After(mode, es).(flag := false, syncer := Idle)
    ensures !ServiceCommit(mode, After(mode, es), ClearFlag)
  {
    AfterNext(mode, es, ClearFlag);
  }

  /** A flag-driven round leaves the flag down, and the view fresh if no commit fell into its window. */
  lemma RoundConverges(mode: ZeroRows, es: seq<Event>, r: nat)
    requires |es| > 0 && FlagRound(mode, es, r, |es| - 1)
    requires forall j :: r < j < |es| - 1 ==> !CommitAt(mode, es, j)
    ensures !After(mode, es).flag && After(mode, es).syncer.Idle?
    ensures Fresh(After(mode, es))
  {
    var c := |es| - 1;
    RoundEnds(mode, es[..c]);
    assert es == es[..c] + [ClearFlag];
    RoundIsRefresh(mode, es, r, c);
    FreshUntilNextCommit(mode, es);
  }

  lemma AfterTwo(mode: ZeroRows, es: seq<Event>, a: Event, b: Event)
    ensures After(mode, es + [a, b]) == Apply(mode, Apply(mode, After(mode, es), a), b)
  {
    AfterNext(mode, es, a);
    AfterNext(mode, es + [a], b);
    assert es + [a, b] == es + [a] + [b];
  }

  lemma AfterThree(mode: ZeroRows, es: seq<Event>, a: Event, b: Event, c: Event)
    ensures After(mode, es + [a, b, c]) == Apply(mode, Apply(mode, Apply(mode, After(mode, es), a), b), c)
  {
    AfterTwo(mode, es, a, b);
    AfterNext(mode, es + [a, b], c);
    assert es + [a, b, c] == es + [a, b] + [c];
  }

  /** From every reachable state at most three events of the syncer or of a restart, none of them a
      client's, bring the view up to date. */
  lemma AlwaysRepairable(mode: ZeroRows, es: seq<Event>) returns (repair: seq<Event>)
    ensures |repair| <= 3 && forall e :: e in repair ==> !e.Client? && !e.Begin?
    ensures Fresh(After(mode, es + repair))
    ensures After(mode, es + repair).db.services == After(mode, es).db.services
  {
    var s := After(mode, es);
    if s.syncer.Down? {
      repair := [Start, Refresh(true)];
      AfterTwo(mode, es, Start, Refresh(true));
    } else if s.syncer.Idle? {
      repair := [ScheduledTick, Refresh(true)];
      AfterTwo(mode, es, ScheduledTick, Refresh(true));
    } else if s.syncer.Exited? {
      repair := [Crash, Start, Refresh(true)];
      AfterThree(mode, es, Crash, Start, Refresh(true));
    } else if s.syncer.MustClear? {
      repair := [ClearFlag, ScheduledTick, Refresh(true)];
      AfterThree(mode, es, ClearFlag, ScheduledTick, Refresh(true));
    } else {
      repair := [Refresh(true)];
      AfterNext(mode, es, Refresh(true));
    }
  }
}
