/** What the paginated fetches show along a run: the same rows counted and selected, a search of the
    view that is a sorted search of the table, and inverted pages that appends do not disturb. */
module Listings {
  import opened Options
  import opened Rows
  import opened Schema
  import opened SortedView
  import opened Paging
  import opened Fetching
  import opened Protocol
  import opened Integrity
  import opened Freshness

  /** In every run the unscoped count and the scoped select range over the same rows, so a fetch whose
      two queries see the same state reports the length of the very list it pages. */
  lemma CountedIsSelected(mode: ZeroRows, es: seq<Event>, like: string -> bool, nameSorted: bool)
    ensures Counted(After(mode, es).db, like, nameSorted) == Selected(After(mode, es).db, like, nameSorted)
  {
    IntegrityAlways(mode, es);
    SelectPointwise(Table(After(mode, es).db, nameSorted), NameLike(like), LiveNameLike(like));
  }

  /** The rows a search ranges over, in words: those of the table, or of the view, with a matching name, each
      once and in table order, for the count as for the select. */
  lemma SearchMeans(mode: ZeroRows, es: seq<Event>, like: string -> bool, nameSorted: bool)
    ensures var db := After(mode, es).db;
            var table := if nameSorted then db.view else db.services;
      && Picked(table, Selected(db, like, nameSorted), (s: Service) => like(s.name))
      && Picked(table, Counted(db, like, nameSorted), (s: Service) => like(s.name))
  {
    var db := After(mode, es).db;
    IntegrityAlways(mode, es);
    SelectPicks(Table(db, nameSorted), LiveNameLike(like));
    SelectPicks(Table(db, nameSorted), NameLike(like));
    var matches := (s: Service) => like(s.name);
    PickedAlike(Table(db, nameSorted), Selected(db, like, nameSorted), LiveNameLike(like), matches);
    PickedAlike(Table(db, nameSorted), Counted(db, like, nameSorted), NameLike(like), matches);
    PickedAlike(Table(db, nameSorted), Selected(db, like, nameSorted), matches, (s: Service) => like(s.name));
    PickedAlike(Table(db, nameSorted), Counted(db, like, nameSorted), matches, (s: Service) => like(s.name));
  }

  /** The versions listed for a service, in words: exactly the rows with that service id, each once and in table
      order; so the total is their number, and no other service's version is shown. */
  lemma VersionsOfMeans(mode: ZeroRows, es: seq<Event>, id: nat)
    ensures var db := After(mode, es).db;
      && Picked(db.versions, VersionsOf(db, id), (v: Version) => v.serviceId == id)
      && (forall v :: v in VersionsOf(db, id) <==> v in db.versions && v.serviceId == id)
  {
    var db := After(mode, es).db;
    IntegrityAlways(mode, es);
    SelectPicks(db.versions, LiveOfService(id));
    SelectMember(db.versions, LiveOfService(id));
    PickedAlike(db.versions, VersionsOf(db, id), LiveOfService(id), (v: Version) => v.serviceId == id);
  }

  lemma {:induction false} NoNameTwice(rows: seq<Service>, i: int, j: int)
    requires 0 <= i < j < |rows| && rows[i].name == rows[j].name
    ensures |Select(rows, HasName(rows[i].name))| >= 2
  {
    if i > 0 {
      NoNameTwice(rows[1..], i - 1, j - 1);
    } else {
      SelectMember(rows[1..], HasName(rows[0].name));
      assert rows[j] == rows[1..][j - 1];
      assert rows[j] in Select(rows[1..], HasName(rows[0].name));
    }
  }

  lemma UniqueNamesDistinct(rows: seq<Service>)
    requires UniqueServices(rows)
    ensures DistinctNames(rows)
  {
    forall i, j | 0 <= i < j < |rows|
      ensures rows[i].name != rows[j].name
    {
      if rows[i].name == rows[j].name {
        NoNameTwice(rows, i, j);
      }
    }
  }

  lemma {:induction false} SearchKeepsUnique(rows: seq<Service>, where: Service -> bool, p: Service -> bool)
    ensures |Select(Select(rows, where), p)| <= |Select(rows, p)|
  {
    if rows != [] {
      SearchKeepsUnique(rows[1..], where, p);
      if where(rows[0]) {
        SelectCons(rows[0], Select(rows[1..], where), p);
      }
    }
  }

  lemma TwiceInMultiset(rows: seq<Service>, i: int, j: int)
    requires 0 <= i < j < |rows| && rows[i] == rows[j]
    ensures multiset(rows)[rows[i]] >= 2
  {
    assert rows == rows[..i] + [rows[i]] + rows[i + 1..j] + [rows[j]] + rows[j + 1..];
  }

  lemma OnceInMultiset(rows: seq<Service>, m: int)
    requires 0 <= m < |rows| && DistinctNames(rows)
    ensures multiset(rows)[rows[m]] == 1
  {
    assert rows == rows[..m] + [rows[m]] + rows[m + 1..];
    assert rows[m] !in rows[..m] && rows[m] !in rows[m + 1..];
  }

  lemma SameRowsDistinct(a: seq<Service>, b: seq<Service>)
    requires multiset(a) == multiset(b) && DistinctNames(a)
    ensures DistinctNames(b)
  {
    forall i, j | 0 <= i < j < |b|
      ensures b[i].name != b[j].name
    {
      if b[i].name == b[j].name {
        assert b[i] in multiset(a) && b[j] in multiset(a);
        var m :| 0 <= m < |a| && a[m] == b[i];
        var n :| 0 <= n < |a| && a[n] == b[j];
        assert m == n;
        TwiceInMultiset(b, i, j);
        OnceInMultiset(a, m);
      }
    }
  }

  /** The view agrees with the direct query: a name-sorted search shows the search of the service table
      as of the last successful refresh, sorted by name, smaller names first; and there is no other listing
      of those rows in name order. */
  lemma ViewAgreesWithQuery(mode: ZeroRows, es: seq<Event>, like: string -> bool)
    ensures var asOf := After(mode, es[..ViewPoint(mode, es)]).db;
      && Selected(After(mode, es).db, like, true) == SortByName(Selected(asOf, like, false))
      && (forall listing :: Sorted(listing) && multiset(listing) == multiset(Selected(asOf, like, false))
            ==> listing == Selected(After(mode, es).db, like, true))
      && (var shown := Selected(After(mode, es).db, like, true);
          forall i, j :: 0 <= i < j < |shown| ==> Names.Precedes(shown[i].name, shown[j].name))
  {
    var asOf := After(mode, es[..ViewPoint(mode, es)]).db;
    var found := Selected(asOf, like, false);
    ViewIsPastImage(mode, es);
    FilterSortCommute(asOf.services, LiveNameLike(like));
    IntegrityAlways(mode, es[..ViewPoint(mode, es)]);
    SortByNameSorts(found);
    SortedMeans(SortByName(found));
    forall id { SearchKeepsUnique(asOf.services, LiveNameLike(like), HasId(id)); }
    forall name { SearchKeepsUnique(asOf.services, LiveNameLike(like), HasName(name)); }
    UniqueNamesDistinct(found);
    forall listing | Sorted(listing) && multiset(listing) == multiset(found)
      ensures listing == SortByName(found)
    {
      SameRowsDistinct(found, SortByName(found));
      SortedUnique(SortByName(found), listing);
    }
  }

  /** The page a name-sorted fetch shows, in every run: it counts after `m` events, selects after all of
      `es`, and `rows` is what it delivers. If no refresh came between its queries, that is the page asked
      for of the sorted search of the table as of the last refresh, exactly for the numbers of PageExact. A
      forward page is so even if one did, as long as the product is in range. */
  lemma NameSortedPage(mode: ZeroRows, es: seq<Event>, m: nat, like: string -> bool, page: int, size: int,
                       inverted: bool, sent: Option<Query>, rows: seq<Service>)
    requires m <= |es| && Accepted(page, size)
    requires Delivers(Counted(After(mode, es[..m]).db, like, true), Selected(After(mode, es).db, like, true),
                      page, size, inverted, sent, rows)
    ensures var asOf := After(mode, es[..ViewPoint(mode, es)]).db;
            var listing := SortByName(Selected(asOf, like, false));
      && (ViewPoint(mode, es[..m]) == ViewPoint(mode, es) ==>
            && |Counted(After(mode, es[..m]).db, like, true)| == |listing|
            && (rows == PageAsked(listing, page, size, inverted) <==> PageExact(|listing|, page, size, inverted)))
      && (!inverted && page * size <= MAX_INT ==> rows == PageAsked(listing, page, size, false))
  {
    ViewAgreesWithQuery(mode, es, like);
    ViewAgreesWithQuery(mode, es[..m], like);
    CountedIsSelected(mode, es[..m], like, true);
    if ViewPoint(mode, es[..m]) == ViewPoint(mode, es) {
      assert es[..m][..ViewPoint(mode, es)] == es[..ViewPoint(mode, es)];
    }
  }

  // Appends

  lemma SelectPrefix<R(!new)>(rows: seq<R>, more: seq<R>, where: R -> bool)
    requires rows <= more
    ensures Select(rows, where) <= Select(more, where)
  {
    assert more == rows + more[|rows|..];
    SelectAppend(rows, more[|rows|..], where);
  }

  /** Nothing but a service creation writes to the service table in this step. */
  ghost predicate OnlyAddsServices(mode: ZeroRows, s: State, e: Event) {
    ServiceCommit(mode, s, e) ==> s.tasks[e.tid].op.CreateService?
  }

  /** Nothing but a version creation writes to the version table in this step. */
  ghost predicate OnlyAddsVersions(s: State, e: Event) {
    Writes(s, e) ==> var op := s.tasks[e.tid].op; op.CreateVersion? || op.CreateService? || op.UpdateService?
  }

  lemma StepAppendsServices(mode: ZeroRows, s: State, e: Event)
    requires OnlyAddsServices(mode, s, e)
    ensures s.db.services <= Apply(mode, s, e).db.services
  {
    StepFrame(mode, s, e);
    StepDatabase(mode, s, e);
  }

  lemma StepAppendsVersions(mode: ZeroRows, s: State, e: Event)
    requires OnlyAddsVersions(s, e)
    ensures s.db.versions <= Apply(mode, s, e).db.versions
  {
    StepDatabase(mode, s, e);
  }

  lemma {:induction false} RunAppendsServices(mode: ZeroRows, es: seq<Event>, m: nat)
    requires m <= |es| && forall k :: m <= k < |es| ==> OnlyAddsServices(mode, After(mode, es[..k]), es[k])
    ensures After(mode, es[..m]).db.services <= After(mode, es).db.services
  {
    if m == |es| {
      assert es[..m] == es;
    } else {
      var before := es[..|es| - 1];
      forall k | m <= k < |before|
        ensures OnlyAddsServices(mode, After(mode, before[..k]), before[k])
      {
        assert before[..k] == es[..k];
      }
      assert before[..m] == es[..m];
      RunAppendsServices(mode, before, m);
      StepAppendsServices(mode, After(mode, before), es[|es| - 1]);
    }
  }

  lemma {:induction false} RunAppendsVersions(mode: ZeroRows, es: seq<Event>, m: nat)
    requires m <= |es| && forall k :: m <= k < |es| ==> OnlyAddsVersions(After(mode, es[..k]), es[k])
    ensures After(mode, es[..m]).db.versions <= After(mode, es).db.versions
  {
    if m == |es| {
      assert es[..m] == es;
    } else {
      var before := es[..|es| - 1];
      forall k | m <= k < |before|
        ensures OnlyAddsVersions(After(mode, before[..k]), before[k])
      {
        assert before[..k] == es[..k];
      }
      assert before[..m] == es[..m];
      RunAppendsVersions(mode, before, m);
      StepAppendsVersions(mode, After(mode, before), es[|es| - 1]);
    }
  }

  /** An inverted page of the service table, counted after `m` events and selected after all of `es`,
      is the page of the list as counted, however many services were created in between. */
  lemma InvertedServicesStable(mode: ZeroRows, es: seq<Event>, m: nat, like: string -> bool, page: int, size: int)
    requires m <= |es| && forall k :: m <= k < |es| ==> OnlyAddsServices(mode, After(mode, es[..k]), es[k])
    requires Accepted(page, size) && page * size <= MAX_INT
    requires |Counted(After(mode, es[..m]).db, like, false)| <= MAX_INT
    ensures var counted := Counted(After(mode, es[..m]).db, like, false);
            Answer(Selected(After(mode, es).db, like, false), PageQuery(|counted|, page, size, true), true)
            == PageAsked(counted, page, size, true)
  {
    var counted := Counted(After(mode, es[..m]).db, like, false);
    CountedIsSelected(mode, es[..m], like, false);
    RunAppendsServices(mode, es, m);
    SelectPrefix(After(mode, es[..m]).db.services, After(mode, es).db.services, LiveNameLike(like));
    InvertedQueryCorrect(counted, Selected(After(mode, es).db, like, false), page, size);
  }

  /** Likewise for the versions of a service. */
  lemma InvertedVersionsStable(mode: ZeroRows, es: seq<Event>, m: nat, id: nat, page: int, size: int)
    requires m <= |es| && forall k :: m <= k < |es| ==> OnlyAddsVersions(After(mode, es[..k]), es[k])
    requires Accepted(page, size) && page * size <= MAX_INT
    requires |VersionsOf(After(mode, es[..m]).db, id)| <= MAX_INT
    ensures var counted := VersionsOf(After(mode, es[..m]).db, id);
            Answer(VersionsOf(After(mode, es).db, id), PageQuery(|counted|, page, size, true), true)
            == PageAsked(counted, page, size, true)
  {
    RunAppendsVersions(mode, es, m);
    SelectPrefix(After(mode, es[..m]).db.versions, After(mode, es).db.versions, LiveOfService(id));
    InvertedQueryCorrect(VersionsOf(After(mode, es[..m]).db, id), VersionsOf(After(mode, es).db, id), page, size);
  }
}
