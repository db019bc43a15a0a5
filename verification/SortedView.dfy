/** What REFRESH MATERIALIZED VIEW name_sorted_service stores: the service rows in name order. */
module SortedView {
  import Names
  import opened Rows
  import opened Schema

  function Insert(row: Service, rows: seq<Service>): seq<Service> {
    if rows == [] then [row]
    else if Names.Leq(row.name, rows[0].name) then [row] + rows
    else [rows[0]] + Insert(row, rows[1..])
  }

  function SortByName(rows: seq<Service>): seq<Service> {
    if rows == [] then [] else Insert(rows[0], SortByName(rows[1..]))
  }

  /** In name order; each row against all later ones. */
  predicate Sorted(rows: seq<Service>) {
    rows == [] || ((forall r :: r in rows[1..] ==> Names.Leq(rows[0].name, r.name)) && Sorted(rows[1..]))
  }

  predicate DistinctNames(rows: seq<Service>) {
    forall i, j :: 0 <= i < j < |rows| ==> rows[i].name != rows[j].name
  }

  lemma {:induction false} InsertSorted(row: Service, rows: seq<Service>)
    requires Sorted(rows)
    ensures multiset(Insert(row, rows)) == multiset(rows) + multiset{row}
    ensures forall r :: r in Insert(row, rows) <==> r == row || r in rows
    ensures Sorted(Insert(row, rows))
  {
    if rows == [] {
    } else if Names.Leq(row.name, rows[0].name) {
      forall r | r in rows
        ensures Names.Leq(row.name, r.name)
      {
        if r != rows[0] {
          Names.LeqTransitive(row.name, rows[0].name, r.name);
        }
      }
    } else {
      Names.LeqTotal(row.name, rows[0].name);
      InsertSorted(row, rows[1..]);
      assert rows == [rows[0]] + rows[1..];
      assert Insert(row, rows)[1..] == Insert(row, rows[1..]);
    }
  }

  /** The view is a permutation of the table, in name order. */
  lemma {:induction false} SortByNameSorts(rows: seq<Service>)
    ensures Sorted(SortByName(rows))
    ensures multiset(SortByName(rows)) == multiset(rows)
    ensures forall r :: r in SortByName(rows) <==> r in rows
  {
    if rows != [] {
      SortByNameSorts(rows[1..]);
      InsertSorted(rows[0], SortByName(rows[1..]));
      assert rows == [rows[0]] + rows[1..];
    }
  }

  /** Being sorted, in words: no row comes before one whose name precedes it. */
  lemma {:induction false} SortedMeans(rows: seq<Service>)
    ensures Sorted(rows) <==> forall i, j :: 0 <= i < j < |rows| ==> Names.Precedes(rows[i].name, rows[j].name)
  {
    if rows != [] {
      SortedMeans(rows[1..]);
      forall r: Service {
        Names.LeqMeans(rows[0].name, r.name);
      }
      assert rows == [rows[0]] + rows[1..];
      if Sorted(rows) {
        forall i, j | 0 <= i < j < |rows|
          ensures Names.Precedes(rows[i].name, rows[j].name)
        {
          if i == 0 {
            assert rows[j] in rows[1..];
          } else {
            assert rows[i] == rows[1..][i - 1] && rows[j] == rows[1..][j - 1];
          }
        }
      }
      if forall i, j :: 0 <= i < j < |rows| ==> Names.Precedes(rows[i].name, rows[j].name) {
        forall i, j | 0 <= i < j < |rows[1..]|
          ensures Names.Precedes(rows[1..][i].name, rows[1..][j].name)
        {
          assert Names.Precedes(rows[i + 1].name, rows[j + 1].name);
        }
        forall r | r in rows[1..]
          ensures Names.Leq(rows[0].name, r.name)
        {
          var j :| 0 <= j < |rows[1..]| && rows[1..][j] == r;
          assert Names.Precedes(rows[0].name, rows[j + 1].name);
        }
      }
    }
  }

  /** In two name-ordered listings of the same rows, the first rows agree when names are unique. */
  lemma SortedSameFirst(a: seq<Service>, b: seq<Service>)
    requires a != [] && b != []
    requires Sorted(a) && Sorted(b) && (forall r :: r in a <==> r in b) && DistinctNames(a)
    ensures a[0] == b[0]
  {
    assert a[0] in b && b[0] in a;
    var i :| 0 <= i < |a| && a[i] == b[0];
    var j :| 0 <= j < |b| && b[j] == a[0];
    if i > 0 && j > 0 {
      assert a[i] == a[1..][i - 1] && b[j] == b[1..][j - 1];
      Names.LeqAntisymmetric(a[0].name, b[0].name);
      assert false;
    }
  }

  /** Unique names leave one way only to order the rows: any listing of the same rows in name order
      is the one the view stores. */
  lemma {:induction false} SortedUnique(a: seq<Service>, b: seq<Service>)
    requires Sorted(a) && Sorted(b) && multiset(a) == multiset(b) && DistinctNames(a)
    ensures a == b
  {
    assert |multiset(a)| == |a| && |multiset(b)| == |b|;
    if a != [] {
      forall r
        ensures r in a <==> r in b
      {
        assert r in multiset(a) <==> r in multiset(b);
      }
      SortedSameFirst(a, b);
      assert multiset(a[1..]) == multiset(b[1..]) by {
        assert a == [a[0]] + a[1..] && b == [b[0]] + b[1..];
        assert multiset(a[1..]) == multiset(a) - multiset{a[0]};
        assert multiset(b[1..]) == multiset(b) - multiset{b[0]};
      }
      SortedUnique(a[1..], b[1..]);
      assert a == [a[0]] + a[1..] && b == [b[0]] + b[1..];
    }
  }

  /** A row no later than any listed one goes first. */
  lemma InsertFirst(row: Service, rows: seq<Service>)
    requires forall r :: r in rows ==> Names.Leq(row.name, r.name)
    ensures Insert(row, rows) == [row] + rows
  {
    if rows != [] {
      assert rows[0] in rows;
    }
  }

  lemma InsertLater(row: Service, head: Service, rows: seq<Service>)
    requires !Names.Leq(row.name, head.name)
    ensures Insert(row, [head] + rows) == [head] + Insert(row, rows)
  {
    assert ([head] + rows)[1..] == rows;
  }

  lemma {:induction false} SelectOfInsert(row: Service, rows: seq<Service>, where: Service -> bool)
    requires Sorted(rows)
    ensures Select(Insert(row, rows), where)
         == if where(row) then Insert(row, Select(rows, where)) else Select(rows, where)
  {
    if rows == [] {
    } else if Names.Leq(row.name, rows[0].name) {
      SelectCons(row, rows, where);
      forall r | r in rows
        ensures Names.Leq(row.name, r.name)
      {
        if r != rows[0] {
          Names.LeqTransitive(row.name, rows[0].name, r.name);
        }
      }
      SelectMember(rows, where);
      InsertFirst(row, Select(rows, where));
    } else {
      var tail := Select(rows[1..], where);
      SelectOfInsert(row, rows[1..], where);
      SelectCons(rows[0], Insert(row, rows[1..]), where);
      if where(rows[0]) {
        InsertLater(row, rows[0], tail);
      }
    }
  }

  lemma SortCons(row: Service, rows: seq<Service>)
    ensures SortByName([row] + rows) == Insert(row, SortByName(rows))
  {
    assert ([row] + rows)[1..] == rows;
  }

  /** Filtering and sorting commute: searching the view is sorting the search result. */
  lemma {:induction false} FilterSortCommute(rows: seq<Service>, where: Service -> bool)
    ensures Select(SortByName(rows), where) == SortByName(Select(rows, where))
  {
    if rows != [] {
      var tail := Select(rows[1..], where);
      FilterSortCommute(rows[1..], where);
      SortByNameSorts(rows[1..]);
      SelectOfInsert(rows[0], SortByName(rows[1..]), where);
      if where(rows[0]) {
        assert Select(rows, where) == [rows[0]] + tail;
        SortCons(rows[0], tail);
      }
    }
  }
}
