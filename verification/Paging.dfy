/** Pages of a listing, forward and from the end, in 64-bit machine arithmetic. */
module Paging {

  const MAX_INT: int := 0x7FFF_FFFF_FFFF_FFFF

  /** Two's-complement result of a 64-bit operation whose exact result is `x`. */
  function Int64(x: int): int {
    (x + 0x8000_0000_0000_0000) % 0x1_0000_0000_0000_0000 - 0x8000_0000_0000_0000
  }

  function Min(a: int, b: int): int { if a < b then a else b }

  /** Page `page` (counted from 1) of a listing cut into pages of `size` rows. */
  function PageOf<R>(rows: seq<R>, page: int, size: int): seq<R>
    requires page >= 1 && size >= 0
  {
    rows[Min((page - 1) * size, |rows|)..Min(page * size, |rows|)]
  }

  function Reversed<R>(rows: seq<R>): seq<R> {
    seq(|rows|, i requires 0 <= i < |rows| => rows[|rows| - 1 - i])
  }

  /** What SELECT ... LIMIT limit OFFSET offset returns: the ORM writes no LIMIT for a negative limit
      and no OFFSET unless the offset is positive. */
  function Window<R>(rows: seq<R>, limit: int, offset: int): seq<R> {
    var start := Min(if offset > 0 then offset else 0, |rows|);
    if limit < 0 then rows[start..] else rows[start..Min(start + limit, |rows|)]
  }

  /** Row by row: at most `limit` rows, all if it is negative, from the `offset`-th on, the first if it is negative. */
  lemma WindowRows<R>(rows: seq<R>, limit: int, offset: int)
    ensures var start := if offset < 0 then 0 else offset; var shown := Window(rows, limit, offset);
      && (forall i :: 0 <= i < |shown| ==> start + i < |rows| && shown[i] == rows[start + i])
      && (limit >= 0 ==> |shown| <= limit)
      && (start + |shown| < |rows| ==> |shown| == limit)
  {
  }

  lemma Int64InRange(x: int)
    requires -MAX_INT - 1 <= x <= MAX_INT
    ensures Int64(x) == x
  {
  }

  lemma ProductGrows(a: int, b: int, size: int)
    requires a <= b && size >= 0
    ensures a * size <= b * size
  {
  }

  lemma PageStep(page: int, size: int)
    ensures page * size == (page - 1) * size + size
  {
  }

  /** Row by row: page `page` holds the rows from the `size` times `page - 1`-th on, `size` of them if there are. */
  lemma PageRows<R>(rows: seq<R>, page: int, size: int)
    requires page >= 1 && size >= 0
    ensures var start := (page - 1) * size; var shown := PageOf(rows, page, size);
      && |shown| == (if |rows| <= start then 0 else if |rows| < start + size then |rows| - start else size)
      && forall i :: 0 <= i < |shown| ==> shown[i] == rows[start + i]
  {
    PageStep(page, size);
    ProductGrows(0, page - 1, size);
  }

  /** Reversal undoes itself and keeps every row as often as it occurs. */
  lemma {:induction false} ReversedTwice<R>(rows: seq<R>)
    ensures Reversed(Reversed(rows)) == rows
    ensures multiset(Reversed(rows)) == multiset(rows)
  {
    if rows != [] {
      ReversedTwice(rows[1..]);
      assert rows == [rows[0]] + rows[1..];
      assert Reversed(rows) == Reversed(rows[1..]) + [rows[0]];
    }
  }

  /** A window of an ascending listing, reversed, is the mirrored window of the reversed listing. */
  lemma ReversedWindow<R>(rows: seq<R>, lo: int, hi: int)
    requires 0 <= lo <= hi <= |rows|
    ensures Reversed(rows[lo..hi]) == Reversed(rows)[|rows| - hi..|rows| - lo]
  {
    var mirrored := Reversed(rows)[|rows| - hi..|rows| - lo];
    forall i | 0 <= i < hi - lo
      ensures Reversed(rows[lo..hi])[i] == mirrored[i]
    {
      assert rows[lo..hi][hi - lo - 1 - i] == rows[hi - 1 - i];
      assert mirrored[i] == Reversed(rows)[|rows| - hi + i];
    }
  }

  /** The first `k` pages laid end to end. */
  function FirstPages<R>(rows: seq<R>, k: nat, size: nat): seq<R> {
    if k == 0 then [] else FirstPages(rows, k - 1, size) + PageOf(rows, k, size)
  }

  lemma {:induction false} FirstPagesArePrefix<R>(rows: seq<R>, k: nat, size: nat)
    ensures FirstPages(rows, k, size) == rows[..Min(k * size, |rows|)]
  {
    if k > 0 {
      FirstPagesArePrefix(rows, k - 1, size);
      ProductGrows(k - 1, k, size);
      ProductGrows(0, k - 1, size);
    }
  }

  function PageCount(n: nat, size: nat): nat
    requires size > 0
  {
    (n + size - 1) / size
  }

  lemma PageCountCovers(n: nat, size: nat)
    requires size > 0
    ensures n <= PageCount(n, size) * size < n + size
  {
    var q, r := (n + size - 1) / size, (n + size - 1) % size;
    assert n + size - 1 == size * q + r;
    assert size * q == q * size;
  }

  /** Pages 1 to ceil(n/size) laid end to end are the listing itself, and every later page is empty. */
  lemma PagesPartition<R>(rows: seq<R>, size: nat)
    requires size > 0
    ensures FirstPages(rows, PageCount(|rows|, size), size) == rows
    ensures forall page :: page > PageCount(|rows|, size) ==> PageOf(rows, page, size) == []
    ensures forall page :: 1 <= page <= PageCount(|rows|, size) ==> PageOf(rows, page, size) != []
  {
    var k := PageCount(|rows|, size);
    PageCountCovers(|rows|, size);
    FirstPagesArePrefix(rows, k, size);
    forall page | page > k
      ensures PageOf(rows, page, size) == []
    {
      ProductGrows(k, page - 1, size);
      ProductGrows(page - 1, page, size);
    }
    forall page | 1 <= page <= k
      ensures PageOf(rows, page, size) != []
    {
      ProductGrows(page - 1, k - 1, size);
      PageStep(k, size);
      PageStep(page, size);
      ProductGrows(0, page - 1, size);
    }
  }

  /** The inverted listing is cut into pages just as exactly. */
  lemma InvertedPagesPartition<R>(rows: seq<R>, size: nat)
    requires size > 0
    ensures FirstPages(Reversed(rows), PageCount(|rows|, size), size) == Reversed(rows)
    ensures forall page :: page > PageCount(|rows|, size) ==> PageOf(Reversed(rows), page, size) == []
    ensures multiset(FirstPages(Reversed(rows), PageCount(|rows|, size), size)) == multiset(rows)
  {
    PagesPartition(Reversed(rows), size);
    ReversedTwice(rows);
  }

  // The three cases of an inverted page.

  /** A full window, counted back from the end; it never runs past the counted rows. */
  lemma InvertedFullPage<R>(rows: seq<R>, page: int, size: int)
    requires page >= 1 && size >= 0 && |rows| - page * size >= 0
    ensures |rows| - page * size + size <= |rows|
    ensures Reversed(Window(rows, size, |rows| - page * size)) == PageOf(Reversed(rows), page, size)
  {
    var back := |rows| - page * size;
    PageStep(page, size);
    ProductGrows(0, page - 1, size);
    ReversedWindow(rows, back, back + size);
  }

  /** The size is positive, so the remainder is defined, when the window would start before row 0. */
  lemma InvertedPositiveSize(n: nat, page: int, size: int)
    requires size >= 0 && n - page * size < 0
    ensures size > 0
  {
  }

  /** The guard of the short page says exactly that this is the page after the last full one. */
  lemma InvertedLastPageIndex(n: nat, page: int, size: int)
    requires page >= 1 && size > 0 && n - page * size < 0
    ensures n - page * size >= n % size - size <==> page == n / size + 1
    ensures page >= n / size + 1
    ensures n == (n / size) * size + n % size
  {
    var q := n / size;
    assert n == size * q + n % size;
    assert size * q == q * size;
    assert (q + 1) * size == q * size + size;
    if page <= q {
      ProductGrows(page, q, size);
    }
    if page >= q + 2 {
      ProductGrows(q + 2, page, size);
      assert (q + 2) * size == (q + 1) * size + size;
    }
  }

  /** The short last page lies at the front of the table; it is empty when the pages fit exactly. */
  lemma InvertedShortPage<R>(rows: seq<R>, page: int, size: int)
    requires page >= 1 && size > 0 && |rows| % size - size <= |rows| - page * size < 0
    ensures Reversed(Window(rows, |rows| % size, 0)) == PageOf(Reversed(rows), page, size)
  {
    InvertedLastPageIndex(|rows|, page, size);
    assert (page - 1) * size == (|rows| / size) * size;
    ReversedWindow(rows, 0, |rows| % size);
  }

  lemma InvertedMissingPage<R>(rows: seq<R>, page: int, size: int)
    requires page >= 1 && size > 0 && |rows| - page * size < |rows| % size - size
    ensures PageOf(Reversed(rows), page, size) == []
  {
    var q := |rows| / size;
    PageStep(page, size);
    InvertedLastPageIndex(|rows|, page, size);
    PageStep(q + 2, size);
    ProductGrows(q + 1, page - 1, size);
  }

  lemma ForwardWindow<R>(rows: seq<R>, page: int, size: int)
    requires page >= 1 && size >= 0
    ensures (page - 1) * size >= 0
    ensures Window(rows, size, (page - 1) * size) == PageOf(rows, page, size)
  {
    PageStep(page, size);
    ProductGrows(0, page - 1, size);
  }

  /** Swapping from both ends inwards reverses the slice in place. */
  method ReverseSlice<R>(slice: array<R>)
    modifies slice
    ensures slice[..] == Reversed(old(slice[..]))
  {
    ghost var before := slice[..];
    var i, j := 0, slice.Length - 1;
    while i < j
      invariant 0 <= i && i + j == slice.Length - 1 && i <= j + 1
      invariant forall k :: 0 <= k < i || j < k < slice.Length ==> slice[k] == before[slice.Length - 1 - k]
      invariant forall k :: i <= k <= j ==> slice[k] == before[k]
    {
      slice[i], slice[j] := slice[j], slice[i];
      i, j := i + 1, j - 1;
    }
    assert forall k :: 0 <= k < slice.Length ==> slice[..][k] == Reversed(before)[k];
  }
}
