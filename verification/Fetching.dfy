/** The paginated fetches. A fetch sends two queries, a count and then a select; `atCount` and
    `atSelect` are the database as each of them finds it, so the contracts hold whatever other
    clients commit in between. */
module Fetching {
  import opened Options
  import opened Rows
  import opened Schema
  import opened Paging

  /** The LIMIT and OFFSET of the select that reached the database. */
  datatype Query = Query(limit: int, offset: int)

  /** LIKE on names is an arbitrary predicate; Table(...).Count carries no soft-delete filter, Find does. */
  function NameLike(like: string -> bool): Service -> bool { (s: Service) => like(s.name) }
  function LiveNameLike(like: string -> bool): Service -> bool { (s: Service) => like(s.name) && !s.softDeleted }
  function LiveOfService(id: nat): Version -> bool { (v: Version) => v.serviceId == id && !v.softDeleted }

  function Table(db: Database, nameSorted: bool): seq<Service> {
    if nameSorted then db.view else db.services
  }

  function Counted(db: Database, like: string -> bool, nameSorted: bool): seq<Service> {
    Select(Table(db, nameSorted), NameLike(like))
  }

  function Selected(db: Database, like: string -> bool, nameSorted: bool): seq<Service> {
    Select(Table(db, nameSorted), LiveNameLike(like))
  }

  function VersionsOf(db: Database, id: nat): seq<Version> {
    Select(db.versions, LiveOfService(id))
  }

  predicate InRange(x: int) { -MAX_INT - 1 <= x <= MAX_INT }

  /** Arguments the handlers let through. */
  predicate Accepted(page: int, size: int) { 1 <= page <= MAX_INT && 0 <= size <= MAX_INT }

  /** The page a client asks for, of the listing or of its reverse. */
  function PageAsked<R>(rows: seq<R>, page: int, size: int, inverted: bool): seq<R>
    requires Accepted(page, size)
  {
    PageOf(if inverted then Reversed(rows) else rows, page, size)
  }

  /** The numbers for which a fetch of an unchanging table of `n` rows is right. Forward: the offset
      fits in 64 bits or, wrapped, lies past the rows. Inverted: the product fits in 64 bits, or the
      page starts inside the table, or the wrapped window happens to select nothing. */
  predicate PageExact(n: int, page: int, size: int, inverted: bool) {
    if inverted then
      var offset := Int64(n - Int64(page * size));
      || page * size <= MAX_INT
      || (page - 1) * size < n
      || offset >= n
      || (offset < 0 && size > 0 && (n % size == 0 || offset < n % size - size))
    else
      || (page - 1) * size <= MAX_INT
      || n == 0
      || Int64((page - 1) * size) >= n
  }

  /** The window a fetch asks for; None when an inverted page does not exist. */
  function PageQuery(total: int, page: int, size: int, inverted: bool): Option<Query>
    requires 0 <= total <= MAX_INT
  {
    if inverted then
      var offset := Int64(total - Int64(page * size));
      if offset >= 0 then Some(Query(size, offset))
      else if size == 0 then None
      else if offset >= Int64(total % size - size) then Some(Query(total % size, 0))
      else None
    else Some(Query(size, Int64((page - 1) * size)))
  }

  function Answer<R>(rows: seq<R>, query: Option<Query>, inverted: bool): seq<R> {
    match query
    case None => []
    case Some(q) =>
      var window := Window(rows, q.limit, q.offset);
      if inverted then Reversed(window) else window
  }

  lemma WindowOfPrefix<R>(rows: seq<R>, more: seq<R>, limit: int, offset: int)
    requires rows <= more && limit >= 0 && offset >= 0 && offset + limit <= |rows|
    ensures Window(more, limit, offset) == Window(rows, limit, offset)
  {
  }

  /** In range, an inverted window lies inside the counted rows, so rows appended after the count do
      not move it, and reversing it gives the page of the reversed listing as it stood at the count. */
  lemma InvertedQueryCorrect<R>(counted: seq<R>, selected: seq<R>, page: int, size: int)
    requires Accepted(page, size) && |counted| <= MAX_INT && page * size <= MAX_INT
    requires counted <= selected
    ensures var q := PageQuery(|counted|, page, size, true);
      && (q.Some? ==> q.value.limit >= 0 && q.value.offset >= 0 && q.value.offset + q.value.limit <= |counted|)
      && Answer(selected, q, true) == PageAsked(counted, page, size, true)
  {
    ProductGrows(1, page, size);
    Int64InRange(page * size);
    Int64InRange(|counted| - page * size);
    if |counted| - page * size >= 0 {
      InvertedFullPage(counted, page, size);
      WindowOfPrefix(counted, selected, size, |counted| - page * size);
    } else {
      InvertedPositiveSize(|counted|, page, size);
      Int64InRange(|counted| % size - size);
      if |counted| - page * size >= |counted| % size - size {
        InvertedLastPageIndex(|counted|, page, size);
        ProductGrows(0, |counted| / size, size);
        InvertedShortPage(counted, page, size);
        WindowOfPrefix(counted, selected, |counted| % size, 0);
      } else {
        InvertedMissingPage(counted, page, size);
      }
    }
  }

  /** A page straddling the end of the table and the end of the integer range: both wraps cancel. */
  lemma InvertedStraddle<R>(rows: seq<R>, page: int, size: int)
    requires Accepted(page, size) && |rows| <= MAX_INT && page * size > MAX_INT && (page - 1) * size < |rows|
    ensures Answer(rows, PageQuery(|rows|, page, size, true), true) == PageAsked(rows, page, size, true)
  {
    var n := |rows|;
    PageStep(page, size);
    assert Int64(page * size) == page * size - 0x1_0000_0000_0000_0000;
    assert Int64(n - Int64(page * size)) == n - page * size;
    InvertedPositiveSize(n, page, size);
    Int64InRange(n % size - size);
    InvertedLastPageIndex(n, page, size);
    if page >= n / size + 2 {
      ProductGrows(n / size + 1, page - 1, size);
      PageStep(n / size + 1, size);
      assert false;
    }
    InvertedShortPage(rows, page, size);
  }

  lemma ReversedEmpty<R>(rows: seq<R>)
    ensures Reversed(rows) == [] <==> rows == []
  {
    assert |Reversed(rows)| == |rows|;
  }

  lemma RemainderFits(n: nat, size: int)
    requires size > 0
    ensures 0 <= n % size < size && n % size <= n
  {
    assert n == size * (n / size) + n % size;
    ProductGrows(0, n / size, size);
  }

  lemma BeyondWindow<R>(rows: seq<R>, size: int, remainder: int, offset: int)
    requires size > 0 && 0 <= remainder <= |rows|
    ensures offset >= 0 ==> (Reversed(Window(rows, size, offset)) == [] <==> offset >= |rows|)
    ensures Reversed(Window(rows, remainder, 0)) == [] <==> remainder == 0
  {
    ReversedEmpty(Window(rows, size, offset));
    ReversedEmpty(Window(rows, remainder, 0));
  }

  /** A page past the end is answered right exactly when the window is empty. */
  lemma InvertedBeyond<R>(rows: seq<R>, page: int, size: int)
    requires Accepted(page, size) && |rows| <= MAX_INT && page * size > MAX_INT && (page - 1) * size >= |rows|
    ensures Answer(rows, PageQuery(|rows|, page, size, true), true) == PageAsked(rows, page, size, true)
       <==> PageExact(|rows|, page, size, true)
  {
    var n, offset := |rows|, Int64(|rows| - Int64(page * size));
    InvertedPositiveSize(n, page, size);
    PageStep(page, size);
    assert PageAsked(rows, page, size, true) == [];
    RemainderFits(n, size);
    Int64InRange(n % size - size);
    BeyondWindow(rows, size, n % size, offset);
  }

  lemma ForwardQueryCorrect<R>(rows: seq<R>, page: int, size: int)
    requires Accepted(page, size) && (page - 1) * size <= MAX_INT
    ensures Int64((page - 1) * size) == (page - 1) * size >= 0
    ensures Answer(rows, PageQuery(0, page, size, false), false) == PageAsked(rows, page, size, false)
  {
    ProductGrows(0, page - 1, size);
    Int64InRange((page - 1) * size);
    ForwardWindow(rows, page, size);
  }

  /** Exactly when a fetch of an unchanging table returns the page asked for. */
  lemma PageQueryExact<R>(rows: seq<R>, page: int, size: int, inverted: bool)
    requires Accepted(page, size) && |rows| <= MAX_INT
    ensures Answer(rows, PageQuery(|rows|, page, size, inverted), inverted) == PageAsked(rows, page, size, inverted)
       <==> PageExact(|rows|, page, size, inverted)
  {
    ProductGrows(0, page - 1, size);
    PageStep(page, size);
    if inverted {
      if page * size <= MAX_INT {
        InvertedQueryCorrect(rows, rows, page, size);
      } else if (page - 1) * size < |rows| {
        InvertedStraddle(rows, page, size);
      } else {
        InvertedBeyond(rows, page, size);
      }
    } else if (page - 1) * size <= MAX_INT {
      ForwardQueryCorrect(rows, page, size);
    } else {
      assert PageAsked(rows, page, size, false) == [];
    }
  }

  /** What a fetch promises for arguments the handlers let through, given that its count saw the
      listing `counted` and its select the listing `selected`. With the product in range, the limit and
      the offset are not negative; a forward page is the page of what the select saw; an inverted window
      ends within the counted rows and, whatever was appended meanwhile, the rows are the page of the
      reversed listing as counted. On an unchanging table the page is right exactly when PageExact says so. */
  ghost predicate Delivers<R>(counted: seq<R>, selected: seq<R>, page: int, size: int, inverted: bool,
                              sent: Option<Query>, rows: seq<R>)
    requires Accepted(page, size)
  {
    && (page * size <= MAX_INT ==>
          && (sent.Some? ==> sent.value.limit >= 0 && sent.value.offset >= 0)
          && (sent.Some? && inverted ==> sent.value.offset + sent.value.limit <= |counted|)
          && (!inverted ==> rows == PageAsked(selected, page, size, false))
          && (inverted && counted <= selected ==> rows == PageAsked(counted, page, size, true)))
    && (counted == selected ==>
          (rows == PageAsked(counted, page, size, inverted) <==> PageExact(|counted|, page, size, inverted)))
  }

  lemma FetchDelivers<R>(counted: seq<R>, selected: seq<R>, page: int, size: int, inverted: bool)
    requires |counted| <= MAX_INT
    ensures var q := PageQuery(|counted|, page, size, inverted);
            Accepted(page, size) ==>
              Delivers(counted, selected, page, size, inverted, q, Answer(selected, q, inverted))
  {
    if Accepted(page, size) {
      PageQueryExact(counted, page, size, inverted);
      if page * size <= MAX_INT {
        PageStep(page, size);
        ForwardQueryCorrect(selected, page, size);
        InvertedQueryCorrect(counted, counted, page, size);
        if counted <= selected {
          InvertedQueryCorrect(counted, selected, page, size);
        }
      }
    }
  }

  /** Outside the range the forward fetch can hand out page 1 for a page far past the end. */
  lemma ForwardWrapExample(row: Service)
    ensures Answer([row], PageQuery(1, 0x4000_0000_0000_0001, 4, false), false) == [row]
    ensures PageAsked([row], 0x4000_0000_0000_0001, 4, false) == []
  {
  }

  /** And the inverted fetch the whole table for a page that does not exist. */
  lemma InvertedWrapExample(rows: seq<Service>)
    requires |rows| == 4
    ensures Answer(rows, PageQuery(4, 0x4000_0000_0000_0001, 4, true), true) == Reversed(rows)
    ensures PageAsked(rows, 0x4000_0000_0000_0001, 4, true) == []
  {
  }

  /** In range, the window of an inverted page in terms of its borders counted from the end: it exists if
      and only if the pages before it leave something or just nothing, and holds what they leave, up to a
      page. */
  lemma InvertedBorders(total: int, page: int, size: int)
    requires Accepted(page, size) && 0 <= total <= MAX_INT && page * size <= MAX_INT
    ensures var q := PageQuery(total, page, size, true);
      && (q.Some? <==> (page - 1) * size <= total)
      && (q.Some? ==> q.value.offset == (if page * size <= total then total - page * size else 0)
                      && q.value.offset + q.value.limit == total - (page - 1) * size)
  {
    ProductGrows(1, page, size);
    PageStep(page, size);
    Int64InRange(page * size);
    Int64InRange(total - page * size);
    if total - page * size < 0 {
      InvertedPositiveSize(total, page, size);
      RemainderFits(total, size);
      Int64InRange(total % size - size);
      InvertedLastPageIndex(total, page, size);
      PageStep(total / size + 2, size);
      if page >= total / size + 2 {
        ProductGrows(total / size + 1, page - 1, size);
        PageStep(total / size + 1, size);
      }
    }
  }

  /** The window arithmetic both inverted fetches open with. */
  method PlaceInverted(total: int, currentPage: int, pageSize: int) returns (found: bool, limit: int, offset: int)
    requires InRange(currentPage) && InRange(pageSize) && 0 <= total <= MAX_INT
    ensures Accepted(currentPage, pageSize) && currentPage * pageSize <= MAX_INT ==>
      && (found <==> (currentPage - 1) * pageSize <= total)
      && (found ==> offset == (if currentPage * pageSize <= total then total - currentPage * pageSize else 0)
                    && offset + limit == total - (currentPage - 1) * pageSize)
    ensures (if found then Some(Query(limit, offset)) else None) == PageQuery(total, currentPage, pageSize, true)
  {
    found, limit := true, pageSize;
    offset := Int64(total - Int64(currentPage * pageSize));
    if offset < 0 {
      limit := total % pageSize;
      if offset >= Int64(limit - pageSize) {
        offset := 0;
      } else {
        found := false;
      }
    }
    if Accepted(currentPage, pageSize) && currentPage * pageSize <= MAX_INT {
      InvertedBorders(total, currentPage, pageSize);
    }
  }

  /** Reverses the slice a select filled. */
  method ReverseFound<R>(found: seq<R>) returns (rows: seq<R>)
    ensures rows == Reversed(found)
  {
    var slice := new R[|found|](i requires 0 <= i < |found| => found[i]);
    assert slice[..] == found;
    ReverseSlice(slice);
    rows := slice[..];
  }

  /** What a fetch hands out comes from the listing it selects from. */
  lemma AnswerMembers<R>(rows: seq<R>, query: Option<Query>, inverted: bool)
    ensures forall r :: r in Answer(rows, query, inverted) ==> r in rows
  {
  }

  /** Pages 1 to `k` as a fetch answers them, end to end. */
  function PagesShown<R>(rows: seq<R>, k: nat, size: int, inverted: bool): seq<R>
    requires |rows| <= MAX_INT
  {
    if k == 0 then []
    else PagesShown(rows, k - 1, size, inverted) + Answer(rows, PageQuery(|rows|, k, size, inverted), inverted)
  }

  lemma PageInside(n: nat, k: nat, size: nat)
    requires size > 0 && 0 < k <= PageCount(n, size)
    ensures (k - 1) * size < n && k <= n
  {
    PageCountCovers(n, size);
    PageStep(PageCount(n, size), size);
    ProductGrows(k - 1, PageCount(n, size) - 1, size);
    ProductGrows(1, size, k - 1);
  }

  lemma {:induction false} PagesShownAreFirstPages<R>(rows: seq<R>, k: nat, size: nat, inverted: bool)
    requires |rows| <= MAX_INT && 0 < size <= MAX_INT && k <= PageCount(|rows|, size)
    ensures PagesShown(rows, k, size, inverted) == FirstPages(if inverted then Reversed(rows) else rows, k, size)
  {
    if k > 0 {
      PagesShownAreFirstPages(rows, k - 1, size, inverted);
      PageInside(|rows|, k, size);
      PageQueryExact(rows, k, size, inverted);
    }
  }

  /** Going through the pages of an unchanging table shows every row of the listing, once and in order: the
      listing itself, or, inverted, its reverse. Machine arithmetic included. */
  lemma AllPagesShown<R>(rows: seq<R>, size: nat, inverted: bool)
    requires |rows| <= MAX_INT && 0 < size <= MAX_INT
    ensures PagesShown(rows, PageCount(|rows|, size), size, inverted) == if inverted then Reversed(rows) else rows
  {
    PagesShownAreFirstPages(rows, PageCount(|rows|, size), size, inverted);
    PagesPartition(if inverted then Reversed(rows) else rows, size);
  }

  method FetchServices(atCount: Database, atSelect: Database, currentPage: int, pageSize: int, like: string -> bool,
                       invertedFetch: bool, fetchNameSorted: bool, countFails: bool, selectFails: bool)
    returns (services: seq<Service>, total: int, failed: bool, sent: Option<Query>)
    requires InRange(currentPage) && InRange(pageSize)
    requires |Counted(atCount, like, fetchNameSorted)| <= MAX_INT
    // errors
    ensures failed == (countFails || (sent.Some? && selectFails))
    ensures failed ==> services == [] && total == 0
    ensures countFails ==> sent.None?
    ensures !countFails ==>
      sent == PageQuery(|Counted(atCount, like, fetchNameSorted)|, currentPage, pageSize, invertedFetch)
    // any interleaving: the total is the count, the rows are the window asked for
    ensures !failed ==> total == |Counted(atCount, like, fetchNameSorted)|
    ensures !failed ==> services == Answer(Selected(atSelect, like, fetchNameSorted), sent, invertedFetch)
    ensures forall s :: s in services ==>
      like(s.name) && s in if fetchNameSorted then atSelect.view else atSelect.services
    ensures Accepted(currentPage, pageSize) && !failed ==>
      Delivers(Counted(atCount, like, fetchNameSorted), Selected(atSelect, like, fetchNameSorted),
               currentPage, pageSize, invertedFetch, sent, services)
  {
    services, total, failed, sent := [], 0, false, None;
    if countFails {
      failed := true;
      return;
    }
    total := |Select(Table(atCount, fetchNameSorted), NameLike(like))|;
    FetchDelivers(Counted(atCount, like, fetchNameSorted), Selected(atSelect, like, fetchNameSorted),
                  currentPage, pageSize, invertedFetch);

    var offset, limit := 0, pageSize;
    if invertedFetch {
      var pageExists;
      pageExists, limit, offset := PlaceInverted(total, currentPage, pageSize);
      if !pageExists {
        return;
      }
    } else {
      offset := Int64((currentPage - 1) * pageSize);
    }

    sent := Some(Query(limit, offset));
    if selectFails {
      total, failed := 0, true;
      return;
    }
    SelectMember(Table(atSelect, fetchNameSorted), LiveNameLike(like));
    AnswerMembers(Selected(atSelect, like, fetchNameSorted), sent, invertedFetch);
    services := Window(Select(Table(atSelect, fetchNameSorted), LiveNameLike(like)), limit, offset);
    if |services| != 0 && invertedFetch {
      services := ReverseFound(services);
    }
  }

  method FetchServiceVersionsInverted(atCount: Database, atSelect: Database, id: nat, currentPage: int, pageSize: int,
                                      countFails: bool, selectFails: bool)
    returns (serviceVersions: seq<Version>, total: int, failed: bool, sent: Option<Query>)
    requires InRange(currentPage) && InRange(pageSize)
    requires |VersionsOf(atCount, id)| <= MAX_INT
    ensures failed == (countFails || (sent.Some? && selectFails))
    ensures failed ==> serviceVersions == [] && total == 0
    ensures countFails ==> sent.None?
    ensures !countFails ==> sent == PageQuery(|VersionsOf(atCount, id)|, currentPage, pageSize, true)
    ensures !failed ==> total == |VersionsOf(atCount, id)|
    ensures !failed ==> serviceVersions == Answer(VersionsOf(atSelect, id), sent, true)
    ensures forall v :: v in serviceVersions ==> v.serviceId == id && v in atSelect.versions
    ensures Accepted(currentPage, pageSize) && !failed ==>
      Delivers(VersionsOf(atCount, id), VersionsOf(atSelect, id), currentPage, pageSize, true, sent, serviceVersions)
  {
    serviceVersions, total, failed, sent := [], 0, false, None;
    if countFails {
      failed := true;
      return;
    }
    total := |Select(atCount.versions, LiveOfService(id))|;
    FetchDelivers(VersionsOf(atCount, id), VersionsOf(atSelect, id), currentPage, pageSize, true);

    var pageExists, limit, offset := PlaceInverted(total, currentPage, pageSize);
    if !pageExists {
      return;
    }

    sent := Some(Query(limit, offset));
    if selectFails {
      total, failed := 0, true;
      return;
    }
    SelectMember(atSelect.versions, LiveOfService(id));
    AnswerMembers(VersionsOf(atSelect, id), sent, true);
    serviceVersions := Window(Select(atSelect.versions, LiveOfService(id)), limit, offset);
    if |serviceVersions| != 0 {
      serviceVersions := ReverseFound(serviceVersions);
    }
  }
}
