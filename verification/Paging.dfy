/** Listing in pages: the window a request asks for, the order of a listing, and that the pages cover it once. */
module Paging {
  import opened Numerals
  import opened Ordering
  import opened Wrappers

  const DEFAULT_LIMIT: int := 50
  const MAX_LIMIT: int := 200
  const INT32_MAX: int := 0x7fff_ffff

  // The window

  /** Base ten with an optional sign, failing outside 32 bits. */
  function ParseInt32(s: string): Option<int> {
    if s == "" then None
    else
      var signed := s[0] == '+' || s[0] == '-';
      var n := ParseDigits(if signed then s[1..] else s);
      if n.None? then None
      else
        var v: int := if s[0] == '-' then 0 - n.value else n.value;
        if -INT32_MAX - 1 <= v <= INT32_MAX then Some(v) else None
  }

  /** What was asked for when that is legal, and the default otherwise. */
  function LimitOf(text: string): nat {
    var n := ParseInt32(text);
    if n.Some? && 0 < n.value <= MAX_LIMIT then n.value else DEFAULT_LIMIT
  }

  function OffsetOf(text: string): nat {
    var n := ParseInt32(text);
    if n.Some? && n.value >= 0 then n.value else 0
  }

  method Pagination(limitText: string, offsetText: string) returns (limit: int, offset: int)
    ensures 1 <= limit <= MAX_LIMIT && 0 <= offset <= INT32_MAX
    ensures limit == LimitOf(limitText) && offset == OffsetOf(offsetText)
  {
    limit, offset := DEFAULT_LIMIT, 0;
    if limitText != "" {
      var n := ParseInt32(limitText);
      if n.Some? && n.value > 0 && n.value <= MAX_LIMIT {
        limit := n.value;
      }
    }
    if offsetText != "" {
      var n := ParseInt32(offsetText);
      if n.Some? && n.value >= 0 {
        offset := n.value;
      }
    }
  }

  lemma SignedReadBack(s: string, n: nat)
    requires s != "" && Digit(s[0]) && ParseDigits(s) == Some(n)
    ensures ParseInt32(s) == ParseInt32("+" + s) == if n <= INT32_MAX then Some(n) else None
    ensures ParseInt32("-" + s) == if n <= INT32_MAX + 1 then Some(0 - n) else None
  {
    assert ("+" + s)[1..] == s == ("-" + s)[1..];
  }

  /** A written number, with or without sign, is read back exactly when it fits 32 bits; beyond, it fails to parse. */
  lemma OffsetReadBack(n: nat)
    ensures ParseInt32(Decimal(n)) == if n <= INT32_MAX then Some(n) else None
    ensures ParseInt32("+" + Decimal(n)) == ParseInt32(Decimal(n))
    ensures ParseInt32("-" + Decimal(n)) == if n <= INT32_MAX + 1 then Some(0 - n) else None
  {
    ParseDecimal(n);
    SignedReadBack(Decimal(n), n);
  }

  /** A legal limit is read back; an offset too, up to 32 bits, and beyond it becomes zero. */
  lemma WindowReadBack(limit: nat, offset: nat)
    requires 1 <= limit <= MAX_LIMIT
    ensures LimitOf(Decimal(limit)) == limit
    ensures OffsetOf(Decimal(offset)) == if offset <= INT32_MAX then offset else 0
  {
    OffsetReadBack(limit);
    OffsetReadBack(offset);
  }

  /** The first offset beyond 32 bits asks for the first page. */
  lemma OffsetFallsBack()
    ensures OffsetOf(Decimal(2_147_483_648)) == 0
  {
    WindowReadBack(1, 2_147_483_648);
  }

  // The order

  /** A user or group as its listing orders it: names holds last and first name, or the group's name. */
  datatype Row = Row(names: seq<string>, id: int, deleted: bool)

  /** How the database compares texts; it may count different texts as equal. */
  type Collation = (string, string) -> bool

  ghost predicate Collates(leq: Collation) {
    && (forall x, y :: leq(x, y) || leq(y, x))
    && (forall x, y, z :: leq(x, y) && leq(y, z) ==> leq(x, z))
  }

  /** Name by name, and by id where all names count as equal. */
  predicate InOrder(leq: Collation, a: seq<string>, i: int, b: seq<string>, j: int) {
    if a == [] || b == [] then a == [] && (b != [] || i <= j)
    else if !leq(b[0], a[0]) then true
    else if !leq(a[0], b[0]) then false
    else InOrder(leq, a[1..], i, b[1..], j)
  }

  function ListOrder(leq: Collation): (Row, Row) -> bool {
    (x: Row, y: Row) => InOrder(leq, x.names, x.id, y.names, y.id)
  }

  lemma {:induction false} InOrderTotal(leq: Collation, a: seq<string>, i: int, b: seq<string>, j: int)
    requires Collates(leq)
    ensures InOrder(leq, a, i, b, j) || InOrder(leq, b, j, a, i)
    ensures InOrder(leq, a, i, b, j) && InOrder(leq, b, j, a, i) ==> i == j
  {
    if a != [] && b != [] {
      InOrderTotal(leq, a[1..], i, b[1..], j);
    }
  }

  lemma {:induction false} InOrderTransitive(
    leq: Collation, a: seq<string>, i: int, b: seq<string>, j: int, c: seq<string>, k: int)
    requires Collates(leq) && InOrder(leq, a, i, b, j) && InOrder(leq, b, j, c, k)
    ensures InOrder(leq, a, i, c, k)
  {
    if a != [] && b != [] && c != [] && leq(b[0], a[0]) && leq(c[0], b[0]) {
      InOrderTransitive(leq, a[1..], i, b[1..], j, c[1..], k);
    }
  }

  predicate Ties(leq: Collation, x: string, y: string) { leq(x, y) && leq(y, x) }

  /** The names count as equal up to the k-th, and there the first comes strictly before the second. */
  ghost predicate BeforeAt(leq: Collation, a: seq<string>, b: seq<string>, k: nat) {
    && k < |a| && k < |b| && !leq(b[k], a[k])
    && forall l :: 0 <= l < k ==> Ties(leq, a[l], b[l])
  }

  /** For rows of one table: strictly before at the first name that differs, or all alike and the smaller id. */
  lemma {:induction false} InOrderExact(leq: Collation, a: seq<string>, i: int, b: seq<string>, j: int)
    requires Collates(leq) && |a| == |b|
    ensures
      InOrder(leq, a, i, b, j) <==>
        || (exists k: nat :: BeforeAt(leq, a, b, k))
        || (i <= j && forall l :: 0 <= l < |a| ==> Ties(leq, a[l], b[l]))
  {
    if a != [] {
      InOrderExact(leq, a[1..], i, b[1..], j);
      if Ties(leq, a[0], b[0]) {
        forall k: nat
          ensures BeforeAt(leq, a, b, k + 1) <==> BeforeAt(leq, a[1..], b[1..], k)
        {
          assert BeforeAt(leq, a[1..], b[1..], k) ==>
              forall l :: 1 <= l < k + 1 ==> a[l] == a[1..][l - 1] && b[l] == b[1..][l - 1];
          assert BeforeAt(leq, a, b, k + 1) ==>
              forall l :: 0 <= l < k ==> a[1..][l] == a[l + 1] && b[1..][l] == b[l + 1];
        }
        assert !BeforeAt(leq, a, b, 0);
        if k: nat :| BeforeAt(leq, a, b, k) {
          assert BeforeAt(leq, a[1..], b[1..], k - 1);
        }
      } else if !leq(b[0], a[0]) {
        assert BeforeAt(leq, a, b, 0);
      }
    }
  }

  ghost predicate UniqueIds(rows: seq<Row>) {
    forall i, j :: 0 <= i < j < |rows| ==> rows[i].id != rows[j].id
  }

  /** The id at the end makes the order of a table's rows total. */
  lemma ListOrderTotal(leq: Collation, rows: seq<Row>)
    requires Collates(leq) && UniqueIds(rows)
    ensures TotalOn(ListOrder(leq), rows)
  {
    var order := ListOrder(leq);
    forall x, y | x in rows && y in rows
      ensures order(x, y) || order(y, x)
      ensures order(x, y) && order(y, x) ==> x == y
    {
      InOrderTotal(leq, x.names, x.id, y.names, y.id);
    }
    forall x, y, z | x in rows && y in rows && z in rows && order(x, y) && order(y, z)
      ensures order(x, z)
    {
      InOrderTransitive(leq, x.names, x.id, y.names, y.id, z.names, z.id);
    }
  }

  // The listing

  function Live(rows: seq<Row>): seq<Row> {
    if rows == [] then [] else (if rows[0].deleted then [] else [rows[0]]) + Live(rows[1..])
  }

  /** One answer of the list query, before its window: the live rows, in order. */
  ghost predicate Lists(listing: seq<Row>, rows: seq<Row>, leq: Collation) {
    && multiset(listing) == multiset(Live(rows))
    && forall i, j :: 0 <= i < j < |listing| ==> ListOrder(leq)(listing[i], listing[j])
  }

  lemma {:induction false} LiveExact(rows: seq<Row>)
    requires UniqueIds(rows)
    ensures UniqueIds(Live(rows))
    ensures forall row :: row in Live(rows) <==> row in rows && !row.deleted
  {
    if rows != [] {
      var rest := rows[1..];
      assert UniqueIds(rest) by {
        assert forall i :: 0 <= i < |rest| ==> rest[i] == rows[i + 1];
      }
      LiveExact(rest);
      forall row | row in rest
        ensures row.id != rows[0].id
      {
        var k :| 0 <= k < |rest| && rest[k] == row;
        assert rows[k + 1] == row;
      }
      forall j | 0 <= j < |Live(rest)|
        ensures Live(rest)[j].id != rows[0].id
      {
        assert Live(rest)[j] in Live(rest);
      }
    }
  }

  /** Any answer holds each live row once, strictly in order. */
  lemma ListingExact(listing: seq<Row>, rows: seq<Row>, leq: Collation)
    requires Collates(leq) && UniqueIds(rows) && Lists(listing, rows, leq)
    ensures Ascending(listing, ListOrder(leq))
    ensures forall row :: row in listing <==> row in rows && !row.deleted
  {
    LiveExact(rows);
    OnceEach(Live(rows));
    forall row
      ensures row in listing <==> row in Live(rows)
    {
      assert row in multiset(listing) <==> row in multiset(Live(rows));
    }
    forall i, j | 0 <= i < j < |listing|
      ensures listing[i] != listing[j]
    {
      if listing[i] == listing[j] {
        Twice(listing, i, j);
      }
    }
  }

  /** So all answers over the same table are the same. */
  lemma ListingUnique(a: seq<Row>, b: seq<Row>, rows: seq<Row>, leq: Collation)
    requires Collates(leq) && UniqueIds(rows) && Lists(a, rows, leq) && Lists(b, rows, leq)
    ensures a == b
  {
    ListingExact(a, rows, leq);
    ListingExact(b, rows, leq);
    ListOrderTotal(leq, rows);
    AscendingUnique(a, b, ListOrder(leq), rows);
  }

  /** And there is one. */
  lemma ListingExists(rows: seq<Row>, leq: Collation)
    requires Collates(leq) && UniqueIds(rows)
    ensures Lists(SortDistinct(Live(rows), ListOrder(leq)), rows, leq)
  {
    var listing := SortDistinct(Live(rows), ListOrder(leq));
    LiveExact(rows);
    ListOrderTotal(leq, rows);
    SortDistinctAscending(Live(rows), ListOrder(leq), rows);
    OnceEach(Live(rows));
    OnceEach(listing);
  }

  // Pages

  /** LIMIT and OFFSET on an ordered listing. */
  function Page<T>(listing: seq<T>, limit: nat, offset: nat): seq<T> {
    if offset >= |listing| then []
    else if offset + limit >= |listing| then listing[offset..]
    else listing[offset..offset + limit]
  }

  function Offset(limit: nat, page: nat): nat {
    if page == 0 then 0 else Offset(limit, page - 1) + limit
  }

  /** The first pages of one listing at offsets 0, limit, 2 * limit and so on, one after the other. */
  function Pages<T>(listing: seq<T>, limit: nat, pages: nat): seq<T> {
    if pages == 0 then []
    else Pages(listing, limit, pages - 1) + Page(listing, limit, Offset(limit, pages - 1))
  }

  lemma NextPage<T>(listing: seq<T>, limit: nat, offset: nat)
    ensures
      (if offset >= |listing| then listing else listing[..offset]) + Page(listing, limit, offset)
      == if offset + limit >= |listing| then listing else listing[..offset + limit]
  {
    if offset < |listing| {
      assert offset + limit >= |listing| ==> listing[..offset] + listing[offset..] == listing;
      assert offset + limit < |listing| ==>
          listing[..offset] + listing[offset..offset + limit] == listing[..offset + limit];
    }
  }

  lemma {:induction false} PagesArePrefix<T>(listing: seq<T>, limit: nat, pages: nat)
    ensures
      var end := Offset(limit, pages);
      Pages(listing, limit, pages) == if end >= |listing| then listing else listing[..end]
  {
    if pages > 0 {
      PagesArePrefix(listing, limit, pages - 1);
      NextPage(listing, limit, Offset(limit, pages - 1));
    }
  }

  /** The pages as requested: each request writes its limit and offset as text and runs the query anew. */
  function Requested(listings: seq<seq<Row>>, limit: nat): seq<Row> {
    if listings == [] then []
    else
      var page := |listings| - 1;
      Requested(listings[..page], limit)
      + Page(listings[page], LimitOf(Decimal(limit)), OffsetOf(Decimal(Offset(limit, page))))
  }

  /** What the last request adds: its page, or the first one again when its offset is beyond 32 bits. */
  lemma LastAnswer(listings: seq<seq<Row>>, limit: nat)
    requires 1 <= limit <= MAX_LIMIT && listings != []
    ensures
      var page := |listings| - 1;
      var offset := Offset(limit, page);
      Requested(listings, limit)
      == Requested(listings[..page], limit) + Page(listings[page], limit, if offset <= INT32_MAX then offset else 0)
  {
    WindowReadBack(limit, Offset(limit, |listings| - 1));
  }

  ghost predicate AllAre(listings: seq<seq<Row>>, listing: seq<Row>) {
    forall i :: 0 <= i < |listings| ==> listings[i] == listing
  }

  /** While the offsets fit 32 bits, the requests get the pages. */
  lemma {:induction false} RequestedPages(listings: seq<seq<Row>>, listing: seq<Row>, limit: nat)
    requires 1 <= limit <= MAX_LIMIT
    requires AllAre(listings, listing)
    requires listings != [] ==> Offset(limit, |listings| - 1) <= INT32_MAX
    ensures Requested(listings, limit) == Pages(listing, limit, |listings|)
  {
    if listings != [] {
      RequestedPages(listings[..|listings| - 1], listing, limit);
      LastAnswer(listings, limit);
    }
  }

  lemma FirstPage(listing: seq<Row>, limit: nat)
    requires listing != [] && limit > 0
    ensures multiset(Page(listing, limit, 0))[listing[0]] >= 1
  {
    assert Page(listing, limit, 0)[0] == listing[0];
  }

  /** Beyond, the first page comes again. */
  lemma {:induction false} FirstRowTwice(listings: seq<seq<Row>>, listing: seq<Row>, limit: nat)
    requires 1 <= limit <= MAX_LIMIT && listing != []
    requires AllAre(listings, listing)
    ensures listings != [] ==> multiset(Requested(listings, limit))[listing[0]] >= 1
    ensures listings != [] && Offset(limit, |listings| - 1) > INT32_MAX ==>
      multiset(Requested(listings, limit))[listing[0]] >= 2
  {
    if listings != [] {
      FirstRowTwice(listings[..|listings| - 1], listing, limit);
      LastAnswer(listings, limit);
      FirstPage(listing, limit);
    }
  }

  /**
    One query for each page up to the end of the table: together the pages are the listing, and so
    hold each live row exactly once and in order, exactly as long as the table has no live row or
    the last offset fits 32 bits.
   */
  lemma PagesPartition(listings: seq<seq<Row>>, rows: seq<Row>, leq: Collation, limit: nat)
    requires Collates(leq) && UniqueIds(rows) && 1 <= limit <= MAX_LIMIT
    requires listings != [] && forall l <- listings :: Lists(l, rows, leq)
    requires Offset(limit, |listings|) >= |Live(rows)|
    ensures
      var fits := Live(rows) == [] || Offset(limit, |listings| - 1) <= INT32_MAX;
      && (Requested(listings, limit) == listings[0] <==> fits)
      && (multiset(Requested(listings, limit)) == multiset(Live(rows)) <==> fits)
  {
    var listing := listings[0];
    assert listing in listings;
    forall i | 0 <= i < |listings|
      ensures listings[i] == listing
    {
      assert listings[i] in listings;
      ListingUnique(listings[i], listing, rows, leq);
    }
    assert |listing| == |multiset(listing)| == |multiset(Live(rows))| == |Live(rows)|;
    LiveExact(rows);
    OnceEach(Live(rows));
    if listing == [] {
      NothingRequested(listings, limit);
    } else {
      FirstRowTwice(listings, listing, limit);
      if Offset(limit, |listings| - 1) <= INT32_MAX {
        RequestedPages(listings, listing, limit);
        PagesArePrefix(listing, limit, |listings|);
      }
    }
  }

  lemma {:induction false} NothingRequested(listings: seq<seq<Row>>, limit: nat)
    requires AllAre(listings, [])
    ensures Requested(listings, limit) == []
  {
    if listings != [] {
      NothingRequested(listings[..|listings| - 1], limit);
    }
  }

  /** A table of n live users of one name, numbered from zero. */
  function Numbered(n: nat): seq<Row> {
    seq(n, i => Row(["Muster", "Kim"], i, false))
  }

  lemma {:induction false} SameNames(leq: Collation, a: seq<string>, i: int, j: int)
    requires Collates(leq) && i <= j
    ensures InOrder(leq, a, i, a, j)
  {
    if a != [] {
      SameNames(leq, a[1..], i, j);
    }
  }

  lemma {:induction false} AllLive(rows: seq<Row>)
    requires forall row <- rows :: !row.deleted
    ensures Live(rows) == rows
  {
    if rows != [] {
      assert rows[0] in rows && forall row :: row in rows[1..] ==> row in rows;
      AllLive(rows[1..]);
    }
  }

  lemma NumberedListing(n: nat, leq: Collation)
    requires Collates(leq)
    ensures UniqueIds(Numbered(n)) && Live(Numbered(n)) == Numbered(n) && Lists(Numbered(n), Numbered(n), leq)
  {
    var rows := Numbered(n);
    AllLive(rows);
    forall i, j | 0 <= i < j < |rows|
      ensures ListOrder(leq)(rows[i], rows[j])
    {
      SameNames(leq, rows[i].names, rows[i].id, rows[j].id);
    }
  }

  lemma {:induction false} OffsetByOne(page: nat)
    ensures Offset(1, page) == page
  {
    if page > 0 {
      OffsetByOne(page - 1);
    }
  }

  /** More than 2^31 rows, one to a page: the pages do not hold each row once. */
  lemma HugeTable(n: nat, leq: Collation)
    requires Collates(leq) && n > INT32_MAX + 1
    ensures
      var rows := Numbered(n);
      var listings := seq(n, _ => rows);
      && Lists(rows, rows, leq) && Offset(1, n) == |rows|
      && Requested(listings, 1) != rows && multiset(Requested(listings, 1))[rows[0]] >= 2
  {
    var rows := Numbered(n);
    var listings := seq(n, _ => rows);
    NumberedListing(n, leq);
    OffsetByOne(n);
    OffsetByOne(n - 1);
    TwiceWhenHuge(n, rows, leq);
  }

  lemma TwiceWhenHuge(n: nat, rows: seq<Row>, leq: Collation)
    requires Collates(leq) && UniqueIds(rows) && Lists(rows, rows, leq) && rows != []
    requires Offset(1, n) >= |Live(rows)| && n > 0 && Offset(1, n - 1) > INT32_MAX
    ensures
      var listings := seq(n, _ => rows);
      Requested(listings, 1) != rows && multiset(Requested(listings, 1))[rows[0]] >= 2
  {
    var listings := seq(n, _ => rows);
    assert listings[0] == rows && AllAre(listings, rows);
    assert Live(rows) != [] by {
      assert multiset(rows) == multiset(Live(rows));
      assert rows[0] in multiset(Live(rows));
    }
    PagesPartition(listings, rows, leq, 1);
    FirstRowTwice(listings, rows, 1);
  }
}
