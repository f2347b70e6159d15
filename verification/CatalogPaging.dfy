/**
 Keyset and OFFSET pagination of the catalog.  A row is its composite key (created_at, id): other
 columns travel with it.  A table is a finite set of rows, and may be a different one for every
 page of a walk.  The cursor token is taken as the key it encodes.
 */
module CatalogPaging {
  import opened Orders
  import opened Wrappers

  datatype Row = Row(createdAt: int, id: int)

  /** ORDER BY created_at DESC, id DESC. */
  predicate Before(a: Row, b: Row) {
    a.createdAt > b.createdAt || (a.createdAt == b.createdAt && a.id > b.id)
  }

  lemma BeforeIsStrictTotal()
    ensures StrictTotal(Before)
  {}

  function Ordered(table: set<Row>): (rows: seq<Row>)
    ensures Sorted(rows, Before) && (forall r :: r in rows <==> r in table) && |rows| == |table|
  {
    BeforeIsStrictTotal();
    Ascending(table, Before)
  }

  function Take<T>(xs: seq<T>, n: nat): seq<T> {
    if n <= |xs| then xs[..n] else xs
  }

  /** WHERE (created_at, id) < cursor. */
  predicate After(cursor: Option<Row>, r: Row) {
    cursor.Some? ==> Before(cursor.value, r)
  }

  function Seek(table: set<Row>, cursor: Option<Row>): set<Row> {
    set r | r in table && After(cursor, r)
  }

  datatype Page = Page(items: seq<Row>, hasMore: bool, next: Option<Row>)

  function KeysetPage(table: set<Row>, limit: nat, cursor: Option<Row>): Page {
    var fetched := Take(Ordered(Seek(table, cursor)), limit + 1);
    var hasMore := |fetched| > limit;
    var items := Take(fetched, limit);
    var next := if hasMore && items != [] then Some(items[|items| - 1]) else None;
    Page(items, hasMore, next)
  }

  function OffsetPage(table: set<Row>, limit: nat, offset: nat): seq<Row> {
    var rows := Ordered(table);
    if offset <= |rows| then Take(rows[offset..], limit) else []
  }

  /** A page lists newer rows first, and among rows of one time those with larger ids. */
  lemma NewestFirst(table: set<Row>, limit: nat, cursor: Option<Row>, i: nat, j: nat)
    requires i < j < |KeysetPage(table, limit, cursor).items|
    ensures var a, b := KeysetPage(table, limit, cursor).items[i], KeysetPage(table, limit, cursor).items[j];
            a.createdAt > b.createdAt || (a.createdAt == b.createdAt && a.id > b.id)
  {
    var rows := Ordered(Seek(table, cursor));
    assert KeysetPage(table, limit, cursor).items == Take(rows, limit);
  }

  /** An OFFSET page skips `offset` rows and has the next `limit` of them, none past the end. */
  lemma OffsetPageIs(table: set<Row>, limit: nat, offset: nat)
    ensures var rows, page := Ordered(table), OffsetPage(table, limit, offset);
            && (offset >= |table| ==> page == [])
            && (offset < |table| ==> |page| == if limit <= |table| - offset then limit else |table| - offset)
            && forall i :: 0 <= i < |page| ==> offset + i < |rows| && page[i] == rows[offset + i]
  {}

  // ----- One page -----

  /** A page holds exactly the rows of its table between its cursor and the cursor it hands out. */
  lemma PageIsExact(table: set<Row>, limit: nat, cursor: Option<Row>, r: Row)
    requires limit >= 1
    ensures var p := KeysetPage(table, limit, cursor);
            r in p.items <==> r in table && After(cursor, r) && (p.next.Some? ==> !After(p.next, r))
  {
    var rows := Ordered(Seek(table, cursor));
    var p := KeysetPage(table, limit, cursor);
    assert p.items == Take(rows, limit);
    if r in rows && p.next.Some? {
      var i :| 0 <= i < |rows| && rows[i] == r;
      assert p.next.value == rows[limit - 1];
      assert i < limit ==> rows[..limit][i] == r;
    }
  }

  lemma PageInOrder(table: set<Row>, limit: nat, cursor: Option<Row>)
    ensures var p := KeysetPage(table, limit, cursor);
            && |p.items| <= limit && Sorted(p.items, Before)
            && (p.next.Some? ==> p.items != [] && p.items[|p.items| - 1] == p.next.value && p.hasMore)
            && forall i :: 0 <= i < |p.items| ==> After(cursor, p.items[i]) && p.items[i] in table
  {
    var rows := Ordered(Seek(table, cursor));
    var p := KeysetPage(table, limit, cursor);
    assert p.items == Take(rows, limit);
    forall i | 0 <= i < |p.items| ensures After(cursor, p.items[i]) && p.items[i] in table {
      assert p.items[i] == rows[i] && rows[i] in rows;
    }
  }

  /** With limit 0 the page claims more rows but hands out no cursor to reach them. */
  lemma ZeroLimitStops(table: set<Row>)
    requires table != {}
    ensures KeysetPage(table, 0, None) == Page([], true, None)
  {}

  // ----- A walk over changing tables -----

  /** The rows returned by following cursors, the i-th page being read from `tables[i]`. */
  ghost function Walk(tables: seq<set<Row>>, limit: nat, cursor: Option<Row>): seq<Row> {
    if tables == [] then []
    else
      var p := KeysetPage(tables[0], limit, cursor);
      if p.next.Some? then p.items + Walk(tables[1..], limit, p.next) else p.items
  }

  /** The walk has come to a page without a next cursor. */
  ghost predicate Finished(tables: seq<set<Row>>, limit: nat, cursor: Option<Row>) {
    tables != [] &&
    var p := KeysetPage(tables[0], limit, cursor);
    p.next.Some? ==> Finished(tables[1..], limit, p.next)
  }

  lemma SortedJoin(xs: seq<Row>, ys: seq<Row>)
    requires Sorted(xs, Before) && Sorted(ys, Before)
    requires xs != [] ==> forall j :: 0 <= j < |ys| ==> Before(xs[|xs| - 1], ys[j])
    ensures Sorted(xs + ys, Before)
  {}

  lemma AllAfterJoin(xs: seq<Row>, ys: seq<Row>, cursor: Option<Row>)
    requires xs != [] && AllAfter(xs, cursor) && AllAfter(ys, Some(xs[|xs| - 1]))
    ensures AllAfter(xs + ys, cursor)
  {}

  ghost predicate AllAfter(xs: seq<Row>, cursor: Option<Row>) {
    forall i :: 0 <= i < |xs| ==> After(cursor, xs[i])
  }

  /** Whatever happens to the table between pages, rows come out in strictly descending order. */
  lemma {:induction false} WalkDescends(tables: seq<set<Row>>, limit: nat, cursor: Option<Row>)
    ensures Sorted(Walk(tables, limit, cursor), Before) && AllAfter(Walk(tables, limit, cursor), cursor)
  {
    hide KeysetPage;
    if tables != [] {
      var p := KeysetPage(tables[0], limit, cursor);
      PageInOrder(tables[0], limit, cursor);
      if p.next.Some? {
        var rest := Walk(tables[1..], limit, p.next);
        WalkDescends(tables[1..], limit, p.next);
        SortedJoin(p.items, rest);
        AllAfterJoin(p.items, rest, cursor);
        assert Walk(tables, limit, cursor) == p.items + rest;
      }
    }
  }

  lemma WalkNeverRepeats(tables: seq<set<Row>>, limit: nat, cursor: Option<Row>)
    ensures Distinct(Walk(tables, limit, cursor))
  {
    WalkDescends(tables, limit, cursor);
    BeforeIsStrictTotal();
    SortedIsDistinct(Walk(tables, limit, cursor), Before);
  }

  /** A finished walk has returned every row that was there all along. */
  lemma {:induction false} WalkMissesNothing(tables: seq<set<Row>>, limit: nat, cursor: Option<Row>, r: Row)
    requires limit >= 1 && Finished(tables, limit, cursor) && After(cursor, r)
    requires forall i :: 0 <= i < |tables| ==> r in tables[i]
    ensures r in Walk(tables, limit, cursor)
  {
    var p := KeysetPage(tables[0], limit, cursor);
    PageIsExact(tables[0], limit, cursor, r);
    if r !in p.items {
      WalkMissesNothing(tables[1..], limit, p.next, r);
    }
  }

  /** Every row returned was in the table its page was read from. */
  lemma {:induction false} WalkInventsNothing(tables: seq<set<Row>>, limit: nat, cursor: Option<Row>, r: Row)
    requires r in Walk(tables, limit, cursor)
    ensures exists i :: 0 <= i < |tables| && r in tables[i]
  {
    var p := KeysetPage(tables[0], limit, cursor);
    PageInOrder(tables[0], limit, cursor);
    if r in p.items {
      var i :| 0 <= i < |p.items| && p.items[i] == r;
    } else {
      WalkInventsNothing(tables[1..], limit, p.next, r);
      var i :| 0 <= i < |tables[1..]| && r in tables[1..][i];
      assert tables[i + 1] == tables[1..][i];
    }
  }

  // ----- A walk over a table that does not change -----

  ghost function CursorAt(table: set<Row>, offset: nat): Option<Row>
    requires offset <= |Ordered(table)|
  {
    if offset == 0 then None else Some(Ordered(table)[offset - 1])
  }

  lemma AfterIffIndex(table: set<Row>, offset: nat, i: nat)
    requires offset <= |Ordered(table)| && i < |Ordered(table)|
    ensures After(CursorAt(table, offset), Ordered(table)[i]) <==> i >= offset
  {}

  lemma SeekSkips(table: set<Row>, offset: nat)
    requires offset <= |Ordered(table)|
    ensures Ordered(Seek(table, CursorAt(table, offset))) == Ordered(table)[offset..]
  {
    var rows := Ordered(table);
    var found := Ordered(Seek(table, CursorAt(table, offset)));
    hide Ordered, After, Sorted, CursorAt;
    forall r ensures r in found <==> r in rows[offset..] {
      if r in rows {
        var i :| 0 <= i < |rows| && rows[i] == r;
        AfterIffIndex(table, offset, i);
        if i >= offset { assert rows[offset..][i - offset] == r; }
        if r in rows[offset..] {
          var j :| 0 <= j < |rows[offset..]| && rows[offset..][j] == r;
          AfterIffIndex(table, offset, offset + j);
        }
      }
    }
    SuffixSorted(rows, offset);
    BeforeIsStrictTotal();
    SortedUnique(found, rows[offset..], Before);
  }

  lemma SuffixSorted(rows: seq<Row>, k: nat)
    requires Sorted(rows, Before) && k <= |rows|
    ensures Sorted(rows[k..], Before)
  {}

  /** The keyset page that starts after `offset` rows is the OFFSET page at `offset`. */
  lemma KeysetIsOffset(table: set<Row>, limit: nat, offset: nat)
    requires limit >= 1 && offset <= |Ordered(table)|
    ensures var p := KeysetPage(table, limit, CursorAt(table, offset));
            && p.items == OffsetPage(table, limit, offset)
            && (p.hasMore <==> offset + limit < |table|)
            && p.next == (if offset + limit < |table| then CursorAt(table, offset + limit) else None)
  {
    SeekSkips(table, offset);
    hide Ordered, Seek, Sorted, After, Take;
    var rest := Ordered(table)[offset..];
    TakeOneMore(rest, limit);
    assert |rest| > limit ==> rest[limit - 1] == Ordered(table)[offset + limit - 1];
  }

  /** A page fetched with one row to spare. */
  lemma TakeOneMore(rest: seq<Row>, limit: nat)
    requires limit >= 1
    ensures Take(Take(rest, limit + 1), limit) == Take(rest, limit)
    ensures |Take(rest, limit + 1)| > limit <==> |rest| > limit
    ensures |rest| > limit ==> |Take(rest, limit)| == limit && Take(rest, limit)[limit - 1] == rest[limit - 1]
  {}

  /** How many rows `n` pages can hold. */
  ghost function Capacity(n: nat, limit: nat): nat {
    n * limit
  }

  /** On a fixed table the walk ends after ceil(n / limit) pages and has then listed the table. */
  lemma {:induction false} FixedWalk(tables: seq<set<Row>>, table: set<Row>, limit: nat, offset: nat)
    requires limit >= 1 && offset <= |Ordered(table)|
    requires forall i :: 0 <= i < |tables| ==> tables[i] == table
    ensures Finished(tables, limit, CursorAt(table, offset)) <==>
              tables != [] && offset + Capacity(|tables|, limit) >= |table|
    ensures Finished(tables, limit, CursorAt(table, offset)) ==>
              Walk(tables, limit, CursorAt(table, offset)) == Ordered(table)[offset..]
  {
    hide KeysetPage, Ordered, Sorted, OffsetPage, Capacity;
    if tables != [] {
      assert tables[0] == table;
      var here := CursorAt(table, offset);
      KeysetIsOffset(table, limit, offset);
      OffsetSplits(table, limit, offset);
      PagesLeft(|tables|, limit);
      if offset + limit < |table| {
        var there := CursorAt(table, offset + limit);
        FixedWalk(tables[1..], table, limit, offset + limit);
        assert Finished(tables, limit, here) == Finished(tables[1..], limit, there);
        assert Walk(tables, limit, here) == OffsetPage(table, limit, offset) + Walk(tables[1..], limit, there);
      } else {
        assert Finished(tables, limit, here);
        assert Walk(tables, limit, here) == OffsetPage(table, limit, offset);
      }
    }
  }

  lemma PagesLeft(n: nat, limit: nat)
    requires n > 0
    ensures Capacity(n, limit) == Capacity(n - 1, limit) + limit && Capacity(0, limit) == 0
  {}

  lemma OffsetSplits(table: set<Row>, limit: nat, offset: nat)
    requires offset <= |Ordered(table)|
    ensures offset + limit < |table| ==>
              Ordered(table)[offset..] == OffsetPage(table, limit, offset) + Ordered(table)[offset + limit..]
    ensures offset + limit >= |table| ==> OffsetPage(table, limit, offset) == Ordered(table)[offset..]
  {}
}
