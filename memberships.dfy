/**
 * The book-in-shelf table: one row per (shelf, book) with an integer `order`
 * that places the book within its shelf. Each function here stands for one query
 * that the handlers issue against the table.
 */
module Memberships {
  import opened Wrappers

  /** One row of the book-in-shelf table. */
  datatype Membership = Membership(shelf: nat, bookId: nat, order: int)

  /** The query "is there a row for this shelf and this book?". */
  predicate InShelf(rows: seq<Membership>, shelf: nat, bookId: nat)
  {
    exists i :: 0 <= i < |rows| && rows[i].shelf == shelf && rows[i].bookId == bookId
  }

  /** No (shelf, book) pair is stored twice, which the duplicate check before every insert keeps. */
  predicate NoDuplicatePairs(rows: seq<Membership>)
  {
    forall i, j :: 0 <= i < j < |rows| ==>
      rows[i].shelf != rows[j].shelf || rows[i].bookId != rows[j].bookId
  }

  /** The rows of one shelf, in the order they were inserted. */
  function RowsOf(rows: seq<Membership>, shelf: nat): seq<Membership>
  {
    if rows == [] then []
    else
      var init := RowsOf(rows[..|rows| - 1], shelf);
      if rows[|rows| - 1].shelf == shelf then init + [rows[|rows| - 1]] else init
  }

  lemma {:induction false} RowsOfMembers(rows: seq<Membership>, shelf: nat)
    ensures forall x :: x in RowsOf(rows, shelf) <==> x in rows && x.shelf == shelf
  {
    if rows != [] {
      RowsOfMembers(rows[..|rows| - 1], shelf);
      assert rows == rows[..|rows| - 1] + [rows[|rows| - 1]];
    }
  }

  /** A shelf that no row names has no rows. */
  lemma {:induction false} RowsOfAbsent(rows: seq<Membership>, shelf: nat)
    requires forall i :: 0 <= i < |rows| ==> rows[i].shelf != shelf
    ensures RowsOf(rows, shelf) == []
  {
    if rows != [] {
      RowsOfAbsent(rows[..|rows| - 1], shelf);
    }
  }

  /** SQL's `MAX(order)` over some rows: NULL when there are none. */
  function SqlMaxOrder(rs: seq<Membership>): (m: Option<int>)
    ensures m.None? <==> rs == []
    ensures m.Some? ==> forall x :: x in rs ==> x.order <= m.value
    ensures m.Some? ==> exists x :: x in rs && x.order == m.value
  {
    if rs == [] then None
    else
      var last := rs[|rs| - 1];
      match SqlMaxOrder(rs[..|rs| - 1])
      case None => Some(last.order)
      case Some(v) => Some(if v < last.order then last.order else v)
  }

  /**
   * `max(order) ... or 0` for one shelf: the largest order among its rows, 0 when
   * it has none (a stored maximum of 0 also yields 0, so the two readings agree).
   */
  function MaxOrder(rows: seq<Membership>, shelf: nat): (m: int)
    ensures (forall x :: x in rows ==> x.shelf != shelf) ==> m == 0
    ensures forall x :: x in rows && x.shelf == shelf ==> x.order <= m
    ensures (exists x :: x in rows && x.shelf == shelf) ==>
      exists x :: x in rows && x.shelf == shelf && x.order == m
  {
    RowsOfMembers(rows, shelf);
    SqlMaxOrder(RowsOf(rows, shelf)).GetOr(0)
  }

  /**
   * The row a successful add appends: the order is one above the shelf's largest,
   * so the new book goes after every book already on the shelf, and an empty shelf
   * starts at 1.
   */
  function NextEntry(rows: seq<Membership>, shelf: nat, bookId: nat): (e: Membership)
    ensures e.shelf == shelf && e.bookId == bookId
    ensures forall x :: x in rows && x.shelf == shelf ==> x.order < e.order
    ensures (forall x :: x in rows ==> x.shelf != shelf) ==> e.order == 1
    ensures (exists x :: x in rows && x.shelf == shelf) ==>
      exists x :: x in rows && x.shelf == shelf && x.order + 1 == e.order
  {
    Membership(shelf, bookId, MaxOrder(rows, shelf) + 1)
  }

  /** Appending a pair that is not yet stored keeps every pair unique. */
  lemma AppendKeepsNoDuplicates(rows: seq<Membership>, e: Membership)
    requires NoDuplicatePairs(rows) && !InShelf(rows, e.shelf, e.bookId)
    ensures NoDuplicatePairs(rows + [e])
    ensures InShelf(rows + [e], e.shelf, e.bookId)
  {
    assert (rows + [e])[|rows|] == e;
  }

  /** Along the table, the orders of one shelf's rows strictly increase. */
  predicate OrdersIncrease(rows: seq<Membership>)
  {
    forall i, j :: 0 <= i < j < |rows| && rows[i].shelf == rows[j].shelf ==> rows[i].order < rows[j].order
  }

  /** Appending the row a successful add computes keeps every shelf's orders increasing. */
  lemma AppendKeepsOrdersIncreasing(rows: seq<Membership>, shelf: nat, bookId: nat)
    requires OrdersIncrease(rows)
    ensures OrdersIncrease(rows + [NextEntry(rows, shelf, bookId)])
  {
    var e := NextEntry(rows, shelf, bookId);
    var r := rows + [e];
    forall i, j | 0 <= i < j < |r| && r[i].shelf == r[j].shelf ensures r[i].order < r[j].order {
      if j == |rows| {
        assert r[i] in rows;
      } else {
        assert r[i] == rows[i] && r[j] == rows[j];
      }
    }
  }

  /** The table after a run of successful adds of `books` to `shelf`, in that order. */
  function AppendAll(rows: seq<Membership>, shelf: nat, books: seq<nat>): seq<Membership>
  {
    if books == [] then rows
    else
      var before := AppendAll(rows, shelf, books[..|books| - 1]);
      before + [NextEntry(before, shelf, books[|books| - 1])]
  }

  lemma RowsOfSnoc(rows: seq<Membership>, shelf: nat, e: Membership)
    ensures RowsOf(rows + [e], shelf) == if e.shelf == shelf then RowsOf(rows, shelf) + [e] else RowsOf(rows, shelf)
  {
    assert (rows + [e])[..|rows|] == rows;
  }

  /**
   * Successive adds to a shelf that has no rows number its books 1, 2, 3, ... in
   * the order they were added: the orders strictly increase with insertion.
   */
  lemma {:induction false} SuccessiveAddsNumberFromOne(rows: seq<Membership>, shelf: nat, books: seq<nat>)
    requires RowsOf(rows, shelf) == []
    ensures |RowsOf(AppendAll(rows, shelf, books), shelf)| == |books|
    ensures forall i :: 0 <= i < |books| ==>
      RowsOf(AppendAll(rows, shelf, books), shelf)[i] == Membership(shelf, books[i], i + 1)
  {
    if books != [] {
      var n := |books|;
      var init := books[..n - 1];
      var before := AppendAll(rows, shelf, init);
      SuccessiveAddsNumberFromOne(rows, shelf, init);
      var prev := RowsOf(before, shelf);
      MaxOrderOfNumbered(prev, n - 1);
      var e := NextEntry(before, shelf, books[n - 1]);
      assert e == Membership(shelf, books[n - 1], n);
      RowsOfSnoc(before, shelf, e);
      var now := RowsOf(AppendAll(rows, shelf, books), shelf);
      assert now == prev + [e];
      forall i | 0 <= i < n ensures now[i] == Membership(shelf, books[i], i + 1) {
        if i < n - 1 {
          assert now[i] == prev[i];
          assert books[i] == init[i];
        }
      }
    }
  }

  /** Rows numbered 1..k have maximum order k (0 when k is 0). */
  lemma MaxOrderOfNumbered(rs: seq<Membership>, k: nat)
    requires |rs| == k && forall i :: 0 <= i < k ==> rs[i].order == i + 1
    ensures SqlMaxOrder(rs).GetOr(0) == k
  {
    if k > 0 {
      var m := SqlMaxOrder(rs);
      assert rs[k - 1] in rs;
      var x :| x in rs && x.order == m.value;
    }
  }

  /** SQL's order-by: the rows sorted by `order` ascending. */
  predicate SortedByOrder(rs: seq<Membership>)
  {
    forall i, j :: 0 <= i < j < |rs| ==> rs[i].order <= rs[j].order
  }

  /** Places a row after every row of no larger order. */
  function InsertByOrder(e: Membership, rs: seq<Membership>): seq<Membership>
  {
    if rs == [] then [e]
    else if e.order < rs[0].order then [e] + rs
    else [rs[0]] + InsertByOrder(e, rs[1..])
  }

  /** Sorts rows by `order`, keeping the insertion order among equal orders. */
  function SortByOrder(rs: seq<Membership>): seq<Membership>
  {
    if rs == [] then []
    else InsertByOrder(rs[|rs| - 1], SortByOrder(rs[..|rs| - 1]))
  }

  lemma {:induction false} InsertByOrderMultiset(e: Membership, rs: seq<Membership>)
    ensures multiset(InsertByOrder(e, rs)) == multiset(rs) + multiset{e}
  {
    if rs != [] && e.order >= rs[0].order {
      InsertByOrderMultiset(e, rs[1..]);
      assert rs == [rs[0]] + rs[1..];
    }
  }

  lemma {:induction false} InsertByOrderCorrect(e: Membership, rs: seq<Membership>)
    requires SortedByOrder(rs)
    ensures SortedByOrder(InsertByOrder(e, rs))
    ensures multiset(InsertByOrder(e, rs)) == multiset(rs) + multiset{e}
  {
    InsertByOrderMultiset(e, rs);
    if rs != [] && e.order >= rs[0].order {
      InsertByOrderCorrect(e, rs[1..]);
      var tail := InsertByOrder(e, rs[1..]);
      InsertMembers(e, rs[1..]);
      var r := [rs[0]] + tail;
      forall i, j | 0 <= i < j < |r| ensures r[i].order <= r[j].order {
        if i == 0 {
          assert r[j] in tail;
        } else {
          assert r[i] == tail[i - 1] && r[j] == tail[j - 1];
        }
      }
    }
  }

  lemma {:induction false} SortByOrderCorrect(rs: seq<Membership>)
    ensures SortedByOrder(SortByOrder(rs))
    ensures multiset(SortByOrder(rs)) == multiset(rs)
  {
    if rs != [] {
      SortByOrderCorrect(rs[..|rs| - 1]);
      InsertByOrderCorrect(rs[|rs| - 1], SortByOrder(rs[..|rs| - 1]));
      assert rs == rs[..|rs| - 1] + [rs[|rs| - 1]];
    }
  }

  /** The rows whose book the catalog holds: the inner join with the book table. */
  function InCatalog(rs: seq<Membership>, catalog: set<nat>): seq<Membership>
  {
    if rs == [] then []
    else
      var init := InCatalog(rs[..|rs| - 1], catalog);
      if rs[|rs| - 1].bookId in catalog then init + [rs[|rs| - 1]] else init
  }

  lemma {:induction false} InCatalogMembers(rs: seq<Membership>, catalog: set<nat>)
    ensures forall x :: x in InCatalog(rs, catalog) <==> x in rs && x.bookId in catalog
  {
    if rs != [] {
      InCatalogMembers(rs[..|rs| - 1], catalog);
      assert rs == rs[..|rs| - 1] + [rs[|rs| - 1]];
    }
  }

  /** The joined rows of the shelf listing, ordered by `order` ascending. */
  function ShelfEntries(rows: seq<Membership>, shelf: nat, catalog: set<nat>): seq<Membership>
  {
    SortByOrder(InCatalog(RowsOf(rows, shelf), catalog))
  }

  /** The books the shelf page lists, in listing order. */
  function Listing(rows: seq<Membership>, shelf: nat, catalog: set<nat>): (books: seq<nat>)
  {
    var entries := ShelfEntries(rows, shelf, catalog);
    seq(|entries|, i requires 0 <= i < |entries| => entries[i].bookId)
  }

  /**
   * The listing holds each row of the shelf whose book is in the catalog, as many
   * times as it is stored, and no other, sorted by `order` ascending.
   */
  lemma ShelfEntriesCorrect(rows: seq<Membership>, shelf: nat, catalog: set<nat>)
    ensures SortedByOrder(ShelfEntries(rows, shelf, catalog))
    ensures multiset(ShelfEntries(rows, shelf, catalog)) == multiset(InCatalog(RowsOf(rows, shelf), catalog))
    ensures forall x :: x in ShelfEntries(rows, shelf, catalog) <==>
      x in rows && x.shelf == shelf && x.bookId in catalog
  {
    var joined := InCatalog(RowsOf(rows, shelf), catalog);
    SortByOrderCorrect(joined);
    InCatalogMembers(RowsOf(rows, shelf), catalog);
    RowsOfMembers(rows, shelf);
    forall x ensures x in SortByOrder(joined) <==> x in joined {
      assert x in SortByOrder(joined) <==> x in multiset(SortByOrder(joined));
    }
  }

  /** Orders that strictly increase along some rows. */
  predicate StrictlyByOrder(rs: seq<Membership>)
  {
    forall i, j :: 0 <= i < j < |rs| ==> rs[i].order < rs[j].order
  }

  lemma {:induction false} RowsOfIncreasing(rows: seq<Membership>, shelf: nat)
    requires OrdersIncrease(rows)
    ensures StrictlyByOrder(RowsOf(rows, shelf))
  {
    if rows != [] {
      var init := rows[..|rows| - 1];
      var last := rows[|rows| - 1];
      RowsOfIncreasing(init, shelf);
      RowsOfMembers(init, shelf);
      if last.shelf == shelf {
        var prev := RowsOf(init, shelf);
        forall x | x in prev ensures x.order < last.order {
          var k :| 0 <= k < |init| && init[k] == x;
          assert rows[k] == x;
        }
      }
    }
  }

  lemma {:induction false} InCatalogIncreasing(rs: seq<Membership>, catalog: set<nat>)
    requires StrictlyByOrder(rs)
    ensures StrictlyByOrder(InCatalog(rs, catalog))
  {
    if rs != [] {
      var init := rs[..|rs| - 1];
      InCatalogIncreasing(init, catalog);
      InCatalogMembers(init, catalog);
      var prev := InCatalog(init, catalog);
      forall x | x in prev ensures x.order < rs[|rs| - 1].order {
        var k :| 0 <= k < |init| && init[k] == x;
      }
    }
  }

  /** A row of no smaller order than all others goes last. */
  lemma {:induction false} InsertAtEnd(e: Membership, rs: seq<Membership>)
    requires forall x :: x in rs ==> x.order <= e.order
    ensures InsertByOrder(e, rs) == rs + [e]
  {
    if rs != [] {
      assert rs[0] in rs;
      InsertAtEnd(e, rs[1..]);
      assert rs == [rs[0]] + rs[1..];
    }
  }

  /** Sorting rows that are already in order changes nothing. */
  lemma {:induction false} SortedIsFixed(rs: seq<Membership>)
    requires SortedByOrder(rs)
    ensures SortByOrder(rs) == rs
  {
    if rs != [] {
      var init := rs[..|rs| - 1];
      SortedIsFixed(init);
      forall x | x in init ensures x.order <= rs[|rs| - 1].order {
        var k :| 0 <= k < |init| && init[k] == x;
      }
      InsertAtEnd(rs[|rs| - 1], init);
      assert rs == init + [rs[|rs| - 1]];
    }
  }

  /**
   * While each shelf's orders increase along the table, the listing is the shelf's
   * catalog rows in insertion order, so the order among equal orders never matters.
   */
  lemma ListingInInsertionOrder(rows: seq<Membership>, shelf: nat, catalog: set<nat>)
    requires OrdersIncrease(rows)
    ensures ShelfEntries(rows, shelf, catalog) == InCatalog(RowsOf(rows, shelf), catalog)
    ensures StrictlyByOrder(ShelfEntries(rows, shelf, catalog))
  {
    RowsOfIncreasing(rows, shelf);
    InCatalogIncreasing(RowsOf(rows, shelf), catalog);
    SortedIsFixed(InCatalog(RowsOf(rows, shelf), catalog));
  }

  /** A book is listed exactly when the catalog holds it and the shelf has a row for it. */
  lemma ListingContents(rows: seq<Membership>, shelf: nat, catalog: set<nat>, bookId: nat)
    ensures bookId in Listing(rows, shelf, catalog) <==> bookId in catalog && InShelf(rows, shelf, bookId)
  {
    ShelfEntriesCorrect(rows, shelf, catalog);
    var entries := ShelfEntries(rows, shelf, catalog);
    var books := Listing(rows, shelf, catalog);
    if bookId in books {
      var i :| 0 <= i < |books| && books[i] == bookId;
      assert entries[i] in entries;
      var j :| 0 <= j < |rows| && rows[j] == entries[i];
    }
    if bookId in catalog && InShelf(rows, shelf, bookId) {
      var j :| 0 <= j < |rows| && rows[j].shelf == shelf && rows[j].bookId == bookId;
      assert rows[j] in rows;
      var i :| 0 <= i < |entries| && entries[i] == rows[j];
      assert books[i] == bookId;
    }
  }

  /** No book appears twice among some rows. */
  predicate DistinctBooks(rs: seq<Membership>)
  {
    forall i, j :: 0 <= i < j < |rs| ==> rs[i].bookId != rs[j].bookId
  }

  lemma {:induction false} RowsOfDistinct(rows: seq<Membership>, shelf: nat)
    requires NoDuplicatePairs(rows)
    ensures DistinctBooks(RowsOf(rows, shelf))
  {
    if rows != [] {
      var init := rows[..|rows| - 1];
      var last := rows[|rows| - 1];
      RowsOfDistinct(init, shelf);
      RowsOfMembers(init, shelf);
      if last.shelf == shelf {
        var prev := RowsOf(init, shelf);
        forall x | x in prev ensures x.bookId != last.bookId {
          var k :| 0 <= k < |init| && init[k] == x;
          assert rows[k] == x;
        }
      }
    }
  }

  lemma {:induction false} InCatalogDistinct(rs: seq<Membership>, catalog: set<nat>)
    requires DistinctBooks(rs)
    ensures DistinctBooks(InCatalog(rs, catalog))
  {
    if rs != [] {
      var init := rs[..|rs| - 1];
      InCatalogDistinct(init, catalog);
      InCatalogMembers(init, catalog);
      var prev := InCatalog(init, catalog);
      forall x | x in prev ensures x.bookId != rs[|rs| - 1].bookId {
        var k :| 0 <= k < |init| && init[k] == x;
      }
    }
  }

  lemma {:induction false} InsertDistinct(e: Membership, rs: seq<Membership>)
    requires DistinctBooks(rs) && forall x :: x in rs ==> x.bookId != e.bookId
    ensures DistinctBooks(InsertByOrder(e, rs))
  {
    if rs != [] && e.order >= rs[0].order {
      InsertDistinct(e, rs[1..]);
      var tail := InsertByOrder(e, rs[1..]);
      InsertMembers(e, rs[1..]);
      forall x | x in tail ensures x.bookId != rs[0].bookId {
        if x != e {
          var k :| 0 <= k < |rs[1..]| && rs[1..][k] == x;
          assert rs[k + 1] == x;
        }
      }
    }
  }

  lemma {:induction false} InsertMembers(e: Membership, rs: seq<Membership>)
    ensures forall x :: x in InsertByOrder(e, rs) <==> x == e || x in rs
  {
    if rs != [] && e.order >= rs[0].order {
      InsertMembers(e, rs[1..]);
      assert rs == [rs[0]] + rs[1..];
    }
  }

  lemma {:induction false} SortByOrderDistinct(rs: seq<Membership>)
    requires DistinctBooks(rs)
    ensures DistinctBooks(SortByOrder(rs))
    ensures forall x :: x in SortByOrder(rs) <==> x in rs
  {
    if rs != [] {
      var init := rs[..|rs| - 1];
      var last := rs[|rs| - 1];
      SortByOrderDistinct(init);
      forall x | x in SortByOrder(init) ensures x.bookId != last.bookId {
        var k :| 0 <= k < |init| && init[k] == x;
      }
      InsertDistinct(last, SortByOrder(init));
      InsertMembers(last, SortByOrder(init));
      assert rs == init + [last];
    }
  }

  /** With every pair unique, no book is listed twice on a shelf page. */
  lemma ListingOnceEach(rows: seq<Membership>, shelf: nat, catalog: set<nat>)
    requires NoDuplicatePairs(rows)
    ensures forall i, j :: 0 <= i < j < |Listing(rows, shelf, catalog)| ==>
      Listing(rows, shelf, catalog)[i] != Listing(rows, shelf, catalog)[j]
  {
    RowsOfDistinct(rows, shelf);
    InCatalogDistinct(RowsOf(rows, shelf), catalog);
    SortByOrderDistinct(InCatalog(RowsOf(rows, shelf), catalog));
  }
}
