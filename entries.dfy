/** The journal entry record and the order the index page lists entries in:
    `ORDER BY date DESC, id DESC`. */
module Entries {
  import opened Dates

  /** A UTC timestamp, as the store's clock gives it when a row is inserted. */
  type Timestamp = int

  /** One row of the entry table. */
  datatype Entry = Entry(id: int, title: string, date: Date, content: string, createdAt: Timestamp)

  /** The table's rows by id. */
  type Rows = map<int, Entry>

  /** Every row is stored under its own id. */
  ghost predicate KeyedById(rows: Rows) {
    forall id :: id in rows ==> rows[id].id == id
  }

  /** `a` is a later calendar day than `b`. */
  predicate LaterDay(a: Date, b: Date) {
    || a.year > b.year
    || (a.year == b.year && a.month > b.month)
    || (a.year == b.year && a.month == b.month && a.day > b.day)
  }

  /** `a` is listed before `b`: it has the later date, or the same date and the larger id. */
  predicate ListedBefore(a: Entry, b: Entry) {
    LaterDay(a.date, b.date) || (a.date == b.date && a.id > b.id)
  }

  /** Entries with different ids are always listed one before the other, and
      never each before the other. */
  lemma ListedBeforeIsStrictTotal(a: Entry, b: Entry, c: Entry)
    ensures !ListedBefore(a, a)
    ensures ListedBefore(a, b) ==> !ListedBefore(b, a)
    ensures a.id != b.id ==> ListedBefore(a, b) || ListedBefore(b, a)
    ensures ListedBefore(a, b) && ListedBefore(b, c) ==> ListedBefore(a, c)
  {
  }

  /** The row under `k` comes first: it is listed before every other row. */
  predicate IsFirst(rows: Rows, k: int) {
    k in rows && forall j :: j in rows && j != k ==> ListedBefore(rows[k], rows[j])
  }

  /** `list` holds every row exactly once, in index-page order. */
  ghost predicate OrderedListing(list: seq<Entry>, rows: Rows) {
    && |list| == |rows|
    && (forall i :: 0 <= i < |list| ==> list[i].id in rows && rows[list[i].id] == list[i])
    && (forall id :: id in rows ==> rows[id] in list)
    && (forall i, j :: 0 <= i < j < |list| ==> ListedBefore(list[i], list[j]))
  }

  lemma RemoveOneRow(rows: Rows, k: int)
    requires k in rows
    ensures |rows - {k}| == |rows| - 1
  {
    assert (rows - {k}).Keys == rows.Keys - {k};
  }

  /** Some member of a non-empty set of ids. */
  lemma SomeId(ids: set<int>) returns (j: int)
    requires |ids| > 0
    ensures j in ids
  {
    assert (forall k :: k !in ids) ==> (forall k :: k in ids <==> k in {});
    j :| j in ids;
  }

  /** A non-empty table has a first row. */
  lemma {:induction false} FirstExists(rows: Rows)
    requires KeyedById(rows) && |rows| > 0
    ensures exists k :: IsFirst(rows, k)
    decreases |rows|
  {
    assert |rows.Keys| == |rows|;
    var j := SomeId(rows.Keys);
    var rest := rows - {j};
    RemoveOneRow(rows, j);
    if |rest| == 0 {
      assert rest.Keys == rows.Keys - {j} && |rest.Keys| == 0;
      assert rows.Keys == {j};
      assert IsFirst(rows, j);
    } else {
      FirstExists(rest);
      var k :| IsFirst(rest, k);
      if ListedBefore(rows[j], rows[k]) {
        forall i | i in rows && i != j ensures ListedBefore(rows[j], rows[i]) {
          if i != k {
            assert i in rest && ListedBefore(rest[k], rest[i]);
            ListedBeforeIsStrictTotal(rows[j], rows[k], rows[i]);
          }
        }
        assert IsFirst(rows, j);
      } else {
        assert k in rest && k != j;
        forall i | i in rows && i != k ensures ListedBefore(rows[k], rows[i]) {
          if i == j {
            ListedBeforeIsStrictTotal(rows[k], rows[j], rows[j]);
          } else {
            assert i in rest;
          }
        }
        assert IsFirst(rows, k);
      }
    }
  }

  /** At most one row comes first. */
  lemma FirstUnique(rows: Rows)
    requires KeyedById(rows)
    ensures forall k1, k2 :: IsFirst(rows, k1) && IsFirst(rows, k2) ==> k1 == k2
  {
    forall k1, k2 | IsFirst(rows, k1) && IsFirst(rows, k2) ensures k1 == k2 {
      if k1 != k2 {
        ListedBeforeIsStrictTotal(rows[k1], rows[k2], rows[k2]);
      }
    }
  }

  /** The rows of a listing of the other rows, after the first row, are
      stored rows. */
  lemma ConsStored(rows: Rows, k: int, tail: seq<Entry>)
    requires k in rows && rows[k].id == k
    requires forall i :: 0 <= i < |tail| ==> tail[i].id in rows - {k} && (rows - {k})[tail[i].id] == tail[i]
    ensures forall i :: 0 <= i < |[rows[k]] + tail| ==> ([rows[k]] + tail)[i].id in rows && rows[([rows[k]] + tail)[i].id] == ([rows[k]] + tail)[i]
  {
    var list := [rows[k]] + tail;
    forall i | 0 <= i < |list| ensures list[i].id in rows && rows[list[i].id] == list[i] {
      if i > 0 {
        assert list[i] == tail[i - 1];
      }
    }
  }

  /** Every row is in the first row followed by a listing of the other rows. */
  lemma ConsEvery(rows: Rows, k: int, tail: seq<Entry>)
    requires k in rows && forall id :: id in rows - {k} ==> (rows - {k})[id] in tail
    ensures forall id :: id in rows ==> rows[id] in [rows[k]] + tail
  {
    forall id | id in rows ensures rows[id] in [rows[k]] + tail {
      if id != k {
        assert id in rows - {k};
      }
    }
  }

  /** The first row followed by an ordered listing of the other rows is ordered. */
  lemma ConsSorted(rows: Rows, k: int, tail: seq<Entry>)
    requires IsFirst(rows, k)
    requires forall i :: 0 <= i < |tail| ==> tail[i].id in rows - {k} && (rows - {k})[tail[i].id] == tail[i]
    requires forall i, j :: 0 <= i < j < |tail| ==> ListedBefore(tail[i], tail[j])
    ensures forall i, j :: 0 <= i < j < |[rows[k]] + tail| ==> ListedBefore(([rows[k]] + tail)[i], ([rows[k]] + tail)[j])
  {
    var list := [rows[k]] + tail;
    forall i, j | 0 <= i < j < |list| ensures ListedBefore(list[i], list[j]) {
      assert list[j] == tail[j - 1];
      if i > 0 {
        assert list[i] == tail[i - 1];
      }
    }
  }

  /** Putting the first row in front of a listing of the other rows lists
      the whole table. */
  lemma ConsListing(rows: Rows, k: int, tail: seq<Entry>)
    requires KeyedById(rows) && IsFirst(rows, k) && OrderedListing(tail, rows - {k})
    ensures OrderedListing([rows[k]] + tail, rows)
  {
    RemoveOneRow(rows, k);
    ConsStored(rows, k, tail);
    ConsEvery(rows, k, tail);
    ConsSorted(rows, k, tail);
  }

  /** The rows in index-page order, taking the first row each time. */
  function ListingOf(rows: Rows): (list: seq<Entry>)
    requires KeyedById(rows)
    ensures OrderedListing(list, rows)
    decreases |rows|
  {
    if |rows| == 0 then []
    else
      FirstExists(rows);
      FirstUnique(rows);
      var k :| IsFirst(rows, k);
      RemoveOneRow(rows, k);
      var tail := ListingOf(rows - {k});
      ConsListing(rows, k, tail);
      [rows[k]] + tail
  }

  /** The first entry of an ordered listing is the first row. */
  lemma HeadIsFirst(list: seq<Entry>, rows: Rows)
    requires KeyedById(rows) && OrderedListing(list, rows) && |list| > 0
    ensures IsFirst(rows, list[0].id)
  {
    forall j | j in rows && j != list[0].id
      ensures ListedBefore(rows[list[0].id], rows[j])
    {
      var i :| 0 <= i < |list| && list[i] == rows[j];
      assert i != 0;
    }
  }

  /** Dropping the first entry of an ordered listing lists the other rows. */
  lemma TailListsRest(list: seq<Entry>, rows: Rows)
    requires KeyedById(rows) && OrderedListing(list, rows) && |list| > 0
    ensures OrderedListing(list[1..], rows - {list[0].id})
  {
    var k := list[0].id;
    var rest := rows - {k};
    RemoveOneRow(rows, k);
    forall i | 0 <= i < |list[1..]|
      ensures list[1..][i].id in rest && rest[list[1..][i].id] == list[1..][i]
    {
      assert ListedBefore(list[0], list[i + 1]);
    }
    forall id | id in rest ensures rest[id] in list[1..] {
      var i :| 0 <= i < |list| && list[i] == rows[id];
      assert i != 0;
      assert list[1..][i - 1] == rest[id];
    }
  }

  /** Two listings of the same rows start with the same entry. */
  lemma SameHead(a: seq<Entry>, b: seq<Entry>, rows: Rows)
    requires KeyedById(rows) && OrderedListing(a, rows) && OrderedListing(b, rows) && |rows| > 0
    ensures a[0] == b[0]
  {
    HeadIsFirst(a, rows);
    HeadIsFirst(b, rows);
    FirstUnique(rows);
  }

  /** Only one sequence lists the rows in index-page order: the order is
      fully determined by the dates and ids. */
  lemma {:induction false} OrderedListingUnique(a: seq<Entry>, b: seq<Entry>, rows: Rows)
    requires KeyedById(rows) && OrderedListing(a, rows) && OrderedListing(b, rows)
    ensures a == b
    decreases |rows|
  {
    if |rows| != 0 {
      SameHead(a, b, rows);
      var rest := rows - {a[0].id};
      TailListsRest(a, rows);
      TailListsRest(b, rows);
      RemoveOneRow(rows, a[0].id);
      OrderedListingUnique(a[1..], b[1..], rest);
      assert a == [a[0]] + a[1..];
      assert b == [b[0]] + b[1..];
    }
  }

  /** Three entries on two days are listed latest day first, and on the same
      day highest id first. */
  lemma ListingExample(t: Timestamp)
    ensures var e1 := Entry(1, "a", Date(2024, 1, 1), "x", t);
            var e2 := Entry(2, "b", Date(2024, 3, 1), "x", t);
            var e3 := Entry(3, "c", Date(2024, 3, 1), "x", t);
            ListingOf(map[1 := e1, 2 := e2, 3 := e3]) == [e3, e2, e1]
  {
    var e1 := Entry(1, "a", Date(2024, 1, 1), "x", t);
    var e2 := Entry(2, "b", Date(2024, 3, 1), "x", t);
    var e3 := Entry(3, "c", Date(2024, 3, 1), "x", t);
    var rows := map[1 := e1, 2 := e2, 3 := e3];
    assert rows.Keys == {1, 2, 3};
    assert |rows| == 3 by { assert |rows.Keys| == |{1, 2, 3}| == 3; }
    var want := [e3, e2, e1];
    assert OrderedListing(want, rows);
    OrderedListingUnique(ListingOf(rows), want, rows);
  }
}
