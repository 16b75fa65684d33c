/** The entry table and the store effects of the request handlers of the
    journal application: list, create, show, edit and delete. */
module Journal {
  import opened EntryForm
  import opened Entries

  // ---------------------------------------------------------------------------
  // Id allocation: an INTEGER PRIMARY KEY column is SQLite's rowid, and a new
  // row gets one more than the largest rowid in the table, or 1 when the table
  // is empty.

  /** The largest id of a non-empty set. */
  function MaxId(ids: set<int>): (m: int)
    requires |ids| > 0
    ensures m in ids && forall k :: k in ids ==> k <= m
  {
    MaxExists(ids);
    var m :| m in ids && forall k :: k in ids ==> k <= m;
    m
  }

  lemma {:induction false} MaxExists(ids: set<int>)
    requires |ids| > 0
    ensures exists m :: m in ids && forall k :: k in ids ==> k <= m
    decreases |ids|
  {
    var j := SomeId(ids);
    var rest := ids - {j};
    if |rest| == 0 {
      assert forall k :: k in ids ==> k == j by {
        assert forall k :: k in ids && k != j ==> k in rest;
        assert (forall k :: k !in rest) ==> (forall k :: k in rest <==> k in {});
      }
      assert forall k :: k in ids ==> k <= j;
    } else {
      MaxExists(rest);
      var m :| m in rest && forall k :: k in rest ==> k <= m;
      assert forall k :: k in ids && k != j ==> k in rest;
      if m < j {
        assert forall k :: k in ids ==> k <= j;
      } else {
        assert forall k :: k in ids ==> k <= m;
      }
    }
  }

  /** The id SQLite gives the next inserted row. */
  function NewRowId(ids: set<int>): (id: int)
    ensures id !in ids
    ensures forall k :: k in ids ==> k < id
    ensures |ids| == 0 ==> id == 1
    ensures |ids| > 0 ==> id - 1 in ids
  {
    if |ids| == 0 then 1 else MaxId(ids) + 1
  }

  // ---------------------------------------------------------------------------
  // The store

  /** Rows are stored under their ids, and every stored entry has a
      non-empty trimmed title and content and a real calendar date. */
  ghost predicate ValidRows(rows: Rows) {
    && KeyedById(rows)
    && forall id :: id in rows ==> WellFormed(rows[id].title, rows[id].date, rows[id].content)
  }

  /** Storing a well-formed entry under its own id keeps the rows valid. */
  lemma PutKeepsValid(rows: Rows, e: Entry)
    requires ValidRows(rows) && WellFormed(e.title, e.date, e.content)
    ensures ValidRows(rows[e.id := e])
  {
  }

  /** Removing a row keeps the rows valid. */
  lemma RemoveKeepsValid(rows: Rows, id: int)
    requires ValidRows(rows)
    ensures ValidRows(rows - {id})
  {
  }

  /** What a request does: it succeeds with an entry (the one created, shown,
      updated or deleted), finds no entry with the id, or refuses the form. */
  datatype Outcome = Done(entry: Entry) | NotFound | Rejected(error: FormError)

  /** The entry table. */
  class JournalStore {
    var rows: Rows

    /** The stored rows are valid. */
    ghost predicate Valid()
      reads this
    {
      ValidRows(rows)
    }

    /** A fresh, empty table. */
    constructor ()
      ensures Valid() && rows == map[]
    {
      rows := map[];
    }

    /** The index page: every entry, latest date first, then highest id first. */
    method Index() returns (list: seq<Entry>)
      requires Valid()
      ensures OrderedListing(list, rows)
    {
      list := ListingOf(rows);
    }

    /** The entry page: the entry with the id, or not found. */
    method ShowEntry(id: int) returns (r: Outcome)
      requires Valid()
      ensures r == NotFound <==> id !in rows
      ensures id in rows ==> r == Done(rows[id]) && r.entry.id == id
    {
      if id in rows {
        r := Done(rows[id]);
      } else {
        r := NotFound;
      }
    }

    /** Submitting the new-entry form: a refused form stores nothing; an
        accepted one inserts one row under a new id, with the stripped title
        and content, the parsed date and the insertion time. */
    method CreateEntry(form: Form, now: Timestamp) returns (r: Outcome)
      requires Valid()
      modifies this
      ensures Valid()
      ensures !r.NotFound?
      ensures CheckForm(form).Refused? ==> r == Rejected(CheckForm(form).error) && rows == old(rows)
      ensures CheckForm(form).Accepted? ==>
        var c := CheckForm(form);
        && r == Done(Entry(NewRowId(old(rows).Keys), c.title, c.date, c.content, now))
        && r.entry.id !in old(rows)
        && rows == old(rows)[r.entry.id := r.entry]
    {
      var c := CheckForm(form);
      if c.Refused? {
        r := Rejected(c.error);
      } else {
        AcceptedWellFormed(form);
        var entry := Entry(NewRowId(rows.Keys), c.title, c.date, c.content, now);
        PutKeepsValid(rows, entry);
        rows := rows[entry.id := entry];
        r := Done(entry);
      }
    }

    /** Submitting the edit form of an entry: an unknown id is not found; a
        refused form changes nothing; an accepted one replaces the title, date
        and content of that entry and nothing else. */
    method EditEntry(id: int, form: Form) returns (r: Outcome)
      requires Valid()
      modifies this
      ensures Valid()
      ensures id !in old(rows) ==> r == NotFound && rows == old(rows)
      ensures id in old(rows) && CheckForm(form).Refused? ==>
        r == Rejected(CheckForm(form).error) && rows == old(rows)
      ensures id in old(rows) && CheckForm(form).Accepted? ==>
        var c := CheckForm(form);
        && r == Done(old(rows)[id].(title := c.title, date := c.date, content := c.content))
        && rows == old(rows)[id := r.entry]
    {
      if id !in rows {
        r := NotFound;
        return;
      }
      var c := CheckForm(form);
      if c.Refused? {
        r := Rejected(c.error);
      } else {
        AcceptedWellFormed(form);
        var entry := rows[id].(title := c.title, date := c.date, content := c.content);
        PutKeepsValid(rows, entry);
        rows := rows[id := entry];
        r := Done(entry);
      }
    }

    /** Deleting an entry: an unknown id is not found; otherwise exactly that
        entry is removed. */
    method DeleteEntry(id: int) returns (r: Outcome)
      requires Valid()
      modifies this
      ensures Valid()
      ensures id !in old(rows) ==> r == NotFound && rows == old(rows)
      ensures id in old(rows) ==> r == Done(old(rows)[id]) && rows == old(rows) - {id}
    {
      if id !in rows {
        r := NotFound;
        return;
      }
      r := Done(rows[id]);
      RemoveKeepsValid(rows, id);
      rows := rows - {id};
    }
  }

  /** Creating an entry and then opening its page shows exactly what was
      submitted, under an id no other entry had. */
  method CreateThenShow(store: JournalStore, form: Form, now: Timestamp) returns (created: Outcome, shown: Outcome)
    requires store.Valid()
    modifies store
    ensures store.Valid()
    ensures created.Done? <==> CheckForm(form).Accepted?
    ensures created.Done? ==>
      && created.entry.id !in old(store.rows)
      && shown == created
      && created.entry.title == CheckForm(form).title
      && created.entry.date == CheckForm(form).date
      && created.entry.content == CheckForm(form).content
  {
    created := store.CreateEntry(form, now);
    shown := NotFound;
    if created.Done? {
      shown := store.ShowEntry(created.entry.id);
    }
  }

  /** After an entry is deleted its page is not found, and a second delete
      of the same id is not found either. */
  method DeleteThenShow(store: JournalStore, id: int) returns (deleted: Outcome, shown: Outcome, again: Outcome)
    requires store.Valid()
    modifies store
    ensures store.Valid()
    ensures deleted.Done? <==> id in old(store.rows)
    ensures shown == NotFound && again == NotFound
    ensures store.rows == old(store.rows) - {id}
  {
    deleted := store.DeleteEntry(id);
    shown := store.ShowEntry(id);
    again := store.DeleteEntry(id);
  }
}
