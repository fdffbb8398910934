/** The user-scoped entry store: the two tables, `add_entry`, `load_data` and
    the save guard of the entry form. The logged-in user is an explicit
    `owner`/`u` parameter instead of the module-global `username`. */
module EntryStore {
  import opened Records

  /** The entry rows owned by user `u`. */
  function OwnedBy(es: seq<Entry>, u: string): (r: seq<Entry>)
    ensures forall e :: e in r <==> e in es && e.username == u
    ensures |r| <= |es|
  {
    if es == [] then []
    else (if es[0].username == u then [es[0]] else []) + OwnedBy(es[1..], u)
  }

  /** The tag rows whose `entry_id` is one of `ids`. */
  function TagsFor(ts: seq<Tag>, ids: set<int>): (r: seq<Tag>)
    ensures forall t :: t in r <==> t in ts && t.entryId in ids
    ensures |r| <= |ts|
  {
    if ts == [] then []
    else (if ts[0].entryId in ids then [ts[0]] else []) + TagsFor(ts[1..], ids)
  }

  /** `load_data` for user `u`: that user's entries, and the tags of those
      entries. When the user has no entry the tags query is skipped and an
      empty tag table is returned. */
  function Load(entries: seq<Entry>, tags: seq<Tag>, u: string): (r: (seq<Entry>, seq<Tag>))
    ensures forall e :: e in r.0 <==> e in entries && e.username == u
    ensures forall t :: t in r.1 <==>
      t in tags && exists e :: e in entries && e.username == u && e.id == t.entryId
    ensures r.0 == [] ==> r.1 == []
    ensures r.1 == TagsFor(tags, Ids(r.0))
  {
    var mine := OwnedBy(entries, u);
    if mine == [] then
      assert TagsFor(tags, Ids(mine)) == [] by { TagsForNone(tags, Ids(mine)); }
      (mine, [])
    else
      (mine, TagsFor(tags, Ids(mine)))
  }

  /** No tag row points into `ids`: nothing is selected. */
  lemma TagsForNone(ts: seq<Tag>, ids: set<int>)
    requires forall t :: t in ts ==> t.entryId !in ids
    ensures TagsFor(ts, ids) == []
  {
    if TagsFor(ts, ids) != [] {
      assert TagsFor(ts, ids)[0] in TagsFor(ts, ids);
    }
  }

  lemma {:induction false} OwnedByAppend(a: seq<Entry>, b: seq<Entry>, u: string)
    ensures OwnedBy(a + b, u) == OwnedBy(a, u) + OwnedBy(b, u)
  {
    if a != [] {
      assert (a + b)[1..] == a[1..] + b;
      OwnedByAppend(a[1..], b, u);
    } else {
      assert a + b == b;
    }
  }

  lemma {:induction false} TagsForAppend(a: seq<Tag>, b: seq<Tag>, ids: set<int>)
    ensures TagsFor(a + b, ids) == TagsFor(a, ids) + TagsFor(b, ids)
  {
    if a != [] {
      assert (a + b)[1..] == a[1..] + b;
      TagsForAppend(a[1..], b, ids);
    } else {
      assert a + b == b;
    }
  }

  /** Two id sets that agree on every tag's `entry_id` select the same tags. */
  lemma {:induction false} TagsForAgree(ts: seq<Tag>, ids1: set<int>, ids2: set<int>)
    requires forall t :: t in ts ==> (t.entryId in ids1 <==> t.entryId in ids2)
    ensures TagsFor(ts, ids1) == TagsFor(ts, ids2)
  {
    if ts != [] {
      assert ts[0] in ts;
      TagsForAgree(ts[1..], ids1, ids2);
    }
  }

  /** A tag table all of whose rows point into `ids` is selected whole, in order. */
  lemma {:induction false} TagsForAll(ts: seq<Tag>, ids: set<int>)
    requires forall t :: t in ts ==> t.entryId in ids
    ensures TagsFor(ts, ids) == ts
  {
    if ts != [] {
      assert ts[0] in ts;
      TagsForAll(ts[1..], ids);
    }
  }

  lemma IdsAppend(es: seq<Entry>, e: Entry)
    ensures Ids(es + [e]) == Ids(es) + {e.id}
  {
    forall x | x in Ids(es + [e]) ensures x in Ids(es) + {e.id} {
      var d :| d in es + [e] && d.id == x;
      if d != e { assert d in es; }
    }
    forall x | x in Ids(es) ensures x in Ids(es + [e]) {
      var d :| d in es && d.id == x;
      assert d in es + [e];
    }
    assert e in es + [e];
  }

  /** Adding an entry (and tags pointing at its fresh id) for one user leaves
      every other user's view of the store unchanged. */
  lemma LoadOthersUnchanged(entries: seq<Entry>, tags: seq<Tag>, e: Entry, newTags: seq<Tag>, u: string)
    requires e.username != u
    requires e.id !in Ids(entries)
    requires forall t :: t in newTags ==> t.entryId == e.id
    ensures Load(entries + [e], tags + newTags, u) == Load(entries, tags, u)
  {
    var mine := OwnedBy(entries, u);
    OwnedByAppend(entries, [e], u);
    assert OwnedBy([e], u) == [];
    assert OwnedBy(entries + [e], u) == mine;
    TagsForAppend(tags, newTags, Ids(mine));
    assert e.id !in Ids(mine);
    TagsForNone(newTags, Ids(mine));
    assert TagsFor(tags + newTags, Ids(mine)) == TagsFor(tags, Ids(mine));
    assert Load(entries + [e], tags + newTags, u).0 == Load(entries, tags, u).0;
  }

  /** Adding an entry for `e.username` with tags pointing at its fresh id
      appends exactly that entry and those tags to the owner's view, given
      that every stored tag points at an existing entry. */
  lemma LoadOwnerGrows(entries: seq<Entry>, tags: seq<Tag>, e: Entry, newTags: seq<Tag>)
    requires e.id !in Ids(entries)
    requires forall t :: t in tags ==> t.entryId in Ids(entries)
    requires forall t :: t in newTags ==> t.entryId == e.id
    ensures var before := Load(entries, tags, e.username);
            Load(entries + [e], tags + newTags, e.username) == (before.0 + [e], before.1 + newTags)
  {
    var u := e.username;
    var mine := OwnedBy(entries, u);
    OwnedByAppend(entries, [e], u);
    assert OwnedBy([e], u) == [e];
    var mine' := mine + [e];
    assert OwnedBy(entries + [e], u) == mine';
    IdsAppend(mine, e);
    TagsForAppend(tags, newTags, Ids(mine'));
    forall t | t in tags ensures t.entryId in Ids(mine') <==> t.entryId in Ids(mine) {
      assert t.entryId != e.id;
    }
    TagsForAgree(tags, Ids(mine'), Ids(mine));
    TagsForAll(newTags, Ids(mine'));
  }

  /** Tag rows for entry `id` covering exactly the keys `keys` of `ratings`:
      one row per key, each pointing at `id` and carrying that key's rating. */
  predicate RowsFor(rows: seq<Tag>, id: int, ratings: map<string, int>, keys: set<string>)
    requires keys <= ratings.Keys
  {
    && (forall j :: 0 <= j < |rows| ==>
          rows[j].entryId == id && rows[j].value in keys && rows[j].rating == Some(ratings[rows[j].value]))
    && (forall i, j :: 0 <= i < j < |rows| ==> rows[i].value != rows[j].value)
    && (forall v :: v in keys ==> exists j :: 0 <= j < |rows| && rows[j].value == v)
  }

  /** The rows `add_entry` writes into `tags` for entry `id`: one per key of
      `ratings`. */
  predicate TagRowsOf(rows: seq<Tag>, id: int, ratings: map<string, int>)
  {
    |rows| == |ratings| && RowsFor(rows, id, ratings, ratings.Keys)
  }

  /** One more key's row extends a partial set of rows. */
  lemma AppendRow(rows: seq<Tag>, id: int, ratings: map<string, int>, keys: set<string>, v: string)
    requires keys <= ratings.Keys && v in ratings && v !in keys
    requires RowsFor(rows, id, ratings, keys)
    ensures RowsFor(rows + [Tag(id, v, Some(ratings[v]))], id, ratings, keys + {v})
  {
    var rows' := rows + [Tag(id, v, Some(ratings[v]))];
    forall j | 0 <= j < |rows| ensures rows'[j] == rows[j] && rows[j].value in keys {
    }
    forall i, j | 0 <= i < j < |rows'| ensures rows'[i].value != rows'[j].value {
      if j < |rows| {
        assert rows'[j] == rows[j];
      }
    }
    forall w | w in keys + {v} ensures exists j :: 0 <= j < |rows'| && rows'[j].value == w {
      if w == v {
        assert rows'[|rows|].value == w;
      } else {
        var j :| 0 <= j < |rows| && rows[j].value == w;
        assert rows'[j] == rows[j];
      }
    }
  }

  /** The loop of `add_entry` over the rating dictionary: one tag row per
      key, in the dictionary's iteration order (chosen freely here). */
  method BuildTagRows(id: int, ratings: map<string, int>) returns (rows: seq<Tag>)
    ensures TagRowsOf(rows, id, ratings)
  {
    rows := [];
    var pending := ratings.Keys;
    ghost var done: set<string> := {};
    while pending != {}
      invariant pending <= ratings.Keys && done == ratings.Keys - pending
      invariant RowsFor(rows, id, ratings, done)
      invariant |rows| + |pending| == |ratings|
      decreases pending
    {
      var v :| v in pending;
      assert |pending - {v}| == |pending| - 1;
      AppendRow(rows, id, ratings, done, v);
      rows := rows + [Tag(id, v, Some(ratings[v]))];
      pending := pending - {v};
      done := done + {v};
    }
    assert done == ratings.Keys;
  }

  /** Rows built from in-range ratings are in range and point at `id`. */
  lemma TagRowsInRange(rows: seq<Tag>, id: int, ratings: map<string, int>)
    requires TagRowsOf(rows, id, ratings)
    requires ValidRatings(ratings)
    ensures RatingsInRange(rows)
    ensures forall t :: t in rows ==> t.entryId == id
  {
    forall t | t in rows ensures t.entryId == id && t.value in ratings && t.rating == Some(ratings[t.value]) {
      var j :| 0 <= j < |rows| && rows[j] == t;
    }
  }

  /** The store invariant: ids are positive, below the AUTOINCREMENT counter
      and increasing in insertion order; every tag points at a stored entry;
      every stored text is non-blank and every stored rating is within the
      slider range. */
  ghost predicate WellFormed(entries: seq<Entry>, tags: seq<Tag>, nextId: int)
  {
    && 1 <= nextId
    && (forall i :: 0 <= i < |entries| ==> 1 <= entries[i].id < nextId)
    && (forall i, j :: 0 <= i < j < |entries| ==> entries[i].id < entries[j].id)
    && (forall t :: t in tags ==> t.entryId in Ids(entries))
    && (forall e :: e in entries ==> NonBlank(e.text))
    && RatingsInRange(tags)
  }

  /** Appending an entry that takes the counter's value, and tags in range
      that point at it, keeps the store invariant. */
  lemma AddKeepsWellFormed(entries: seq<Entry>, tags: seq<Tag>, nextId: int, e: Entry, newTags: seq<Tag>)
    requires WellFormed(entries, tags, nextId)
    requires e.id == nextId && NonBlank(e.text)
    requires forall t :: t in newTags ==> t.entryId == e.id
    requires RatingsInRange(newTags)
    ensures WellFormed(entries + [e], tags + newTags, nextId + 1)
  {
    IdsAppend(entries, e);
  }

  /** The journal database: the `entries` and `tags` tables and the
      AUTOINCREMENT counter of `entries.id`. */
  class Store {
    var entries: seq<Entry>
    var tags: seq<Tag>
    var nextId: int

    ghost predicate Valid()
      reads this
    {
      WellFormed(entries, tags, nextId)
    }

    /** `init_db` on a fresh database file: both tables empty. */
    constructor ()
      ensures Valid()
      ensures entries == [] && tags == [] && nextId == 1
    {
      entries := [];
      tags := [];
      nextId := 1;
    }

    /** `add_entry`: one entry row for `owner` with a fresh id, then one tag
        row per key of `ratings`, all pointing at that id. */
    method AddEntry(owner: string, text: string, ratings: map<string, int>, ts: int) returns (id: int)
      requires Valid()
      requires NonBlank(text)
      requires ValidRatings(ratings)
      modifies this
      ensures Valid()
      ensures id == old(nextId) && id !in old(Ids(entries)) && nextId == id + 1
      ensures entries == old(entries) + [Entry(id, ts, owner, text)]
      ensures |tags| == |old(tags)| + |ratings|
      ensures tags[..|old(tags)|] == old(tags)
      ensures TagRowsOf(tags[|old(tags)|..], id, ratings)
      ensures forall u :: u != owner ==> Load(entries, tags, u) == old(Load(entries, tags, u))
      ensures Load(entries, tags, owner) ==
        (old(Load(entries, tags, owner)).0 + [Entry(id, ts, owner, text)],
         old(Load(entries, tags, owner)).1 + tags[|old(tags)|..])
    {
      id := nextId;
      var e := Entry(id, ts, owner, text);
      // The tag rows are collected first and written together with the entry
      // row: the source commits both in one transaction.
      var rows := BuildTagRows(id, ratings);
      TagRowsInRange(rows, id, ratings);
      AddKeepsWellFormed(entries, tags, nextId, e, rows);
      forall u | u != owner ensures Load(entries + [e], tags + rows, u) == Load(entries, tags, u) {
        LoadOthersUnchanged(entries, tags, e, rows, u);
      }
      LoadOwnerGrows(entries, tags, e, rows);
      entries := entries + [e];
      tags := tags + rows;
      nextId := nextId + 1;
    }

    /** The save guard of the entry form: the entry is stored only when its
        text is non-blank; otherwise nothing changes. */
    method SaveEntry(owner: string, text: string, ratings: map<string, int>, ts: int) returns (saved: bool)
      requires Valid()
      requires ValidRatings(ratings)
      modifies this
      ensures Valid()
      ensures saved <==> NonBlank(text)
      ensures !saved ==> entries == old(entries) && tags == old(tags) && nextId == old(nextId)
      ensures saved ==> entries == old(entries) + [Entry(old(nextId), ts, owner, text)] && nextId == old(nextId) + 1
      ensures saved ==> |tags| == |old(tags)| + |ratings| && tags[..|old(tags)|] == old(tags) && TagRowsOf(tags[|old(tags)|..], old(nextId), ratings)
    {
      saved := NonBlank(text);
      if saved {
        var _ := AddEntry(owner, text, ratings, ts);
      }
    }
  }
}
