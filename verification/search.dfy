/**
 * `SearchEntriesAsync`: one SELECT DISTINCT over JournalEntry, joined with
 * EntryMood and EntryTag only when the mood or tag filter is in use, with the
 * active conditions ANDed and the result ordered newest day first.
 */
module Search {
  import opened Wrappers
  import opened Seqs
  import opened Sorting
  import opened Text
  import opened Schema
  import opened EntryStore

  /** The optional arguments; `None` is a null argument. */
  datatype Query = Query(
    text: Option<string>,
    start: Option<Ticks>,
    end: Option<Ticks>,
    moodIds: Option<seq<int>>,
    tagIds: Option<seq<int>>)

  const NoFilters := Query(None, None, None, None, None)

  predicate TextActive(q: Query) {
    !IsNullOrWhiteSpace(q.text)
  }

  predicate MoodsActive(q: Query) {
    q.moodIds.Some? && |q.moodIds.value| > 0
  }

  predicate TagsActive(q: Query) {
    q.tagIds.Some? && |q.tagIds.value| > 0
  }

  /** `(e.Title LIKE $p OR e.Content LIKE $p)` with `$p = '%' + text + '%'`, the text used untrimmed. */
  predicate TextMatches(q: Query, e: JournalEntry) {
    TextActive(q) ==>
      var pattern := "%" + q.text.value + "%";
      Like(pattern, e.title) || Like(pattern, e.content)
  }

  /** `DATE(e.EntryDate) >= DATE($start)` and `<= DATE($end)`, for the bounds given. */
  predicate DateMatches(q: Query, e: JournalEntry) {
    && (q.start.Some? ==> DayOf(e.entryDate) >= DayOf(q.start.value))
    && (q.end.Some? ==> DayOf(e.entryDate) <= DayOf(q.end.value))
  }

  // ---------------------------------------------------------------------------
  // The query as SQLite evaluates it: a join, a WHERE, a projection, DISTINCT,
  // ORDER BY.

  /** One row of the joined relation; `None` where the table is not joined. */
  datatype JoinRow = JoinRow(entry: JournalEntry, moodId: Option<int>, tagId: Option<int>)

  /** The EntryMood side of the join for one entry: its rows' mood ids, or one empty slot. */
  function MoodSide(s: Store, q: Query, e: JournalEntry): (r: seq<Option<int>>)
    ensures !MoodsActive(q) ==> r == [None]
    ensures MoodsActive(q) ==>
      forall m :: m in r <==> m.Some? && exists row :: row in s.entryMoods && row.entryId == e.id && row.moodId == m.value
  {
    if !MoodsActive(q) then [None]
    else
      var rows := Filter(s.entryMoods, MoodRowOf(e.id));
      var r := seq(|rows|, i requires 0 <= i < |rows| => Some(rows[i].moodId));
      assert forall row :: row in rows ==> Some(row.moodId) in r by {
        forall row | row in rows ensures Some(row.moodId) in r {
          var i :| 0 <= i < |rows| && rows[i] == row;
          assert r[i] == Some(row.moodId);
        }
      }
      assert forall m :: m in r ==> exists row :: row in s.entryMoods && row.entryId == e.id && row.moodId == m.value by {
        forall m | m in r ensures exists row :: row in s.entryMoods && row.entryId == e.id && row.moodId == m.value {
          var i :| 0 <= i < |r| && r[i] == m;
          assert rows[i] in rows;
        }
      }
      r
  }

  /** The EntryTag side of the join for one entry: its rows' tag ids, or one empty slot. */
  function TagSide(s: Store, q: Query, e: JournalEntry): (r: seq<Option<int>>)
    ensures !TagsActive(q) ==> r == [None]
    ensures TagsActive(q) ==>
      forall t :: t in r <==> t.Some? && EntryTag(e.id, t.value) in s.entryTags
  {
    if !TagsActive(q) then [None]
    else
      var rows := Filter(s.entryTags, TagRowOf(e.id));
      var r := seq(|rows|, i requires 0 <= i < |rows| => Some(rows[i].tagId));
      assert forall row :: row in rows ==> Some(row.tagId) in r by {
        forall row | row in rows ensures Some(row.tagId) in r {
          var i :| 0 <= i < |rows| && rows[i] == row;
          assert r[i] == Some(row.tagId);
        }
      }
      assert forall t :: t in r ==> EntryTag(e.id, t.value) in rows by {
        forall t | t in r ensures EntryTag(e.id, t.value) in rows {
          var i :| 0 <= i < |r| && r[i] == t;
          assert rows[i] in rows;
          assert rows[i] == EntryTag(e.id, t.value);
        }
      }
      r
  }

  /** Every pairing of one entry with one mood slot and one tag slot. */
  function Product(e: JournalEntry, ms: seq<Option<int>>, ts: seq<Option<int>>): (r: seq<JoinRow>)
    ensures forall row :: row in r <==> row.entry == e && row.moodId in ms && row.tagId in ts
    decreases |ms|
  {
    if ms == [] then []
    else
      var first := seq(|ts|, i requires 0 <= i < |ts| => JoinRow(e, ms[0], ts[i]));
      assert forall t :: t in ts ==> JoinRow(e, ms[0], t) in first by {
        forall t | t in ts ensures JoinRow(e, ms[0], t) in first {
          var i :| 0 <= i < |ts| && ts[i] == t;
          assert first[i] == JoinRow(e, ms[0], t);
        }
      }
      assert ms == [ms[0]] + ms[1..];
      first + Product(e, ms[1..], ts)
  }

  /** `FROM JournalEntry e [INNER JOIN EntryMood em ...] [INNER JOIN EntryTag et ...]`, entries in rowid order. */
  function JoinRows(s: Store, q: Query, entries: seq<JournalEntry>): (r: seq<JoinRow>)
    ensures forall row :: row in r <==>
      row.entry in entries && row.moodId in MoodSide(s, q, row.entry) && row.tagId in TagSide(s, q, row.entry)
    decreases |entries|
  {
    if entries == [] then []
    else
      var e := entries[0];
      assert entries == [e] + entries[1..];
      Product(e, MoodSide(s, q, e), TagSide(s, q, e)) + JoinRows(s, q, entries[1..])
  }

  /** The WHERE clause: the active conditions, ANDed. */
  function Where(q: Query): JoinRow -> bool {
    (row: JoinRow) =>
      && TextMatches(q, row.entry)
      && DateMatches(q, row.entry)
      && (MoodsActive(q) ==> row.moodId.Some? && row.moodId.value in q.moodIds.value)
      && (TagsActive(q) ==> row.tagId.Some? && row.tagId.value in q.tagIds.value)
  }

  /** `SELECT e.*`: the entry part of every joined row. */
  function EntriesOf(rows: seq<JoinRow>): (r: seq<JournalEntry>)
    ensures forall e :: e in r <==> exists row :: row in rows && row.entry == e
  {
    var r := seq(|rows|, i requires 0 <= i < |rows| => rows[i].entry);
    assert forall row :: row in rows ==> row.entry in r by {
      forall row | row in rows ensures row.entry in r {
        var i :| 0 <= i < |rows| && rows[i] == row;
        assert r[i] == row.entry;
      }
    }
    r
  }

  // ---------------------------------------------------------------------------
  // What the query means, entry by entry

  /** An entry has a mood row naming one of the requested moods. */
  ghost predicate MoodMatches(s: Store, q: Query, e: JournalEntry) {
    MoodsActive(q) ==>
      exists row :: row in s.entryMoods && row.entryId == e.id && row.moodId in q.moodIds.value
  }

  /** An entry has a tag row naming one of the requested tags. */
  ghost predicate TagMatches(s: Store, q: Query, e: JournalEntry) {
    TagsActive(q) ==> exists t :: t in q.tagIds.value && EntryTag(e.id, t) in s.entryTags
  }

  ghost predicate Matches(s: Store, q: Query, e: JournalEntry) {
    TextMatches(q, e) && DateMatches(q, e) && MoodMatches(s, q, e) && TagMatches(s, q, e)
  }

  /** An entry matching every active filter has a joined row that passes the WHERE clause. */
  lemma MatchingEntryHasRow(s: Store, q: Query, e: JournalEntry)
    requires e in s.entries && Matches(s, q, e)
    ensures exists row :: row in JoinRows(s, q, s.entries) && row.entry == e && Where(q)(row)
  {
    var m: Option<int> := None;
    var t: Option<int> := None;
    if MoodsActive(q) {
      var row :| row in s.entryMoods && row.entryId == e.id && row.moodId in q.moodIds.value;
      m := Some(row.moodId);
    }
    if TagsActive(q) {
      var id :| id in q.tagIds.value && EntryTag(e.id, id) in s.entryTags;
      t := Some(id);
    }
    assert m in MoodSide(s, q, e) && t in TagSide(s, q, e);
    assert JoinRow(e, m, t) in JoinRows(s, q, s.entries);
    assert Where(q)(JoinRow(e, m, t));
  }

  /** A joined row that passes the WHERE clause belongs to an entry matching every active filter. */
  lemma PassingRowMatches(s: Store, q: Query, row: JoinRow)
    requires row in JoinRows(s, q, s.entries) && Where(q)(row)
    ensures Matches(s, q, row.entry)
  {
    assert row.moodId in MoodSide(s, q, row.entry) && row.tagId in TagSide(s, q, row.entry);
  }

  /** Some joined row of `e` passes the WHERE clause exactly when `e` matches every active filter. */
  lemma JoinedRowPasses(s: Store, q: Query, e: JournalEntry)
    requires e in s.entries
    ensures (exists row :: row in JoinRows(s, q, s.entries) && row.entry == e && Where(q)(row))
      <==> Matches(s, q, e)
  {
    if Matches(s, q, e) {
      MatchingEntryHasRow(s, q, e);
    }
    if exists row :: row in JoinRows(s, q, s.entries) && row.entry == e && Where(q)(row) {
      var row :| row in JoinRows(s, q, s.entries) && row.entry == e && Where(q)(row);
      PassingRowMatches(s, q, row);
    }
  }

  /**
   * The search: entries that match every active filter, each once, newest
   * day first. A blank search text, an empty id list and a null argument all
   * mean "no filter".
   */
  function SearchEntries(s: Store, q: Query): (r: seq<JournalEntry>)
    ensures forall e :: e in r <==> e in s.entries && Matches(s, q, e)
    ensures NoDup(r)
    ensures Sorted(r, EntryNewestFirst())
  {
    var rows := JoinRows(s, q, s.entries);
    var selected := EntriesOf(Filter(rows, Where(q)));
    var distinct := Distinct(selected);
    var r := SortBy(distinct, EntryNewestFirst());
    EntryNewestFirstIsTotal();
    forall e ensures e in r <==> e in s.entries && Matches(s, q, e) {
      SortByMembers(distinct, EntryNewestFirst(), e);
      if e in s.entries {
        JoinedRowPasses(s, q, e);
      }
    }
    NoDupPermutation(distinct, r);
    r
  }

  // ---------------------------------------------------------------------------
  // Consequences

  /** Two queries that switch on the same filters with the same arguments. */
  predicate SameFilters(q1: Query, q2: Query) {
    && TextActive(q1) == TextActive(q2)
    && (TextActive(q1) ==> q1.text == q2.text)
    && q1.start == q2.start && q1.end == q2.end
    && MoodsActive(q1) == MoodsActive(q2)
    && (MoodsActive(q1) ==> q1.moodIds == q2.moodIds)
    && TagsActive(q1) == TagsActive(q2)
    && (TagsActive(q1) ==> q1.tagIds == q2.tagIds)
  }

  lemma {:induction false} JoinRowsSameFilters(s: Store, q1: Query, q2: Query, entries: seq<JournalEntry>)
    requires SameFilters(q1, q2)
    ensures JoinRows(s, q1, entries) == JoinRows(s, q2, entries)
    decreases |entries|
  {
    if entries != [] {
      JoinRowsSameFilters(s, q1, q2, entries[1..]);
    }
  }

  /**
   * Only the filters that are switched on matter: a null argument, a blank
   * search text and an empty id list give the same result.
   */
  lemma SearchSameFilters(s: Store, q1: Query, q2: Query)
    requires SameFilters(q1, q2)
    ensures SearchEntries(s, q1) == SearchEntries(s, q2)
  {
    var rows := JoinRows(s, q1, s.entries);
    JoinRowsSameFilters(s, q1, q2, s.entries);
    FilterCongruent(rows, Where(q1), Where(q2));
  }

  /** Without filters an entry joins to one row, which passes. */
  lemma UnfilteredHead(e: JournalEntry)
    ensures Filter(Product(e, [None], [None]), Where(NoFilters)) == [JoinRow(e, None, None)]
  {
    var head := Product(e, [None], [None]);
    assert head == [JoinRow(e, None, None)] by {
      assert Product(e, [None][1..], [None]) == [];
    }
    FilterAll(head, Where(NoFilters));
  }

  lemma EntriesOfCons(row: JoinRow, rows: seq<JoinRow>)
    ensures EntriesOf([row] + rows) == [row.entry] + EntriesOf(rows)
  {
  }

  lemma {:induction false} UnfilteredRows(s: Store, entries: seq<JournalEntry>)
    ensures EntriesOf(Filter(JoinRows(s, NoFilters, entries), Where(NoFilters))) == entries
    decreases |entries|
  {
    if entries != [] {
      var e := entries[0];
      var head := Product(e, [None], [None]);
      var tail := JoinRows(s, NoFilters, entries[1..]);
      assert JoinRows(s, NoFilters, entries) == head + tail;
      FilterConcat(head, tail, Where(NoFilters));
      UnfilteredHead(e);
      UnfilteredRows(s, entries[1..]);
      EntriesOfCons(JoinRow(e, None, None), Filter(tail, Where(NoFilters)));
    }
  }

  /** With no filter at all the search lists exactly what `GetAllEntriesAsync` lists. */
  lemma SearchWithoutFiltersIsAll(s: Store)
    requires Wf(s)
    ensures SearchEntries(s, NoFilters) == GetAllEntries(s)
  {
    UnfilteredRows(s, s.entries);
    assert NoDup(s.entries) by {
      forall i, j | 0 <= i < j < |s.entries| ensures s.entries[i] != s.entries[j] {
        assert s.entries[i].id != s.entries[j].id;
      }
    }
  }

  /** A search text without `%` or `_` finds the entries whose title or content contains it, ignoring ASCII case. */
  lemma SearchTextIsContains(q: Query, e: JournalEntry)
    requires TextActive(q) && NoWildcards(q.text.value)
    ensures TextMatches(q, e) <==>
      ContainsIgnoreCase(e.title, q.text.value) || ContainsIgnoreCase(e.content, q.text.value)
  {
    LikeIsContains(q.text.value, e.title);
    LikeIsContains(q.text.value, e.content);
  }

  /** The inclusive date range compares calendar days: the whole end day is included. */
  lemma SearchDateRange(s: Store, start: Ticks, end: Ticks, e: JournalEntry)
    ensures var r := SearchEntries(s, NoFilters.(start := Some(start), end := Some(end)));
      e in r <==> e in s.entries && DayOf(start) <= DayOf(e.entryDate) <= DayOf(end)
  {
    var q := NoFilters.(start := Some(start), end := Some(end));
    assert !TextActive(q) && !MoodsActive(q) && !TagsActive(q);
    assert Matches(s, q, e) <==> DateMatches(q, e);
  }
}
