/**
 * The journal-entry half of `JournalDbService`: create, update, delete and the
 * three reads. The one-entry-per-day rule lives here and nowhere else.
 */
module EntryStore {
  import opened Wrappers
  import opened Seqs
  import opened Sorting
  import opened Schema

  function SameDayAs(date: Ticks): JournalEntry -> bool {
    (e: JournalEntry) => DayOf(e.entryDate) == DayOf(date)
  }

  /** Under the integrity constraints a row is determined by its id. */
  lemma IdDeterminesEntry(s: Store, a: JournalEntry, b: JournalEntry)
    requires Wf(s) && a in s.entries && b in s.entries && a.id == b.id
    ensures a == b
  {
    var i :| 0 <= i < |s.entries| && s.entries[i] == a;
    var j :| 0 <= j < |s.entries| && s.entries[j] == b;
    assert i == j;
  }

  /** Under the integrity constraints a row is determined by its calendar day. */
  lemma DayDeterminesEntry(s: Store, a: JournalEntry, b: JournalEntry)
    requires Wf(s) && a in s.entries && b in s.entries && DayOf(a.entryDate) == DayOf(b.entryDate)
    ensures a == b
  {
    var i :| 0 <= i < |s.entries| && s.entries[i] == a;
    var j :| 0 <= j < |s.entries| && s.entries[j] == b;
    assert i == j;
  }

  /** `GetEntryByIdAsync`. */
  function GetEntryById(s: Store, id: int): (r: Option<JournalEntry>)
    ensures r.Some? <==> exists e :: e in s.entries && e.id == id
    ensures r.Some? ==> r.value in s.entries && r.value.id == id
    ensures Wf(s) && r.Some? ==> forall e :: e in s.entries && e.id == id ==> e == r.value
  {
    var r := FindFirst(s.entries, EntryHasId(id));
    assert Wf(s) && r.Some? ==> forall e :: e in s.entries && e.id == id ==> e == r.value by {
      if Wf(s) && r.Some? {
        forall e | e in s.entries && e.id == id ensures e == r.value {
          IdDeterminesEntry(s, e, r.value);
        }
      }
    }
    r
  }

  /** `GetEntryByDateAsync`: compares calendar days only, so at most one row can match. */
  function GetEntryByDate(s: Store, date: Ticks): (r: Option<JournalEntry>)
    ensures r.Some? <==> exists e :: e in s.entries && DayOf(e.entryDate) == DayOf(date)
    ensures r.Some? ==> r.value in s.entries && DayOf(r.value.entryDate) == DayOf(date)
    ensures Wf(s) && r.Some? ==> forall e :: e in s.entries && DayOf(e.entryDate) == DayOf(date) ==> e == r.value
  {
    var r := FindFirst(s.entries, SameDayAs(date));
    assert Wf(s) && r.Some? ==> forall e :: e in s.entries && DayOf(e.entryDate) == DayOf(date) ==> e == r.value by {
      if Wf(s) && r.Some? {
        forall e | e in s.entries && DayOf(e.entryDate) == DayOf(date) ensures e == r.value {
          DayDeterminesEntry(s, e, r.value);
        }
      }
    }
    r
  }

  /** `GetAllEntriesAsync`: every row once, newest day first. */
  function GetAllEntries(s: Store): (r: seq<JournalEntry>)
    ensures multiset(r) == multiset(s.entries)
    ensures Sorted(r, EntryNewestFirst())
  {
    EntryNewestFirstIsTotal();
    SortBy(s.entries, EntryNewestFirst())
  }

  /** `CreateEntryAsync`: refuses a second entry for a calendar day, else inserts one row. */
  function CreateEntry(s: Store, entry: JournalEntry, now: Ticks): (r: Outcome<JournalEntry>)
    ensures r.Failed? <==> exists e :: e in s.entries && DayOf(e.entryDate) == DayOf(entry.entryDate)
    ensures r.Failed? ==> r.error == Conflict
    ensures r.Done? ==>
      && |r.store.entries| == |s.entries| + 1
      && r.store.entries[..|s.entries|] == s.entries
      && var row := r.store.entries[|s.entries|];
      && row.title == entry.title && row.content == entry.content
      && row.entryDate == DateOnly(entry.entryDate)
      && row.createdAt == now && row.updatedAt == now
      && (EntryIdsFresh(s) ==> forall e :: e in s.entries ==> e.id != row.id)
      && r.value == entry.(id := row.id, createdAt := now, updatedAt := now)
    ensures r.Done? ==>
      && r.store.entryMoods == s.entryMoods && r.store.entryTags == s.entryTags
      && r.store.moods == s.moods && r.store.tags == s.tags
  {
    if GetEntryByDate(s, entry.entryDate).Some? then Failed(Conflict)
    else
      var id := s.nextEntryId;
      var row := JournalEntry(id, entry.title, entry.content, DateOnly(entry.entryDate), now, now);
      assert EntryIdsFresh(s) ==> forall e :: e in s.entries ==> e.id != id by {
        if EntryIdsFresh(s) {
          forall e | e in s.entries ensures e.id != id {
            var i :| 0 <= i < |s.entries| && s.entries[i] == e;
          }
        }
      }
      var s' := s.(entries := s.entries + [row], nextEntryId := id + 1);
      assert s'.entries[..|s.entries|] == s.entries;
      Done(entry.(id := id, createdAt := now, updatedAt := now), s')
  }

  /** The row `UPDATE JournalEntry SET Title, Content, EntryDate, UpdatedAt` leaves behind. */
  function Rewritten(e: JournalEntry, entry: JournalEntry, now: Ticks): JournalEntry {
    if e.id == entry.id then
      e.(title := entry.title, content := entry.content, entryDate := DateOnly(entry.entryDate), updatedAt := now)
    else e
  }

  /**
   * The table after `UPDATE JournalEntry SET Title, Content, EntryDate, UpdatedAt
   * WHERE Id = @id`: the matching rows take the new text, day and update time
   * and keep their id and creation time; every other row is untouched.
   */
  function RewriteRows(entries: seq<JournalEntry>, entry: JournalEntry, now: Ticks): (r: seq<JournalEntry>)
    ensures |r| == |entries|
    ensures forall i :: 0 <= i < |entries| && entries[i].id != entry.id ==> r[i] == entries[i]
    ensures forall i :: 0 <= i < |entries| && entries[i].id == entry.id ==>
      && r[i].id == entry.id
      && r[i].title == entry.title
      && r[i].content == entry.content
      && r[i].entryDate == DateOnly(entry.entryDate)
      && r[i].createdAt == entries[i].createdAt
      && r[i].updatedAt == now
  {
    seq(|entries|, i requires 0 <= i < |entries| => Rewritten(entries[i], entry, now))
  }

  /**
   * `UpdateEntryAsync`: an unknown id is reported with `false`; moving an entry
   * onto a day another entry holds is refused; otherwise the row's title,
   * content, day and update time are rewritten.
   */
  function UpdateEntry(s: Store, entry: JournalEntry, now: Ticks): (r: Outcome<bool>)
    ensures (forall e :: e in s.entries ==> e.id != entry.id) ==> r == Done(false, s)
    ensures r.Failed? ==> r.error == Conflict
    ensures r.Done? && (exists e :: e in s.entries && e.id == entry.id) ==>
      r == Done(true, s.(entries := RewriteRows(s.entries, entry, now)))
  {
    match GetEntryById(s, entry.id)
    case None => Done(false, s)
    case Some(existing) =>
      var conflict := GetEntryByDate(s, entry.entryDate);
      if DayOf(existing.entryDate) != DayOf(entry.entryDate) && conflict.Some? && conflict.value.id != entry.id then
        Failed(Conflict)
      else
        var affected := |Filter(s.entries, EntryHasId(entry.id))|;
        assert existing in Filter(s.entries, EntryHasId(entry.id));
        Done(affected > 0, s.(entries := RewriteRows(s.entries, entry, now)))
  }

  /**
   * On a consistent store an update is refused exactly when the entry exists
   * and another entry already holds the new day.
   */
  lemma UpdateEntryConflict(s: Store, entry: JournalEntry, now: Ticks)
    requires Wf(s)
    ensures UpdateEntry(s, entry, now).Failed? <==>
      && (exists e :: e in s.entries && e.id == entry.id)
      && (exists o :: o in s.entries && o.id != entry.id && DayOf(o.entryDate) == DayOf(entry.entryDate))
  {
    match GetEntryById(s, entry.id)
    case None =>
    case Some(existing) =>
      var conflict := GetEntryByDate(s, entry.entryDate);
      if exists o :: o in s.entries && o.id != entry.id && DayOf(o.entryDate) == DayOf(entry.entryDate) {
        var o :| o in s.entries && o.id != entry.id && DayOf(o.entryDate) == DayOf(entry.entryDate);
        if DayOf(existing.entryDate) == DayOf(entry.entryDate) {
          DayDeterminesEntry(s, existing, o);
        }
        assert conflict.value.id != entry.id by {
          DayDeterminesEntry(s, conflict.value, o);
        }
      }
  }

  /** Keeping an entry on its own day can never conflict (the check only runs when the day changes). */
  lemma UpdateSameDayNeverConflicts(s: Store, entry: JournalEntry, now: Ticks)
    requires forall e :: e in s.entries && e.id == entry.id ==> DayOf(e.entryDate) == DayOf(entry.entryDate)
    ensures UpdateEntry(s, entry, now).Done?
  {
  }

  /** Deleting one entry leaves every other entry's rows, in every table, as they were. */
  lemma DeleteKeepsOtherRows(s: Store, id: int)
    ensures forall e :: e != id ==>
      Filter(Filter(s.entries, EntryLacksId(id)), EntryHasId(e)) == Filter(s.entries, EntryHasId(e))
    ensures forall e :: e != id ==>
      Filter(Filter(s.entryMoods, MoodRowNotOf(id)), MoodRowOf(e)) == Filter(s.entryMoods, MoodRowOf(e))
    ensures forall e :: e != id ==>
      Filter(Filter(s.entryTags, TagRowNotOf(id)), TagRowOf(e)) == Filter(s.entryTags, TagRowOf(e))
  {
    forall e | e != id
      ensures Filter(Filter(s.entries, EntryLacksId(id)), EntryHasId(e)) == Filter(s.entries, EntryHasId(e))
      ensures Filter(Filter(s.entryMoods, MoodRowNotOf(id)), MoodRowOf(e)) == Filter(s.entryMoods, MoodRowOf(e))
      ensures Filter(Filter(s.entryTags, TagRowNotOf(id)), TagRowOf(e)) == Filter(s.entryTags, TagRowOf(e))
    {
      FilterNarrow(s.entries, EntryLacksId(id), EntryHasId(e));
      FilterNarrow(s.entryMoods, MoodRowNotOf(id), MoodRowOf(e));
      FilterNarrow(s.entryTags, TagRowNotOf(id), TagRowOf(e));
    }
  }

  /**
   * `DeleteEntryAsync`: removes the entry's EntryMood and EntryTag rows, then
   * the entry, in one transaction; reports whether an entry row went away.
   */
  function DeleteEntry(s: Store, id: int): (r: Outcome<bool>)
    ensures r.Done?
    ensures r.value <==> exists e :: e in s.entries && e.id == id
    ensures forall e :: e in r.store.entries <==> e in s.entries && e.id != id
    ensures forall m :: m in r.store.entryMoods <==> m in s.entryMoods && m.entryId != id
    ensures forall t :: t in r.store.entryTags <==> t in s.entryTags && t.entryId != id
    ensures forall e :: e != id ==> Filter(r.store.entries, EntryHasId(e)) == Filter(s.entries, EntryHasId(e))
    ensures forall e :: e != id ==> Filter(r.store.entryMoods, MoodRowOf(e)) == Filter(s.entryMoods, MoodRowOf(e))
    ensures forall e :: e != id ==> Filter(r.store.entryTags, TagRowOf(e)) == Filter(s.entryTags, TagRowOf(e))
    ensures r.store.moods == s.moods && r.store.tags == s.tags
    ensures r.store.nextEntryId == s.nextEntryId && r.store.nextMoodId == s.nextMoodId
    ensures r.store.nextTagId == s.nextTagId
  {
    var moods := Filter(s.entryMoods, MoodRowNotOf(id));
    var tags := Filter(s.entryTags, TagRowNotOf(id));
    var entries := Filter(s.entries, EntryLacksId(id));
    DeleteKeepsOtherRows(s, id);
    var removed := |s.entries| - |entries|;
    assert removed > 0 <==> exists e :: e in s.entries && e.id == id by {
      FilterCount(s.entries, EntryLacksId(id));
    }
    Done(removed > 0, s.(entries := entries, entryMoods := moods, entryTags := tags))
  }

  // ---------------------------------------------------------------------------
  // What the entry operations preserve

  /** Appending a row with a larger id, a midnight date and a day of its own keeps the entry rules. */
  lemma AppendEntryKeepsRules(entries: seq<JournalEntry>, row: JournalEntry)
    requires EntryIdsUnique(entries) && OneEntryPerDay(entries) && DatesTruncated(entries)
    requires forall i :: 0 <= i < |entries| ==> entries[i].id < row.id
    requires forall e :: e in entries ==> DayOf(e.entryDate) != DayOf(row.entryDate)
    requires row.entryDate % TicksPerDay == 0
    ensures var t := entries + [row];
      EntryIdsUnique(t) && OneEntryPerDay(t) && DatesTruncated(t)
  {
    var t := entries + [row];
    forall i | 0 <= i < |entries| ensures t[i] == entries[i] && DayOf(t[i].entryDate) != DayOf(row.entryDate) {
      assert entries[i] in entries;
    }
  }

  lemma CreateEntryKeepsWf(s: Store, entry: JournalEntry, now: Ticks)
    requires Wf(s)
    ensures Wf(After(s, CreateEntry(s, entry, now)))
  {
    var o := CreateEntry(s, entry, now);
    if o.Done? {
      var n := |s.entries|;
      var row := o.store.entries[n];
      assert o.store.entries == s.entries + [row] by {
        assert o.store.entries == o.store.entries[..n] + [row];
      }
      assert row.id == s.nextEntryId;
      AppendEntryKeepsRules(s.entries, row);
      assert o.store == s.(entries := s.entries + [row], nextEntryId := s.nextEntryId + 1);
    }
  }

  /** Moving the rows of one id to a day no other row holds keeps one entry per day. */
  lemma RewriteKeepsOnePerDay(before: seq<JournalEntry>, after: seq<JournalEntry>, id: int, day: int)
    requires |after| == |before|
    requires EntryIdsUnique(before) && OneEntryPerDay(before)
    requires forall i :: 0 <= i < |before| && before[i].id != id ==> after[i] == before[i]
    requires forall i :: 0 <= i < |before| && before[i].id != id ==> DayOf(before[i].entryDate) != day
    requires forall i :: 0 <= i < |before| && before[i].id == id ==> DayOf(after[i].entryDate) == day
    ensures OneEntryPerDay(after)
  {
    forall i, j | 0 <= i < j < |after| ensures DayOf(after[i].entryDate) != DayOf(after[j].entryDate) {
      if before[i].id == id {
        assert before[j].id != id;
      }
    }
  }

  /** Rewriting an entry onto a day no other entry holds keeps the store consistent. */
  lemma RewriteRowsKeepsWf(s: Store, entry: JournalEntry, now: Ticks)
    requires Wf(s)
    requires forall o :: o in s.entries && o.id != entry.id ==> DayOf(o.entryDate) != DayOf(entry.entryDate)
    ensures Wf(s.(entries := RewriteRows(s.entries, entry, now)))
  {
    var after := RewriteRows(s.entries, entry, now);
    forall i | 0 <= i < |s.entries| && s.entries[i].id != entry.id
      ensures DayOf(s.entries[i].entryDate) != DayOf(entry.entryDate)
    {
      assert s.entries[i] in s.entries;
    }
    RewriteKeepsOnePerDay(s.entries, after, entry.id, DayOf(entry.entryDate));
    assert forall i :: 0 <= i < |after| ==> after[i].id == s.entries[i].id;
    assert DatesTruncated(after);
  }

  lemma UpdateEntryKeepsWf(s: Store, entry: JournalEntry, now: Ticks)
    requires Wf(s)
    ensures Wf(After(s, UpdateEntry(s, entry, now)))
  {
    UpdateEntryConflict(s, entry, now);
    if UpdateEntry(s, entry, now).Done? && exists e :: e in s.entries && e.id == entry.id {
      RewriteRowsKeepsWf(s, entry, now);
    }
  }

  /** Dropping the rows of one id keeps the entry rules: a selection keeps every pairwise fact. */
  lemma RemoveEntryKeepsRules(entries: seq<JournalEntry>, id: int)
    requires EntryIdsUnique(entries) && OneEntryPerDay(entries) && DatesTruncated(entries)
    ensures var t := Filter(entries, EntryLacksId(id));
      EntryIdsUnique(t) && OneEntryPerDay(t) && DatesTruncated(t)
  {
    var t := Filter(entries, EntryLacksId(id));
    FilterPairwise(entries, EntryLacksId(id), (a: JournalEntry, b: JournalEntry) => a.id != b.id);
    FilterPairwise(entries, EntryLacksId(id),
      (a: JournalEntry, b: JournalEntry) => DayOf(a.entryDate) != DayOf(b.entryDate));
    forall i | 0 <= i < |t| ensures t[i].entryDate % TicksPerDay == 0 {
      assert t[i] in entries;
    }
  }

  /** The surviving rows of every table keep the order they had. */
  lemma DeleteEntryKeepsOrder(s: Store, id: int)
    ensures var t := After(s, DeleteEntry(s, id));
      Subsequence(t.entries, s.entries) && Subsequence(t.entryMoods, s.entryMoods) &&
      Subsequence(t.entryTags, s.entryTags)
  {
    FilterSubsequence(s.entries, EntryLacksId(id));
    FilterSubsequence(s.entryMoods, MoodRowNotOf(id));
    FilterSubsequence(s.entryTags, TagRowNotOf(id));
  }

  lemma DeleteEntryKeepsWf(s: Store, id: int)
    requires Wf(s)
    ensures Wf(After(s, DeleteEntry(s, id)))
  {
    var t := After(s, DeleteEntry(s, id));
    RemoveEntryKeepsRules(s.entries, id);
    FilterPairwise(s.entryTags, TagRowNotOf(id), (a: EntryTag, b: EntryTag) => a != b);
    MoodRowsShapedWithout(s.entryMoods, id);
    assert t.entries == Filter(s.entries, EntryLacksId(id));
    assert forall i :: 0 <= i < |t.entries| ==> t.entries[i] in s.entries;
  }

  /** Creating stamps both times with `now`; existing rows keep theirs. */
  lemma CreateEntryKeepsClock(s: Store, entry: JournalEntry, before: Ticks, now: Ticks)
    requires ClockAtLeast(s, before) && before <= now
    ensures ClockAtLeast(After(s, CreateEntry(s, entry, now)), now)
  {
    var o := CreateEntry(s, entry, now);
    if o.Done? {
      assert o.store.entries[..|s.entries|] == s.entries;
      assert forall i :: 0 <= i < |s.entries| ==> o.store.entries[i] == s.entries[i];
    }
  }

  /** Updating moves `UpdatedAt` to `now` and never touches `CreatedAt`. */
  lemma UpdateEntryKeepsClock(s: Store, entry: JournalEntry, before: Ticks, now: Ticks)
    requires ClockAtLeast(s, before) && before <= now
    ensures ClockAtLeast(After(s, UpdateEntry(s, entry, now)), now)
  {
  }

  lemma DeleteEntryKeepsClock(s: Store, id: int, now: Ticks)
    requires ClockAtLeast(s, now)
    ensures ClockAtLeast(After(s, DeleteEntry(s, id)), now)
  {
    var t := After(s, DeleteEntry(s, id));
    forall i | 0 <= i < |t.entries| ensures t.entries[i].createdAt <= t.entries[i].updatedAt <= now {
      assert t.entries[i] in s.entries;
    }
  }
}
