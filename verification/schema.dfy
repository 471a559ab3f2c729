/**
 * The journal database as one immutable value: the rows of the JournalEntry,
 * EntryMood, EntryTag, Mood and Tag tables in rowid order, plus the
 * AUTOINCREMENT counters that hand out fresh ids. The constraints the schema
 * declares (UNIQUE names, UNIQUE (EntryId, TagId)) and the one-entry-per-day
 * rule the services enforce are collected in `Wf`.
 */
module Schema {
  import opened Wrappers
  import opened Seqs
  import opened Text
  import opened Sorting

  /** A `DateTime` as its tick count (100 ns units since 0001-01-01). */
  type Ticks = nat

  const TicksPerDay: nat := 864_000_000_000

  /** The calendar day of an instant: what SQLite's `DATE()` compares. */
  function DayOf(t: Ticks): int {
    t / TicksPerDay
  }

  /** `DateTime.Date`: the instant truncated to midnight. */
  function DateOnly(t: Ticks): (r: Ticks)
    ensures DayOf(r) == DayOf(t)
    ensures r <= t < r + TicksPerDay
    ensures r % TicksPerDay == 0
  {
    (t / TicksPerDay) * TicksPerDay
  }

  datatype JournalEntry = JournalEntry(
    id: int,
    title: string,
    content: string,
    entryDate: Ticks,
    createdAt: Ticks,
    updatedAt: Ticks)

  datatype Mood = Mood(id: int, name: string, category: string)

  datatype Tag = Tag(id: int, name: string, isPreBuilt: bool)

  /** One EntryMood row (its surrogate key is never read and is not kept). */
  datatype EntryMood = EntryMood(entryId: int, moodId: int, isPrimary: bool)

  /** One EntryTag row (its surrogate key is never read and is not kept). */
  datatype EntryTag = EntryTag(entryId: int, tagId: int)

  datatype Store = Store(
    entries: seq<JournalEntry>,
    entryMoods: seq<EntryMood>,
    entryTags: seq<EntryTag>,
    moods: seq<Mood>,
    tags: seq<Tag>,
    nextEntryId: int,
    nextMoodId: int,
    nextTagId: int)

  /** A freshly created database file: empty tables, AUTOINCREMENT starting at 1. */
  const EmptyStore := Store([], [], [], [], [], 1, 1, 1)

  /** The exceptions the services raise. */
  datatype Error =
    | Conflict     // InvalidOperationException: the day or the tag name is taken
    | Validation   // ArgumentException / InvalidOperationException on bad input
    | Constraint   // SqliteException: a UNIQUE column rejected the INSERT

  /**
   * What a service call does: it returns a value and the database afterwards,
   * or it throws before anything was committed, in which case the database is
   * the one the call started from.
   */
  datatype Outcome<T> = Done(value: T, store: Store) | Failed(error: Error)

  function After<T>(s: Store, o: Outcome<T>): Store {
    if o.Done? then o.store else s
  }

  // ---------------------------------------------------------------------------
  // Row selections

  function EntryHasId(id: int): JournalEntry -> bool {
    (e: JournalEntry) => e.id == id
  }

  function EntryLacksId(id: int): JournalEntry -> bool {
    (e: JournalEntry) => e.id != id
  }

  function MoodRowOf(entryId: int): EntryMood -> bool {
    (r: EntryMood) => r.entryId == entryId
  }

  function MoodRowNotOf(entryId: int): EntryMood -> bool {
    (r: EntryMood) => r.entryId != entryId
  }

  function TagRowOf(entryId: int): EntryTag -> bool {
    (r: EntryTag) => r.entryId == entryId
  }

  function TagRowNotOf(entryId: int): EntryTag -> bool {
    (r: EntryTag) => r.entryId != entryId
  }

  function PrimaryRowOf(entryId: int): EntryMood -> bool {
    (r: EntryMood) => r.entryId == entryId && r.isPrimary
  }

  function SecondaryRowOf(entryId: int): EntryMood -> bool {
    (r: EntryMood) => r.entryId == entryId && !r.isPrimary
  }

  // ---------------------------------------------------------------------------
  // Integrity

  ghost predicate EntryIdsFresh(s: Store) {
    && 0 < s.nextEntryId
    && forall i :: 0 <= i < |s.entries| ==> 0 < s.entries[i].id < s.nextEntryId
  }

  ghost predicate EntryIdsUnique(entries: seq<JournalEntry>) {
    forall i, j :: 0 <= i < j < |entries| ==> entries[i].id != entries[j].id
  }

  /** The one-entry-per-day rule, kept only by the services (no index enforces it). */
  ghost predicate OneEntryPerDay(entries: seq<JournalEntry>) {
    forall i, j :: 0 <= i < j < |entries| ==> DayOf(entries[i].entryDate) != DayOf(entries[j].entryDate)
  }

  /** Every stored EntryDate is a midnight, as written by `EntryDate.Date`. */
  ghost predicate DatesTruncated(entries: seq<JournalEntry>) {
    forall i :: 0 <= i < |entries| ==> entries[i].entryDate % TicksPerDay == 0
  }

  ghost predicate MoodKeys(s: Store) {
    && 0 < s.nextMoodId
    && (forall i :: 0 <= i < |s.moods| ==> 0 < s.moods[i].id < s.nextMoodId)
    && (forall i, j :: 0 <= i < j < |s.moods| ==> s.moods[i].id != s.moods[j].id)
  }

  /** `Mood.Name TEXT NOT NULL UNIQUE`. */
  ghost predicate MoodNamesUnique(moods: seq<Mood>) {
    forall i, j :: 0 <= i < j < |moods| ==> moods[i].name != moods[j].name
  }

  ghost predicate TagKeys(s: Store) {
    && 0 < s.nextTagId
    && (forall i :: 0 <= i < |s.tags| ==> 0 < s.tags[i].id < s.nextTagId)
    && (forall i, j :: 0 <= i < j < |s.tags| ==> s.tags[i].id != s.tags[j].id)
  }

  /** `Tag.Name TEXT NOT NULL UNIQUE` (BINARY collation: exact equality). */
  ghost predicate TagNamesUnique(tags: seq<Tag>) {
    forall i, j :: 0 <= i < j < |tags| ==> tags[i].name != tags[j].name
  }

  /** `UNIQUE(EntryId, TagId)` on EntryTag. */
  ghost predicate EntryTagPairsUnique(rows: seq<EntryTag>) {
    NoDup(rows)
  }

  /** Every entry with mood rows has exactly one primary and at most two secondaries. */
  ghost predicate MoodRowsShaped(rows: seq<EntryMood>) {
    forall i :: 0 <= i < |rows| ==>
      && |Filter(rows, PrimaryRowOf(rows[i].entryId))| == 1
      && |Filter(rows, SecondaryRowOf(rows[i].entryId))| <= 2
  }

  ghost predicate Wf(s: Store) {
    && EntryIdsFresh(s)
    && EntryIdsUnique(s.entries)
    && OneEntryPerDay(s.entries)
    && DatesTruncated(s.entries)
    && MoodKeys(s)
    && MoodNamesUnique(s.moods)
    && TagKeys(s)
    && TagNamesUnique(s.tags)
    && EntryTagPairsUnique(s.entryTags)
    && MoodRowsShaped(s.entryMoods)
  }

  /** No entry was created or touched later than `now`, and none was touched before it was created. */
  ghost predicate ClockAtLeast(s: Store, now: Ticks) {
    forall i :: 0 <= i < |s.entries| ==> s.entries[i].createdAt <= s.entries[i].updatedAt <= now
  }

  /** Deleting all mood rows of one entry leaves every other entry's rows as they were. */
  lemma MoodRowsShapedWithout(rows: seq<EntryMood>, id: int)
    requires MoodRowsShaped(rows)
    ensures MoodRowsShaped(Filter(rows, MoodRowNotOf(id)))
  {
    var kept := Filter(rows, MoodRowNotOf(id));
    forall i | 0 <= i < |kept|
      ensures |Filter(kept, PrimaryRowOf(kept[i].entryId))| == 1
      ensures |Filter(kept, SecondaryRowOf(kept[i].entryId))| <= 2
    {
      var e := kept[i].entryId;
      assert kept[i] in rows;
      var k :| 0 <= k < |rows| && rows[k] == kept[i];
      FilterNarrow(rows, MoodRowNotOf(id), PrimaryRowOf(e));
      FilterNarrow(rows, MoodRowNotOf(id), SecondaryRowOf(e));
    }
  }

  lemma EmptyStoreWf()
    ensures Wf(EmptyStore)
  {
  }

  // ---------------------------------------------------------------------------
  // Orders used by the ORDER BY clauses

  /** `ORDER BY EntryDate DESC`. */
  function EntryNewestFirst(): (JournalEntry, JournalEntry) -> bool {
    (a: JournalEntry, b: JournalEntry) => a.entryDate >= b.entryDate
  }

  /** `ORDER BY t.Name`. */
  function TagByName(): (Tag, Tag) -> bool {
    (a: Tag, b: Tag) => StrLe(a.name, b.name)
  }

  /** `ORDER BY IsPreBuilt DESC, Name`. */
  function TagPreBuiltFirst(): (Tag, Tag) -> bool {
    (a: Tag, b: Tag) =>
      (a.isPreBuilt && !b.isPreBuilt) || (a.isPreBuilt == b.isPreBuilt && StrLe(a.name, b.name))
  }

  /** `ORDER BY Category, Name`. */
  function MoodByCategory(): (Mood, Mood) -> bool {
    (a: Mood, b: Mood) =>
      StrLt(a.category, b.category) || (a.category == b.category && StrLe(a.name, b.name))
  }

  lemma EntryNewestFirstIsTotal()
    ensures TotalPreorder(EntryNewestFirst())
  {
  }

  lemma TagByNameIsTotal()
    ensures TotalPreorder(TagByName())
  {
    var le := TagByName();
    forall a, b ensures le(a, b) || le(b, a) {
      StrLeTotal(a.name, b.name);
    }
    forall a, b, c | le(a, b) && le(b, c) ensures le(a, c) {
      StrLeTransitive(a.name, b.name, c.name);
    }
  }

  lemma TagPreBuiltFirstIsTotal()
    ensures TotalPreorder(TagPreBuiltFirst())
  {
    var le := TagPreBuiltFirst();
    forall a, b ensures le(a, b) || le(b, a) {
      StrLeTotal(a.name, b.name);
    }
    forall a, b, c | le(a, b) && le(b, c) ensures le(a, c) {
      if a.isPreBuilt == b.isPreBuilt == c.isPreBuilt {
        StrLeTransitive(a.name, b.name, c.name);
      }
    }
  }

  lemma MoodByCategoryIsTotal()
    ensures TotalPreorder(MoodByCategory())
  {
    var le := MoodByCategory();
    forall a, b ensures le(a, b) || le(b, a) {
      StrLeTotal(a.name, b.name);
      StrLeTotal(a.category, b.category);
    }
    forall a, b, c | le(a, b) && le(b, c) ensures le(a, c) {
      if a.category == b.category == c.category {
        StrLeTransitive(a.name, b.name, c.name);
      } else {
        StrLeReflexive(b.category);
        StrLeTransitive(a.category, b.category, c.category);
        if a.category == c.category {
          StrLeAntisymmetric(a.category, b.category);
        }
      }
    }
  }
}
