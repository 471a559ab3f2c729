/**
 * The services used over the life of one database file: every write the app
 * can issue, applied in sequence, starting from the bootstrap of a new file.
 * The theorems say that no sequence of calls can break the schema's
 * constraints, the one-entry-per-day rule or the timestamps' order.
 */
module Journal {
  import opened Wrappers
  import opened Seqs
  import opened Text
  import opened Schema
  import opened Seeding
  import opened EntryStore
  import opened MoodLinks
  import opened TagLinks

  /** One write: a service call with its arguments, or an app start (which re-runs the seeding). */
  datatype Op =
    | Startup
    | CreateEntryOp(entry: JournalEntry, now: Ticks)
    | UpdateEntryOp(entry: JournalEntry, now: Ticks)
    | DeleteEntryOp(id: int)
    | SetEntryMoodsOp(entryId: int, primary: int, secondaries: Option<seq<int>>)
    | SetEntryTagsOp(entryId: int, tagIds: seq<int>)
    | CreateTagOp(name: Option<string>)

  /** The database after one write; a call that throws leaves it as it was. */
  function Apply(s: Store, op: Op): Store {
    match op
    case Startup => Initialize(s)
    case CreateEntryOp(entry, now) => After(s, CreateEntry(s, entry, now))
    case UpdateEntryOp(entry, now) => After(s, UpdateEntry(s, entry, now))
    case DeleteEntryOp(id) => After(s, DeleteEntry(s, id))
    case SetEntryMoodsOp(entryId, primary, secondaries) => After(s, SetEntryMoods(s, entryId, primary, secondaries))
    case SetEntryTagsOp(entryId, tagIds) => After(s, SetEntryTags(s, entryId, tagIds))
    case CreateTagOp(name) => After(s, CreateTagTrimmedCheck(s, name))
  }

  function Run(s: Store, ops: seq<Op>): Store
    decreases |ops|
  {
    if ops == [] then s else Run(Apply(s, ops[0]), ops[1..])
  }

  /** The same writes with `CreateTagAsync` as it is written (conflict check on the untrimmed name). */
  function ApplyAsWritten(s: Store, op: Op): Store {
    match op
    case CreateTagOp(name) => After(s, CreateTag(s, name))
    case _ => Apply(s, op)
  }

  function RunAsWritten(s: Store, ops: seq<Op>): Store
    decreases |ops|
  {
    if ops == [] then s else RunAsWritten(ApplyAsWritten(s, ops[0]), ops[1..])
  }

  /** Every mood and tag of the fixed lists is present. */
  ghost predicate Seeded(s: Store) {
    && (forall k :: 0 <= k < |MoodSeed| ==> HasMoodNamed(s.moods, MoodSeed[k].name))
    && (forall k :: 0 <= k < |TagSeed| ==> HasTagNamed(s.tags, TagSeed[k]))
  }

  /** The schema's constraints hold and the reference data is present. */
  ghost predicate Consistent(s: Store) {
    Wf(s) && Seeded(s)
  }

  /** `Consistent`, and no two tag names differ only in case. */
  ghost predicate Invariant(s: Store) {
    Consistent(s) && TagNamesCaseUnique(s.tags)
  }

  /** No two pre-built tags differ only in case. */
  lemma TagSeedCaseUnique()
    ensures forall i, j :: 0 <= i < j < |TagSeed| ==> !EqualsIgnoreCase(TagSeed[i], TagSeed[j])
  {
    forall i, j | 0 <= i < j < |TagSeed| ensures !EqualsIgnoreCase(TagSeed[i], TagSeed[j]) {
      var a := TagSeed[i];
      var b := TagSeed[j];
      if |a| == |b| {
        assert FoldCase(a)[0] != FoldCase(b)[0] || FoldCase(a)[1] != FoldCase(b)[1];
      }
    }
  }

  /** After the bootstrap every fixed mood and tag is present, whatever was there before. */
  lemma InitializeSeeds(s: Store)
    ensures Seeded(Initialize(s))
  {
    var m := SeedMoods(s);
    SeedMoodListCovers(s, MoodSeed);
    SeedTagListCovers(m, TagSeed);
    assert Initialize(s).moods == m.moods;
  }

  lemma CaseUniqueByNames(tags: seq<Tag>, names: seq<string>)
    requires TagNames(tags) == names
    requires forall i, j :: 0 <= i < j < |names| ==> !EqualsIgnoreCase(names[i], names[j])
    ensures TagNamesCaseUnique(tags)
  {
    forall i, j | 0 <= i < j < |tags| ensures !EqualsIgnoreCase(tags[i].name, tags[j].name) {
      assert tags[i].name == names[i] && tags[j].name == names[j];
    }
  }

  lemma FreshTagsCaseUnique()
    ensures TagNamesCaseUnique(Initialize(EmptyStore).tags)
  {
    InitializeEmpty();
    TagSeedCaseUnique();
    CaseUniqueByNames(Initialize(EmptyStore).tags, TagSeed);
  }

  /** A new database file, once bootstrapped, satisfies the invariant. */
  lemma FreshDatabase()
    ensures Invariant(Initialize(EmptyStore))
  {
    InitializeEmpty();
    InitializeSeeds(EmptyStore);
    FreshTagsCaseUnique();
  }

  /** On a seeded database a restart changes nothing. */
  lemma StartupOnSeeded(s: Store)
    requires Seeded(s)
    ensures Initialize(s) == s
  {
    SeedMoodListNoop(s, MoodSeed);
    SeedTagListNoop(s, TagSeed);
  }

  /** A write that only appends tags keeps every fixed mood and tag present. */
  lemma AppendedTagsKeepSeeded(s: Store, t: Store)
    requires Seeded(s) && t.moods == s.moods
    requires |s.tags| <= |t.tags| && t.tags[..|s.tags|] == s.tags
    ensures Seeded(t)
  {
    forall k | 0 <= k < |TagSeed| ensures HasTagNamed(t.tags, TagSeed[k]) {
      assert HasTagNamed(s.tags, TagSeed[k]);
      var x :| x in s.tags && x.name == TagSeed[k];
      var i :| 0 <= i < |s.tags| && s.tags[i] == x;
      assert t.tags[i] == x;
    }
  }

  lemma CreateTagKeepsConsistent(s: Store, name: Option<string>)
    requires Consistent(s)
    ensures Consistent(After(s, CreateTag(s, name)))
  {
    var o := CreateTag(s, name);
    CreateTagKeepsWf(s, name);
    if o.Done? {
      assert o.store.tags[..|s.tags|] == s.tags;
      AppendedTagsKeepSeeded(s, o.store);
    }
  }

  lemma CreateTagTrimmedCheckKeepsInvariant(s: Store, name: Option<string>)
    requires Invariant(s)
    ensures Invariant(After(s, CreateTagTrimmedCheck(s, name)))
  {
    var o := CreateTagTrimmedCheck(s, name);
    CreateTagTrimmedCheckKeepsWf(s, name);
    CreateTagTrimmedCheckKeepsCaseUnique(s, name);
    if o.Done? {
      assert o.store.tags[..|s.tags|] == s.tags;
      AppendedTagsKeepSeeded(s, o.store);
    }
  }

  /** A write that leaves the Mood and Tag tables alone keeps the reference data as it was. */
  lemma SameReferenceData(s: Store, t: Store)
    requires Consistent(s) && Wf(t) && t.moods == s.moods && t.tags == s.tags
    ensures Consistent(t)
  {
  }

  lemma EntryWriteKeepsConsistent(s: Store, op: Op)
    requires Consistent(s) && (op.CreateEntryOp? || op.UpdateEntryOp? || op.DeleteEntryOp?)
    ensures Consistent(Apply(s, op)) && Apply(s, op).tags == s.tags
  {
    match op
    case CreateEntryOp(entry, now) =>
      CreateEntryKeepsWf(s, entry, now);
    case UpdateEntryOp(entry, now) =>
      UpdateEntryKeepsWf(s, entry, now);
    case DeleteEntryOp(id) =>
      DeleteEntryKeepsWf(s, id);
    SameReferenceData(s, Apply(s, op));
  }

  lemma LinkWriteKeepsConsistent(s: Store, op: Op)
    requires Consistent(s) && (op.SetEntryMoodsOp? || op.SetEntryTagsOp?)
    ensures Consistent(Apply(s, op)) && Apply(s, op).tags == s.tags
  {
    match op
    case SetEntryMoodsOp(entryId, primary, secondaries) =>
      SetEntryMoodsKeepsWf(s, entryId, primary, secondaries);
    case SetEntryTagsOp(entryId, tagIds) =>
      SetEntryTagsKeepsWf(s, entryId, tagIds);
    SameReferenceData(s, Apply(s, op));
  }

  /** Every write but tag creation keeps the constraints and the Tag table as they were. */
  lemma OtherWriteKeepsConsistent(s: Store, op: Op)
    requires Consistent(s) && !op.CreateTagOp?
    ensures Consistent(Apply(s, op)) && Apply(s, op).tags == s.tags
  {
    match op
    case Startup =>
      StartupOnSeeded(s);
    case SetEntryMoodsOp(_, _, _) =>
      LinkWriteKeepsConsistent(s, op);
    case SetEntryTagsOp(_, _) =>
      LinkWriteKeepsConsistent(s, op);
    case CreateEntryOp(_, _) =>
      EntryWriteKeepsConsistent(s, op);
    case UpdateEntryOp(_, _) =>
      EntryWriteKeepsConsistent(s, op);
    case DeleteEntryOp(_) =>
      EntryWriteKeepsConsistent(s, op);
  }

  /** With the corrected conflict check, every write keeps the full invariant. */
  lemma ApplyKeepsInvariant(s: Store, op: Op)
    requires Invariant(s)
    ensures Invariant(Apply(s, op))
  {
    if op.CreateTagOp? {
      CreateTagTrimmedCheckKeepsInvariant(s, op.name);
    } else {
      OtherWriteKeepsConsistent(s, op);
    }
  }

  /** With `CreateTagAsync` as written, every write still keeps the constraints and the reference data. */
  lemma ApplyAsWrittenKeepsConsistent(s: Store, op: Op)
    requires Consistent(s)
    ensures Consistent(ApplyAsWritten(s, op))
  {
    if op.CreateTagOp? {
      CreateTagKeepsConsistent(s, op.name);
    } else {
      OtherWriteKeepsConsistent(s, op);
    }
  }

  lemma {:induction false} RunKeepsInvariant(s: Store, ops: seq<Op>)
    requires Invariant(s)
    ensures Invariant(Run(s, ops))
    decreases |ops|
  {
    if ops != [] {
      ApplyKeepsInvariant(s, ops[0]);
      RunKeepsInvariant(Apply(s, ops[0]), ops[1..]);
    }
  }

  /**
   * Whatever the app does after creating its database, at most one entry
   * exists per calendar day, ids and names stay unique (tag names even
   * ignoring case), every entry's moods stay one primary plus at most two
   * secondaries, and the fixed moods and tags stay present.
   */
  lemma LifetimeInvariant(ops: seq<Op>)
    ensures Invariant(Run(Initialize(EmptyStore), ops))
  {
    FreshDatabase();
    RunKeepsInvariant(Initialize(EmptyStore), ops);
  }

  lemma {:induction false} RunAsWrittenKeepsConsistent(s: Store, ops: seq<Op>)
    requires Consistent(s)
    ensures Consistent(RunAsWritten(s, ops))
    decreases |ops|
  {
    if ops != [] {
      ApplyAsWrittenKeepsConsistent(s, ops[0]);
      RunAsWrittenKeepsConsistent(ApplyAsWritten(s, ops[0]), ops[1..]);
    }
  }

  /**
   * With the services as written, whatever the app does after creating its
   * database, the schema's constraints hold and the fixed moods and tags stay
   * present; only case-insensitive uniqueness of tag names can be lost.
   */
  lemma LifetimeAsWritten(ops: seq<Op>)
    ensures Consistent(RunAsWritten(Initialize(EmptyStore), ops))
  {
    FreshDatabase();
    RunAsWrittenKeepsConsistent(Initialize(EmptyStore), ops);
  }

  /** No pre-built tag name is " work" ignoring case, nor exactly "work". */
  lemma SpacedWorkIsNew()
    ensures forall n :: n in TagSeed ==> !EqualsIgnoreCase(n, " work") && n != "work"
  {
    forall k | 0 <= k < |TagSeed| ensures !EqualsIgnoreCase(TagSeed[k], " work") && TagSeed[k] != "work" {
      assert TagSeed[k][0] != 'w' && TagSeed[k][0] != ' ';
      assert FoldCase(TagSeed[k])[0] != ' ' || |TagSeed[k]| != 5;
    }
  }

  lemma NamedTags(tags: seq<Tag>)
    ensures forall t :: t in tags ==> t.name in TagNames(tags)
  {
    forall t | t in tags ensures t.name in TagNames(tags) {
      var i :| 0 <= i < |tags| && tags[i] == t;
      assert TagNames(tags)[i] == t.name;
    }
  }

  /** On a Tag table holding exactly the pre-built names, " work" is not blank and clashes with no name. */
  lemma SpacedWorkPassesSeededChecks(s: Store)
    requires TagNames(s.tags) == TagSeed
    ensures !IsNullOrWhiteSpace(Some(" work"))
    ensures forall t :: t in s.tags ==> !EqualsIgnoreCase(t.name, " work") && t.name != Trim(" work")
  {
    TrimLeadingSpaceLower();
    SpacedWorkIsNew();
    NamedTags(s.tags);
    assert !IsWhiteSpace(" work"[1]);
  }

  /** ... so `CreateTagAsync` as written accepts it and appends "work". */
  lemma SpacedWorkAcceptedWhenSeeded(s: Store)
    requires TagNames(s.tags) == TagSeed
    ensures var o := CreateTag(s, Some(" work"));
      o.Done? && o.value.name == "work" && o.store.tags == s.tags + [o.value]
  {
    SpacedWorkPassesSeededChecks(s);
    TrimLeadingSpaceLower();
  }

  /**
   * On a Tag table holding exactly the pre-built names, `CreateTagAsync(" work")`
   * as written stores "work" beside "Work".
   */
  lemma SeededAdmitsCaseVariant(s: Store)
    requires TagNames(s.tags) == TagSeed
    ensures var o := CreateTag(s, Some(" work"));
      && o.Done? && o.value.name == "work"
      && !TagNamesCaseUnique(o.store.tags)
  {
    SpacedWorkAcceptedWhenSeeded(s);
    WorkSpellings();
    var o := CreateTag(s, Some(" work"));
    assert o.store.tags[0].name == TagNames(s.tags)[0] == "Work";
    CaseVariantBreaksUnique(o.store.tags, 0, |s.tags|);
  }

  /**
   * Straight after the bootstrap the full invariant holds, and one call of
   * `CreateTagAsync(" work")` as written breaks it.
   */
  lemma FreshAppAdmitsCaseVariant()
    ensures Invariant(Initialize(EmptyStore))
    ensures var o := CreateTag(Initialize(EmptyStore), Some(" work"));
      o.Done? && !TagNamesCaseUnique(o.store.tags)
  {
    FreshDatabase();
    InitializeEmpty();
    SeededAdmitsCaseVariant(Initialize(EmptyStore));
  }

  // ---------------------------------------------------------------------------
  // Timestamps

  /** The clock reading an operation stamps rows with, if it reads the clock. */
  function NowOf(op: Op, previous: Ticks): Ticks {
    match op
    case CreateEntryOp(_, now) => now
    case UpdateEntryOp(_, now) => now
    case _ => previous
  }

  /** The clock readings never go backwards from `t` on. */
  ghost predicate ClockedFrom(ops: seq<Op>, t: Ticks)
    decreases |ops|
  {
    ops == [] || (t <= NowOf(ops[0], t) && ClockedFrom(ops[1..], NowOf(ops[0], t)))
  }

  function LastNow(ops: seq<Op>, t: Ticks): Ticks
    decreases |ops|
  {
    if ops == [] then t else LastNow(ops[1..], NowOf(ops[0], t))
  }

  /** Tag creation never touches entries, so the as-written writes keep the clock exactly as `Apply` does. */
  lemma ApplyAsWrittenKeepsClock(s: Store, op: Op, t: Ticks)
    requires ClockAtLeast(s, t) && t <= NowOf(op, t)
    ensures ClockAtLeast(ApplyAsWritten(s, op), NowOf(op, t))
  {
    if !op.CreateTagOp? {
      ApplyKeepsClock(s, op, t);
    }
  }

  lemma ApplyKeepsClock(s: Store, op: Op, t: Ticks)
    requires ClockAtLeast(s, t) && t <= NowOf(op, t)
    ensures ClockAtLeast(Apply(s, op), NowOf(op, t))
  {
    match op
    case CreateEntryOp(entry, now) =>
      CreateEntryKeepsClock(s, entry, t, now);
    case UpdateEntryOp(entry, now) =>
      UpdateEntryKeepsClock(s, entry, t, now);
    case DeleteEntryOp(id) =>
      DeleteEntryKeepsClock(s, id, t);
    case _ =>
  }

  /**
   * As long as the clock does not run backwards, no entry is ever updated
   * before it was created, and none carries a time later than the last reading.
   */
  lemma {:induction false} RunKeepsClock(s: Store, ops: seq<Op>, t: Ticks)
    requires ClockAtLeast(s, t) && ClockedFrom(ops, t)
    ensures ClockAtLeast(Run(s, ops), LastNow(ops, t))
    decreases |ops|
  {
    if ops != [] {
      ApplyKeepsClock(s, ops[0], t);
      RunKeepsClock(Apply(s, ops[0]), ops[1..], NowOf(ops[0], t));
    }
  }

  /** The same, with the services as written. */
  lemma {:induction false} RunAsWrittenKeepsClock(s: Store, ops: seq<Op>, t: Ticks)
    requires ClockAtLeast(s, t) && ClockedFrom(ops, t)
    ensures ClockAtLeast(RunAsWritten(s, ops), LastNow(ops, t))
    decreases |ops|
  {
    if ops != [] {
      ApplyAsWrittenKeepsClock(s, ops[0], t);
      RunAsWrittenKeepsClock(ApplyAsWritten(s, ops[0]), ops[1..], NowOf(ops[0], t));
    }
  }
}
