/**
 * The tag half of `JournalDbService`: replacing an entry's tags, reading them
 * back, listing every tag and creating a custom one.
 */
module TagLinks {
  import opened Wrappers
  import opened Seqs
  import opened Sorting
  import opened Text
  import opened Schema

  function TagHasId(id: int): Tag -> bool {
    (t: Tag) => t.id == id
  }

  function IsPositive(): int -> bool {
    (x: int) => x > 0
  }

  /** `tagIds.Where(id => id > 0).Distinct()`: the positive ids, each once, first occurrences in order. */
  function NormalizeTagIds(ids: seq<int>): (r: seq<int>)
    ensures NoDup(r)
    ensures forall x :: x in r <==> x in ids && x > 0
  {
    Distinct(Filter(ids, IsPositive()))
  }

  /** Normalizing a normalized list changes nothing. */
  lemma NormalizeTagIdsIdempotent(ids: seq<int>)
    ensures NormalizeTagIds(NormalizeTagIds(ids)) == NormalizeTagIds(ids)
  {
    var r := NormalizeTagIds(ids);
    FilterAll(r, IsPositive());
  }

  /** The rows the insert loop writes, one per id in list order. */
  function NewTagRows(entryId: int, ids: seq<int>): (r: seq<EntryTag>)
    ensures |r| == |ids|
  {
    seq(|ids|, i requires 0 <= i < |ids| => EntryTag(entryId, ids[i]))
  }

  function TagIdsOf(rows: seq<EntryTag>): (r: seq<int>)
    ensures |r| == |rows|
  {
    seq(|rows|, i requires 0 <= i < |rows| => rows[i].tagId)
  }

  lemma NewTagRowsSplit(rows: seq<EntryTag>, entryId: int, ids: seq<int>)
    requires forall r :: r in rows ==> r.entryId != entryId
    ensures Filter(rows + NewTagRows(entryId, ids), TagRowOf(entryId)) == NewTagRows(entryId, ids)
    ensures Filter(rows + NewTagRows(entryId, ids), TagRowNotOf(entryId)) == rows
  {
    var added := NewTagRows(entryId, ids);
    FilterConcat(rows, added, TagRowOf(entryId));
    FilterConcat(rows, added, TagRowNotOf(entryId));
    FilterNone(rows, TagRowOf(entryId));
    FilterAll(rows, TagRowNotOf(entryId));
    FilterAll(added, TagRowOf(entryId));
    FilterNone(added, TagRowNotOf(entryId));
  }

  /**
   * `SetEntryTagsAsync`: drops non-positive and repeated ids, deletes the
   * entry's rows and inserts one row per remaining id, in one transaction.
   */
  function SetEntryTags(s: Store, entryId: int, tagIds: seq<int>): (r: Outcome<()>)
    ensures r.Done?
    ensures forall t :: EntryTag(entryId, t) in r.store.entryTags <==> t in tagIds && t > 0
    ensures NoDup(Filter(r.store.entryTags, TagRowOf(entryId)))
    ensures TagIdsOf(Filter(r.store.entryTags, TagRowOf(entryId))) == NormalizeTagIds(tagIds)
    ensures Filter(r.store.entryTags, TagRowNotOf(entryId)) == Filter(s.entryTags, TagRowNotOf(entryId))
    ensures r.store == s.(entryTags := r.store.entryTags)
  {
    var ids := NormalizeTagIds(tagIds);
    var kept := Filter(s.entryTags, TagRowNotOf(entryId));
    var added := NewTagRows(entryId, ids);
    NewTagRowsSplit(kept, entryId, ids);
    FilterFilter(s.entryTags, TagRowNotOf(entryId), TagRowNotOf(entryId));
    assert forall t :: EntryTag(entryId, t) in kept + added <==> t in ids by {
      forall t ensures EntryTag(entryId, t) in kept + added <==> t in ids {
        if t in ids {
          var i :| 0 <= i < |ids| && ids[i] == t;
          assert added[i] == EntryTag(entryId, t);
        }
      }
    }
    assert NoDup(added) by {
      forall i, j | 0 <= i < j < |added| ensures added[i] != added[j] {
        assert ids[i] != ids[j];
      }
    }
    assert TagIdsOf(added) == ids;
    Done((), s.(entryTags := kept + added))
  }

  lemma SetEntryTagsKeepsWf(s: Store, entryId: int, tagIds: seq<int>)
    requires Wf(s)
    ensures Wf(After(s, SetEntryTags(s, entryId, tagIds)))
  {
    var kept := Filter(s.entryTags, TagRowNotOf(entryId));
    var added := NewTagRows(entryId, NormalizeTagIds(tagIds));
    FilterPairwise(s.entryTags, TagRowNotOf(entryId), (a: EntryTag, b: EntryTag) => a != b);
    assert NoDup(added) by {
      NewTagRowsSplit(kept, entryId, NormalizeTagIds(tagIds));
    }
    NoDupConcat(kept, added);
  }

  /** Every tag whose id a row carries, row by row: the inner join with Tag. */
  function JoinTags(rows: seq<EntryTag>, tags: seq<Tag>): (r: seq<Tag>)
    ensures forall t :: t in r <==> t in tags && exists row :: row in rows && row.tagId == t.id
    decreases |rows|
  {
    if rows == [] then []
    else
      assert rows == [rows[0]] + rows[1..];
      Filter(tags, TagHasId(rows[0].tagId)) + JoinTags(rows[1..], tags)
  }

  /** No two rows name the same tag. */
  ghost predicate TagIdsDistinct(rows: seq<EntryTag>) {
    forall i, j :: 0 <= i < j < |rows| ==> rows[i].tagId != rows[j].tagId
  }

  /** No two tags share an id. */
  lemma TagKeysNoDup(s: Store)
    requires TagKeys(s)
    ensures NoDup(s.tags)
  {
  }

  /** Joining rows that name distinct tags with a keyed Tag table yields each tag once. */
  lemma {:induction false} JoinTagsNoDup(rows: seq<EntryTag>, tags: seq<Tag>)
    requires TagIdsDistinct(rows) && NoDup(tags)
    requires forall i, j :: 0 <= i < j < |tags| ==> tags[i].id != tags[j].id
    ensures NoDup(JoinTags(rows, tags))
    decreases |rows|
  {
    if rows != [] {
      var head := Filter(tags, TagHasId(rows[0].tagId));
      var rest := JoinTags(rows[1..], tags);
      assert TagIdsDistinct(rows[1..]) by {
        forall i, j | 0 <= i < j < |rows[1..]| ensures rows[1..][i].tagId != rows[1..][j].tagId {
          assert rows[1..][i] == rows[i + 1] && rows[1..][j] == rows[j + 1];
        }
      }
      JoinTagsNoDup(rows[1..], tags);
      FilterPairwise(tags, TagHasId(rows[0].tagId), (a: Tag, b: Tag) => a != b);
      assert forall row :: row in rows[1..] ==> row.tagId != rows[0].tagId by {
        forall row | row in rows[1..] ensures row.tagId != rows[0].tagId {
          var k :| 0 <= k < |rows[1..]| && rows[1..][k] == row;
          assert rows[k + 1] == row;
        }
      }
      NoDupConcat(head, rest);
    }
  }

  /** The rows of one entry, if no row repeats, name distinct tags. */
  lemma EntryRowsTagIdsDistinct(rows: seq<EntryTag>, entryId: int)
    requires NoDup(Filter(rows, TagRowOf(entryId)))
    ensures TagIdsDistinct(Filter(rows, TagRowOf(entryId)))
  {
    var mine := Filter(rows, TagRowOf(entryId));
    forall i, j | 0 <= i < j < |mine| ensures mine[i].tagId != mine[j].tagId {
      assert mine[i] in mine && mine[j] in mine;
    }
  }

  /** The join behind `GetEntryTagsAsync`, before sorting: the entry's tags, each once when keyed. */
  lemma EntryJoinFacts(s: Store, entryId: int)
    ensures var joined := JoinTags(Filter(s.entryTags, TagRowOf(entryId)), s.tags);
      && (forall t :: t in joined <==> t in s.tags && EntryTag(entryId, t.id) in s.entryTags)
      && (TagKeys(s) && NoDup(Filter(s.entryTags, TagRowOf(entryId))) ==> NoDup(joined))
      && (TagKeys(s) && EntryTagPairsUnique(s.entryTags) ==> NoDup(joined))
  {
    var rows := Filter(s.entryTags, TagRowOf(entryId));
    var joined := JoinTags(rows, s.tags);
    assert forall t :: t in s.tags && EntryTag(entryId, t.id) in s.entryTags ==> t in joined by {
      forall t | t in s.tags && EntryTag(entryId, t.id) in s.entryTags ensures t in joined {
        assert EntryTag(entryId, t.id) in rows;
      }
    }
    if EntryTagPairsUnique(s.entryTags) {
      FilterPairwise(s.entryTags, TagRowOf(entryId), (a: EntryTag, b: EntryTag) => a != b);
    }
    if TagKeys(s) && NoDup(rows) {
      TagKeysNoDup(s);
      EntryRowsTagIdsDistinct(s.entryTags, entryId);
      JoinTagsNoDup(rows, s.tags);
    }
  }

  /** `GetEntryTagsAsync`: the entry's tags, by name, each once. */
  function GetEntryTags(s: Store, entryId: int): (r: seq<Tag>)
    ensures forall t :: t in r <==> t in s.tags && EntryTag(entryId, t.id) in s.entryTags
    ensures Sorted(r, TagByName())
    ensures TagKeys(s) && NoDup(Filter(s.entryTags, TagRowOf(entryId))) ==> NoDup(r)
    ensures TagKeys(s) && EntryTagPairsUnique(s.entryTags) ==> NoDup(r)
  {
    var joined := JoinTags(Filter(s.entryTags, TagRowOf(entryId)), s.tags);
    var r := SortBy(joined, TagByName());
    EntryJoinFacts(s, entryId);
    TagByNameIsTotal();
    forall t ensures t in r <==> t in joined {
      SortByMembers(joined, TagByName(), t);
    }
    assert NoDup(joined) ==> NoDup(r) by {
      if NoDup(joined) {
        NoDupPermutation(joined, r);
      }
    }
    r
  }

  /**
   * Reading back after setting: exactly the existing tags whose ids were
   * given and positive, and, with keyed tags, each of them once however
   * often its id was given.
   */
  lemma SetThenGetTags(s: Store, entryId: int, tagIds: seq<int>)
    ensures var r := GetEntryTags(SetEntryTags(s, entryId, tagIds).store, entryId);
      && (forall t :: t in r <==> t in s.tags && t.id in tagIds && t.id > 0)
      && (TagKeys(s) ==> NoDup(r))
  {
  }

  /** `GetAllTagsAsync`: every tag once, pre-built ones first, each group by name. */
  function GetAllTags(s: Store): (r: seq<Tag>)
    ensures multiset(r) == multiset(s.tags)
    ensures Sorted(r, TagPreBuiltFirst())
  {
    TagPreBuiltFirstIsTotal();
    SortBy(s.tags, TagPreBuiltFirst())
  }

  // ---------------------------------------------------------------------------
  // Creating a tag

  /**
   * `INSERT INTO Tag (Name, IsPreBuilt) VALUES (@name, 0)`: a user tag under
   * the next AUTOINCREMENT id, appended after the existing rows.
   */
  function InsertTag(s: Store, name: string): (r: (Tag, Store))
    ensures r.0.name == name && !r.0.isPreBuilt
    ensures r.1 == s.(tags := s.tags + [r.0], nextTagId := r.1.nextTagId)
    ensures TagKeys(s) ==> forall t :: t in s.tags ==> t.id != r.0.id
    ensures TagKeys(s) ==> TagKeys(r.1)
  {
    var tag := Tag(s.nextTagId, name, false);
    assert TagKeys(s) ==> forall t :: t in s.tags ==> t.id != tag.id by {
      if TagKeys(s) {
        forall t | t in s.tags ensures t.id != tag.id {
          var i :| 0 <= i < |s.tags| && s.tags[i] == t;
        }
      }
    }
    (tag, s.(tags := s.tags + [tag], nextTagId := s.nextTagId + 1))
  }

  /** Appending a tag with a fresh name, keys intact, keeps every constraint. */
  lemma AppendedTagKeepsWf(s: Store, r: Store, tag: Tag)
    requires Wf(s) && r == s.(tags := s.tags + [tag], nextTagId := r.nextTagId) && TagKeys(r)
    requires forall t :: t in s.tags ==> t.name != tag.name
    ensures Wf(r)
  {
    var t := r.tags;
    assert forall i :: 0 <= i < |s.tags| ==> t[i] == s.tags[i];
    forall i | 0 <= i < |s.tags| ensures t[i].name != t[|s.tags|].name {
      assert s.tags[i] in s.tags;
    }
  }

  /** Inserting a name no tag has yet keeps the store consistent. */
  lemma InsertTagKeepsWf(s: Store, name: string)
    requires Wf(s)
    requires forall t :: t in s.tags ==> t.name != name
    ensures Wf(InsertTag(s, name).1)
  {
    var (tag, r) := InsertTag(s, name);
    AppendedTagKeepsWf(s, r, tag);
  }

  /**
   * `CreateTagAsync` as written: a null or blank name is rejected; a name
   * equal, ignoring case, to an existing tag is a conflict; but the check
   * compares the name as given while the row stores it trimmed, so an exact
   * clash of the trimmed name only surfaces as the UNIQUE constraint failing.
   */
  function CreateTag(s: Store, name: Option<string>): (r: Outcome<Tag>)
    ensures r.Failed? && r.error == Validation <==> IsNullOrWhiteSpace(name)
    ensures !IsNullOrWhiteSpace(name) ==>
      (r.Failed? && r.error == Conflict <==> exists t :: t in s.tags && EqualsIgnoreCase(t.name, name.value))
    ensures r.Failed? && r.error == Constraint ==> exists t :: t in s.tags && t.name == Trim(name.value)
    ensures r.Done? ==>
      && r.value.name == Trim(name.value) && r.value.name != [] && !r.value.isPreBuilt
      && (forall t :: t in s.tags ==> t.name != r.value.name)
      && r.store == s.(tags := s.tags + [r.value], nextTagId := r.store.nextTagId)
      && (TagKeys(s) ==> forall t :: t in s.tags ==> t.id != r.value.id)
      && (TagKeys(s) ==> TagKeys(r.store))
  {
    if IsNullOrWhiteSpace(name) then Failed(Validation)
    else if exists t :: t in s.tags && EqualsIgnoreCase(t.name, name.value) then Failed(Conflict)
    else
      var trimmed := Trim(name.value);
      if exists t :: t in s.tags && t.name == trimmed then Failed(Constraint)
      else
        TrimEmptyIffWhiteSpace(name.value);
        var (tag, s') := InsertTag(s, trimmed);
        Done(tag, s')
  }

  lemma CreateTagKeepsWf(s: Store, name: Option<string>)
    requires Wf(s)
    ensures Wf(After(s, CreateTag(s, name)))
  {
    var o := CreateTag(s, name);
    if o.Done? {
      AppendedTagKeepsWf(s, o.store, o.value);
    }
  }

  /** No two tags have names equal ignoring case: what the conflict check is meant to keep. */
  ghost predicate TagNamesCaseUnique(tags: seq<Tag>) {
    forall i, j :: 0 <= i < j < |tags| ==> !EqualsIgnoreCase(tags[i].name, tags[j].name)
  }

  lemma TrimLeadingSpaceLower()
    ensures Trim(" work") == "work"
  {
    assert TrimStart("work") == "work" by {
      assert !IsWhiteSpace("work"[0]);
    }
    assert TrimStart(" work") == "work" by {
      assert IsWhiteSpace(" work"[0]) && " work"[1..] == "work";
    }
    assert TrimEnd("work") == "work" by {
      assert !IsWhiteSpace("work"[3]);
    }
  }

  lemma TrimLeadingSpace()
    ensures Trim(" Work") == "Work"
  {
    assert TrimStart("Work") == "Work" by {
      assert !IsWhiteSpace("Work"[0]);
    }
    assert TrimStart(" Work") == "Work" by {
      assert IsWhiteSpace(" Work"[0]) && " Work"[1..] == "Work";
    }
    assert TrimEnd("Work") == "Work" by {
      assert !IsWhiteSpace("Work"[3]);
    }
  }

  lemma WorkSpellings()
    ensures !EqualsIgnoreCase("work", " Work")
    ensures EqualsIgnoreCase("work", "Work")
    ensures "work" != "Work"
  {
    assert FoldCase("work") == FoldCase("Work");
    assert "work"[0] != "Work"[0];
  }

  /** Two names equal ignoring case are enough to break case-insensitive uniqueness. */
  lemma CaseVariantBreaksUnique(tags: seq<Tag>, i: nat, j: nat)
    requires i < j < |tags| && EqualsIgnoreCase(tags[i].name, tags[j].name)
    ensures !TagNamesCaseUnique(tags)
  {
  }

  /** A database holding one user tag, "work". */
  const WorkStore := EmptyStore.(tags := [Tag(1, "work", false)], nextTagId := 2)

  lemma WorkStoreConsistent()
    ensures Wf(WorkStore) && TagNamesCaseUnique(WorkStore.tags)
  {
  }

  lemma SpacedWorkPassesChecks()
    ensures !IsNullOrWhiteSpace(Some(" Work"))
    ensures forall t :: t in WorkStore.tags ==> !EqualsIgnoreCase(t.name, " Work") && t.name != Trim(" Work")
  {
    TrimLeadingSpace();
    WorkSpellings();
    assert !IsWhiteSpace(" Work"[1]);
    assert WorkStore.tags == [Tag(1, "work", false)];
  }

  /** " Work" passes every check beside "work" and is stored trimmed. */
  lemma SpacedWorkAccepted()
    ensures var o := CreateTag(WorkStore, Some(" Work"));
      o.Done? && o.value.name == "Work" && o.store.tags == WorkStore.tags + [o.value]
  {
    SpacedWorkPassesChecks();
    TrimLeadingSpace();
  }

  /**
   * The check compares the untrimmed name, so " Work" passes beside "work"
   * and is stored as "Work": two tags that differ only in case.
   */
  lemma CreateTagAdmitsCaseVariant()
    ensures var o := CreateTag(WorkStore, Some(" Work"));
      && Wf(WorkStore) && TagNamesCaseUnique(WorkStore.tags)
      && o.Done? && o.value.name == "Work"
      && !TagNamesCaseUnique(o.store.tags)
  {
    WorkStoreConsistent();
    SpacedWorkAccepted();
    WorkSpellings();
    var o := CreateTag(WorkStore, Some(" Work"));
    CaseVariantBreaksUnique(o.store.tags, 0, 1);
  }

  /** `CreateTagAsync` with the duplicate check applied to the name that is actually stored. */
  function CreateTagTrimmedCheck(s: Store, name: Option<string>): (r: Outcome<Tag>)
    ensures r.Failed? && r.error == Validation <==> IsNullOrWhiteSpace(name)
    ensures r.Done? <==>
      !IsNullOrWhiteSpace(name) && forall t :: t in s.tags ==> !EqualsIgnoreCase(t.name, Trim(name.value))
    ensures r.Failed? ==> r.error != Constraint
    ensures r.Done? ==>
      && r.value.name == Trim(name.value) && r.value.name != [] && !r.value.isPreBuilt
      && r.store == s.(tags := s.tags + [r.value], nextTagId := r.store.nextTagId)
      && (TagKeys(s) ==> forall t :: t in s.tags ==> t.id != r.value.id)
  {
    if IsNullOrWhiteSpace(name) then Failed(Validation)
    else
      var trimmed := Trim(name.value);
      if exists t :: t in s.tags && EqualsIgnoreCase(t.name, trimmed) then Failed(Conflict)
      else
        TrimEmptyIffWhiteSpace(name.value);
        var (tag, s') := InsertTag(s, trimmed);
        Done(tag, s')
  }

  /** The corrected creation keeps tag names unique ignoring case. */
  lemma CreateTagTrimmedCheckKeepsCaseUnique(s: Store, name: Option<string>)
    requires TagNamesCaseUnique(s.tags)
    ensures TagNamesCaseUnique(After(s, CreateTagTrimmedCheck(s, name)).tags)
  {
    var o := CreateTagTrimmedCheck(s, name);
    if o.Done? {
      var t := o.store.tags;
      forall i, j | 0 <= i < j < |t| ensures !EqualsIgnoreCase(t[i].name, t[j].name) {
        if j == |s.tags| {
          assert t[i] == s.tags[i];
        } else {
          assert t[i] == s.tags[i] && t[j] == s.tags[j];
        }
      }
    }
  }

  lemma CreateTagTrimmedCheckKeepsWf(s: Store, name: Option<string>)
    requires Wf(s)
    ensures Wf(After(s, CreateTagTrimmedCheck(s, name)))
  {
    var o := CreateTagTrimmedCheck(s, name);
    if o.Done? {
      var trimmed := Trim(name.value);
      forall t | t in s.tags ensures t.name != trimmed {
        if t.name == trimmed {
          EqualsIgnoreCaseOfEqual(t.name, trimmed);
        }
      }
      InsertTagKeepsWf(s, trimmed);
    }
  }
}
