/**
 * The mood half of `JournalDbService`: replacing an entry's moods, reading
 * them back through the join with Mood, and listing every mood.
 */
module MoodLinks {
  import opened Wrappers
  import opened Seqs
  import opened Sorting
  import opened Schema

  function MoodHasId(id: int): Mood -> bool {
    (m: Mood) => m.id == id
  }

  /** The rows `SetEntryMoodsAsync` inserts: the primary first, then each secondary in list order. */
  function NewMoodRows(entryId: int, primary: int, secondaries: seq<int>): (r: seq<EntryMood>)
    ensures |r| == |secondaries| + 1
  {
    [EntryMood(entryId, primary, true)]
      + seq(|secondaries|, i requires 0 <= i < |secondaries| => EntryMood(entryId, secondaries[i], false))
  }

  function MoodIdsOf(rows: seq<EntryMood>): (r: seq<int>)
    ensures |r| == |rows|
  {
    seq(|rows|, i requires 0 <= i < |rows| => rows[i].moodId)
  }

  /** The entry's only primary row after `SetEntryMoodsAsync` is the one it inserted. */
  lemma NewRowsPrimary(rows: seq<EntryMood>, entryId: int, primary: int, secondaries: seq<int>)
    requires forall r :: r in rows ==> r.entryId != entryId
    ensures Filter(rows + NewMoodRows(entryId, primary, secondaries), PrimaryRowOf(entryId))
      == [EntryMood(entryId, primary, true)]
  {
    var added := NewMoodRows(entryId, primary, secondaries);
    var head := [EntryMood(entryId, primary, true)];
    var tail := added[1..];
    assert added == head + tail;
    FilterConcat(rows, added, PrimaryRowOf(entryId));
    FilterConcat(head, tail, PrimaryRowOf(entryId));
    FilterNone(rows, PrimaryRowOf(entryId));
    FilterNone(tail, PrimaryRowOf(entryId));
    FilterAll(head, PrimaryRowOf(entryId));
  }

  /** The entry's secondary rows after `SetEntryMoodsAsync` carry the given ids in order. */
  lemma NewRowsSecondary(rows: seq<EntryMood>, entryId: int, primary: int, secondaries: seq<int>)
    requires forall r :: r in rows ==> r.entryId != entryId
    ensures MoodIdsOf(Filter(rows + NewMoodRows(entryId, primary, secondaries), SecondaryRowOf(entryId)))
      == secondaries
  {
    var added := NewMoodRows(entryId, primary, secondaries);
    var head := [EntryMood(entryId, primary, true)];
    var tail := added[1..];
    assert added == head + tail;
    assert Filter(rows + added, SecondaryRowOf(entryId)) == tail by {
      FilterConcat(rows, added, SecondaryRowOf(entryId));
      FilterConcat(head, tail, SecondaryRowOf(entryId));
      FilterNone(rows, SecondaryRowOf(entryId));
      FilterAll(tail, SecondaryRowOf(entryId));
      FilterNone(head, SecondaryRowOf(entryId));
    }
    assert forall i :: 0 <= i < |secondaries| ==> tail[i].moodId == secondaries[i];
  }

  lemma NewRowsOfEntry(rows: seq<EntryMood>, entryId: int, primary: int, secondaries: seq<int>)
    requires forall r :: r in rows ==> r.entryId != entryId
    ensures Filter(rows + NewMoodRows(entryId, primary, secondaries), MoodRowOf(entryId))
      == NewMoodRows(entryId, primary, secondaries)
  {
    var added := NewMoodRows(entryId, primary, secondaries);
    FilterConcat(rows, added, MoodRowOf(entryId));
    FilterNone(rows, MoodRowOf(entryId));
    FilterAll(added, MoodRowOf(entryId));
  }

  lemma NewRowsOthers(rows: seq<EntryMood>, entryId: int, primary: int, secondaries: seq<int>)
    requires forall r :: r in rows ==> r.entryId != entryId
    ensures Filter(rows + NewMoodRows(entryId, primary, secondaries), MoodRowNotOf(entryId)) == rows
  {
    var added := NewMoodRows(entryId, primary, secondaries);
    FilterConcat(rows, added, MoodRowNotOf(entryId));
    FilterAll(rows, MoodRowNotOf(entryId));
    FilterNone(added, MoodRowNotOf(entryId));
  }

  /**
   * `SetEntryMoodsAsync`: at most two secondaries (a missing list is none);
   * the entry's old rows are deleted and one primary plus the secondaries
   * are inserted, duplicates included, in one transaction.
   */
  function SetEntryMoods(s: Store, entryId: int, primary: int, secondaries: Option<seq<int>>): (r: Outcome<()>)
    ensures r.Failed? <==> |secondaries.GetOr([])| > 2
    ensures r.Failed? ==> r.error == Validation
    ensures r.Done? ==>
      && Filter(r.store.entryMoods, PrimaryRowOf(entryId)) == [EntryMood(entryId, primary, true)]
      && MoodIdsOf(Filter(r.store.entryMoods, SecondaryRowOf(entryId))) == secondaries.GetOr([])
      && Filter(r.store.entryMoods, MoodRowNotOf(entryId)) == Filter(s.entryMoods, MoodRowNotOf(entryId))
      && r.store == s.(entryMoods := r.store.entryMoods)
  {
    var list := secondaries.GetOr([]);
    if |list| > 2 then Failed(Validation)
    else
      var kept := Filter(s.entryMoods, MoodRowNotOf(entryId));
      NewRowsPrimary(kept, entryId, primary, list);
      NewRowsSecondary(kept, entryId, primary, list);
      NewRowsOthers(kept, entryId, primary, list);
      FilterFilter(s.entryMoods, MoodRowNotOf(entryId), MoodRowNotOf(entryId));
      Done((), s.(entryMoods := kept + NewMoodRows(entryId, primary, list)))
  }

  /** Appending rows of other entries does not change what an entry's rows are. */
  lemma AppendOtherRows(kept: seq<EntryMood>, added: seq<EntryMood>, e: int)
    requires forall r :: r in added ==> r.entryId != e
    ensures Filter(kept + added, PrimaryRowOf(e)) == Filter(kept, PrimaryRowOf(e))
    ensures Filter(kept + added, SecondaryRowOf(e)) == Filter(kept, SecondaryRowOf(e))
  {
    FilterConcat(kept, added, PrimaryRowOf(e));
    FilterConcat(kept, added, SecondaryRowOf(e));
    FilterNone(added, PrimaryRowOf(e));
    FilterNone(added, SecondaryRowOf(e));
  }

  /** Replacing one entry's rows by a primary and at most two secondaries keeps every entry well shaped. */
  lemma ReplacedRowsShaped(rows: seq<EntryMood>, entryId: int, primary: int, secondaries: seq<int>)
    requires MoodRowsShaped(rows) && |secondaries| <= 2
    ensures MoodRowsShaped(Filter(rows, MoodRowNotOf(entryId)) + NewMoodRows(entryId, primary, secondaries))
  {
    var kept := Filter(rows, MoodRowNotOf(entryId));
    var added := NewMoodRows(entryId, primary, secondaries);
    var all := kept + added;
    MoodRowsShapedWithout(rows, entryId);
    NewRowsPrimary(kept, entryId, primary, secondaries);
    NewRowsSecondary(kept, entryId, primary, secondaries);
    forall i | 0 <= i < |all|
      ensures |Filter(all, PrimaryRowOf(all[i].entryId))| == 1
      ensures |Filter(all, SecondaryRowOf(all[i].entryId))| <= 2
    {
      var e := all[i].entryId;
      if e != entryId {
        assert i < |kept|;
        assert all[i] == kept[i];
        AppendOtherRows(kept, added, e);
      }
    }
  }

  lemma SetEntryMoodsKeepsWf(s: Store, entryId: int, primary: int, secondaries: Option<seq<int>>)
    requires Wf(s)
    ensures Wf(After(s, SetEntryMoods(s, entryId, primary, secondaries)))
  {
    var list := secondaries.GetOr([]);
    if |list| <= 2 {
      ReplacedRowsShaped(s.entryMoods, entryId, primary, list);
    }
  }

  /** What `GetEntryMoodsAsync` returns. */
  datatype EntryMoods = EntryMoods(primary: Option<Mood>, secondaries: seq<Mood>)

  /**
   * Reads the joined rows in order: every row joins the moods with its id;
   * a primary row overwrites the primary read so far, a secondary row is
   * appended to the list.
   */
  function ReadMoodRows(rows: seq<EntryMood>, moods: seq<Mood>): (r: EntryMoods)
    ensures forall m :: m in r.secondaries <==>
      m in moods && exists row :: row in rows && !row.isPrimary && row.moodId == m.id
    ensures r.primary.Some? <==>
      exists row, m :: row in rows && row.isPrimary && m in moods && m.id == row.moodId
    ensures r.primary.Some? ==>
      r.primary.value in moods && exists row :: row in rows && row.isPrimary && row.moodId == r.primary.value.id
    decreases |rows|
  {
    if rows == [] then EntryMoods(None, [])
    else
      var prefix := rows[..|rows| - 1];
      var row := rows[|rows| - 1];
      assert rows == prefix + [row];
      var acc := ReadMoodRows(prefix, moods);
      var found := Filter(moods, MoodHasId(row.moodId));
      assert row in rows;
      if row.isPrimary then
        if found == [] then
          assert forall m :: m in moods ==> m.id != row.moodId;
          EntryMoods(acc.primary, acc.secondaries)
        else
          assert found[|found| - 1] in found;
          EntryMoods(Some(found[|found| - 1]), acc.secondaries)
      else
        EntryMoods(acc.primary, acc.secondaries + found)
  }

  /** `GetEntryMoodsAsync`: the entry's rows joined with Mood. */
  function GetEntryMoods(s: Store, entryId: int): (r: EntryMoods)
    ensures forall m :: m in r.secondaries <==> m in s.moods && EntryMood(entryId, m.id, false) in s.entryMoods
    ensures r.primary.Some? <==>
      exists row, m :: row in s.entryMoods && row.entryId == entryId && row.isPrimary && m in s.moods && m.id == row.moodId
    ensures r.primary.Some? ==>
      r.primary.value in s.moods && EntryMood(entryId, r.primary.value.id, true) in s.entryMoods
  {
    var rows := Filter(s.entryMoods, MoodRowOf(entryId));
    var r := ReadMoodRows(rows, s.moods);
    assert forall m :: m in r.secondaries ==> EntryMood(entryId, m.id, false) in s.entryMoods;
    assert forall m :: m in s.moods && EntryMood(entryId, m.id, false) in s.entryMoods ==> m in r.secondaries by {
      forall m | m in s.moods && EntryMood(entryId, m.id, false) in s.entryMoods ensures m in r.secondaries {
        assert EntryMood(entryId, m.id, false) in rows;
      }
    }
    r
  }

  /** The moods with the given ids, id by id in list order: the reference for a read-back. */
  function MoodsWithIds(moods: seq<Mood>, ids: seq<int>): seq<Mood>
    decreases |ids|
  {
    if ids == [] then []
    else MoodsWithIds(moods, ids[..|ids| - 1]) + Filter(moods, MoodHasId(ids[|ids| - 1]))
  }

  lemma {:induction false} ReadNewMoodRows(entryId: int, primary: int, secondaries: seq<int>, moods: seq<Mood>)
    ensures ReadMoodRows(NewMoodRows(entryId, primary, secondaries), moods).secondaries
      == MoodsWithIds(moods, secondaries)
    decreases |secondaries|
  {
    var rows := NewMoodRows(entryId, primary, secondaries);
    if secondaries == [] {
      assert rows[..|rows| - 1] == [];
    } else {
      var shorter := secondaries[..|secondaries| - 1];
      assert rows[..|rows| - 1] == NewMoodRows(entryId, primary, shorter);
      ReadNewMoodRows(entryId, primary, shorter, moods);
    }
  }

  /** Only the primary row sets the primary: it is the last mood carrying the primary id, if any. */
  lemma {:induction false} ReadNewMoodRowsPrimary(entryId: int, primary: int, secondaries: seq<int>, moods: seq<Mood>)
    ensures var found := Filter(moods, MoodHasId(primary));
      ReadMoodRows(NewMoodRows(entryId, primary, secondaries), moods).primary
        == if found == [] then None else Some(found[|found| - 1])
    decreases |secondaries|
  {
    var rows := NewMoodRows(entryId, primary, secondaries);
    if secondaries == [] {
      assert rows[..|rows| - 1] == [];
    } else {
      var shorter := secondaries[..|secondaries| - 1];
      assert rows[..|rows| - 1] == NewMoodRows(entryId, primary, shorter);
      ReadNewMoodRowsPrimary(entryId, primary, shorter, moods);
    }
  }

  /**
   * Reading back after a successful write: the primary is the mood with the
   * primary id when such a mood exists, and the secondaries are the moods with
   * the secondary ids, in the order they were given.
   */
  lemma SetThenGetMoods(s: Store, entryId: int, primary: int, secondaries: seq<int>)
    requires |secondaries| <= 2
    ensures var o := SetEntryMoods(s, entryId, primary, Some(secondaries));
      && o.Done?
      && var r := GetEntryMoods(o.store, entryId);
      && (r.primary.Some? <==> exists m :: m in s.moods && m.id == primary)
      && (r.primary.Some? ==> r.primary.value in s.moods && r.primary.value.id == primary)
      && r.secondaries == MoodsWithIds(s.moods, secondaries)
  {
    SetThenReadRows(s, entryId, primary, secondaries);
    ReadNewMoodRows(entryId, primary, secondaries, s.moods);
    ReadNewMoodRowsPrimary(entryId, primary, secondaries, s.moods);
    var found := Filter(s.moods, MoodHasId(primary));
    if found != [] {
      assert found[|found| - 1] in found;
    }
  }

  /** After the write, the read joins exactly the rows the write inserted. */
  lemma SetThenReadRows(s: Store, entryId: int, primary: int, secondaries: seq<int>)
    requires |secondaries| <= 2
    ensures var o := SetEntryMoods(s, entryId, primary, Some(secondaries));
      && o.Done?
      && GetEntryMoods(o.store, entryId) == ReadMoodRows(NewMoodRows(entryId, primary, secondaries), s.moods)
  {
    var o := SetEntryMoods(s, entryId, primary, Some(secondaries));
    var kept := Filter(s.entryMoods, MoodRowNotOf(entryId));
    NewRowsOfEntry(kept, entryId, primary, secondaries);
    assert o.store.entryMoods == kept + NewMoodRows(entryId, primary, secondaries);
  }

  /** `GetAllMoodsAsync`: every mood once, by category then name. */
  function GetAllMoods(s: Store): (r: seq<Mood>)
    ensures multiset(r) == multiset(s.moods)
    ensures Sorted(r, MoodByCategory())
  {
    MoodByCategoryIsTotal();
    SortBy(s.moods, MoodByCategory())
  }
}
