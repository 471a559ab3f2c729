/**
 * Reference-data seeding run by `AuthDbService.InitializeDatabase` on every
 * start: each fixed mood and pre-built tag is inserted only if no row has
 * exactly that name.
 */
module Seeding {
  import opened Seqs
  import opened Schema

  /** A mood to seed: its name and its category. */
  datatype MoodSpec = MoodSpec(name: string, category: string)

  const PositiveMoods: seq<MoodSpec> := [
    MoodSpec("Happy", "Positive"), MoodSpec("Excited", "Positive"), MoodSpec("Relaxed", "Positive"),
    MoodSpec("Grateful", "Positive"), MoodSpec("Confident", "Positive")
  ]

  const NeutralMoods: seq<MoodSpec> := [
    MoodSpec("Calm", "Neutral"), MoodSpec("Thoughtful", "Neutral"), MoodSpec("Curious", "Neutral"),
    MoodSpec("Nostalgic", "Neutral"), MoodSpec("Bored", "Neutral")
  ]

  const NegativeMoods: seq<MoodSpec> := [
    MoodSpec("Sad", "Negative"), MoodSpec("Angry", "Negative"), MoodSpec("Stressed", "Negative"),
    MoodSpec("Lonely", "Negative"), MoodSpec("Anxious", "Negative")
  ]

  /** The fifteen fixed (name, category) pairs, in insertion order. */
  const MoodSeed: seq<MoodSpec> := PositiveMoods + NeutralMoods + NegativeMoods

  /** The ten pre-built tag names, in insertion order. */
  const TagSeed: seq<string> := [
    "Work", "Health", "Travel", "Fitness", "Family",
    "Friends", "Hobbies", "Learning", "Goals", "Reflection"
  ]

  /** `SELECT COUNT(*) FROM Mood WHERE Name = $name` is positive. */
  predicate HasMoodNamed(moods: seq<Mood>, name: string) {
    exists m :: m in moods && m.name == name
  }

  /** `SELECT COUNT(*) FROM Tag WHERE Name = $name` is positive. */
  predicate HasTagNamed(tags: seq<Tag>, name: string) {
    exists t :: t in tags && t.name == name
  }

  function MoodPairs(moods: seq<Mood>): (r: seq<MoodSpec>)
    ensures |r| == |moods|
  {
    seq(|moods|, i requires 0 <= i < |moods| => MoodSpec(moods[i].name, moods[i].category))
  }

  function TagNames(tags: seq<Tag>): (r: seq<string>)
    ensures |r| == |tags|
  {
    seq(|tags|, i requires 0 <= i < |tags| => tags[i].name)
  }

  ghost predicate PairNamesDistinct(items: seq<MoodSpec>) {
    forall i, j :: 0 <= i < j < |items| ==> items[i].name != items[j].name
  }

  /** The listed moods whose name has no row yet, in list order. */
  function AbsentMoods(items: seq<MoodSpec>, moods: seq<Mood>): seq<MoodSpec>
    decreases |items|
  {
    if items == [] then []
    else (if HasMoodNamed(moods, items[0].name) then [] else [items[0]]) + AbsentMoods(items[1..], moods)
  }

  /** The listed tag names that have no row yet, in list order. */
  function AbsentTags(names: seq<string>, tags: seq<Tag>): seq<string>
    decreases |names|
  {
    if names == [] then []
    else (if HasTagNamed(tags, names[0]) then [] else [names[0]]) + AbsentTags(names[1..], tags)
  }

  /**
   * One pass of the `SeedMoods` loop: the pair is appended exactly when its
   * name has no row, under the next id; afterwards the name has a row, and
   * the name and key constraints still hold.
   */
  function SeedMood(s: Store, name: string, category: string): (r: Store)
    ensures r == s.(moods := r.moods, nextMoodId := r.nextMoodId)
    ensures |s.moods| <= |r.moods| && r.moods[..|s.moods|] == s.moods
    ensures MoodPairs(r.moods[|s.moods|..]) == AbsentMoods([MoodSpec(name, category)], s.moods)
    ensures forall m :: m in r.moods[|s.moods|..] ==> m.id == s.nextMoodId
    ensures r.nextMoodId == s.nextMoodId + (|r.moods| - |s.moods|)
    ensures forall n :: HasMoodNamed(r.moods, n) <==> HasMoodNamed(s.moods, n) || n == name
    ensures MoodNamesUnique(s.moods) && MoodKeys(s) ==> MoodNamesUnique(r.moods) && MoodKeys(r)
  {
    if HasMoodNamed(s.moods, name) then
      assert s.moods[|s.moods|..] == [];
      s
    else
      var m := Mood(s.nextMoodId, name, category);
      var r := s.(moods := s.moods + [m], nextMoodId := s.nextMoodId + 1);
      assert r.moods[|s.moods|..] == [m];
      assert forall n :: HasMoodNamed(r.moods, n) <==> HasMoodNamed(s.moods, n) || n == name by {
        forall n ensures HasMoodNamed(r.moods, n) <==> HasMoodNamed(s.moods, n) || n == name {
          assert m in r.moods;
          if HasMoodNamed(s.moods, n) {
            var x :| x in s.moods && x.name == n;
            assert x in r.moods;
          }
        }
      }
      assert forall i :: 0 <= i < |s.moods| ==> s.moods[i].name != name by {
        forall i | 0 <= i < |s.moods| ensures s.moods[i].name != name {
          assert s.moods[i] in s.moods;
        }
      }
      r
  }

  /**
   * One pass of the `SeedTags` loop: the name is appended as a pre-built tag
   * exactly when it has no row, under the next id; afterwards the name has a
   * row, and the name and key constraints still hold.
   */
  function SeedTag(s: Store, name: string): (r: Store)
    ensures r == s.(tags := r.tags, nextTagId := r.nextTagId)
    ensures |s.tags| <= |r.tags| && r.tags[..|s.tags|] == s.tags
    ensures TagNames(r.tags[|s.tags|..]) == AbsentTags([name], s.tags)
    ensures forall t :: t in r.tags[|s.tags|..] ==> t.id == s.nextTagId && t.isPreBuilt
    ensures r.nextTagId == s.nextTagId + (|r.tags| - |s.tags|)
    ensures forall n :: HasTagNamed(r.tags, n) <==> HasTagNamed(s.tags, n) || n == name
    ensures TagNamesUnique(s.tags) && TagKeys(s) ==> TagNamesUnique(r.tags) && TagKeys(r)
  {
    if HasTagNamed(s.tags, name) then
      assert s.tags[|s.tags|..] == [];
      s
    else
      var t := Tag(s.nextTagId, name, true);
      var r := s.(tags := s.tags + [t], nextTagId := s.nextTagId + 1);
      assert r.tags[|s.tags|..] == [t];
      assert forall n :: HasTagNamed(r.tags, n) <==> HasTagNamed(s.tags, n) || n == name by {
        forall n ensures HasTagNamed(r.tags, n) <==> HasTagNamed(s.tags, n) || n == name {
          assert t in r.tags;
          if HasTagNamed(s.tags, n) {
            var x :| x in s.tags && x.name == n;
            assert x in r.tags;
          }
        }
      }
      assert forall i :: 0 <= i < |s.tags| ==> s.tags[i].name != name by {
        forall i | 0 <= i < |s.tags| ensures s.tags[i].name != name {
          assert s.tags[i] in s.tags;
        }
      }
      r
  }

  /** The loop of `SeedMoods` over an arbitrary list of pairs; only Mood rows are appended. */
  function SeedMoodList(s: Store, items: seq<MoodSpec>): (r: Store)
    ensures r == s.(moods := r.moods, nextMoodId := r.nextMoodId)
    ensures |s.moods| <= |r.moods| && r.moods[..|s.moods|] == s.moods
    decreases |items|
  {
    if items == [] then s
    else
      var s1 := SeedMood(s, items[0].name, items[0].category);
      var r := SeedMoodList(s1, items[1..]);
      assert r.moods[..|s.moods|] == r.moods[..|s1.moods|][..|s.moods|];
      r
  }

  /** The loop of `SeedTags` over an arbitrary list of names; only Tag rows are appended. */
  function SeedTagList(s: Store, names: seq<string>): (r: Store)
    ensures r == s.(tags := r.tags, nextTagId := r.nextTagId)
    ensures |s.tags| <= |r.tags| && r.tags[..|s.tags|] == s.tags
    decreases |names|
  {
    if names == [] then s
    else
      var s1 := SeedTag(s, names[0]);
      var r := SeedTagList(s1, names[1..]);
      assert r.tags[..|s.tags|] == r.tags[..|s1.tags|][..|s.tags|];
      r
  }

  /** Seeding never duplicates a name and keeps the mood keys fresh. */
  lemma {:induction false} SeedMoodListKeepsConstraints(s: Store, items: seq<MoodSpec>)
    requires MoodNamesUnique(s.moods) && MoodKeys(s)
    ensures MoodNamesUnique(SeedMoodList(s, items).moods) && MoodKeys(SeedMoodList(s, items))
    decreases |items|
  {
    if items != [] {
      var s1 := SeedMood(s, items[0].name, items[0].category);
      if !HasMoodNamed(s.moods, items[0].name) {
        forall i | 0 <= i < |s.moods| ensures s.moods[i].name != items[0].name {
          assert s.moods[i] in s.moods;
        }
      }
      SeedMoodListKeepsConstraints(s1, items[1..]);
    }
  }

  lemma {:induction false} SeedTagListKeepsConstraints(s: Store, names: seq<string>)
    requires TagNamesUnique(s.tags) && TagKeys(s)
    ensures TagNamesUnique(SeedTagList(s, names).tags) && TagKeys(SeedTagList(s, names))
    decreases |names|
  {
    if names != [] {
      var s1 := SeedTag(s, names[0]);
      if !HasTagNamed(s.tags, names[0]) {
        forall i | 0 <= i < |s.tags| ensures s.tags[i].name != names[0] {
          assert s.tags[i] in s.tags;
        }
      }
      SeedTagListKeepsConstraints(s1, names[1..]);
    }
  }

  /** Rows already present survive seeding. */
  lemma KeepsMoods(s: Store, items: seq<MoodSpec>, m: Mood)
    requires m in s.moods
    ensures m in SeedMoodList(s, items).moods
  {
    var r := SeedMoodList(s, items);
    var k :| 0 <= k < |s.moods| && s.moods[k] == m;
    assert r.moods[..|s.moods|][k] == m;
  }

  lemma KeepsTags(s: Store, names: seq<string>, t: Tag)
    requires t in s.tags
    ensures t in SeedTagList(s, names).tags
  {
    var r := SeedTagList(s, names);
    var k :| 0 <= k < |s.tags| && s.tags[k] == t;
    assert r.tags[..|s.tags|][k] == t;
  }

  /** After seeding, every listed mood name has a row. */
  lemma {:induction false} SeedMoodListCovers(s: Store, items: seq<MoodSpec>)
    ensures forall k :: 0 <= k < |items| ==> HasMoodNamed(SeedMoodList(s, items).moods, items[k].name)
    decreases |items|
  {
    if items != [] {
      var s1 := SeedMood(s, items[0].name, items[0].category);
      var r := SeedMoodList(s1, items[1..]);
      SeedMoodListCovers(s1, items[1..]);
      assert HasMoodNamed(s1.moods, items[0].name);
      var m :| m in s1.moods && m.name == items[0].name;
      KeepsMoods(s1, items[1..], m);
      forall k | 1 <= k < |items| ensures HasMoodNamed(r.moods, items[k].name) {
        assert items[k] == items[1..][k - 1];
      }
    }
  }

  lemma {:induction false} SeedTagListCovers(s: Store, names: seq<string>)
    ensures forall k :: 0 <= k < |names| ==> HasTagNamed(SeedTagList(s, names).tags, names[k])
    decreases |names|
  {
    if names != [] {
      var s1 := SeedTag(s, names[0]);
      var r := SeedTagList(s1, names[1..]);
      SeedTagListCovers(s1, names[1..]);
      assert HasTagNamed(s1.tags, names[0]);
      var t :| t in s1.tags && t.name == names[0];
      KeepsTags(s1, names[1..], t);
      forall k | 1 <= k < |names| ensures HasTagNamed(r.tags, names[k]) {
        assert names[k] == names[1..][k - 1];
      }
    }
  }

  /** What `c` adds after `a` is what `b` adds, then what `c` adds after `b`. */
  lemma SuffixSplit<T>(a: seq<T>, b: seq<T>, c: seq<T>)
    requires |a| <= |b| <= |c| && b[..|a|] == a && c[..|b|] == b
    ensures c[|a|..] == b[|a|..] + c[|b|..]
  {
  }

  lemma MoodPairsConcat(a: seq<Mood>, b: seq<Mood>)
    ensures MoodPairs(a + b) == MoodPairs(a) + MoodPairs(b)
  {
  }

  lemma {:induction false} AbsentMoodsFromEmpty(items: seq<MoodSpec>)
    ensures AbsentMoods(items, []) == items
    decreases |items|
  {
    if items != [] {
      AbsentMoodsFromEmpty(items[1..]);
      assert items == [items[0]] + items[1..];
    }
  }

  lemma {:induction false} AbsentTagsFromEmpty(names: seq<string>)
    ensures AbsentTags(names, []) == names
    decreases |names|
  {
    if names != [] {
      AbsentTagsFromEmpty(names[1..]);
      assert names == [names[0]] + names[1..];
    }
  }

  lemma TagNamesConcat(a: seq<Tag>, b: seq<Tag>)
    ensures TagNames(a + b) == TagNames(a) + TagNames(b)
  {
  }

  /** Seeding one name does not change which other names are absent. */
  lemma {:induction false} SeedMoodOtherNames(s: Store, name: string, category: string, rest: seq<MoodSpec>)
    requires forall i :: 0 <= i < |rest| ==> rest[i].name != name
    ensures AbsentMoods(rest, SeedMood(s, name, category).moods) == AbsentMoods(rest, s.moods)
    decreases |rest|
  {
    if rest != [] {
      SeedMoodOtherNames(s, name, category, rest[1..]);
    }
  }

  lemma {:induction false} SeedTagOtherNames(s: Store, name: string, rest: seq<string>)
    requires forall i :: 0 <= i < |rest| ==> rest[i] != name
    ensures AbsentTags(rest, SeedTag(s, name).tags) == AbsentTags(rest, s.tags)
    decreases |rest|
  {
    if rest != [] {
      SeedTagOtherNames(s, name, rest[1..]);
    }
  }

  /**
   * With distinct names in the list, the appended rows are exactly the listed
   * pairs whose name had no row, in list order.
   */
  lemma {:induction false} SeedMoodListAddsAbsent(s: Store, items: seq<MoodSpec>)
    requires PairNamesDistinct(items)
    ensures MoodPairs(SeedMoodList(s, items).moods[|s.moods|..]) == AbsentMoods(items, s.moods)
    decreases |items|
  {
    var r := SeedMoodList(s, items);
    if items == [] {
      assert r.moods[|s.moods|..] == [];
    } else {
      var s1 := SeedMood(s, items[0].name, items[0].category);
      var added := s1.moods[|s.moods|..];
      var later := r.moods[|s1.moods|..];
      assert MoodPairs(later) == AbsentMoods(items[1..], s.moods) by {
        assert r == SeedMoodList(s1, items[1..]);
        assert PairNamesDistinct(items[1..]);
        SeedMoodListAddsAbsent(s1, items[1..]);
        SeedMoodOtherNames(s, items[0].name, items[0].category, items[1..]);
      }
      assert MoodPairs(added) == if HasMoodNamed(s.moods, items[0].name) then [] else [items[0]];
      assert r.moods[|s.moods|..] == added + later by {
        assert r == SeedMoodList(s1, items[1..]);
        SuffixSplit(s.moods, s1.moods, r.moods);
      }
      MoodPairsConcat(added, later);
    }
  }

  lemma {:induction false} SeedTagListAddsAbsent(s: Store, names: seq<string>)
    requires NoDup(names)
    ensures TagNames(SeedTagList(s, names).tags[|s.tags|..]) == AbsentTags(names, s.tags)
    decreases |names|
  {
    var r := SeedTagList(s, names);
    if names == [] {
      assert r.tags[|s.tags|..] == [];
    } else {
      var s1 := SeedTag(s, names[0]);
      var added := s1.tags[|s.tags|..];
      var later := r.tags[|s1.tags|..];
      assert TagNames(later) == AbsentTags(names[1..], s.tags) by {
        assert r == SeedTagList(s1, names[1..]);
        assert NoDup(names[1..]);
        SeedTagListAddsAbsent(s1, names[1..]);
        SeedTagOtherNames(s, names[0], names[1..]);
      }
      assert TagNames(added) == if HasTagNamed(s.tags, names[0]) then [] else [names[0]];
      assert r.tags[|s.tags|..] == added + later by {
        assert r == SeedTagList(s1, names[1..]);
        SuffixSplit(s.tags, s1.tags, r.tags);
      }
      TagNamesConcat(added, later);
    }
  }

  /** Every tag the seeding loop appends is pre-built. */
  lemma {:induction false} SeedTagListPreBuilt(s: Store, names: seq<string>)
    ensures forall j :: |s.tags| <= j < |SeedTagList(s, names).tags| ==> SeedTagList(s, names).tags[j].isPreBuilt
    decreases |names|
  {
    if names != [] {
      var s1 := SeedTag(s, names[0]);
      var r := SeedTagList(s1, names[1..]);
      SeedTagListPreBuilt(s1, names[1..]);
      forall j | |s.tags| <= j < |s1.tags| ensures r.tags[j].isPreBuilt {
        assert r.tags[j] == r.tags[..|s1.tags|][j] == s1.tags[j];
        assert s1.tags[j] == s1.tags[|s.tags|..][j - |s.tags|];
      }
    }
  }

  /** `SeedMoods`. */
  function SeedMoods(s: Store): Store {
    SeedMoodList(s, MoodSeed)
  }

  /** `SeedTags`. */
  function SeedTags(s: Store): Store {
    SeedTagList(s, TagSeed)
  }

  /** The seeding half of `InitializeDatabase` (the tables themselves always exist in the model). */
  function Initialize(s: Store): Store {
    SeedTags(SeedMoods(s))
  }

  /** Once every listed name is present, the seeding loop writes nothing. */
  lemma {:induction false} SeedMoodListNoop(s: Store, items: seq<MoodSpec>)
    requires forall k :: 0 <= k < |items| ==> HasMoodNamed(s.moods, items[k].name)
    ensures SeedMoodList(s, items) == s
    decreases |items|
  {
    if items != [] {
      SeedMoodListNoop(s, items[1..]);
    }
  }

  lemma {:induction false} SeedTagListNoop(s: Store, names: seq<string>)
    requires forall k :: 0 <= k < |names| ==> HasTagNamed(s.tags, names[k])
    ensures SeedTagList(s, names) == s
    decreases |names|
  {
    if names != [] {
      SeedTagListNoop(s, names[1..]);
    }
  }

  /** Re-running the bootstrap on an already seeded database changes nothing. */
  lemma InitializeIdempotent(s: Store)
    ensures Initialize(Initialize(s)) == Initialize(s)
  {
    var m := SeedMoods(s);
    var t := SeedTags(m);
    SeedMoodListCovers(s, MoodSeed);
    forall k | 0 <= k < |MoodSeed| ensures HasMoodNamed(t.moods, MoodSeed[k].name) {
      assert t.moods == m.moods;
    }
    SeedTagListCovers(m, TagSeed);
    SeedMoodListNoop(t, MoodSeed);
    SeedTagListNoop(t, TagSeed);
  }

  /** No name of `a` occurs in `b`. */
  ghost predicate NamesApart(a: seq<MoodSpec>, b: seq<MoodSpec>) {
    forall i, j :: 0 <= i < |a| && 0 <= j < |b| ==> a[i].name != b[j].name
  }

  lemma PairNamesDistinctConcat(a: seq<MoodSpec>, b: seq<MoodSpec>)
    requires PairNamesDistinct(a) && PairNamesDistinct(b) && NamesApart(a, b)
    ensures PairNamesDistinct(a + b)
  {
    forall i, j | 0 <= i < j < |a + b| ensures (a + b)[i].name != (a + b)[j].name {
      if j < |a| {
        assert (a + b)[i] == a[i] && (a + b)[j] == a[j];
      } else if i < |a| {
        assert (a + b)[i] == a[i] && (a + b)[j] == b[j - |a|];
      } else {
        assert (a + b)[i] == b[i - |a|] && (a + b)[j] == b[j - |a|];
      }
    }
  }

  lemma GroupsDistinct()
    ensures PairNamesDistinct(PositiveMoods)
    ensures PairNamesDistinct(NeutralMoods)
    ensures PairNamesDistinct(NegativeMoods)
  {
  }

  lemma GroupsApart()
    ensures NamesApart(PositiveMoods, NeutralMoods + NegativeMoods)
    ensures NamesApart(NeutralMoods, NegativeMoods)
  {
    var rest := NeutralMoods + NegativeMoods;
    forall i, j | 0 <= i < |PositiveMoods| && 0 <= j < |rest| ensures PositiveMoods[i].name != rest[j].name {
      if j < 5 {
        assert rest[j] == NeutralMoods[j];
      } else {
        assert rest[j] == NegativeMoods[j - 5];
      }
    }
  }

  /** The fixed mood list names fifteen distinct moods. */
  lemma MoodSeedShape()
    ensures |MoodSeed| == 15
    ensures PairNamesDistinct(MoodSeed)
  {
    GroupsDistinct();
    GroupsApart();
    PairNamesDistinctConcat(NeutralMoods, NegativeMoods);
    PairNamesDistinctConcat(PositiveMoods, NeutralMoods + NegativeMoods);
    assert MoodSeed == PositiveMoods + (NeutralMoods + NegativeMoods);
  }

  /** The fixed mood list: five positive, five neutral, five negative. */
  lemma MoodSeedCategories()
    ensures forall k :: 0 <= k < 5 ==> MoodSeed[k].category == "Positive"
    ensures forall k :: 5 <= k < 10 ==> MoodSeed[k].category == "Neutral"
    ensures forall k :: 10 <= k < 15 ==> MoodSeed[k].category == "Negative"
  {
  }

  lemma TagSeedShape()
    ensures |TagSeed| == 10
    ensures NoDup(TagSeed)
  {
  }

  /** Seeding any lists of moods and tags keeps every constraint of the schema. */
  lemma SeedListsKeepWf(s: Store, items: seq<MoodSpec>, names: seq<string>)
    requires Wf(s)
    ensures Wf(SeedTagList(SeedMoodList(s, items), names))
  {
    var m := SeedMoodList(s, items);
    SeedMoodListKeepsConstraints(s, items);
    var t := SeedTagList(m, names);
    SeedTagListKeepsConstraints(m, names);
    assert t.entries == s.entries && t.entryMoods == s.entryMoods && t.entryTags == s.entryTags;
    assert t.nextEntryId == s.nextEntryId && t.moods == m.moods && t.nextMoodId == m.nextMoodId;
  }

  /** Seeding keeps every constraint of the schema. */
  lemma InitializeKeepsWf(s: Store)
    requires Wf(s)
    ensures Wf(Initialize(s))
  {
    SeedListsKeepWf(s, MoodSeed, TagSeed);
  }

  /** Seeding distinct pairs into an empty Mood table inserts exactly those pairs, in order. */
  lemma SeedMoodsFromEmpty(s: Store, items: seq<MoodSpec>)
    requires s.moods == [] && PairNamesDistinct(items)
    ensures MoodPairs(SeedMoodList(s, items).moods) == items
  {
    var m := SeedMoodList(s, items);
    SeedMoodListAddsAbsent(s, items);
    AbsentMoodsFromEmpty(items);
    assert m.moods[|s.moods|..] == m.moods;
  }

  /** Seeding distinct names into an empty Tag table inserts exactly those names, all pre-built. */
  lemma SeedTagsFromEmpty(s: Store, names: seq<string>)
    requires s.tags == [] && NoDup(names)
    ensures TagNames(SeedTagList(s, names).tags) == names
    ensures forall x :: x in SeedTagList(s, names).tags ==> x.isPreBuilt
  {
    var t := SeedTagList(s, names);
    SeedTagListAddsAbsent(s, names);
    SeedTagListPreBuilt(s, names);
    AbsentTagsFromEmpty(names);
    assert t.tags[|s.tags|..] == t.tags;
  }

  /**
   * On a new database the bootstrap inserts exactly the fifteen moods and the
   * ten pre-built tags, in list order.
   */
  lemma InitializeEmpty()
    ensures Wf(Initialize(EmptyStore))
    ensures MoodPairs(Initialize(EmptyStore).moods) == MoodSeed
    ensures TagNames(Initialize(EmptyStore).tags) == TagSeed
    ensures forall t :: t in Initialize(EmptyStore).tags ==> t.isPreBuilt
  {
    var m := SeedMoods(EmptyStore);
    MoodSeedShape();
    SeedMoodsFromEmpty(EmptyStore, MoodSeed);
    TagSeedShape();
    SeedTagsFromEmpty(m, TagSeed);
    EmptyStoreWf();
    InitializeKeepsWf(EmptyStore);
  }
}
