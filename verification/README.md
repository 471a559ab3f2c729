# SecureJournalApp journal core in Dafny

This project models the logic core of SecureJournalApp, a single-user journal app for .NET MAUI. It covers three parts:

- **The journal store** behind `JournalDbService`. The SQLite database is one immutable `Store` value. It holds the rows of JournalEntry, EntryMood, EntryTag, Mood and Tag in rowid order, plus the AUTOINCREMENT counters. Every public service method is a pure function from the store, its arguments and a clock reading `now` to an `Outcome`. An `Outcome` is either `Done(value, store)` or `Failed(error)`. A failure leaves the database as it was, because each write either throws before writing or runs inside one transaction.
- **Reference-data seeding** in `AuthDbService.InitializeDatabase`. Fifteen fixed moods and ten pre-built tags are each inserted unless a row already has exactly that name. The schema's UNIQUE constraints are modelled too.
- **The block-level Markdown-to-HTML converter** in `MarkdownService.ConvertToHtml`. It splits the input into lines, classifies each trimmed line and runs a two-flag state machine that wraps runs of list items in `<ul>` or `<ol>`. The inline rewriting is a function parameter.

## Modules

- `Wrappers`, `Seqs`, `Sorting`: `Option`; filtering and LINQ `Distinct`; a stable insertion sort that models SQL `ORDER BY`.
- `Text`:
  - .NET white space, `Trim` and `IsNullOrWhiteSpace`.
  - Ordinal case-insensitive equality.
  - SQLite's BINARY collation.
  - SQLite `LIKE`.
- `Schema`: the row types, the store, the error kinds and the integrity predicate `Wf`. `Wf` collects:
  - unique and fresh ids;
  - one entry per calendar day;
  - midnight entry dates;
  - UNIQUE mood and tag names;
  - UNIQUE (EntryId, TagId);
  - one primary plus at most two secondary moods per entry.
- `EntryStore`: creating, updating, deleting and reading entries.
- `MoodLinks`, `TagLinks`: an entry's moods and tags, the mood and tag lists, and tag creation.
- `Search`: the search query, evaluated the way SQLite evaluates it. It joins, applies the WHERE clause, projects, removes duplicates and sorts. The module also gives what the query means entry by entry.
- `Seeding`: `SeedMoods`, `SeedTags` and the seeding half of `InitializeDatabase`.
- `Journal`: any sequence of service calls and restarts, starting from a new database file, and the invariants that hold throughout.
- `Markdown`: `ConvertToHtml` and `CloseLists`.

## Model

| member | source | states |
|---|---|---|
| Schema.DateOnly | SecureJournalApp_Paruhang_Khapung/Services/JournalDbService.cs:45 | `EntryDate.Date` is the midnight that starts the same calendar day: it is at most the instant, less than one day before it, and a whole number of days |
| Sorting.SortBy | SecureJournalApp_Paruhang_Khapung/Services/JournalDbService.cs:213 | `ORDER BY` returns the same rows, each as often as before, sorted by any total preorder |
| Seqs.Distinct | SecureJournalApp_Paruhang_Khapung/Services/JournalDbService.cs:371 | LINQ `Distinct` keeps exactly the elements of its input, each once, and returns an already duplicate-free list unchanged |
| Text.TrimEmptyIffWhiteSpace | SecureJournalApp_Paruhang_Khapung/Services/JournalDbService.cs:478-500 | `Trim` gives the empty string exactly when the text is all white space, so a name that passes the blank check is never stored empty |
| Text.LikeIsContains | SecureJournalApp_Paruhang_Khapung/Services/JournalDbService.cs:532-533 | for text without `%` or `_`, the pattern `%text%` matches exactly the strings that contain the text, ignoring ASCII case |
| EntryStore.GetEntryById | SecureJournalApp_Paruhang_Khapung/Services/JournalDbService.cs:136-165 | finds a row exactly when one has the id; on a consistent store that row is the only one with the id |
| EntryStore.GetEntryByDate | SecureJournalApp_Paruhang_Khapung/Services/JournalDbService.cs:170-199 | finds a row exactly when one lies on the same calendar day as the argument, whatever the time of day; on a consistent store it is the only one |
| EntryStore.GetAllEntries | SecureJournalApp_Paruhang_Khapung/Services/JournalDbService.cs:204-233 | every entry row exactly once, newest day first |
| EntryStore.CreateEntry | SecureJournalApp_Paruhang_Khapung/Services/JournalDbService.cs:23-55 | fails with a conflict exactly when an entry already has the same calendar day. Otherwise it appends exactly one row with the given title and content, the midnight of the given date, both timestamps `now` and an id no existing row has. The other tables are unchanged, and the returned entry carries the new id and timestamps |
| EntryStore.CreateEntryKeepsWf | SecureJournalApp_Paruhang_Khapung/Services/JournalDbService.cs:26-54 | creating an entry keeps one entry per day and every other integrity constraint |
| EntryStore.RewriteRows | SecureJournalApp_Paruhang_Khapung/Services/JournalDbService.cs:79-91 | the UPDATE changes only the rows with the entry's id. Those take the new title, content, midnight date and `UpdatedAt = now`, and keep their id and `CreatedAt`. Every other row is untouched |
| EntryStore.UpdateEntry | SecureJournalApp_Paruhang_Khapung/Services/JournalDbService.cs:60-92 | an unknown id returns false and changes nothing. A failure is always the one-per-day conflict. Otherwise it returns true and the entry table is rewritten as above, with nothing else changed |
| EntryStore.UpdateEntryConflict | SecureJournalApp_Paruhang_Khapung/Services/JournalDbService.cs:66-76 | on a consistent store an update fails exactly when the entry exists and a different entry already holds the new day |
| EntryStore.UpdateSameDayNeverConflicts | SecureJournalApp_Paruhang_Khapung/Services/JournalDbService.cs:69-76 | an update that keeps the entry on its own day never fails |
| EntryStore.UpdateEntryKeepsWf | SecureJournalApp_Paruhang_Khapung/Services/JournalDbService.cs:66-91 | updating keeps one entry per day and every other integrity constraint |
| EntryStore.DeleteEntry | SecureJournalApp_Paruhang_Khapung/Services/JournalDbService.cs:97-131 | removes exactly the entry's EntryMood rows, EntryTag rows and entry row, and nothing else. Every other entry keeps exactly its rows in each of the three tables, in their order, and the Mood and Tag tables are untouched. It returns true exactly when an entry row existed |
| EntryStore.DeleteEntryKeepsOrder | SecureJournalApp_Paruhang_Khapung/Services/JournalDbService.cs:105-121 | the rows that survive the three DELETEs are a subsequence of the rows before: nothing is reordered |
| EntryStore.DeleteEntryKeepsWf | SecureJournalApp_Paruhang_Khapung/Services/JournalDbService.cs:105-121 | the hand-written cascade keeps every integrity constraint |
| EntryStore.CreateEntryKeepsClock | SecureJournalApp_Paruhang_Khapung/Services/JournalDbService.cs:42-52 | if the clock has not gone back, after a create every row has `CreatedAt <= UpdatedAt <= now` |
| EntryStore.UpdateEntryKeepsClock | SecureJournalApp_Paruhang_Khapung/Services/JournalDbService.cs:81-89 | an update moves `UpdatedAt` to `now` and never touches `CreatedAt`, so `CreatedAt <= UpdatedAt <= now` still holds |
| EntryStore.DeleteEntryKeepsClock | SecureJournalApp_Paruhang_Khapung/Services/JournalDbService.cs:117-121 | deleting keeps the timestamp order of the rows that remain |
| MoodLinks.SetEntryMoods | SecureJournalApp_Paruhang_Khapung/Services/JournalDbService.cs:240-290 | a null secondary list counts as empty, and more than two secondaries fail before any write. Otherwise the entry's rows become one primary row with the given id plus one secondary row per given id, in order and with duplicates kept. Other entries' rows and all other tables are untouched |
| MoodLinks.SetEntryMoodsKeepsWf | SecureJournalApp_Paruhang_Khapung/Services/JournalDbService.cs:254-281 | replacing an entry's moods keeps every entry at one primary and at most two secondaries, and keeps every other constraint |
| MoodLinks.GetEntryMoods | SecureJournalApp_Paruhang_Khapung/Services/JournalDbService.cs:295-330 | the secondaries are exactly the moods the entry has a secondary row for. There is a primary exactly when a primary row joins a mood, and it is such a mood |
| MoodLinks.SetThenGetMoods | SecureJournalApp_Paruhang_Khapung/Services/JournalDbService.cs:310-329 | reading back after a write gives the mood with the primary id, if one exists, and the moods with the secondary ids in the order they were given |
| MoodLinks.GetAllMoods | SecureJournalApp_Paruhang_Khapung/Services/JournalDbService.cs:335-361 | every mood exactly once, by category and then by name |
| TagLinks.NormalizeTagIds | SecureJournalApp_Paruhang_Khapung/Services/JournalDbService.cs:371 | the positive ids of the input, each exactly once |
| TagLinks.NormalizeTagIdsIdempotent | SecureJournalApp_Paruhang_Khapung/Services/JournalDbService.cs:371 | normalizing twice is normalizing once |
| TagLinks.SetEntryTags | SecureJournalApp_Paruhang_Khapung/Services/JournalDbService.cs:368-405 | never fails. Afterwards the entry has a row for a tag id exactly when the id was given and is positive. Its rows carry the distinct positive ids in first-occurrence order, with no pair twice. Other entries' rows and all other tables are untouched |
| TagLinks.SetEntryTagsKeepsWf | SecureJournalApp_Paruhang_Khapung/Services/JournalDbService.cs:379-396 | replacing an entry's tags keeps `UNIQUE(EntryId, TagId)` and every other constraint |
| TagLinks.JoinTagsNoDup | SecureJournalApp_Paruhang_Khapung/Services/JournalDbService.cs:417-420 | the inner join of rows naming distinct tags with a Tag table whose ids are unique returns each tag at most once |
| TagLinks.GetEntryTags | SecureJournalApp_Paruhang_Khapung/Services/JournalDbService.cs:410-440 | exactly the existing tags the entry has a row for, ordered by name. With unique tag ids and no repeated (EntryId, TagId) pair, each tag appears once |
| TagLinks.SetThenGetTags | SecureJournalApp_Paruhang_Khapung/Services/JournalDbService.cs:368-440 | reading back after a write gives exactly the existing tags whose ids were given and positive. With unique tag ids each appears once, however often its id was given |
| TagLinks.GetAllTags | SecureJournalApp_Paruhang_Khapung/Services/JournalDbService.cs:445-471 | every tag exactly once, pre-built ones first, each group ordered by name |
| TagLinks.InsertTag | SecureJournalApp_Paruhang_Khapung/Services/JournalDbService.cs:494-503 | the INSERT appends one user tag with the given name and a fresh id, and keeps the tag ids unique |
| TagLinks.CreateTag | SecureJournalApp_Paruhang_Khapung/Services/JournalDbService.cs:476-504 | as written. A null or blank name fails validation. Otherwise a conflict happens exactly when an existing name equals the untrimmed input ignoring case. A UNIQUE failure happens only if the trimmed name is already taken. Success appends a user tag with the trimmed, non-empty name |
| TagLinks.CreateTagKeepsWf | SecureJournalApp_Paruhang_Khapung/Services/JournalDbService.cs:476-504 | tag creation as written keeps the UNIQUE tag names and every other constraint |
| TagLinks.CreateTagAdmitsCaseVariant | SecureJournalApp_Paruhang_Khapung/Services/JournalDbService.cs:484-503 | in a store holding the tag "work", creating " Work" succeeds and stores "Work", so two tags differ only in case |
| TagLinks.CreateTagTrimmedCheck | SecureJournalApp_Paruhang_Khapung/Services/JournalDbService.cs:476-504 | the corrected creation succeeds exactly when the name is not blank and its trimmed form matches no existing name ignoring case. It never reaches the UNIQUE failure |
| TagLinks.CreateTagTrimmedCheckKeepsCaseUnique | SecureJournalApp_Paruhang_Khapung/Services/JournalDbService.cs:484-488 | the corrected creation keeps tag names unique ignoring case |
| TagLinks.CreateTagTrimmedCheckKeepsWf | SecureJournalApp_Paruhang_Khapung/Services/JournalDbService.cs:476-504 | the corrected creation keeps every integrity constraint |
| Search.SearchEntries | SecureJournalApp_Paruhang_Khapung/Services/JournalDbService.cs:511-599 | an entry is in the result exactly when it matches every active filter. The filters are: the text in the title or content; day on or after the start day; day on or before the end day; some mood row with a listed id; some tag row with a listed id. Each entry appears once, newest day first |
| Search.JoinedRowPasses | SecureJournalApp_Paruhang_Khapung/Services/JournalDbService.cs:550-569 | the joined query with ANDed conditions has a passing row for an entry exactly when the entry meets every filter |
| Search.SearchSameFilters | SecureJournalApp_Paruhang_Khapung/Services/JournalDbService.cs:530-565 | a null argument, a blank search text and an empty id list all switch their filter off and give the same result |
| Search.SearchWithoutFiltersIsAll | SecureJournalApp_Paruhang_Khapung/Services/JournalDbService.cs:521-572 | with no filter the search returns exactly what `GetAllEntriesAsync` returns |
| Search.SearchTextIsContains | SecureJournalApp_Paruhang_Khapung/Services/JournalDbService.cs:530-533 | search text without wildcards matches exactly the entries whose title or content contains it, ignoring ASCII case |
| Search.SearchDateRange | SecureJournalApp_Paruhang_Khapung/Services/JournalDbService.cs:537-547 | the date range compares calendar days and includes both end days |
| Seeding.SeedMood | SecureJournalApp_Paruhang_Khapung/Services/AuthDbService.cs:138-153 | after one loop pass the name has a row, and a name has a row exactly when it had one before or is the seeded name. The existing rows stay as they were. The pair is added, under the next id, exactly when its name was absent. Mood names stay UNIQUE and mood ids fresh. Nothing but the Mood table and its counter changes |
| Seeding.SeedTag | SecureJournalApp_Paruhang_Khapung/Services/AuthDbService.cs:167-181 | after one loop pass the name has a row, and a name has a row exactly when it had one before or is the seeded name. The existing rows stay as they were. A pre-built tag is added, under the next id, exactly when the name was absent. Tag names stay UNIQUE and tag ids fresh |
| Seeding.SeedMoodList | SecureJournalApp_Paruhang_Khapung/Services/AuthDbService.cs:138-153 | the loop only appends to the Mood table and leaves existing rows as they were |
| Seeding.SeedTagList | SecureJournalApp_Paruhang_Khapung/Services/AuthDbService.cs:167-181 | the loop only appends to the Tag table and leaves existing rows, and their pre-built flags, as they were |
| Seeding.SeedMoodListAddsAbsent | SecureJournalApp_Paruhang_Khapung/Services/AuthDbService.cs:138-153 | for a list of distinct names, the rows added are exactly the listed pairs whose name had no row, in list order |
| Seeding.SeedTagListAddsAbsent | SecureJournalApp_Paruhang_Khapung/Services/AuthDbService.cs:167-181 | for a list of distinct names, the rows added are exactly the listed names that had no row, in list order |
| Seeding.SeedTagListPreBuilt | SecureJournalApp_Paruhang_Khapung/Services/AuthDbService.cs:175-178 | every tag the loop adds is pre-built |
| Seeding.SeedMoodListCovers | SecureJournalApp_Paruhang_Khapung/Services/AuthDbService.cs:138-153 | after the loop every listed mood name has a row |
| Seeding.SeedTagListCovers | SecureJournalApp_Paruhang_Khapung/Services/AuthDbService.cs:167-181 | after the loop every listed tag name has a row |
| Seeding.SeedMoodListKeepsConstraints | SecureJournalApp_Paruhang_Khapung/Services/AuthDbService.cs:56 | the loop keeps mood ids fresh and unique and mood names UNIQUE |
| Seeding.SeedTagListKeepsConstraints | SecureJournalApp_Paruhang_Khapung/Services/AuthDbService.cs:83 | the loop keeps tag ids fresh and unique and tag names UNIQUE |
| Seeding.InitializeIdempotent | SecureJournalApp_Paruhang_Khapung/Services/AuthDbService.cs:105-108 | running the seeding twice is running it once |
| Seeding.InitializeKeepsWf | SecureJournalApp_Paruhang_Khapung/Services/AuthDbService.cs:105-108 | seeding keeps every integrity constraint |
| Seeding.MoodSeedShape | SecureJournalApp_Paruhang_Khapung/Services/AuthDbService.cs:116-136 | the fixed mood list has fifteen pairwise distinct names |
| Seeding.MoodSeedCategories | SecureJournalApp_Paruhang_Khapung/Services/AuthDbService.cs:116-136 | five Positive moods, then five Neutral, then five Negative |
| Seeding.TagSeedShape | SecureJournalApp_Paruhang_Khapung/Services/AuthDbService.cs:161-165 | the fixed tag list has ten distinct names |
| Seeding.InitializeEmpty | SecureJournalApp_Paruhang_Khapung/Services/AuthDbService.cs:105-181 | on a new database the seeding inserts exactly the fifteen moods and the ten pre-built tags, in list order, and the result is consistent |
| Journal.InitializeSeeds | SecureJournalApp_Paruhang_Khapung/Services/AuthDbService.cs:105-108 | after seeding every fixed mood and tag is present, whatever was there before |
| Journal.StartupOnSeeded | SecureJournalApp_Paruhang_Khapung/Services/AuthDbService.cs:138-181 | restarting on a seeded database writes nothing |
| Journal.FreshDatabase | SecureJournalApp_Paruhang_Khapung/Services/AuthDbService.cs:16-109 | a new database file, once bootstrapped, is consistent, seeded, and has no two tag names that differ only in case |
| Journal.CreateTagKeepsConsistent | SecureJournalApp_Paruhang_Khapung/Services/JournalDbService.cs:476-504 | tag creation as written keeps every integrity constraint and leaves the fixed moods and tags present |
| Journal.OtherWriteKeepsConsistent | SecureJournalApp_Paruhang_Khapung/Services/AuthDbService.cs:34 | every write other than tag creation, and every restart, keeps every integrity constraint and the fixed data, and leaves the Tag table as it was |
| Journal.ApplyAsWrittenKeepsConsistent | SecureJournalApp_Paruhang_Khapung/Services/AuthDbService.cs:34 | with the services as written, every single write and every restart keeps the integrity constraints and the fixed data |
| Journal.LifetimeAsWritten | SecureJournalApp_Paruhang_Khapung/Services/AuthDbService.cs:34 | with the services as written, whatever sequence of calls follows the creation of the database, every integrity constraint holds, including at most one entry per calendar day, and the fixed moods and tags stay present |
| Journal.SeededAdmitsCaseVariant | SecureJournalApp_Paruhang_Khapung/Services/JournalDbService.cs:484-503 | on a Tag table holding exactly the ten pre-built names, creating " work" as written succeeds, stores "work", and leaves two tag names that differ only in case |
| Journal.FreshAppAdmitsCaseVariant | SecureJournalApp_Paruhang_Khapung/Services/JournalDbService.cs:484-503 | a freshly bootstrapped database satisfies the full invariant, and one call creating " work" as written breaks it |
| Journal.ApplyKeepsInvariant | SecureJournalApp_Paruhang_Khapung/Services/AuthDbService.cs:34 | with the corrected tag creation, every single write and every restart keeps the full invariant: the integrity constraints, the fixed data, and tag names unique even ignoring case |
| Journal.LifetimeInvariant | SecureJournalApp_Paruhang_Khapung/Services/AuthDbService.cs:34 | with the corrected tag creation, whatever sequence of calls follows the creation of the database, the full invariant holds |
| Journal.RunKeepsClock | SecureJournalApp_Paruhang_Khapung/Services/JournalDbService.cs:42-89 | as long as the clock never runs backwards, no entry is updated before it was created, and no entry carries a time later than the last reading |
| Journal.RunAsWrittenKeepsClock | SecureJournalApp_Paruhang_Khapung/Services/JournalDbService.cs:42-89 | the same timestamp order holds over every sequence of calls made with the services as written |
| Markdown.SplitLines | SecureJournalApp_Paruhang_Khapung/Services/MarkdownService.cs:19 | the split yields at least one line, and no line contains `\r` or `\n` |
| Markdown.SplitThenJoin | SecureJournalApp_Paruhang_Khapung/Services/MarkdownService.cs:19 | joining the lines with `\n` gives back the input with every `\r\n`, `\r` and `\n` written as `\n`: only the kind of line break is lost |
| Markdown.JoinThenSplit | SecureJournalApp_Paruhang_Khapung/Services/MarkdownService.cs:19 | splitting lines that contain no line break, after joining them, gives them back |
| Markdown.OrderedItem | SecureJournalApp_Paruhang_Khapung/Services/MarkdownService.cs:63 | `^\d+\. (.+)$` matches exactly when the line is one or more digits, a dot, a space and at least one more character. The group is that rest of the line |
| Markdown.Classify | SecureJournalApp_Paruhang_Khapung/Services/MarkdownService.cs:26-88 | headings have levels 1 to 3; a line is blank exactly when it is empty after trimming; a paragraph holds the whole trimmed line |
| Markdown.ClassifyItems | SecureJournalApp_Paruhang_Khapung/Services/MarkdownService.cs:49-75 | a trimmed line that is not a heading is a bullet item exactly when it starts with `- ` or `* `, and its text is the rest after those two characters. It is a numbered item exactly when `^\d+\. (.+)$` matches, and its text is the group |
| Markdown.ClassifyHeading | SecureJournalApp_Paruhang_Khapung/Services/MarkdownService.cs:29-46 | a trimmed line is a heading exactly when it starts with one to three `#` and a space. The level is the number of `#`, so `### ` wins over `## ` and `# `. The heading text is the rest of the line, with no inline processing |
| Markdown.ClassifySourceOf | SecureJournalApp_Paruhang_Khapung/Services/MarkdownService.cs:29-88 | classifying the markdown a user writes for a heading, bullet, numbered item, blank line or paragraph gives that block back |
| Markdown.CloseLists | SecureJournalApp_Paruhang_Khapung/Services/MarkdownService.cs:96-108 | it writes only closing tags, and writes nothing exactly when no list is open |
| Markdown.ConvertToHtml | SecureJournalApp_Paruhang_Khapung/Services/MarkdownService.cs:16-17 | null or white-space-only markdown gives exactly `<p></p>` |
| Markdown.StepChecks | SecureJournalApp_Paruhang_Khapung/Services/MarkdownService.cs:49-75 | the two flags are never both set, and each line's output opens a list only when none is open, closing the other kind first |
| Markdown.ConvertLinesWellNested | SecureJournalApp_Paruhang_Khapung/Services/MarkdownService.cs:91 | the whole output is well nested: lists never overlap, items appear only inside a list, and every list is closed at the end |
| Markdown.ConvertLinesContents | SecureJournalApp_Paruhang_Khapung/Services/MarkdownService.cs:19-89 | apart from list tags the output has exactly one line per input line, in order. The i-th is what the i-th trimmed line classifies as |
| Markdown.ConsumeState | SecureJournalApp_Paruhang_Khapung/Services/MarkdownService.cs:49-88 | after a line a `<ul>` is open exactly when the line was a bullet item, and an `<ol>` exactly when it was a numbered item. A blank line or paragraph closes any open list |
| Markdown.OpensUnorderedList | SecureJournalApp_Paruhang_Khapung/Services/MarkdownService.cs:49-60 | a line writes `<ul>` exactly when it is a bullet item and the line before it, if any, is not. So a run of bullet lines shares one list |
| Markdown.OpensOrderedList | SecureJournalApp_Paruhang_Khapung/Services/MarkdownService.cs:62-75 | a line writes `<ol>` exactly when it is a numbered item and the line before it, if any, is not. So a run of numbered lines shares one list |

## Left out

- **Database I/O.** SQL text, connections, `async`/`Task` and storage failures are left out. The store is a value, a call that throws leaves it unchanged, and a transaction is one atomic step.
- **Clock.** `DateTime.UtcNow` is the parameter `now`.
- **Date handling.**
  - `DateTime` parsing and the ISO "o" format are left out. A `DateTime` is a tick count with no time zone. SQLite's `DATE()` is taken to read the calendar day of that tick count; the UTC conversion SQLite applies to an offset written by a local-kind value is not modelled.
  - Dates are unbounded naturals. `DateTime.MinValue`/`MaxValue` limits are not modelled.
- **Integer width.** `Convert.ToInt32` on `last_insert_rowid()` is not modelled: ids are unbounded, so 32-bit overflow past 2^31 - 1 rows is out of scope.
- **Surrogate keys.** The EntryMoodId and EntryTagId columns are never read, so they are not kept.
- **Foreign keys.** The model assumes the schema's FOREIGN KEY clauses are not enforced. The source never sends `PRAGMA foreign_keys`, but whether keys are enforced by default depends on how the native SQLite library was built, and the package in use is not part of this model. Under a build that enforces them by default, such as e_sqlite3, a setter given the id of a missing entry, mood or tag throws "FOREIGN KEY constraint failed" and its transaction rolls back. The model instead accepts such ids and adds the rows.
- **Text search.**
  - The model follows SQLite `LIKE` as SQLite defines it: `%`, `_` and ASCII-only case folding, with the search text used untrimmed. The substring reading is proved only for text without `%` or `_`.
  - SQLite's limit on the length of a LIKE pattern is left out.
  - The `IN (...)` lists built by string concatenation are modelled as membership in the list of ids.
- **Case-insensitive comparison.** `StringComparison.OrdinalIgnoreCase` is modelled as ASCII case folding. The simple case mapping .NET applies to non-ASCII letters is left out.
- **Markdown text matching.**
  - `StartsWith` in `MarkdownService` is culture-sensitive in .NET: it skips ignorable code points such as U+00AD (soft hyphen) or U+0000. The model compares ordinally, so it does not follow the source on such input. For example, after trimming, "\u00AD# Title" is a level-1 heading in the source (`<h1> Title</h1>`, since `Substring(2)` cuts at the second code unit), but in the model it is a paragraph.
  - `\d` in the ordered-item regular expression also accepts non-ASCII Unicode digits. The model accepts only `0`-`9`.
- **Markdown output.**
  - `ProcessInlineMarkdown` (links, bold, italics) is an uninterpreted function parameter. Its regular expressions with lookbehind are not modelled.
  - `Environment.NewLine` is a parameter of `ConvertToHtml`, and the output is reasoned about as its sequence of lines.
- **Order of joined rows.** Where the source gives no `ORDER BY`, the join order is taken to be rowid order. This applies to GetEntryMoodsAsync and to the rows of the search before DISTINCT.
- **Out of scope.** These are not part of this model:
  - user-table handling (`SaveUserAsync`, `GetUserAsync`, `DeleteAllAsync`, `ResetDatabaseAsync`);
  - PIN hashing in `SecurityService.cs`;
  - `AuthStateService.cs` and `ThemeService.cs`;
  - the duplicate `Services/AuthDbService.cs`;
  - `MauiProgram.cs`.
- **Table creation.** `CREATE TABLE IF NOT EXISTS` is left out: the tables always exist in the model, and `Initialize` models only the seeding that follows.
- **Tag creation in `Journal`.** `Journal.Apply` uses `TagLinks.CreateTagTrimmedCheck`, the corrected tag creation under Findings. `Journal.ApplyAsWritten` uses `TagLinks.CreateTag` as written. For the code as written, `Journal.LifetimeAsWritten` proves the integrity constraints and the fixed data over every sequence of calls.
- Journal.ApplyKeepsInvariant: proved for the corrected tag creation only. With `CreateTagAsync` as written the case-insensitive uniqueness of tag names is not kept, as `Journal.FreshAppAdmitsCaseVariant` shows; the rest of the invariant is kept, by `Journal.ApplyAsWrittenKeepsConsistent`.
- Journal.LifetimeInvariant: proved for the corrected tag creation only. For the code as written, `Journal.LifetimeAsWritten` states everything but the case-insensitive uniqueness of tag names.
- Markdown.ConvertToHtml: its own contract covers only the blank-input case. The non-blank case is stated through `ConvertLinesWellNested`, `ConvertLinesContents`, `ConsumeState` and the two `Opens...List` lemmas, and it is glued to the text by `AppendLines`, which has no lemma of its own.
- Sorting.SortBy: the sort is stable by construction, but stability is not stated. Ties are impossible for entries on a consistent store and irrelevant for the name orders.

## Findings

| source | as written | input that shows it | evidently intended | confidence | as-written member | corrected member |
|---|---|---|---|---|---|---|
| SecureJournalApp_Paruhang_Khapung/Services/JournalDbService.cs:484-500 | the duplicate check compares the untrimmed name, ignoring case, but the INSERT stores `tagName.Trim()` | a freshly bootstrapped database, which holds the pre-built tag "Work", and the name " work": the check sees " work" ≠ "Work" ignoring case, and "work" is stored beside "Work" (`TagLinks.CreateTagAdmitsCaseVariant` shows the same with the tag "work" and the name " Work") | tag names unique ignoring case, with the check applied to the name that is stored | not executed | Journal.FreshAppAdmitsCaseVariant | TagLinks.CreateTagTrimmedCheckKeepsCaseUnique |
