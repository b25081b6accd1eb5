# PostgreOS, modelled and verified

PostgreOS keeps a filesystem in PostgreSQL. A volume is a set of *zones* (mounted subtrees with an
absolute path) and *entries* (rows with a path relative to a zone); file contents are inline text,
inline binary data, or line-aligned text blocks of content objects that copies share and that live in
segments. SQL functions create, write, copy, move, remove and import; statement triggers keep two
counters per zone; grep runs over candidate rows that the database filters by literals taken out of the
regular expression; a daemon streams output to its clients over one socket each.

The project models four connected parts and proves what each is for.

- **Namespace.** `Paths` and `Normalize` treat paths as text and as segments and prove the bridges.
  `Tables` has the rows, their invariant `Inv` and the abstraction `TreeOf` to a flat map from path to
  node. `Commands` gives every command as the change it makes to the rows, with the source's branches and
  errors. `Surgery`, `Grafting`, `Rerooting` and `Transplanting` show what deleting, adding, re-rooting and
  moving rows does to the tree; `Addresses` and the modules named after the commands build on them up to `Runs`,
  where every run of commands is a run of tree edits, and to `EveryRun`, which has what every run keeps even when
  text tests misjudge rows or writes meet zones. `Volume` has the tables as fields of a class, updated
  statement by statement with the triggers fired; each command method is proved to do exactly what `Commands`
  says and to keep the counters right (`Counters`, `Usage`).
- **Content.** `Utf8` has the byte strings that are text, `Blocks` the SQL splitter and range reads, `TextImport` the Rust splitter and the
  binary COPY stream it writes, `Content` the move of inline texts to blocks, the reclaiming of segments
  and the reads, `Publishing` the import of a text end to end.
- **Search.** `Regex` has a syntax tree with its language, the required-literal extraction and the
  letter-run analysis, `Choices` what they choose among the parts of an expression, `LetterShapes` the exact condition
  for the letter runs; `Patterns` PostgreSQL's LIKE and `Wildcards`
  what it accepts among paths; `Grep` the line printer; `Search`, `Candidates`, `CandidateText` and `LineFilters` the
  candidate routes; `Settling` and `TreeSearch` tie them to the tree over every run. `Queries` has `list`, `find_paths` and
  the meaning of `disk_usage`, `Collation` the order of their rows. `Departures` has the volumes on which commands go wrong, `Coincidence` one on which
  a misjudging test does no harm.
- **Session.** `Framing` and `Session` have the length framing, the re-chunking buffer, the daemon, and
  the client whose calls share one ordered socket.

## Conventions

- In the state machine a path is a sequence of names. Command specifications apply the source's own text
  operations (LIKE, substr, strpos) to the rendered path; the lemmas of `Paths` say what they mean.
- A raised error rolls back, so a failed command leaves the rows, the counters and the ids as they were.
- Times, owners, modes and generations carry no behaviour here and have no columns. Ids come from one
  counter. The order in which a statement meets its rows is a parameter (`RowOrder`) of the commands that depend
  on it; a copy or an import asks only that it gives each row once.
- A match on a line, the payload codec, and the prefix and suffix literals of the regex library are
  parameters; what is asked of them is written in the `requires` clauses (`Searches`, `Lawful`, `Compact`,
  `Covers`).

## Where the code departs from its intent

Each is stated exactly, and the theorems that need it ask for the condition.

- Subtree tests use `LIKE path || '/%'` without escaping. Among the valid paths they mean "strictly below" if
  and only if the path has no `%`, `_` or `\` (`Wildcards.UnderMeansBelowIffPlain`, and over all texts
  `Patterns.UnderIsPrefixIffWildcardFree`). What counts for a command is how they judge the rows there are:
  `remove` and `move` do what they should if and only if their tests judge the rows of the volume rightly
  (`Removing.RemovePrunesIff`, `Moving.MovesTreeIff`), `copy` likewise from sources without a `\`
  (`Copying.CopiesTreeIff`), `find_paths` and the LIKE routes of search for targets of any kind
  (`Queries.FindIsRightIff`, `Candidates.LikeSelectsBelowIff`). Paths without these characters are judged rightly on
  every volume (`Runs.PlainIsSupported`, `Queries.PlainTargetIsTold`, `Candidates.PlainRouteIsTold`), as is every
  path where no LIKE runs: the removal of an entry without the flag, and the prefix route.
  `Departures.RemoveTakesSibling` has a valid volume on which removing `/a_` takes `/ab/c` with it, and
  `Departures.MoveTakesSibling` shows that a move or a copy of `/a_` goes wrong there too. Even so the counters stay
  right (`Volume.Volume.PerformAll`), so `disk_usage_fast` and `move_command` stay what they should be, and no row loses
  its content (`EveryRun.RunLasts`).
- For the target `/` the test becomes `//%`, which no path passes (`Paths.NothingUnderRoot`). So
  `disk_usage_fast('/')` is right if and only if no nested zone holds file bytes (`Usage.FastUsageOfRootIff`);
  `Departures.FastUsageOfRootMisses` has a volume where it is wrong.
- `write_file_inline` does not compare its target with the zones. The write keeps the invariant if and only
  if the target is no zone (`Creating.WriteKeepsInvariantIffNoZone`); `Departures.WriteOverZoneBreaks` has a volume
  and a write that is accepted and breaks it.
- `guaranteed_ascii_letter_run` looks at the ends of the ranges of a class and multiplies through
  repetitions, so its answer can be too long: `Regex.RepetitionMiscounts` has the expression
  `(?:abc[0-9]){3}`. It is right if and only if all letter shapes of the expression have the computed run
  (`LetterShapes.LetterRunRightIff`), which is decided by computing a finite set of shapes along the
  syntax. For classes that means one case for each range (`Regex.ClassRunSoundIffOneCase`), for a repeated
  mixed word a run across the seam that is long enough (`LetterShapes.RepeatedWordRightIff`), and a simple
  syntactic fragment is always right (`Regex.LetterRunIsSound`).

## Model

| member | source | states |
|---|---|---|
| `Volume.Volume.PerformAll` | src/postgres/sql/001_initial.sql:3212-3286 | over every run of commands, executed in place with the triggers, whatever rows their text tests select and wherever a write goes: at the end the counters agree with the rows, no two zones share a path and one is mounted at the root, the rows went through the states of the run, and every call returned or failed as its step does |
| `Volume.Volume.PerformLasting` | src/postgres/sql/001_initial.sql:2484-2498 | over every run that draws each new id once, every row also keeps its content, and an entry that is left and was never written to stands for the node it stood for at the start |
| `Volume.Volume.PerformSupported` | src/postgres/sql/001_initial.sql:3212-3286 | over every run whose text tests judge the rows rightly and whose writes meet no zone, the whole invariant holds at the end as well and every step was the prescribed tree edit |
| `EveryRun.RunLasts` | src/postgres/sql/001_initial.sql:3045-3075 | over every run each state keeps the constraints of the schema (a root, unique zone paths, entries of existing zones, unique ids) and the content behind each row; no step changes the node of an entry it does not write, and after an accepted write or remove every published segment is referenced |
| `EveryRun.RunKeepsNodes` | src/postgres/sql/001_initial.sql:3045-3075 | over every run an entry that is left and that no command wrote to has the kind, the bytes and the link it had at the start, wherever its row has gone and whatever was reclaimed |
| `EveryRun.StepLasts` | src/postgres/sql/001_initial.sql:1839-1923 | the same for one step of any command, accepted or refused |
| `EveryRun.StepKeepsRoot` | src/postgres/sql/001_initial.sql:1867-1919 | no step removes or moves the zone at the root |
| `EveryRun.ValidIsLasting` | src/postgres/sql/001_initial.sql:3418-3448 | a valid volume, such as a new one, meets what these runs ask for |
| `Runs.RunRefinesTrees` | src/postgres/sql/001_initial.sql:545-653 | over every run of mkdir, write, copy, move, remove and the two imports, each state satisfies the invariant and each step is the prescribed edit of the flat tree, or a refusal for the reason the tree gives that changes nothing; asked is that the text tests of each command judge the rows it meets rightly |
| `Runs.StepMeets` | src/postgres/sql/001_initial.sql:1839-1923 | one step of any command: it refuses exactly when the tree says and with that error, otherwise it makes the prescribed edit, returns the number of nodes concerned, keeps the invariant, and after a write or a remove every published segment is still referenced |
| `Runs.StepMeetsIff` | src/postgres/sql/001_initial.sql:1425-1522 | that condition is exact: a step of move or remove, and of copy from a source without a backslash, does what it should if and only if its tests judge the rows of the volume rightly |
| `Runs.PlainIsSupported` | src/postgres/sql/001_initial.sql:1911-1919 | on every valid volume the condition holds for sources and targets without wildcards, and for the removal of an entry without the flag whatever its name |
| `Runs.RunIsIsolated` | src/postgres/sql/001_initial.sql:2753-2766 | over every run, a file that no command of the run touches reads at the end, whole or by ranges, exactly as at the start, also when its content is shared with copies that were written, moved or removed |
| `Runs.RunLeaves` | src/postgres/sql/001_initial.sql:545-653 | over every run, a node that no command touches keeps its path, id, kind and bytes |
| `Runs.NewVolumeIsValid` | src/postgres/sql/001_initial.sql:660-671 | a new volume satisfies the invariant and is a tree with just the root |
| `Creating.MkdirMeansTree` | src/postgres/sql/001_initial.sql:1300-1314 | mkdir adds one directory with a fresh id and changes nothing else, and fails exactly when the path exists or its parent is not a directory |
| `Creating.MkdirParentsMeansTree` | src/postgres/sql/001_initial.sql:1283-1299 | mkdir with parents adds exactly the missing ancestors and the target, and fails exactly when a non-directory is in the way |
| `Creating.WriteInlineMeansTree` | src/postgres/sql/001_initial.sql:2519-2564 | writing replaces or creates exactly the node at the path with the given bytes, keeps the id of an existing file, returns the id, and refuses a missing parent or a target that is no regular file |
| `Creating.WriteFileMeansTree` | src/postgres/sql/001_initial.sql:2484-2498 | the same for the whole write with blockizing and reclaiming, after which every published segment is referenced |
| `Creating.WriteKeepsInvariantIffNoZone` | src/postgres/sql/001_initial.sql:2530-2563 | an accepted write keeps the invariant if and only if the target is not the path of a zone |
| `Creating.WriteReadsBack` | src/postgres/sql/001_initial.sql:2484-2498 | after a write, whole and range reads of the path give exactly the written bytes |
| `Creating.WriteIsIsolated` | src/postgres/sql/001_initial.sql:2549-2557 | after a write every other file reads as before, including files that shared the overwritten content |
| `Removing.RemoveMeansTree` | src/postgres/sql/001_initial.sql:1839-1923 | remove deletes exactly the subtree and returns its number of nodes, and every published segment left is referenced, whenever its tests judge the rows rightly; it refuses the root, a missing path and, without the flag, a directory with children, for every path |
| `Removing.RemovePrunesIff` | src/postgres/sql/001_initial.sql:1867-1918 | an accepted removal, of any path, prunes the tree there if and only if the rows its tests select are those at or below the target |
| `Removing.PlainRemoveIsJudged` | src/postgres/sql/001_initial.sql:1880-1918 | the tests select those rows on every volume if the target has no wildcard |
| `Removing.EntryRemoveIsJudged` | src/postgres/sql/001_initial.sql:1911-1918 | and for every entry removed without the flag |
| `Removing.ChildrenMeanTree` | src/postgres/sql/001_initial.sql:1861-1864 | the emptiness test on the rows says exactly whether the directory has a child in the tree |
| `Moving.MoveMeansTree` | src/postgres/sql/001_initial.sql:1425-1522 | move re-roots exactly the source subtree, ids kept, replaces a destination that is no directory, returns the number of nodes moved, and refuses exactly where the tree and the zones say, whenever its tests judge the paths rightly |
| `Moving.MovesTreeIff` | src/postgres/sql/001_initial.sql:1425-1522 | for every source and valid destination, move does so if and only if its tests judge rightly whether the destination is at or below the source and, unless the tree refuses the move, which zones or entries are |
| `Moving.PlainMoveIsJudged` | src/postgres/sql/001_initial.sql:1425-1522 | the tests judge rightly on every volume if the source has no wildcard |
| `Moving.MovedMeans` | src/postgres/sql/001_initial.sql:1425-1522 | the moved tree path by path: below the destination what was below the source, nothing below the source, everything else unchanged |
| `Moving.ClearMeansTree` | src/postgres/sql/001_initial.sql:1446-1459 | the checks on the destination refuse exactly a missing parent and a directory; otherwise exactly the node at the destination goes |
| `Copying.CopyMeansTree` | src/postgres/sql/001_initial.sql:545-653 | copy adds a duplicate of the source subtree under fresh ids, leaves all else as it was, returns the number of nodes copied, and refuses exactly where the tree and the zones say, whenever its tests judge the paths rightly |
| `Copying.CopiesTreeIff` | src/postgres/sql/001_initial.sql:545-653 | for every source without a backslash copy does so if and only if its tests judge rightly whether the destination is below the source and, unless the tree refuses the copy, whether a directory holds zones and which entries are below it |
| `Coincidence.CopyComesOutRight` | src/postgres/sql/001_initial.sql:626-651 | for a source with a backslash this is not so: on a concrete valid volume the recursive copy of `/\%%` does what it should though its test misses `/\%%/x` and selects `/%ab/x` |
| `Copying.PlainCopyIsJudged` | src/postgres/sql/001_initial.sql:557-651 | the tests judge rightly on every volume if the source has no wildcard |
| `Copying.FileCopyIsJudged` | src/postgres/sql/001_initial.sql:646-651 | for a copy without the flag only the test on the destination counts, whatever characters the source has |
| `Copying.CopiedRowsAreTransplanted` | src/postgres/sql/001_initial.sql:626-651 | the rows the copying INSERT makes out of path texts are the source rows shifted below the destination, parent path and name included |
| `Importing.ImportMeansTree` | src/postgres/sql/001_initial.sql:49-200 | an import adds exactly the staged nodes below a free destination, with fresh ids and the staged contents, counts them, and refuses exactly a malformed batch or a taken destination |
| `Importing.BatchIsForest` | src/postgres/sql/001_initial.sql:97-126 | the checks on the staged batch force its rows to form a tree with valid names and directories as parents |
| `Importing.BatchOkIff` | src/postgres/sql/001_initial.sql:97-126 | the checks accept exactly the batches with a root in which every other text is a valid relative path whose parent is staged as a directory |
| `Importing.BatchSize` | src/postgres/sql/001_initial.sql:149-197 | the batch becomes one row for each staged path besides the root |
| `Publishing.ImportTextMeansTree` | src/postgres/blocks.rs:274-335 | importing a text leaves exactly the given bytes at the target and changes no other node; the file reaches a new object with the blocks of the text, alone in a new segment that is published, and no other object or segment changes; it fails exactly for a text that may not be imported or a target that may not be written |
| `Publishing.ImportableIff` | src/postgres/blocks.rs:438-469 | a text may be imported exactly if it has no NUL, is the encoding of some code points other than surrogates, and no line of it is longer than 16 MiB with its newline |
| `Commands.AssignedIds` | src/postgres/sql/001_initial.sql:631-651 | the ids a statement draws for its rows are fresh and distinct whatever the order of the rows |
| `Commands.EnumeratingOrderExists` | src/postgres/sql/001_initial.sql:631-651 | there is an order that gives each row of any set once, so the condition on orders can be met |
| `Surgery.RowsMakeTree` | src/postgres/sql/001_initial.sql:3418-3448 | the rows of a valid volume stand for a tree: a root directory, a directory above every node, distinct ids |
| `Surgery.DeletePrunes` | src/postgres/sql/001_initial.sql:1867-1918 | deleting exactly the zone and entry rows at or below a path prunes the tree there |
| `Surgery.PruningRowsAreSubtree` | src/postgres/sql/001_initial.sql:1867-1918 | conversely, zone rows deleted with their entries and other entry rows prune the tree at a path only if they are exactly the rows at or below it |
| `Surgery.SubtreeRowsCount` | src/postgres/sql/001_initial.sql:1867-1922 | the rows at or below a path are as many as the nodes of the subtree |
| `Surgery.DeleteKeepsNamespace` | src/postgres/sql/001_initial.sql:1867-1918 | deleting a whole subtree of rows keeps the namespace invariant |
| `Grafting.GraftPlants` | src/postgres/sql/001_initial.sql:149-194 | adding a forest of rows below an address plants exactly their nodes in the tree |
| `Grafting.GraftKeepsNamespace` | src/postgres/sql/001_initial.sql:149-194 | adding a forest of rows to a free address under fresh ids keeps the namespace invariant |
| `Grafting.AddZonePlants` | src/postgres/sql/001_initial.sql:585-594 | a new zone row adds exactly its directory node |
| `Grafting.AddZoneKeepsNamespace` | src/postgres/sql/001_initial.sql:585-594 | a new zone at a vacant path below a directory keeps every entry in its deepest zone and the rest of the namespace invariant |
| `Rerooting.RerootMoves` | src/postgres/sql/001_initial.sql:1480-1491 | rewriting the path prefix of the zone rows re-roots the whole subtree in the tree, ids kept |
| `Rerooting.RerootKeepsNamespace` | src/postgres/sql/001_initial.sql:1480-1491 | rewriting the zone rows keeps every entry in its deepest zone, every parent in place and the zone paths unique |
| `Transplanting.TransplantMeansTree` | src/postgres/sql/001_initial.sql:1502-1518 | the statement that gives a subtree of entries new zones and paths collides with no row, keeps the invariant and plants exactly the subtree's nodes at the destination |
| `Tables.LocateIsCanonical` | src/postgres/sql/001_initial.sql:2821-2836 | the located zone is the deepest one at or above the path, zone path and relative path together give the path back, and no other answer does |
| `Addresses.LocatedByText` | src/postgres/sql/001_initial.sql:2821-2836 | on the texts: the zone whose path is the longest among the texts of `ancestor_paths`, and the offset behind it, are the located zone and relative path, and no other zone comes first |
| `Tables.PathsUnique` | src/postgres/sql/001_initial.sql:3418-3448 | when every entry lives in its deepest zone, no two entry rows stand for the same absolute path |
| `Tables.LookupFinds` | src/postgres/sql/001_initial.sql:2797-2814 | looking a path up through its zone finds the node of the tree exactly when there is one, and its kind |
| `Volume.Volume.constructor` | src/postgres/sql/001_initial.sql:660-671 | a new volume has the root zone with zero counters and nothing else |
| `Volume.Volume.LocateZone` | src/postgres/sql/001_initial.sql:2821-2836 | the search through the ancestors, longest first, ends at the canonical address of any path |
| `Volume.Volume.KindAt` | src/postgres/sql/001_initial.sql:2797-2814 | the kind found in the rows is the kind the specification gives |
| `Volume.Volume.ReplaceEntries` | src/postgres/sql/001_initial.sql:3258-3286 | an UPDATE that takes rows away and brings others fires its trigger and keeps the counters in agreement |
| `Volume.Volume.InsertEntries` | src/postgres/sql/001_initial.sql:3235-3251 | an INSERT fires its trigger and keeps the counters in agreement |
| `Volume.Volume.DeleteEntries` | src/postgres/sql/001_initial.sql:3212-3228 | a DELETE fires its trigger and keeps the counters in agreement |
| `Volume.Volume.UpsertEntries` | src/postgres/sql/001_initial.sql:2540-2558 | an upsert fires the INSERT and the UPDATE trigger in turn, each for its own rows, and keeps the counters in agreement |
| `Volume.Volume.Mkdir` | src/postgres/sql/001_initial.sql:1300-1314 | rows, result and error of the in-place command are those of its specification, and the counters stay right |
| `Volume.Volume.MkdirParents` | src/postgres/sql/001_initial.sql:1283-1299 | the loop over the names does what the recursive specification says, and undoes the ancestors it made when it fails |
| `Volume.Volume.WriteFileInline` | src/postgres/sql/001_initial.sql:2519-2564 | the upsert, which may insert, update or refuse, has the specified rows and id and keeps the counters right |
| `Volume.Volume.WriteFile` | src/postgres/sql/001_initial.sql:2484-2498 | the write with blockizing and reclaiming has the specified rows and id and keeps the counters right |
| `Volume.Volume.StoreTexts` | src/postgres/sql/001_initial.sql:2637-2665 | storing the texts of the rows one after the other in one statement gives the specified tables |
| `Volume.Volume.BlockizeZone` | src/postgres/sql/001_initial.sql:2624-2667 | the zone's inline texts move to objects as specified, counters unchanged in meaning |
| `Volume.Volume.BlockizeZoneSegment` | src/postgres/sql/001_initial.sql:2674-2735 | the same into a staged segment that is published when it holds something and dropped otherwise |
| `Volume.Volume.ReclaimContentSegments` | src/postgres/sql/001_initial.sql:3045-3075 | the loop over segments no entry reaches removes exactly their objects, blocks and rows |
| `Volume.Volume.DeleteSelected` | src/postgres/sql/001_initial.sql:1867-1919 | the DELETE statements in turn remove exactly the specified zones and entries, and count them |
| `Volume.Volume.Remove` | src/postgres/sql/001_initial.sql:1839-1923 | rows, count and error of the in-place command are those of its specification, and the counters stay right |
| `Volume.Volume.ClearDestination` | src/postgres/sql/001_initial.sql:1446-1459 | the checks and the deletion on the destination are the specified ones |
| `Volume.Volume.RerootZoneRows` | src/postgres/sql/001_initial.sql:1480-1491 | the UPDATE of the zones rewrites the specified rows, or the unique index refuses it |
| `Volume.Volume.RerootEntryRows` | src/postgres/sql/001_initial.sql:1502-1520 | the UPDATE of the entries moves the specified rows, between zones too, with the counters kept right, or the unique key refuses it |
| `Volume.Volume.Move` | src/postgres/sql/001_initial.sql:1425-1522 | rows, count and error of the in-place command are those of its specification; a late failure restores the deleted destination |
| `Volume.Volume.MoveCommand` | src/postgres/sql/001_initial.sql:1529-1598 | the fast route, which counts by the counters, ends with the rows, the count and the errors of move |
| `Volume.Volume.CopyZoneRows` | src/postgres/sql/001_initial.sql:585-607 | the new zone and the copies of its rows are the specified ones, counters kept right |
| `Volume.Volume.CopyEntryRows` | src/postgres/sql/001_initial.sql:626-651 | the copies of the entry rows are the specified ones, counters kept right, or the unique key refuses them |
| `Volume.Volume.Copy` | src/postgres/sql/001_initial.sql:545-653 | rows, count and error of the in-place command are those of its specification, and the counters stay right |
| `Volume.Volume.ApplyImportInline` | src/postgres/sql/001_initial.sql:73-200 | rows, count and error of the staged import are those of its specification, and the counters stay right |
| `Volume.Volume.ApplyImport` | src/postgres/sql/001_initial.sql:49-66 | the same followed by blockizing the destination's zone |
| `Volume.Volume.AttachObject` | src/postgres/sql/001_initial.sql:1681-1683 | the UPDATE by id attaches the object to exactly the written entry, counters following its size |
| `Volume.Volume.ImportText` | src/postgres/blocks.rs:274-335 | splitting, the COPY stream, decoding it on the server, publishing and attaching together have the specified rows, id and errors |
| `Volume.Volume.DiskUsage` | src/postgres/sql/001_initial.sql:714-755 | the loop over the selected rows adds up what the specification says |
| `Volume.Volume.DiskUsageFast` | src/postgres/sql/001_initial.sql:762-784 | for every target but the root the sum of counters is the disk usage, errors included |
| `Volume.Volume.List` | src/postgres/sql/001_initial.sql:1120-1158 | on a directory the result is exactly the children in the tree, each before the next by the first code point in which their names differ, a name before its extensions; anything else is refused |
| `Volume.Volume.FindPaths` | src/postgres/sql/001_initial.sql:1036-1080 | the paths found are exactly those of nodes at or below the target whose name the glob accepts and whose kind passes, whenever the tests tell the rows there rightly, and their texts ascend in the order of the first differing code point |
| `Volume.Volume.Perform` | src/postgres/sql/001_initial.sql:2605-2617 | any call first checks its paths, and then runs as the step of the specification says |
| `Counters.GroupByZone` | src/postgres/sql/001_initial.sql:3262-3274 | the loop over a transition table gives each zone's number of rows and bytes of regular files |
| `Counters.FireInsert` | src/postgres/sql/001_initial.sql:3235-3251 | the INSERT trigger adds the tally of the new rows, zone by zone |
| `Counters.FireDelete` | src/postgres/sql/001_initial.sql:3212-3228 | the DELETE trigger subtracts the tally of the old rows |
| `Counters.Deltas` | src/postgres/sql/001_initial.sql:3265-3282 | the subquery of the UPDATE trigger yields the differences of the tallies, without the zones where they cancel |
| `Counters.FireUpdate` | src/postgres/sql/001_initial.sql:3258-3286 | the UPDATE trigger adds the difference of the tallies of new and old rows |
| `Counters.FiringsCompose` | src/postgres/sql/001_initial.sql:2540-2558 | two triggers that fire one after the other, as for an upsert, act like one that sees the rows of both |
| `Counters.FiringKeepsAgreement` | src/postgres/sql/001_initial.sql:3212-3286 | for any rows taken and brought, inside or between zones, counters that agreed before the statement agree after its trigger |
| `Counters.TotalOfUnion` | src/postgres/sql/001_initial.sql:3262-3274 | the bytes of two separate sets of rows add up |
| `Usage.ZoneSumIsTotal` | src/postgres/sql/001_initial.sql:777-781 | given the counter invariant, the counters of any zones sum to the number and bytes of their rows |
| `Usage.FastUsageIsUsage` | src/postgres/sql/001_initial.sql:762-784 | given the counter invariant, the fast route equals disk_usage for every target but the root, errors included |
| `Usage.FastUsageOfRootIff` | src/postgres/sql/001_initial.sql:777-781 | for the root the two agree if and only if no other zone holds file bytes |
| `Usage.MoveCommandIsMove` | src/postgres/sql/001_initial.sql:1529-1598 | given the counter invariant, move_command yields the rows, the count and the errors of move for every source |
| `Usage.SumCounters` | src/postgres/sql/001_initial.sql:1574-1578 | the aggregate over zone rows is their sum |
| `Queries.ListMeansChildren` | src/postgres/sql/001_initial.sql:1120-1158 | under the invariant the two halves of the listing together are exactly the nodes whose parent is the directory; a non-directory is refused |
| `Queries.ChildNamesUnique` | src/postgres/sql/001_initial.sql:1156-1156 | no two rows of a listing carry the same name, so the order by name is total |
| `Queries.OrderBy` | src/postgres/sql/001_initial.sql:1138-1156 | sorting keeps every row once and puts each text before the next one by the first code point in which they differ, or as its beginning |
| `Collation.TextLessIsBefore` | src/postgres/sql/001_initial.sql:1156-1156 | comparing character by character says that a text comes first exactly if it is a proper beginning of the other or smaller where they first differ |
| `Collation.BeforeMeansBytes` | src/postgres/sql/001_initial.sql:1156-1156 | that order of the texts is the order of the bytes of their UTF-8 forms, which the "C" collation compares |
| `Queries.FindMeansGlob` | src/postgres/sql/001_initial.sql:1036-1080 | the paths found are exactly those of nodes at or below the target whose name the glob accepts and whose kind is the one asked for, whenever the tests tell the rows there rightly |
| `Queries.FindIsRightIff` | src/postgres/sql/001_initial.sql:1036-1080 | for every target, find is right for all globs and kinds if and only if its tests tell the zones and the entries at and below the target rightly |
| `Queries.PlainTargetIsTold` | src/postgres/sql/001_initial.sql:1050-1069 | they do on every volume if the target has no wildcard, the root included |
| `Queries.FoundPathsUnique` | src/postgres/sql/001_initial.sql:1071-1078 | no two paths found have the same text, so the order by path is total |
| `Queries.DiskUsageMeansTree` | src/postgres/sql/001_initial.sql:714-755 | disk usage is the number of bytes in the regular files at and below the target in the tree, whenever the tests tell the entries there rightly, and a missing target is refused |
| `Content.BlockizeKeepsTree` | src/postgres/sql/001_initial.sql:2624-2667 | moving a zone's inline texts to blocks changes no node and keeps the invariant, for any order of the rows |
| `Content.BlockizeSegmentKeepsTree` | src/postgres/sql/001_initial.sql:2674-2735 | the same through a staged segment |
| `Content.ReclaimKeepsTree` | src/postgres/sql/001_initial.sql:3045-3075 | reclaiming drops no block an entry reaches: the tree, its bytes and the invariant stay; afterwards every published segment is referenced |
| `Content.ReclaimKeepsNodes` | src/postgres/sql/001_initial.sql:3045-3075 | this needs only that every row reaches its content, not a well-formed namespace |
| `Content.ReclaimIs` | src/postgres/sql/001_initial.sql:3045-3075 | exactly the published segments that no entry reaches through its content go, with exactly the objects and blocks in them; staged segments, objects without a segment and everything else stay as they were |
| `Content.ReadFileReadsTree` | src/postgres/sql/001_initial.sql:1704-1728 | a whole read gives exactly the bytes of a file, however long when they are in its row, unless they are a stored object over the limit; a zone, another kind and a missing path are refused |
| `Content.ReadRangeIsSlice` | src/postgres/sql/001_initial.sql:1786-1821 | for every start and every accepted count a range read of a file gives exactly that range of its bytes, clipped at its size |
| `Content.ReadRangeReadsTree` | src/postgres/sql/001_initial.sql:1786-1821 | the tree determines every range read: a negative start or count and a count above the limit are refused before anything else, then a missing path or a zone, then a node that is no regular file; otherwise the range of the bytes is returned |
| `Content.RangeOfPayloadIsSlice` | src/postgres/sql/001_initial.sql:1804-1819 | for each way content is stored, the range arithmetic yields the same slice of the denoted bytes |
| `Blocks.SplitTextBlocks` | src/postgres/sql/001_initial.sql:3118-3168 | the loop over remaining, next offset and next line ends for every positive target and yields the specified split; a smaller target is an error |
| `Blocks.SplitTextPartitions` | src/postgres/sql/001_initial.sql:3118-3168 | the bodies are non-empty and concatenate to the text, offsets are prefix sums, first lines count the earlier newlines, every block but the last exceeds the target and ends in a newline, none is longer than needed |
| `Blocks.SplitKeepsCharacters` | src/postgres/sql/001_initial.sql:3138-3154 | every body is UTF-8 by itself and no cut falls inside a character |
| `Blocks.RangeOfBlocksIsSlice` | src/postgres/sql/001_initial.sql:1810-1819 | for any contiguous blocks, the pieces from the last block at or before the start concatenate to exactly the requested bytes |
| `Utf8.ValidAcrossAsciiCut` | src/postgres/sql/001_initial.sql:3186-3194 | cutting UTF-8 after an ASCII byte leaves UTF-8 on both sides |
| `Utf8.ValidUtf8Iff` | src/postgres/blocks.rs:453-453 | the byte strings accepted as UTF-8 are exactly the concatenated encodings, as section 4 of RFC 3629 has them, of code points below 0x110000 other than the surrogates |
| `Utf8.EncodeRoundTrip` | src/postgres/blocks.rs:453-453 | decoding the encodings of any such code points gives them back, in order |
| `Utf8.BoundaryIff` | src/postgres/sql/001_initial.sql:3138-3154 | the places where UTF-8 may be cut are exactly those behind so many whole code points |
| `Utf8.EncodedTextDecodes` | src/bin/pgosd.rs:463-463 | the bytes of a text are UTF-8 and decode to exactly its characters, in order |
| `TextImport.WriteBlocks` | src/postgres/blocks.rs:424-469 | the loop accepts exactly the texts that may be imported (`Publishing.ImportableIff` says which), returns their length and writes the specified stream |
| `TextImport.ReadBlock` | src/postgres/blocks.rs:438-449 | the inner loop stops after the line that fills the block, at the end of the text, or at a line that is too long |
| `TextImport.DecodedRowsAreBlocks` | src/postgres/blocks.rs:418-469 | decoding the stream as PostgreSQL's binary COPY format gives one row of seven fields per block, with exact ordinals, offsets and first lines, whose bodies concatenate to the text and never exceed 8191 bytes plus a longest line |
| `TextImport.StoredBlocksAreSplit` | src/postgres/sql/001_initial.sql:2979-3038 | what the server stores from the stream is exactly the split of the text |
| `TextImport.BodiesFit` | src/postgres/blocks.rs:10-11 | no body is longer than 8191 bytes plus 16 MiB, so no field length overflows 32 bits |
| `TextImport.NumbersFit` | src/postgres/blocks.rs:463-465 | ordinals, offsets and line numbers stay within the length of the text |
| `TextImport.FieldRoundTrip` | src/postgres/blocks.rs:418-422 | a written field is read back with whatever follows it |
| `TextImport.TuplesRoundTrip` | src/postgres/blocks.rs:455-467 | the tuples of any blocks are read back up to the trailer |
| `Patterns.UnderIsPrefixIffWildcardFree` | src/postgres/sql/001_initial.sql:1915-1915 | over all texts, a LIKE test with a trailing wildcard is the prefix test if and only if the root has no special character |
| `Wildcards.UnderMeansBelowIffPlain` | src/postgres/sql/001_initial.sql:1491-1491 | over the valid paths, the subtree test of a path other than the root means strictly below if and only if the path has no special character |
| `Wildcards.RootNotUnder` | src/postgres/sql/001_initial.sql:1880-1886 | the test of a path other than the root never selects the root, whatever wildcards it has |
| `Wildcards.LikeIsAccepts` | src/postgres/sql/001_initial.sql:1491-1491 | taking a pattern apart into its tokens keeps what LIKE accepts |
| `Patterns.LiteralPatternMeansContains` | src/postgres/blocks.rs:401-416 | LIKE against the escaped pattern holds exactly when the literal occurs in the text, for all texts and literals |
| `Patterns.LiteralPatterns` | src/postgres/blocks.rs:401-416 | each literal gets one pattern, which accepts exactly the texts that contain it |
| `Patterns.NestedReplacementsAreOneSubstitution` | src/postgres/sql/001_initial.sql:1074-1077 | the five nested replacements equal one substitution character by character |
| `Patterns.GlobTranslationPreservesMeaning` | src/postgres/sql/001_initial.sql:1074-1077 | LIKE on the translated pattern accepts a name exactly when the glob does |
| `Paths.AssertPathMeansValid` | src/postgres/sql/001_initial.sql:2605-2617 | the test on the text accepts exactly the renderings of valid segment paths |
| `Paths.ParseRender` | src/postgres/sql/001_initial.sql:2571-2579 | parsing undoes rendering, absolute and relative |
| `Paths.RenderInjective` | src/postgres/sql/001_initial.sql:2605-2617 | different valid paths have different texts |
| `Paths.NameOfMeansLast` | src/postgres/sql/001_initial.sql:2881-2888 | the text after the last slash is the last segment |
| `Paths.ParentOfMeansDropLast` | src/postgres/sql/001_initial.sql:2895-2903 | the text before the last slash is the parent, the root's included |
| `Paths.RelativeParentMeansDropLast` | src/postgres/sql/001_initial.sql:3093-3100 | the same on relative texts |
| `Paths.AbsolutePathMeansAppend` | src/postgres/sql/001_initial.sql:2571-2579 | joining the texts of a zone and a relative path joins the segments |
| `Paths.AncestorsArePrefixes` | src/postgres/sql/001_initial.sql:2586-2598 | the ancestors of a path are exactly its prefixes |
| `Paths.RelativeToMeansDrop` | src/postgres/sql/001_initial.sql:2828-2835 | the offset into the text gives the segments below the zone |
| `Paths.TextRerootMeansReplacePrefix` | src/postgres/sql/001_initial.sql:1481-1512 | replacing the source's text by the destination's replaces the leading segments |
| `Paths.UnderMeansBelow` | src/postgres/sql/001_initial.sql:1491-1491 | for paths without wildcards other than the root, the LIKE test means strictly below |
| `Paths.NothingMissed` | src/postgres/sql/001_initial.sql:1491-1491 | for paths without a backslash the LIKE test accepts everything strictly below, other wildcards or not |
| `Paths.NothingUnderRoot` | src/postgres/sql/001_initial.sql:781-781 | for the root the LIKE test accepts no valid path |
| `Paths.UnderscoreSelectsSibling` | src/postgres/sql/001_initial.sql:1915-1915 | a concrete path with an underscore whose test accepts a path outside its subtree |
| `Departures.RemoveTakesSibling` | src/postgres/sql/001_initial.sql:1911-1919 | on a valid volume the recursive removal of `/a_` also removes `/ab/c` and counts it |
| `Departures.MoveTakesSibling` | src/postgres/sql/001_initial.sql:1491-1520 | on that volume neither a move of `/a_` nor its recursive copy does what it should |
| `Departures.WriteOverZoneBreaks` | src/postgres/sql/001_initial.sql:2530-2563 | on a valid volume with the zone `/z` a write to `/z` is accepted and breaks the invariant |
| `Departures.FastUsageOfRootMisses` | src/postgres/sql/001_initial.sql:777-781 | on that volume, with right counters, the fast total for `/` is zero and the disk usage is one byte |
| `Normalize.Normalize` | src/core/path.rs:16-44 | the loop over the segments yields the specified text or error |
| `Normalize.NormalizeAcceptsExactly` | src/core/path.rs:16-44 | accepted are exactly the absolute paths without NUL whose dot-dots never climb above the root; the result passes assert_path and normalizing it again changes nothing |
| `Normalize.NormalizeComposes` | src/core/path.rs:16-44 | normalizing a path below an accepted prefix equals normalizing it below the normalized prefix |
| `Normalize.BackTakesName` | src/core/path.rs:16-44 | a name followed by `..` disappears: whatever stands around it, the path without the two normalizes to the same, errors included |
| `Normalize.DotsAreSkipped` | src/core/path.rs:16-44 | so do `.`, empty segments and a slash at the end |
| `Normalize.CanonicalStays` | src/core/path.rs:16-44 | the text of a valid path without NUL is left as it is; together these determine the result for every accepted path |
| `Normalize.RefusedFor` | src/core/path.rs:16-44 | a path is refused as not absolute, for a NUL, or because a beginning of it climbs above the root, in this order, and for nothing else |
| `Normalize.WalkMeansDepth` | src/core/path.rs:26-37 | pushing and popping succeeds exactly when no leading run of segments climbs above the start, and ends at their net depth |
| `Regex.InteriorCovers` | src/core/search.rs:160-183 | by induction on the expression, every string it matches contains one of the literals found |
| `Regex.InteriorUsable` | src/core/search.rs:160-183 | each literal found is UTF-8 of at least three bytes, and there is at least one unless the expression matches nothing |
| `Regex.RequiredLiteralsAreSound` | src/core/search.rs:130-158 | given sound prefix and suffix sets, the selected literals cover every match, are usable, and are no worse than the interior ones |
| `Regex.FirstBestIsBest` | src/core/search.rs:151-157 | the selection returns a candidate that no other beats |
| `Choices.FirstBestComesFirst` | src/core/search.rs:151-157 | it is the candidate with the fewest literals, among these one whose shortest literal is longest, and among these the first |
| `Choices.ShortestLengthIs` | src/core/search.rs:151-157 | the length compared is that of some literal of the candidate, and no literal is shorter |
| `Choices.KeptMeans` | src/core/search.rs:133-149 | an extracted set takes part exactly if it is there, is not empty and all its literals are UTF-8 of three bytes or more, and then with the same literals in the order of their bytes |
| `Choices.SelectionMeans` | src/core/search.rs:130-158 | the literals of an expression are one of the prefix, suffix and interior sets that take part, if any, and none of these has fewer literals, or as many with a longer shortest one |
| `Choices.InteriorFound` | src/core/search.rs:160-183 | literals are found in an expression exactly if every way through it passes a literal of three bytes or more: some part of a sequence, all alternatives, a repetition that is not optional |
| `Choices.InteriorOfConcat` | src/core/search.rs:168-171 | a sequence takes the literals of the last of its parts whose shortest literal is longest |
| `Choices.InteriorOfAlternation` | src/core/search.rs:172-180 | an alternation takes exactly the literals of all its alternatives, each once and in the order of their bytes |
| `Regex.SortDedupKeeps` | src/core/search.rs:173-179 | sorting and removing duplicates keeps the set of literals and makes it strictly ascend |
| `Regex.LetterRunIsSound` | src/core/search.rs:301-331 | on a fragment told by syntax alone (classes that count within one case, only letters in what counts twice or more), every match has a run of ASCII letters at least as long as the computed value |
| `Choices.LetterRunOfConcat` | src/core/search.rs:322-322 | a sequence has a run if one of its parts has, and then the longest of theirs |
| `Choices.LetterRunOfAlternation` | src/core/search.rs:323-328 | an alternation has a run if it has alternatives and all of them have, and then the shortest of theirs |
| `Regex.ClassRunSoundIffOneCase` | src/core/search.rs:310-317 | for a class of code points or of bytes whose ranges end in letters, the computed run of one is right if and only if each range stays within one case |
| `Regex.RepetitionMiscounts` | src/core/search.rs:319-321 | the expression `(?:abc[0-9]){3}`, whose computed run is nine, and a match that has no such run |
| `LetterShapes.LetterRunRightIff` | src/core/search.rs:301-331 | for every expression with a computed run, the run is right for all matches if and only if all its letter shapes have it, which its syntax decides; on the fragment they do |
| `LetterShapes.RunGuaranteedIff` | src/core/search.rs:301-331 | the same for any number of letters: all matches have them in a row if and only if all shapes do |
| `LetterShapes.ShapesComplete` | src/core/search.rs:301-331 | every match of an expression has one of the shapes computed from its syntax |
| `LetterShapes.ShapesSound` | src/core/search.rs:301-331 | every computed shape is the shape of a match |
| `LetterShapes.ShapeAppend` | src/core/search.rs:319-322 | the shape of two strings one after the other is determined by theirs |
| `LetterShapes.ShapeMeans` | src/core/search.rs:301-331 | a shape tells of its string whether it has, and starts with, so many letters in a row |
| `LetterShapes.RepeatedWordRightIff` | src/core/search.rs:319-321 | for a repeated mixed word the computed product is right if and only if it is no longer than the longest run of the word or the run across the seam of two copies |
| `Grep.BlockOutput.Matched` | src/core/search.rs:452-484 | a match appends the prefix, the numeral of the line's number in the file and a colon if numbers are asked for, the line, and a newline if it has none, and sets the flag |
| `Grep.DecimalIsNumeral` | src/core/search.rs:470-472 | the printed number consists of decimal digits, without a leading zero, whose value, most significant first, is the number |
| `Grep.NumeralUnique` | src/core/search.rs:470-472 | and no other digits do |
| `Grep.PrintedIsPrinted` | src/core/search.rs:463-481 | a printed line is the prefix, the numeral and a colon if numbers are asked for, the line, and a newline if it has none |
| `Grep.GrepMeans` | src/core/search.rs:433-484 | the output for a text is what its lines print in turn: a line that matches without its newline is printed under its number, any other prints nothing; something is found exactly if a line matches |
| `Grep.LinesAreLines` | src/core/search.rs:433-449 | the lines of a text concatenate to it, none is empty, and each ends at its only newline or at the end of the text |
| `Grep.LinesUnique` | src/core/search.rs:433-449 | and no other sequence does |
| `Grep.SearchPrefixed` | src/core/search.rs:433-449 | searching a block prints each matching line once, prefixed and numbered from its first line, and says whether there was one |
| `Grep.LiteralOutput` | src/core/search.rs:92-126 | the loop over the files prints what grep for the substring prints, and the flag says whether a line matched |
| `Grep.BlockwiseIsWhole` | src/postgres/blocks.rs:251-270 | for any contiguous line-aligned blocks, the outputs of the blocks concatenate to the output on the whole text, numbers included, and so do the flags |
| `Grep.GrepFile` | src/postgres/blocks.rs:251-270 | the frames together are the output of grep on the whole file, none is empty or too long, and the flag is right |
| `Search.GrepRegexOutput` | src/bin/pgosd.rs:449-479 | the callback over the rows emits the rows' output in bounded frames and accumulates the flag |
| `Search.FieldsAreLines` | src/postgres/sql/001_initial.sql:2109-2110 | splitting a body at newlines yields exactly the lines grep numbers |
| `Search.LineRowsPrint` | src/postgres/sql/001_initial.sql:2103-2112 | the single re-numbered rows of the lines that contain the literal print exactly what the whole block prints |
| `Search.CandidatesAreEnough` | src/postgres/blocks.rs:59-148 | for each of the three shapes of candidates (re-numbered lines with segment pruning, blocks for one pattern, blocks for several), if every matching line contains a required literal, matching only the candidates gives the bytes and the flag of plain grep over every file |
| `Candidates.AcceleratedGrepIsPlainGrep` | src/postgres/sql/001_initial.sql:2050-2164 | in a valid volume, literals extracted from the expression, the route chosen for them, the files it selects and the order the query asks for together give exactly the bytes and the flag of plain grep over the files at and below the target; a route with LIKE tests asks that they tell the stored files rightly |
| `TreeSearch.SearchAfterRunIsTreeGrep` | src/postgres/sql/001_initial.sql:2050-2164 | over every run of a volume from its creation on, a search through the candidate rows prints exactly what grep prints for the text files of the tree at and below the target, with the same flag |
| `TreeSearch.SearchIsTreeGrep` | src/postgres/sql/001_initial.sql:2050-2164 | the same in any valid volume whose texts are all stored |
| `TreeSearch.GrepTreePrints` | src/bin/pgosd.rs:449-479 | what grep prints for files of the tree: for each file in turn its matching lines, each behind the given prefix, bytes that decode to its path, a colon, and its number in decimal with a colon if numbers are asked for |
| `TreeSearch.TextsAreFiles` | src/postgres/sql/001_initial.sql:2063-2096 | the stored files are exactly the UTF-8 files without NUL in the tree, and taken in path order hold their bytes |
| `Settling.RunSettles` | src/postgres/sql/001_initial.sql:2624-2735 | over every run the content of every regular file is in blocks exactly when it is UTF-8 without NUL, and no text is left in a row |
| `Settling.StepSettles` | src/postgres/sql/001_initial.sql:2484-2498 | every command, accepted or refused, keeps that so |
| `Candidates.SearchIsGrep` | src/postgres/sql/001_initial.sql:2050-2164 | any rows in the order of the query that are the candidates of a sound route print what plain grep prints |
| `Candidates.OrderIsUnique` | src/postgres/sql/001_initial.sql:2113-2116 | a set of rows has only one arrangement in the order by path, ordinal and number |
| `Candidates.FilesInOrderGiveRowsInOrder` | src/postgres/sql/001_initial.sql:2113-2162 | files taken in path order with their blocks in turn give the rows in the order the query asks for |
| `Candidates.LikeSelectsBelowIff` | src/postgres/sql/001_initial.sql:2063-2096 | for every target, the LIKE tests select exactly the text files at and below it with a wanted suffix, for all suffixes, if and only if they tell the stored files there rightly |
| `Candidates.PlainRouteIsTold` | src/postgres/sql/001_initial.sql:2063-2096 | on every volume each route tells the stored files rightly if the target has no wildcard |
| `Candidates.PrefixSelectsFiles` | src/postgres/blocks.rs:69-120 | without zones below the target the prefix tests select the same files, whatever characters the target has |
| `Candidates.PruningIsVacuous` | src/postgres/blocks.rs:80-114 | no file in the scope has its blocks in a segment the pruning leaves out |
| `Candidates.RouteIsSound` | src/postgres/blocks.rs:59-148 | whichever route the literals select, it asks only for what every match contains and prunes no segment in use |
| `Candidates.LiteralsAreRequired` | src/core/search.rs:130-158 | the literals selected for an expression are required of every line a search for it accepts |
| `CandidateText.KeptThenMatched` | src/postgres/sql/001_initial.sql:207-271 | keeping the lines that pass a weaker test and matching the text they form prints the same as matching the whole text |
| `CandidateText.CandidateTextIsEnough` | src/postgres/blocks.rs:220-230 | the candidate text streamed from whole blocks is exactly the lines with a literal, and grep on it gives the output and the flag of grep on the whole file |
| `LineFilters.LiteralLinesAreEnough` | src/postgres/blocks.rs:174-207 | with a single literal, the lines the query picks out of each block, filtered by the literal again and streamed, are exactly the lines with the literal, and grep on them gives the output and the flag of grep on the whole file |
| `LineFilters.LetterLinesAreEnough` | src/postgres/blocks.rs:208-219 | without a literal but with a run of at least eight letters that the shapes have, the lines the query picks out are exactly those with the run, and grep on them gives the output and the flag of grep on the whole file |
| `LineFilters.AggregatedIsKept` | src/postgres/sql/001_initial.sql:228-236 | splitting a body at newlines and gluing the passing pieces together, each with a newline, yields the passing lines, terminated |
| `CandidateText.RunFilterIsSound` | src/postgres/sql/001_initial.sql:207-238 | whenever the shapes have the computed run, every line a search accepts has the run the filter asks for |
| `CandidateText.RunFilterIsSoundIff` | src/postgres/sql/001_initial.sql:207-238 | for a search that accepts every line with a match, the filter loses no line if and only if the shapes have the computed run |
| `CandidateText.StreamCandidateRows` | src/postgres/blocks.rs:378-399 | the loop sends the selected part of each row, in order, in bounded frames |
| `Framing.WriteFrame` | src/protocol.rs:229-240 | a value that fits is appended with its length, one that does not leaves the stream alone |
| `Framing.ReadFrame` | src/protocol.rs:242-258 | a value or an undecodable payload means that the stream starts with that one whole frame of allowed size and what follows it is left; too large means a length above the limit; the end means that the stream stops before its first frame does |
| `Framing.FrameReadIsUnique` | src/protocol.rs:242-258 | a stream determines what is read off it and what is left, so the four outcomes exclude each other |
| `Framing.FrameRoundTrip` | src/protocol.rs:229-258 | off a stream that starts with a written frame exactly its value is read and exactly the rest is left, whatever follows |
| `Session.ResponseBuffer.Write` | src/bin/pgosd.rs:92-104 | however the bytes are split over writes, full frames go out, the rest is held back, and nothing is lost or reordered |
| `Session.ResponseBuffer.Flush` | src/bin/pgosd.rs:105-118 | what is held back goes out as one frame, and an empty buffer sends none |
| `Session.ChunkShape` | src/bin/pgosd.rs:92-118 | the data frames concatenate to the bytes, all but the last are exactly 256 KiB, and none is empty |
| `Session.ChunksAre` | src/bin/pgosd.rs:92-118 | the frames sent depend only on the bytes written, not on how the writes split them |
| `Session.Daemon.Stream` | src/bin/pgosd.rs:196-300 | a streaming operation sends its bytes in such frames; after an error only the full frames are sent |
| `Session.Daemon.ServeOne` | src/bin/pgosd.rs:196-300 | one request is taken off the socket and what the database makes of exactly that request is answered with its data frames and one last frame, unless that frame is too large and the connection ends |
| `Session.Client.Call` | src/client.rs:136-148 | on a live socket a call that was sent returns the output the database gave for the request with this version, volume and operation unchanged, or its error as a remote one; a request too large is not sent; the call reports a dead connection exactly when the socket is closed, which happens exactly when its response was too large |
| `Session.Client.Drain` | src/client.rs:102-122 | the loop writes the data frames in order; the socket stays open exactly when the end of the response can be delivered and the output takes all data |
| `Session.Client.StreamOutput` | src/client.rs:94-123 | a streaming call on an open socket wrote exactly the bytes the server sent and returns the flag or the error of the server, or did not send a request that is too large; what it wrote is a prefix in any case; exactly when the response or the output fails the socket is shut down |
| `Session.RunSession` | src/client.rs:94-148 | over every sequence of calls on one socket and every split of the writes, each call before the first that breaks the connection returns exactly its own outcome and output, and that call and all later ones report a broken connection; which call breaks it is decided by the sizes of its request, its last response and its output |
| `Session.Exchanged` | src/client.rs:94-148 | one call of either kind: the connection survives exactly when the call does not break it, and then the outcome is what the database made of the request with this version, volume and operation: its output unchanged, its error as a remote one, or the flag and all bytes of its stream |

## Left out

- `remove_many` in bulk, `mkdir_many`, and `find_command_output` on `/`: they do not keep the tree or do not
  equal their simple forms.
- Modes, owners, times, generations, `stat`, `walk`, `inode`, `set_times` and the listing of volumes: columns and
  reads without a harder property.
- Schemas, partitions, indexes and dynamic table definitions: a segment is staged, published or dropped, and
  the rows of an object are kept in one place.
- The check that an import's batch belongs to the calling volume and destination, and the batch's own tables.
- Advisory locks, pooled connections, concurrent transactions and the volume cache of the daemon: each command
  runs as one transaction on its own.
- The 1 GB bound on a PostgreSQL value, and 64-bit overflow of counters and sums: numbers are unbounded.
- The regex engine, its parser and the prefix and suffix extractor: the syntax tree is given, look-around
  matches the empty string anywhere (more than it really matches), and the extractor's sets are hypotheses.
- `gnu_pattern`, `gnu_required_literals`, `identifier_predicate`, `required_word` and `content_block_terms`:
  they depend on other grammars, or the query never uses them.
- Binary files in the search routes: only texts and blocks are searched, as in the queries modelled.
- FUSE, the command line, child processes, environment and locale.
- Socket failures other than an early end, a shutdown and an oversized frame.
- TextImport.WriteBlocks: asks for a text shorter than 2^63 bytes, since offsets are 64-bit integers.
- Volume.Volume.ImportText: the same bound on the text; the owner's ids are 16 bytes each.
- The payload codec of the frames: it is abstract, and round trips assume that decoding undoes encoding.
- What the database makes of the requests of a session: a parameter of each call, applied to the request the daemon
  reads. A data frame of at most 256 KiB is assumed to encode within the frame limit.
- LetterShapes.LetterRunRightIff: for an expression with look-around, the matches are those of the larger language
  above.
- Runs.StepMeets: asks that the text tests of copy, move and remove judge the rows of the volume rightly, and that the
  target of a write is no zone; the section on departures states what happens otherwise.
- Copying.CopiesTreeIff: from a source with a `\` the condition is enough (`Copying.CopyMeansTree`) but not necessary
  (`Coincidence.CopyComesOutRight`): the test may miss rows and select others in their place whose copies look the same.
- EveryRun.RunLasts: asks that a copy or an import draws one new id for each row, since a shared id would let the
  publication of a text attach it to two entries; the counters (`Volume.Volume.PerformAll`) need no such condition.
- Queries.DiskUsageMeansTree: the condition on the tests is enough, not necessary; wrongly chosen files may have as many
  bytes.
- LineFilters.LetterLinesAreEnough: PostgreSQL refuses a bound above 255 in a regular expression, so the query raises
  an error for a longer computed run.
- Ids skipped by failed calls, and which row of a statement gets which id: fresh and distinct is all that is stated.
- UniqueViolation arises only from zone paths and entry keys; the indexes on parent path and name and the checks on
  rows are not modelled. In a valid volume they add nothing. Where text tests misjudge they may refuse a step the model
  accepts; such a step is rolled back, so what every run keeps is kept there as well.
