/** The candidate queries over the tables: which files they look into, in which order their rows
    come, and the grep they answer. */
module Candidates {
  import opened Basics
  import opened Collation
  import opened Patterns
  import opened Paths
  import opened Blocks
  import opened Tables
  import opened Trees
  import opened Surgery
  import opened Grafting
  import opened Content
  import opened Commands
  import opened Addresses
  import opened Creating
  import opened Removing
  import opened Queries
  import opened Grep
  import opened Search
  import opened Regex

  // ---- ORDER BY ----

  /** `ORDER BY path COLLATE "C", ordinal, number`. */
  ghost predicate RowLess(a: HitRow, b: HitRow) {
    || Before(a.path, b.path)
    || (a.path == b.path && (a.ordinal < b.ordinal || (a.ordinal == b.ordinal && a.number < b.number)))
  }

  lemma RowLessIsOrder(a: HitRow, b: HitRow)
    ensures !RowLess(a, a) && !(RowLess(a, b) && RowLess(b, a))
  {
    hide Before;
    BeforeIsOrder(a.path, b.path);
    BeforeIsOrder(a.path, a.path);
  }

  ghost predicate RowsAscend(rows: seq<HitRow>) { forall i, j :: 0 <= i < j < |rows| ==> RowLess(rows[i], rows[j]) }

  /** The rows of a set in order, each once. */
  ghost predicate Ordered(rows: seq<HitRow>, all: set<HitRow>) {
    RowsAscend(rows) && forall row :: row in rows <==> row in all
  }

  lemma FirstIsLeast(rows: seq<HitRow>, row: HitRow)
    requires RowsAscend(rows) && row in rows
    ensures row == rows[0] || RowLess(rows[0], row)
  {
    hide RowLess;
    var i :| 0 <= i < |rows| && rows[i] == row;
  }

  lemma OrderedTail(rows: seq<HitRow>, all: set<HitRow>)
    requires Ordered(rows, all) && rows != []
    ensures rows[0] in all && Ordered(rows[1..], all - {rows[0]})
  {
    hide RowLess;
    assert rows == [rows[0]] + rows[1..];
    forall row | row in rows[1..] ensures row != rows[0] {
      var i :| 0 <= i < |rows[1..]| && rows[1..][i] == row;
      assert rows[i + 1] == row;
      RowLessIsOrder(rows[0], rows[0]);
    }
  }

  /** There is only one way to put a set of rows in order. */
  lemma {:induction false} OrderIsUnique(a: seq<HitRow>, b: seq<HitRow>, all: set<HitRow>)
    requires Ordered(a, all) && Ordered(b, all)
    ensures a == b
    decreases |a|
  {
    if a == [] {
      if b != [] { HasMember(b); }
    } else {
      assert a[0] in all;
      SameFirst(a, b, all);
      OrderedTail(a, all);
      OrderedTail(b, all);
      hide Ordered;
      OrderIsUnique(a[1..], b[1..], all - {a[0]});
      assert a == [a[0]] + a[1..] && b == [b[0]] + b[1..];
    }
  }

  lemma HasMember(rows: seq<HitRow>)
    requires rows != []
    ensures exists row :: row in rows
  {
    assert rows[0] in rows;
  }

  lemma SameFirst(a: seq<HitRow>, b: seq<HitRow>, all: set<HitRow>)
    requires Ordered(a, all) && Ordered(b, all) && a != [] && b != []
    ensures a[0] == b[0]
  {
    hide RowLess;
    assert a[0] in b && b[0] in a;
    FirstIsLeast(a, b[0]);
    FirstIsLeast(b, a[0]);
    RowLessIsOrder(a[0], b[0]);
  }

  // ---- The rows of files in path order ----

  ghost predicate FilesAscend(files: seq<SearchFile>) {
    forall i, j :: 0 <= i < j < |files| ==> Before(files[i].path, files[j].path)
  }

  ghost predicate FilesOrdered(files: seq<SearchFile>, all: set<SearchFile>) {
    FilesAscend(files) && forall file :: file in files <==> file in all
  }

  /** The rows a query joins from the files it looks into. */
  ghost function CandidateSet(route: Route, files: set<SearchFile>): set<HitRow> {
    set file, row | file in files && row in RowsOfFile(route, file, 0) :: row
  }

  predicate RowsFrom(rows: seq<HitRow>, path: string, ordinal: nat) {
    forall i :: 0 <= i < |rows| ==> rows[i].path == path && rows[i].ordinal >= ordinal
  }

  lemma AppendAscends(a: seq<HitRow>, b: seq<HitRow>)
    requires RowsAscend(a) && RowsAscend(b)
    requires forall i, j :: 0 <= i < |a| && 0 <= j < |b| ==> RowLess(a[i], b[j])
    ensures RowsAscend(a + b)
  {
    hide RowLess;
    var rows := a + b;
    forall i, j | 0 <= i < j < |rows| ensures RowLess(rows[i], rows[j]) {
      if i < |a| && j >= |a| { assert RowLess(a[i], b[j - |a|]); }
    }
  }

  predicate LinesFrom(rows: seq<HitRow>, path: string, ordinal: nat, number: nat) {
    forall i :: 0 <= i < |rows| ==> rows[i].path == path && rows[i].ordinal == ordinal && rows[i].number > number
  }

  lemma PrependLine(row: HitRow, rest: seq<HitRow>, n: nat)
    requires RowsAscend(rest) && LinesFrom(rest, row.path, row.ordinal, n + 1) && row.number == n + 1
    ensures RowsAscend([row] + rest) && LinesFrom([row] + rest, row.path, row.ordinal, n)
  {
    var rows := [row] + rest;
    assert forall i :: 1 <= i < |rows| ==> rows[i] == rest[i - 1];
    hide Before;
  }

  lemma {:induction false} LineRowsAscend(file: SearchFile, i: nat, pattern: Bytes, fields: seq<Bytes>, n: nat)
    requires i < |file.blocks| && n <= |fields|
    ensures var rows := LineRows(file, i, pattern, fields, n); RowsAscend(rows) && LinesFrom(rows, file.path, i, n)
    decreases |fields| - n
  {
    hide Like, RowLess;
    if n < |fields| {
      LineRowsAscend(file, i, pattern, fields, n + 1);
      var rest := LineRows(file, i, pattern, fields, n + 1);
      if Like(fields[n], pattern, BYTES) {
        PrependLine(LineRow(file, i, n, fields[n]), rest, n);
      } else {
        assert LineRows(file, i, pattern, fields, n) == rest;
      }
    }
  }

  predicate RowsAt(rows: seq<HitRow>, path: string, ordinal: nat) {
    forall i :: 0 <= i < |rows| ==> rows[i].path == path && rows[i].ordinal == ordinal
  }

  lemma BlockRowsAscend(route: Route, file: SearchFile, i: nat)
    requires i < |file.blocks|
    ensures var rows := RowsOfBlock(route, file, i); RowsAscend(rows) && RowsAt(rows, file.path, i)
  {
    hide Passes, Fields, RowLess, LineRows;
    if route.SingleNeedle? {
      LineRowsAscend(file, i, route.pattern, Fields(file.blocks[i].body), 0);
    }
  }

  lemma LaterBlocks(a: seq<HitRow>, b: seq<HitRow>, path: string, i: nat)
    requires RowsAscend(a) && RowsAt(a, path, i) && RowsAscend(b) && RowsFrom(b, path, i + 1)
    ensures RowsAscend(a + b) && RowsFrom(a + b, path, i)
  {
    hide Before;
    AppendAscends(a, b);
  }

  lemma {:induction false} FileRowsAscend(route: Route, file: SearchFile, i: nat)
    requires i <= |file.blocks|
    ensures var rows := RowsOfFile(route, file, i); RowsAscend(rows) && RowsFrom(rows, file.path, i)
    decreases |file.blocks| - i
  {
    hide RowsOfBlock, RowsAscend, RowsFrom, RowsAt;
    if i == |file.blocks| {
      NoRowsAscend(file.path, i);
    } else {
      BlockRowsAscend(route, file, i);
      FileRowsAscend(route, file, i + 1);
      LaterBlocks(RowsOfBlock(route, file, i), RowsOfFile(route, file, i + 1), file.path, i);
    }
  }

  lemma NoRowsAscend(path: string, i: nat)
    ensures RowsAscend([]) && RowsFrom([], path, i)
  {
  }

  /** Rows of the files from the first on have one of their paths. */
  predicate PathsAmong(rows: seq<HitRow>, files: seq<SearchFile>) {
    forall i :: 0 <= i < |rows| ==> HasPath(files, rows[i].path)
  }

  predicate HasPath(files: seq<SearchFile>, path: string) { exists j :: 0 <= j < |files| && files[j].path == path }

  lemma LaterFiles(a: seq<HitRow>, b: seq<HitRow>, files: seq<SearchFile>)
    requires files != [] && FilesAscend(files)
    requires RowsAscend(a) && RowsFrom(a, files[0].path, 0) && RowsAscend(b) && PathsAmong(b, files[1..])
    ensures RowsAscend(a + b) && PathsAmong(a + b, files)
  {
    hide Before;
    forall i, j | 0 <= i < |a| && 0 <= j < |b| ensures RowLess(a[i], b[j]) {
      assert HasPath(files[1..], b[j].path);
      var n :| 0 <= n < |files[1..]| && files[1..][n].path == b[j].path;
      assert Before(files[0].path, files[n + 1].path);
    }
    AppendAscends(a, b);
    forall i | 0 <= i < |a + b| ensures HasPath(files, (a + b)[i].path) {
      if i < |a| {
        assert files[0].path == (a + b)[i].path;
      } else {
        assert HasPath(files[1..], b[i - |a|].path);
        var n :| 0 <= n < |files[1..]| && files[1..][n].path == b[i - |a|].path;
        assert files[n + 1].path == (a + b)[i].path;
      }
    }
  }

  lemma {:induction false} FilesRowsAscend(route: Route, files: seq<SearchFile>)
    requires FilesAscend(files)
    ensures RowsAscend(RowsOfFiles(route, files)) && PathsAmong(RowsOfFiles(route, files), files)
    decreases |files|
  {
    hide RowsOfFile, RowsAscend, RowsFrom, PathsAmong, Before;
    if files == [] {
      NoFilesAscend();
    } else {
      FileRowsAscend(route, files[0], 0);
      FilesRowsAscend(route, files[1..]);
      LaterFiles(RowsOfFile(route, files[0], 0), RowsOfFiles(route, files[1..]), files);
    }
  }

  lemma NoFilesAscend()
    ensures RowsAscend([]) && PathsAmong([], [])
  {
  }

  lemma {:induction false} FilesRowsMembers(route: Route, files: seq<SearchFile>, row: HitRow)
    ensures row in RowsOfFiles(route, files) <==> exists i :: 0 <= i < |files| && row in RowsOfFile(route, files[i], 0)
    decreases |files|
  {
    hide RowsOfFile;
    if files != [] {
      FilesRowsMembers(route, files[1..], row);
      if i :| 0 <= i < |files| && row in RowsOfFile(route, files[i], 0) && i > 0 {
        assert files[1..][i - 1] == files[i];
      }
      if i :| 0 <= i < |files[1..]| && row in RowsOfFile(route, files[1..][i], 0) {
        assert files[i + 1] == files[1..][i];
      }
    }
  }

  /** The rows of the files in path order are the query's rows in the order it asks for. */
  lemma FilesInOrderGiveRowsInOrder(route: Route, files: seq<SearchFile>, all: set<SearchFile>)
    requires FilesOrdered(files, all)
    ensures Ordered(RowsOfFiles(route, files), CandidateSet(route, all))
  {
    hide RowsOfFile, RowsOfFiles, RowLess, Before;
    FilesRowsAscend(route, files);
    forall row ensures row in RowsOfFiles(route, files) <==> row in CandidateSet(route, all) {
      FilesRowsMembers(route, files, row);
      if i :| 0 <= i < |files| && row in RowsOfFile(route, files[i], 0) {
        assert files[i] in all;
      }
      if file :| file in all && row in RowsOfFile(route, file, 0) {
        assert file in files;
        var i :| 0 <= i < |files| && files[i] == file;
      }
    }
  }

  /** Searching the rows a query returns, in the order it returns them, is plain grep over its
      files in path order: same bytes, same flag. */
  lemma SearchIsGrep(m: LineMatcher, lineNumbers: bool, pathPrefix: Bytes, route: Route, files: seq<SearchFile>, all: set<SearchFile>, rows: seq<HitRow>)
    requires Sound(route, m, files) && forall i :: 0 <= i < |files| ==> WellStored(files[i])
    requires FilesOrdered(files, all) && Ordered(rows, CandidateSet(route, all))
    ensures RowsOutput(m, lineNumbers, pathPrefix, rows) == PlainGrep(m, lineNumbers, pathPrefix, files)
    ensures FoundInRows(m, rows) <==> PlainFound(m, files)
  {
    hide Sound, WellStored, FilesOrdered, Ordered, CandidateSet, RowsOutput, FoundInRows, PlainGrep, PlainFound;
    FilesInOrderGiveRowsInOrder(route, files, all);
    OrderIsUnique(rows, RowsOfFiles(route, files), CandidateSet(route, all));
    CandidatesAreEnough(m, lineNumbers, pathPrefix, route, files);
  }

  // ---- The files a query looks into ----

  /** The name is something followed by one of the suffixes, or no suffixes are given. */
  ghost predicate HasSuffix(suffixes: seq<string>, name: Name) {
    suffixes == [] || exists i, stem: string :: 0 <= i < |suffixes| && name == stem + suffixes[i]
  }

  lemma EndsIn(suffixes: seq<string>, name: Name)
    ensures HasSuffix(suffixes, name) <==>
            suffixes == [] || exists i :: 0 <= i < |suffixes| && |suffixes[i]| <= |name| && name[|name| - |suffixes[i]|..] == suffixes[i]
  {
    if i, stem: string :| 0 <= i < |suffixes| && name == stem + suffixes[i] {
      assert name[|name| - |suffixes[i]|..] == suffixes[i];
    }
    if i :| 0 <= i < |suffixes| && |suffixes[i]| <= |name| && name[|name| - |suffixes[i]|..] == suffixes[i] {
      assert name == name[..|name| - |suffixes[i]|] + suffixes[i];
    }
  }

  /** `right(name, length(suffix)) = suffix` for one of the suffixes, or no suffixes given. */
  predicate SuffixOk(suffixes: seq<string>, name: Name): (ok: bool)
    ensures ok <==> HasSuffix(suffixes, name)
  {
    EndsIn(suffixes, name);
    suffixes == [] || exists i :: 0 <= i < |suffixes| && |suffixes[i]| <= |name| && name[|name| - |suffixes[i]|..] == suffixes[i]
  }

  /** A text file stored in blocks. */
  predicate IsStored(db: Tables, k: Key) {
    k in db.entries && db.entries[k].payload.kind == File && db.entries[k].payload.content.Some?
  }

  ghost function FileAt(db: Tables, k: Key): SearchFile
    requires k in db.entries
  {
    var o := db.entries[k].payload.content;
    if o.Some? && o.value in db.store.rows then
      SearchFile(Render(PathOf(db.zones, k)), db.store.rows[o.value].blocks, db.store.rows[o.value].segment)
    else SearchFile(Render(PathOf(db.zones, k)), [], None)
  }

  /** The stored text files at and below a path. */
  ghost function TextFiles(db: Tables, p: Path, suffixes: seq<string>): set<SearchFile> {
    set k | k in db.entries && IsStored(db, k) && HasSuffix(suffixes, db.entries[k].name) && p <= PathOf(db.zones, k) :: FileAt(db, k)
  }

  /** Those that `search_candidate_blocks` selects by its LIKE tests. */
  ghost function FilesByLike(db: Tables, p: Path, suffixes: seq<string>): set<SearchFile>
    requires HasRoot(db.zones)
  {
    var l := Locate(db.zones, p);
    set k | k in db.entries && IsStored(db, k) && SuffixOk(suffixes, db.entries[k].name) && SelectedEntry(db, p, l, k) :: FileAt(db, k)
  }

  /** `starts_with(text, prefix)`. */
  predicate StartsWith(text: string, prefix: string) { prefix <= text }

  /** Another zone lies at or below the target. */
  predicate HasDescendants(db: Tables, p: Path, l: Location) {
    exists z :: z in db.zones && z != l.zone
                && (p == [] || db.zones[z].path == p || StartsWith(Render(db.zones[z].path), Render(p) + "/"))
  }

  predicate PrefixSelects(l: Location, k: Key) {
    k.zone == l.zone && (l.rel == [] || k.rel == l.rel || StartsWith(RenderRel(k.rel), RenderRel(l.rel) + "/"))
  }

  /** Those that the single-literal query selects by its exact prefix tests. */
  ghost function FilesByPrefix(db: Tables, l: Location, suffixes: seq<string>): set<SearchFile> {
    set k | k in db.entries && IsStored(db, k) && SuffixOk(suffixes, db.entries[k].name) && PrefixSelects(l, k) :: FileAt(db, k)
  }

  /** The segments of the objects those entries reach. */
  ghost function SegmentIds(db: Tables, l: Location): set<SegmentId> {
    set k | k in db.entries && PrefixSelects(l, k) && IsStored(db, k)
            && db.entries[k].payload.content.value in db.store.objects
            && db.store.objects[db.entries[k].payload.content.value].segment.Some? ::
      db.store.objects[db.entries[k].payload.content.value].segment.value
  }

  /** The LIKE tests tell exactly the stored files at and below the target. */
  ghost predicate FilesTold(db: Tables, p: Path) {
    && HasRoot(db.zones)
    && forall k :: k in db.entries && IsStored(db, k) ==> (SelectedEntry(db, p, Locate(db.zones, p), k) <==> p <= PathOf(db.zones, k))
  }

  lemma SameFile(db: Tables, j: Key, k: Key)
    requires Namespace(db.zones, db.entries, db.nextId) && j in db.entries && k in db.entries && FileAt(db, j) == FileAt(db, k)
    ensures j == k
  {
    hide Namespace, TreeOf, HasRoot, PathOf, Homed, NamesValid, ZonePathsUnique, Render;
    NamespaceParts(db);
    RowsMakeTree(db);
    EntryInTree(db, j);
    EntryInTree(db, k);
    RenderInjective(PathOf(db.zones, j), PathOf(db.zones, k));
    PathsUnique(db.zones, db.entries, j, k);
  }

  lemma FileIsTold(db: Tables, p: Path, k: Key)
    requires Namespace(db.zones, db.entries, db.nextId) && k in db.entries && IsStored(db, k)
    requires HasRoot(db.zones) && FilesByLike(db, p, []) == TextFiles(db, p, [])
    ensures SelectedEntry(db, p, Locate(db.zones, p), k) <==> p <= PathOf(db.zones, k)
  {
    var like, below := FilesByLike(db, p, []), TextFiles(db, p, []);
    hide Namespace, HasRoot, Locate, PathOf, SelectedEntry, FileAt;
    if SelectedEntry(db, p, Locate(db.zones, p), k) {
      assert FileAt(db, k) in like;
      var j :| j in db.entries && p <= PathOf(db.zones, j) && FileAt(db, j) == FileAt(db, k);
      SameFile(db, j, k);
    } else if p <= PathOf(db.zones, k) {
      assert FileAt(db, k) in below;
      var j :| j in db.entries && SelectedEntry(db, p, Locate(db.zones, p), j) && FileAt(db, j) == FileAt(db, k);
      SameFile(db, j, k);
    }
  }

  /** The LIKE tests select exactly the files at and below the target, whatever the suffixes, if and
      only if they tell the stored ones rightly. */
  lemma LikeSelectsBelowIff(db: Tables, p: Path)
    requires Namespace(db.zones, db.entries, db.nextId)
    ensures HasRoot(db.zones)
    ensures (forall suffixes :: FilesByLike(db, p, suffixes) == TextFiles(db, p, suffixes)) <==> FilesTold(db, p)
  {
    hide Namespace, HasRoot, Locate, PathOf, SelectedEntry, IsStored, FilesByLike, TextFiles;
    NamespaceParts(db);
    if FilesTold(db, p) {
      forall suffixes ensures FilesByLike(db, p, suffixes) == TextFiles(db, p, suffixes) { ToldFiles(db, p, suffixes); }
    }
    if forall suffixes :: FilesByLike(db, p, suffixes) == TextFiles(db, p, suffixes) {
      assert FilesByLike(db, p, []) == TextFiles(db, p, []);
      forall k | k in db.entries && IsStored(db, k) ensures SelectedEntry(db, p, Locate(db.zones, p), k) <==> p <= PathOf(db.zones, k) {
        FileIsTold(db, p, k);
      }
    }
  }

  lemma ToldFiles(db: Tables, p: Path, suffixes: seq<string>)
    requires FilesTold(db, p)
    ensures FilesByLike(db, p, suffixes) == TextFiles(db, p, suffixes)
  {
    hide Locate, PathOf, SelectedEntry, IsStored, SuffixOk, HasSuffix, FileAt, HasRoot;
  }

  lemma StartsWithMeansBelow(p: Path, q: Path)
    requires ValidPath(p) && ValidPath(q) && p != []
    ensures StartsWith(Render(q), Render(p) + "/") <==> p < q
    ensures StartsWith(RenderRel(q), RenderRel(p) + "/") <==> p < q
  {
    TextPrefixMeansSegments(p, q);
    assert Render(p) + "/" == "/" + (Join(p) + "/");
    if Join(p) + "/" <= Join(q) {
      assert Render(q)[..|Join(p)| + 2] == "/" + Join(q)[..|Join(p)| + 1];
    }
    if Render(p) + "/" <= Render(q) {
      assert Join(q) == Render(q)[1..];
      assert Join(p) + "/" == (Render(p) + "/")[1..];
    }
  }

  lemma OtherZoneApart(db: Tables, p: Path, l: Location, z: ZoneId)
    requires NamesValid(db.zones, db.entries) && ValidPath(p) && !HasDescendants(db, p, l) && z in db.zones && z != l.zone
    ensures !(p <= db.zones[z].path)
  {
    var q := db.zones[z].path;
    assert ValidPath(q);
    hide ValidPath, StartsWith;
    if p != [] { StartsWithMeansBelow(p, q); }
    assert p == [] ==> HasDescendants(db, p, l);
  }

  lemma PrefixSelectsBelow(db: Tables, p: Path, k: Key)
    requires Namespace(db.zones, db.entries, db.nextId) && ValidPath(p) && k in db.entries && HasRoot(db.zones)
    requires !HasDescendants(db, p, Locate(db.zones, p))
    ensures PrefixSelects(Locate(db.zones, p), k) <==> p <= PathOf(db.zones, k)
  {
    hide Namespace, ValidPath, Locate, HasRoot, PathOf, IsDeepest, HasDescendants, StartsWith, TreeOf;
    NamespaceParts(db);
    LocatedFacts(db, p);
    EntryFacts(db, k);
    var l := Locate(db.zones, p);
    RowsBelow(db, p, l, k);
    LocatedIsAbove(db, p, l);
    if k.zone != l.zone { OtherZoneApart(db, p, l, k.zone); }
    if l.rel != [] { StartsWithMeansBelow(l.rel, k.rel); }
  }

  /** Without descendant zones the prefix tests select the same files, whatever the target's name. */
  lemma PrefixSelectsFiles(db: Tables, p: Path, suffixes: seq<string>)
    requires Namespace(db.zones, db.entries, db.nextId) && ValidPath(p) && HasRoot(db.zones)
    requires !HasDescendants(db, p, Locate(db.zones, p))
    ensures FilesByPrefix(db, Locate(db.zones, p), suffixes) == TextFiles(db, p, suffixes)
  {
    hide Namespace, ValidPath, Locate, PathOf, PrefixSelects, IsStored, SuffixOk, HasSuffix, FileAt, HasRoot, HasDescendants;
    forall k | k in db.entries ensures PrefixSelects(Locate(db.zones, p), k) <==> p <= PathOf(db.zones, k) {
      PrefixSelectsBelow(db, p, k);
    }
  }

  /** A stored file is a node of the tree: its blocks hold the node's bytes. */
  lemma FileIsNode(db: Tables, k: Key)
    requires Inv(db) && IsStored(db, k)
    ensures var q, file := PathOf(db.zones, k), FileAt(db, k);
            && q in TreeOf(db) && TreeOf(db)[q].kind == File
            && file.path == Render(q) && Bodies(file.blocks) == TreeOf(db)[q].bytes && WellStored(file)
            && (file.segment.Some? ==>
                  && db.entries[k].payload.content.value in db.store.objects
                  && db.store.objects[db.entries[k].payload.content.value].segment == file.segment)
  {
    hide Namespace, TreeOf, PathOf, Bodies, Contiguous, LineAligned, Payloads;
    EntryInTree(db, k);
    ContentSize(db, k);
    var o := db.entries[k].payload.content.value;
    assert ObjectOk(db.store, o);
  }

  /** Pruning segments drops nothing: every block of a selected file is in the common table or in
      one of the segments. */
  lemma PruningIsVacuous(db: Tables, l: Location, suffixes: seq<string>, file: SearchFile)
    requires Inv(db) && file in FilesByPrefix(db, l, suffixes)
    ensures file.segment.None? || file.segment.value in SegmentIds(db, l)
  {
    hide Inv, TreeOf, PathOf, FileAt, SuffixOk, HasSuffix, PrefixSelects, Bodies, WellStored;
    var k :| k in db.entries && IsStored(db, k) && SuffixOk(suffixes, db.entries[k].name) && PrefixSelects(l, k) && file == FileAt(db, k);
    FileIsNode(db, k);
  }

  // ---- candidate_blocks ----

  /** The route `candidate_blocks` takes for the literals it is given. */
  ghost function RouteFor(db: Tables, p: Path, literals: Literals): Route
    requires HasRoot(db.zones)
  {
    var l := Locate(db.zones, p);
    if literals.Some? && |literals.value| == 1 && !HasDescendants(db, p, l) then Pruned(literals.value[0], SegmentIds(db, l))
    else
      var patterns := LiteralPatterns(literals);
      if patterns.Some? && |patterns.value| == 1 then SingleNeedle(patterns.value[0]) else ManyNeedles(patterns)
  }

  /** The files that route looks into. */
  ghost function RouteFiles(db: Tables, p: Path, literals: Literals, suffixes: seq<string>): set<SearchFile>
    requires HasRoot(db.zones)
  {
    if RouteFor(db, p, literals).Pruned? then FilesByPrefix(db, Locate(db.zones, p), suffixes) else FilesByLike(db, p, suffixes)
  }

  /** The LIKE tests tell the stored files rightly, on the routes that use them. */
  ghost predicate RouteTold(db: Tables, p: Path, literals: Literals)
    requires HasRoot(db.zones)
  {
    RouteFor(db, p, literals).Pruned? || FilesTold(db, p)
  }

  /** They do on a target without wildcards. */
  lemma PlainRouteIsTold(db: Tables, p: Path, literals: Literals)
    requires Namespace(db.zones, db.entries, db.nextId) && ValidPath(p) && PlainPath(p)
    ensures HasRoot(db.zones) && RouteTold(db, p, literals)
  {
    hide Namespace, HasRoot, Locate, PathOf, SelectedEntry, ValidPath, PlainPath, IsStored, RouteFor;
    PlainTargetIsTold(db, p);
  }

  lemma RouteFilesAreBelow(db: Tables, p: Path, literals: Literals, suffixes: seq<string>)
    requires Namespace(db.zones, db.entries, db.nextId) && ValidPath(p) && HasRoot(db.zones) && RouteTold(db, p, literals)
    ensures RouteFiles(db, p, literals, suffixes) == TextFiles(db, p, suffixes)
  {
    hide Namespace, ValidPath, FilesTold, Locate, HasRoot, FilesByLike, FilesByPrefix, TextFiles, HasDescendants, LiteralPatterns, SegmentIds;
    if RouteFor(db, p, literals).Pruned? {
      PrefixSelectsFiles(db, p, suffixes);
    } else {
      ToldFiles(db, p, suffixes);
    }
  }

  lemma OnlyLiteral(m: LineMatcher, literals: seq<Bytes>)
    requires |literals| == 1 && Required(m, literals)
    ensures literals == [literals[0]] && Required(m, [literals[0]])
  {
  }

  lemma OnlyPattern(literals: seq<Bytes>)
    requires |literals| == 1
    ensures LiteralPatterns(Some(literals)).value[0] == ContainsPattern(literals[0], BYTES)
  {
    hide ContainsPattern, Like;
  }

  /** Whatever route is taken, it is sound for the files it looks into. */
  lemma RouteIsSound(db: Tables, p: Path, literals: Literals, suffixes: seq<string>, m: LineMatcher, files: seq<SearchFile>)
    requires Inv(db) && HasRoot(db.zones) && (literals.Some? ==> Required(m, literals.value))
    requires forall i :: 0 <= i < |files| ==> files[i] in RouteFiles(db, p, literals, suffixes)
    ensures Sound(RouteFor(db, p, literals), m, files)
  {
    hide Inv, Locate, HasRoot, FilesByLike, FilesByPrefix, HasDescendants, LiteralPatterns, SegmentIds, Required, ContainsPattern;
    var l := Locate(db.zones, p);
    if literals.Some? && |literals.value| == 1 {
      OnlyLiteral(m, literals.value);
      OnlyPattern(literals.value);
    }
    if RouteFor(db, p, literals).Pruned? {
      forall i | 0 <= i < |files| ensures files[i].segment.None? || files[i].segment.value in SegmentIds(db, l) {
        PruningIsVacuous(db, l, suffixes, files[i]);
      }
    }
  }

  /** The required literals of the expression are required of the lines. */
  lemma LiteralsAreRequired(m: LineMatcher, h: Hir, prefixes: Option<seq<Bytes>>, suffixes: Option<seq<Bytes>>)
    requires Searches(m, h)
    requires (prefixes.Some? ==> Covers(h, prefixes.value)) && (suffixes.Some? ==> Covers(h, suffixes.value))
    ensures var literals := RequiredLiterals(h, prefixes, suffixes); literals.Some? ==> Required(m, literals.value)
  {
    hide Matches, RequiredLiterals, Contains;
    RequiredLiteralsAreSound(h, prefixes, suffixes);
    var literals := RequiredLiterals(h, prefixes, suffixes);
    if literals.Some? {
      forall line: Bytes | m(line) ensures exists i :: 0 <= i < |literals.value| && Contains(line, literals.value[i]) {
        var i, j :| 0 <= i <= j <= |line| && Matches(h, line[i..j]);
        assert ContainsAny(line[i..j], literals.value);
        var n :| 0 <= n < |literals.value| && Contains(line[i..j], literals.value[n]);
        ContainsInMiddle(line[..i], line[i..j], line[j..], literals.value[n]);
        assert line[..i] + line[i..j] + line[j..] == line;
      }
    }
  }

  lemma FilesAreStored(db: Tables, p: Path, suffixes: seq<string>, file: SearchFile)
    requires Inv(db) && file in TextFiles(db, p, suffixes)
    ensures WellStored(file)
    ensures exists q :: q in TreeOf(db) && p <= q && TreeOf(db)[q].kind == File && file.path == Render(q) && Bodies(file.blocks) == TreeOf(db)[q].bytes
  {
    hide Inv, TreeOf, PathOf, FileAt, SuffixOk, HasSuffix, Bodies, WellStored, Render;
    var k :| k in db.entries && IsStored(db, k) && HasSuffix(suffixes, db.entries[k].name) && p <= PathOf(db.zones, k) && file == FileAt(db, k);
    FileIsNode(db, k);
  }

  /** Grep through the candidate rows is plain grep over the stored text files at and below the
      target, whichever of the three shapes the rows have. */
  lemma AcceleratedGrepIsPlainGrep(db: Tables, p: Path, fileSuffixes: seq<string>, h: Hir, prefixes: Option<seq<Bytes>>,
                                   suffixes: Option<seq<Bytes>>, m: LineMatcher, lineNumbers: bool, pathPrefix: Bytes,
                                   files: seq<SearchFile>, rows: seq<HitRow>)
    requires Inv(db) && ValidPath(p) && HasRoot(db.zones) && Searches(m, h)
    requires RouteTold(db, p, RequiredLiterals(h, prefixes, suffixes))
    requires (prefixes.Some? ==> Covers(h, prefixes.value)) && (suffixes.Some? ==> Covers(h, suffixes.value))
    requires FilesOrdered(files, TextFiles(db, p, fileSuffixes))
    requires var literals := RequiredLiterals(h, prefixes, suffixes);
             Ordered(rows, CandidateSet(RouteFor(db, p, literals), RouteFiles(db, p, literals, fileSuffixes)))
    ensures RowsOutput(m, lineNumbers, pathPrefix, rows) == PlainGrep(m, lineNumbers, pathPrefix, files)
    ensures FoundInRows(m, rows) <==> PlainFound(m, files)
  {
    hide Inv, ValidPath, RouteTold, HasRoot, Searches, Covers, RequiredLiterals, CandidateSet, RouteFor, RouteFiles, RowsOutput, FoundInRows, PlainGrep, PlainFound,
         TextFiles, WellStored, Sound, Required, Ordered, Before, TreeOf, Bodies;
    InvHasNamespace(db);
    var literals := RequiredLiterals(h, prefixes, suffixes);
    LiteralsAreRequired(m, h, prefixes, suffixes);
    RouteFilesAreBelow(db, p, literals, fileSuffixes);
    forall i | 0 <= i < |files| ensures files[i] in TextFiles(db, p, fileSuffixes) && WellStored(files[i]) {
      assert files[i] in files;
      FilesAreStored(db, p, fileSuffixes, files[i]);
    }
    RouteIsSound(db, p, literals, fileSuffixes, m, files);
    SearchIsGrep(m, lineNumbers, pathPrefix, RouteFor(db, p, literals), files, TextFiles(db, p, fileSuffixes), rows);
  }
}
