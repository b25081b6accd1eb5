/** The search against the tree: over every run the accelerated grep prints what grep prints for the
    text files of the tree. */
module TreeSearch {
  import opened Basics
  import opened Utf8
  import opened Collation
  import opened Paths
  import opened Blocks
  import opened Tables
  import opened Grafting
  import opened Creating
  import opened Queries
  import opened Regex
  import opened Grep
  import opened Search
  import opened Candidates
  import opened Runs
  import opened Settling

  /** A text file at or below `p`, without NUL and in UTF-8, whose name ends in a wanted suffix. */
  ghost predicate TextAt(t: Tree, p: Path, suffixes: seq<string>, q: Path) {
    && q in t && p <= q && t[q].kind == File && ValidUtf8(t[q].bytes) && 0 !in t[q].bytes
    && (suffixes == [] || exists i, stem: string :: 0 <= i < |suffixes| && NodeName(q) == stem + suffixes[i])
  }

  /** All of them in the order of their paths. */
  ghost predicate TextPaths(t: Tree, p: Path, suffixes: seq<string>, paths: seq<Path>) {
    Ascending(paths, ByPath) && forall q :: q in paths <==> TextAt(t, p, suffixes, q)
  }

  /** grep over files of the tree. */
  function GrepTree(m: LineMatcher, lineNumbers: bool, pathPrefix: Bytes, t: Tree, paths: seq<Path>): Bytes {
    if paths == [] then []
    else
      (if paths[0] in t then GrepText(m, RowStyle(lineNumbers, pathPrefix, Render(paths[0])), 1, t[paths[0]].bytes) else [])
      + GrepTree(m, lineNumbers, pathPrefix, t, paths[1..])
  }

  /** What grep prints for one file: its matching lines, each behind the given prefix, the path in
      UTF-8 and a colon. */
  ghost predicate FilePrints(m: LineMatcher, lineNumbers: bool, pathPrefix: Bytes, q: Path, bytes: Bytes, output: Bytes) {
    exists lines, named ::
      && AreLines(lines, bytes) && ValidUtf8(named) && Scalars(named) == CodePoints(Render(q))
      && PrintsLines(m, Style(lineNumbers, pathPrefix + named + [COLON]), 1, lines, output)
  }

  lemma FileIsPrinted(m: LineMatcher, lineNumbers: bool, pathPrefix: Bytes, q: Path, bytes: Bytes)
    ensures FilePrints(m, lineNumbers, pathPrefix, q, bytes, GrepText(m, RowStyle(lineNumbers, pathPrefix, Render(q)), 1, bytes))
  {
    hide GrepText, Found, AreLines, PrintsLines, ValidUtf8, Scalars, CodePoints, EncodeText, Render, Unterminated;
    EncodedTextDecodes(Render(q));
    GrepMeans(m, RowStyle(lineNumbers, pathPrefix, Render(q)), 1, bytes);
  }

  /** What grep prints for files of the tree: what it prints for each of them, in turn. */
  lemma {:induction false} GrepTreePrints(m: LineMatcher, lineNumbers: bool, pathPrefix: Bytes, t: Tree, paths: seq<Path>)
    requires forall i :: 0 <= i < |paths| ==> paths[i] in t
    ensures exists outputs: seq<Bytes> ::
              && |outputs| == |paths| && Flatten(outputs) == GrepTree(m, lineNumbers, pathPrefix, t, paths)
              && forall i :: 0 <= i < |paths| ==> FilePrints(m, lineNumbers, pathPrefix, paths[i], t[paths[i]].bytes, outputs[i])
    decreases |paths|
  {
    hide FilePrints, GrepText, Render, RowStyle;
    if paths == [] {
      var nothing: seq<Bytes> := [];
      assert Flatten(nothing) == [];
    } else {
      GrepTreePrints(m, lineNumbers, pathPrefix, t, paths[1..]);
      var rest: seq<Bytes> :|
        && |rest| == |paths[1..]| && Flatten(rest) == GrepTree(m, lineNumbers, pathPrefix, t, paths[1..])
        && forall i :: 0 <= i < |paths[1..]| ==>
             FilePrints(m, lineNumbers, pathPrefix, paths[1..][i], t[paths[1..][i]].bytes, rest[i]);
      var first := GrepText(m, RowStyle(lineNumbers, pathPrefix, Render(paths[0])), 1, t[paths[0]].bytes);
      FileIsPrinted(m, lineNumbers, pathPrefix, paths[0], t[paths[0]].bytes);
      var outputs := [first] + rest;
      assert outputs[1..] == rest;
      forall i | 1 <= i < |paths| ensures outputs[i] == rest[i - 1] && paths[i] == paths[1..][i - 1] {}
    }
  }

  predicate FoundInTree(m: LineMatcher, t: Tree, paths: seq<Path>) {
    exists i :: 0 <= i < |paths| && paths[i] in t && Found(m, t[paths[i]].bytes)
  }

  /** The stored file behind a path. */
  ghost function FileOf(db: Tables, q: Path): SearchFile
    requires HasRoot(db.zones)
  {
    var l := Locate(db.zones, q);
    var k := Key(l.zone, l.rel);
    if k in db.entries then FileAt(db, k) else SearchFile("", [], None)
  }

  predicate FileHolds(t: Tree, q: Path, file: SearchFile) {
    q in t && file.path == Render(q) && Bodies(file.blocks) == t[q].bytes
  }

  /** In a settled volume a text of the tree is stored. */
  lemma TextIsStored(db: Tables, p: Path, suffixes: seq<string>, q: Path)
    requires Inv(db) && Settled(db) && HasRoot(db.zones) && TextAt(TreeOf(db), p, suffixes, q)
    ensures FileOf(db, q) in TextFiles(db, p, suffixes) && FileHolds(TreeOf(db), q, FileOf(db, q))
  {
    hide Namespace, TreeOf, Locate, HasRoot, PathOf, FileAt, ValidUtf8, Bodies, WellStored, Denote, StoreOk, Payloads, Render;
    InvHasNamespace(db);
    LookupFinds(db, q);
    var l := Locate(db.zones, q);
    var k := Key(l.zone, l.rel);
    assert l.rel != [] && k in db.entries;
    assert PathOf(db.zones, k) == q by { PathOfKey(db.zones, l.zone, l.rel); }
    assert SettledRow(db.store, db.entries[k].payload);
    assert IsStored(db, k);
    EntryLabel(db, k);
    FileIsNode(db, k);
  }

  lemma PathOfKey(zones: Zones, z: ZoneId, rel: Path)
    requires z in zones
    ensures PathOf(zones, Key(z, rel)) == zones[z].path + rel
  {
  }

  /** And nothing else is. */
  lemma StoredIsText(db: Tables, p: Path, suffixes: seq<string>, file: SearchFile)
    requires Inv(db) && Settled(db) && HasRoot(db.zones) && file in TextFiles(db, p, suffixes)
    ensures exists q :: TextAt(TreeOf(db), p, suffixes, q) && FileOf(db, q) == file
  {
    hide Namespace, TreeOf, HasRoot, PathOf, FileAt, ValidUtf8, Bodies, WellStored, Denote, StoreOk, Payloads, Render, IsDeepest, Locate;
    InvHasNamespace(db);
    var k :| k in db.entries && IsStored(db, k) && HasSuffix(suffixes, db.entries[k].name) && p <= PathOf(db.zones, k) && file == FileAt(db, k);
    var q := PathOf(db.zones, k);
    EntryInTree(db, k);
    EntryLabel(db, k);
    assert SettledRow(db.store, db.entries[k].payload);
    KeyLocated(db, k);
    assert TextAt(TreeOf(db), p, suffixes, q) && FileOf(db, q) == file;
  }

  lemma KeyLocated(db: Tables, k: Key)
    requires Namespace(db.zones, db.entries, db.nextId) && k in db.entries && HasRoot(db.zones)
    ensures Locate(db.zones, PathOf(db.zones, k)) == Location(k.zone, k.rel)
  {
    hide HasRoot, EntryParents, ZoneParents, IdsUnique, ValidPath;
    DeepestOfEntry(db.zones, db.entries, k);
    LocateIsCanonical(db.zones, PathOf(db.zones, k), k.zone, k.rel);
  }

  ghost function FilesOf(db: Tables, paths: seq<Path>): seq<SearchFile>
    requires HasRoot(db.zones)
  {
    seq(|paths|, i requires 0 <= i < |paths| => FileOf(db, paths[i]))
  }

  /** The stored files of the ordered texts are the files of the search in its order. */
  lemma TextsAreFiles(db: Tables, p: Path, suffixes: seq<string>, paths: seq<Path>)
    requires Inv(db) && Settled(db) && HasRoot(db.zones) && TextPaths(TreeOf(db), p, suffixes, paths)
    ensures FilesOrdered(FilesOf(db, paths), TextFiles(db, p, suffixes))
    ensures forall i :: 0 <= i < |paths| ==> FileHolds(TreeOf(db), paths[i], FilesOf(db, paths)[i])
  {
    hide Inv, Settled, TreeOf, HasRoot, FileOf, TextFiles, TextAt, Before, Bodies, Render;
    var files := FilesOf(db, paths);
    forall i | 0 <= i < |paths| ensures files[i] in TextFiles(db, p, suffixes) && FileHolds(TreeOf(db), paths[i], files[i]) {
      assert paths[i] in paths;
      TextIsStored(db, p, suffixes, paths[i]);
    }
    forall i, j | 0 <= i < j < |files| ensures Before(files[i].path, files[j].path) {
      assert FileHolds(TreeOf(db), paths[i], files[i]) && FileHolds(TreeOf(db), paths[j], files[j]);
      assert Before(ByPath(paths[i]), ByPath(paths[j]));
    }
    forall file | file in TextFiles(db, p, suffixes) ensures file in files {
      StoredIsText(db, p, suffixes, file);
      var q :| TextAt(TreeOf(db), p, suffixes, q) && FileOf(db, q) == file;
      var i :| 0 <= i < |paths| && paths[i] == q;
      assert files[i] == file;
    }
  }

  lemma {:induction false} PlainIsTree(m: LineMatcher, lineNumbers: bool, pathPrefix: Bytes, t: Tree, paths: seq<Path>, files: seq<SearchFile>)
    requires |files| == |paths| && forall i :: 0 <= i < |paths| ==> FileHolds(t, paths[i], files[i])
    ensures PlainGrep(m, lineNumbers, pathPrefix, files) == GrepTree(m, lineNumbers, pathPrefix, t, paths)
    ensures PlainFound(m, files) <==> FoundInTree(m, t, paths)
    decreases |paths|
  {
    hide GrepText, Found, Bodies, Render, RowStyle;
    if paths != [] {
      forall i | 0 <= i < |paths| - 1 ensures FileHolds(t, paths[1..][i], files[1..][i]) {
        assert FileHolds(t, paths[i + 1], files[i + 1]);
      }
      PlainIsTree(m, lineNumbers, pathPrefix, t, paths[1..], files[1..]);
      assert FileHolds(t, paths[0], files[0]);
    }
    forall i | 0 <= i < |paths| ensures Found(m, Bodies(files[i].blocks)) <==> paths[i] in t && Found(m, t[paths[i]].bytes) {
      assert FileHolds(t, paths[i], files[i]);
    }
  }

  /** In a settled volume accelerated grep is grep over all text files of the tree at and below the
      target. */
  lemma SearchIsTreeGrep(db: Tables, p: Path, fileSuffixes: seq<string>, h: Hir, prefixes: Option<seq<Bytes>>,
                         suffixes: Option<seq<Bytes>>, m: LineMatcher, lineNumbers: bool, pathPrefix: Bytes,
                         paths: seq<Path>, rows: seq<HitRow>)
    requires Inv(db) && Settled(db) && ValidPath(p) && HasRoot(db.zones) && Searches(m, h)
    requires RouteTold(db, p, RequiredLiterals(h, prefixes, suffixes))
    requires (prefixes.Some? ==> Covers(h, prefixes.value)) && (suffixes.Some? ==> Covers(h, suffixes.value))
    requires TextPaths(TreeOf(db), p, fileSuffixes, paths)
    requires var literals := RequiredLiterals(h, prefixes, suffixes);
             Ordered(rows, CandidateSet(RouteFor(db, p, literals), RouteFiles(db, p, literals, fileSuffixes)))
    ensures RowsOutput(m, lineNumbers, pathPrefix, rows) == GrepTree(m, lineNumbers, pathPrefix, TreeOf(db), paths)
    ensures FoundInRows(m, rows) <==> FoundInTree(m, TreeOf(db), paths)
  {
    hide Inv, Settled, ValidPath, RouteTold, HasRoot, Searches, Covers, RequiredLiterals, CandidateSet, RouteFor, RouteFiles, RowsOutput, FoundInRows, PlainGrep, PlainFound,
         TextFiles, TreeOf, Ordered, FilesOrdered, TextPaths, GrepTree, FoundInTree, FileHolds, FileOf;
    TextsAreFiles(db, p, fileSuffixes, paths);
    var files := FilesOf(db, paths);
    AcceleratedGrepIsPlainGrep(db, p, fileSuffixes, h, prefixes, suffixes, m, lineNumbers, pathPrefix, files, rows);
    PlainIsTree(m, lineNumbers, pathPrefix, TreeOf(db), paths, files);
  }

  lemma NewVolumeIsSettled()
    ensures Settled(NEW_VOLUME)
  {
  }

  /** Over every run of a volume, from its creation on, a search through the candidate rows prints
      exactly what grep prints for the text files of the tree the run has made. */
  lemma SearchAfterRunIsTreeGrep(ops: seq<Op>, p: Path, fileSuffixes: seq<string>, h: Hir, prefixes: Option<seq<Bytes>>,
                                 suffixes: Option<seq<Bytes>>, m: LineMatcher, lineNumbers: bool, pathPrefix: Bytes,
                                 paths: seq<Path>, rows: seq<HitRow>)
    requires AllSupported(NEW_VOLUME, ops) && forall i :: 0 <= i < |ops| ==> OrderOk(ops[i])
    requires ValidPath(p) && Searches(m, h)
    requires (prefixes.Some? ==> Covers(h, prefixes.value)) && (suffixes.Some? ==> Covers(h, suffixes.value))
    requires var db, literals := States(NEW_VOLUME, ops)[|ops|], RequiredLiterals(h, prefixes, suffixes);
             && HasRoot(db.zones) && RouteTold(db, p, literals) && TextPaths(TreeOf(db), p, fileSuffixes, paths)
             && Ordered(rows, CandidateSet(RouteFor(db, p, literals), RouteFiles(db, p, literals, fileSuffixes)))
    ensures var t := TreeOf(States(NEW_VOLUME, ops)[|ops|]);
            && RowsOutput(m, lineNumbers, pathPrefix, rows) == GrepTree(m, lineNumbers, pathPrefix, t, paths)
            && (FoundInRows(m, rows) <==> FoundInTree(m, t, paths))
  {
    hide Inv, Settled, ValidPath, RouteTold, HasRoot, Searches, Covers, RequiredLiterals, CandidateSet, RouteFor, RouteFiles, RowsOutput, FoundInRows,
         TreeOf, Ordered, TextPaths, GrepTree, FoundInTree, States, AllSupported, OrderOk;
    NewVolumeIsValid();
    NewVolumeIsSettled();
    RunSettles(NEW_VOLUME, ops);
    SearchIsTreeGrep(States(NEW_VOLUME, ops)[|ops|], p, fileSuffixes, h, prefixes, suffixes, m, lineNumbers, pathPrefix, paths, rows);
  }
}
