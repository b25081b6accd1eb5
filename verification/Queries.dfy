/** Directory listings, recursive searches by name, and disk usage, as the tree sees them. */
module Queries {
  import opened Basics
  import opened Collation
  import opened Patterns
  import opened Paths
  import opened Tables
  import opened Trees
  import opened Surgery
  import opened Grafting
  import opened Content
  import opened Commands
  import opened Addresses
  import opened Creating
  import opened Removing
  import opened Counters
  import opened Usage

  // ---- list ----

  datatype Listing = Listing(id: NodeId, path: Path, name: Name, kind: Kind)

  /** The two SELECTs of `list`: entries with this parent, and zones with this parent. */
  function ListedEntries(db: Tables, l: Location): set<Listing> {
    set k | k in db.entries && k.zone == l.zone && db.entries[k].parentPath == l.rel ::
      Listing(db.entries[k].id, PathOf(db.zones, k), db.entries[k].name, db.entries[k].payload.kind)
  }

  function ListedZones(db: Tables, l: Location): set<Listing> {
    set z | z in db.zones && db.zones[z].parentZone == Some(l.zone) && db.zones[z].parentPath == Some(l.rel) ::
      Listing(z, db.zones[z].path, db.zones[z].name, Dir)
  }

  ghost function List(db: Tables, p: Path): Result<set<Listing>, Error>
    requires HasRoot(db.zones)
  {
    var l := Locate(db.zones, p);
    if l.rel != [] && !IsDirectory(db.entries, Key(l.zone, l.rel)) then Failure(NotADirectory)
    else Success(ListedEntries(db, l) + ListedZones(db, l))
  }

  /** The nodes of the tree whose parent is `p`. */
  ghost function Children(t: Tree, p: Path): set<Listing> {
    set q | q in t && q != [] && DropLast(q) == p :: Listing(t[q].id, q, Last(q), t[q].kind)
  }

  function NodeListing(q: Path, n: Node): Listing
    requires q != []
  {
    Listing(n.id, q, Last(q), n.kind)
  }

  lemma ListedEntryIsChild(db: Tables, p: Path, k: Key)
    requires Namespace(db.zones, db.entries, db.nextId) && HasRoot(db.zones) && k in db.entries
    ensures var l, q := Locate(db.zones, p), PathOf(db.zones, k);
            && q in TreeOf(db) && q != []
            && (k.zone == l.zone && db.entries[k].parentPath == l.rel <==> DropLast(q) == p)
            && Listing(db.entries[k].id, q, db.entries[k].name, db.entries[k].payload.kind) == NodeListing(q, TreeOf(db)[q])
  {
    hide Namespace, TreeOf, Locate, Denote, HasRoot, PathOf;
    ChildEntry(db, p, k);
    EntryInTree(db, k);
    EntryLabel(db, k);
  }

  lemma EntryLabel(db: Tables, k: Key)
    requires Namespace(db.zones, db.entries, db.nextId) && k in db.entries
    ensures PathOf(db.zones, k) != [] && Last(PathOf(db.zones, k)) == db.entries[k].name
  {
    hide HasRoot, ZonePathsUnique, Homed, EntryParents, ZoneParents, IdsUnique, ValidPath;
    assert k.rel != [];
  }

  lemma ListedZoneIsChild(db: Tables, p: Path, z: ZoneId)
    requires Namespace(db.zones, db.entries, db.nextId) && HasRoot(db.zones) && z in db.zones
    ensures var l, q := Locate(db.zones, p), db.zones[z].path;
            && q in TreeOf(db)
            && (db.zones[z].parentZone == Some(l.zone) && db.zones[z].parentPath == Some(l.rel) <==> q != [] && DropLast(q) == p)
            && (q != [] ==> Listing(z, q, db.zones[z].name, Dir) == NodeListing(q, TreeOf(db)[q]))
  {
    hide Namespace, TreeOf, Locate, HasRoot;
    ChildZone(db, p, z);
    NamespaceParts(db);
    ZoneInTree(db, z);
    assert ZoneParent(db.zones, db.entries, db.zones[z]);
  }

  lemma ListedAreChildren(db: Tables, p: Path, row: Listing)
    requires Namespace(db.zones, db.entries, db.nextId) && HasRoot(db.zones)
    requires var l := Locate(db.zones, p); row in ListedEntries(db, l) + ListedZones(db, l)
    ensures row in Children(TreeOf(db), p)
  {
    hide Namespace, TreeOf, Locate, HasRoot, PathOf;
    var l := Locate(db.zones, p);
    if row in ListedEntries(db, l) {
      var k :| k in db.entries && k.zone == l.zone && db.entries[k].parentPath == l.rel
               && row == Listing(db.entries[k].id, PathOf(db.zones, k), db.entries[k].name, db.entries[k].payload.kind);
      ListedEntryIsChild(db, p, k);
    } else {
      var z :| z in db.zones && db.zones[z].parentZone == Some(l.zone) && db.zones[z].parentPath == Some(l.rel)
               && row == Listing(z, db.zones[z].path, db.zones[z].name, Dir);
      ListedZoneIsChild(db, p, z);
    }
  }

  lemma ChildIsRow(db: Tables, p: Path, q: Path)
    requires Namespace(db.zones, db.entries, db.nextId) && HasRoot(db.zones)
    requires q in TreeOf(db) && q != [] && DropLast(q) == p
    ensures var l := Locate(db.zones, p); NodeListing(q, TreeOf(db)[q]) in ListedEntries(db, l) + ListedZones(db, l)
  {
    hide Namespace, TreeOf, Locate, HasRoot, PathOf;
    PathIsRow(db, q);
    if z :| z in db.zones && db.zones[z].path == q {
      ListedZoneIsChild(db, p, z);
    } else {
      var k :| k in db.entries && PathOf(db.zones, k) == q;
      ListedEntryIsChild(db, p, k);
    }
  }

  /** A listing is refused exactly for what is no directory, and otherwise has exactly the nodes
      whose parent it is. */
  lemma ListMeansChildren(db: Tables, p: Path)
    requires Namespace(db.zones, db.entries, db.nextId)
    ensures HasRoot(db.zones)
    ensures TreeKind(TreeOf(db), p) != Some(Dir) ==> List(db, p) == Failure(NotADirectory)
    ensures TreeKind(TreeOf(db), p) == Some(Dir) ==> List(db, p) == Success(Children(TreeOf(db), p))
  {
    hide Namespace, TreeOf, Locate, HasRoot, ListedEntries, ListedZones, Children, Denote;
    NamespaceParts(db);
    LookupFinds(db, p);
    var l := Locate(db.zones, p);
    forall row ensures row in ListedEntries(db, l) + ListedZones(db, l) <==> row in Children(TreeOf(db), p) {
      if row in ListedEntries(db, l) + ListedZones(db, l) { ListedAreChildren(db, p, row); }
      if row in Children(TreeOf(db), p) {
        var q := ChildWitness(TreeOf(db), p, row);
        ChildIsRow(db, p, q);
      }
    }
    assert ListedEntries(db, l) + ListedZones(db, l) == Children(TreeOf(db), p);
  }

  lemma ChildWitness(t: Tree, p: Path, row: Listing) returns (q: Path)
    requires row in Children(t, p)
    ensures q in t && q != [] && DropLast(q) == p && row == NodeListing(q, t[q])
  {
    q :| q in t && q != [] && DropLast(q) == p && row == Listing(t[q].id, q, Last(q), t[q].kind);
  }

  // ---- Ordering ----

  /** No two rows are sorted under the same text. */
  ghost predicate KeysUnique<T(!new)>(rows: set<T>, key: T -> string) {
    forall a, b :: a in rows && b in rows && key(a) == key(b) ==> a == b
  }

  ghost predicate Ascending<T>(rows: seq<T>, key: T -> string) {
    forall i, j :: 0 <= i < j < |rows| ==> Before(key(rows[i]), key(rows[j]))
  }

  /** The place of a text in an ascending list. */
  method PlaceOf<T>(rows: seq<T>, key: T -> string, text: string) returns (i: nat)
    requires Ascending(rows, key) && forall j :: 0 <= j < |rows| ==> key(rows[j]) != text
    ensures i <= |rows|
    ensures forall j :: 0 <= j < i ==> Before(key(rows[j]), text)
    ensures forall j :: i <= j < |rows| ==> Before(text, key(rows[j]))
  {
    hide Before, TextLess;
    i := 0;
    while i < |rows| && TextLess(key(rows[i]), text)
      invariant i <= |rows|
      invariant forall j :: 0 <= j < i ==> Before(key(rows[j]), text)
    {
      TextLessIsBefore(key(rows[i]), text);
      i := i + 1;
    }
    if i < |rows| {
      TextLessIsBefore(key(rows[i]), text);
      BeforeIsOrder(key(rows[i]), text);
      forall j | i < j < |rows| ensures Before(text, key(rows[j])) {
        BeforeTransitive(text, key(rows[i]), key(rows[j]));
      }
    }
  }

  /** `ORDER BY ... COLLATE "C"`: every row once, its texts strictly ascending. */
  method OrderBy<T(==, !new)>(rows: set<T>, key: T -> string) returns (sorted: seq<T>)
    requires KeysUnique(rows, key)
    ensures Ascending(sorted, key) && forall row :: row in sorted <==> row in rows
  {
    hide Before;
    sorted := [];
    var todo := rows;
    while todo != {}
      invariant todo <= rows && Ascending(sorted, key)
      invariant forall row :: row in sorted <==> row in rows - todo
      decreases todo
    {
      var row :| row in todo;
      assert forall j :: 0 <= j < |sorted| ==> sorted[j] in sorted;
      var i := PlaceOf(sorted, key, key(row));
      InsertAscending(sorted, key, i, row);
      sorted := sorted[..i] + [row] + sorted[i..];
      todo := todo - {row};
    }
  }

  lemma InsertAscending<T>(rows: seq<T>, key: T -> string, i: nat, row: T)
    requires Ascending(rows, key) && i <= |rows|
    requires forall j :: 0 <= j < i ==> Before(key(rows[j]), key(row))
    requires forall j :: i <= j < |rows| ==> Before(key(row), key(rows[j]))
    ensures Ascending(rows[..i] + [row] + rows[i..], key)
    ensures forall x :: x in rows[..i] + [row] + rows[i..] <==> x == row || x in rows
  {
    hide Before;
    assert rows == rows[..i] + rows[i..];
  }

  function ByName(row: Listing): string { row.name }

  function ByPath(q: Path): string { Render(q) }

  /** No two rows of a listing have the same name. */
  lemma ChildNamesUnique(t: Tree, p: Path)
    ensures KeysUnique(Children(t, p), ByName)
  {
    forall a, b | a in Children(t, p) && b in Children(t, p) && ByName(a) == ByName(b) ensures a == b {
      assert DropLast(a.path) + [a.name] == a.path && DropLast(b.path) + [b.name] == b.path;
    }
  }

  // ---- The rows below a target ----

  /** The LIKE tests on zone paths tell exactly the zones at or below the target. */
  ghost predicate ZonesTold(db: Tables, p: Path) {
    forall z :: z in db.zones ==> (p == [] || AtOrUnder(p, db.zones[z].path) <==> p <= db.zones[z].path)
  }

  /** The entries the recursive queries look at. */
  predicate SelectedEntry(db: Tables, p: Path, l: Location, k: Key) {
    && SelectedZone(db.zones, p, l, k.zone)
    && (RelativeRoot(l, k.zone) == [] || k.rel == RelativeRoot(l, k.zone) || UnderRel(RelativeRoot(l, k.zone), k.rel))
  }

  /** The LIKE tests on zone paths and relative paths together tell exactly the entries at or below the
      target. */
  ghost predicate EntriesTold(db: Tables, p: Path) {
    HasRoot(db.zones) && forall k :: k in db.entries ==> (SelectedEntry(db, p, Locate(db.zones, p), k) <==> p <= PathOf(db.zones, k))
  }

  lemma SelectedZoneBelow(db: Tables, p: Path, z: ZoneId)
    requires Namespace(db.zones, db.entries, db.nextId) && ValidPath(p) && PlainPath(p) && z in db.zones
    ensures p == [] || AtOrUnder(p, db.zones[z].path) <==> p <= db.zones[z].path
  {
    hide HasRoot, Homed, EntryParents, ZoneParents, Labelled, IdsUnique, ZonePathsUnique, AtOrUnder, PlainPath, ValidPath;
    ZoneNameValid(db, z);
    if p != [] { TextTestsMeanPrefix(p, db.zones[z].path); }
  }

  lemma SelectedEntryBelow(db: Tables, p: Path, k: Key)
    requires Namespace(db.zones, db.entries, db.nextId) && ValidPath(p) && PlainPath(p) && k in db.entries
    ensures HasRoot(db.zones)
    ensures SelectedEntry(db, p, Locate(db.zones, p), k) <==> p <= PathOf(db.zones, k)
  {
    hide Namespace, TreeOf, UnderRel, PlainPath, ValidPath, Locate, HasRoot, NodeOf, PathOf, AtOrUnder, IsDeepest;
    NamespaceParts(db);
    LocatedFacts(db, p);
    EntryFacts(db, k);
    var l := Locate(db.zones, p);
    SelectedZoneBelow(db, p, k.zone);
    RowsBelow(db, p, l, k);
    LocatedIsAbove(db, p, l);
    if l.rel != [] { TextTestsMeanPrefix(l.rel, k.rel); }
  }

  /** The tests tell rightly on a target without wildcards, in every volume. */
  lemma PlainTargetIsTold(db: Tables, p: Path)
    requires Namespace(db.zones, db.entries, db.nextId) && ValidPath(p) && PlainPath(p)
    ensures ZonesTold(db, p) && EntriesTold(db, p)
  {
    hide Namespace, HasRoot, Locate, PathOf, AtOrUnder, ValidPath, PlainPath, SelectedEntry;
    NamespaceParts(db);
    forall z | z in db.zones ensures p == [] || AtOrUnder(p, db.zones[z].path) <==> p <= db.zones[z].path {
      SelectedZoneBelow(db, p, z);
    }
    forall k | k in db.entries ensures SelectedEntry(db, p, Locate(db.zones, p), k) <==> p <= PathOf(db.zones, k) {
      SelectedEntryBelow(db, p, k);
    }
  }

  lemma LocatedIsAbove(db: Tables, p: Path, l: Location)
    requires IsDeepest(db.zones, p, l.zone) && db.zones[l.zone].path + l.rel == p
    ensures l.zone in db.zones && (p <= db.zones[l.zone].path <==> l.rel == [])
    ensures l.rel == [] ==> db.zones[l.zone].path == p
  {
  }

  // ---- find ----

  predicate KindMatches(filter: Option<Kind>, kind: Kind) { filter.None? || filter.value == kind }

  /** `name LIKE` the translated pattern. */
  predicate NameMatches(pattern: Option<string>, name: Name) { pattern.None? || Like(name, GlobToLike(pattern.value), TEXT) }

  predicate ZoneFound(db: Tables, p: Path, pattern: Option<string>, filter: Option<Kind>, z: ZoneId)
    requires z in db.zones
  {
    (p == [] || AtOrUnder(p, db.zones[z].path)) && KindMatches(filter, Dir) && NameMatches(pattern, db.zones[z].name)
  }

  predicate EntryFound(db: Tables, p: Path, l: Location, pattern: Option<string>, filter: Option<Kind>, k: Key)
    requires k in db.entries
  {
    && SelectedEntry(db, p, l, k)
    && KindMatches(filter, db.entries[k].payload.kind) && NameMatches(pattern, db.entries[k].name)
  }

  ghost function FindPaths(db: Tables, p: Path, pattern: Option<string>, filter: Option<Kind>): set<Path>
    requires HasRoot(db.zones)
  {
    FoundFrom(db, p, Locate(db.zones, p), pattern, filter)
  }

  function FoundFrom(db: Tables, p: Path, l: Location, pattern: Option<string>, filter: Option<Kind>): set<Path> {
    (set z | z in db.zones && ZoneFound(db, p, pattern, filter, z) :: db.zones[z].path)
    + (set k | k in db.entries && EntryFound(db, p, l, pattern, filter, k) :: PathOf(db.zones, k))
  }

  function NodeName(q: Path): Name { if q == [] then "" else Last(q) }

  /** The nodes of a subtree with the given kind whose name the glob accepts. */
  ghost predicate IsFound(t: Tree, p: Path, pattern: Option<string>, filter: Option<Kind>, q: Path) {
    && q in t && p <= q && (filter.Some? ==> t[q].kind == filter.value)
    && (pattern.None? || Glob(NodeName(q), pattern.value))
  }

  lemma NameMatchesMeansGlob(pattern: Option<string>, name: Name)
    ensures NameMatches(pattern, name) <==> pattern.None? || Glob(name, pattern.value)
  {
    hide Like, Glob, GlobToLike;
    if pattern.Some? { GlobTranslationPreservesMeaning(name, pattern.value); }
  }

  lemma FoundEntry(db: Tables, p: Path, pattern: Option<string>, filter: Option<Kind>, k: Key)
    requires Namespace(db.zones, db.entries, db.nextId) && EntriesTold(db, p) && k in db.entries
    ensures EntryFound(db, p, Locate(db.zones, p), pattern, filter, k) <==> IsFound(TreeOf(db), p, pattern, filter, PathOf(db.zones, k))
  {
    hide Namespace, TreeOf, Locate, HasRoot, PathOf, SelectedEntry, NameMatches, Glob, Denote;
    EntryInTree(db, k);
    EntryLabel(db, k);
    NameMatchesMeansGlob(pattern, db.entries[k].name);
  }

  lemma ZoneLabel(db: Tables, z: ZoneId)
    requires Namespace(db.zones, db.entries, db.nextId) && z in db.zones
    ensures db.zones[z].name == NodeName(db.zones[z].path)
  {
    hide HasRoot, ZonePathsUnique, NamesValid, Homed, EntryParents, Labelled, IdsUnique, IsDirAddress;
    assert ZoneParent(db.zones, db.entries, db.zones[z]);
  }

  lemma FoundZone(db: Tables, p: Path, pattern: Option<string>, filter: Option<Kind>, z: ZoneId)
    requires Namespace(db.zones, db.entries, db.nextId) && ZonesTold(db, p) && z in db.zones
    ensures ZoneFound(db, p, pattern, filter, z) <==> IsFound(TreeOf(db), p, pattern, filter, db.zones[z].path)
  {
    hide Namespace, TreeOf, AtOrUnder, NameMatches, Glob, NodeName;
    NamespaceParts(db);
    ZoneInTree(db, z);
    ZoneLabel(db, z);
    NameMatchesMeansGlob(pattern, db.zones[z].name);
  }

  lemma FoundIsNode(db: Tables, p: Path, pattern: Option<string>, filter: Option<Kind>, q: Path)
    requires Namespace(db.zones, db.entries, db.nextId) && ZonesTold(db, p) && EntriesTold(db, p)
    ensures q in FindPaths(db, p, pattern, filter) ==> IsFound(TreeOf(db), p, pattern, filter, q)
  {
    hide Namespace, TreeOf, Locate, HasRoot, PathOf, ZoneFound, EntryFound, ZonesTold, EntriesTold, IsFound;
    NamespaceParts(db);
    var l := Locate(db.zones, p);
    if q in FindPaths(db, p, pattern, filter) {
      if z :| z in db.zones && db.zones[z].path == q && ZoneFound(db, p, pattern, filter, z) {
        FoundZone(db, p, pattern, filter, z);
      } else {
        var k :| k in db.entries && EntryFound(db, p, l, pattern, filter, k) && PathOf(db.zones, k) == q;
        FoundEntry(db, p, pattern, filter, k);
      }
    }
  }

  lemma NodeIsFound(db: Tables, p: Path, pattern: Option<string>, filter: Option<Kind>, q: Path)
    requires Namespace(db.zones, db.entries, db.nextId) && ZonesTold(db, p) && EntriesTold(db, p)
    requires IsFound(TreeOf(db), p, pattern, filter, q)
    ensures q in FindPaths(db, p, pattern, filter)
  {
    hide Namespace, TreeOf, Locate, HasRoot, PathOf, ZoneFound, EntryFound, ZonesTold, EntriesTold, IsFound;
    NamespaceParts(db);
    FoundIsThere(TreeOf(db), p, pattern, filter, q);
    PathIsRow(db, q);
    if z :| z in db.zones && db.zones[z].path == q {
      FoundZone(db, p, pattern, filter, z);
    } else {
      var k :| k in db.entries && PathOf(db.zones, k) == q;
      FoundEntry(db, p, pattern, filter, k);
    }
  }

  lemma FoundIsThere(t: Tree, p: Path, pattern: Option<string>, filter: Option<Kind>, q: Path)
    requires IsFound(t, p, pattern, filter, q)
    ensures q in t
  {
  }

  /** `find` returns exactly the nodes of the subtree with the given kind whose name the glob
      accepts, and nothing for a missing target. */
  lemma FindMeansGlob(db: Tables, p: Path, pattern: Option<string>, filter: Option<Kind>)
    requires Namespace(db.zones, db.entries, db.nextId) && ZonesTold(db, p) && EntriesTold(db, p)
    ensures forall q :: q in FindPaths(db, p, pattern, filter) <==> IsFound(TreeOf(db), p, pattern, filter, q)
  {
    assert HasRoot(db.zones);
    hide *;
    forall q ensures q in FindPaths(db, p, pattern, filter) <==> IsFound(TreeOf(db), p, pattern, filter, q) {
      FoundIsNode(db, p, pattern, filter, q);
      if IsFound(TreeOf(db), p, pattern, filter, q) { NodeIsFound(db, p, pattern, filter, q); }
    }
  }

  /** No path is found twice under another text. */
  lemma FoundPathsUnique(db: Tables, p: Path, pattern: Option<string>, filter: Option<Kind>)
    requires Namespace(db.zones, db.entries, db.nextId) && ZonesTold(db, p) && EntriesTold(db, p)
    ensures KeysUnique(FindPaths(db, p, pattern, filter), ByPath)
  {
    assert HasRoot(db.zones);
    hide Namespace, TreeOf, FindPaths, HasRoot, ValidPath, ZonesTold, EntriesTold, Render;
    RowsMakeTree(db);
    FindMeansGlob(db, p, pattern, filter);
    forall a, b | a in FindPaths(db, p, pattern, filter) && b in FindPaths(db, p, pattern, filter) && ByPath(a) == ByPath(b) ensures a == b {
      FoundIsThere(TreeOf(db), p, pattern, filter, a);
      FoundIsThere(TreeOf(db), p, pattern, filter, b);
      RenderInjective(a, b);
    }
  }

  ghost predicate FindsTree(db: Tables, p: Path, pattern: Option<string>, filter: Option<Kind>)
    requires HasRoot(db.zones)
  {
    forall q :: q in FindPaths(db, p, pattern, filter) <==> IsFound(TreeOf(db), p, pattern, filter, q)
  }

  lemma EverythingFound(t: Tree, p: Path, q: Path)
    ensures IsFound(t, p, None, None, q) <==> q in t && p <= q
  {
  }

  lemma FoundRow(db: Tables, p: Path, q: Path)
    requires HasRoot(db.zones)
    ensures q in FindPaths(db, p, None, None) <==>
            || (exists z :: z in db.zones && db.zones[z].path == q && (p == [] || AtOrUnder(p, q)))
            || (exists k :: k in db.entries && PathOf(db.zones, k) == q && SelectedEntry(db, p, Locate(db.zones, p), k))
  {
    hide Locate, PathOf, SelectedEntry, AtOrUnder;
  }

  lemma ZoneIsTold(db: Tables, p: Path, z: ZoneId)
    requires Namespace(db.zones, db.entries, db.nextId) && z in db.zones && HasRoot(db.zones) && FindsTree(db, p, None, None)
    ensures p == [] || AtOrUnder(p, db.zones[z].path) <==> p <= db.zones[z].path
  {
    hide Namespace, TreeOf, Locate, PathOf, SelectedEntry, AtOrUnder, FindPaths, HasRoot, Homed, NamesValid, IsFound;
    var q := db.zones[z].path;
    NamespaceParts(db);
    ZoneInTree(db, z);
    EverythingFound(TreeOf(db), p, q);
    FoundRow(db, p, q);
    forall k | k in db.entries ensures PathOf(db.zones, k) != q { EntryIsNotZone(db.zones, db.entries, k, z); }
  }

  lemma EntryIsTold(db: Tables, p: Path, k: Key)
    requires Namespace(db.zones, db.entries, db.nextId) && k in db.entries && HasRoot(db.zones) && FindsTree(db, p, None, None)
    ensures SelectedEntry(db, p, Locate(db.zones, p), k) <==> p <= PathOf(db.zones, k)
  {
    hide Namespace, TreeOf, Locate, PathOf, SelectedEntry, AtOrUnder, FindPaths, HasRoot, Homed, NamesValid, IsFound, NodeOf, ZonePathsUnique;
    var q := PathOf(db.zones, k);
    NamespaceParts(db);
    EntryInTree(db, k);
    EverythingFound(TreeOf(db), p, q);
    FoundRow(db, p, q);
    forall z | z in db.zones ensures db.zones[z].path != q { EntryIsNotZone(db.zones, db.entries, k, z); }
    forall j | j in db.entries && PathOf(db.zones, j) == q ensures j == k { PathsUnique(db.zones, db.entries, j, k); }
  }

  /** `find` is right for every pattern and kind if and only if the tests tell the rows at and below the
      target rightly. */
  lemma FindIsRightIff(db: Tables, p: Path)
    requires Namespace(db.zones, db.entries, db.nextId)
    ensures HasRoot(db.zones)
    ensures (forall pattern, filter :: FindsTree(db, p, pattern, filter)) <==> ZonesTold(db, p) && EntriesTold(db, p)
  {
    hide Namespace, TreeOf, Locate, PathOf, SelectedEntry, AtOrUnder, FindPaths, HasRoot, FindsTree, IsFound;
    NamespaceParts(db);
    if ZonesTold(db, p) && EntriesTold(db, p) {
      forall pattern, filter ensures FindsTree(db, p, pattern, filter) {
        FindMeansGlob(db, p, pattern, filter);
        FindsTreeIntro(db, p, pattern, filter);
      }
    }
    if forall pattern, filter :: FindsTree(db, p, pattern, filter) {
      assert FindsTree(db, p, None, None);
      forall z | z in db.zones ensures p == [] || AtOrUnder(p, db.zones[z].path) <==> p <= db.zones[z].path { ZoneIsTold(db, p, z); }
      forall k | k in db.entries ensures SelectedEntry(db, p, Locate(db.zones, p), k) <==> p <= PathOf(db.zones, k) { EntryIsTold(db, p, k); }
    }
  }

  lemma FindsTreeIntro(db: Tables, p: Path, pattern: Option<string>, filter: Option<Kind>)
    requires HasRoot(db.zones)
    requires forall q :: q in FindPaths(db, p, pattern, filter) <==> IsFound(TreeOf(db), p, pattern, filter, q)
    ensures FindsTree(db, p, pattern, filter)
  {
    hide FindPaths, IsFound, TreeOf;
  }

  // ---- disk usage ----

  function NodeSize(n: Node): nat { if n.kind == File then |n.bytes| else 0 }

  /** The bytes of all regular files of a tree. */
  ghost function TreeBytes(t: Tree): nat
    decreases |t|
  {
    if t == map[] then 0
    else
      var q :| q in t;
      NodeSize(t[q]) + TreeBytes(t - {q})
  }

  function Below(t: Tree, p: Path): Tree { map q | q in t && p <= q :: t[q] }

  lemma {:induction false} TreeWithout(t: Tree, q: Path)
    requires q in t
    ensures TreeBytes(t) == NodeSize(t[q]) + TreeBytes(t - {q})
    decreases |t|
  {
    var r :| r in t && TreeBytes(t) == NodeSize(t[r]) + TreeBytes(t - {r});
    if r != q {
      TreeWithout(t - {r}, q);
      TreeWithout(t - {q}, r);
      assert t - {r} - {q} == t - {q} - {r};
    }
  }

  lemma {:induction false} NoBytes(t: Tree)
    requires forall q :: q in t ==> NodeSize(t[q]) == 0
    ensures TreeBytes(t) == 0
    decreases |t|
  {
    if t != map[] {
      var q :| q in t;
      TreeWithout(t, q);
      NoBytes(t - {q});
    }
  }

  /** Each row is one node, and nodes without a row hold nothing: the sums are equal. */
  ghost predicate RowsOf(t: Tree, zones: Zones, rows: Entries) {
    && (forall k :: k in rows ==> PathOf(zones, k) in t && NodeSize(t[PathOf(zones, k)]) == FileSize(rows[k]))
    && (forall j, k :: j in rows && k in rows && PathOf(zones, j) == PathOf(zones, k) ==> j == k)
    && forall q :: q in t && NodeSize(t[q]) > 0 ==> exists k :: k in rows && PathOf(zones, k) == q
  }

  lemma FewerRows(rows: Entries, k: Key)
    requires k in rows
    ensures |rows - {k}| < |rows| && (rows - {k}).Keys == rows.Keys - {k}
  {
  }

  lemma OneRowLess(t: Tree, zones: Zones, rows: Entries, k: Key)
    requires RowsOf(t, zones, rows) && k in rows
    ensures RowsOf(t - {PathOf(zones, k)}, zones, rows - {k})
    ensures |rows - {k}| < |rows|
  {
    hide PathOf, NodeSize, FileSize;
    FewerRows(rows, k);
    forall q | q in t - {PathOf(zones, k)} && NodeSize(t[q]) > 0 ensures exists j :: j in rows - {k} && PathOf(zones, j) == q {
      var j :| j in rows && PathOf(zones, j) == q;
      assert j in rows - {k};
    }
  }

  lemma {:induction false} RowsSumToTree(t: Tree, zones: Zones, rows: Entries)
    requires RowsOf(t, zones, rows)
    ensures TreeBytes(t) == TotalBytes(rows)
    decreases |rows|
  {
    hide PathOf, NodeSize, FileSize, TreeBytes;
    if rows == map[] {
      NoBytes(t);
    } else {
      var k :| k in rows;
      OneRowLess(t, zones, rows, k);
      RowsSumToTree(t - {PathOf(zones, k)}, zones, rows - {k});
      TotalWithout(rows, k);
      TreeWithout(t, PathOf(zones, k));
    }
  }

  lemma UsageKey(db: Tables, p: Path, k: Key)
    requires Namespace(db.zones, db.entries, db.nextId) && EntriesTold(db, p) && k in db.entries
    ensures var l := Locate(db.zones, p);
            (l.rel != [] && Key(l.zone, l.rel) in db.entries ==> db.entries[Key(l.zone, l.rel)].payload.kind != File) ==>
            (k in UsageKeys(db, p, l) <==> db.entries[k].payload.kind == File && p <= PathOf(db.zones, k))
  {
    hide Namespace, TreeOf, Locate, HasRoot, PathOf, UnderRel, SelectedZone;
  }

  lemma UsageEntry(db: Tables, p: Path, k: Key)
    requires Inv(db) && EntriesTold(db, p) && p in TreeOf(db) && TreeOf(db)[p].kind != File && k in db.entries
    ensures k in UsageKeys(db, p, Locate(db.zones, p)) <==> db.entries[k].payload.kind == File && p <= PathOf(db.zones, k)
    ensures var q := PathOf(db.zones, k); q in TreeOf(db) && NodeSize(TreeOf(db)[q]) == FileSize(db.entries[k])
  {
    hide Namespace, TreeOf, Locate, HasRoot, PathOf, EntriesTold, UsageKeys, StoreOk, Payloads, NodeOf, NodeSize, FileSize;
    NotAFile(db, p);
    UsageKey(db, p, k);
    EntryInTree(db, k);
    EntrySize(db, k);
  }

  lemma RowsOfIntro(t: Tree, zones: Zones, rows: Entries)
    requires forall k :: k in rows ==> PathOf(zones, k) in t && NodeSize(t[PathOf(zones, k)]) == FileSize(rows[k])
    requires forall j, k :: j in rows && k in rows && PathOf(zones, j) == PathOf(zones, k) ==> j == k
    requires forall q :: q in t && NodeSize(t[q]) > 0 ==> exists k :: k in rows && PathOf(zones, k) == q
    ensures RowsOf(t, zones, rows)
  {
    hide PathOf, NodeSize, FileSize;
  }

  lemma BelowAt(t: Tree, p: Path, q: Path)
    ensures q in Below(t, p) <==> q in t && p <= q
    ensures q in Below(t, p) ==> Below(t, p)[q] == t[q]
  {
  }

  lemma RestrictedAt(entries: Entries, keys: set<Key>, k: Key)
    ensures k in Restricted(entries, keys) <==> k in entries && k in keys
    ensures k in Restricted(entries, keys) ==> Restricted(entries, keys)[k] == entries[k]
  {
  }

  /** The file rows the query adds up are the files of the subtree. */
  lemma UsageRows(db: Tables, p: Path)
    requires Inv(db) && EntriesTold(db, p) && p in TreeOf(db) && TreeOf(db)[p].kind != File
    ensures HasRoot(db.zones)
    ensures RowsOf(Below(TreeOf(db), p), db.zones, Restricted(db.entries, UsageKeys(db, p, Locate(db.zones, p))))
  {
    hide *;
    InvHasNamespace(db);
    NamespaceParts(db);
    var keys := UsageKeys(db, p, Locate(db.zones, p));
    var t, rows := Below(TreeOf(db), p), Restricted(db.entries, keys);
    forall k | k in rows ensures PathOf(db.zones, k) in t && NodeSize(t[PathOf(db.zones, k)]) == FileSize(rows[k]) {
      RestrictedAt(db.entries, keys, k);
      UsageEntry(db, p, k);
      BelowAt(TreeOf(db), p, PathOf(db.zones, k));
    }
    forall j, k | j in rows && k in rows && PathOf(db.zones, j) == PathOf(db.zones, k) ensures j == k {
      RestrictedAt(db.entries, keys, j);
      RestrictedAt(db.entries, keys, k);
      PathsUnique(db.zones, db.entries, j, k);
    }
    forall q | q in t && NodeSize(t[q]) > 0 ensures exists k :: k in rows && PathOf(db.zones, k) == q {
      BelowAt(TreeOf(db), p, q);
      SizedIsFile(TreeOf(db)[q]);
      FileHasEntry(db, q);
      var k :| k in db.entries && PathOf(db.zones, k) == q && db.entries[k].payload.kind == File;
      UsageEntry(db, p, k);
      RestrictedAt(db.entries, keys, k);
    }
    RowsOfIntro(t, db.zones, rows);
  }

  lemma SizedIsFile(n: Node)
    requires NodeSize(n) > 0
    ensures n.kind == File
  {
  }

  lemma NotAFile(db: Tables, p: Path)
    requires Namespace(db.zones, db.entries, db.nextId) && p in TreeOf(db) && TreeOf(db)[p].kind != File
    ensures HasRoot(db.zones)
    ensures var l := Locate(db.zones, p);
            l.rel != [] ==> Key(l.zone, l.rel) in db.entries && db.entries[Key(l.zone, l.rel)].payload.kind != File
  {
    hide Namespace, TreeOf, Locate, HasRoot, Denote;
    NamespaceParts(db);
    LookupFinds(db, p);
  }

  lemma EntrySize(db: Tables, k: Key)
    requires StoreOk(db.store) && Payloads(db.entries, db.store) && k in db.entries
    ensures NodeSize(NodeOf(db.store, db.entries[k])) == FileSize(db.entries[k])
  {
    hide StoreOk, Payloads, Denote;
    ContentSize(db, k);
  }

  lemma FileHasEntry(db: Tables, q: Path)
    requires Namespace(db.zones, db.entries, db.nextId) && q in TreeOf(db) && TreeOf(db)[q].kind == File
    ensures exists k :: k in db.entries && PathOf(db.zones, k) == q && db.entries[k].payload.kind == File
  {
    hide Namespace, TreeOf, PathOf, Denote;
    PathIsRow(db, q);
    NamespaceParts(db);
    if z :| z in db.zones && db.zones[z].path == q { ZoneInTree(db, z); }
    var k :| k in db.entries && PathOf(db.zones, k) == q;
    EntryInTree(db, k);
  }

  lemma FileUsage(db: Tables, p: Path)
    requires Inv(db) && p in TreeOf(db) && TreeOf(db)[p].kind == File
    ensures HasRoot(db.zones)
    ensures DiskUsage(db, p) == Success(|TreeOf(db)[p].bytes|)
    ensures TreeBytes(Below(TreeOf(db), p)) == |TreeOf(db)[p].bytes|
  {
    hide Namespace, TreeOf, Locate, StoreOk, Payloads, Denote, HasRoot, IsTree, IdsDistinct, ValidPath, TreeBytes, AllPaths, UsageKeys;
    NamespaceParts(db);
    FileAddress(db, p);
    var l := Locate(db.zones, p);
    ContentSize(db, Key(l.zone, l.rel));
    RowsMakeTree(db);
    MissingMeansVacant(TreeOf(db), p);
    FileIsNoZone(db, p);
    OneFile(TreeOf(db), p);
  }

  lemma FileIsNoZone(db: Tables, p: Path)
    requires Namespace(db.zones, db.entries, db.nextId) && p in TreeOf(db) && TreeOf(db)[p].kind == File
    ensures HasRoot(db.zones) && Locate(db.zones, p).rel != []
  {
    hide Namespace, TreeOf, Locate, Denote, HasRoot;
    NamespaceParts(db);
    LookupFinds(db, p);
  }

  lemma OneFile(t: Tree, p: Path)
    requires p in t && t[p].kind == File && Subtree(t, p) == {p}
    ensures TreeBytes(Below(t, p)) == |t[p].bytes|
  {
    hide TreeBytes;
    var one := Below(t, p);
    assert one == map[p := t[p]] by {
      assert forall q :: q in one ==> q in Subtree(t, p);
    }
    TreeWithout(one, p);
    NoBytes(one - {p});
  }

  /** Disk usage is the number of bytes in the regular files at and below the target, if the tests tell
      the entries there rightly. */
  lemma DiskUsageMeansTree(db: Tables, p: Path)
    requires Inv(db) && EntriesTold(db, p)
    ensures p !in TreeOf(db) ==> DiskUsage(db, p) == Failure(NoSuchPath)
    ensures p in TreeOf(db) ==> DiskUsage(db, p) == Success(TreeBytes(Below(TreeOf(db), p)))
  {
    hide Inv, TreeOf, Locate, HasRoot, TreeBytes, Below, UsageKeys, RowsOf, TotalBytes, Restricted, EntriesTold, Denote;
    InvHasNamespace(db);
    NamespaceParts(db);
    LookupFinds(db, p);
    if p in TreeOf(db) {
      if TreeOf(db)[p].kind == File {
        FileUsage(db, p);
      } else {
        UsageRows(db, p);
        var l := Locate(db.zones, p);
        RowsSumToTree(Below(TreeOf(db), p), db.zones, Restricted(db.entries, UsageKeys(db, p, l)));
        NotAFile(db, p);
      }
    }
  }
}
