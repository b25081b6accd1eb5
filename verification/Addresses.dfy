/** What the addresses the commands compute mean in the tree. */
module Addresses {
  import opened Basics
  import opened Paths
  import opened Tables
  import opened Trees
  import opened Surgery
  import opened Grafting
  import opened Commands

  /** The text tests mean "at or below" on wildcard-free sources. */
  lemma TextTestsMeanPrefix(p: Path, q: Path)
    requires ValidPath(p) && ValidPath(q) && PlainPath(p) && p != []
    ensures AtOrUnder(p, q) <==> p <= q
    ensures AtOrUnderRel(p, q) <==> p <= q
    ensures Under(p, q) <==> p < q
    ensures UnderRel(p, q) <==> p < q
  {
    UnderMeansBelow(p, q);
  }

  lemma ParentMeansTree(db: Tables, p: Path)
    requires Namespace(db.zones, db.entries, db.nextId)
    ensures HasRoot(db.zones)
    ensures ParentIsDirectory(db, p) <==> p != [] && TreeKind(TreeOf(db), DropLast(p)) == Some(Dir)
  {
    hide TreeOf, KindOf, Namespace;
    NamespaceParts(db);
    if p != [] { LookupFinds(db, DropLast(p)); }
  }

  lemma DirectoryAddress(db: Tables, p: Path)
    requires Namespace(db.zones, db.entries, db.nextId) && p in TreeOf(db) && TreeOf(db)[p].kind == Dir
    ensures HasRoot(db.zones)
    ensures var l := Locate(db.zones, p); IsDirAddress(db.zones, db.entries, p, l.zone, l.rel)
  {
    hide TreeOf, Namespace, IsDeepest, Locate, AllPaths, Denote;
    NamespaceParts(db);
    LookupFinds(db, p);
  }

  lemma MissingMeansVacantRows(db: Tables, p: Path)
    requires Namespace(db.zones, db.entries, db.nextId) && p !in TreeOf(db)
    ensures VacantRows(db.zones, db.entries, p)
  {
    hide Namespace, NodeAt, IsTree, IdsDistinct, ValidPath, AllPaths;
    RowsMakeTree(db);
    MissingMeansVacant(TreeOf(db), p);
    TreeHasRows(db);
  }

  /** The rows below a located path: rows of zones below it, and rows of its own zone. */
  lemma RowsBelow(db: Tables, p: Path, l: Location, k: Key)
    requires Homed(db.zones, db.entries) && NamesValid(db.zones, db.entries) && ZonePathsUnique(db.zones)
    requires k in db.entries
    requires IsDeepest(db.zones, p, l.zone) && db.zones[l.zone].path + l.rel == p
    ensures p <= PathOf(db.zones, k) <==> p <= ZonePath(db.zones, k.zone) || (k.zone == l.zone && l.rel <= k.rel)
  {
    var a, b, q := db.zones[k.zone].path, db.zones[l.zone].path, PathOf(db.zones, k);
    assert a <= q && b <= p;
    if k.zone == l.zone && l.rel <= k.rel {
      assert q[..|p|] == p by { assert k.rel[..|l.rel|] == l.rel; }
    }
    if p <= q && !(p <= a) {
      assert a == q[..|a|] && p == q[..|p|];
      assert a <= p;
      assert b == q[..|b|] && b <= q;
      assert |a| <= |b|;
      assert a < b ==> !(b <= q);
      assert a == b;
      assert k.zone == l.zone;
      assert k.rel == q[|a|..] && l.rel == p[|a|..];
      assert l.rel == k.rel[..|l.rel|];
    }
  }

  lemma SuffixFacts(a: Path, r: Path)
    ensures ValidPath(a + r) ==> ValidPath(r)
    ensures PlainPath(a + r) ==> PlainPath(r)
  {
    hide ValidName;
    assert forall i :: 0 <= i < |r| ==> r[i] == (a + r)[|a| + i];
  }

  // ---- locate_zone on the texts ----

  /** The zone's path text is among the ancestors of a path text, as the join of `locate_zone` asks. */
  predicate Joined(zones: Zones, p: Path, z: ZoneId) { z in zones && Render(zones[z].path) in AncestorPaths(Render(p)) }

  /** `ORDER BY length(z.path) DESC LIMIT 1`. */
  ghost predicate LongestJoined(zones: Zones, p: Path, z: ZoneId) {
    Joined(zones, p, z) && forall y :: Joined(zones, p, y) ==> |Render(zones[y].path)| <= |Render(zones[z].path)|
  }

  lemma JoinedMeansAbove(zones: Zones, p: Path, z: ZoneId)
    requires ValidPath(p) && z in zones && ValidPath(zones[z].path)
    ensures Joined(zones, p, z) <==> zones[z].path <= p
  {
    hide AncestorPaths, Render, ValidPath;
    var q, texts := zones[z].path, AncestorPaths(Render(p));
    AncestorsArePrefixes(p);
    if q <= p {
      assert q == p[..|q|];
      assert texts[|q|] == Render(q);
    }
    if k: nat :| k < |texts| && texts[k] == Render(q) {
      PrefixValid(p, k);
      RenderInjective(q, p[..k]);
    }
  }

  lemma PrefixValid(p: Path, k: nat)
    requires ValidPath(p) && k <= |p|
    ensures ValidPath(p[..k])
  {
  }

  /** Among the prefixes of a path the longer text is that of the longer prefix. */
  lemma LongerText(a: Path, b: Path)
    requires ValidPath(b) && a <= b
    ensures |Render(a)| <= |Render(b)| && (a != b ==> |Render(a)| < |Render(b)|)
  {
    assert Render([]) == "/";
    hide Join, ValidPath;
    if a != b {
      if a == [] {
        ValidText(b);
      } else {
        JoinPrefix(a, b);
      }
    }
  }

  /** The zone with the longest path text among the ancestors of a path, and the offset behind that text,
      are the located zone and relative path; no other zone comes first. */
  lemma LocatedByText(zones: Zones, p: Path, z: ZoneId)
    requires HasRoot(zones) && ZonePathsUnique(zones) && ValidPath(p) && forall y :: y in zones ==> ValidPath(zones[y].path)
    ensures LongestJoined(zones, p, z) <==> z == Locate(zones, p).zone
    ensures z == Locate(zones, p).zone ==>
              && z in zones && RelativeTo(Render(zones[z].path), Render(p)) == RenderRel(Locate(zones, p).rel)
              && ParseRel(RelativeTo(Render(zones[z].path), Render(p))) == Locate(zones, p).rel
  {
    hide AncestorPaths, Render, RenderRel, ParseRel, ValidPath, Joined, RelativeTo;
    var l := Locate(zones, p);
    var a := zones[l.zone].path;
    forall y | y in zones ensures Joined(zones, p, y) <==> zones[y].path <= p { JoinedMeansAbove(zones, p, y); }
    JoinedAreZones(zones, p);
    forall y | Joined(zones, p, y) ensures zones[y].path <= a { AboveDeepest(zones, p, l.zone, y); }
    forall y | Joined(zones, p, y) ensures |Render(zones[y].path)| <= |Render(a)| && (y != l.zone ==> |Render(zones[y].path)| < |Render(a)|) {
      LongerText(zones[y].path, a);
    }
    RelativeToMeansDrop(a, p);
    SuffixFacts(a, l.rel);
    assert a + l.rel == p;
    ParseRender(l.rel);
  }

  lemma JoinedAreZones(zones: Zones, p: Path)
    ensures forall z :: Joined(zones, p, z) ==> z in zones
  {
  }

  lemma AboveDeepest(zones: Zones, p: Path, z: ZoneId, y: ZoneId)
    requires IsDeepest(zones, p, z) && y in zones && zones[y].path <= p
    ensures zones[y].path <= zones[z].path
  {
    assert zones[y].path == p[..|zones[y].path|] && zones[z].path == p[..|zones[z].path|];
  }

  lemma DeepestAt(db: Tables, p: Path)
    requires HasRoot(db.zones)
    ensures var l := Locate(db.zones, p); IsDeepest(db.zones, p, l.zone) && db.zones[l.zone].path + l.rel == p
  {
  }

  lemma ZoneListed(db: Tables, p: Path, z: ZoneId)
    requires IsDeepest(db.zones, p, z)
    ensures z in db.zones
  {
  }

  lemma LocatedFacts(db: Tables, p: Path)
    requires Namespace(db.zones, db.entries, db.nextId) && ValidPath(p)
    ensures HasRoot(db.zones)
    ensures var l := Locate(db.zones, p);
            && IsDeepest(db.zones, p, l.zone) && db.zones[l.zone].path + l.rel == p
            && ValidPath(l.rel) && (PlainPath(p) ==> PlainPath(l.rel))
  {
    hide *;
    NamespaceParts(db);
    DeepestAt(db, p);
    var l := Locate(db.zones, p);
    ZoneListed(db, p, l.zone);
    SuffixFacts(db.zones[l.zone].path, l.rel);
  }

  // ---- One new entry ----

  lemma SingleRow(z: ZoneId, base: Path, row: Row)
    requires base != []
    ensures PlantedEntries(z, base, map[[] := row]) == map[Key(z, base) := EntryAt(base, row)]
  {
    var rows: Forest := map[[] := row];
    var e := map[Key(z, base) := EntryAt(base, row)];
    forall k ensures k in PlantedEntries(z, base, rows) <==> k in e
             ensures k in PlantedEntries(z, base, rows) ==> PlantedEntries(z, base, rows)[k] == e[k] {
      PlantedEntryAt(z, base, rows, k);
      hide PlantedEntries, EntryAt;
      if base <= k.rel && k.rel[|base|..] == [] { assert k.rel == base; }
    }
  }

  lemma SingleNode(t: Tree, p: Path, n: Node)
    ensures Grafted(t, p, map[[] := n]) == t[p := n]
  {
    var sub: Tree := map[[] := n];
    forall q ensures q in Planted(p, sub) <==> q == p
             ensures q in Planted(p, sub) ==> Planted(p, sub)[q] == n {
      PlantedAt(p, sub, q);
      hide Planted;
      if p <= q && q[|p|..] == [] { assert q == p; }
    }
  }

  lemma ChildAddress(a: Path, r: Path, p: Path)
    requires p != [] && a + r == DropLast(p)
    ensures a + (r + [Last(p)]) == p && DropLast(r + [Last(p)]) == r && Last(r + [Last(p)]) == Last(p)
  {
    assert DropLast(p) + [Last(p)] == p;
  }

  lemma RoomIntro(db: Tables, z: ZoneId, base: Path, rows: Forest, p: Path)
    requires z in db.zones && ValidPath(base) && base != [] && db.zones[z].path + base == p
    requires IsDirAddress(db.zones, db.entries, DropLast(p), z, DropLast(base))
    requires forall r :: r in rows && r != [] ==> IsDirRow(rows, DropLast(r))
    requires VacantRows(db.zones, db.entries, p)
    ensures Room(db, z, base, rows)
  {
    hide AllPaths, ValidPath, IsDirAddress, IsDirRow;
    assert db.zones[z].path + DropLast(base) == DropLast(p);
  }

  /** The key computed for an entry at `p`: the parent's canonical address and the last name. */
  lemma EntryKeyIs(zones: Zones, p: Path)
    requires HasRoot(zones) && p != []
    ensures var l, key := Locate(zones, DropLast(p)), EntryKey(zones, p);
            && key == Key(l.zone, l.rel + [Last(p)]) && key.rel != []
            && DropLast(key.rel) == l.rel && Last(key.rel) == Last(p)
            && ZonePath(zones, key.zone) + key.rel == p
  {
    var l := Locate(zones, DropLast(p));
    ChildAddress(zones[l.zone].path, l.rel, p);
    hide Locate;
    assert DropLast(l.rel + [Last(p)]) == l.rel;
  }

  lemma RoomAt(db: Tables, p: Path, rows: Forest)
    requires Namespace(db.zones, db.entries, db.nextId) && ValidPath(p) && p != [] && p !in TreeOf(db)
    requires DropLast(p) in TreeOf(db) && TreeOf(db)[DropLast(p)].kind == Dir
    requires forall r :: r in rows && r != [] ==> IsDirRow(rows, DropLast(r))
    ensures HasRoot(db.zones)
    ensures var key := EntryKey(db.zones, p);
            && Room(db, key.zone, key.rel, rows) && key.rel != [] && Last(key.rel) == Last(p)
            && db.zones[key.zone].path + key.rel == p && DropLast(key.rel) == Locate(db.zones, DropLast(p)).rel
  {
    hide *;
    NamespaceParts(db);
    DirectoryAddress(db, DropLast(p));
    MissingMeansVacantRows(db, p);
    EntryKeyIs(db.zones, p);
    var key := EntryKey(db.zones, p);
    AddressListed(db, DropLast(p), key.zone, DropLast(key.rel));
    SuffixFacts(db.zones[key.zone].path, key.rel);
    RoomIntro(db, key.zone, key.rel, rows, p);
  }

  lemma AddressListed(db: Tables, p: Path, z: ZoneId, rel: Path)
    requires IsDirAddress(db.zones, db.entries, p, z, rel)
    ensures z in db.zones && ZonePath(db.zones, z) == db.zones[z].path
  {
  }

  lemma OneFreshRow(db: Tables, payload: Payload)
    requires IdsUnique(db.zones, db.entries, db.nextId)
    ensures var rows: Forest := map[[] := Row(db.nextId, payload)];
            IdsFree(db, rows, db.nextId + 1) && IsForest(rows)
  {
  }

  lemma GraftOne(db: Tables, key: Key, row: Row, nextId: NodeId, e: Entry)
    requires var rows: Forest := map[[] := row]; MayGraft(db, key.zone, key.rel, rows, nextId)
    requires key.rel != [] && e == EntryAt(key.rel, row)
    ensures key.zone in db.zones && key !in db.entries
    ensures var b := db.(entries := db.entries[key := e], nextId := nextId);
            && Namespace(b.zones, b.entries, b.nextId)
            && TreeOf(b) == TreeOf(db)[db.zones[key.zone].path + key.rel := NodeOf(db.store, e)]
  {
    hide Namespace, TreeOf, Room, PlantedEntries, Planted, Grafted, NodeOf;
    var rows: Forest := map[[] := row];
    RoomHasNoRoot(db, key.zone, key.rel, rows);
    GraftKeepsNamespace(db, key.zone, key.rel, rows, nextId);
    GraftPlants(db, key.zone, key.rel, rows, nextId);
    SingleRow(key.zone, key.rel, row);
    NodesOfOne(db.store, row, e);
    SingleNode(TreeOf(db), db.zones[key.zone].path + key.rel, NodeOf(db.store, e));
    PlantedKeyNew(db, key, rows);
    assert db.entries + map[key := e] == db.entries[key := e];
  }

  lemma NodesOfOne(store: Store, row: Row, e: Entry)
    requires e.id == row.id && e.payload == row.payload
    ensures NodesOf(store, map[[] := row]) == map[[] := NodeOf(store, e)]
  {
    hide Denote;
    var n: Tree := map[[] := NodeOf(store, e)];
    assert NodesOf(store, map[[] := row]).Keys == n.Keys;
  }

  /** Inserting the row of a new node where nothing exists adds exactly that node. */
  lemma AddEntry(db: Tables, p: Path, payload: Payload)
    requires Namespace(db.zones, db.entries, db.nextId) && ValidPath(p) && p != [] && p !in TreeOf(db)
    requires DropLast(p) in TreeOf(db) && TreeOf(db)[DropLast(p)].kind == Dir
    ensures HasRoot(db.zones)
    ensures var key := EntryKey(db.zones, p);
            var e := Entry(db.nextId, DropLast(key.rel), Last(p), payload);
            var b := db.(entries := db.entries[key := e], nextId := db.nextId + 1);
            && key !in db.entries
            && Namespace(b.zones, b.entries, b.nextId)
            && TreeOf(b) == TreeOf(db)[p := NodeOf(db.store, e)]
  {
    hide Namespace, TreeOf, Room, EntryKey, NodeOf, IdsFree, IsForest, IdsUnique, Locate;
    NamespaceParts(db);
    var row := Row(db.nextId, payload);
    RoomAt(db, p, map[[] := row]);
    OneFreshRow(db, payload);
    var key := EntryKey(db.zones, p);
    GraftOne(db, key, row, db.nextId + 1, Entry(db.nextId, DropLast(key.rel), Last(p), payload));
  }

  lemma PlantedKeyNew(db: Tables, key: Key, rows: Forest)
    requires Room(db, key.zone, key.rel, rows) && [] in rows && key.rel != []
    ensures key !in db.entries
  {
    hide Room, PlantedEntries;
    assert key.rel[|key.rel|..] == [];
    PlantedEntryAt(key.zone, key.rel, rows, key);
    PlantedIsNew(db, key.zone, key.rel, rows, key);
  }

  lemma RewriteKeepsOthers(db: Tables, k: Key, payload: Payload)
    requires Namespace(db.zones, db.entries, db.nextId) && k in db.entries
    ensures forall j :: j in db.entries && j != k ==> PathOf(db.zones, j) != PathOf(db.zones, k)
    ensures forall z :: z in db.zones ==> db.zones[z].path != PathOf(db.zones, k)
    ensures AllPaths(db.zones, db.entries) == AllPaths(db.zones, db.entries[k := db.entries[k].(payload := payload)])
  {
    hide Namespace, PathOf, HasRoot, ZonePathsUnique, NamesValid, Homed, EntryParents, ZoneParents, Labelled, IdsUnique;
    NamespaceParts(db);
    forall j | j in db.entries && PathOf(db.zones, j) == PathOf(db.zones, k) ensures j == k {
      PathsUnique(db.zones, db.entries, j, k);
    }
    forall z | z in db.zones ensures db.zones[z].path != PathOf(db.zones, k) {
      EntryIsNotZone(db.zones, db.entries, k, z);
    }
  }

  /** Rewriting the payload of a file changes exactly that node. */
  lemma RewritePayload(db: Tables, k: Key, payload: Payload, nextId: NodeId)
    requires Namespace(db.zones, db.entries, db.nextId) && k in db.entries && nextId >= db.nextId
    requires payload.kind == db.entries[k].payload.kind
    ensures var e := db.entries[k].(payload := payload);
            var b := db.(entries := db.entries[k := e], nextId := nextId);
            && Namespace(b.zones, b.entries, b.nextId)
            && TreeOf(b) == TreeOf(db)[PathOf(db.zones, k) := NodeOf(db.store, e)]
  {
    hide *;
    RewriteKeepsNamespace(db, k, payload, nextId);
    RewriteKeepsOthers(db, k, payload);
    var e := db.entries[k].(payload := payload);
    var b := db.(entries := db.entries[k := e], nextId := nextId);
    var t := TreeOf(db)[PathOf(db.zones, k) := NodeOf(db.store, e)];
    TreeHasRows(db);
    TreeIs(b, t);
  }

  lemma RewriteKeepsParents(db: Tables, k: Key, payload: Payload)
    requires EntryParents(db.entries) && ZoneParents(db.zones, db.entries) && k in db.entries
    requires payload.kind == db.entries[k].payload.kind
    ensures var entries := db.entries[k := db.entries[k].(payload := payload)];
            EntryParents(entries) && ZoneParents(db.zones, entries)
  {
    hide IsDeepest;
    var entries := db.entries[k := db.entries[k].(payload := payload)];
    assert forall j :: IsDirectory(db.entries, j) <==> IsDirectory(entries, j);
    hide IsDirectory;
    forall z | z in db.zones ensures ZoneParent(db.zones, entries, db.zones[z]) {
      assert ZoneParent(db.zones, db.entries, db.zones[z]);
    }
  }

  lemma RewriteKeepsNamespace(db: Tables, k: Key, payload: Payload, nextId: NodeId)
    requires Namespace(db.zones, db.entries, db.nextId) && k in db.entries && nextId >= db.nextId
    requires payload.kind == db.entries[k].payload.kind
    ensures Namespace(db.zones, db.entries[k := db.entries[k].(payload := payload)], nextId)
  {
    hide HasRoot, ZonePathsUnique, NamesValid, Homed, EntryParents, ZoneParents, Labelled, IdsUnique;
    RewriteKeepsParents(db, k, payload);
    RewriteKeepsRest(db.zones, db.entries, k, payload, db.nextId, nextId);
  }

  lemma RewriteKeepsRest(zones: Zones, entries: Entries, k: Key, payload: Payload, a: NodeId, b: NodeId)
    requires NamesValid(zones, entries) && Homed(zones, entries) && Labelled(entries) && IdsUnique(zones, entries, a)
    requires k in entries && b >= a
    ensures var e := entries[k := entries[k].(payload := payload)];
            NamesValid(zones, e) && Homed(zones, e) && Labelled(e) && IdsUnique(zones, e, b)
  {
    hide PathOf, ZonePath, ValidPath;
  }
}
