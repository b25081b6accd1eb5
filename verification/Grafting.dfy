/** Adding rows: a zone, or a forest of entries below a directory. */
module Grafting {
  import opened Basics
  import opened Paths
  import opened Tables
  import opened Trees

  /** An entry without its place. */
  datatype Row = Row(id: NodeId, payload: Payload)

  type Forest = map<Path, Row>

  /** Every row but the topmost hangs below a directory row. */
  ghost predicate IsForest(rows: Forest) {
    forall r :: r in rows ==> ValidPath(r) && (|r| > 1 ==> IsDirRow(rows, DropLast(r)))
  }

  predicate IsDirRow(rows: Forest, r: Path) { r in rows && rows[r].payload.kind == Dir }

  function EntryAt(rel: Path, row: Row): Entry
    requires rel != []
  {
    Entry(row.id, DropLast(rel), Last(rel), row.payload)
  }

  /** The rows placed in zone `z` below `base`. */
  function PlantedEntries(z: ZoneId, base: Path, rows: Forest): Entries {
    map k | k in (set r | r in rows :: Key(z, base + r)) && k.rel != [] && k.rel[|base|..] in rows ::
      EntryAt(k.rel, rows[k.rel[|base|..]])
  }

  lemma PlantedEntryAt(z: ZoneId, base: Path, rows: Forest, k: Key)
    ensures k in PlantedEntries(z, base, rows) <==>
              k.zone == z && base <= k.rel && k.rel[|base|..] in rows && k.rel != []
    ensures k in PlantedEntries(z, base, rows) ==>
              PlantedEntries(z, base, rows)[k] == EntryAt(k.rel, rows[k.rel[|base|..]]) && k.rel == base + k.rel[|base|..]
  {
    if base <= k.rel { assert base + k.rel[|base|..] == k.rel; }
    forall r | r in rows ensures (base + r)[|base|..] == r {}
  }

  /** The ids of the rows are unused, distinct and below the next id. */
  ghost predicate IdsFree(db: Tables, rows: Forest, nextId: NodeId) {
    && db.nextId <= nextId
    && (forall r :: r in rows ==> rows[r].id < nextId && rows[r].id !in db.zones)
    && (forall r, k :: r in rows && k in db.entries ==> rows[r].id != db.entries[k].id)
    && forall q, r :: q in rows && r in rows && rows[q].id == rows[r].id ==> q == r
  }

  /** Where a forest may be planted: below a directory at a path where nothing exists yet, or
      directly in a zone that holds nothing. */
  ghost predicate Room(db: Tables, z: ZoneId, base: Path, rows: Forest) {
    && z in db.zones && ValidPath(base)
    && (base == [] ==> [] !in rows)
    && (base != [] ==>
          && IsDirAddress(db.zones, db.entries, db.zones[z].path + DropLast(base), z, DropLast(base))
          && forall r :: r in rows && r != [] ==> IsDirRow(rows, DropLast(r)))
    && forall p :: p in AllPaths(db.zones, db.entries) && db.zones[z].path + base <= p ==>
                     base == [] && p == db.zones[z].path
  }

  function Graft(db: Tables, z: ZoneId, base: Path, rows: Forest, nextId: NodeId): Tables {
    db.(entries := db.entries + PlantedEntries(z, base, rows), nextId := nextId)
  }

  ghost predicate MayGraft(db: Tables, z: ZoneId, base: Path, rows: Forest, nextId: NodeId) {
    && Namespace(db.zones, db.entries, db.nextId)
    && IsForest(rows) && Room(db, z, base, rows) && IdsFree(db, rows, nextId)
  }

  lemma PlantedPath(db: Tables, z: ZoneId, base: Path, rows: Forest, k: Key)
    requires z in db.zones && k in PlantedEntries(z, base, rows)
    ensures PathOf(db.zones, k) == db.zones[z].path + base + k.rel[|base|..]
    ensures db.zones[z].path + base <= PathOf(db.zones, k)
    ensures PathOf(db.zones, k)[|db.zones[z].path + base|..] == k.rel[|base|..]
  {
    PlantedEntryAt(z, base, rows, k);
    hide PlantedEntries, EntryAt;
    assert db.zones[z].path + (base + k.rel[|base|..]) == db.zones[z].path + base + k.rel[|base|..];
  }

  lemma RoomIsVacant(db: Tables, z: ZoneId, base: Path, rows: Forest, p: Path)
    requires Room(db, z, base, rows) && db.zones[z].path + base <= p && p in AllPaths(db.zones, db.entries)
    ensures base == [] && p == db.zones[z].path && [] !in rows
  {
    hide IsDirAddress, AllPaths;
  }

  lemma PlantedIsNew(db: Tables, z: ZoneId, base: Path, rows: Forest, k: Key)
    requires Room(db, z, base, rows) && k in PlantedEntries(z, base, rows)
    ensures k !in db.entries && PathOf(db.zones, k) !in AllPaths(db.zones, db.entries)
  {
    PlantedPath(db, z, base, rows, k);
    PlantedEntryAt(z, base, rows, k);
    var p := PathOf(db.zones, k);
    assert k in db.entries ==> p in AllPaths(db.zones, db.entries);
    hide PlantedEntries, AllPaths, Room, PathOf;
    if p in AllPaths(db.zones, db.entries) {
      RoomIsVacant(db, z, base, rows, p);
    }
  }

  lemma PlantedIsHome(db: Tables, z: ZoneId, base: Path, rows: Forest, k: Key, y: ZoneId)
    requires Room(db, z, base, rows) && k in PlantedEntries(z, base, rows)
    requires y in db.zones && db.zones[z].path < db.zones[y].path
    ensures !(db.zones[y].path <= PathOf(db.zones, k))
  {
    var a, q, p := db.zones[z].path, db.zones[y].path, PathOf(db.zones, k);
    var b := a + base;
    PlantedPath(db, z, base, rows, k);
    assert q in AllPaths(db.zones, db.entries);
    assert base != [] ==> IsDeepest(db.zones, DropLast(b), z) by {
      if base != [] { assert DropLast(b) == a + DropLast(base); }
    }
    assert b <= q ==> q == a by {
      if b <= q { RoomIsVacant(db, z, base, rows, q); }
    }
    hide PlantedEntries, AllPaths, Room, PathOf;
    ComparablePrefixes(q, b, p);
  }

  lemma ComparablePrefixes(q: Path, b: Path, p: Path)
    requires b <= p
    ensures q <= p ==> b <= q || (b != [] && q <= DropLast(b))
  {
    if q <= p {
      assert q == p[..|q|] && b == p[..|b|];
    }
  }

  lemma GraftHome(db: Tables, z: ZoneId, base: Path, rows: Forest, k: Key, y: ZoneId)
    requires Homed(db.zones, db.entries) && Room(db, z, base, rows)
    requires k in db.entries + PlantedEntries(z, base, rows) && y in db.zones
    requires ZonePath(db.zones, k.zone) < db.zones[y].path
    ensures !(db.zones[y].path <= PathOf(db.zones, k))
  {
    if k in PlantedEntries(z, base, rows) {
      PlantedEntryAt(z, base, rows, k);
      PlantedIsHome(db, z, base, rows, k, y);
    }
  }

  lemma GraftName(db: Tables, z: ZoneId, base: Path, rows: Forest, k: Key)
    requires NamesValid(db.zones, db.entries) && IsForest(rows) && Room(db, z, base, rows)
    requires k in db.entries + PlantedEntries(z, base, rows)
    ensures k.zone in db.zones && k.rel != [] && ValidPath(k.rel)
  {
    hide AllPaths, IsDirAddress;
    if k in PlantedEntries(z, base, rows) { PlantedEntryAt(z, base, rows, k); }
  }

  lemma GraftKeepsHomes(db: Tables, z: ZoneId, base: Path, rows: Forest, nextId: NodeId)
    requires MayGraft(db, z, base, rows, nextId)
    ensures var g := Graft(db, z, base, rows, nextId); Homed(g.zones, g.entries) && NamesValid(g.zones, g.entries)
  {
    hide Namespace, IdsFree, PathOf, Room, IsForest, PlantedEntries, ValidPath;
    var g := Graft(db, z, base, rows, nextId);
    NamespaceParts(db);
    forall k, y | k in g.entries && y in g.zones && ZonePath(g.zones, k.zone) < g.zones[y].path
      ensures !(g.zones[y].path <= PathOf(g.zones, k))
    {
      GraftHome(db, z, base, rows, k, y);
    }
    forall k | k in g.entries ensures k.zone in g.zones && k.rel != [] && ValidPath(k.rel) {
      GraftName(db, z, base, rows, k);
    }
  }

  lemma NamespaceParts(db: Tables)
    requires Namespace(db.zones, db.entries, db.nextId)
    ensures HasRoot(db.zones) && ZonePathsUnique(db.zones) && NamesValid(db.zones, db.entries)
    ensures Homed(db.zones, db.entries) && EntryParents(db.entries) && ZoneParents(db.zones, db.entries)
    ensures Labelled(db.entries) && IdsUnique(db.zones, db.entries, db.nextId)
  {
    hide HasRoot, ZonePathsUnique, NamesValid, Homed, EntryParents, ZoneParents, Labelled, IdsUnique;
  }

  lemma PlantedParent(db: Tables, z: ZoneId, base: Path, rows: Forest, k: Key)
    requires IsForest(rows) && Room(db, z, base, rows) && k in PlantedEntries(z, base, rows) && |k.rel| > 1
    ensures var up := Key(k.zone, DropLast(k.rel));
            IsDirectory(PlantedEntries(z, base, rows), up) || IsDirectory(db.entries, up)
  {
    PlantedEntryAt(z, base, rows, k);
    var r, up := k.rel[|base|..], Key(k.zone, DropLast(k.rel));
    PlantedEntryAt(z, base, rows, up);
    hide AllPaths, IsDeepest, ValidPath, PlantedEntries;
    if r == [] {
      assert k.rel == base;
    } else {
      assert IsDirRow(rows, DropLast(r)) || (base == [] && |r| == 1);
      assert DropLast(k.rel) == base + DropLast(r);
      assert (base + DropLast(r))[|base|..] == DropLast(r);
    }
  }

  lemma GraftParent(db: Tables, z: ZoneId, base: Path, rows: Forest, k: Key)
    requires EntryParents(db.entries) && IsForest(rows) && Room(db, z, base, rows)
    requires k in db.entries + PlantedEntries(z, base, rows) && |k.rel| > 1
    ensures IsDirectory(db.entries + PlantedEntries(z, base, rows), Key(k.zone, DropLast(k.rel)))
  {
    var up := Key(k.zone, DropLast(k.rel));
    if k in PlantedEntries(z, base, rows) { PlantedParent(db, z, base, rows, k); }
    if up in PlantedEntries(z, base, rows) { PlantedIsNew(db, z, base, rows, up); }
    hide PlantedEntries, IsForest, Room;
  }

  lemma GraftAddress(db: Tables, z: ZoneId, base: Path, rows: Forest, p: Path, y: ZoneId, rel: Path)
    requires Room(db, z, base, rows) && IsDirAddress(db.zones, db.entries, p, y, rel)
    ensures IsDirAddress(db.zones, db.entries + PlantedEntries(z, base, rows), p, y, rel)
  {
    if Key(y, rel) in PlantedEntries(z, base, rows) { PlantedIsNew(db, z, base, rows, Key(y, rel)); }
    hide PlantedEntries, Room, IsDeepest;
  }

  lemma GraftKeepsParents(db: Tables, z: ZoneId, base: Path, rows: Forest, nextId: NodeId)
    requires MayGraft(db, z, base, rows, nextId)
    ensures var g := Graft(db, z, base, rows, nextId); EntryParents(g.entries) && ZoneParents(g.zones, g.entries)
  {
    hide Namespace, IdsFree, Room, IsForest, PlantedEntries, IsDirectory, IsDirAddress;
    var g := Graft(db, z, base, rows, nextId);
    NamespaceParts(db);
    forall k | k in g.entries && |k.rel| > 1 ensures IsDirectory(g.entries, Key(k.zone, DropLast(k.rel))) {
      GraftParent(db, z, base, rows, k);
    }
    forall y | y in g.zones ensures ZoneParent(g.zones, g.entries, g.zones[y]) {
      var row := db.zones[y];
      assert ZoneParent(db.zones, db.entries, row);
      if row.path != [] {
        GraftAddress(db, z, base, rows, DropLast(row.path), row.parentZone.value, row.parentPath.value);
      }
    }
  }

  lemma GraftIdsDistinct(db: Tables, z: ZoneId, base: Path, rows: Forest, nextId: NodeId, j: Key, k: Key)
    requires IdsUnique(db.zones, db.entries, db.nextId) && IdsFree(db, rows, nextId)
    requires var e := db.entries + PlantedEntries(z, base, rows); j in e && k in e && e[j].id == e[k].id
    ensures j == k
  {
    PlantedEntryAt(z, base, rows, j);
    PlantedEntryAt(z, base, rows, k);
    hide PlantedEntries;
  }

  lemma GraftIdBound(db: Tables, z: ZoneId, base: Path, rows: Forest, nextId: NodeId, k: Key)
    requires IdsUnique(db.zones, db.entries, db.nextId) && IdsFree(db, rows, nextId) && Labelled(db.entries)
    requires k in db.entries + PlantedEntries(z, base, rows)
    ensures var e := (db.entries + PlantedEntries(z, base, rows))[k];
            && e.id < nextId && e.id !in db.zones
            && (k.rel != [] ==> e.parentPath == DropLast(k.rel) && e.name == Last(k.rel))
  {
    PlantedEntryAt(z, base, rows, k);
    hide PlantedEntries;
  }

  lemma GraftParts(db: Tables, z: ZoneId, base: Path, rows: Forest, nextId: NodeId)
    requires MayGraft(db, z, base, rows, nextId)
    ensures Namespace(db.zones, db.entries, db.nextId)
    ensures IsForest(rows) && Room(db, z, base, rows) && IdsFree(db, rows, nextId)
  {
    hide Namespace, IsForest, Room, IdsFree;
  }

  lemma LabelledIntro(entries: Entries)
    requires forall k :: k in entries ==>
               k.rel != [] ==> entries[k].parentPath == DropLast(k.rel) && entries[k].name == Last(k.rel)
    ensures Labelled(entries)
  {
  }

  lemma GraftKeepsIds(db: Tables, z: ZoneId, base: Path, rows: Forest, nextId: NodeId)
    requires MayGraft(db, z, base, rows, nextId)
    ensures var g := Graft(db, z, base, rows, nextId); Labelled(g.entries) && IdsUnique(g.zones, g.entries, nextId)
  {
    hide MayGraft, Labelled, IdsUnique, IdsFree, Namespace, Room, IsForest, PlantedEntries, HasRoot, ZonePathsUnique, NamesValid, Homed, EntryParents, ZoneParents;
    GraftParts(db, z, base, rows, nextId);
    NamespaceParts(db);
    var entries := db.entries + PlantedEntries(z, base, rows);
    forall k | k in entries
      ensures entries[k].id < nextId && entries[k].id !in db.zones
      ensures k.rel != [] ==> entries[k].parentPath == DropLast(k.rel) && entries[k].name == Last(k.rel)
    {
      GraftIdBound(db, z, base, rows, nextId, k);
    }
    LabelledIntro(entries);
    forall j, k | j in entries && k in entries && entries[j].id == entries[k].id ensures j == k {
      GraftIdsDistinct(db, z, base, rows, nextId, j, k);
    }
    ZoneIdsBelow(db, rows, nextId);
    IdsUniqueIntro(db.zones, entries, nextId);
  }

  lemma ZoneIdsBelow(db: Tables, rows: Forest, nextId: NodeId)
    requires IdsUnique(db.zones, db.entries, db.nextId) && IdsFree(db, rows, nextId)
    ensures forall z :: z in db.zones ==> z < nextId
  {
  }

  lemma IdsUniqueIntro(zones: Zones, entries: Entries, nextId: NodeId)
    requires forall z :: z in zones ==> z < nextId
    requires forall k :: k in entries ==> entries[k].id < nextId && entries[k].id !in zones
    requires forall j, k :: j in entries && k in entries && entries[j].id == entries[k].id ==> j == k
    ensures IdsUnique(zones, entries, nextId)
  {
  }

  /** Planting a forest where there is room keeps the invariant. */
  lemma GraftKeepsNamespace(db: Tables, z: ZoneId, base: Path, rows: Forest, nextId: NodeId)
    requires MayGraft(db, z, base, rows, nextId)
    ensures var g := Graft(db, z, base, rows, nextId); Namespace(g.zones, g.entries, g.nextId)
  {
    GraftKeepsHomes(db, z, base, rows, nextId);
    GraftKeepsParents(db, z, base, rows, nextId);
    GraftKeepsIds(db, z, base, rows, nextId);
    NamespaceParts(db);
    hide HasRoot, ZonePathsUnique, NamesValid, Homed, EntryParents, ZoneParents, Labelled, IdsUnique, MayGraft, PlantedEntries;
  }

  function NodesOf(store: Store, rows: Forest): Tree {
    map r | r in rows :: NodeOf(store, Entry(rows[r].id, [], "", rows[r].payload))
  }

  lemma KeyBelow(zones: Zones, z: ZoneId, base: Path, r: Path)
    requires z in zones
    ensures PathOf(zones, Key(z, base + r)) == zones[z].path + base + r
    ensures (base + r)[|base|..] == r
  {
  }

  lemma RoomHasNoRoot(db: Tables, z: ZoneId, base: Path, rows: Forest)
    requires Room(db, z, base, rows)
    ensures z in db.zones && (base == [] ==> [] !in rows)
  {
  }

  lemma PlantedNodeHasRow(db: Tables, z: ZoneId, base: Path, rows: Forest, q: Path)
    requires z in db.zones && (base == [] ==> [] !in rows)
    requires q in Planted(db.zones[z].path + base, NodesOf(db.store, rows))
    ensures exists k :: k in PlantedEntries(z, base, rows) && PathOf(db.zones, k) == q
  {
    hide Planted, PlantedEntries, PathOf;
    var b := db.zones[z].path + base;
    PlantedAt(b, NodesOf(db.store, rows), q);
    var r := q[|b|..];
    KeyBelow(db.zones, z, base, r);
    PlantedEntryAt(z, base, rows, Key(z, base + r));
  }

  lemma PathStays(zones: Zones, entries: Entries, zones': Zones, entries': Entries, q: Path)
    requires q in AllPaths(zones, entries)
    requires forall z :: z in zones ==> z in zones' && zones'[z].path == zones[z].path
    requires forall k :: k in entries ==> k in entries' && PathOf(zones', k) == PathOf(zones, k)
    ensures q in AllPaths(zones', entries')
  {
    if z :| z in zones && zones[z].path == q {
      ZonePathListed(zones', entries', z);
    } else {
      var k :| k in entries && PathOf(zones, k) == q;
      hide PathOf;
      EntryPathListed(zones', entries', k);
    }
  }

  lemma GraftPathListed(db: Tables, z: ZoneId, base: Path, rows: Forest, q: Path)
    requires Room(db, z, base, rows)
    requires q in AllPaths(db.zones, db.entries) || q in Planted(db.zones[z].path + base, NodesOf(db.store, rows))
    ensures q in AllPaths(db.zones, db.entries + PlantedEntries(z, base, rows))
  {
    var e := db.entries + PlantedEntries(z, base, rows);
    if q in AllPaths(db.zones, db.entries) {
      hide Room, PlantedEntries, PathOf, Planted, AllPaths;
      PathStays(db.zones, db.entries, db.zones, e, q);
    } else {
      RoomHasNoRoot(db, z, base, rows);
      PlantedNodeHasRow(db, z, base, rows, q);
      var k :| k in PlantedEntries(z, base, rows) && PathOf(db.zones, k) == q;
      hide Room, PlantedEntries, PathOf, Planted, AllPaths;
      EntryPathListed(db.zones, e, k);
    }
  }

  lemma PlantedZone(db: Tables, z: ZoneId, base: Path, rows: Forest, y: ZoneId)
    requires Namespace(db.zones, db.entries, db.nextId) && Room(db, z, base, rows) && y in db.zones
    ensures var t := Grafted(TreeOf(db), db.zones[z].path + base, NodesOf(db.store, rows));
            db.zones[y].path in t && t[db.zones[y].path] == DirNode(y)
  {
    NamespaceParts(db);
    ZoneInTree(db, y);
    var b, q := db.zones[z].path + base, db.zones[y].path;
    assert q in AllPaths(db.zones, db.entries);
    if b <= q {
      RoomIsVacant(db, z, base, rows, q);
      assert b == db.zones[z].path && q[|b|..] == [];
    }
    PlantedAt(b, NodesOf(db.store, rows), q);
    hide Namespace, Room, AllPaths, TreeOf, Planted;
  }

  lemma PlantedNode(db: Tables, z: ZoneId, base: Path, rows: Forest, k: Key)
    requires Namespace(db.zones, db.entries, db.nextId) && Room(db, z, base, rows)
    requires k in db.entries + PlantedEntries(z, base, rows)
    ensures var t := Grafted(TreeOf(db), db.zones[z].path + base, NodesOf(db.store, rows));
            && PathOf(db.zones, k) in t
            && t[PathOf(db.zones, k)] == NodeOf(db.store, (db.entries + PlantedEntries(z, base, rows))[k])
  {
    var b, p := db.zones[z].path + base, PathOf(db.zones, k);
    PlantedAt(b, NodesOf(db.store, rows), p);
    if k in PlantedEntries(z, base, rows) {
      PlantedPath(db, z, base, rows, k);
      PlantedEntryAt(z, base, rows, k);
      hide Namespace, Room, AllPaths, TreeOf, Planted, PlantedEntries, PathOf;
    } else {
      NamespaceParts(db);
      EntryInTree(db, k);
      EntryIsNotZone(db.zones, db.entries, k, z);
      assert p in AllPaths(db.zones, db.entries);
      if b <= p { RoomIsVacant(db, z, base, rows, p); }
      hide Namespace, Room, AllPaths, TreeOf, Planted, PlantedEntries, PathOf, NodeOf;
    }
  }

  /** Planting a forest of rows plants the tree of their nodes. */
  lemma GraftPlants(db: Tables, z: ZoneId, base: Path, rows: Forest, nextId: NodeId)
    requires MayGraft(db, z, base, rows, nextId)
    ensures TreeOf(Graft(db, z, base, rows, nextId)) ==
            Grafted(TreeOf(db), db.zones[z].path + base, NodesOf(db.store, rows))
  {
    assert z in db.zones by { assert Room(db, z, base, rows); }
    hide Namespace, IdsFree, Room, IsForest, PlantedEntries, PathOf, NodeOf, TreeOf, DirNode, AllPaths, Planted, NodesOf;
    var g := Graft(db, z, base, rows, nextId);
    var t := Grafted(TreeOf(db), db.zones[z].path + base, NodesOf(db.store, rows));
    GraftKeepsNamespace(db, z, base, rows, nextId);
    TreeHasRows(db);
    forall q | q in t ensures q in AllPaths(g.zones, g.entries) {
      GraftPathListed(db, z, base, rows, q);
    }
    forall k | k in g.entries ensures PathOf(g.zones, k) in t && t[PathOf(g.zones, k)] == NodeOf(g.store, g.entries[k]) {
      PlantedNode(db, z, base, rows, k);
    }
    forall y | y in g.zones ensures g.zones[y].path in t && t[g.zones[y].path] == DirNode(y) {
      PlantedZone(db, z, base, rows, y);
    }
    TreeIs(g, t);
  }

  // ---- Adding a zone ----

  function AddZone(db: Tables, z: ZoneId, row: Zone): Tables {
    db.(zones := db.zones[z := row], nextId := Max(db.nextId, z + 1))
  }

  /** No row is at or below `p`. */
  ghost predicate VacantRows(zones: Zones, entries: Entries, p: Path) {
    forall q :: q in AllPaths(zones, entries) ==> !(p <= q)
  }

  /** A new zone hangs at a vacant path below a directory and has an unused id. */
  ghost predicate MayAddZone(db: Tables, z: ZoneId, row: Zone) {
    && Namespace(db.zones, db.entries, db.nextId)
    && row.path != [] && ValidPath(row.path) && ZoneParent(db.zones, db.entries, row)
    && VacantRows(db.zones, db.entries, row.path)
    && z >= db.nextId
  }

  lemma VacantMeans(zones: Zones, entries: Entries, p: Path)
    requires VacantRows(zones, entries, p)
    ensures forall z :: z in zones ==> !(p <= zones[z].path)
    ensures forall k :: k in entries ==> !(p <= PathOf(zones, k))
  {
    hide PathOf;
    forall z | z in zones ensures !(p <= zones[z].path) { assert zones[z].path in AllPaths(zones, entries); }
    forall k | k in entries ensures !(p <= PathOf(zones, k)) { assert PathOf(zones, k) in AllPaths(zones, entries); }
  }

  lemma AddZoneKeepsAddress(db: Tables, z: ZoneId, row: Zone, p: Path, y: ZoneId, rel: Path)
    requires IsDirAddress(db.zones, db.entries, p, y, rel) && !(row.path <= p) && z !in db.zones
    ensures IsDirAddress(db.zones[z := row], db.entries, p, y, rel)
  {
  }

  lemma NewIdIsNoZone(db: Tables, z: ZoneId)
    requires Namespace(db.zones, db.entries, db.nextId) && z >= db.nextId
    ensures z !in db.zones
  {
    assert IdsUnique(db.zones, db.entries, db.nextId);
  }

  lemma SamePathElsewhere(zones: Zones, z: ZoneId, row: Zone, k: Key)
    requires k.zone in zones && z !in zones
    ensures PathOf(zones[z := row], k) == PathOf(zones, k) && ZonePath(zones[z := row], k.zone) == ZonePath(zones, k.zone)
  {
  }

  lemma AddZoneKeepsPath(db: Tables, z: ZoneId, row: Zone, k: Key)
    requires MayAddZone(db, z, row) && k in db.entries
    ensures PathOf(db.zones[z := row], k) == PathOf(db.zones, k)
    ensures ZonePath(db.zones[z := row], k.zone) == ZonePath(db.zones, k.zone)
  {
    NamespaceParts(db);
    NewIdIsNoZone(db, z);
    assert k.zone in db.zones by { assert NamesValid(db.zones, db.entries); }
    hide MayAddZone, PathOf, ZonePath, HasRoot, ZonePathsUnique, NamesValid, Homed, EntryParents, ZoneParents, Labelled, IdsUnique;
    SamePathElsewhere(db.zones, z, row, k);
  }

  lemma AddZoneKeepsHome(db: Tables, z: ZoneId, row: Zone, k: Key, y: ZoneId)
    requires MayAddZone(db, z, row) && k in db.entries && y in db.zones[z := row]
    requires ZonePath(db.zones[z := row], k.zone) < db.zones[z := row][y].path
    ensures !(db.zones[z := row][y].path <= PathOf(db.zones[z := row], k))
  {
    NamespaceParts(db);
    AddZoneKeepsPath(db, z, row, k);
    VacantMeans(db.zones, db.entries, row.path);
    hide VacantRows, ZoneParent, PathOf, ZonePath, HasRoot, ZonePathsUnique, NamesValid, EntryParents, ZoneParents, Labelled, IdsUnique, Namespace;
  }

  lemma HomedIntro(zones: Zones, entries: Entries)
    requires forall k, z :: k in entries && z in zones && ZonePath(zones, k.zone) < zones[z].path ==>
               !(zones[z].path <= PathOf(zones, k))
    ensures Homed(zones, entries)
  {
  }

  lemma AddZoneKeepsHomes(db: Tables, z: ZoneId, row: Zone)
    requires MayAddZone(db, z, row)
    ensures Homed(db.zones[z := row], db.entries)
  {
    var zones := db.zones[z := row];
    hide *;
    forall k, y | k in db.entries && y in zones && ZonePath(zones, k.zone) < zones[y].path
      ensures !(zones[y].path <= PathOf(zones, k))
    {
      AddZoneKeepsHome(db, z, row, k, y);
    }
    HomedIntro(zones, db.entries);
  }

  lemma AddZoneKeepsNames(db: Tables, z: ZoneId, row: Zone)
    requires NamesValid(db.zones, db.entries) && ValidPath(row.path)
    ensures NamesValid(db.zones[z := row], db.entries)
  {
  }

  lemma AddZoneKeepsZone(db: Tables, z: ZoneId, row: Zone, y: ZoneId)
    requires MayAddZone(db, z, row) && y in db.zones
    ensures ZoneParent(db.zones[z := row], db.entries, db.zones[y])
    ensures db.zones[y].path != row.path
  {
    NamespaceParts(db);
    NewIdIsNoZone(db, z);
    VacantMeans(db.zones, db.entries, row.path);
    var it := db.zones[y];
    assert ZoneParent(db.zones, db.entries, it);
    hide Namespace, VacantRows, IsDirAddress, MayAddZone, ZoneParents, IdsUnique, Homed, NamesValid, PathOf;
    if it.path != [] {
      assert DropLast(it.path) <= it.path;
      AddZoneKeepsAddress(db, z, row, DropLast(it.path), it.parentZone.value, it.parentPath.value);
    }
  }

  lemma AddZoneHasParent(db: Tables, z: ZoneId, row: Zone)
    requires MayAddZone(db, z, row)
    ensures ZoneParent(db.zones[z := row], db.entries, row)
  {
    NewIdIsNoZone(db, z);
    assert !(row.path <= DropLast(row.path));
    hide Namespace, VacantRows, IsDirAddress, ZoneParents, IdsUnique, Homed, NamesValid;
    AddZoneKeepsAddress(db, z, row, DropLast(row.path), row.parentZone.value, row.parentPath.value);
  }

  lemma AddZoneKeepsIds(db: Tables, z: ZoneId, row: Zone)
    requires IdsUnique(db.zones, db.entries, db.nextId) && z >= db.nextId
    ensures IdsUnique(db.zones[z := row], db.entries, Max(db.nextId, z + 1))
  {
  }

  lemma AddZoneKeepsRoot(zones: Zones, z: ZoneId, row: Zone)
    requires HasRoot(zones) && z !in zones
    ensures HasRoot(zones[z := row])
  {
    var y :| y in zones && zones[y].path == [];
    assert y in zones[z := row] && zones[z := row][y].path == [];
  }

  lemma MayAddParts(db: Tables, z: ZoneId, row: Zone)
    requires MayAddZone(db, z, row)
    ensures Namespace(db.zones, db.entries, db.nextId) && ValidPath(row.path) && z >= db.nextId
  {
    hide Namespace, ZoneParent, VacantRows, ValidPath;
  }

  lemma AddZoneKeepsZones(db: Tables, z: ZoneId, row: Zone)
    requires MayAddZone(db, z, row) && ZonePathsUnique(db.zones) && z !in db.zones
    ensures ZoneParents(db.zones[z := row], db.entries) && ZonePathsUnique(db.zones[z := row])
  {
    hide MayAddZone, ZoneParent;
    var zones := db.zones[z := row];
    AddZoneHasParent(db, z, row);
    forall y | y in zones ensures ZoneParent(zones, db.entries, zones[y]) && (y != z ==> zones[y].path != row.path) {
      if y != z { AddZoneKeepsZone(db, z, row, y); }
    }
  }

  lemma AddZoneKeepsNamespace(db: Tables, z: ZoneId, row: Zone)
    requires MayAddZone(db, z, row)
    ensures var a := AddZone(db, z, row); Namespace(a.zones, a.entries, a.nextId)
  {
    hide HasRoot, NamesValid, Homed, EntryParents, Labelled, IdsUnique, ZoneParents, ZonePathsUnique, MayAddZone;
    MayAddParts(db, z, row);
    NamespaceParts(db);
    NewIdIsNoZone(db, z);
    AddZoneKeepsRoot(db.zones, z, row);
    AddZoneKeepsHomes(db, z, row);
    AddZoneKeepsNames(db, z, row);
    AddZoneKeepsIds(db, z, row);
    AddZoneKeepsZones(db, z, row);
  }

  lemma AddZonePathListed(db: Tables, z: ZoneId, row: Zone, q: Path)
    requires MayAddZone(db, z, row)
    requires q in AllPaths(db.zones, db.entries) || q == row.path
    ensures q in AllPaths(db.zones[z := row], db.entries)
  {
    var zones := db.zones[z := row];
    hide *;
    forall k | k in db.entries ensures PathOf(zones, k) == PathOf(db.zones, k) { AddZoneKeepsPath(db, z, row, k); }
    MayAddIsNew(db, z, row);
    if q == row.path {
      ZonePathListed(zones, db.entries, z);
    } else {
      PathStays(db.zones, db.entries, zones, db.entries, q);
    }
  }

  lemma MayAddIsNew(db: Tables, z: ZoneId, row: Zone)
    requires MayAddZone(db, z, row)
    ensures z !in db.zones
  {
    hide Namespace;
    NewIdIsNoZone(db, z);
  }

  lemma AddZoneNodes(db: Tables, z: ZoneId, row: Zone)
    requires MayAddZone(db, z, row)
    ensures forall y :: y in db.zones ==>
              db.zones[y].path in TreeOf(db) && TreeOf(db)[db.zones[y].path] == DirNode(y) && db.zones[y].path != row.path
    ensures forall k :: k in db.entries ==>
              && PathOf(db.zones, k) in TreeOf(db) && TreeOf(db)[PathOf(db.zones, k)] == NodeOf(db.store, db.entries[k])
              && PathOf(db.zones, k) != row.path && PathOf(db.zones[z := row], k) == PathOf(db.zones, k)
  {
    VacantMeans(db.zones, db.entries, row.path);
    TreeHasRows(db);
    forall k | k in db.entries ensures PathOf(db.zones[z := row], k) == PathOf(db.zones, k) {
      AddZoneKeepsPath(db, z, row, k);
    }
    hide *;
  }

  lemma AddZoneParts(db: Tables, z: ZoneId, row: Zone)
    ensures AddZone(db, z, row).zones == db.zones[z := row]
    ensures AddZone(db, z, row).entries == db.entries && AddZone(db, z, row).store == db.store
    ensures TreeOf(db).Keys == AllPaths(db.zones, db.entries)
  {
    hide AllPaths, NodeAt;
  }

  lemma AddZonePlants(db: Tables, z: ZoneId, row: Zone)
    requires MayAddZone(db, z, row)
    ensures TreeOf(AddZone(db, z, row)) == TreeOf(db)[row.path := DirNode(z)]
  {
    hide *;
    var a := AddZone(db, z, row);
    var t := TreeOf(db)[row.path := DirNode(z)];
    AddZoneKeepsNamespace(db, z, row);
    AddZoneNodes(db, z, row);
    AddZoneParts(db, z, row);
    forall q | q in t ensures q in AllPaths(a.zones, a.entries) { AddZonePathListed(db, z, row, q); }
    TreeIs(a, t);
  }
}
