/** Row-level edits of the two namespace tables and the tree edits they realise. */
module Surgery {
  import opened Basics
  import opened Paths
  import opened Tables
  import opened Trees

  // ---- The namespace invariant makes a tree ----

  lemma ParentOfEntry(db: Tables, k: Key)
    requires Namespace(db.zones, db.entries, db.nextId) && k in db.entries
    ensures var p := DropLast(PathOf(db.zones, k)); p in TreeOf(db) && TreeOf(db)[p].kind == Dir
  {
    hide TreeOf, Homed, ZoneParents, IdsUnique, Labelled, NodeAt, AllPaths;
    var a := db.zones[k.zone].path;
    assert DropLast(PathOf(db.zones, k)) == a + DropLast(k.rel);
    if |k.rel| == 1 {
      ZoneInTree(db, k.zone);
      assert a + DropLast(k.rel) == a;
    } else {
      EntryInTree(db, Key(k.zone, DropLast(k.rel)));
    }
  }

  lemma ParentOfZone(db: Tables, z: ZoneId)
    requires Namespace(db.zones, db.entries, db.nextId) && z in db.zones && db.zones[z].path != []
    ensures var p := DropLast(db.zones[z].path); p in TreeOf(db) && TreeOf(db)[p].kind == Dir
  {
    hide TreeOf, Homed, EntryParents, IdsUnique, Labelled, NodeAt, AllPaths;
    assert ZoneParent(db.zones, db.entries, db.zones[z]);
    var pz, pp := db.zones[z].parentZone.value, db.zones[z].parentPath.value;
    if pp == [] {
      ZoneInTree(db, pz);
      assert db.zones[pz].path + pp == db.zones[pz].path;
    } else {
      EntryInTree(db, Key(pz, pp));
    }
  }

  lemma PathIsRow(db: Tables, p: Path)
    requires p in TreeOf(db)
    ensures (exists z :: z in db.zones && db.zones[z].path == p) || (exists k :: k in db.entries && PathOf(db.zones, k) == p)
  {
    hide NodeAt, PathOf;
    assert p in AllPaths(db.zones, db.entries);
  }

  lemma ParentOfNode(db: Tables, p: Path)
    requires Namespace(db.zones, db.entries, db.nextId) && p in TreeOf(db) && p != []
    ensures DropLast(p) in TreeOf(db) && TreeOf(db)[DropLast(p)].kind == Dir
  {
    hide TreeOf, Namespace, PathOf;
    PathIsRow(db, p);
    if z :| z in db.zones && db.zones[z].path == p {
      ParentOfZone(db, z);
    } else {
      var k :| k in db.entries && PathOf(db.zones, k) == p;
      ParentOfEntry(db, k);
    }
  }

  lemma NodeOfRow(db: Tables, p: Path)
    requires Namespace(db.zones, db.entries, db.nextId) && p in TreeOf(db)
    ensures ValidPath(p) && TreeOf(db)[p].id < db.nextId
    ensures TreeOf(db)[p].id in db.zones ==> db.zones[TreeOf(db)[p].id].path == p
    ensures TreeOf(db)[p].id !in db.zones ==>
              exists k :: k in db.entries && PathOf(db.zones, k) == p && db.entries[k].id == TreeOf(db)[p].id
  {
    hide TreeOf, Homed, EntryParents, ZoneParents, Labelled, Denote;
    PathIsRow(db, p);
    if z :| z in db.zones && db.zones[z].path == p {
      ZoneInTree(db, z);
    } else {
      var k :| k in db.entries && PathOf(db.zones, k) == p;
      EntryInTree(db, k);
    }
  }

  lemma SameIdSamePath(db: Tables, p: Path, q: Path)
    requires Namespace(db.zones, db.entries, db.nextId) && p in TreeOf(db) && q in TreeOf(db)
    requires TreeOf(db)[p].id == TreeOf(db)[q].id
    ensures p == q
  {
    hide TreeOf, Homed, EntryParents, ZoneParents, Labelled, PathOf;
    NodeOfRow(db, p);
    NodeOfRow(db, q);
  }

  lemma RootInTree(db: Tables)
    requires Namespace(db.zones, db.entries, db.nextId)
    ensures [] in TreeOf(db) && TreeOf(db)[[]].kind == Dir
  {
    hide TreeOf, Homed, EntryParents, ZoneParents, Labelled, IdsUnique;
    var z :| z in db.zones && db.zones[z].path == [];
    ZoneInTree(db, z);
  }

  /** The rows of a valid volume stand for a well-formed tree with distinct ids. */
  lemma RowsMakeTree(db: Tables)
    requires Namespace(db.zones, db.entries, db.nextId)
    ensures IsTree(TreeOf(db))
    ensures IdsDistinct(TreeOf(db))
    ensures forall p :: p in TreeOf(db) ==> ValidPath(p) && TreeOf(db)[p].id < db.nextId
  {
    hide TreeOf, Namespace, ValidPath;
    RootInTree(db);
    forall p | p in TreeOf(db) && p != [] ensures DropLast(p) in TreeOf(db) && TreeOf(db)[DropLast(p)].kind == Dir {
      ParentOfNode(db, p);
    }
    forall p | p in TreeOf(db) ensures ValidPath(p) && TreeOf(db)[p].id < db.nextId {
      NodeOfRow(db, p);
    }
    forall p, q | p in TreeOf(db) && q in TreeOf(db) && TreeOf(db)[p].id == TreeOf(db)[q].id ensures p == q {
      SameIdSamePath(db, p, q);
    }
  }

  // ---- Deleting a subtree ----

  function DeleteRows(db: Tables, gz: set<ZoneId>, gk: set<Key>): Tables {
    db.(zones := db.zones - gz, entries := db.entries - gk)
  }

  /** The rows at or below `p`. */
  ghost predicate IsSubtreeRows(db: Tables, p: Path, gz: set<ZoneId>, gk: set<Key>) {
    && gz <= db.zones.Keys && gk <= db.entries.Keys
    && (forall z :: z in db.zones ==> (z in gz <==> p <= db.zones[z].path))
    && forall k :: k in db.entries ==> (k in gk <==> p <= PathOf(db.zones, k))
  }

  lemma DeleteKeepsPlaces(db: Tables, p: Path, gz: set<ZoneId>, gk: set<Key>)
    requires Namespace(db.zones, db.entries, db.nextId) && IsSubtreeRows(db, p, gz, gk) && p != []
    ensures var d := DeleteRows(db, gz, gk);
            && HasRoot(d.zones) && ZonePathsUnique(d.zones) && NamesValid(d.zones, d.entries)
            && (forall k :: k in d.entries ==> PathOf(d.zones, k) == PathOf(db.zones, k))
            && (forall k :: k in d.entries ==> k.zone in d.zones)
  {
    hide Homed, EntryParents, ZoneParents, Labelled, IdsUnique;
    var d := DeleteRows(db, gz, gk);
    forall k | k in d.entries ensures k.zone in d.zones {
      assert db.zones[k.zone].path <= PathOf(db.zones, k);
    }
    var z :| z in db.zones && db.zones[z].path == [];
    assert z in d.zones;
  }

  lemma DeleteKeepsHomes(db: Tables, p: Path, gz: set<ZoneId>, gk: set<Key>)
    requires Namespace(db.zones, db.entries, db.nextId) && IsSubtreeRows(db, p, gz, gk) && p != []
    ensures var d := DeleteRows(db, gz, gk); Homed(d.zones, d.entries)
  {
    DeleteKeepsPlaces(db, p, gz, gk);
    hide EntryParents, ZoneParents, IsSubtreeRows, HasRoot, NamesValid, IdsUnique, Labelled, PathOf, ZonePathsUnique;
    var d := DeleteRows(db, gz, gk);
    forall k, z | k in d.entries && z in d.zones && ZonePath(d.zones, k.zone) < d.zones[z].path
      ensures !(d.zones[z].path <= PathOf(d.zones, k))
    {
      assert k.zone in d.zones;
    }
  }

  lemma DeleteKeepsLabels(db: Tables, gz: set<ZoneId>, gk: set<Key>)
    requires Labelled(db.entries) && IdsUnique(db.zones, db.entries, db.nextId)
    ensures var d := DeleteRows(db, gz, gk); Labelled(d.entries) && IdsUnique(d.zones, d.entries, d.nextId)
  {
  }

  lemma DeleteKeepsParents(db: Tables, p: Path, gz: set<ZoneId>, gk: set<Key>)
    requires Namespace(db.zones, db.entries, db.nextId) && IsSubtreeRows(db, p, gz, gk) && p != []
    ensures EntryParents(DeleteRows(db, gz, gk).entries)
  {
    hide Homed, ZoneParents, Labelled, IdsUnique, HasRoot, ZonePathsUnique;
    var d := DeleteRows(db, gz, gk);
    forall k | k in d.entries && |k.rel| > 1 ensures IsDirectory(d.entries, Key(k.zone, DropLast(k.rel))) {
      var up := Key(k.zone, DropLast(k.rel));
      assert IsDirectory(db.entries, up);
      assert PathOf(db.zones, up) <= PathOf(db.zones, k);
    }
  }

  lemma DirAddressAfterDelete(db: Tables, p: Path, gz: set<ZoneId>, gk: set<Key>, q: Path, z: ZoneId, rel: Path)
    requires IsSubtreeRows(db, p, gz, gk) && IsDirAddress(db.zones, db.entries, q, z, rel) && !(p <= q)
    ensures var d := DeleteRows(db, gz, gk); IsDirAddress(d.zones, d.entries, q, z, rel)
  {
    var d := DeleteRows(db, gz, gk);
    assert z in d.zones && IsDeepest(d.zones, q, z);
    assert rel != [] ==> PathOf(db.zones, Key(z, rel)) == q;
  }

  lemma DeleteKeepsZoneParent(db: Tables, p: Path, gz: set<ZoneId>, gk: set<Key>, z: ZoneId)
    requires Namespace(db.zones, db.entries, db.nextId) && IsSubtreeRows(db, p, gz, gk) && p != []
    requires z in db.zones && z !in gz
    ensures ZoneParent(DeleteRows(db, gz, gk).zones, DeleteRows(db, gz, gk).entries, db.zones[z])
  {
    var row := db.zones[z];
    assert ZoneParent(db.zones, db.entries, row) && !(p <= row.path);
    hide Namespace, IsDirAddress, IsSubtreeRows;
    if row.path != [] {
      assert DropLast(row.path) <= row.path;
      DirAddressAfterDelete(db, p, gz, gk, DropLast(row.path), row.parentZone.value, row.parentPath.value);
    }
  }

  /** Deleting exactly the rows at or below a path keeps the invariant. */
  lemma DeleteKeepsNamespace(db: Tables, p: Path, gz: set<ZoneId>, gk: set<Key>)
    requires Namespace(db.zones, db.entries, db.nextId) && IsSubtreeRows(db, p, gz, gk) && p != []
    ensures var d := DeleteRows(db, gz, gk); Namespace(d.zones, d.entries, d.nextId)
  {
    DeleteKeepsPlaces(db, p, gz, gk);
    DeleteKeepsHomes(db, p, gz, gk);
    DeleteKeepsLabels(db, gz, gk);
    DeleteKeepsParents(db, p, gz, gk);
    var d := DeleteRows(db, gz, gk);
    forall z | z in d.zones ensures ZoneParent(d.zones, d.entries, d.zones[z]) {
      DeleteKeepsZoneParent(db, p, gz, gk, z);
    }
    hide HasRoot, ZonePathsUnique, NamesValid, Homed, EntryParents, ZoneParent, Labelled, IdsUnique, IsSubtreeRows;
  }

  lemma RemainingPath(db: Tables, p: Path, gz: set<ZoneId>, gk: set<Key>, q: Path)
    requires IsSubtreeRows(db, p, gz, gk)
    requires q in AllPaths(db.zones, db.entries) && !(p <= q)
    requires forall k :: k in db.entries && k !in gk ==> PathOf(db.zones - gz, k) == PathOf(db.zones, k)
    ensures q in AllPaths(db.zones - gz, db.entries - gk)
  {
    hide PathOf;
    if z :| z in db.zones && db.zones[z].path == q {
      assert z in db.zones - gz;
    } else {
      var k :| k in db.entries && PathOf(db.zones, k) == q;
      assert k in db.entries - gk;
    }
  }

  lemma RemainingIsOutside(db: Tables, p: Path, gz: set<ZoneId>, gk: set<Key>, q: Path)
    requires IsSubtreeRows(db, p, gz, gk)
    requires q in AllPaths(db.zones - gz, db.entries - gk)
    requires forall k :: k in db.entries && k !in gk ==> PathOf(db.zones - gz, k) == PathOf(db.zones, k)
    ensures q in AllPaths(db.zones, db.entries) && !(p <= q)
  {
    hide PathOf;
    if z :| z in db.zones - gz && db.zones[z].path == q {
      assert z in db.zones;
    } else {
      var k :| k in db.entries - gk && PathOf(db.zones - gz, k) == q;
      assert k in db.entries;
    }
  }

  lemma DeletePrunesPath(db: Tables, p: Path, gz: set<ZoneId>, gk: set<Key>, q: Path)
    requires Namespace(db.zones, db.entries, db.nextId) && IsSubtreeRows(db, p, gz, gk) && p != []
    ensures var d := DeleteRows(db, gz, gk);
            q in AllPaths(d.zones, d.entries) <==> q in AllPaths(db.zones, db.entries) && !(p <= q)
  {
    DeleteKeepsPlaces(db, p, gz, gk);
    hide Namespace, PathOf, HasRoot, ZonePathsUnique, NamesValid, AllPaths, IsSubtreeRows;
    if q in AllPaths(db.zones - gz, db.entries - gk) {
      RemainingIsOutside(db, p, gz, gk, q);
    }
    if q in AllPaths(db.zones, db.entries) && !(p <= q) {
      RemainingPath(db, p, gz, gk, q);
    }
  }

  lemma DeletePrunesPaths(db: Tables, p: Path, gz: set<ZoneId>, gk: set<Key>)
    requires Namespace(db.zones, db.entries, db.nextId) && IsSubtreeRows(db, p, gz, gk) && p != []
    ensures var d := DeleteRows(db, gz, gk);
            AllPaths(d.zones, d.entries) == set q | q in AllPaths(db.zones, db.entries) && !(p <= q)
  {
    hide *;
    forall q { DeletePrunesPath(db, p, gz, gk, q); }
  }

  /** Deleting exactly the rows at or below a path prunes the tree there. */
  lemma DeletePrunes(db: Tables, p: Path, gz: set<ZoneId>, gk: set<Key>)
    requires Namespace(db.zones, db.entries, db.nextId) && IsSubtreeRows(db, p, gz, gk) && p != []
    ensures TreeOf(DeleteRows(db, gz, gk)) == Pruned(TreeOf(db), p)
  {
    var d := DeleteRows(db, gz, gk);
    var t := Pruned(TreeOf(db), p);
    DeleteKeepsPlaces(db, p, gz, gk);
    DeleteKeepsNamespace(db, p, gz, gk);
    DeletePrunesPaths(db, p, gz, gk);
    TreeHasRows(db);
    hide Namespace, TreeOf, PathOf, AllPaths, NodeOf, DirNode, HasRoot, ZonePathsUnique, NamesValid;
    TreeIs(d, t);
  }

  lemma RowLeft(db: Tables, gz: set<ZoneId>, gk: set<Key>, q: Path)
    requires NamesValid(db.zones, db.entries) && q in AllPaths(db.zones - gz, db.entries - gk)
    requires forall k :: k in db.entries && k.zone in gz ==> k in gk
    ensures || (exists z :: z in db.zones && z !in gz && db.zones[z].path == q)
            || (exists k :: k in db.entries && k !in gk && PathOf(db.zones, k) == q)
  {
    if z :| z in db.zones - gz && (db.zones - gz)[z].path == q {
      assert z in db.zones && z !in gz;
    } else {
      var k :| k in db.entries - gk && PathOf(db.zones - gz, k) == q;
      assert k in db.entries && k !in gk && k.zone in db.zones && k.zone !in gz;
    }
  }

  /** A zone that stays is left in the tree, one that goes is not. */
  lemma ZoneLeft(db: Tables, gz: set<ZoneId>, gk: set<Key>, z: ZoneId)
    requires Namespace(db.zones, db.entries, db.nextId) && z in db.zones
    requires forall k :: k in db.entries && k.zone in gz ==> k in gk
    ensures db.zones[z].path in AllPaths(db.zones - gz, db.entries - gk) <==> z !in gz
  {
    hide EntryParents, ZoneParents, Labelled, IdsUnique, HasRoot, PathOf, Homed, NamesValid, AllPaths;
    var q := db.zones[z].path;
    if z !in gz {
      assert z in db.zones - gz;
      ZonePathListed(db.zones - gz, db.entries - gk, z);
    } else if q in AllPaths(db.zones - gz, db.entries - gk) {
      RowLeft(db, gz, gk, q);
      forall k | k in db.entries ensures PathOf(db.zones, k) != q { EntryIsNotZone(db.zones, db.entries, k, z); }
    }
  }

  lemma EntryStays(db: Tables, gz: set<ZoneId>, gk: set<Key>, k: Key)
    requires NamesValid(db.zones, db.entries) && k in db.entries && k !in gk
    requires forall k :: k in db.entries && k.zone in gz ==> k in gk
    ensures PathOf(db.zones, k) in AllPaths(db.zones - gz, db.entries - gk)
  {
    hide AllPaths;
    assert k.zone in db.zones - gz && k in db.entries - gk;
    EntryPathListed(db.zones - gz, db.entries - gk, k);
  }

  /** So is an entry. */
  lemma EntryLeft(db: Tables, gz: set<ZoneId>, gk: set<Key>, k: Key)
    requires Namespace(db.zones, db.entries, db.nextId) && k in db.entries
    requires forall k :: k in db.entries && k.zone in gz ==> k in gk
    ensures PathOf(db.zones, k) in AllPaths(db.zones - gz, db.entries - gk) <==> k !in gk
  {
    hide EntryParents, ZoneParents, Labelled, IdsUnique, HasRoot, NamesValid, AllPaths, PathOf, Homed;
    var q := PathOf(db.zones, k);
    if k !in gk {
      EntryStays(db, gz, gk, k);
    } else if q in AllPaths(db.zones - gz, db.entries - gk) {
      RowLeft(db, gz, gk, q);
      forall z | z in db.zones ensures db.zones[z].path != q { EntryIsNotZone(db.zones, db.entries, k, z); }
      forall j | j in db.entries && PathOf(db.zones, j) == q ensures j == k { PathsUnique(db.zones, db.entries, j, k); }
    }
  }

  /** Rows deleted together with the entries of their zones prune the tree at a path only if they
      are the rows at or below it. */
  lemma PruningRowsAreSubtree(db: Tables, p: Path, gz: set<ZoneId>, gk: set<Key>)
    requires Namespace(db.zones, db.entries, db.nextId) && gz <= db.zones.Keys && gk <= db.entries.Keys
    requires forall k :: k in db.entries && k.zone in gz ==> k in gk
    requires TreeOf(DeleteRows(db, gz, gk)).Keys == Pruned(TreeOf(db), p).Keys
    ensures IsSubtreeRows(db, p, gz, gk)
  {
    var d := DeleteRows(db, gz, gk);
    assert TreeOf(d).Keys == AllPaths(db.zones - gz, db.entries - gk);
    assert forall q :: q in Pruned(TreeOf(db), p) <==> q in TreeOf(db) && !(p <= q);
    hide *;
    forall z | z in db.zones ensures z in gz <==> p <= db.zones[z].path {
      ZoneLeft(db, gz, gk, z);
      TreeHasRows(db);
    }
    forall k | k in db.entries ensures k in gk <==> p <= PathOf(db.zones, k) {
      EntryLeft(db, gz, gk, k);
      TreeHasRows(db);
    }
    SubtreeRowsIntro(db, p, gz, gk);
  }

  lemma SubtreeRowsIntro(db: Tables, p: Path, gz: set<ZoneId>, gk: set<Key>)
    requires gz <= db.zones.Keys && gk <= db.entries.Keys
    requires forall z :: z in db.zones ==> (z in gz <==> p <= db.zones[z].path)
    requires forall k :: k in db.entries ==> (k in gk <==> p <= PathOf(db.zones, k))
    ensures IsSubtreeRows(db, p, gz, gk)
  {
    hide PathOf;
  }

  lemma {:induction false} ImageCard<A, B>(s: set<A>, f: A -> B, image: set<B>)
    requires forall a, b :: a in s && b in s && f(a) == f(b) ==> a == b
    requires image == set a | a in s :: f(a)
    ensures |image| == |s|
    decreases s
  {
    if s != {} {
      var a :| a in s;
      ImageCard(s - {a}, f, image - {f(a)});
    }
  }

  ghost function PathsOfZones(zones: Zones, gz: set<ZoneId>): set<Path> { set z | z in gz :: ZonePath(zones, z) }

  ghost function PathsOfKeys(zones: Zones, gk: set<Key>): set<Path> { set k | k in gk :: PathOf(zones, k) }

  lemma SubtreeIsRowPaths(db: Tables, p: Path, gz: set<ZoneId>, gk: set<Key>)
    requires IsSubtreeRows(db, p, gz, gk)
    ensures Subtree(TreeOf(db), p) == PathsOfZones(db.zones, gz) + PathsOfKeys(db.zones, gk)
  {
    assert TreeOf(db).Keys == AllPaths(db.zones, db.entries);
    hide TreeOf, PathOf;
  }

  /** The rows at or below a path are as many as the nodes there. */
  lemma SubtreeRowsCount(db: Tables, p: Path, gz: set<ZoneId>, gk: set<Key>)
    requires Namespace(db.zones, db.entries, db.nextId) && IsSubtreeRows(db, p, gz, gk)
    ensures |gz| + |gk| == |Subtree(TreeOf(db), p)|
  {
    hide EntryParents, ZoneParents, Labelled, IdsUnique, HasRoot, PathOf, Homed, NamesValid, TreeOf;
    var zs, ks := PathsOfZones(db.zones, gz), PathsOfKeys(db.zones, gk);
    ImageCard(gz, (z: ZoneId) => ZonePath(db.zones, z), zs);
    forall j, k | j in gk && k in gk && PathOf(db.zones, j) == PathOf(db.zones, k) ensures j == k {
      PathsUnique(db.zones, db.entries, j, k);
    }
    ImageCard(gk, (k: Key) => PathOf(db.zones, k), ks);
    forall z, k | z in gz && k in gk ensures PathOf(db.zones, k) != ZonePath(db.zones, z) {
      EntryIsNotZone(db.zones, db.entries, k, z);
    }
    assert zs !! ks;
    SubtreeIsRowPaths(db, p, gz, gk);
  }
}
