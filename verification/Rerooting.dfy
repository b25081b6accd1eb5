/** Re-rooting a zone subtree by rewriting the paths of its zones. */
module Rerooting {
  import opened Basics
  import opened Paths
  import opened Tables
  import opened Trees
  import opened Grafting

  /** A path with its leading `s` replaced by `d`, if it has it. */
  function Rerooted(p: Path, s: Path, d: Path): Path { if s <= p then d + p[|s|..] else p }

  /** The zone at `s` moves to `d`, below the directory `(dz, rel)`; its nested zones follow. */
  function RerootZones(zones: Zones, s: Path, d: Path, sz: ZoneId, dz: ZoneId, rel: Path): Zones
    requires d != []
  {
    map z | z in zones ::
      zones[z].(path := Rerooted(zones[z].path, s, d),
                parentZone := if z == sz then Some(dz) else zones[z].parentZone,
                parentPath := if z == sz then Some(rel) else zones[z].parentPath,
                name := if z == sz then Last(d) else zones[z].name)
  }

  ghost predicate MayReroot(db: Tables, s: Path, d: Path, sz: ZoneId, dz: ZoneId, rel: Path) {
    && Namespace(db.zones, db.entries, db.nextId)
    && sz in db.zones && db.zones[sz].path == s && s != []
    && d != [] && ValidPath(d) && !(s <= d)
    && IsDirAddress(db.zones, db.entries, DropLast(d), dz, rel)
    && VacantRows(db.zones, db.entries, d)
  }

  lemma RerootParts(db: Tables, s: Path, d: Path, sz: ZoneId, dz: ZoneId, rel: Path)
    requires MayReroot(db, s, d, sz, dz, rel)
    ensures Namespace(db.zones, db.entries, db.nextId)
    ensures HasRoot(db.zones) && ZonePathsUnique(db.zones) && NamesValid(db.zones, db.entries)
    ensures Homed(db.zones, db.entries) && EntryParents(db.entries) && ZoneParents(db.zones, db.entries)
    ensures Labelled(db.entries) && IdsUnique(db.zones, db.entries, db.nextId)
    ensures sz in db.zones && db.zones[sz].path == s && s != []
    ensures d != [] && ValidPath(d) && !(s <= d) && IsDirAddress(db.zones, db.entries, DropLast(d), dz, rel)
    ensures forall z :: z in db.zones ==> !(d <= db.zones[z].path)
    ensures forall k :: k in db.entries ==> !(d <= PathOf(db.zones, k))
    ensures forall k :: k in db.entries ==> k.zone in db.zones
  {
    hide ValidPath, Homed, EntryParents, ZoneParents, Labelled, IdsUnique, VacantRows, IsDirAddress, PathOf, ZonePathsUnique, HasRoot;
    VacantMeans(db.zones, db.entries, d);
  }

  // ---- Prefix arithmetic ----

  lemma RerootedInside(p: Path, s: Path, d: Path, q: Path)
    requires s <= p
    ensures d <= Rerooted(p, s, d) && Rerooted(p, s, d)[|d|..] == p[|s|..]
    ensures |Rerooted(p, s, d)| - |d| == |p| - |s|
    ensures s <= q ==> (Rerooted(p, s, d) <= Rerooted(q, s, d) <==> p <= q)
    ensures s <= q && Rerooted(p, s, d) == Rerooted(q, s, d) ==> p == q
    ensures s < p ==> Rerooted(DropLast(p), s, d) == DropLast(Rerooted(p, s, d)) && s <= DropLast(p)
  {
    var a, b := Rerooted(p, s, d), Rerooted(q, s, d);
    assert p == s + p[|s|..];
    if s <= q {
      assert q == s + q[|s|..] && b[|d|..] == q[|s|..];
      if p <= q {
        assert p[|s|..] == q[|s|..][..|p| - |s|];
        assert a == b[..|a|];
      }
      if a <= b {
        assert a[|d|..] == b[|d|..][..|a| - |d|];
        assert p == q[..|p|];
      }
    }
    if s < p {
      assert DropLast(p)[|s|..] == DropLast(p[|s|..]);
    }
  }

  lemma PrefixesCompare(a: Path, b: Path, p: Path)
    requires a <= p && b <= p
    ensures |a| <= |b| ==> a <= b
    ensures |b| <= |a| ==> b <= a
    ensures |a| == |b| ==> a == b
  {
    assert a == p[..|a|] && b == p[..|b|];
  }

  lemma OutsidePrefix(q: Path, d: Path, p: Path)
    requires !(d <= q) && d <= p && q <= p && d != []
    ensures |q| < |d| && q <= DropLast(d)
  {
    PrefixesCompare(q, d, p);
    assert q == d[..|q|];
  }

  // ---- Each row after re-rooting ----

  lemma RerootedAppend(a: Path, r: Path, s: Path, d: Path)
    requires s <= a <==> s <= a + r
    ensures Rerooted(a, s, d) + r == Rerooted(a + r, s, d)
  {
    if s <= a {
      assert (a + r)[|s|..] == a[|s|..] + r;
    }
  }

  lemma EntryInsideMeansZoneInside(db: Tables, s: Path, sz: ZoneId, k: Key)
    requires Homed(db.zones, db.entries) && k in db.entries && k.zone in db.zones
    requires sz in db.zones && db.zones[sz].path == s
    ensures s <= PathOf(db.zones, k) <==> s <= ZonePath(db.zones, k.zone)
  {
    var a, p := db.zones[k.zone].path, PathOf(db.zones, k);
    assert a <= p;
    if s <= p { PrefixesCompare(a, s, p); }
  }

  /** An entry is inside the moved subtree exactly when its zone is. */
  lemma EntryFollowsZone(db: Tables, s: Path, d: Path, sz: ZoneId, dz: ZoneId, rel: Path, k: Key)
    requires MayReroot(db, s, d, sz, dz, rel) && k in db.entries
    ensures s <= PathOf(db.zones, k) <==> s <= ZonePath(db.zones, k.zone)
    ensures PathOf(RerootZones(db.zones, s, d, sz, dz, rel), k) == Rerooted(PathOf(db.zones, k), s, d)
  {
    hide MayReroot, Namespace, EntryParents, ZoneParents, Labelled, IdsUnique, IsDirAddress, NamesValid, ValidPath, ZonePathsUnique, HasRoot, Homed, Rerooted;
    RerootParts(db, s, d, sz, dz, rel);
    EntryInsideMeansZoneInside(db, s, sz, k);
    RerootedAppend(db.zones[k.zone].path, k.rel, s, d);
  }

  lemma RerootKeepsHome(db: Tables, s: Path, d: Path, sz: ZoneId, dz: ZoneId, rel: Path, k: Key, y: ZoneId)
    requires MayReroot(db, s, d, sz, dz, rel) && k in db.entries && y in db.zones
    requires var zones := RerootZones(db.zones, s, d, sz, dz, rel); ZonePath(zones, k.zone) < zones[y].path
    ensures var zones := RerootZones(db.zones, s, d, sz, dz, rel); !(zones[y].path <= PathOf(zones, k))
  {
    hide MayReroot, Namespace, EntryParents, ZoneParents, Labelled, IdsUnique, IsDirAddress, NamesValid, ValidPath, PathOf, ZonePathsUnique, HasRoot;
    RerootParts(db, s, d, sz, dz, rel);
    EntryFollowsZone(db, s, d, sz, dz, rel, k);
    var a, q, p := db.zones[k.zone].path, db.zones[y].path, PathOf(db.zones, k);
    assert a < q ==> !(q <= p);
    hide Homed;
    if s <= a { RerootedInside(a, s, d, q); }
    if s <= q { RerootedInside(q, s, d, p); }
  }

  lemma RerootKeepsHomes(db: Tables, s: Path, d: Path, sz: ZoneId, dz: ZoneId, rel: Path)
    requires MayReroot(db, s, d, sz, dz, rel)
    ensures Homed(RerootZones(db.zones, s, d, sz, dz, rel), db.entries)
  {
    hide MayReroot, ZonePath, PathOf, Rerooted;
    RerootParts(db, s, d, sz, dz, rel);
    var zones := RerootZones(db.zones, s, d, sz, dz, rel);
    assert zones.Keys == db.zones.Keys;
    hide *;
    forall k, y | k in db.entries && y in zones && ZonePath(zones, k.zone) < zones[y].path
      ensures !(zones[y].path <= PathOf(zones, k))
    {
      RerootKeepsHome(db, s, d, sz, dz, rel, k, y);
    }
    HomedIntro(zones, db.entries);
  }

  lemma RerootKeepsPaths(db: Tables, s: Path, d: Path, sz: ZoneId, dz: ZoneId, rel: Path)
    requires MayReroot(db, s, d, sz, dz, rel)
    ensures var zones := RerootZones(db.zones, s, d, sz, dz, rel);
            ZonePathsUnique(zones) && HasRoot(zones) && NamesValid(zones, db.entries)
  {
    hide MayReroot, Namespace, EntryParents, ZoneParents, Labelled, IdsUnique, IsDirAddress, PathOf, Homed;
    RerootParts(db, s, d, sz, dz, rel);
    var zones := RerootZones(db.zones, s, d, sz, dz, rel);
    forall a, b | a in zones && b in zones && zones[a].path == zones[b].path ensures a == b {
      var p, q := db.zones[a].path, db.zones[b].path;
      if s <= p { RerootedInside(p, s, d, q); }
      if s <= q { RerootedInside(q, s, d, p); }
    }
    var z :| z in db.zones && db.zones[z].path == [];
    assert z in zones && zones[z].path == [];
  }

  /** The directory addresses of paths outside the subtree stay. */
  lemma AddressOutside(db: Tables, s: Path, d: Path, sz: ZoneId, dz: ZoneId, rel: Path, p: Path, z: ZoneId, r: Path)
    requires MayReroot(db, s, d, sz, dz, rel)
    requires IsDirAddress(db.zones, db.entries, p, z, r) && !(s <= p) && !(d <= p)
    ensures IsDirAddress(RerootZones(db.zones, s, d, sz, dz, rel), db.entries, p, z, r)
  {
    hide MayReroot, Namespace, EntryParents, ZoneParents, Labelled, IdsUnique, PathOf, Homed, NamesValid, ValidPath, ZonePathsUnique, HasRoot;
    RerootParts(db, s, d, sz, dz, rel);
    var zones := RerootZones(db.zones, s, d, sz, dz, rel);
    assert !(s <= db.zones[z].path);
    forall y | y in zones && zones[y].path <= p ensures |zones[y].path| <= |zones[z].path| {
      var q := db.zones[y].path;
      if s <= q { RerootedInside(q, s, d, q); }
    }
  }

  lemma RerootedAddress(a: Path, r: Path, s: Path, d: Path)
    requires s <= a
    ensures s <= a + r && Rerooted(a + r, s, d) == Rerooted(a, s, d) + r
  {
    assert (a + r)[|s|..] == a[|s|..] + r;
  }

  /** A zone above a re-rooted path of the subtree is no longer than the re-rooted zone of it. */
  lemma ZoneAboveInside(q: Path, a: Path, p: Path, s: Path, d: Path)
    requires s <= a <= p && d != [] && !(d <= q)
    requires q <= p ==> |q| <= |a|
    requires Rerooted(q, s, d) <= Rerooted(p, s, d)
    ensures |Rerooted(q, s, d)| <= |Rerooted(a, s, d)|
  {
    RerootedInside(a, s, d, p);
    if s <= q {
      RerootedInside(q, s, d, p);
    } else {
      RerootedInside(p, s, d, p);
      OutsidePrefix(q, d, Rerooted(p, s, d));
    }
  }

  lemma DeepestInside(db: Tables, s: Path, d: Path, sz: ZoneId, dz: ZoneId, rel: Path, p: Path, z: ZoneId)
    requires MayReroot(db, s, d, sz, dz, rel)
    requires IsDeepest(db.zones, p, z) && s <= db.zones[z].path
    ensures IsDeepest(RerootZones(db.zones, s, d, sz, dz, rel), Rerooted(p, s, d), z)
  {
    hide MayReroot, Rerooted, Homed, EntryParents, ZoneParents, Labelled, IdsUnique, HasRoot, ZonePathsUnique, NamesValid, Namespace, ValidPath, IsDirAddress, PathOf;
    RerootParts(db, s, d, sz, dz, rel);
    var zones := RerootZones(db.zones, s, d, sz, dz, rel);
    RerootedInside(db.zones[z].path, s, d, p);
    forall y | y in zones && zones[y].path <= Rerooted(p, s, d) ensures |zones[y].path| <= |zones[z].path| {
      ZoneAboveInside(db.zones[y].path, db.zones[z].path, p, s, d);
    }
  }

  lemma MovedZoneInside(db: Tables, s: Path, d: Path, sz: ZoneId, dz: ZoneId, rel: Path, p: Path, z: ZoneId)
    requires MayReroot(db, s, d, sz, dz, rel) && IsDeepest(db.zones, p, z) && s <= p
    ensures s <= db.zones[z].path
  {
    hide MayReroot;
    RerootParts(db, s, d, sz, dz, rel);
    PrefixesCompare(s, db.zones[z].path, p);
  }

  /** The directory addresses of paths inside the subtree are those of the re-rooted paths. */
  lemma AddressInside(db: Tables, s: Path, d: Path, sz: ZoneId, dz: ZoneId, rel: Path, p: Path, z: ZoneId, r: Path)
    requires MayReroot(db, s, d, sz, dz, rel)
    requires IsDirAddress(db.zones, db.entries, p, z, r) && s <= p
    ensures IsDirAddress(RerootZones(db.zones, s, d, sz, dz, rel), db.entries, Rerooted(p, s, d), z, r)
  {
    hide MayReroot, IsDeepest, Rerooted;
    MovedZoneInside(db, s, d, sz, dz, rel, p, z);
    DeepestInside(db, s, d, sz, dz, rel, p, z);
    DeepestListed(db.zones, p, z);
    RerootedAddress(db.zones[z].path, r, s, d);
    RerootParts(db, s, d, sz, dz, rel);
  }

  lemma DeepestListed(zones: Zones, p: Path, z: ZoneId)
    requires IsDeepest(zones, p, z)
    ensures z in zones && zones[z].path <= p
  {
  }

  lemma RerootKeepsZoneParent(db: Tables, s: Path, d: Path, sz: ZoneId, dz: ZoneId, rel: Path, z: ZoneId)
    requires MayReroot(db, s, d, sz, dz, rel) && z in db.zones
    ensures var zones := RerootZones(db.zones, s, d, sz, dz, rel); ZoneParent(zones, db.entries, zones[z])
  {
    hide MayReroot, Namespace, EntryParents, Labelled, IdsUnique, PathOf, Homed, NamesValid, ValidPath, IsDirAddress, HasRoot;
    RerootParts(db, s, d, sz, dz, rel);
    var row := db.zones[z];
    assert ZoneParent(db.zones, db.entries, row);
    hide ZoneParents;
    if z == sz {
      assert !(s <= DropLast(d)) by { assert DropLast(d) <= d; }
      assert Rerooted(s, s, d) == d;
      AddressOutside(db, s, d, sz, dz, rel, DropLast(d), dz, rel);
    } else if s <= row.path {
      assert row.path != s by { assert ZonePathsUnique(db.zones); }
      RerootedInside(row.path, s, d, row.path);
      AddressInside(db, s, d, sz, dz, rel, DropLast(row.path), row.parentZone.value, row.parentPath.value);
    } else if row.path != [] {
      assert DropLast(row.path) <= row.path;
      AddressOutside(db, s, d, sz, dz, rel, DropLast(row.path), row.parentZone.value, row.parentPath.value);
    }
  }

  lemma RerootKeepsIds(db: Tables, s: Path, d: Path, sz: ZoneId, dz: ZoneId, rel: Path)
    requires IdsUnique(db.zones, db.entries, db.nextId) && d != []
    ensures IdsUnique(RerootZones(db.zones, s, d, sz, dz, rel), db.entries, db.nextId)
    ensures RerootZones(db.zones, s, d, sz, dz, rel).Keys == db.zones.Keys
  {
    hide Rerooted;
  }

  /** Re-rooting a zone subtree keeps the invariant. */
  lemma RerootKeepsNamespace(db: Tables, s: Path, d: Path, sz: ZoneId, dz: ZoneId, rel: Path)
    requires MayReroot(db, s, d, sz, dz, rel)
    ensures Namespace(RerootZones(db.zones, s, d, sz, dz, rel), db.entries, db.nextId)
  {
    hide MayReroot, EntryParents, Labelled, IdsUnique, PathOf, Homed, NamesValid, ValidPath, IsDirAddress, HasRoot, ZonePathsUnique, RerootZones, ZoneParent;
    RerootParts(db, s, d, sz, dz, rel);
    RerootKeepsPaths(db, s, d, sz, dz, rel);
    RerootKeepsHomes(db, s, d, sz, dz, rel);
    RerootKeepsIds(db, s, d, sz, dz, rel);
    forall z | z in db.zones
      ensures var zones := RerootZones(db.zones, s, d, sz, dz, rel); ZoneParent(zones, db.entries, zones[z])
    {
      RerootKeepsZoneParent(db, s, d, sz, dz, rel, z);
    }
  }

  // ---- The tree after re-rooting ----

  lemma RerootedNode(t: Tree, s: Path, d: Path, p: Path)
    requires p in t && Vacant(t, d)
    ensures var u := Grafted(Pruned(t, s), d, Extract(t, s)); Rerooted(p, s, d) in u && u[Rerooted(p, s, d)] == t[p]
  {
    hide Extract, Planted;
    var q := Rerooted(p, s, d);
    PlantedAt(d, Extract(t, s), q);
    if s <= p {
      RerootedInside(p, s, d, p);
      ExtractAt(t, s, p[|s|..]);
      assert s + p[|s|..] == p;
    }
  }

  lemma RerootedPreimage(t: Tree, s: Path, d: Path, q: Path)
    requires q in Grafted(Pruned(t, s), d, Extract(t, s))
    ensures exists p :: p in t && q == Rerooted(p, s, d)
  {
    hide Extract, Planted;
    PlantedAt(d, Extract(t, s), q);
    if d <= q && q[|d|..] in Extract(t, s) {
      ExtractAt(t, s, q[|d|..]);
      assert (s + q[|d|..])[|s|..] == q[|d|..];
      assert q == Rerooted(s + q[|d|..], s, d);
    } else {
      assert q == Rerooted(q, s, d);
    }
  }

  lemma RerootedPathListed(db: Tables, s: Path, d: Path, sz: ZoneId, dz: ZoneId, rel: Path, p: Path)
    requires MayReroot(db, s, d, sz, dz, rel) && p in AllPaths(db.zones, db.entries)
    ensures Rerooted(p, s, d) in AllPaths(RerootZones(db.zones, s, d, sz, dz, rel), db.entries)
  {
    hide MayReroot, PathOf, Rerooted, Homed, EntryParents, ZoneParents, Labelled, IdsUnique, HasRoot, ZonePathsUnique, NamesValid, Namespace, ValidPath, IsDirAddress;
    RerootParts(db, s, d, sz, dz, rel);
    var zones := RerootZones(db.zones, s, d, sz, dz, rel);
    if z :| z in db.zones && db.zones[z].path == p {
      hide AllPaths;
      ZonePathListed(zones, db.entries, z);
    } else {
      var k :| k in db.entries && PathOf(db.zones, k) == p;
      hide AllPaths, RerootZones;
      EntryFollowsZone(db, s, d, sz, dz, rel, k);
      EntryPathListed(zones, db.entries, k);
    }
  }

  lemma VacantTree(db: Tables, p: Path)
    requires VacantRows(db.zones, db.entries, p)
    ensures Vacant(TreeOf(db), p)
  {
    hide AllPaths, NodeAt;
  }

  lemma RerootRows(db: Tables, s: Path, d: Path, sz: ZoneId, dz: ZoneId, rel: Path)
    requires MayReroot(db, s, d, sz, dz, rel)
    ensures var zones, t := RerootZones(db.zones, s, d, sz, dz, rel), TreeOf(db);
            var u := Grafted(Pruned(t, s), d, Extract(t, s));
            && (forall z :: z in zones ==> zones[z].path in u && u[zones[z].path] == DirNode(z))
            && (forall k :: k in db.entries ==>
                  PathOf(zones, k) in u && u[PathOf(zones, k)] == NodeOf(db.store, db.entries[k]))
  {
    hide MayReroot, Namespace, PathOf, TreeOf, AllPaths, NodeOf, DirNode, Extract, Planted, Grafted, Pruned, Vacant, VacantRows, ValidPath,
         Rerooted, Homed, EntryParents, ZoneParents, Labelled, IdsUnique, IsDirAddress, HasRoot, ZonePathsUnique, NamesValid;
    RerootParts(db, s, d, sz, dz, rel);
    TreeHasRows(db);
    assert VacantRows(db.zones, db.entries, d) by { MayRerootIsVacant(db, s, d, sz, dz, rel); }
    VacantTree(db, d);
    var zones, t := RerootZones(db.zones, s, d, sz, dz, rel), TreeOf(db);
    var u := Grafted(Pruned(t, s), d, Extract(t, s));
    forall z | z in zones ensures zones[z].path in u && u[zones[z].path] == DirNode(z) {
      RerootedNode(t, s, d, db.zones[z].path);
    }
    forall k | k in db.entries ensures PathOf(zones, k) in u && u[PathOf(zones, k)] == NodeOf(db.store, db.entries[k]) {
      EntryFollowsZone(db, s, d, sz, dz, rel, k);
      RerootedNode(t, s, d, PathOf(db.zones, k));
    }
  }

  lemma MayRerootIsVacant(db: Tables, s: Path, d: Path, sz: ZoneId, dz: ZoneId, rel: Path)
    requires MayReroot(db, s, d, sz, dz, rel)
    ensures VacantRows(db.zones, db.entries, d)
  {
  }

  /** Re-rooting the zone rows re-roots the tree: the subtree keeps its nodes, ids included. */
  lemma RerootMoves(db: Tables, s: Path, d: Path, sz: ZoneId, dz: ZoneId, rel: Path)
    requires MayReroot(db, s, d, sz, dz, rel)
    ensures TreeOf(db.(zones := RerootZones(db.zones, s, d, sz, dz, rel))) ==
            Grafted(Pruned(TreeOf(db), s), d, Extract(TreeOf(db), s))
  {
    hide *;
    var t := TreeOf(db);
    var u := Grafted(Pruned(t, s), d, Extract(t, s));
    RerootParts(db, s, d, sz, dz, rel);
    var a := db.(zones := RerootZones(db.zones, s, d, sz, dz, rel));
    RerootKeepsNamespace(db, s, d, sz, dz, rel);
    RerootRows(db, s, d, sz, dz, rel);
    TreeHasRows(db);
    forall q | q in u ensures q in AllPaths(a.zones, a.entries) {
      RerootedPreimage(t, s, d, q);
      var p :| p in t && q == Rerooted(p, s, d);
      RerootedPathListed(db, s, d, sz, dz, rel, p);
    }
    TreeIs(a, u);
  }
}
