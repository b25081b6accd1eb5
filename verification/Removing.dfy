/** remove: it deletes exactly the subtree, counts its nodes, and leaves no unreferenced segment. */
module Removing {
  import opened Basics
  import opened Paths
  import opened Tables
  import opened Trees
  import opened Surgery
  import opened Grafting
  import opened Content
  import opened Commands
  import opened Addresses
  import opened Creating

  /** A directory of the tree has a child. */
  ghost predicate HasChild(t: Tree, p: Path) { exists q :: q in t && q != [] && DropLast(q) == p }

  lemma ChildOfDescendant(t: Tree, p: Path, q: Path)
    requires IsTree(t) && q in t && p < q
    ensures HasChild(t, p)
  {
    var c := q[..|p| + 1];
    AncestorsExist(t, c, q);
    assert DropLast(c) == p;
  }

  lemma LeafSubtree(t: Tree, p: Path)
    requires IsTree(t) && p in t && !HasChild(t, p)
    ensures forall q :: q in t && p <= q ==> q == p
  {
    forall q | q in t && p <= q ensures q == p {
      if q != p { ChildOfDescendant(t, p, q); }
    }
  }

  /** The canonical address of an entry's parent is its zone and its recorded parent path. */
  lemma EntryParentAddress(db: Tables, k: Key)
    requires Namespace(db.zones, db.entries, db.nextId) && k in db.entries
    ensures HasRoot(db.zones) && PathOf(db.zones, k) != []
    ensures Locate(db.zones, DropLast(PathOf(db.zones, k))) == Location(k.zone, DropLast(k.rel))
    ensures db.entries[k].parentPath == DropLast(k.rel)
  {
    hide Locate, EntryParents, ZoneParents, IdsUnique, PathOf, Homed;
    EntryParentLocated(db, k);
    EntryKeyParts(db.zones, PathOf(db.zones, k), k);
  }

  lemma EntryKeyParts(zones: Zones, p: Path, k: Key)
    requires HasRoot(zones) && p != [] && EntryKey(zones, p) == k
    ensures k.rel != [] && Locate(zones, DropLast(p)) == Location(k.zone, DropLast(k.rel))
  {
    hide Locate;
    var l := Locate(zones, DropLast(p));
    assert DropLast(l.rel + [Last(p)]) == l.rel;
  }

  lemma ZoneParentAddress(db: Tables, z: ZoneId)
    requires Namespace(db.zones, db.entries, db.nextId) && z in db.zones && db.zones[z].path != []
    ensures HasRoot(db.zones)
    ensures var l := Locate(db.zones, DropLast(db.zones[z].path));
            db.zones[z].parentZone == Some(l.zone) && db.zones[z].parentPath == Some(l.rel)
  {
    hide Locate, Homed, EntryParents, Labelled, IdsUnique, IsDeepest, NamesValid;
    NamespaceParts(db);
    var row := db.zones[z];
    assert ZoneParent(db.zones, db.entries, row);
    LocateIsCanonical(db.zones, DropLast(row.path), row.parentZone.value, row.parentPath.value);
  }

  lemma LocateInjective(zones: Zones, p: Path, q: Path)
    requires HasRoot(zones) && Locate(zones, p) == Locate(zones, q)
    ensures p == q
  {
    var l := Locate(zones, p);
    assert zones[l.zone].path + l.rel == p;
    assert zones[l.zone].path + l.rel == q;
  }

  lemma ChildEntry(db: Tables, p: Path, k: Key)
    requires Namespace(db.zones, db.entries, db.nextId) && k in db.entries && HasRoot(db.zones)
    ensures PathOf(db.zones, k) in TreeOf(db) && PathOf(db.zones, k) != []
    ensures var l := Locate(db.zones, p);
            k.zone == l.zone && db.entries[k].parentPath == l.rel <==> DropLast(PathOf(db.zones, k)) == p
  {
    hide Locate, Namespace, TreeOf, PathOf, NodeOf, HasRoot;
    EntryInTree(db, k);
    EntryParentAddress(db, k);
    if Locate(db.zones, DropLast(PathOf(db.zones, k))) == Locate(db.zones, p) {
      LocateInjective(db.zones, DropLast(PathOf(db.zones, k)), p);
    }
  }

  lemma ChildZone(db: Tables, p: Path, z: ZoneId)
    requires Namespace(db.zones, db.entries, db.nextId) && z in db.zones && HasRoot(db.zones)
    ensures db.zones[z].path in TreeOf(db)
    ensures var l := Locate(db.zones, p);
            db.zones[z].parentZone == Some(l.zone) && db.zones[z].parentPath == Some(l.rel) <==>
            db.zones[z].path != [] && DropLast(db.zones[z].path) == p
  {
    hide Locate, TreeOf, NodeOf, HasRoot, Homed, EntryParents, Labelled, IdsUnique, NamesValid, IsDirAddress;
    NamespaceParts(db);
    ZoneInTree(db, z);
    if db.zones[z].path == [] {
      assert ZoneParent(db.zones, db.entries, db.zones[z]);
    } else {
      ZoneParentAddress(db, z);
      if Locate(db.zones, DropLast(db.zones[z].path)) == Locate(db.zones, p) {
        LocateInjective(db.zones, DropLast(db.zones[z].path), p);
      }
    }
  }

  lemma ListedChildIsChild(db: Tables, p: Path)
    requires Namespace(db.zones, db.entries, db.nextId) && HasRoot(db.zones)
    requires HasChildren(db, Locate(db.zones, p))
    ensures HasChild(TreeOf(db), p)
  {
    hide Locate, Namespace, TreeOf, PathOf, HasRoot;
    var l := Locate(db.zones, p);
    if k :| k in db.entries && k.zone == l.zone && db.entries[k].parentPath == l.rel {
      ChildEntry(db, p, k);
    } else {
      var z :| z in db.zones && db.zones[z].parentZone == Some(l.zone) && db.zones[z].parentPath == Some(l.rel);
      ChildZone(db, p, z);
    }
  }

  lemma ChildIsListed(db: Tables, p: Path, q: Path)
    requires Namespace(db.zones, db.entries, db.nextId) && HasRoot(db.zones)
    requires q in TreeOf(db) && q != [] && DropLast(q) == p
    ensures HasChildren(db, Locate(db.zones, p))
  {
    hide Locate, Namespace, TreeOf, PathOf, HasRoot;
    PathIsRow(db, q);
    if z :| z in db.zones && db.zones[z].path == q {
      ChildZone(db, p, z);
    } else {
      var k :| k in db.entries && PathOf(db.zones, k) == q;
      ChildEntry(db, p, k);
    }
  }

  /** The listing test agrees with the tree. */
  lemma ChildrenMeanTree(db: Tables, p: Path)
    requires Namespace(db.zones, db.entries, db.nextId)
    ensures HasRoot(db.zones) && (HasChildren(db, Locate(db.zones, p)) <==> HasChild(TreeOf(db), p))
  {
    hide Locate, Namespace, TreeOf, HasRoot, HasChildren;
    NamespaceParts(db);
    if HasChildren(db, Locate(db.zones, p)) { ListedChildIsChild(db, p); }
    if q :| q in TreeOf(db) && q != [] && DropLast(q) == p { ChildIsListed(db, p, q); }
  }

  // ---- The removed rows ----

  ghost function RemoveRefusal(t: Tree, p: Path, recursive: bool): Option<Error> {
    if p == [] then Some(CannotRemove)
    else if p !in t then Some(NoSuchPath)
    else if t[p].kind == Dir && !recursive && HasChild(t, p) then Some(NotEmpty)
    else None
  }

  /** Either everything below `p` is selected, or nothing is below it. */
  ghost predicate WholeSubtree(t: Tree, p: Path, recursive: bool) {
    recursive || forall q :: q in t && p <= q ==> q == p
  }

  lemma NotRefusedIsWhole(t: Tree, p: Path, recursive: bool)
    requires IsTree(t) && RemoveRefusal(t, p, recursive).None?
    ensures WholeSubtree(t, p, recursive)
  {
    if t[p].kind == Dir {
      if !HasChild(t, p) { LeafSubtree(t, p); }
    } else {
      MissingMeansVacant(t, p);
      forall q | q in t && p <= q ensures q == p { assert q in Subtree(t, p); }
    }
  }

  lemma RemovedZonesBelow(db: Tables, p: Path, recursive: bool, z: ZoneId)
    requires Namespace(db.zones, db.entries, db.nextId) && HasRoot(db.zones)
    requires ValidPath(p) && PlainPath(p) && p != [] && WholeSubtree(TreeOf(db), p, recursive) && z in db.zones
    ensures z in RemovedZones(db, p, Locate(db.zones, p), recursive) <==> p <= db.zones[z].path
  {
    hide Namespace, TreeOf, Under, PlainPath, ValidPath, AllPaths, Locate, HasRoot;
    NamespaceParts(db);
    LocatedFacts(db, p);
    var q := db.zones[z].path;
    assert ValidPath(q) by { ZoneNameValid(db, z); }
    TextTestsMeanPrefix(p, q);
    ZoneInTree(db, z);
    DeepestAt(db, p);
    var l := Locate(db.zones, p);
    if l.rel != [] { assert q != p by { ZoneAtPathIsDeepest(db, p, z); } }
  }

  lemma ZoneNameValid(db: Tables, z: ZoneId)
    requires NamesValid(db.zones, db.entries) && z in db.zones
    ensures ValidPath(db.zones[z].path)
  {
  }

  lemma ZoneAtPathIsDeepest(db: Tables, p: Path, z: ZoneId)
    requires HasRoot(db.zones) && ZonePathsUnique(db.zones) && z in db.zones
    ensures db.zones[z].path == p ==> Locate(db.zones, p) == Location(z, [])
  {
    if db.zones[z].path == p {
      assert IsDeepest(db.zones, p, z);
      LocateIsCanonical(db.zones, p, z, []);
    }
  }

  lemma RemovedEntriesBelow(db: Tables, p: Path, recursive: bool, k: Key)
    requires Namespace(db.zones, db.entries, db.nextId) && HasRoot(db.zones)
    requires ValidPath(p) && PlainPath(p) && p != [] && WholeSubtree(TreeOf(db), p, recursive) && k in db.entries
    ensures k in RemovedEntries(db, p, Locate(db.zones, p), recursive) <==> p <= PathOf(db.zones, k)
  {
    hide Namespace, TreeOf, UnderRel, PlainPath, ValidPath, AllPaths, Locate, RemovedZones, HasRoot, NodeOf, PathOf;
    NamespaceParts(db);
    LocatedFacts(db, p);
    EntryFacts(db, k);
    var l := Locate(db.zones, p);
    RemovedZonesBelow(db, p, recursive, k.zone);
    RowsBelow(db, p, l, k);
    if l.rel != [] {
      TextTestsMeanPrefix(l.rel, k.rel);
      if !recursive { OnlyThisEntry(db, p, l, k); }
    } else {
      assert db.zones[l.zone].path == p;
    }
  }

  lemma EntryFacts(db: Tables, k: Key)
    requires Namespace(db.zones, db.entries, db.nextId) && k in db.entries
    ensures k.zone in db.zones && k.rel != [] && ValidPath(k.rel)
    ensures PathOf(db.zones, k) in TreeOf(db)
  {
    hide TreeOf, ValidPath, NodeOf;
    EntryInTree(db, k);
    assert NamesValid(db.zones, db.entries);
  }

  lemma OnlyThisEntry(db: Tables, p: Path, l: Location, k: Key)
    requires l.zone in db.zones && db.zones[l.zone].path + l.rel == p && PathOf(db.zones, k) in TreeOf(db)
    requires forall q :: q in TreeOf(db) && p <= q ==> q == p
    ensures k.zone == l.zone && l.rel <= k.rel ==> k.rel == l.rel
  {
    hide TreeOf;
    if k.zone == l.zone && l.rel <= k.rel {
      var q, a := PathOf(db.zones, k), db.zones[l.zone].path;
      assert q[..|p|] == p by { assert k.rel[..|l.rel|] == l.rel; }
      assert q == p;
      assert k.rel == q[|a|..] && l.rel == p[|a|..];
    }
  }

  /** The tests of remove judge the rows of the volume rightly: what they select are the rows at or
      below the target, and no others. */
  ghost predicate RemoveJudged(db: Tables, p: Path, recursive: bool) {
    && HasRoot(db.zones)
    && var l := Locate(db.zones, p);
       IsSubtreeRows(db, p, RemovedZones(db, p, l, recursive), RemovedEntries(db, p, l, recursive))
  }

  /** They do if the path of the target has no wildcard. */
  lemma PlainRemoveIsJudged(db: Tables, p: Path, recursive: bool)
    requires Namespace(db.zones, db.entries, db.nextId) && ValidPath(p) && PlainPath(p)
    requires RemoveRefusal(TreeOf(db), p, recursive).None?
    ensures RemoveJudged(db, p, recursive)
  {
    hide *;
    NotRefused(db, p, recursive);
    NamespaceParts(db);
    var l := Locate(db.zones, p);
    var gz, gk := RemovedZones(db, p, l, recursive), RemovedEntries(db, p, l, recursive);
    RemovedAreRows(db, p, l, recursive);
    forall z | z in db.zones ensures z in gz <==> p <= db.zones[z].path { RemovedZonesBelow(db, p, recursive, z); }
    forall k | k in db.entries ensures k in gk <==> p <= PathOf(db.zones, k) { RemovedEntriesBelow(db, p, recursive, k); }
    SubtreeRowsIntro(db, p, gz, gk);
    RemoveJudgedIntro(db, p, recursive);
  }

  lemma RemoveJudgedIntro(db: Tables, p: Path, recursive: bool)
    requires HasRoot(db.zones)
    ensures var l := Locate(db.zones, p);
            RemoveJudged(db, p, recursive) <==>
            IsSubtreeRows(db, p, RemovedZones(db, p, l, recursive), RemovedEntries(db, p, l, recursive))
  {
    hide IsSubtreeRows, RemovedZones, RemovedEntries, Locate;
  }

  lemma NotRefused(db: Tables, p: Path, recursive: bool)
    requires Namespace(db.zones, db.entries, db.nextId) && RemoveRefusal(TreeOf(db), p, recursive).None?
    ensures p != [] && p in TreeOf(db) && WholeSubtree(TreeOf(db), p, recursive)
  {
    hide Namespace, TreeOf, IsTree, IdsDistinct, HasChild, WholeSubtree, ValidPath;
    RowsMakeTree(db);
    NotRefusedIsWhole(TreeOf(db), p, recursive);
  }

  /** They also do, whatever characters the path has, when an entry is removed without the flag:
      its row is found by its key. */
  lemma EntryRemoveIsJudged(db: Tables, p: Path)
    requires Namespace(db.zones, db.entries, db.nextId) && RemoveRefusal(TreeOf(db), p, false).None? && !IsZonePath(db, p)
    ensures RemoveJudged(db, p, false)
  {
    hide *;
    NotRefused(db, p, false);
    NamespaceParts(db);
    DeepestAt(db, p);
    var l := Locate(db.zones, p);
    var gz, gk := RemovedZones(db, p, l, false), RemovedEntries(db, p, l, false);
    RemovedAreRows(db, p, l, false);
    OneRowRemoved(db, p, l);
    forall z | z in db.zones ensures !(p <= db.zones[z].path) { NoZoneInLeaf(db, p, z); }
    forall k | k in db.entries ensures k in gk <==> p <= PathOf(db.zones, k) { OnlyThis(db, p, l, k); }
    SubtreeRowsIntro(db, p, gz, gk);
    RemoveJudgedIntro(db, p, false);
  }

  lemma OneRowRemoved(db: Tables, p: Path, l: Location)
    requires !IsZonePath(db, p) && l.zone in db.zones && db.zones[l.zone].path + l.rel == p
    ensures l.rel != [] && RemovedZones(db, p, l, false) == {}
    ensures forall k :: k in RemovedEntries(db, p, l, false) <==> k in db.entries && k == Key(l.zone, l.rel)
  {
    hide UnderRel;
    assert db.zones[l.zone].path + [] == db.zones[l.zone].path;
  }

  lemma NoZoneInLeaf(db: Tables, p: Path, z: ZoneId)
    requires Namespace(db.zones, db.entries, db.nextId) && WholeSubtree(TreeOf(db), p, false) && !IsZonePath(db, p) && z in db.zones
    ensures !(p <= db.zones[z].path)
  {
    hide TreeOf, EntryParents, ZoneParents, Homed, Labelled, IdsUnique, NamesValid;
    ZoneInTree(db, z);
  }

  lemma OnlyThis(db: Tables, p: Path, l: Location, k: Key)
    requires Namespace(db.zones, db.entries, db.nextId) && WholeSubtree(TreeOf(db), p, false) && !IsZonePath(db, p)
    requires IsDeepest(db.zones, p, l.zone) && db.zones[l.zone].path + l.rel == p && k in db.entries
    ensures p <= PathOf(db.zones, k) <==> k == Key(l.zone, l.rel)
  {
    hide TreeOf, PathOf, Namespace, HasRoot, ZonePathsUnique, NamesValid, Homed, IsDeepest, IsZonePath;
    NamespaceParts(db);
    EntryFacts(db, k);
    NoZoneInLeaf(db, p, k.zone);
    ZoneListed(db, p, l.zone);
    RowsBelow(db, p, l, k);
    OnlyThisEntry(db, p, l, k);
  }

  lemma RemovedAreRows(db: Tables, p: Path, l: Location, recursive: bool)
    ensures RemovedZones(db, p, l, recursive) <= db.zones.Keys
    ensures RemovedEntries(db, p, l, recursive) <= db.entries.Keys
    ensures forall k :: k in db.entries && k.zone in RemovedZones(db, p, l, recursive) ==> k in RemovedEntries(db, p, l, recursive)
  {
    hide AtOrUnder, Under, UnderRel;
  }

  lemma DeleteKeepsContent(db: Tables, gz: set<ZoneId>, gk: set<Key>)
    requires StoreOk(db.store) && Payloads(db.entries, db.store)
    ensures var d := DeleteRows(db, gz, gk); StoreOk(d.store) && Payloads(d.entries, d.store)
  {
    hide StoreOk, PayloadOk;
  }

  lemma RemoveUnfolds(db: Tables, p: Path, recursive: bool)
    requires HasRoot(db.zones)
    ensures p == [] ==> Remove(db, p, recursive) == Failure(CannotRemove)
    ensures p != [] && KindOf(db, p).None? ==> Remove(db, p, recursive) == Failure(NoSuchPath)
    ensures p != [] && KindOf(db, p).Some? ==>
              var l := Locate(db.zones, p);
              if KindOf(db, p) == Some(Dir) && !recursive && HasChildren(db, l) then Remove(db, p, recursive) == Failure(NotEmpty)
              else
                var gz, gk := RemovedZones(db, p, l, recursive), RemovedEntries(db, p, l, recursive);
                Remove(db, p, recursive) == Success(Done(Reclaim(DeleteRows(db, gz, gk)), |gk| + |gz|))
  {
    hide KindOf, HasChildren, RemovedZones, RemovedEntries, Reclaim, Locate;
  }

  lemma DeletedSubtree(db: Tables, p: Path, gz: set<ZoneId>, gk: set<Key>)
    requires Inv(db) && IsSubtreeRows(db, p, gz, gk) && p != []
    ensures var r := Reclaim(DeleteRows(db, gz, gk));
            && Inv(r) && TreeOf(r) == Pruned(TreeOf(db), p) && AllReferenced(r)
    ensures |gk| + |gz| == |Subtree(TreeOf(db), p)|
  {
    hide Namespace, TreeOf, StoreOk, Payloads, Reclaim, IsSubtreeRows, AllReferenced, SameNodes, DeleteRows;
    DeleteKeepsNamespace(db, p, gz, gk);
    DeletePrunes(db, p, gz, gk);
    DeleteKeepsContent(db, gz, gk);
    SubtreeRowsCount(db, p, gz, gk);
    ReclaimKeepsTree(DeleteRows(db, gz, gk));
  }

  /** remove deletes exactly the nodes at or below its target, returns how many there were, and
      leaves every published segment referenced; it refuses exactly where the tree says. An accepted
      removal asks that the tests judge the rows rightly, a refused one asks nothing. */
  lemma RemoveMeansTree(db: Tables, p: Path, recursive: bool)
    requires Inv(db) && (RemoveRefusal(TreeOf(db), p, recursive).None? ==> RemoveJudged(db, p, recursive))
    ensures HasRoot(db.zones)
    ensures RemoveRefusal(TreeOf(db), p, recursive).Some? ==>
              Remove(db, p, recursive) == Failure(RemoveRefusal(TreeOf(db), p, recursive).value)
    ensures RemoveRefusal(TreeOf(db), p, recursive).None? ==>
              && Remove(db, p, recursive).Success?
              && Inv(Remove(db, p, recursive).value.db)
              && TreeOf(Remove(db, p, recursive).value.db) == Pruned(TreeOf(db), p)
              && Remove(db, p, recursive).value.count == |Subtree(TreeOf(db), p)|
              && AllReferenced(Remove(db, p, recursive).value.db)
  {
    hide Inv, TreeOf, KindOf, Remove, Locate, HasChildren, HasChild, RemovedZones, RemovedEntries, HasRoot, Pruned, Subtree,
         Reclaim, DeleteRows, AllReferenced, WholeSubtree, IsSubtreeRows, RemoveJudged;
    InvHasNamespace(db);
    RemoveAnswers(db, p, recursive);
    if RemoveRefusal(TreeOf(db), p, recursive).None? {
      var l := Locate(db.zones, p);
      NotRefused(db, p, recursive);
      RemoveJudgedIntro(db, p, recursive);
      DeletedSubtree(db, p, RemovedZones(db, p, l, recursive), RemovedEntries(db, p, l, recursive));
    }
  }

  lemma RemoveAnswers(db: Tables, p: Path, recursive: bool)
    requires Namespace(db.zones, db.entries, db.nextId)
    ensures HasRoot(db.zones)
    ensures RemoveRefusal(TreeOf(db), p, recursive).Some? ==>
              Remove(db, p, recursive) == Failure(RemoveRefusal(TreeOf(db), p, recursive).value)
    ensures RemoveRefusal(TreeOf(db), p, recursive).None? ==>
              var l := Locate(db.zones, p);
              var gz, gk := RemovedZones(db, p, l, recursive), RemovedEntries(db, p, l, recursive);
              Remove(db, p, recursive) == Success(Done(Reclaim(DeleteRows(db, gz, gk)), |gk| + |gz|))
  {
    hide Namespace, TreeOf, KindOf, Remove, Locate, HasChildren, HasChild, RemovedZones, RemovedEntries, HasRoot, Reclaim, DeleteRows;
    NamespaceParts(db);
    LookupKind(db, p);
    ChildrenMeanTree(db, p);
    RemoveUnfolds(db, p, recursive);
  }

  /** An accepted removal prunes the tree at its target if and only if the tests judge the rows of the
      volume rightly. */
  lemma RemovePrunesIff(db: Tables, p: Path, recursive: bool)
    requires Inv(db) && RemoveRefusal(TreeOf(db), p, recursive).None?
    ensures HasRoot(db.zones) && Remove(db, p, recursive).Success?
    ensures TreeOf(Remove(db, p, recursive).value.db) == Pruned(TreeOf(db), p) <==> RemoveJudged(db, p, recursive)
  {
    hide Inv, TreeOf, Remove, Locate, HasChild, RemovedZones, RemovedEntries, HasRoot, Pruned, Reclaim, DeleteRows, IsSubtreeRows, RemoveJudged, WholeSubtree,
         AllReferenced, Subtree;
    InvHasNamespace(db);
    RemoveAnswers(db, p, recursive);
    RemoveJudgedIntro(db, p, recursive);
    var l := Locate(db.zones, p);
    var gz, gk := RemovedZones(db, p, l, recursive), RemovedEntries(db, p, l, recursive);
    if RemoveJudged(db, p, recursive) {
      RemoveMeansTree(db, p, recursive);
    } else if TreeOf(Reclaim(DeleteRows(db, gz, gk))) == Pruned(TreeOf(db), p) {
      RemovedAreRows(db, p, l, recursive);
      ReclaimedSame(DeleteRows(db, gz, gk));
      PruningRowsAreSubtree(db, p, gz, gk);
    }
  }

  lemma ReclaimedSame(db: Tables)
    ensures TreeOf(Reclaim(db)).Keys == TreeOf(db).Keys
  {
    hide NodeAt;
  }
}
