/** move: it re-roots exactly the source subtree, keeps every node and its id, and counts them. */
module Moving {
  import opened Basics
  import opened Paths
  import opened Tables
  import opened Trees
  import opened Surgery
  import opened Grafting
  import opened Rerooting
  import opened Commands
  import opened Addresses
  import opened Transplanting
  import opened Creating
  import opened Removing

  ghost function MoveRefusal(t: Tree, s: Path, d: Path): Option<Error> {
    if s <= d then Some(CannotMove)
    else if s !in t then Some(NoSuchPath)
    else if d == [] || TreeKind(t, DropLast(d)) != Some(Dir) then Some(NoParent)
    else if d in t && t[d].kind == Dir then Some(DestinationIsDirectory)
    else None
  }

  /** An entry, not itself a zone, with zones below it: move and copy do not support it. */
  ghost predicate HoldsZones(db: Tables, p: Path) {
    !IsZonePath(db, p) && exists z :: z in db.zones && p < db.zones[z].path
  }

  /** The LIKE test on zone paths tells exactly the zones at or below `p`. */
  ghost predicate ZonesJudged(zones: Zones, p: Path) {
    forall z :: z in zones ==> (AtOrUnder(p, zones[z].path) <==> p <= zones[z].path)
  }

  /** The LIKE test on the relative paths in the zone of `l` tells exactly those at or below it. */
  ghost predicate EntriesJudged(entries: Entries, l: Location) {
    forall k :: k in entries && k.zone == l.zone ==> (AtOrUnderRel(l.rel, k.rel) <==> l.rel <= k.rel)
  }

  /** The entries besides one at `d`. */
  ghost function EntriesBut(db: Tables, d: Path): Entries {
    map k | k in db.entries && PathOf(db.zones, k) != d :: db.entries[k]
  }

  /** The tests on the source: which zones are at or below a zone; whether an entry holds zones and,
      where it holds none, which entries are at or below it. */
  ghost predicate SourceJudged(db: Tables, s: Path, d: Path)
    requires HasRoot(db.zones)
  {
    if IsZonePath(db, s) then ZonesJudged(db.zones, s)
    else
      && (HasNestedZones(db.zones, s) <==> HoldsZones(db, s))
      && (HoldsZones(db, s) || EntriesJudged(EntriesBut(db, d), Locate(db.zones, s)))
  }

  /** The tests of move judge the paths rightly: whether the destination is at or below the source, and
      unless that or the tree refuses the move, the rows of the volume besides one at the destination,
      which is gone by then. */
  ghost predicate MoveJudged(db: Tables, s: Path, d: Path) {
    && HasRoot(db.zones)
    && (s == [] || (AtOrUnder(s, d) <==> s <= d))
    && (MoveRefusal(TreeOf(db), s, d).None? ==> SourceJudged(db, s, d))
  }

  /** What a moved tree holds: the source's nodes below the destination, nothing at the source,
      everything else as it was. */
  lemma MovedMeans(t: Tree, s: Path, d: Path, q: Path)
    requires IsTree(t) && MoveRefusal(t, s, d).None?
    ensures d <= q ==>
              && (q in Moved(t, s, d) <==> s + q[|d|..] in t)
              && (q in Moved(t, s, d) ==> Moved(t, s, d)[q] == t[s + q[|d|..]])
    ensures s <= q ==> q !in Moved(t, s, d)
    ensures !(d <= q) && !(s <= q) ==>
              && (q in Moved(t, s, d) <==> q in t)
              && (q in Moved(t, s, d) ==> Moved(t, s, d)[q] == t[q])
  {
    hide Extract, Planted, IsTree;
    var u := Pruned(t, d);
    PlantedAt(d, Extract(u, s), q);
    MoveApart(t, s, d);
    if d <= q {
      ExtractAt(u, s, q[|d|..]);
      NothingBelowBoth(s, d, s + q[|d|..]);
    }
    NothingBelowBoth(s, d, q);
  }

  lemma NothingBelowBoth(s: Path, d: Path, q: Path)
    ensures s <= q && d <= q ==> s <= d || d <= s
  {
    if s <= q && d <= q {
      assert s == q[..|s|] && d == q[..|d|];
    }
  }

  lemma MoveApart(t: Tree, s: Path, d: Path)
    requires IsTree(t) && MoveRefusal(t, s, d).None?
    ensures !(d <= s) && !(s <= d)
  {
    if d <= s { AncestorsExist(t, d, s); }
  }

  // ---- The destination ----

  lemma ClearUnfolds(db: Tables, d: Path)
    requires HasRoot(db.zones)
    ensures !ParentIsDirectory(db, d) ==> ClearDestination(db, d) == Failure(NoParent)
    ensures ParentIsDirectory(db, d) && KindOf(db, d) == Some(Dir) ==> ClearDestination(db, d) == Failure(DestinationIsDirectory)
    ensures ParentIsDirectory(db, d) && KindOf(db, d).None? ==> ClearDestination(db, d) == Success(db)
    ensures ParentIsDirectory(db, d) && KindOf(db, d).Some? && KindOf(db, d) != Some(Dir) ==>
              var l := Locate(db.zones, d);
              ClearDestination(db, d) == Success(DeleteRows(db, {}, {Key(l.zone, l.rel)}))
  {
    hide KindOf, ParentIsDirectory, Locate, DeleteRows;
  }

  lemma LeafEntry(db: Tables, d: Path, key: Key, k: Key)
    requires Namespace(db.zones, db.entries, db.nextId) && key in db.entries && PathOf(db.zones, key) == d
    requires forall q :: q in TreeOf(db) && d <= q ==> q == d
    requires k in db.entries && d <= PathOf(db.zones, k)
    ensures k == key
  {
    hide TreeOf, NodeOf, PathOf, HasRoot, EntryParents, ZoneParents, Labelled, IdsUnique, Homed, NamesValid, ZonePathsUnique;
    EntryInTree(db, k);
    PathsUnique(db.zones, db.entries, k, key);
  }

  lemma LeafZone(db: Tables, d: Path, key: Key, z: ZoneId)
    requires Namespace(db.zones, db.entries, db.nextId) && key in db.entries && PathOf(db.zones, key) == d
    requires forall q :: q in TreeOf(db) && d <= q ==> q == d
    requires z in db.zones
    ensures !(d <= db.zones[z].path)
  {
    hide TreeOf, PathOf, HasRoot, EntryParents, ZoneParents, Labelled, IdsUnique, Homed, NamesValid, ZonePathsUnique;
    ZoneInTree(db, z);
    EntryIsNotZone(db.zones, db.entries, key, z);
  }

  lemma LeafAddress(db: Tables, d: Path)
    requires Namespace(db.zones, db.entries, db.nextId) && d in TreeOf(db) && TreeOf(db)[d].kind != Dir
    ensures HasRoot(db.zones)
    ensures var l := Locate(db.zones, d); Key(l.zone, l.rel) in db.entries && PathOf(db.zones, Key(l.zone, l.rel)) == d
    ensures forall q :: q in TreeOf(db) && d <= q ==> q == d
  {
    hide Namespace, TreeOf, Locate, Denote, IsTree, IdsDistinct, ValidPath, AllPaths, PathOf;
    NamespaceParts(db);
    LookupFinds(db, d);
    RowsMakeTree(db);
    MissingMeansVacant(TreeOf(db), d);
    forall q | q in TreeOf(db) && d <= q ensures q == d { assert q in Subtree(TreeOf(db), d); }
    LeafKey(db, d, Locate(db.zones, d));
  }

  lemma LeafRow(db: Tables, d: Path)
    requires Namespace(db.zones, db.entries, db.nextId) && d in TreeOf(db) && TreeOf(db)[d].kind != Dir
    ensures HasRoot(db.zones)
    ensures var l := Locate(db.zones, d); IsSubtreeRows(db, d, {}, {Key(l.zone, l.rel)})
  {
    hide Namespace, TreeOf, Locate, PathOf, HasRoot;
    LeafAddress(db, d);
    var l := Locate(db.zones, d);
    var key := Key(l.zone, l.rel);
    forall k | k in db.entries && d <= PathOf(db.zones, k) ensures k == key { LeafEntry(db, d, key, k); }
    forall z | z in db.zones ensures !(d <= db.zones[z].path) { LeafZone(db, d, key, z); }
  }

  lemma LeafKey(db: Tables, d: Path, l: Location)
    requires l.zone in db.zones && db.zones[l.zone].path + l.rel == d
    ensures PathOf(db.zones, Key(l.zone, l.rel)) == d
  {
  }

  lemma PrunedNothing(t: Tree, d: Path)
    requires IsTree(t) && d !in t
    ensures Pruned(t, d) == t
  {
    MissingMeansVacant(t, d);
    hide IsTree;
  }

  /** Clearing the destination prunes the tree there and keeps everything else. */
  lemma ClearMeansTree(db: Tables, d: Path)
    requires Inv(db)
    requires d != [] && TreeKind(TreeOf(db), DropLast(d)) == Some(Dir) && !(d in TreeOf(db) && TreeOf(db)[d].kind == Dir)
    ensures HasRoot(db.zones)
    ensures ClearDestination(db, d).Success?
    ensures var c := ClearDestination(db, d).value;
            && Inv(c) && c.zones == db.zones && c.store == db.store && c.nextId == db.nextId
            && TreeOf(c) == Pruned(TreeOf(db), d)
  {
    hide Inv, TreeOf, KindOf, ParentIsDirectory, Locate, IsSubtreeRows, IsTree, IdsDistinct, ValidPath, Pruned, ClearDestination;
    InvHasNamespace(db);
    ParentMeansTree(db, d);
    LookupKind(db, d);
    ClearUnfolds(db, d);
    RowsMakeTree(db);
    if d in TreeOf(db) {
      LeafRow(db, d);
      var l := Locate(db.zones, d);
      DeleteLeaf(db, d, {Key(l.zone, l.rel)});
    } else {
      PrunedNothing(TreeOf(db), d);
    }
  }

  lemma DeleteLeaf(db: Tables, d: Path, gk: set<Key>)
    requires Inv(db) && IsSubtreeRows(db, d, {}, gk) && d != []
    ensures var c := DeleteRows(db, {}, gk); Inv(c) && TreeOf(c) == Pruned(TreeOf(db), d) && c.zones == db.zones
  {
    hide Namespace, TreeOf, StoreOk, Payloads, IsSubtreeRows, Pruned;
    DeleteKeepsNamespace(db, d, {}, gk);
    DeletePrunes(db, d, {}, gk);
    DeleteKeepsContent(db, {}, gk);
    assert db.zones - {} == db.zones;
  }

  // ---- A zone source ----

  lemma MovedZonesAreRerooted(db: Tables, s: Path, d: Path, sz: ZoneId, dl: Location)
    requires NamesValid(db.zones, db.entries) && ValidPath(d) && ZonesJudged(db.zones, s) && s != [] && d != []
    requires sz in db.zones && db.zones[sz].path == s
    ensures MovedZones(db.zones, s, d, sz, dl) == RerootZones(db.zones, s, d, sz, dl.zone, dl.rel)
  {
    hide TextReroot, AtOrUnder, ValidPath;
    forall z | z in db.zones
      ensures s <= db.zones[z].path ==> TextReroot(db.zones[z].path, s, d) == Rerooted(db.zones[z].path, s, d)
    {
      ZoneNameValid(db, z);
      if s <= db.zones[z].path { TextRerootIs(db.zones[z].path, s, d); }
    }
    assert AtOrUnder(s, s);
  }

  lemma TextRerootIs(p: Path, s: Path, d: Path)
    requires ValidPath(p) && ValidPath(d) && s <= p && s != [] && d != []
    ensures TextReroot(p, s, d) == d + p[|s|..] == Rerooted(p, s, d)
    ensures TextRerootRel(p, s, d) == d + p[|s|..]
  {
    hide ValidPath, Parse, ParseRel, Render, RenderRel, Substr;
    TextRerootMeansReplacePrefix(s, d, p);
  }

  lemma EntryInsideZone(db: Tables, s: Path, sz: ZoneId, k: Key)
    requires Homed(db.zones, db.entries) && NamesValid(db.zones, db.entries) && k in db.entries
    requires sz in db.zones && db.zones[sz].path == s
    ensures k.zone in db.zones && (s <= PathOf(db.zones, k) <==> s <= db.zones[k.zone].path)
  {
    hide Homed, PathOf;
    EntryInsideMeansZoneInside(db, s, sz, k);
  }

  /** The zones at or below a path. */
  function ZonesFrom(zones: Zones, s: Path): set<ZoneId> { set z | z in zones && s <= zones[z].path }

  /** The rows of the zones at or below a zone are exactly the rows of its subtree. */
  lemma ZoneSubtreeRows(db: Tables, s: Path, sz: ZoneId)
    requires Namespace(db.zones, db.entries, db.nextId) && sz in db.zones && db.zones[sz].path == s
    ensures IsSubtreeRows(db, s, ZonesFrom(db.zones, s), EntriesOf(db.entries, ZonesFrom(db.zones, s)))
  {
    hide Namespace, PathOf, Homed, HasRoot, EntryParents, ZoneParents, Labelled, IdsUnique, ZonePathsUnique, ZonePath;
    NamespaceParts(db);
    forall k | k in db.entries ensures k.zone in db.zones && (s <= PathOf(db.zones, k) <==> s <= db.zones[k.zone].path) {
      EntryInsideZone(db, s, sz, k);
    }
  }

  /** The zones the test selects hold those at or below if it misses none, and are those if it judges
      them rightly. */
  lemma SelectedZones(zones: Zones, s: Path)
    ensures ZonesJudged(zones, s) <==> ZonesAt(zones, s) == ZonesFrom(zones, s)
  {
    hide AtOrUnder;
    assert forall z :: z in zones ==> (z in ZonesAt(zones, s) <==> AtOrUnder(s, zones[z].path));
    assert forall z :: z in zones ==> (z in ZonesFrom(zones, s) <==> s <= zones[z].path);
  }

  lemma MayMoveZone(db: Tables, s: Path, d: Path, sz: ZoneId)
    requires Namespace(db.zones, db.entries, db.nextId) && ValidPath(d) && s != [] && d != [] && !(s <= d)
    requires sz in db.zones && db.zones[sz].path == s
    requires d !in TreeOf(db) && TreeKind(TreeOf(db), DropLast(d)) == Some(Dir)
    ensures HasRoot(db.zones)
    ensures var dl := Locate(db.zones, DropLast(d)); MayReroot(db, s, d, sz, dl.zone, dl.rel)
  {
    hide Namespace, TreeOf, Locate, ValidPath, IsDirAddress, VacantRows;
    NamespaceParts(db);
    DirectoryAddress(db, DropLast(d));
    MissingMeansVacantRows(db, d);
  }

  /** A zone source: the zones' paths are rewritten, entries follow their zones. */
  lemma MoveZoneMeansTree(db: Tables, s: Path, d: Path, sz: ZoneId)
    requires Inv(db) && ValidPath(d) && s != [] && d != [] && !(s <= d)
    requires sz in db.zones && db.zones[sz].path == s && ZonesJudged(db.zones, s)
    requires d !in TreeOf(db) && TreeKind(TreeOf(db), DropLast(d)) == Some(Dir)
    ensures HasRoot(db.zones)
    ensures var dl := Locate(db.zones, DropLast(d)); var zs := ZonesAt(db.zones, s);
            && MoveZone(db, s, d, sz, dl).Success?
            && Inv(MoveZone(db, s, d, sz, dl).value)
            && TreeOf(MoveZone(db, s, d, sz, dl).value) == Grafted(Pruned(TreeOf(db), s), d, Extract(TreeOf(db), s))
            && |zs| + |EntriesOf(db.entries, zs)| == |Subtree(TreeOf(db), s)|
  {
    hide Namespace, TreeOf, Locate, ValidPath, MovedZones, RerootZones, ZonesAt, ZonesFrom, ZonesJudged, EntriesOf, IsSubtreeRows, MayReroot, StoreOk, Payloads,
         Grafted, Pruned, Extract, Subtree, Homed, EntryParents, ZoneParents, Labelled, IdsUnique, NamesValid, HasRoot;
    NamespaceParts(db);
    MayMoveZone(db, s, d, sz);
    var dl := Locate(db.zones, DropLast(d));
    MovedZonesAreRerooted(db, s, d, sz, dl);
    var zones := RerootZones(db.zones, s, d, sz, dl.zone, dl.rel);
    var moved := db.(zones := zones);
    RerootKeepsNamespace(db, s, d, sz, dl.zone, dl.rel);
    NamespaceParts(moved);
    RerootMoves(db, s, d, sz, dl.zone, dl.rel);
    SelectedZones(db.zones, s);
    ZoneSubtreeRows(db, s, sz);
    SubtreeRowsCount(db, s, ZonesAt(db.zones, s), EntriesOf(db.entries, ZonesAt(db.zones, s)));
  }

  // ---- An entry source ----

  /** The rows below an entry that holds no zones. */
  lemma EntrySubtreeRows(db: Tables, s: Path)
    requires Namespace(db.zones, db.entries, db.nextId) && s != []
    requires forall z :: z in db.zones ==> !(s <= db.zones[z].path)
    ensures HasRoot(db.zones)
    ensures var l := Locate(db.zones, s); IsSubtreeRows(db, s, {}, Below(db.entries, Key(l.zone, l.rel)))
  {
    hide Namespace, Locate, PathOf, HasRoot, IsDeepest, Homed;
    NamespaceParts(db);
    DeepestAt(db, s);
    var l := Locate(db.zones, s);
    forall k | k in db.entries ensures s <= PathOf(db.zones, k) <==> k.zone == l.zone && l.rel <= k.rel {
      assert k.zone in db.zones;
      RowsBelow(db, s, l, k);
    }
  }

  /** What the UPDATE statement makes of the rows is the subtree transplanted. */
  lemma MovedRow(db: Tables, sl: Location, d: Path, dk: Key, ids: map<Key, NodeId>, k: Key)
    requires NamesValid(db.zones, db.entries) && Labelled(db.entries)
    requires EntriesJudged(db.entries, sl) && sl.rel != [] && dk.rel != [] && ValidPath(dk.rel) && d != [] && Last(dk.rel) == Last(d)
    requires ids.Keys == Below(db.entries, Key(sl.zone, sl.rel)) && k in db.entries
    requires k in ids ==> ids[k] == db.entries[k].id
    ensures var moves := MovedEntries(db, sl, d, dk); var rows := Transplanted(db.entries, Key(sl.zone, sl.rel), ids, dk);
            && (k in moves <==> k in ids) && (k in rows <==> k in ids)
            && (k in ids ==> moves[k] == rows[k])
  {
    hide ValidPath, TextRerootRel, AtOrUnderRel, ParseRel, RelativeParent, RenderRel;
    assert ValidPath(k.rel) && k.rel != [];
    if sl.rel <= k.rel {
      var r := k.rel[|sl.rel|..];
      TextRerootIs(k.rel, sl.rel, dk.rel);
      ShiftedLabel(k.rel, sl.rel, dk.rel);
      assert db.entries[k].name == Last(k.rel) && db.entries[k].parentPath == DropLast(k.rel);
    }
  }

  lemma ShiftedLabel(p: Path, s: Path, d: Path)
    requires ValidPath(p) && ValidPath(d) && s <= p && s != [] && d != []
    ensures var rel := d + p[|s|..];
            && ParseRel(RelativeParent(RenderRel(rel))) == DropLast(rel)
            && (p != s ==> Last(rel) == Last(p)) && (p == s ==> Last(rel) == Last(d))
  {
    hide RelativeParent, RenderRel, ParseRel, ValidName;
    var rel := d + p[|s|..];
    assert ValidPath(rel);
    RelativeParentMeansDropLast(rel);
    ParseRender(DropLast(rel));
  }

  lemma MovedRowsAreTransplanted(db: Tables, sl: Location, d: Path, dk: Key, ids: map<Key, NodeId>)
    requires NamesValid(db.zones, db.entries) && Labelled(db.entries)
    requires EntriesJudged(db.entries, sl) && sl.rel != [] && dk.rel != [] && ValidPath(dk.rel) && d != [] && Last(dk.rel) == Last(d)
    requires ids.Keys == Below(db.entries, Key(sl.zone, sl.rel))
    requires forall k :: k in ids ==> ids[k] == db.entries[k].id
    ensures MovedEntries(db, sl, d, dk) == Transplanted(db.entries, Key(sl.zone, sl.rel), ids, dk)
    ensures MovedEntries(db, sl, d, dk).Keys == ids.Keys
  {
    var moves, rows := MovedEntries(db, sl, d, dk), Transplanted(db.entries, Key(sl.zone, sl.rel), ids, dk);
    assert moves.Keys <= db.entries.Keys && rows.Keys <= db.entries.Keys && ids.Keys <= db.entries.Keys;
    hide *;
    forall k
      ensures (k in moves <==> k in ids) && (k in rows <==> k in ids)
      ensures k in moves && k in rows ==> moves[k] == rows[k]
    {
      if k in db.entries { MovedRow(db, sl, d, dk, ids, k); }
    }
    SameMap(moves, rows);
  }

  ghost function OwnIds(entries: Entries, from: Key): map<Key, NodeId> {
    map k | k in Below(entries, from) && k in entries :: entries[k].id
  }

  lemma OwnIdsFree(db: Tables, from: Key)
    requires IdsUnique(db.zones, db.entries, db.nextId)
    ensures var ids := OwnIds(db.entries, from);
            && ids.Keys == Below(db.entries, from)
            && IdsFree(DeleteRows(db, {}, Below(db.entries, from)), ForestAt(db.entries, from, ids), db.nextId)
  {
    var ids := OwnIds(db.entries, from);
    assert ids.Keys == Below(db.entries, from);
    var rows := ForestAt(db.entries, from, ids);
    forall r ensures r in rows ==> Key(from.zone, from.rel + r) in ids && rows[r].id == ids[Key(from.zone, from.rel + r)] {
      ForestRow(db.entries, from, ids, r);
    }
    forall q, r | q in rows && r in rows && rows[q].id == rows[r].id ensures q == r {
      ForestIdAt(db.entries, from, ids, q, r);
    }
    hide ForestAt;
  }

  lemma MovedNodes(db: Tables, from: Key, p: Path)
    requires Namespace(db.zones, db.entries, db.nextId) && from.rel != []
    requires IsDeepest(db.zones, p, from.zone) && db.zones[from.zone].path + from.rel == p
    requires forall z :: z in db.zones ==> !(p <= db.zones[z].path)
    ensures NodesOf(db.store, ForestAt(db.entries, from, OwnIds(db.entries, from))) == Extract(TreeOf(db), p)
  {
    hide *;
    var nodes, sub := NodesOf(db.store, ForestAt(db.entries, from, OwnIds(db.entries, from))), Extract(TreeOf(db), p);
    forall r ensures (r in nodes <==> r in sub) && (r in nodes && r in sub ==> nodes[r] == sub[r]) {
      MovedNode(db, from, p, r);
    }
    SameMap(nodes, sub);
  }

  lemma MovedNode(db: Tables, from: Key, p: Path, r: Path)
    requires Namespace(db.zones, db.entries, db.nextId) && from.rel != []
    requires IsDeepest(db.zones, p, from.zone) && db.zones[from.zone].path + from.rel == p
    requires forall z :: z in db.zones ==> !(p <= db.zones[z].path)
    ensures var nodes, sub := NodesOf(db.store, ForestAt(db.entries, from, OwnIds(db.entries, from))), Extract(TreeOf(db), p);
            (r in nodes <==> r in sub) && (r in nodes ==> nodes[r] == sub[r])
  {
    var ids := OwnIds(db.entries, from);
    assert ids.Keys == Below(db.entries, from);
    hide Namespace, TreeOf, NodesOf, ForestAt, Extract, Denote;
    KeyBelowInTree(db, from, p, r);
    ForestNode(db, db.entries, from, ids, p, r);
    ExtractAt(TreeOf(db), p, r);
    var k := Key(from.zone, from.rel + r);
    if k in db.entries { EntryInTree(db, k); AppendAssociates(db.zones[from.zone].path, from.rel, r); }
  }

  /** An entry source: the rows are rewritten to their new place. */
  lemma MoveEntriesMeansTree(db: Tables, s: Path, d: Path)
    requires Inv(db) && ValidPath(d) && s != [] && d != [] && !(s <= d)
    requires forall z :: z in db.zones ==> !(s <= db.zones[z].path)
    requires d !in TreeOf(db) && TreeKind(TreeOf(db), DropLast(d)) == Some(Dir)
    requires HasRoot(db.zones) && EntriesJudged(db.entries, Locate(db.zones, s))
    ensures var m := MoveEntries(db, Locate(db.zones, s), d, EntryKey(db.zones, d));
            && m.Success? && Inv(m.value.db)
            && TreeOf(m.value.db) == Grafted(Pruned(TreeOf(db), s), d, Extract(TreeOf(db), s))
            && m.value.count == |Subtree(TreeOf(db), s)|
  {
    hide Namespace, StoreOk, Payloads, TreeOf, Locate, ValidPath, IsSubtreeRows, EntryKey, HasRoot, IdsUnique, MayTransplant, IsDeepest, EntriesJudged,
         Grafted, Pruned, Extract, Subtree, Below, OwnIds, ForestAt, NodesOf, MovedEntries, Collides, PutRows, Transplanted, Labelled, NamesValid, IdsFree;
    NamespaceParts(db);
    DeepestAt(db, s);
    var l := Locate(db.zones, s);
    var from := Key(l.zone, l.rel);
    assert l.rel != [] by { RelNotEmpty(db, s); }
    EntrySubtreeRows(db, s);
    SubtreeRowsCount(db, s, {}, Below(db.entries, from));
    DeleteLeaf(db, s, Below(db.entries, from));
    OwnIdsFree(db, from);
    var rest := DeleteRows(db, {}, Below(db.entries, from));
    var ids := OwnIds(db.entries, from);
    ParentStays(TreeOf(db), s, d);
    assert MayTransplant(db, rest, from, ids, d, db.nextId) by { MayTransplantIntro(db, rest, from, ids, d, db.nextId); }
    TransplantMeansTree(db, rest, from, ids, d, db.nextId);
    MayTransplantParts(db, rest, from, ids, d, db.nextId);
    OwnIdsAre(db.entries, from);
    MovedRowsAreTransplanted(db, l, d, EntryKey(db.zones, d), ids);
    MovedNodes(db, from, s);
    MapSize(MovedEntries(db, l, d, EntryKey(db.zones, d)), Below(db.entries, from));
  }

  lemma MapSize<K, V>(m: map<K, V>, keys: set<K>)
    requires m.Keys == keys
    ensures |m| == |keys|
  {
  }

  lemma OwnIdsAre(entries: Entries, from: Key)
    ensures forall k :: k in OwnIds(entries, from) ==> k in entries && OwnIds(entries, from)[k] == entries[k].id
  {
  }

  lemma RelNotEmpty(db: Tables, s: Path)
    requires HasRoot(db.zones) && forall z :: z in db.zones ==> !(s <= db.zones[z].path)
    ensures Locate(db.zones, s).rel != []
  {
    DeepestAt(db, s);
  }

  lemma ParentStays(t: Tree, s: Path, d: Path)
    requires d != [] && !(s <= d) && d !in t && TreeKind(t, DropLast(d)) == Some(Dir)
    ensures d !in Pruned(t, s) && TreeKind(Pruned(t, s), DropLast(d)) == Some(Dir)
  {
    assert DropLast(d) <= d;
  }

  lemma MayTransplantIntro(db: Tables, base: Tables, from: Key, ids: map<Key, NodeId>, d: Path, nextId: NodeId)
    requires Inv(db) && Inv(base) && base.zones == db.zones && base.store == db.store
    requires from.rel != [] && ids.Keys == Below(db.entries, from)
    requires ValidPath(d) && d != [] && d !in TreeOf(base) && TreeKind(TreeOf(base), DropLast(d)) == Some(Dir)
    requires IdsFree(base, ForestAt(db.entries, from, ids), nextId)
    ensures MayTransplant(db, base, from, ids, d, nextId)
  {
  }

  // ---- The command ----

  lemma MoveUnfolds(db: Tables, s: Path, d: Path)
    requires HasRoot(db.zones)
    ensures s == [] || AtOrUnder(s, d) ==> Move(db, s, d) == Failure(CannotMove)
    ensures !(s == [] || AtOrUnder(s, d)) && KindOf(db, s).None? ==> Move(db, s, d) == Failure(NoSuchPath)
    ensures !(s == [] || AtOrUnder(s, d)) && KindOf(db, s).Some? && ClearDestination(db, d).Failure? ==>
              Move(db, s, d) == Failure(ClearDestination(db, d).error)
    ensures !(s == [] || AtOrUnder(s, d)) && KindOf(db, s).Some? && ClearDestination(db, d).Success? && d != [] ==>
              var c := ClearDestination(db, d).value; var l := Locate(c.zones, s);
              && (l.rel == [] ==>
                    var m := MoveZone(c, s, d, l.zone, Locate(c.zones, DropLast(d)));
                    var zs := ZonesAt(c.zones, s);
                    if m.Success? then Move(db, s, d) == Success(Done(m.value, |zs| + |EntriesOf(c.entries, zs)|))
                    else Move(db, s, d) == Failure(m.error))
              && (l.rel != [] && HasNestedZones(c.zones, s) ==> Move(db, s, d) == Failure(NestedZones))
              && (l.rel != [] && !HasNestedZones(c.zones, s) ==> Move(db, s, d) == MoveEntries(c, l, d, EntryKey(c.zones, d)))
  {
    hide AtOrUnder, KindOf, Locate, MoveZone, ZonesAt, EntriesOf, HasNestedZones, MoveEntries, EntryKey, DeleteRows;
    assert ClearDestination(db, d).Success? ==> ParentIsDirectory(db, d);
  }

  lemma ZoneOrEntry(db: Tables, s: Path)
    requires HasRoot(db.zones) && ZonePathsUnique(db.zones)
    ensures var l := Locate(db.zones, s);
            && (l.rel == [] <==> IsZonePath(db, s))
            && (l.rel == [] ==> l.zone in db.zones && db.zones[l.zone].path == s)
  {
    hide Locate, HasRoot;
    DeepestAt(db, s);
    var l := Locate(db.zones, s);
    if z :| z in db.zones && db.zones[z].path == s { ZoneAtPathIsDeepest(db, s, z); }
    if l.rel == [] { assert db.zones[l.zone].path + [] == s; }
  }

  lemma NoZonesBelow(db: Tables, s: Path)
    requires !IsZonePath(db, s) && !HoldsZones(db, s)
    ensures forall z :: z in db.zones ==> !(s <= db.zones[z].path)
  {
  }

  lemma ClearedSubtree(t: Tree, s: Path, d: Path)
    requires IsTree(t) && MoveRefusal(t, s, d).None?
    ensures Subtree(Pruned(t, d), s) == Subtree(t, s)
    ensures d !in Pruned(t, d) && TreeKind(Pruned(t, d), DropLast(d)) == Some(Dir)
  {
    MoveApart(t, s, d);
    hide IsTree;
    forall q | q in t && s <= q ensures !(d <= q) { NothingBelowBoth(s, d, q); }
    assert !(d <= DropLast(d));
  }

  lemma MoveCleared(db: Tables, c: Tables, s: Path, d: Path)
    requires Inv(c) && ValidPath(d) && s != [] && d != [] && !(s <= d)
    requires d !in TreeOf(c) && TreeKind(TreeOf(c), DropLast(d)) == Some(Dir) && c.zones == db.zones && !HoldsZones(db, s)
    requires HasRoot(db.zones) && KindOf(db, s).Some? && !AtOrUnder(s, d) && ClearDestination(db, d) == Success(c)
    requires SourceJudged(db, s, d) && c.entries == EntriesBut(db, d)
    ensures var m := Move(db, s, d);
            && m.Success? && Inv(m.value.db)
            && TreeOf(m.value.db) == Grafted(Pruned(TreeOf(c), s), d, Extract(TreeOf(c), s))
            && m.value.count == |Subtree(TreeOf(c), s)|
  {
    hide Namespace, StoreOk, Payloads, TreeOf, Locate, ValidPath, EntryKey, HasRoot, ClearDestination, KindOf, AtOrUnder, EntriesJudged, ZonesJudged, EntriesBut,
         Grafted, Pruned, Extract, Subtree, MoveZone, MoveEntries, Move, IsZonePath, HoldsZones, ZonesAt, EntriesOf, HasNestedZones;
    NamespaceParts(c);
    MoveUnfolds(db, s, d);
    ZoneOrEntry(c, s);
    SameZones(db, c, s);
    var l := Locate(c.zones, s);
    if l.rel == [] {
      MoveZoneMeansTree(c, s, d, l.zone);
    } else {
      NoZonesBelow(c, s);
      MoveEntriesMeansTree(c, s, d);
    }
  }

  lemma SameZones(a: Tables, b: Tables, s: Path)
    requires a.zones == b.zones
    ensures IsZonePath(a, s) <==> IsZonePath(b, s)
    ensures HoldsZones(a, s) <==> HoldsZones(b, s)
  {
  }

  /** Clearing the destination takes the row there. */
  lemma ClearedEntries(db: Tables, d: Path)
    requires Inv(db)
    requires d != [] && TreeKind(TreeOf(db), DropLast(d)) == Some(Dir) && !(d in TreeOf(db) && TreeOf(db)[d].kind == Dir)
    ensures HasRoot(db.zones)
    ensures ClearDestination(db, d).Success? && ClearDestination(db, d).value.entries == EntriesBut(db, d)
  {
    hide Namespace, StoreOk, Payloads, TreeOf, KindOf, ParentIsDirectory, Locate, ClearDestination, PathOf, HasRoot, ZonePathsUnique, NamesValid, Homed;
    NamespaceParts(db);
    ParentMeansTree(db, d);
    LookupKind(db, d);
    ClearUnfolds(db, d);
    if d in TreeOf(db) {
      LeafAddress(db, d);
      var l := Locate(db.zones, d);
      var key := Key(l.zone, l.rel);
      forall k | k in db.entries ensures PathOf(db.zones, k) == d <==> k == key {
        if PathOf(db.zones, k) == d { PathsUnique(db.zones, db.entries, k, key); }
      }
      assert db.entries - {key} == EntriesBut(db, d);
    } else {
      forall k | k in db.entries ensures PathOf(db.zones, k) != d { EntryInTree(db, k); }
      assert db.entries == EntriesBut(db, d);
    }
  }

  lemma MoveRefused(db: Tables, s: Path, d: Path)
    requires Inv(db) && HasRoot(db.zones) && (s == [] || (AtOrUnder(s, d) <==> s <= d))
    ensures MoveRefusal(TreeOf(db), s, d).Some? ==> Move(db, s, d) == Failure(MoveRefusal(TreeOf(db), s, d).value)
    ensures MoveRefusal(TreeOf(db), s, d).None? ==> s != [] && d != [] && !AtOrUnder(s, d) && KindOf(db, s).Some?
  {
    hide Inv, TreeOf, KindOf, ParentIsDirectory, AtOrUnder, Move, ClearDestination, HasRoot;
    InvHasNamespace(db);
    LookupKind(db, s);
    LookupKind(db, d);
    ParentMeansTree(db, d);
    MoveUnfolds(db, s, d);
    ClearUnfolds(db, d);
  }

  /** What move should do: re-root exactly the source subtree, keep every node and its id, replace a
      destination that is no directory, change nothing else and return how many nodes moved; refuse
      exactly where the tree says, and when the source is an entry holding zones. */
  ghost predicate MovesTree(db: Tables, s: Path, d: Path)
    requires HasRoot(db.zones)
  {
    var t, r := TreeOf(db), Move(db, s, d);
    if MoveRefusal(t, s, d).Some? then r == Failure(MoveRefusal(t, s, d).value)
    else if HoldsZones(db, s) then r == Failure(NestedZones)
    else r.Success? && Inv(r.value.db) && TreeOf(r.value.db) == Moved(t, s, d) && r.value.count == |Subtree(t, s)|
  }

  /** It does so whenever its tests judge the rows rightly. */
  lemma MoveMeansTree(db: Tables, s: Path, d: Path)
    requires Inv(db) && ValidPath(d) && MoveJudged(db, s, d)
    ensures MovesTree(db, s, d)
  {
    hide Inv, TreeOf, KindOf, ValidPath, AtOrUnder, Move, ClearDestination, HasRoot, HoldsZones, IsTree, IdsDistinct, Grafted, Pruned, Extract, Subtree, TreeKind,
         SourceJudged, EntriesBut;
    InvHasNamespace(db);
    MoveRefused(db, s, d);
    if MoveRefusal(TreeOf(db), s, d).None? {
      RowsMakeTree(db);
      ClearMeansTree(db, d);
      ClearedEntries(db, d);
      var c := ClearDestination(db, d).value;
      InvHasNamespace(c);
      ClearedSubtree(TreeOf(db), s, d);
      if HoldsZones(db, s) {
        MoveHolding(db, c, s, d);
      } else {
        MoveCleared(db, c, s, d);
      }
    }
  }

  lemma MoveHolding(db: Tables, c: Tables, s: Path, d: Path)
    requires Namespace(c.zones, c.entries, c.nextId) && s != [] && d != []
    requires c.zones == db.zones && HoldsZones(db, s)
    requires HasRoot(db.zones) && KindOf(db, s).Some? && !AtOrUnder(s, d) && ClearDestination(db, d) == Success(c)
    requires SourceJudged(db, s, d)
    ensures Move(db, s, d) == Failure(NestedZones)
  {
    hide Namespace, Locate, EntryKey, HasRoot, ClearDestination, KindOf, AtOrUnder, MoveZone, MoveEntries, Move, ZonesJudged, EntriesJudged, EntriesBut,
         IsZonePath, ZonesAt, EntriesOf, HasNestedZones;
    NamespaceParts(c);
    MoveUnfolds(db, s, d);
    ZoneOrEntry(c, s);
    SameZones(db, c, s);
  }

  // ---- The condition on the tests is exact ----

  lemma PlainZones(db: Tables, s: Path)
    requires NamesValid(db.zones, db.entries) && ValidPath(s) && PlainPath(s) && s != []
    ensures ZonesJudged(db.zones, s)
    ensures HasNestedZones(db.zones, s) <==> exists z :: z in db.zones && s < db.zones[z].path
  {
    hide Under, PlainPath, ValidPath;
    forall z | z in db.zones ensures Under(s, db.zones[z].path) <==> s < db.zones[z].path {
      ZoneNameValid(db, z);
      TextTestsMeanPrefix(s, db.zones[z].path);
    }
  }

  lemma PlainEntries(db: Tables, entries: Entries, s: Path)
    requires Namespace(db.zones, db.entries, db.nextId) && ValidPath(s) && PlainPath(s) && !IsZonePath(db, s)
    requires entries.Keys <= db.entries.Keys
    ensures HasRoot(db.zones) && EntriesJudged(entries, Locate(db.zones, s))
  {
    hide Namespace, HasRoot, ZonePathsUnique, PlainPath, ValidPath, AtOrUnderRel, Locate, IsDeepest, IsZonePath;
    NamespaceParts(db);
    LocatedFacts(db, s);
    ZoneOrEntry(db, s);
    var l := Locate(db.zones, s);
    forall k | k in entries ensures AtOrUnderRel(l.rel, k.rel) <==> l.rel <= k.rel {
      assert k in db.entries;
      TextTestsMeanPrefix(l.rel, k.rel);
    }
  }

  /** The tests judge rightly on a source without wildcards. */
  lemma PlainMoveIsJudged(db: Tables, s: Path, d: Path)
    requires Inv(db) && ValidPath(s) && PlainPath(s) && ValidPath(d)
    ensures MoveJudged(db, s, d)
  {
    hide Inv, TreeOf, Namespace, HasRoot, AtOrUnder, ValidPath, PlainPath, ZonesJudged, EntriesJudged, HasNestedZones, Locate, TreeKind;
    InvHasNamespace(db);
    NamespaceParts(db);
    if s != [] {
      TextTestsMeanPrefix(s, d);
      PlainZones(db, s);
      assert EntriesBut(db, d).Keys <= db.entries.Keys;
      if !IsZonePath(db, s) { PlainEntries(db, EntriesBut(db, d), s); }
    }
  }

  lemma OtherErrors(db: Tables, s: Path, d: Path)
    requires HasRoot(db.zones) && s != [] && !AtOrUnder(s, d)
    ensures Move(db, s, d) != Failure(CannotMove)
  {
    hide AtOrUnder, KindOf, Locate, ZonesAt, EntriesOf, HasNestedZones, EntryKey, MovedZones, MovedEntries, Collides, PutRows, ParentIsDirectory;
  }

  lemma DestinationJudged(db: Tables, s: Path, d: Path)
    requires HasRoot(db.zones) && MovesTree(db, s, d)
    ensures s == [] || (AtOrUnder(s, d) <==> s <= d)
  {
    hide TreeOf, AtOrUnder, Move, HoldsZones, TreeKind, Moved, Subtree, Inv, HasRoot;
    if s != [] {
      if AtOrUnder(s, d) {
        MoveUnfolds(db, s, d);
      } else {
        OtherErrors(db, s, d);
      }
    }
  }

  lemma SubsetOfSameSize<T>(a: set<T>, b: set<T>)
    requires a <= b && |b| <= |a|
    ensures a == b
  {
    assert b == a + (b - a);
  }

  lemma SubsetIsSmaller<T>(a: set<T>, b: set<T>)
    requires a <= b
    ensures |a| <= |b|
  {
    assert b == a + (b - a);
  }

  /** A zone of the subtree that the statement misses stays below the source. */
  lemma ZoneNotMissed(c: Tables, t: Tree, s: Path, d: Path, sz: ZoneId, dl: Location, z: ZoneId)
    requires IsTree(t) && MoveRefusal(t, s, d).None? && d != []
    requires TreeOf(c.(zones := MovedZones(c.zones, s, d, sz, dl))) == Moved(t, s, d)
    requires z in c.zones && s <= c.zones[z].path
    ensures AtOrUnder(s, c.zones[z].path)
  {
    var q, moved := c.zones[z].path, c.(zones := MovedZones(c.zones, s, d, sz, dl));
    assert TreeOf(moved).Keys == AllPaths(moved.zones, moved.entries);
    hide TreeOf, AllPaths, AtOrUnder, TextReroot, IsTree, MoveRefusal, Moved;
    if !AtOrUnder(s, q) {
      assert z in moved.zones && moved.zones[z].path == q;
      ZonePathListed(moved.zones, moved.entries, z);
      MovedMeans(t, s, d, q);
    }
  }

  lemma ZonesJudgedIf(c: Tables, t: Tree, s: Path, d: Path, sz: ZoneId, dl: Location)
    requires Namespace(c.zones, c.entries, c.nextId) && IsTree(t) && MoveRefusal(t, s, d).None? && d != []
    requires sz in c.zones && c.zones[sz].path == s && Subtree(TreeOf(c), s) == Subtree(t, s)
    requires TreeOf(c.(zones := MovedZones(c.zones, s, d, sz, dl))) == Moved(t, s, d)
    requires |ZonesAt(c.zones, s)| + |EntriesOf(c.entries, ZonesAt(c.zones, s))| == |Subtree(t, s)|
    ensures ZonesJudged(c.zones, s)
  {
    var at, from := ZonesAt(c.zones, s), ZonesFrom(c.zones, s);
    assert from <= at by {
      forall z | z in from ensures z in at { ZoneNotMissed(c, t, s, d, sz, dl, z); }
    }
    assert EntriesOf(c.entries, from) <= EntriesOf(c.entries, at);
    hide *;
    ZoneSubtreeRows(c, s, sz);
    SubtreeRowsCount(c, s, from, EntriesOf(c.entries, from));
    SubsetIsSmaller(EntriesOf(c.entries, from), EntriesOf(c.entries, at));
    SubsetOfSameSize(from, at);
    SelectedZones(c.zones, s);
  }

  /** An entry of the subtree that the statement misses stays below the source. */
  lemma EntryNotMissed(c: Tables, t: Tree, s: Path, d: Path, l: Location, dk: Key, k: Key)
    requires IsTree(t) && MoveRefusal(t, s, d).None? && d != []
    requires var moves := MovedEntries(c, l, d, dk);
             TreeOf(c.(entries := PutRows(c.entries - moves.Keys, moves))) == Moved(t, s, d)
    requires k in c.entries && s <= PathOf(c.zones, k)
    ensures k in MovedEntries(c, l, d, dk)
  {
    var moves := MovedEntries(c, l, d, dk);
    var moved := c.(entries := PutRows(c.entries - moves.Keys, moves));
    assert TreeOf(moved).Keys == AllPaths(moved.zones, moved.entries);
    hide TreeOf, AllPaths, MovedEntries, IsTree, MoveRefusal, Moved, PathOf;
    if k !in moves {
      assert k in moved.entries;
      EntryPathListed(moved.zones, moved.entries, k);
      MovedMeans(t, s, d, PathOf(c.zones, k));
    }
  }

  lemma SelectedEntries(c: Tables, l: Location, d: Path, dk: Key)
    requires d != []
    ensures EntriesJudged(c.entries, l) <==> MovedEntries(c, l, d, dk).Keys == Below(c.entries, Key(l.zone, l.rel))
  {
    hide AtOrUnderRel, TextRerootRel, ParseRel, RelativeParent, RenderRel;
    var keys, below := MovedEntries(c, l, d, dk).Keys, Below(c.entries, Key(l.zone, l.rel));
    assert forall k :: k in keys <==> k in c.entries && k.zone == l.zone && AtOrUnderRel(l.rel, k.rel);
    assert forall k :: k in below <==> k in c.entries && k.zone == l.zone && l.rel <= k.rel;
  }

  lemma EntriesJudgedIf(c: Tables, t: Tree, s: Path, d: Path, dk: Key)
    requires Namespace(c.zones, c.entries, c.nextId) && IsTree(t) && MoveRefusal(t, s, d).None? && s != [] && d != []
    requires forall z :: z in c.zones ==> !(s <= c.zones[z].path)
    requires HasRoot(c.zones) && Subtree(TreeOf(c), s) == Subtree(t, s)
    requires var moves := MovedEntries(c, Locate(c.zones, s), d, dk);
             TreeOf(c.(entries := PutRows(c.entries - moves.Keys, moves))) == Moved(t, s, d) && |moves| == |Subtree(t, s)|
    ensures EntriesJudged(c.entries, Locate(c.zones, s))
  {
    hide *;
    var l := Locate(c.zones, s);
    var moves, below := MovedEntries(c, l, d, dk), Below(c.entries, Key(l.zone, l.rel));
    EntrySubtreeRows(c, s);
    SubtreeRowsCount(c, s, {}, below);
    forall k | k in below ensures k in moves {
      BelowIsInside(c, s, below, k);
      EntryNotMissed(c, t, s, d, l, dk, k);
    }
    MapSize(moves, moves.Keys);
    SubsetOfSameSize(below, moves.Keys);
    SelectedEntries(c, l, d, dk);
  }

  lemma BelowIsInside(c: Tables, s: Path, below: set<Key>, k: Key)
    requires IsSubtreeRows(c, s, {}, below) && k in below
    ensures k in c.entries && s <= PathOf(c.zones, k)
  {
    hide PathOf;
  }

  /** The tests on the source, if the move did what it should. */
  lemma SourceJudgedIf(db: Tables, c: Tables, s: Path, d: Path)
    requires Namespace(c.zones, c.entries, c.nextId) && c.zones == db.zones && c.entries == EntriesBut(db, d)
    requires IsTree(TreeOf(db)) && MoveRefusal(TreeOf(db), s, d).None? && s != [] && d != []
    requires Subtree(TreeOf(c), s) == Subtree(TreeOf(db), s)
    requires HasRoot(db.zones) && KindOf(db, s).Some? && !AtOrUnder(s, d) && ClearDestination(db, d) == Success(c)
    requires MovesTree(db, s, d)
    ensures SourceJudged(db, s, d)
  {
    hide Namespace, Locate, HasRoot, ClearDestination, KindOf, AtOrUnder, Move, ZonesJudged, EntriesJudged, EntriesBut, TreeOf, IsTree, MoveRefusal, Moved, Inv,
         IsZonePath, ZonesAt, EntriesOf, HasNestedZones, HoldsZones, MovedZones, MovedEntries, Collides, PutRows, Subtree, ZonePathsUnique, EntryKey;
    NamespaceParts(c);
    MoveUnfolds(db, s, d);
    ZoneOrEntry(c, s);
    SameZones(db, c, s);
    var l := Locate(c.zones, s);
    if l.rel == [] {
      ZoneHoldsNone(db, s);
      ZonesJudgedIf(c, TreeOf(db), s, d, l.zone, Locate(c.zones, DropLast(d)));
    } else if !HoldsZones(db, s) {
      NoZonesBelow(c, s);
      EntriesJudgedIf(c, TreeOf(db), s, d, EntryKey(c.zones, d));
    }
  }

  lemma ZoneHoldsNone(db: Tables, s: Path)
    requires IsZonePath(db, s)
    ensures !HoldsZones(db, s)
  {
  }

  /** move does what it should if and only if its tests judge the rows of the volume rightly. */
  lemma MovesTreeIff(db: Tables, s: Path, d: Path)
    requires Inv(db) && ValidPath(d)
    ensures HasRoot(db.zones) && (MovesTree(db, s, d) <==> MoveJudged(db, s, d))
  {
    hide Inv, TreeOf, KindOf, ValidPath, AtOrUnder, Move, ClearDestination, HasRoot, HoldsZones, IsTree, IdsDistinct, Subtree, SourceJudged, EntriesBut, MovesTree,
         TreeKind, Pruned;
    InvHasNamespace(db);
    if MoveJudged(db, s, d) { MoveMeansTree(db, s, d); }
    if MovesTree(db, s, d) {
      DestinationJudged(db, s, d);
      if MoveRefusal(TreeOf(db), s, d).None? {
        MoveRefused(db, s, d);
        RowsMakeTree(db);
        ClearMeansTree(db, d);
        ClearedEntries(db, d);
        ClearedSubtree(TreeOf(db), s, d);
        var c := ClearDestination(db, d).value;
        InvHasNamespace(c);
        SourceJudgedIf(db, c, s, d);
      }
    }
  }
}
