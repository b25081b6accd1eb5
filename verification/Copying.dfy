/** copy: it duplicates exactly the source subtree under fresh ids and counts its nodes. */
module Copying {
  import opened Basics
  import opened Paths
  import opened Tables
  import opened Trees
  import opened Surgery
  import opened Grafting
  import opened Content
  import opened Commands
  import opened Addresses
  import opened Transplanting
  import opened Creating
  import opened Removing
  import opened Moving

  ghost function CopyRefusal(t: Tree, s: Path, d: Path, recursive: bool): Option<Error> {
    if s <= d then Some(CannotCopy)
    else if d in t then Some(DestinationExists)
    else if d == [] || TreeKind(t, DropLast(d)) != Some(Dir) then Some(NoParent)
    else if s !in t then Some(NoSuchPath)
    else if t[s].kind == Dir && !recursive then Some(OmittingDirectory)
    else None
  }

  ghost predicate ZonesBelow(db: Tables, p: Path) { exists z :: z in db.zones && p < db.zones[z].path }

  /** The entries selected below a source that is an entry holding no zones are those at or below it. */
  ghost predicate KeysJudged(db: Tables, s: Path, recursive: bool)
    requires HasRoot(db.zones)
  {
    var l := Locate(db.zones, s);
    IsZonePath(db, s) || ZonesBelow(db, s) || CopiedKeys(db, l, recursive) == Below(db.entries, Key(l.zone, l.rel))
  }

  /** The tests of copy judge the paths rightly: whether the destination is at or below the source, and
      unless the tree refuses the copy, whether a directory holds zones and which entries are below it. */
  ghost predicate CopyJudged(db: Tables, s: Path, d: Path, recursive: bool) {
    && HasRoot(db.zones)
    && (s == [] || (AtOrUnder(s, d) <==> s <= d))
    && (CopyRefusal(TreeOf(db), s, d, recursive).None? ==>
          && (TreeOf(db)[s].kind == Dir ==> (HasNestedZones(db.zones, s) <==> ZonesBelow(db, s)))
          && KeysJudged(db, s, recursive))
  }

  /** `u` is `t` with the subtree at `s` duplicated at `d`: the copies differ from their originals
      in nothing but their ids, which no node of `t` carries. */
  ghost predicate Duplicated(t: Tree, u: Tree, s: Path, d: Path) {
    && (forall q :: q in u <==> q in t || (d <= q && s + q[|d|..] in t))
    && (forall q :: q in t ==> u[q] == t[q])
    && forall q :: q in u && q !in t ==> u[q] == t[s + q[|d|..]].(id := u[q].id) && FreshId(t, u[q].id)
  }

  /** `nodes` is a copy of the nodes at and below `s`, the topmost one aside if `below`. */
  ghost predicate FreshCopy(t: Tree, nodes: Tree, s: Path, below: bool) {
    forall r :: (r in nodes <==> s + r in t && (below ==> r != []))
                && (r in nodes && s + r in t ==> nodes[r] == t[s + r].(id := nodes[r].id) && FreshId(t, nodes[r].id))
  }

  lemma GraftedCopy(t: Tree, nodes: Tree, s: Path, d: Path, q: Path)
    requires FreshCopy(t, nodes, s, false) && Vacant(t, d)
    ensures var u := Grafted(t, d, nodes);
            && (q in u <==> q in t || (d <= q && s + q[|d|..] in t))
            && (q in t ==> u[q] == t[q])
            && (q in u && q !in t ==> u[q] == t[s + q[|d|..]].(id := u[q].id) && FreshId(t, u[q].id))
  {
    hide Planted, FreshId;
    PlantedAt(d, nodes, q);
  }

  lemma GraftedMeansDuplicated(t: Tree, nodes: Tree, s: Path, d: Path)
    requires FreshCopy(t, nodes, s, false) && Vacant(t, d)
    ensures Duplicated(t, Grafted(t, d, nodes), s, d)
  {
    hide Grafted, FreshId, FreshCopy, Vacant;
    forall q
      ensures var u := Grafted(t, d, nodes);
              && (q in u <==> q in t || (d <= q && s + q[|d|..] in t))
              && (q in t ==> u[q] == t[q])
              && (q in u && q !in t ==> u[q] == t[s + q[|d|..]].(id := u[q].id) && FreshId(t, u[q].id))
    {
      GraftedCopy(t, nodes, s, d, q);
    }
  }

  // ---- Fresh ids ----

  lemma FreshIdsFree(base: Tables, entries: Entries, from: Key, next: NodeId, order: RowOrder)
    requires Enumerating(order)
    requires IdsUnique(base.zones, base.entries, base.nextId) && base.nextId == next
    ensures var ids := Assign(order(Below(entries, from)), next);
            && ids.Keys == Below(entries, from)
            && IdsFree(base, ForestAt(entries, from, ids), next + |Below(entries, from)|)
  {
    hide *;
    var keys := Below(entries, from);
    var ids := Assign(order(keys), next);
    AssignedIds(order, keys, next);
    var rows := ForestAt(entries, from, ids);
    forall q, r | q in rows && r in rows && rows[q].id == rows[r].id ensures q == r {
      ForestIdAt(entries, from, ids, q, r);
    }
    forall r | r in rows ensures next <= rows[r].id < next + |keys| {
      ForestIdBound(entries, from, ids, next, next + |keys|, r);
    }
    IdsFreeIntro(base, rows, next, next + |keys|);
  }

  lemma ForestIdBound(entries: Entries, from: Key, ids: map<Key, NodeId>, next: NodeId, nextId: NodeId, r: Path)
    requires ids.Keys == Below(entries, from) && r in ForestAt(entries, from, ids)
    requires forall k :: k in ids ==> next <= ids[k] < nextId
    ensures next <= ForestAt(entries, from, ids)[r].id < nextId
  {
    hide ForestAt, Below;
    ForestRow(entries, from, ids, r);
  }

  lemma IdsFreeIntro(base: Tables, rows: Forest, next: NodeId, nextId: NodeId)
    requires IdsUnique(base.zones, base.entries, base.nextId) && base.nextId == next <= nextId
    requires forall r :: r in rows ==> next <= rows[r].id < nextId
    requires forall q, r :: q in rows && r in rows && rows[q].id == rows[r].id ==> q == r
    ensures IdsFree(base, rows, nextId)
  {
  }

  lemma AssignedIsFresh(db: Tables, keys: set<Key>, next: NodeId, k: Key, order: RowOrder)
    requires Enumerating(order)
    requires Namespace(db.zones, db.entries, db.nextId) && next >= db.nextId && k in keys
    ensures k in Assign(order(keys), next) && FreshId(TreeOf(db), Assign(order(keys), next)[k])
  {
    hide Namespace, TreeOf, IsTree, IdsDistinct, ValidPath, Assign, Enumerating;
    RowsMakeTree(db);
    AssignedIds(order, keys, next);
  }

  /** The keys below the source, as the tree sees them. */
  lemma CopiedKey(db: Tables, from: Key, s: Path, r: Path)
    requires Namespace(db.zones, db.entries, db.nextId)
    requires IsDeepest(db.zones, s, from.zone) && db.zones[from.zone].path + from.rel == s
    requires !ZonesBelow(db, s)
    ensures Key(from.zone, from.rel + r) in db.entries <==> s + r in TreeOf(db) && (from.rel == [] ==> r != [])
  {
    hide Namespace, TreeOf, PathOf;
    NamespaceParts(db);
    if from.rel != [] {
      forall z | z in db.zones ensures !(s <= db.zones[z].path) {
        assert |db.zones[z].path| <= |db.zones[from.zone].path| || !(db.zones[z].path <= s);
      }
      KeyBelowInTree(db, from, s, r);
    } else {
      ZoneKeyInTree(db, from.zone, r);
      assert [] + r == r && db.zones[from.zone].path == s;
    }
  }

  /** In a zone that holds no zones, the tree is its entries. */
  lemma ZoneKeyInTree(db: Tables, z: ZoneId, r: Path)
    requires Namespace(db.zones, db.entries, db.nextId) && z in db.zones && !ZonesBelow(db, db.zones[z].path)
    ensures Key(z, r) in db.entries <==> db.zones[z].path + r in TreeOf(db) && r != []
  {
    hide Namespace, TreeOf, NodeOf, ZonesBelow;
    NamespaceParts(db);
    var p, k := db.zones[z].path, Key(z, r);
    if k in db.entries {
      EntryInTree(db, k);
      assert k.rel != [] by { assert NamesValid(db.zones, db.entries); }
    }
    if p + r in TreeOf(db) && r != [] {
      PathIsRow(db, p + r);
      assert p <= p + r && p != p + r;
      forall y | y in db.zones ensures db.zones[y].path != p + r { NotBelow(db, p, y); }
      var j :| j in db.entries && PathOf(db.zones, j) == p + r;
      ZoneEntryBelow(db, z, j);
      assert j.rel == (p + r)[|p|..] == r;
    }
  }

  lemma NotBelow(db: Tables, p: Path, y: ZoneId)
    requires y in db.zones && !ZonesBelow(db, p)
    ensures !(p < db.zones[y].path)
  {
  }

  lemma ZoneEntryBelow(db: Tables, z: ZoneId, k: Key)
    requires Namespace(db.zones, db.entries, db.nextId) && z in db.zones && !ZonesBelow(db, db.zones[z].path) && k in db.entries
    ensures db.zones[z].path <= PathOf(db.zones, k) <==> k.zone == z
  {
    hide EntryParents, ZoneParents, Labelled, IdsUnique, HasRoot, PathOf, Homed;
    var p := db.zones[z].path;
    EntryInsideZone(db, p, z, k);
    if p <= db.zones[k.zone].path {
      assert !(p < db.zones[k.zone].path);
    }
  }

  lemma CopiedNodes(db: Tables, from: Key, s: Path, next: NodeId, order: RowOrder)
    requires Enumerating(order)
    requires Namespace(db.zones, db.entries, db.nextId) && next >= db.nextId
    requires IsDeepest(db.zones, s, from.zone) && db.zones[from.zone].path + from.rel == s
    requires !ZonesBelow(db, s)
    ensures FreshCopy(TreeOf(db), NodesOf(db.store, ForestAt(db.entries, from, Assign(order(Below(db.entries, from)), next))), s, from.rel == [])
  {
    hide Namespace, TreeOf, NodesOf, ForestAt, Extract, Assign, Below, IsDeepest, ZonesBelow, FreshId;
    AssignedIds(order, Below(db.entries, from), next);
    var t, ids := TreeOf(db), Assign(order(Below(db.entries, from)), next);
    var nodes := NodesOf(db.store, ForestAt(db.entries, from, ids));
    forall r
      ensures r in nodes <==> s + r in t && (from.rel == [] ==> r != [])
      ensures r in nodes && s + r in t ==> nodes[r] == t[s + r].(id := nodes[r].id) && FreshId(t, nodes[r].id)
    {
      CopiedKey(db, from, s, r);
      ZoneListed(db, s, from.zone);
      ForestNode(db, db.entries, from, ids, s, r);
      ExtractAt(t, s, r);
      if r in nodes { AssignedIsFresh(db, Below(db.entries, from), next, Key(from.zone, from.rel + r), order); }
    }
  }

  // ---- An entry source ----

  lemma CopiedRow(db: Tables, sl: Location, d: Path, dk: Key, recursive: bool, ids: map<Key, NodeId>, k: Key, order: RowOrder)
    requires Enumerating(order)
    requires NamesValid(db.zones, db.entries) && Labelled(db.entries)
    requires sl.rel != [] && dk.rel != [] && ValidPath(dk.rel) && d != [] && Last(dk.rel) == Last(d)
    requires ids == Assign(order(Below(db.entries, Key(sl.zone, sl.rel))), db.nextId)
    requires CopiedKeys(db, sl, recursive) == Below(db.entries, Key(sl.zone, sl.rel))
    ensures var copies := CopiedEntries(db, sl, d, dk, recursive, order); var rows := Transplanted(db.entries, Key(sl.zone, sl.rel), ids, dk);
            && (k in copies <==> k in ids) && (k in rows <==> k in ids)
            && (k in copies && k in rows ==> copies[k] == rows[k])
  {
    hide ValidPath, TextRerootRel, UnderRel, ParseRel, RelativeParent, RenderRel, Assign, Enumerating, Below, CopiedKeys;
    AssignedIds(order, Below(db.entries, Key(sl.zone, sl.rel)), db.nextId);
    BelowIs(db.entries, Key(sl.zone, sl.rel), k);
    if k in ids {
      assert ValidPath(k.rel) && k.rel != [];
      TextRerootIs(k.rel, sl.rel, dk.rel);
      ShiftedLabel(k.rel, sl.rel, dk.rel);
      assert db.entries[k].name == Last(k.rel);
    }
  }

  lemma BelowIs(entries: Entries, from: Key, k: Key)
    ensures k in Below(entries, from) <==> k in entries && k.zone == from.zone && from.rel <= k.rel
  {
  }

  lemma CopiedRowsAreTransplanted(db: Tables, sl: Location, d: Path, dk: Key, recursive: bool, order: RowOrder)
    requires Enumerating(order)
    requires NamesValid(db.zones, db.entries) && Labelled(db.entries)
    requires sl.rel != [] && dk.rel != [] && ValidPath(dk.rel) && d != [] && Last(dk.rel) == Last(d)
    requires CopiedKeys(db, sl, recursive) == Below(db.entries, Key(sl.zone, sl.rel))
    ensures var from := Key(sl.zone, sl.rel);
            CopiedEntries(db, sl, d, dk, recursive, order) == Transplanted(db.entries, from, Assign(order(Below(db.entries, from)), db.nextId), dk)
  {
    hide *;
    var ids := Assign(order(Below(db.entries, Key(sl.zone, sl.rel))), db.nextId);
    var copies, rows := CopiedEntries(db, sl, d, dk, recursive, order), Transplanted(db.entries, Key(sl.zone, sl.rel), ids, dk);
    forall k ensures (k in copies <==> k in rows) && (k in copies && k in rows ==> copies[k] == rows[k]) {
      CopiedRow(db, sl, d, dk, recursive, ids, k, order);
    }
    SameMap(copies, rows);
  }

  /** The address of an entry source: a key of its zone, with no zone at or below. */
  ghost predicate EntrySource(db: Tables, s: Path, l: Location) {
    && HasRoot(db.zones) && l == Locate(db.zones, s) && l.rel != []
    && IsDeepest(db.zones, s, l.zone) && db.zones[l.zone].path + l.rel == s
    && !ZonesBelow(db, s) && IsSubtreeRows(db, s, {}, Below(db.entries, Key(l.zone, l.rel)))
  }

  lemma EntrySourceAt(db: Tables, s: Path)
    requires Namespace(db.zones, db.entries, db.nextId) && s != []
    requires !IsZonePath(db, s) && !ZonesBelow(db, s)
    ensures HasRoot(db.zones) && EntrySource(db, s, Locate(db.zones, s))
  {
    hide Namespace, Locate, IsSubtreeRows, HasRoot, IsDeepest, Below, ZonesBelow, IsZonePath, ZonePathsUnique;
    NamespaceParts(db);
    DeepestAt(db, s);
    ZoneOrEntry(db, s);
    NoZoneAtOrBelow(db, s);
    EntrySubtreeRows(db, s);
  }

  /** The statement plants a fresh copy of the subtree's nodes. */
  lemma CopiedEntriesPlanted(db: Tables, s: Path, d: Path, l: Location, order: RowOrder)
    requires Enumerating(order)
    requires Inv(db) && EntrySource(db, s, l)
    requires ValidPath(d) && d != [] && d !in TreeOf(db) && TreeKind(TreeOf(db), DropLast(d)) == Some(Dir)
    ensures var from, dk := Key(l.zone, l.rel), EntryKey(db.zones, d);
            var ids := Assign(order(Below(db.entries, from)), db.nextId);
            var moves := Transplanted(db.entries, from, ids, dk);
            var a := db.(entries := PutRows(db.entries, moves), nextId := db.nextId + |Below(db.entries, from)|);
            && !Collides(db.entries, moves) && |moves| == |Below(db.entries, from)| == |Subtree(TreeOf(db), s)|
            && Inv(a) && Duplicated(TreeOf(db), TreeOf(a), s, d)
            && dk.rel != [] && ValidPath(dk.rel) && Last(dk.rel) == Last(d)
  {
    hide Namespace, StoreOk, Payloads, TreeOf, Locate, PlainPath, ValidPath, IsSubtreeRows, EntryKey, HasRoot, IdsUnique, MayTransplant, IsDeepest,
         Grafted, Subtree, Below, ForestAt, NodesOf, Collides, PutRows, Transplanted, IdsFree, Assign, FreshCopy, Duplicated, ZonesBelow, Vacant, TreeKind;
    var from := Key(l.zone, l.rel);
    IdsAreUnique(db);
    FreshIdsFree(db, db.entries, from, db.nextId, order);
    var ids := Assign(order(Below(db.entries, from)), db.nextId);
    var nextId := db.nextId + |Below(db.entries, from)|;
    MayTransplantIntro(db, db, from, ids, d, nextId);
    TransplantMeansTree(db, db, from, ids, d, nextId);
    MayTransplantParts(db, db, from, ids, d, nextId);
    MapSize(Transplanted(db.entries, from, ids, EntryKey(db.zones, d)), Below(db.entries, from));
    SubtreeRowsCount(db, s, {}, Below(db.entries, from));
    CopiedNodes(db, from, s, db.nextId, order);
    VacantBelow(db, d);
    GraftedMeansDuplicated(TreeOf(db), NodesOf(db.store, ForestAt(db.entries, from, ids)), s, d);
  }

  lemma IdsAreUnique(db: Tables)
    requires Namespace(db.zones, db.entries, db.nextId)
    ensures HasRoot(db.zones) && IdsUnique(db.zones, db.entries, db.nextId)
    ensures NamesValid(db.zones, db.entries) && Labelled(db.entries)
  {
    hide HasRoot, ZonePathsUnique, NamesValid, Homed, EntryParents, ZoneParents, Labelled, IdsUnique;
  }

  lemma CopyEntriesMeansTree(db: Tables, s: Path, d: Path, recursive: bool, order: RowOrder)
    requires Enumerating(order)
    requires Inv(db) && ValidPath(d) && s != [] && d != []
    requires HasRoot(db.zones) && !IsZonePath(db, s) && !ZonesBelow(db, s) && KeysJudged(db, s, recursive)
    requires d !in TreeOf(db) && TreeKind(TreeOf(db), DropLast(d)) == Some(Dir)
    ensures var c := CopyEntries(db, Locate(db.zones, s), d, EntryKey(db.zones, d), recursive, order);
            && c.Success? && Inv(c.value.db) && Duplicated(TreeOf(db), TreeOf(c.value.db), s, d)
            && c.value.count == |Subtree(TreeOf(db), s)|
  {
    hide Inv, TreeOf, Locate, PlainPath, ValidPath, EntryKey, HasRoot, NamesValid, Labelled, IsSubtreeRows, IsDeepest, IdsUnique,
         Subtree, Below, CopiedEntries, Collides, PutRows, Transplanted, Assign, CopiedKeys, Duplicated, WholeSubtree, ZonesBelow, IsZonePath, TreeKind, EntrySource;
    InvHasNamespace(db);
    EntrySourceAt(db, s);
    var l := Locate(db.zones, s);
    IdsAreUnique(db);
    CopiedEntriesPlanted(db, s, d, l, order);
    EntrySourceIs(db, s, l);
    CopiedRowsAreTransplanted(db, l, d, EntryKey(db.zones, d), recursive, order);
  }

  lemma EntrySourceIs(db: Tables, s: Path, l: Location)
    requires EntrySource(db, s, l)
    ensures l.rel != [] && l.zone in db.zones && db.zones[l.zone].path + l.rel == s
  {
    hide IsSubtreeRows, Below;
  }

  lemma NoZoneAtOrBelow(db: Tables, s: Path)
    requires !IsZonePath(db, s) && !ZonesBelow(db, s)
    ensures forall z :: z in db.zones ==> !(s <= db.zones[z].path)
  {
  }

  lemma VacantBelow(db: Tables, d: Path)
    requires Namespace(db.zones, db.entries, db.nextId) && d !in TreeOf(db)
    ensures Vacant(TreeOf(db), d)
  {
    hide Namespace, TreeOf, IsTree, IdsDistinct, ValidPath, Vacant;
    RowsMakeTree(db);
    MissingMeansVacant(TreeOf(db), d);
  }

  // ---- A zone source ----

  lemma ZoneCopyRow(db: Tables, sz: ZoneId, nz: ZoneId, k: Key, order: RowOrder)
    requires Enumerating(order)
    requires NamesValid(db.zones, db.entries) && Labelled(db.entries)
    ensures var from := Key(sz, []); var ids := Assign(order(Below(db.entries, from)), nz + 1);
            var copies, rows := CopiedZoneEntries(db, sz, nz, order), Transplanted(db.entries, from, ids, Key(nz, []));
            (k in copies <==> k in rows) && (k in copies && k in rows ==> copies[k] == rows[k])
  {
    hide ValidPath, Assign, Enumerating;
    AssignedIds(order, Below(db.entries, Key(sz, [])), nz + 1);
    assert EntriesOf(db.entries, {sz}) == Below(db.entries, Key(sz, []));
    if k in db.entries {
      assert [] + k.rel[0..] == k.rel;
    }
  }

  lemma ZoneCopyRows(db: Tables, sz: ZoneId, nz: ZoneId, order: RowOrder)
    requires Enumerating(order)
    requires NamesValid(db.zones, db.entries) && Labelled(db.entries)
    ensures var from := Key(sz, []);
            CopiedZoneEntries(db, sz, nz, order) == Transplanted(db.entries, from, Assign(order(Below(db.entries, from)), nz + 1), Key(nz, []))
  {
    hide *;
    var ids := Assign(order(Below(db.entries, Key(sz, []))), nz + 1);
    var copies, rows := CopiedZoneEntries(db, sz, nz, order), Transplanted(db.entries, Key(sz, []), ids, Key(nz, []));
    forall k ensures (k in copies <==> k in rows) && (k in copies && k in rows ==> copies[k] == rows[k]) {
      ZoneCopyRow(db, sz, nz, k, order);
    }
    SameMap(copies, rows);
  }

  lemma NewZonePaths(db: Tables, nz: ZoneId, row: Zone, p: Path)
    requires MayAddZone(db, nz, row)
    requires p in AllPaths(AddZone(db, nz, row).zones, AddZone(db, nz, row).entries) && row.path <= p
    ensures p == row.path
  {
    hide Namespace, TreeOf, AllPaths, MayAddZone, ValidPath, AddZone, Vacant;
    AddZoneParts(db, nz, row);
    AddZoneParts(AddZone(db, nz, row), nz, row);
    AddZonePlants(db, nz, row);
    VacantBelowRow(db, nz, row);
  }

  /** The new zone is empty, so it has room for every row. */
  lemma NewZoneRoom(db: Tables, nz: ZoneId, row: Zone, rows: Forest)
    requires MayAddZone(db, nz, row) && [] !in rows
    ensures Room(AddZone(db, nz, row), nz, [], rows)
  {
    hide Namespace, AllPaths, MayAddZone, ValidName;
    var a := AddZone(db, nz, row);
    assert row.path + [] == row.path && a.zones[nz].path == row.path;
    forall p | p in AllPaths(a.zones, a.entries) && row.path <= p ensures p == row.path {
      NewZonePaths(db, nz, row, p);
    }
  }

  lemma VacantBelowRow(db: Tables, nz: ZoneId, row: Zone)
    requires MayAddZone(db, nz, row)
    ensures forall p :: p in TreeOf(db) ==> !(row.path <= p)
    ensures Vacant(TreeOf(db), row.path)
  {
    assert TreeOf(db).Keys == AllPaths(db.zones, db.entries);
    hide TreeOf, AllPaths, Namespace, ZoneParent;
  }

  lemma ZoneBelowIs(db: Tables, s: Path, sz: ZoneId)
    requires ZonePathsUnique(db.zones) && sz in db.zones && db.zones[sz].path == s && !ZonesBelow(db, s)
    ensures forall z :: z in db.zones ==> (z == sz <==> s <= db.zones[z].path)
  {
    forall z | z in db.zones && s <= db.zones[z].path ensures db.zones[z].path == s {
      assert !(s < db.zones[z].path);
    }
  }

  lemma ZoneSubtreeIs(db: Tables, s: Path, sz: ZoneId)
    requires Namespace(db.zones, db.entries, db.nextId) && sz in db.zones && db.zones[sz].path == s && !ZonesBelow(db, s)
    ensures IsSubtreeRows(db, s, {sz}, Below(db.entries, Key(sz, [])))
  {
    hide Namespace, PathOf, Homed, HasRoot, NamesValid, EntryParents, ZoneParents, Labelled, IdsUnique, ZonePathsUnique, ZonesBelow;
    NamespaceParts(db);
    ZoneBelowIs(db, s, sz);
    forall k | k in db.entries ensures s <= PathOf(db.zones, k) <==> k.zone == sz {
      ZoneEntryBelow(db, sz, k);
    }
  }

  lemma NewZoneAllowed(db: Tables, d: Path)
    requires Namespace(db.zones, db.entries, db.nextId) && ValidPath(d) && d != [] && d !in TreeOf(db)
    requires TreeKind(TreeOf(db), DropLast(d)) == Some(Dir)
    ensures HasRoot(db.zones)
    ensures var dl := Locate(db.zones, DropLast(d));
            MayAddZone(db, db.nextId, Zone(d, Some(dl.zone), Some(dl.rel), Last(d)))
  {
    hide Namespace, TreeOf, Locate, ValidPath, IsDirAddress, VacantRows;
    NamespaceParts(db);
    DirectoryAddress(db, DropLast(d));
    MissingMeansVacantRows(db, d);
  }

  lemma CopyZoneUnfolds(db: Tables, sz: ZoneId, d: Path, dl: Location, order: RowOrder)
    requires d != []
    ensures var nz, row := db.nextId, Zone(d, Some(dl.zone), Some(dl.rel), Last(d));
            var copies := CopiedZoneEntries(db, sz, nz, order);
            var a := AddZone(db, nz, row);
            CopyZone(db, sz, d, dl, order) ==
            Done(a.(entries := PutRows(a.entries, copies), nextId := nz + 1 + |copies|), |copies| + 1)
  {
    hide CopiedZoneEntries, PutRows;
  }

  /** The zone's rows planted in the new, empty zone. */
  lemma CopiedZoneRows(db: Tables, sz: ZoneId, row: Zone, order: RowOrder)
    requires Enumerating(order)
    requires Inv(db) && MayAddZone(db, db.nextId, row)
    ensures var nz, from := db.nextId, Key(sz, []); var copies := CopiedZoneEntries(db, sz, nz, order);
            var a := AddZone(db, nz, row);
            var c := a.(entries := PutRows(a.entries, copies), nextId := nz + 1 + |copies|);
            var nodes := NodesOf(db.store, ForestAt(db.entries, from, Assign(order(Below(db.entries, from)), nz + 1)));
            && |copies| == |Below(db.entries, from)|
            && Inv(c) && TreeOf(c) == Grafted(TreeOf(a), row.path, nodes)
  {
    hide Namespace, StoreOk, Payloads, TreeOf, ValidPath, HasRoot, IdsUnique, NamesValid, Labelled, EntryParents, ZoneParents, Homed, ZonePathsUnique, IsForest, Room,
         Grafted, Below, ForestAt, NodesOf, CopiedZoneEntries, Collides, PutRows, Transplanted, IdsFree, Assign, MayAddZone, PlantedEntries, AddZone;
    var nz, from := db.nextId, Key(sz, []);
    var a := AddZone(db, nz, row);
    NamespaceParts(db);
    AddZoneKeepsNamespace(db, nz, row);
    NamespaceParts(a);
    AddZoneNext(db, nz, row);
    AddZoneParts(db, nz, row);
    var ids := Assign(order(Below(db.entries, from)), nz + 1);
    FreshIdsFree(a, db.entries, from, nz + 1, order);
    ForestIsForest(db.entries, db.zones, from, ids);
    var rows := ForestAt(db.entries, from, ids);
    NewZoneRoom(db, nz, row, rows);
    NewKeys(a, nz, [], rows);
    TransplantIsGraft(a.entries, db.entries, from, ids, Key(nz, []));
    NamedEntries(db);
    AllTransplanted(db.entries, from, ids, Key(nz, []));
    ZoneCopyRows(db, sz, nz, order);
    MapSize(CopiedZoneEntries(db, sz, nz, order), Below(db.entries, from));
    var next := nz + 1 + |Below(db.entries, from)|;
    GraftKeepsNamespace(a, nz, [], rows, next);
    GraftPlants(a, nz, [], rows, next);
    PlantedPayloads(db.entries, a.entries, db.store, from, ids, Key(nz, []));
    NewZonePath(db, nz, row);
  }

  lemma NamedEntries(db: Tables)
    requires NamesValid(db.zones, db.entries)
    ensures forall k :: k in db.entries ==> k.rel != []
  {
  }

  lemma AddZoneNext(db: Tables, nz: ZoneId, row: Zone)
    requires nz >= db.nextId
    ensures AddZone(db, nz, row).nextId == nz + 1
  {
  }

  lemma NewZonePath(db: Tables, nz: ZoneId, row: Zone)
    ensures AddZone(db, nz, row).zones[nz].path + [] == row.path
  {
  }

  lemma RootedCopy(t: Tree, nodes: Tree, s: Path, d: Path, n: Node)
    requires FreshCopy(t, nodes, s, true) && Vacant(t, d) && s in t && n == t[s].(id := n.id) && FreshId(t, n.id)
    ensures Duplicated(t, Grafted(t[d := n], d, nodes), s, d)
  {
    hide FreshId, Grafted;
    var whole := nodes[[] := n];
    assert FreshCopy(t, whole, s, false) by { assert s + [] == s; }
    PlantRoot(t, nodes, d, n);
    GraftedMeansDuplicated(t, whole, s, d);
  }

  lemma PlantRootAt(t: Tree, nodes: Tree, d: Path, n: Node, q: Path)
    requires [] !in nodes
    ensures var a, b := Grafted(t[d := n], d, nodes), Grafted(t, d, nodes[[] := n]);
            (q in a <==> q in b) && (q in a && q in b ==> a[q] == b[q])
  {
    hide Planted;
    PlantedAt(d, nodes, q);
    PlantedAt(d, nodes[[] := n], q);
    if d <= q && q[|d|..] == [] { assert q == d; }
  }

  lemma PlantRoot(t: Tree, nodes: Tree, d: Path, n: Node)
    requires [] !in nodes
    ensures Grafted(t[d := n], d, nodes) == Grafted(t, d, nodes[[] := n])
  {
    hide *;
    var a, b := Grafted(t[d := n], d, nodes), Grafted(t, d, nodes[[] := n]);
    forall q ensures (q in a <==> q in b) && (q in a && q in b ==> a[q] == b[q]) {
      PlantRootAt(t, nodes, d, n, q);
    }
    SameMap(a, b);
  }

  lemma CopyZoneMeansTree(db: Tables, s: Path, d: Path, sz: ZoneId, order: RowOrder)
    requires Enumerating(order)
    requires Inv(db) && ValidPath(d) && s != [] && d != [] && sz in db.zones && db.zones[sz].path == s && !ZonesBelow(db, s)
    requires d !in TreeOf(db) && TreeKind(TreeOf(db), DropLast(d)) == Some(Dir)
    ensures HasRoot(db.zones)
    ensures var c := CopyZone(db, sz, d, Locate(db.zones, DropLast(d)), order);
            && Inv(c.db) && Duplicated(TreeOf(db), TreeOf(c.db), s, d)
            && c.count == |Subtree(TreeOf(db), s)|
  {
    hide Namespace, StoreOk, Payloads, TreeOf, Locate, ValidPath, HasRoot, IsDeepest, Grafted, Subtree, Below, ForestAt, NodesOf, CopiedZoneEntries, PutRows, CopyZone,
         Assign, FreshCopy, Duplicated, ZonesBelow, Vacant, MayAddZone, AddZone, IsSubtreeRows, FreshId, ZonePathsUnique, TreeKind;
    LookupKind(db, d);
    NewZoneAllowed(db, d);
    var dl, nz, from := Locate(db.zones, DropLast(d)), db.nextId, Key(sz, []);
    var row := Zone(d, Some(dl.zone), Some(dl.rel), Last(d));
    CopyZoneUnfolds(db, sz, d, dl, order);
    CopiedZoneRows(db, sz, row, order);
    AddZonePlants(db, nz, row);
    ZoneDeepest(db, sz);
    ZoneInTree(db, sz);
    NextIdIsFresh(db);
    VacantBelow(db, d);
    CopiedNodes(db, from, s, nz + 1, order);
    RootedCopy(TreeOf(db), NodesOf(db.store, ForestAt(db.entries, from, Assign(order(Below(db.entries, from)), nz + 1))), s, d, DirNode(nz));
    ZoneSubtreeIs(db, s, sz);
    SubtreeRowsCount(db, s, {sz}, Below(db.entries, from));
  }

  lemma ZoneDeepest(db: Tables, sz: ZoneId)
    requires Namespace(db.zones, db.entries, db.nextId) && sz in db.zones
    ensures IsDeepest(db.zones, db.zones[sz].path, sz) && db.zones[sz].path + [] == db.zones[sz].path
    ensures ZonePathsUnique(db.zones)
  {
  }

  // ---- The command ----

  lemma CopyUnfolds(db: Tables, s: Path, d: Path, recursive: bool, order: RowOrder)
    requires HasRoot(db.zones)
    ensures s == [] || AtOrUnder(s, d) ==> Copy(db, s, d, recursive, order) == Failure(CannotCopy)
    ensures !(s == [] || AtOrUnder(s, d)) && KindOf(db, d).Some? ==> Copy(db, s, d, recursive, order) == Failure(DestinationExists)
    ensures !(s == [] || AtOrUnder(s, d)) && KindOf(db, d).None? && !ParentIsDirectory(db, d) ==>
              Copy(db, s, d, recursive, order) == Failure(NoParent)
    ensures !(s == [] || AtOrUnder(s, d)) && KindOf(db, d).None? && ParentIsDirectory(db, d) ==>
              var l := Locate(db.zones, s); var key := Key(l.zone, l.rel); var nested := HasNestedZones(db.zones, s);
              && d != []
              && (l.rel == [] && !recursive ==> Copy(db, s, d, recursive, order) == Failure(OmittingDirectory))
              && (l.rel == [] && recursive && nested ==> Copy(db, s, d, recursive, order) == Failure(NestedZones))
              && (l.rel == [] && recursive && !nested ==>
                    Copy(db, s, d, recursive, order) == Success(CopyZone(db, l.zone, d, Locate(db.zones, DropLast(d)), order)))
              && (l.rel != [] && key !in db.entries ==> Copy(db, s, d, recursive, order) == Failure(NoSuchPath))
              && (l.rel != [] && key in db.entries ==>
                    var dir := db.entries[key].payload.kind == Dir;
                    && (dir && !recursive ==> Copy(db, s, d, recursive, order) == Failure(OmittingDirectory))
                    && (dir && recursive && nested ==> Copy(db, s, d, recursive, order) == Failure(NestedZones))
                    && ((dir ==> recursive && !nested) ==> Copy(db, s, d, recursive, order) == CopyEntries(db, l, d, EntryKey(db.zones, d), recursive, order)))
  {
    hide AtOrUnder, KindOf, Locate, CopyZone, HasNestedZones, CopyEntries, EntryKey;
  }

  lemma SourceFacts(db: Tables, s: Path)
    requires Namespace(db.zones, db.entries, db.nextId)
    ensures HasRoot(db.zones)
    ensures var l := Locate(db.zones, s); var key := Key(l.zone, l.rel);
            && (l.rel == [] <==> IsZonePath(db, s))
            && (l.rel == [] ==> l.zone in db.zones && db.zones[l.zone].path == s && s in TreeOf(db) && TreeOf(db)[s].kind == Dir)
            && (l.rel != [] ==> (key in db.entries <==> s in TreeOf(db)))
            && (l.rel != [] && key in db.entries && s in TreeOf(db) ==> db.entries[key].payload.kind == TreeOf(db)[s].kind)
  {
    hide TreeOf, Locate, Namespace, IsDeepest, Denote, IsZonePath, HasRoot;
    NamespaceParts(db);
    LookupFinds(db, s);
    ZoneOrEntry(db, s);
  }

  /** Below a node that is no directory there is no zone. */
  lemma NoZonesInLeaf(db: Tables, s: Path)
    requires Namespace(db.zones, db.entries, db.nextId) && s in TreeOf(db) && TreeOf(db)[s].kind != Dir
    ensures !ZonesBelow(db, s)
  {
    hide Namespace, TreeOf, IsTree, IdsDistinct, ValidPath;
    RowsMakeTree(db);
    MissingMeansVacant(TreeOf(db), s);
    TreeHasRows(db);
    forall z | z in db.zones ensures !(s < db.zones[z].path) {
      NotInLeaf(TreeOf(db), s, db.zones[z].path);
    }
  }

  lemma NotInLeaf(t: Tree, s: Path, q: Path)
    requires Subtree(t, s) == {s} && q in t
    ensures !(s < q)
  {
    assert s <= q ==> q in Subtree(t, s);
  }

  lemma CopiedIsWhole(t: Tree, s: Path, d: Path, recursive: bool)
    requires IsTree(t) && CopyRefusal(t, s, d, recursive).None?
    ensures WholeSubtree(t, s, recursive)
  {
    if t[s].kind != Dir {
      MissingMeansVacant(t, s);
      forall q | q in t && s <= q ensures q == s { assert q in Subtree(t, s); }
    }
  }

  lemma CopyRefused(db: Tables, s: Path, d: Path, recursive: bool, order: RowOrder)
    requires Enumerating(order)
    requires Inv(db) && HasRoot(db.zones) && (s == [] || (AtOrUnder(s, d) <==> s <= d))
    ensures CopyRefusal(TreeOf(db), s, d, recursive).Some? ==>
              Copy(db, s, d, recursive, order) == Failure(CopyRefusal(TreeOf(db), s, d, recursive).value)
    ensures CopyRefusal(TreeOf(db), s, d, recursive).None? ==>
              s != [] && d != [] && !AtOrUnder(s, d) && KindOf(db, d).None? && ParentIsDirectory(db, d)
  {
    hide Inv, TreeOf, KindOf, ParentIsDirectory, AtOrUnder, Copy, HasRoot, HasNestedZones, CopyZone, CopyEntries, EntryKey, Locate, IsZonePath;
    InvHasNamespace(db);
    LookupKind(db, d);
    ParentMeansTree(db, d);
    CopyUnfolds(db, s, d, recursive, order);
    SourceFacts(db, s);
    RootKind(db);
  }

  lemma RootKind(db: Tables)
    requires Namespace(db.zones, db.entries, db.nextId)
    ensures [] in TreeOf(db)
  {
    hide TreeOf, Namespace;
    RootInTree(db);
  }

  /** What copy should do: add exactly a duplicate of the source subtree under fresh ids, change nothing
      else and return how many nodes it added; refuse exactly where the tree says, and when there are
      zones below the source. */
  ghost predicate CopiesTree(db: Tables, s: Path, d: Path, recursive: bool, order: RowOrder)
    requires HasRoot(db.zones)
  {
    var t, r := TreeOf(db), Copy(db, s, d, recursive, order);
    if CopyRefusal(t, s, d, recursive).Some? then r == Failure(CopyRefusal(t, s, d, recursive).value)
    else if ZonesBelow(db, s) then r == Failure(NestedZones)
    else r.Success? && Inv(r.value.db) && Duplicated(t, TreeOf(r.value.db), s, d) && r.value.count == |Subtree(t, s)|
  }

  /** It does so whenever its tests judge the rows rightly. */
  lemma CopyMeansTree(db: Tables, s: Path, d: Path, recursive: bool, order: RowOrder)
    requires Enumerating(order)
    requires Inv(db) && ValidPath(d) && CopyJudged(db, s, d, recursive)
    ensures CopiesTree(db, s, d, recursive, order)
  {
    hide Inv, TreeOf, KindOf, ParentIsDirectory, ValidPath, AtOrUnder, Copy, HasRoot, HasNestedZones, CopyZone, CopyEntries, EntryKey, Locate, IsZonePath,
         ZonesBelow, Duplicated, Subtree, KeysJudged;
    InvHasNamespace(db);
    CopyRefused(db, s, d, recursive, order);
    if CopyRefusal(TreeOf(db), s, d, recursive).None? {
      CopyUnfolds(db, s, d, recursive, order);
      SourceFacts(db, s);
      if TreeOf(db)[s].kind != Dir { NoZonesInLeaf(db, s); }
      if !ZonesBelow(db, s) {
        if IsZonePath(db, s) {
          CopyZoneMeansTree(db, s, d, Locate(db.zones, s).zone, order);
        } else {
          CopyEntriesMeansTree(db, s, d, recursive, order);
        }
      }
    }
  }

  // ---- The condition on the tests ----

  lemma AcceptedCopyIsWhole(db: Tables, s: Path, d: Path, recursive: bool)
    requires Namespace(db.zones, db.entries, db.nextId) && CopyRefusal(TreeOf(db), s, d, recursive).None?
    ensures s in TreeOf(db) && WholeSubtree(TreeOf(db), s, recursive)
  {
    hide Namespace, TreeOf, IsTree, IdsDistinct, WholeSubtree, ValidPath, TreeKind;
    RowsMakeTree(db);
    CopiedIsWhole(TreeOf(db), s, d, recursive);
  }

  /** A copy without the flag finds its only row by its key. */
  lemma OneKeyCopied(db: Tables, s: Path)
    requires Namespace(db.zones, db.entries, db.nextId) && WholeSubtree(TreeOf(db), s, false)
    ensures HasRoot(db.zones) && KeysJudged(db, s, false)
  {
    hide Namespace, TreeOf, UnderRel, PathOf, Locate, HasRoot, ZonePathsUnique, NamesValid, Homed, IsDeepest, IsZonePath, WholeSubtree;
    NamespaceParts(db);
    DeepestAt(db, s);
    var l := Locate(db.zones, s);
    if !IsZonePath(db, s) {
      forall k | k in db.entries ensures k.zone == l.zone && l.rel <= k.rel <==> k == Key(l.zone, l.rel) {
        OnlyThis(db, s, l, k);
        RowsBelowEntry(db, s, l, k);
      }
    }
  }

  lemma RowsBelowEntry(db: Tables, s: Path, l: Location, k: Key)
    requires Namespace(db.zones, db.entries, db.nextId) && WholeSubtree(TreeOf(db), s, false) && !IsZonePath(db, s)
    requires IsDeepest(db.zones, s, l.zone) && db.zones[l.zone].path + l.rel == s && k in db.entries
    ensures s <= PathOf(db.zones, k) <==> k.zone == l.zone && l.rel <= k.rel
  {
    hide TreeOf, PathOf, Namespace, HasRoot, ZonePathsUnique, NamesValid, Homed, IsDeepest, IsZonePath, WholeSubtree;
    NamespaceParts(db);
    EntryFacts(db, k);
    NoZoneInLeaf(db, s, k.zone);
    RowsBelow(db, s, l, k);
  }

  /** For a copy without the flag only the test on the destination counts. */
  lemma FileCopyIsJudged(db: Tables, s: Path, d: Path)
    requires Inv(db) && (s == [] || (AtOrUnder(s, d) <==> s <= d))
    ensures CopyJudged(db, s, d, false)
  {
    hide Inv, TreeOf, AtOrUnder, HasRoot, HasNestedZones, ZonesBelow, KeysJudged, TreeKind, WholeSubtree, Namespace;
    InvHasNamespace(db);
    NamespaceParts(db);
    if CopyRefusal(TreeOf(db), s, d, false).None? {
      AcceptedCopyIsWhole(db, s, d, false);
      OneKeyCopied(db, s);
    }
  }

  /** The tests judge rightly on a source without wildcards. */
  lemma PlainCopyIsJudged(db: Tables, s: Path, d: Path, recursive: bool)
    requires Inv(db) && ValidPath(s) && PlainPath(s) && ValidPath(d)
    ensures CopyJudged(db, s, d, recursive)
  {
    hide Inv, TreeOf, AtOrUnder, HasRoot, HasNestedZones, KeysJudged, TreeKind, WholeSubtree, Namespace, ValidPath, PlainPath, ZonesJudged;
    InvHasNamespace(db);
    NamespaceParts(db);
    if s != [] {
      TextTestsMeanPrefix(s, d);
      PlainZones(db, s);
      if CopyRefusal(TreeOf(db), s, d, recursive).None? {
        AcceptedCopyIsWhole(db, s, d, recursive);
        PlainKeys(db, s, recursive);
      }
    }
  }

  lemma PlainKeys(db: Tables, s: Path, recursive: bool)
    requires Namespace(db.zones, db.entries, db.nextId) && ValidPath(s) && PlainPath(s) && WholeSubtree(TreeOf(db), s, recursive)
    ensures HasRoot(db.zones) && KeysJudged(db, s, recursive)
  {
    hide Namespace, TreeOf, UnderRel, Locate, HasRoot, IsZonePath, ZonesBelow, ValidPath, PlainPath;
    if recursive {
      NamespaceParts(db);
      if !IsZonePath(db, s) { PlainEntries(db, db.entries, s); }
    } else {
      OneKeyCopied(db, s);
    }
  }

  lemma OtherCopyErrors(db: Tables, s: Path, d: Path, recursive: bool, order: RowOrder)
    requires HasRoot(db.zones) && s != [] && !AtOrUnder(s, d)
    ensures Copy(db, s, d, recursive, order) != Failure(CannotCopy)
  {
    hide AtOrUnder, KindOf, Locate, HasNestedZones, EntryKey, CopiedEntries, Collides, PutRows, ParentIsDirectory, CopyZone;
  }

  lemma CopyDestinationJudged(db: Tables, s: Path, d: Path, recursive: bool, order: RowOrder)
    requires HasRoot(db.zones) && CopiesTree(db, s, d, recursive, order)
    ensures s == [] || (AtOrUnder(s, d) <==> s <= d)
  {
    hide TreeOf, AtOrUnder, Copy, ZonesBelow, TreeKind, Duplicated, Subtree, Inv, HasRoot;
    if s != [] {
      if AtOrUnder(s, d) {
        CopyUnfolds(db, s, d, recursive, order);
      } else {
        OtherCopyErrors(db, s, d, recursive, order);
      }
    }
  }

  /** Without an escape in the source the test misses nothing below it. */
  lemma NoKeyMissed(db: Tables, l: Location, s: Path)
    requires Namespace(db.zones, db.entries, db.nextId) && EscapeFree(s)
    requires l.zone in db.zones && db.zones[l.zone].path + l.rel == s && l.rel != []
    ensures Below(db.entries, Key(l.zone, l.rel)) <= CopiedKeys(db, l, true)
  {
    hide Namespace, UnderRel, HasRoot, ZonePathsUnique, Homed;
    forall k | k in db.entries && l.rel <= k.rel && k.rel != l.rel ensures UnderRel(l.rel, k.rel) {
      assert EscapeFree(l.rel) by { assert forall i :: 0 <= i < |l.rel| ==> l.rel[i] == s[|db.zones[l.zone].path| + i]; }
      NothingMissed(l.rel, k.rel);
    }
  }

  lemma CopiedSize(db: Tables, l: Location, d: Path, dk: Key, recursive: bool, order: RowOrder)
    requires Enumerating(order) && d != []
    ensures |CopiedEntries(db, l, d, dk, recursive, order)| == |CopiedKeys(db, l, recursive)|
  {
    hide UnderRel, TextRerootRel, ParseRel, RelativeParent, RenderRel, Enumerating, Assign;
    AssignedIds(order, CopiedKeys(db, l, recursive), db.nextId);
    assert CopiedEntries(db, l, d, dk, recursive, order).Keys == CopiedKeys(db, l, recursive);
    MapSize(CopiedEntries(db, l, d, dk, recursive, order), CopiedKeys(db, l, recursive));
  }

  /** The number of copies tells whether too many rows were selected. */
  lemma KeysJudgedIf(db: Tables, s: Path, d: Path, order: RowOrder)
    requires Enumerating(order) && Namespace(db.zones, db.entries, db.nextId) && EscapeFree(s) && s != [] && d != []
    requires !IsZonePath(db, s) && !ZonesBelow(db, s)
    requires HasRoot(db.zones) && var c := CopyEntries(db, Locate(db.zones, s), d, EntryKey(db.zones, d), true, order);
             c.Success? && c.value.count == |Subtree(TreeOf(db), s)|
    ensures KeysJudged(db, s, true)
  {
    hide Namespace, TreeOf, Locate, Below, CopiedKeys, CopiedEntries, Enumerating, Subtree, IsZonePath, ZonesBelow,
         HasRoot, EntryKey, EscapeFree, EntrySource, Collides, PutRows;
    EntrySourceAt(db, s);
    var l := Locate(db.zones, s);
    EntrySourceIs(db, s, l);
    NoKeyMissed(db, l, s);
    CopiedSize(db, l, d, EntryKey(db.zones, d), true, order);
    EntrySourceRows(db, s, l);
    SubsetOfSameSize(Below(db.entries, Key(l.zone, l.rel)), CopiedKeys(db, l, true));
  }

  lemma EntrySourceRows(db: Tables, s: Path, l: Location)
    requires Namespace(db.zones, db.entries, db.nextId) && EntrySource(db, s, l)
    ensures |Below(db.entries, Key(l.zone, l.rel))| == |Subtree(TreeOf(db), s)|
  {
    hide Namespace, TreeOf, Subtree, IsSubtreeRows, Below;
    SubtreeRowsCount(db, s, {}, Below(db.entries, Key(l.zone, l.rel)));
  }

  /** From a source without an escape copy does what it should if and only if its tests judge the rows
      of the volume rightly. */
  lemma CopiesTreeIff(db: Tables, s: Path, d: Path, recursive: bool, order: RowOrder)
    requires Enumerating(order) && Inv(db) && ValidPath(d) && EscapeFree(s)
    ensures HasRoot(db.zones) && (CopiesTree(db, s, d, recursive, order) <==> CopyJudged(db, s, d, recursive))
  {
    hide Inv, TreeOf, KindOf, ParentIsDirectory, ValidPath, AtOrUnder, Copy, HasRoot, HasNestedZones, CopyEntries, EntryKey, Locate, IsZonePath, CopyJudged,
         ZonesBelow, Subtree, KeysJudged, Enumerating, EscapeFree, WholeSubtree, CopiesTree;
    InvHasNamespace(db);
    NamespaceParts(db);
    if CopyJudged(db, s, d, recursive) { CopyMeansTree(db, s, d, recursive, order); }
    if CopiesTree(db, s, d, recursive, order) {
      CopyDestinationJudged(db, s, d, recursive, order);
      if recursive {
        CopyJudgedIf(db, s, d, order);
      } else {
        FileCopyIsJudged(db, s, d);
      }
    }
  }

  lemma CopyJudgedIf(db: Tables, s: Path, d: Path, order: RowOrder)
    requires Enumerating(order) && Inv(db) && EscapeFree(s)
    requires HasRoot(db.zones) && CopiesTree(db, s, d, true, order) && (s == [] || (AtOrUnder(s, d) <==> s <= d))
    ensures CopyJudged(db, s, d, true)
  {
    hide Inv, TreeOf, KindOf, ParentIsDirectory, AtOrUnder, Copy, HasRoot, HasNestedZones, EntryKey, Locate, IsZonePath, ZonesBelow, Subtree, KeysJudged,
         Enumerating, EscapeFree, Duplicated, TreeKind, CopiedEntries, Collides, PutRows, CopyZone;
    InvHasNamespace(db);
    CopyRefused(db, s, d, true, order);
    if CopyRefusal(TreeOf(db), s, d, true).None? {
      CopyUnfolds(db, s, d, true, order);
      SourceFacts(db, s);
      if TreeOf(db)[s].kind != Dir { NoZonesInLeaf(db, s); }
      if IsZonePath(db, s) || ZonesBelow(db, s) {
        NoKeysNeeded(db, s, true);
      } else {
        KeysJudgedIf(db, s, d, order);
      }
    }
  }

  lemma NoKeysNeeded(db: Tables, s: Path, recursive: bool)
    requires HasRoot(db.zones) && (IsZonePath(db, s) || ZonesBelow(db, s))
    ensures KeysJudged(db, s, recursive)
  {
  }
}
