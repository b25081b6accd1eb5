/** The rows below one entry placed elsewhere, as move and copy place them. */
module Transplanting {
  import opened Basics
  import opened Paths
  import opened Tables
  import opened Trees
  import opened Surgery
  import opened Grafting
  import opened Commands
  import opened Addresses

  /** The entries of one zone at or below a relative path. */
  ghost function Below(entries: Entries, from: Key): set<Key> {
    set k | k in entries && k.zone == from.zone && from.rel <= k.rel
  }

  function Shifted(k: Key, from: Key, to: Key): Key
    requires from.rel <= k.rel
  {
    Key(to.zone, to.rel + k.rel[|from.rel|..])
  }

  /** Those entries as rows without a place, carrying the given ids. */
  ghost function ForestAt(entries: Entries, from: Key, ids: map<Key, NodeId>): Forest {
    map r | r in (set k | k in Below(entries, from) :: k.rel[|from.rel|..])
            && Key(from.zone, from.rel + r) in entries && Key(from.zone, from.rel + r) in ids ::
      Row(ids[Key(from.zone, from.rel + r)], entries[Key(from.zone, from.rel + r)].payload)
  }

  /** The rows an INSERT or UPDATE gives them at their new place. */
  ghost function Transplanted(entries: Entries, from: Key, ids: map<Key, NodeId>, to: Key): map<Key, Placed> {
    map k | k in Below(entries, from) && k in ids && Shifted(k, from, to).rel != [] ::
      Placed(Shifted(k, from, to), EntryAt(Shifted(k, from, to).rel, Row(ids[k], entries[k].payload)))
  }

  lemma ForestRow(entries: Entries, from: Key, ids: map<Key, NodeId>, r: Path)
    requires ids.Keys == Below(entries, from)
    ensures r in ForestAt(entries, from, ids) <==> Key(from.zone, from.rel + r) in entries
    ensures r in ForestAt(entries, from, ids) ==>
              var k := Key(from.zone, from.rel + r);
              k in ids && ForestAt(entries, from, ids)[r] == Row(ids[k], entries[k].payload)
  {
    var k := Key(from.zone, from.rel + r);
    assert k.rel[|from.rel|..] == r;
    if k in entries { assert k in Below(entries, from); }
  }

  lemma ShiftedBack(k: Key, from: Key, to: Key)
    requires k.zone == from.zone && from.rel <= k.rel
    ensures var s := Shifted(k, from, to);
            && to.rel <= s.rel && s.rel[|to.rel|..] == k.rel[|from.rel|..]
            && Key(from.zone, from.rel + s.rel[|to.rel|..]) == k
  {
  }

  /** Every transplanted row is the planted row at its new key. */
  lemma TransplantedRow(entries: Entries, from: Key, ids: map<Key, NodeId>, to: Key, k: Key)
    requires ids.Keys == Below(entries, from) && k in Transplanted(entries, from, ids, to)
    ensures var planted := PlantedEntries(to.zone, to.rel, ForestAt(entries, from, ids));
            var row := Transplanted(entries, from, ids, to)[k];
            row.key in planted && planted[row.key] == row.entry && row.key == Shifted(k, from, to)
  {
    hide PlantedEntries, ForestAt;
    var s := Shifted(k, from, to);
    ShiftedBack(k, from, to);
    ForestRow(entries, from, ids, k.rel[|from.rel|..]);
    PlantedEntryAt(to.zone, to.rel, ForestAt(entries, from, ids), s);
  }

  lemma PlantedIsTransplanted(entries: Entries, from: Key, ids: map<Key, NodeId>, to: Key, s: Key)
    requires ids.Keys == Below(entries, from) && s in PlantedEntries(to.zone, to.rel, ForestAt(entries, from, ids))
    ensures exists k :: k in Transplanted(entries, from, ids, to) && Transplanted(entries, from, ids, to)[k].key == s
  {
    hide PlantedEntries, ForestAt;
    PlantedEntryAt(to.zone, to.rel, ForestAt(entries, from, ids), s);
    var r := s.rel[|to.rel|..];
    ForestRow(entries, from, ids, r);
    var k := Key(from.zone, from.rel + r);
    assert k.rel[|from.rel|..] == r;
    assert Shifted(k, from, to) == s;
    assert k in Transplanted(entries, from, ids, to);
  }

  lemma TransplantedKeysDistinct(entries: Entries, from: Key, ids: map<Key, NodeId>, to: Key, j: Key, k: Key)
    requires j in Transplanted(entries, from, ids, to) && k in Transplanted(entries, from, ids, to)
    requires Transplanted(entries, from, ids, to)[j].key == Transplanted(entries, from, ids, to)[k].key
    ensures j == k
  {
    ShiftedBack(j, from, to);
    ShiftedBack(k, from, to);
  }

  lemma PutRowsIs(base: Entries, moves: map<Key, Placed>, planted: Entries)
    requires forall k :: k in moves ==> moves[k].key in planted && planted[moves[k].key] == moves[k].entry
    requires forall s :: s in planted ==> exists k :: k in moves && moves[k].key == s
    ensures PutRows(base, moves) == base + planted
  {
    var targets := set k | k in moves :: moves[k].key;
    forall s ensures s in targets <==> s in planted {
      if s in planted {
        var k :| k in moves && moves[k].key == s;
      }
    }
  }

  /** Putting the transplanted rows is planting the forest, and no two rows collide. */
  lemma TransplantIsGraft(base: Entries, entries: Entries, from: Key, ids: map<Key, NodeId>, to: Key)
    requires ids.Keys == Below(entries, from)
    requires forall s :: s in PlantedEntries(to.zone, to.rel, ForestAt(entries, from, ids)) ==> s !in base
    ensures var moves := Transplanted(entries, from, ids, to);
            && PutRows(base, moves) == base + PlantedEntries(to.zone, to.rel, ForestAt(entries, from, ids))
            && !Collides(base, moves)
  {
    hide PlantedEntries, ForestAt, Transplanted, PutRows, Shifted;
    var moves := Transplanted(entries, from, ids, to);
    var planted := PlantedEntries(to.zone, to.rel, ForestAt(entries, from, ids));
    forall k | k in moves ensures moves[k].key in planted && planted[moves[k].key] == moves[k].entry {
      TransplantedRow(entries, from, ids, to, k);
    }
    forall s | s in planted ensures exists k :: k in moves && moves[k].key == s {
      PlantedIsTransplanted(entries, from, ids, to, s);
    }
    PutRowsIs(base, moves, planted);
    forall j, k | j in moves && k in moves && moves[j].key == moves[k].key ensures j == k {
      TransplantedKeysDistinct(entries, from, ids, to, j, k);
    }
  }

  lemma AllTransplanted(entries: Entries, from: Key, ids: map<Key, NodeId>, to: Key)
    requires ids.Keys == Below(entries, from)
    requires to.rel != [] || forall k :: k in entries ==> k.rel != []
    requires from.rel == [] || to.rel != []
    ensures Transplanted(entries, from, ids, to).Keys == Below(entries, from)
  {
    forall k | k in Below(entries, from) ensures Shifted(k, from, to).rel != [] {
      if to.rel == [] { assert k.rel[0..] == k.rel; }
    }
  }

  // ---- The forest is one ----

  lemma ForestParent(entries: Entries, from: Key, ids: map<Key, NodeId>, r: Path)
    requires ids.Keys == Below(entries, from) && EntryParents(entries)
    requires r in ForestAt(entries, from, ids) && r != [] && |from.rel + r| > 1
    ensures IsDirRow(ForestAt(entries, from, ids), DropLast(r))
  {
    hide ForestAt;
    ForestRow(entries, from, ids, r);
    ForestRow(entries, from, ids, DropLast(r));
    assert DropLast(from.rel + r) == from.rel + DropLast(r);
  }

  lemma ForestIsForest(entries: Entries, zones: Zones, from: Key, ids: map<Key, NodeId>)
    requires ids.Keys == Below(entries, from) && EntryParents(entries) && NamesValid(zones, entries)
    ensures IsForest(ForestAt(entries, from, ids))
    ensures from.rel != [] ==> forall r :: r in ForestAt(entries, from, ids) && r != [] ==> IsDirRow(ForestAt(entries, from, ids), DropLast(r))
    ensures from.rel == [] ==> [] !in ForestAt(entries, from, ids)
  {
    hide ForestAt, EntryParents, ValidPath;
    var rows := ForestAt(entries, from, ids);
    forall r | r in rows
      ensures ValidPath(r)
      ensures r != [] && |from.rel + r| > 1 ==> IsDirRow(rows, DropLast(r))
    {
      ForestRow(entries, from, ids, r);
      SuffixFacts(from.rel, r);
      if r != [] && |from.rel + r| > 1 { ForestParent(entries, from, ids, r); }
    }
    ForestRow(entries, from, ids, []);
    assert from.rel + [] == from.rel;
  }

  lemma ForestIdAt(entries: Entries, from: Key, ids: map<Key, NodeId>, q: Path, r: Path)
    requires ids.Keys == Below(entries, from)
    requires forall j, k :: j in ids && k in ids && ids[j] == ids[k] ==> j == k
    requires q in ForestAt(entries, from, ids) && r in ForestAt(entries, from, ids)
    requires ForestAt(entries, from, ids)[q].id == ForestAt(entries, from, ids)[r].id
    ensures q == r
  {
    hide ForestAt;
    ForestRow(entries, from, ids, q);
    ForestRow(entries, from, ids, r);
    assert (from.rel + q)[|from.rel|..] == q && (from.rel + r)[|from.rel|..] == r;
  }

  /** The nodes of the forest are those of the subtree, with the given ids. */
  lemma ForestNode(db: Tables, entries: Entries, from: Key, ids: map<Key, NodeId>, p: Path, r: Path)
    requires Namespace(db.zones, db.entries, db.nextId) && ids.Keys == Below(db.entries, from)
    requires from.zone in db.zones && db.zones[from.zone].path + from.rel == p
    requires Key(from.zone, from.rel + r) in db.entries <==> p + r in TreeOf(db) && (from.rel == [] ==> r != [])
    ensures r in NodesOf(db.store, ForestAt(db.entries, from, ids)) <==>
              r in Extract(TreeOf(db), p) && (from.rel == [] ==> r != [])
    ensures var nodes := NodesOf(db.store, ForestAt(db.entries, from, ids));
            r in nodes ==>
              && Key(from.zone, from.rel + r) in ids
              && nodes[r] == Extract(TreeOf(db), p)[r].(id := ids[Key(from.zone, from.rel + r)])
  {
    hide ForestAt, Extract, Namespace, TreeOf, Denote;
    ForestRow(db.entries, from, ids, r);
    ExtractAt(TreeOf(db), p, r);
    var k := Key(from.zone, from.rel + r);
    if k in db.entries {
      AppendAssociates(db.zones[from.zone].path, from.rel, r);
      assert PathOf(db.zones, k) == p + r;
      EntryInTree(db, k);
    }
  }

  /** Below an entry that holds no zones, the tree is the rows of its zone. */
  lemma KeyBelowInTree(db: Tables, from: Key, p: Path, r: Path)
    requires Namespace(db.zones, db.entries, db.nextId) && from.rel != []
    requires IsDeepest(db.zones, p, from.zone) && db.zones[from.zone].path + from.rel == p
    requires forall z :: z in db.zones ==> !(p <= db.zones[z].path)
    ensures Key(from.zone, from.rel + r) in db.entries <==> p + r in TreeOf(db)
    ensures PathOf(db.zones, Key(from.zone, from.rel + r)) == p + r
  {
    NamespaceParts(db);
    assert from.zone in db.zones;
    hide Namespace, TreeOf, IsDeepest, NodeOf;
    var k := Key(from.zone, from.rel + r);
    AppendAssociates(db.zones[from.zone].path, from.rel, r);
    if k in db.entries { EntryInTree(db, k); }
    if p + r in TreeOf(db) {
      PathIsRow(db, p + r);
      assert p <= p + r;
      var j :| j in db.entries && PathOf(db.zones, j) == p + r;
      hide PathOf;
      RowsBelow(db, p, Location(from.zone, from.rel), j);
      KeyFromPath(db, from, p, r, j);
    }
  }

  lemma KeyFromPath(db: Tables, from: Key, p: Path, r: Path, j: Key)
    requires from.zone in db.zones && db.zones[from.zone].path + from.rel == p
    requires j.zone == from.zone && PathOf(db.zones, j) == p + r
    ensures j == Key(from.zone, from.rel + r)
  {
    var a := db.zones[from.zone].path;
    AppendAssociates(a, from.rel, r);
    assert j.rel == (p + r)[|a|..];
    assert (a + (from.rel + r))[|a|..] == from.rel + r;
  }

  lemma PlantedPayload(entries: Entries, from: Key, ids: map<Key, NodeId>, to: Key, s: Key)
    requires ids.Keys == Below(entries, from) && s in PlantedEntries(to.zone, to.rel, ForestAt(entries, from, ids))
    ensures exists k :: k in entries && PlantedEntries(to.zone, to.rel, ForestAt(entries, from, ids))[s].payload == entries[k].payload
  {
    hide PlantedEntries, ForestAt;
    PlantedEntryAt(to.zone, to.rel, ForestAt(entries, from, ids), s);
    ForestRow(entries, from, ids, s.rel[|to.rel|..]);
  }

  lemma PlantedPayloads(entries: Entries, base: Entries, store: Store, from: Key, ids: map<Key, NodeId>, to: Key)
    requires ids.Keys == Below(entries, from) && Payloads(entries, store) && Payloads(base, store)
    ensures Payloads(base + PlantedEntries(to.zone, to.rel, ForestAt(entries, from, ids)), store)
  {
    hide PlantedEntries, ForestAt, PayloadOk;
    forall s | s in PlantedEntries(to.zone, to.rel, ForestAt(entries, from, ids))
      ensures PayloadOk(store, PlantedEntries(to.zone, to.rel, ForestAt(entries, from, ids))[s].payload)
    {
      PlantedPayload(entries, from, ids, to, s);
    }
  }

  /** The subtree rows of `db` planted in `base` at a vacant path below a directory. */
  ghost predicate MayTransplant(db: Tables, base: Tables, from: Key, ids: map<Key, NodeId>, d: Path, nextId: NodeId) {
    && Inv(db) && Inv(base) && base.zones == db.zones && base.store == db.store
    && from.rel != [] && ids.Keys == Below(db.entries, from)
    && ValidPath(d) && d != [] && d !in TreeOf(base) && TreeKind(TreeOf(base), DropLast(d)) == Some(Dir)
    && IdsFree(base, ForestAt(db.entries, from, ids), nextId)
  }

  lemma MayTransplantParts(db: Tables, base: Tables, from: Key, ids: map<Key, NodeId>, d: Path, nextId: NodeId)
    requires MayTransplant(db, base, from, ids, d, nextId)
    ensures HasRoot(db.zones)
    ensures var dk, rows := EntryKey(db.zones, d), ForestAt(db.entries, from, ids);
            MayGraft(base, dk.zone, dk.rel, rows, nextId) && dk.rel != [] && ValidPath(dk.rel) && Last(dk.rel) == Last(d)
            && db.zones[dk.zone].path + dk.rel == d
  {
    hide ForestAt, Namespace, TreeOf, IdsFree, Room, IsForest, ValidPath, EntryKey, HasRoot;
    NamespaceParts(db);
    ForestIsForest(db.entries, db.zones, from, ids);
    RoomAt(base, d, ForestAt(db.entries, from, ids));
    RoomParts(base, EntryKey(db.zones, d).zone, EntryKey(db.zones, d).rel, ForestAt(db.entries, from, ids));
  }

  lemma RoomParts(db: Tables, z: ZoneId, base: Path, rows: Forest)
    requires Room(db, z, base, rows)
    ensures z in db.zones && ValidPath(base)
  {
  }

  lemma NewKeys(db: Tables, z: ZoneId, base: Path, rows: Forest)
    requires Room(db, z, base, rows)
    ensures forall s :: s in PlantedEntries(z, base, rows) ==> s !in db.entries
  {
    hide PlantedEntries, Room;
    forall s | s in PlantedEntries(z, base, rows) ensures s !in db.entries { PlantedIsNew(db, z, base, rows, s); }
  }

  /** The statement collides with no row, keeps the invariant and plants the rows' nodes. */
  lemma TransplantMeansTree(db: Tables, base: Tables, from: Key, ids: map<Key, NodeId>, d: Path, nextId: NodeId)
    requires MayTransplant(db, base, from, ids, d, nextId)
    ensures HasRoot(db.zones)
    ensures var dk := EntryKey(db.zones, d); var moves := Transplanted(db.entries, from, ids, dk);
            var a := base.(entries := PutRows(base.entries, moves), nextId := nextId);
            && !Collides(base.entries, moves) && moves.Keys == Below(db.entries, from)
            && Inv(a) && TreeOf(a) == Grafted(TreeOf(base), d, NodesOf(db.store, ForestAt(db.entries, from, ids)))
  {
    hide ForestAt, Namespace, TreeOf, IdsFree, Room, IsForest, ValidPath, EntryKey, HasRoot, PlantedEntries, Collides, PutRows, Transplanted,
         StoreOk, Payloads, Below, Grafted, NodesOf;
    MayTransplantParts(db, base, from, ids, d, nextId);
    var dk, rows := EntryKey(db.zones, d), ForestAt(db.entries, from, ids);
    NewKeys(base, dk.zone, dk.rel, rows);
    TransplantIsGraft(base.entries, db.entries, from, ids, dk);
    AllTransplanted(db.entries, from, ids, dk);
    GraftKeepsNamespace(base, dk.zone, dk.rel, rows, nextId);
    GraftPlants(base, dk.zone, dk.rel, rows, nextId);
    PlantedPayloads(db.entries, base.entries, db.store, from, ids, dk);
  }
}
