/** What every run keeps, whatever rows the text tests select and wherever a write goes: the constraints
    of the schema, the content behind each row, and the node each row stands for. */
module EveryRun {
  import opened Basics
  import opened Paths
  import opened Blocks
  import opened Tables
  import opened Surgery
  import opened Grafting
  import opened Wildcards
  import opened Content
  import opened Commands
  import opened Addresses
  import opened Creating
  import opened Removing
  import opened Moving
  import opened Copying
  import opened Importing
  import opened TextImport
  import opened Publishing
  import opened Runs

  /** The namespace tables as the schema constrains them: a root, no two zones at one path, entries of
      existing zones, and distinct ids from the sequence. */
  ghost predicate Mounted(db: Tables) {
    && HasRoot(db.zones) && ZonePathsUnique(db.zones)
    && (forall k :: k in db.entries ==> k.zone in db.zones)
    && IdsUnique(db.zones, db.entries, db.nextId)
  }

  /** Every row reaches the content it names. */
  ghost predicate Stocked(db: Tables) { StoreOk(db.store) && Payloads(db.entries, db.store) }

  ghost predicate Lasting(db: Tables) { Mounted(db) && Stocked(db) }

  lemma ValidIsLasting(db: Tables)
    requires Inv(db)
    ensures Lasting(db)
  {
    hide HasRoot, ZonePathsUnique, Homed, EntryParents, ZoneParents, Labelled, IdsUnique, StoreOk, Payloads, ValidPath;
  }

  /** A row with the same id stood for the same node before. */
  ghost predicate StoodFor(a: Tables, b: Tables, k: Key)
    requires k in b.entries
  {
    exists j :: j in a.entries && a.entries[j].id == b.entries[k].id && NodeOf(a.store, a.entries[j]) == NodeOf(b.store, b.entries[k])
  }

  /** A row is new, or the written one, or stands for the same node as the row with its id before. */
  ghost predicate FromBefore(a: Tables, b: Tables, written: Option<NodeId>, k: Key)
    requires k in b.entries
  {
    || a.nextId <= b.entries[k].id
    || written == Some(b.entries[k].id)
    || StoodFor(a, b, k)
  }

  ghost predicate Inherits(a: Tables, b: Tables, written: Option<NodeId>) {
    a.nextId <= b.nextId && forall k :: k in b.entries ==> FromBefore(a, b, written, k)
  }

  ghost predicate Follows(a: Tables, b: Tables, written: Option<NodeId>) { Lasting(b) && Inherits(a, b, written) }

  lemma InheritsInTurn(a: Tables, b: Tables, c: Tables, first: Option<NodeId>, second: Option<NodeId>, written: Option<NodeId>)
    requires Inherits(a, b, first) && Inherits(b, c, second)
    requires (first.None? || first == written) && (second.None? || second == written)
    ensures Inherits(a, c, written)
  {
    hide NodeOf;
    forall k | k in c.entries ensures FromBefore(a, c, written, k) {
      assert FromBefore(b, c, second, k);
      if j :| j in b.entries && b.entries[j].id == c.entries[k].id && NodeOf(b.store, b.entries[j]) == NodeOf(c.store, c.entries[k]) {
        assert FromBefore(a, b, first, j);
      }
    }
  }

  lemma FollowsInTurn(a: Tables, b: Tables, c: Tables, first: Option<NodeId>, second: Option<NodeId>, written: Option<NodeId>)
    requires Follows(a, b, first) && Follows(b, c, second)
    requires (first.None? || first == written) && (second.None? || second == written)
    ensures Follows(a, c, written)
  {
    hide Lasting, Inherits;
    InheritsInTurn(a, b, c, first, second, written);
  }

  // ---- Edits of the rows ----

  lemma SameRow(a: Tables, b: Tables, j: Key, k: Key)
    requires j in a.entries && k in b.entries
    requires a.entries[j].id == b.entries[k].id && NodeOf(a.store, a.entries[j]) == NodeOf(b.store, b.entries[k])
    ensures FromBefore(a, b, None, k)
  {
    hide NodeOf;
  }

  lemma StaysAsItWas(a: Tables)
    requires Lasting(a)
    ensures Follows(a, a, None)
  {
    hide Lasting, NodeOf;
  }

  lemma FewerRowsFollow(a: Tables, gz: set<ZoneId>, gk: set<Key>)
    requires Lasting(a) && HasRoot(a.zones - gz)
    requires forall k :: k in a.entries && k.zone in gz ==> k in gk
    ensures Follows(a, DeleteRows(a, gz, gk), None)
  {
    hide HasRoot, StoreOk, PayloadOk, NodeOf;
  }

  lemma MoreRowsFollow(a: Tables, added: Entries, nextId: NodeId)
    requires Lasting(a) && a.nextId <= nextId
    requires forall k :: k in added ==>
               k.zone in a.zones && a.nextId <= added[k].id < nextId && PayloadOk(a.store, added[k].payload)
    requires forall j, k :: j in added && k in added && added[j].id == added[k].id ==> j == k
    ensures Follows(a, a.(entries := a.entries + added, nextId := nextId), None)
  {
    hide HasRoot, ZonePathsUnique, StoreOk, PayloadOk, NodeOf;
  }

  lemma OneRowFollows(a: Tables, key: Key, e: Entry)
    requires Lasting(a) && key.zone in a.zones && e.id == a.nextId && PayloadOk(a.store, e.payload)
    ensures Follows(a, a.(entries := a.entries[key := e], nextId := a.nextId + 1), None)
  {
    hide Lasting, Follows, PayloadOk;
    assert a.zones == a.(entries := a.entries[key := e]).zones;
    MoreRowsFollow(a, map[key := e], a.nextId + 1);
    assert a.entries + map[key := e] == a.entries[key := e];
  }

  lemma RewrittenRowFollows(a: Tables, key: Key, payload: Payload, nextId: NodeId)
    requires Lasting(a) && key in a.entries && PayloadOk(a.store, payload) && a.nextId <= nextId
    ensures Follows(a, a.(entries := a.entries[key := a.entries[key].(payload := payload)], nextId := nextId), Some(a.entries[key].id))
  {
    hide HasRoot, ZonePathsUnique, StoreOk, PayloadOk, NodeOf;
  }

  /** Contents stored elsewhere. */
  lemma SameNodesFollow(a: Tables, b: Tables)
    requires Lasting(a) && SameNodes(a, b) && Stocked(b)
    ensures Follows(a, b, None)
  {
    hide HasRoot, ZonePathsUnique, Stocked, NodeOf;
    forall k | k in b.entries ensures FromBefore(a, b, None, k) { SameRow(a, b, k, k); }
  }

  lemma SameStock(a: Tables, b: Tables)
    requires Stocked(a) && b.entries == a.entries && b.store == a.store
    ensures Stocked(b)
  {
    hide StoreOk, PayloadOk;
  }

  lemma ZonesRewrittenFollow(a: Tables, zones: Zones)
    requires Lasting(a) && zones.Keys == a.zones.Keys && HasRoot(zones) && ZonePathsUnique(zones)
    ensures Follows(a, a.(zones := zones), None)
  {
    hide HasRoot, ZonePathsUnique, Stocked, NodeOf;
    assert forall z :: z in zones <==> z in a.zones;
    assert Stocked(a.(zones := zones)) by { SameStock(a, a.(zones := zones)); }
    forall k | k in a.entries ensures FromBefore(a, a.(zones := zones), None, k) { SameRow(a, a.(zones := zones), k, k); }
  }

  lemma NewZoneFollows(a: Tables, row: Zone)
    requires Lasting(a) && forall z :: z in a.zones ==> a.zones[z].path != row.path
    ensures Follows(a, a.(zones := a.zones[a.nextId := row], nextId := a.nextId + 1), None)
  {
    hide Stocked, FromBefore;
    var b := a.(zones := a.zones[a.nextId := row], nextId := a.nextId + 1);
    var z :| z in a.zones && a.zones[z].path == [];
    assert z in b.zones && b.zones[z].path == [];
    SameStock(a, b);
    forall k | k in a.entries ensures FromBefore(a, b, None, k) { SameRow(a, b, k, k); }
  }

  /** The rows an INSERT or UPDATE puts, apart from those it leaves. */
  lemma PutRowsAdds(base: Entries, moves: map<Key, Placed>) returns (added: Entries)
    ensures PutRows(base, moves) == base + added
    ensures forall t :: t in added ==> exists k :: k in moves && moves[k].key == t && added[t] == moves[k].entry
  {
    var targets := set k | k in moves :: moves[k].key;
    var after := PutRows(base, moves);
    added := map t | t in targets && t in after :: after[t];
    assert after == base + added;
  }

  lemma CopiesFollow(a: Tables, copies: map<Key, Placed>, nextId: NodeId)
    requires Lasting(a) && a.nextId <= nextId
    requires forall k :: k in copies ==>
               && copies[k].key.zone in a.zones && a.nextId <= copies[k].entry.id < nextId
               && PayloadOk(a.store, copies[k].entry.payload)
    requires forall j, k :: j in copies && k in copies && copies[j].entry.id == copies[k].entry.id ==> j == k
    ensures Follows(a, a.(entries := PutRows(a.entries, copies), nextId := nextId), None)
  {
    hide Lasting, Follows, PayloadOk, PutRows;
    var added := PutRowsAdds(a.entries, copies);
    MoreRowsFollow(a, added, nextId);
  }

  /** Where the rows of an UPDATE come from: they keep their ids and payloads. */
  ghost predicate IsOrigin(a: Tables, moves: map<Key, Placed>, b: Tables, t: Key, k: Key)
    requires t in b.entries
  {
    && k in a.entries && a.entries[k].id == b.entries[t].id && a.entries[k].payload == b.entries[t].payload
    && t == if k in moves then moves[k].key else k
  }

  lemma MovedOrigin(a: Tables, moves: map<Key, Placed>, t: Key) returns (k: Key)
    requires t in PutRows(a.entries - moves.Keys, moves)
    requires forall k :: k in moves ==>
               k in a.entries && moves[k].entry.id == a.entries[k].id && moves[k].entry.payload == a.entries[k].payload
    ensures IsOrigin(a, moves, a.(entries := PutRows(a.entries - moves.Keys, moves)), t, k)
  {
    hide PutRows;
    var rest := a.entries - moves.Keys;
    var added := PutRowsAdds(rest, moves);
    if t in added {
      k :| k in moves && moves[k].key == t && added[t] == moves[k].entry;
    } else {
      k := t;
    }
  }

  lemma MovesFollow(a: Tables, moves: map<Key, Placed>)
    requires Lasting(a)
    requires forall k :: k in moves ==>
               && k in a.entries && moves[k].key.zone in a.zones
               && moves[k].entry.id == a.entries[k].id && moves[k].entry.payload == a.entries[k].payload
    ensures Follows(a, a.(entries := PutRows(a.entries - moves.Keys, moves)), None)
  {
    hide HasRoot, ZonePathsUnique, StoreOk, PayloadOk, PutRows, Denote, FromBefore;
    var b := a.(entries := PutRows(a.entries - moves.Keys, moves));
    forall t | t in b.entries ensures t.zone in b.zones && FromBefore(a, b, None, t) {
      var k := MovedOrigin(a, moves, t);
      SameRow(a, b, k, t);
    }
    forall t | t in b.entries
      ensures b.entries[t].id < b.nextId && b.entries[t].id !in b.zones && PayloadOk(b.store, b.entries[t].payload)
    {
      var k := MovedOrigin(a, moves, t);
    }
    forall t, u | t in b.entries && u in b.entries && b.entries[t].id == b.entries[u].id ensures t == u {
      var j := MovedOrigin(a, moves, t);
      var k := MovedOrigin(a, moves, u);
    }
  }

  // ---- The commands ----

  lemma KeyZone(zones: Zones, p: Path)
    requires HasRoot(zones) && p != []
    ensures EntryKey(zones, p).zone in zones && Locate(zones, DropLast(p)).zone in zones
  {
  }

  lemma NoZoneAt(db: Tables, p: Path)
    requires HasRoot(db.zones) && KindOf(db, p).None?
    ensures forall z :: z in db.zones ==> db.zones[z].path != p
  {
    var l := Locate(db.zones, p);
    assert db.zones[l.zone].path + l.rel == p && l.rel != [];
    forall z | z in db.zones ensures db.zones[z].path != p {
      assert db.zones[z].path <= p ==> |db.zones[z].path| <= |db.zones[l.zone].path|;
    }
  }

  lemma DirectoryOk(store: Store)
    ensures PayloadOk(store, DIRECTORY)
  {
  }

  lemma RootStays(db: Tables)
    requires Lasting(db)
    ensures HasRoot(db.zones) && db.nextId !in db.zones
  {
    hide HasRoot, ZonePathsUnique, Stocked;
  }

  lemma MkdirFollows(db: Tables, p: Path)
    requires Lasting(db) && HasRoot(db.zones) && Mkdir(db, p).Success?
    ensures Follows(db, Mkdir(db, p).value.db, None)
  {
    hide Lasting, Follows, KindOf, ParentIsDirectory, EntryKey, HasRoot, PayloadOk, Locate;
    if p == [] {
      StaysAsItWas(db);
    } else {
      var key := EntryKey(db.zones, p);
      KeyZone(db.zones, p);
      EntryKeyIs(db.zones, p);
      DirectoryOk(db.store);
      OneRowFollows(db, key, Entry(db.nextId, DropLast(key.rel), Last(p), DIRECTORY));
    }
  }

  lemma {:induction false} MkdirParentsFollow(db: Tables, p: Path, done: nat)
    requires Lasting(db) && HasRoot(db.zones) && done <= |p| && MkdirParents(db, p, done).Success?
    ensures Follows(db, MkdirParents(db, p, done).value.db, None)
    decreases |p| - done
  {
    hide Lasting, Inherits, KindOf, Mkdir, HasRoot;
    if done == |p| {
      StaysAsItWas(db);
    } else {
      var current := p[..done + 1];
      if KindOf(db, current).Some? {
        MkdirParentsFollow(db, p, done + 1);
      } else {
        MkdirFollows(db, current);
        var made := Mkdir(db, current).value.db;
        MkdirParentsFollow(made, p, done + 1);
        FollowsInTurn(db, made, MkdirParents(made, p, done + 1).value.db, None, None, None);
      }
    }
  }

  /** An upsert makes a new row or rewrites the one it finds. */
  lemma WriteInlineFollows(db: Tables, p: Path, data: Bytes)
    requires Lasting(db) && HasRoot(db.zones) && WriteInline(db, p, data).Success?
    ensures var w := WriteInline(db, p, data).value; Follows(db, w.db, Some(w.count))
  {
    hide Lasting, KindOf, ParentIsDirectory, EntryKey, HasRoot, PayloadOk, InlineFile, WriteInline, Locate, FromBefore;
    WriteUnfolds(db, p, data);
    WrittenEntry(db, p, data);
    InlineFileOk(db.store, data);
    KeyZone(db.zones, p);
    var key := EntryKey(db.zones, p);
    if key in db.entries {
      RewrittenRowFollows(db, key, InlineFile(data), db.nextId + 1);
    } else {
      OneRowFollows(db, key, NewEntry(db, p, InlineFile(data)));
      WrittenToo(db, WriteInline(db, p, data).value.db, db.nextId);
    }
  }

  lemma WrittenToo(a: Tables, b: Tables, id: NodeId)
    requires Follows(a, b, None)
    ensures Follows(a, b, Some(id))
  {
    hide Lasting, NodeOf;
    forall k | k in b.entries ensures FromBefore(a, b, Some(id), k) { assert FromBefore(a, b, None, k); }
  }

  lemma BlockizeFollows(db: Tables, zone: ZoneId, order: RowOrder)
    requires Lasting(db)
    ensures Follows(db, BlockizeZone(db, zone, order), None) && Follows(db, BlockizeZoneSegment(db, zone, order), None)
  {
    hide Mounted, StoreOk, Payloads, InlineTexts, Follows, BlockizeKeys, SameNodes;
    var texts := InlineTexts(db.entries, zone);
    BlockizeKeysKeeps(db, order(texts), None);
    SameNodesFollow(db, BlockizeZone(db, zone, order));
    StageAndPublish(db, order(texts));
    NothingToStore(db);
    SameNodesFollow(db, BlockizeZoneSegment(db, zone, order));
  }

  lemma ReclaimFollows(db: Tables)
    requires Lasting(db)
    ensures Follows(db, Reclaim(db), None) && AllReferenced(Reclaim(db))
  {
    hide Mounted, StoreOk, Payloads, Follows, Reclaim, SameNodes, AllReferenced;
    assert Stocked(db);
    ReclaimKeepsNodes(db);
    ReclaimLeavesReferenced(db);
    SameNodesFollow(db, Reclaim(db));
  }

  lemma WriteFollows(db: Tables, p: Path, data: Bytes, order: RowOrder)
    requires Lasting(db) && HasRoot(db.zones) && WriteFile(db, p, data, order).Success?
    ensures var w := WriteFile(db, p, data, order).value; Follows(db, w.db, Some(w.count)) && AllReferenced(w.db)
  {
    hide Lasting, Inherits, HasRoot, WriteInline, BlockizeZone, Reclaim, AllReferenced, Locate;
    WriteInlineFollows(db, p, data);
    var w, zone := WriteInline(db, p, data).value, Locate(db.zones, p).zone;
    var stored := BlockizeZone(w.db, zone, order);
    BlockizeFollows(w.db, zone, order);
    FollowsInTurn(db, w.db, stored, Some(w.count), None, Some(w.count));
    ReclaimFollows(stored);
    FollowsInTurn(db, stored, Reclaim(stored), Some(w.count), None, Some(w.count));
  }

  /** The root is never among the removed zones. */
  lemma RemoveLeavesRoot(db: Tables, p: Path, recursive: bool)
    requires HasRoot(db.zones) && ValidPath(p) && p != []
    ensures HasRoot(db.zones - RemovedZones(db, p, Locate(db.zones, p), recursive))
  {
    hide Under, Locate, ValidPath;
    RootNotUnder(p);
    var z :| z in db.zones && db.zones[z].path == [];
    var left := db.zones - RemovedZones(db, p, Locate(db.zones, p), recursive);
    assert z in left && left[z].path == [];
  }

  lemma RemoveFollows(db: Tables, p: Path, recursive: bool)
    requires Lasting(db) && HasRoot(db.zones) && ValidPath(p) && Remove(db, p, recursive).Success?
    ensures var b := Remove(db, p, recursive).value.db; Follows(db, b, None) && AllReferenced(b)
  {
    hide Lasting, Inherits, HasRoot, KindOf, HasChildren, RemovedZones, RemovedEntries, Reclaim, Locate, AllReferenced, Remove, DeleteRows, ValidPath;
    RemoveUnfolds(db, p, recursive);
    var l := Locate(db.zones, p);
    var gz, gk := RemovedZones(db, p, l, recursive), RemovedEntries(db, p, l, recursive);
    RemoveLeavesRoot(db, p, recursive);
    RemovedAreRows(db, p, l, recursive);
    FewerRowsFollow(db, gz, gk);
    var left := DeleteRows(db, gz, gk);
    ReclaimFollows(left);
    FollowsInTurn(db, left, Reclaim(left), None, None, None);
  }

  lemma ClearFollows(db: Tables, d: Path)
    requires Lasting(db) && HasRoot(db.zones) && ClearDestination(db, d).Success?
    ensures Follows(db, ClearDestination(db, d).value, None) && d != []
  {
    hide Lasting, Follows, KindOf, Locate, HasRoot, DeleteRows;
    StaysAsItWas(db);
    var l := Locate(db.zones, d);
    assert db.zones - {} == db.zones;
    FewerRowsFollow(db, {}, {Key(l.zone, l.rel)});
  }

  /** The root is never among the moved zones. */
  lemma MoveLeavesRoot(db: Tables, s: Path, d: Path, sz: ZoneId, dl: Location)
    requires HasRoot(db.zones) && ValidPath(s) && s != [] && d != []
    ensures HasRoot(MovedZones(db.zones, s, d, sz, dl))
  {
    hide Under, TextReroot, ValidPath;
    RootNotUnder(s);
    var z :| z in db.zones && db.zones[z].path == [];
    var moved := MovedZones(db.zones, s, d, sz, dl);
    assert z in moved && moved[z].path == [];
  }

  lemma MoveZoneFollows(db: Tables, s: Path, d: Path, sz: ZoneId, dl: Location)
    requires Lasting(db) && HasRoot(db.zones) && ValidPath(s) && s != [] && d != [] && MoveZone(db, s, d, sz, dl).Success?
    ensures Follows(db, MoveZone(db, s, d, sz, dl).value, None)
  {
    var zones := MovedZones(db.zones, s, d, sz, dl);
    assert zones.Keys == db.zones.Keys;
    hide Lasting, Follows, HasRoot, ValidPath, MovedZones, ZonePathsUnique;
    MoveLeavesRoot(db, s, d, sz, dl);
    ZonesRewrittenFollow(db, zones);
  }

  lemma MoveEntriesFollow(db: Tables, sl: Location, d: Path, dk: Key)
    requires Lasting(db) && d != [] && dk.zone in db.zones && MoveEntries(db, sl, d, dk).Success?
    ensures Follows(db, MoveEntries(db, sl, d, dk).value.db, None)
  {
    hide Lasting, Follows, PutRows, TextRerootRel, AtOrUnderRel, Collides, RelativeParent, ParseRel, RenderRel;
    MovesFollow(db, MovedEntries(db, sl, d, dk));
  }

  lemma MoveFollows(db: Tables, s: Path, d: Path)
    requires Lasting(db) && HasRoot(db.zones) && ValidPath(s) && Move(db, s, d).Success?
    ensures Follows(db, Move(db, s, d).value.db, None)
  {
    hide Lasting, Inherits, KindOf, AtOrUnder, Locate, ClearDestination, MoveZone, MoveEntries, HasNestedZones, ZonesAt, EntriesOf, EntryKey, HasRoot, Move, ValidPath;
    MoveUnfolds(db, s, d);
    ClearFollows(db, d);
    var c := ClearDestination(db, d).value;
    var l := Locate(c.zones, s);
    if l.rel == [] {
      MoveZoneFollows(c, s, d, l.zone, Locate(c.zones, DropLast(d)));
    } else {
      KeyZone(c.zones, d);
      MoveEntriesFollow(c, l, d, EntryKey(c.zones, d));
    }
    FollowsInTurn(db, c, Move(db, s, d).value.db, None, None, None);
  }

  lemma PayloadsAreOk(db: Tables, k: Key)
    requires Lasting(db) && k in db.entries
    ensures PayloadOk(db.store, db.entries[k].payload)
  {
    hide Mounted, StoreOk, PayloadOk;
  }

  lemma ZoneCopies(db: Tables, sz: ZoneId, nz: ZoneId, order: RowOrder)
    requires Lasting(db) && Enumerating(order)
    ensures var copies := CopiedZoneEntries(db, sz, nz, order);
            && (forall k :: k in copies ==>
                  && copies[k].key.zone == nz && nz + 1 <= copies[k].entry.id < nz + 1 + |copies|
                  && PayloadOk(db.store, copies[k].entry.payload))
            && forall j, k :: j in copies && k in copies && copies[j].entry.id == copies[k].entry.id ==> j == k
  {
    hide Lasting, PayloadOk, Enumerating, Assign;
    var keys, copies := EntriesOf(db.entries, {sz}), CopiedZoneEntries(db, sz, nz, order);
    AssignedIds(order, keys, nz + 1);
    assert copies.Keys == keys;
    MapSize(copies, keys);
    forall k | k in copies ensures PayloadOk(db.store, copies[k].entry.payload) { PayloadsAreOk(db, k); }
  }

  lemma CopyZoneFollows(db: Tables, sz: ZoneId, d: Path, dl: Location, order: RowOrder)
    requires Lasting(db) && Enumerating(order) && d != [] && forall z :: z in db.zones ==> db.zones[z].path != d
    ensures Follows(db, CopyZone(db, sz, d, dl, order).db, None)
  {
    hide Lasting, Inherits, PayloadOk, PutRows, Enumerating, CopiedZoneEntries;
    var nz, row := db.nextId, Zone(d, Some(dl.zone), Some(dl.rel), Last(d));
    var a := db.(zones := db.zones[nz := row], nextId := nz + 1);
    NewZoneFollows(db, row);
    ZoneCopies(db, sz, nz, order);
    var copies := CopiedZoneEntries(db, sz, nz, order);
    CopiesFollow(a, copies, nz + 1 + |copies|);
    FollowsInTurn(db, a, CopyZone(db, sz, d, dl, order).db, None, None, None);
  }

  lemma EntryCopies(db: Tables, sl: Location, d: Path, dk: Key, recursive: bool, order: RowOrder)
    requires Lasting(db) && Enumerating(order) && d != []
    ensures var copies := CopiedEntries(db, sl, d, dk, recursive, order);
            && (forall k :: k in copies ==>
                  && copies[k].key.zone == dk.zone && db.nextId <= copies[k].entry.id < db.nextId + |copies|
                  && PayloadOk(db.store, copies[k].entry.payload))
            && forall j, k :: j in copies && k in copies && copies[j].entry.id == copies[k].entry.id ==> j == k
  {
    hide Lasting, PayloadOk, Enumerating, Assign, UnderRel, TextRerootRel, RelativeParent, ParseRel, RenderRel;
    var keys, copies := CopiedKeys(db, sl, recursive), CopiedEntries(db, sl, d, dk, recursive, order);
    AssignedIds(order, keys, db.nextId);
    CopiedSize(db, sl, d, dk, recursive, order);
    forall k | k in copies ensures PayloadOk(db.store, copies[k].entry.payload) { PayloadsAreOk(db, k); }
  }

  lemma CopyEntriesUnfolds(db: Tables, sl: Location, d: Path, dk: Key, recursive: bool, order: RowOrder)
    requires d != [] && CopyEntries(db, sl, d, dk, recursive, order).Success?
    ensures var copies := CopiedEntries(db, sl, d, dk, recursive, order);
            CopyEntries(db, sl, d, dk, recursive, order).value.db == db.(entries := PutRows(db.entries, copies), nextId := db.nextId + |copies|)
  {
    hide CopiedEntries, Collides, PutRows;
  }

  lemma CopyEntriesFollow(db: Tables, sl: Location, d: Path, dk: Key, recursive: bool, order: RowOrder)
    requires Lasting(db) && Enumerating(order) && d != [] && dk.zone in db.zones
    requires CopyEntries(db, sl, d, dk, recursive, order).Success?
    ensures Follows(db, CopyEntries(db, sl, d, dk, recursive, order).value.db, None)
  {
    hide Lasting, Follows, PayloadOk, PutRows, Enumerating, CopiedEntries, CopyEntries;
    var copies := CopiedEntries(db, sl, d, dk, recursive, order);
    EntryCopies(db, sl, d, dk, recursive, order);
    CopyEntriesUnfolds(db, sl, d, dk, recursive, order);
    CopiesFollow(db, copies, db.nextId + |copies|);
  }

  lemma CopyFollows(db: Tables, s: Path, d: Path, recursive: bool, order: RowOrder)
    requires Lasting(db) && Enumerating(order) && HasRoot(db.zones) && Copy(db, s, d, recursive, order).Success?
    ensures Follows(db, Copy(db, s, d, recursive, order).value.db, None)
  {
    hide Lasting, Follows, KindOf, AtOrUnder, Locate, HasNestedZones, EntryKey, HasRoot, ParentIsDirectory, Copy, CopyZone, CopyEntries, Enumerating;
    CopyUnfolds(db, s, d, recursive, order);
    var l := Locate(db.zones, s);
    NoZoneAt(db, d);
    if l.rel == [] {
      CopyZoneFollows(db, l.zone, d, Locate(db.zones, DropLast(d)), order);
    } else {
      KeyZone(db.zones, d);
      CopyEntriesFollow(db, l, d, EntryKey(db.zones, d), recursive, order);
    }
  }

  lemma StagedZoneFollows(db: Tables, row: Zone, batch: Batch, order: RowOrder)
    requires Lasting(db) && Enumerating(order) && BatchOk(batch) && forall z :: z in db.zones ==> db.zones[z].path != row.path
    ensures Follows(db, AddStagedZone(db, row, batch, order), None)
  {
    hide Lasting, Inherits, PayloadOk, PlantedEntries, BatchRows, BatchOk, Enumerating, Assign, StagedPayload, RelKeys, RenderRel;
    var nz := db.nextId;
    var a := db.(zones := db.zones[nz := row], nextId := nz + 1);
    NewZoneFollows(db, row);
    var rows := BatchRows(batch, nz + 1, order);
    BatchSize(batch, nz + 1, order);
    AssignedIds(order, RelKeys(batch), nz + 1);
    var added := PlantedEntries(nz, [], rows);
    forall k ensures k in added ==>
        && k.zone == nz && Key(0, k.rel) in RelKeys(batch) && added[k].id == Assign(order(RelKeys(batch)), nz + 1)[Key(0, k.rel)]
        && PayloadOk(a.store, added[k].payload)
    {
      PlantedEntryAt(nz, [], rows, k);
      if k in added {
        assert k.rel[0..] == k.rel;
        BatchRow(batch, nz + 1, k.rel, order);
        StagedPayloadOk(a.store, batch[RenderRel(k.rel)]);
      }
    }
    MoreRowsFollow(a, added, nz + 1 + |rows|);
    FollowsInTurn(db, a, AddStagedZone(db, row, batch, order), None, None, None);
  }

  lemma ImportInlineFollows(db: Tables, d: Path, batch: Batch, order: RowOrder)
    requires Lasting(db) && Enumerating(order) && HasRoot(db.zones) && db.nextId !in db.zones && ImportInline(db, d, batch, order).Success?
    ensures Follows(db, ImportInline(db, d, batch, order).value.db, None)
  {
    hide Lasting, Follows, KindOf, Locate, EntryKey, HasRoot, ParentIsDirectory, AddStagedZone, Enumerating, PayloadOk, StagedPayload, BatchOk, ImportInline;
    ImportRefuses(db, d, batch, order);
    NoZoneAt(db, d);
    assert d != [] by { HasParent(db, d); }
    HasTop(batch);
    if batch[""].kind == Dir {
      ImportDirUnfolds(db, d, batch, order);
      var l := Locate(db.zones, DropLast(d));
      StagedZoneFollows(db, Zone(d, Some(l.zone), Some(l.rel), Last(d)), batch, order);
    } else {
      ImportOneUnfolds(db, d, batch, order);
      KeyZone(db.zones, d);
      StagedPayloadOk(db.store, batch[""]);
      OneRowFollows(db, EntryKey(db.zones, d), NewEntry(db, d, StagedPayload(batch[""])));
    }
  }

  lemma HasTop(batch: Batch)
    requires BatchOk(batch)
    ensures "" in batch
  {
  }

  lemma HasParent(db: Tables, d: Path)
    requires HasRoot(db.zones) && ParentIsDirectory(db, d)
    ensures d != []
  {
  }

  lemma ImportFollows(db: Tables, d: Path, batch: Batch, order: RowOrder)
    requires Lasting(db) && Enumerating(order) && HasRoot(db.zones) && db.nextId !in db.zones && Import(db, d, batch, order).Success?
    ensures Follows(db, Import(db, d, batch, order).value.db, None)
  {
    hide Lasting, Inherits, HasRoot, ImportInline, BlockizeZoneSegment, Locate, Enumerating;
    ImportInlineFollows(db, d, batch, order);
    var c := ImportInline(db, d, batch, order).value.db;
    var zone := Locate(c.zones, d).zone;
    BlockizeFollows(c, zone, order);
    FollowsInTurn(db, c, BlockizeZoneSegment(c, zone, order), None, None, None);
  }

  lemma AttachFollows(db: Tables, k: Key, o: ObjectId, data: Bytes)
    requires Lasting(db) && k in db.entries && db.entries[k].payload == InlineFile([])
    requires o in db.store.objects && o in db.store.rows && Bodies(db.store.rows[o].blocks) == data
    ensures Follows(db, db.(entries := AttachContent(db.entries, db.entries[k].id, o, |data|)), Some(db.entries[k].id))
  {
    hide HasRoot, ZonePathsUnique, StoreOk, Payloads, AttachContent, Follows, Bodies, Inherits;
    AttachIsOne(db.zones, db.entries, db.nextId, k, o, |data|);
    EmptyInline();
    EmptyIsValid();
    var payload := InlineFile([]).(content := Some(o), size := |data|);
    assert PayloadOk(db.store, payload);
    RewrittenRowFollows(db, k, payload, db.nextId);
  }

  lemma ImportTextFollows(db: Tables, p: Path, data: Bytes)
    requires Lasting(db) && HasRoot(db.zones) && ImportText(db, p, data).Success?
    ensures var w := ImportText(db, p, data).value; Follows(db, w.db, Some(w.count))
  {
    hide Mounted, StoreOk, Payloads, Inherits, HasRoot, WriteInline, Loaded, Importable, EntryKey, AttachContent, InlineFile, SameNodes, Bodies;
    LoadedOk(db, data);
    var a := db.(store := Loaded(db.store, data));
    SameNodesFollow(db, a);
    WriteInlineFollows(a, p, []);
    WrittenEntry(a, p, []);
    var w, key, o := WriteInline(a, p, []).value, EntryKey(a.zones, p), db.store.nextObject;
    FollowsInTurn(db, a, w.db, None, Some(w.count), Some(w.count));
    AttachFollows(w.db, key, o, data);
    FollowsInTurn(db, w.db, ImportText(db, p, data).value.db, Some(w.count), Some(w.count), Some(w.count));
  }

  // ---- Steps ----

  /** New ids are drawn once for each row. */
  ghost predicate Delivered(op: Op) { op.CopyOp? || op.ImportOp? ==> Enumerating(op.order) }

  /** The id of the entry a write or an import of a text puts its bytes into. */
  ghost function WrittenBy(op: Op, r: Outcome): Option<NodeId> {
    if (op.WriteOp? || op.ImportTextOp?) && r.Success? then Some(r.value.count) else None
  }

  /** The step after which no published segment is left over. */
  ghost predicate Reclaims(op: Op, r: Outcome) { (op.WriteOp? || op.RemoveOp?) && r.Success? }

  lemma ExecuteFollows(db: Tables, op: Op)
    requires Lasting(db) && Delivered(op) && op.PathsOk() && HasRoot(db.zones) && db.nextId !in db.zones && Execute(db, op).Success?
    ensures var r := Execute(db, op); Follows(db, r.value.db, WrittenBy(op, r)) && (Reclaims(op, r) ==> AllReferenced(r.value.db))
  {
    hide Lasting, Follows, HasRoot, MkdirParents, Mkdir, WriteFile, Copy, Move, Remove, Import, ImportText, AssertPath, Parse, ValidPath, Enumerating, AllReferenced;
    var p := op.Target();
    ParsedIsValid(op.path);
    match op
    case MkdirOp(_, parents) => if parents { MkdirParentsFollow(db, p, 0); } else { MkdirFollows(db, p); }
    case WriteOp(_, data, order) => WriteFollows(db, p, data, order);
    case CopyOp(_, _, recursive, order) => CopyFollows(db, op.Source(), p, recursive, order);
    case MoveOp(_, _) =>
      ParsedIsValid(op.source);
      MoveFollows(db, op.Source(), p);
    case RemoveOp(_, recursive) => RemoveFollows(db, p, recursive);
    case ImportOp(_, batch, order) => ImportFollows(db, p, batch, order);
    case ImportTextOp(_, data) => ImportTextFollows(db, p, data);
  }

  /** What a step does whatever its tests select: it changes no node but the one it writes, and after an
      accepted write or remove every published segment is referenced. */
  ghost predicate StepKept(a: Tables, op: Op, b: Tables) {
    && HasRoot(a.zones) && a.nextId !in a.zones && b == After(a, op)
    && Inherits(a, b, WrittenBy(op, Step(a, op)))
    && (Reclaims(op, Step(a, op)) ==> AllReferenced(b))
  }

  /** Every step, accepted or refused, also keeps the constraints of the schema and the content behind
      each row. */
  lemma StepLasts(db: Tables, op: Op)
    requires Lasting(db) && Delivered(op)
    ensures Lasting(After(db, op)) && StepKept(db, op, After(db, op))
  {
    hide Lasting, Inherits, HasRoot, Execute, Delivered, AllReferenced, Op.PathsOk;
    RootStays(db);
    StaysAsItWas(db);
    if Step(db, op).Success? { ExecuteFollows(db, op); }
  }

  // ---- Runs ----

  lemma {:induction false} RunLasts(db: Tables, ops: seq<Op>)
    requires Lasting(db) && forall i :: 0 <= i < |ops| ==> Delivered(ops[i])
    ensures forall i :: 0 <= i <= |ops| ==> Lasting(States(db, ops)[i])
    ensures forall i :: 0 <= i < |ops| ==> StepKept(States(db, ops)[i], ops[i], States(db, ops)[i + 1])
    decreases |ops|
  {
    hide Lasting, Delivered, After, StepKept;
    if ops != [] {
      var next, later := After(db, ops[0]), ops[1..];
      var s, rest := States(db, ops), States(next, later);
      assert s == [db] + rest;
      StepLasts(db, ops[0]);
      RunLasts(next, later);
      assert forall i :: 0 <= i <= |later| ==> Lasting(rest[i]);
      forall i | 0 <= i < |ops| ensures StepKept(s[i], ops[i], s[i + 1]) {
        if i > 0 { assert s[i] == rest[i - 1] && s[i + 1] == rest[i] && ops[i] == ops[1..][i - 1]; }
      }
    }
  }

  /** No command of the run writes to the entry with the id. */
  ghost predicate NeverWritten(db: Tables, ops: seq<Op>, id: NodeId) {
    var s := States(db, ops);
    forall i :: 0 <= i < |ops| && HasRoot(s[i].zones) && s[i].nextId !in s[i].zones ==>
      WrittenBy(ops[i], Step(s[i], ops[i])) != Some(id)
  }

  lemma RestNeverWritten(db: Tables, ops: seq<Op>, id: NodeId)
    requires ops != [] && NeverWritten(db, ops, id)
    ensures NeverWritten(After(db, ops[0]), ops[1..], id)
    ensures HasRoot(db.zones) && db.nextId !in db.zones ==> WrittenBy(ops[0], Step(db, ops[0])) != Some(id)
  {
    hide After, Step, WrittenBy, HasRoot;
    var s, rest := States(db, ops), States(After(db, ops[0]), ops[1..]);
    assert s == [db] + rest;
    assert s[0] == db;
    forall i | 0 <= i < |ops| - 1 && HasRoot(rest[i].zones) && rest[i].nextId !in rest[i].zones
      ensures WrittenBy(ops[1..][i], Step(rest[i], ops[1..][i])) != Some(id)
    {
      assert s[i + 1] == rest[i] && ops[i + 1] == ops[1..][i];
    }
  }

  lemma KeptInherits(db: Tables, op: Op)
    requires StepKept(db, op, After(db, op))
    ensures HasRoot(db.zones) && db.nextId !in db.zones && Inherits(db, After(db, op), WrittenBy(op, Step(db, op)))
  {
    hide Inherits, After, Step, HasRoot, AllReferenced;
  }

  /** Every entry that is left and was never written stands for the node it stood for at the start. */
  ghost predicate NodesKept(db: Tables, ops: seq<Op>, last: Tables) {
    forall k :: k in last.entries && last.entries[k].id < db.nextId && NeverWritten(db, ops, last.entries[k].id) ==> StoodFor(db, last, k)
  }

  ghost function Final(db: Tables, ops: seq<Op>): Tables { States(db, ops)[|ops|] }

  lemma FinalOfRest(db: Tables, ops: seq<Op>)
    requires ops != []
    ensures Final(db, ops) == Final(After(db, ops[0]), ops[1..])
  {
    hide After;
    assert States(db, ops) == [db] + States(After(db, ops[0]), ops[1..]);
  }

  /** Over every run an entry that is left and that no command wrote to stands for the node it stood for at
      the start, its bytes included, wherever its row has gone. */
  lemma {:induction false} RunKeepsNodes(db: Tables, ops: seq<Op>, k: Key)
    requires Lasting(db) && forall i :: 0 <= i < |ops| ==> Delivered(ops[i])
    requires k in Final(db, ops).entries && Final(db, ops).entries[k].id < db.nextId
    requires NeverWritten(db, ops, Final(db, ops).entries[k].id)
    ensures StoodFor(db, Final(db, ops), k)
    decreases |ops|
  {
    hide Lasting, Delivered, After, NeverWritten, StepKept, Final, StoodFor;
    if ops == [] {
      FinalIsFirst(db, k);
    } else {
      var next := After(db, ops[0]);
      FinalOfRest(db, ops);
      StepLasts(db, ops[0]);
      RestNeverWritten(db, ops, Final(db, ops).entries[k].id);
      KeptInherits(db, ops[0]);
      NextIdGrows(db, ops[0]);
      RunKeepsNodes(next, ops[1..], k);
      StoodBefore(db, next, Final(db, ops), WrittenBy(ops[0], Step(db, ops[0])), k);
    }
  }

  lemma RunKeepsAllNodes(db: Tables, ops: seq<Op>)
    requires Lasting(db) && forall i :: 0 <= i < |ops| ==> Delivered(ops[i])
    ensures NodesKept(db, ops, Final(db, ops))
  {
    hide Lasting, Delivered, NeverWritten, StoodFor, Final;
    var last := Final(db, ops);
    forall k | k in last.entries && last.entries[k].id < db.nextId && NeverWritten(db, ops, last.entries[k].id) ensures StoodFor(db, last, k) {
      RunKeepsNodes(db, ops, k);
    }
  }

  lemma FinalIsFirst(db: Tables, k: Key)
    requires k in Final(db, []).entries
    ensures StoodFor(db, Final(db, []), k)
  {
    hide NodeOf;
  }

  lemma NextIdGrows(db: Tables, op: Op)
    requires StepKept(db, op, After(db, op))
    ensures db.nextId <= After(db, op).nextId
  {
    hide After, Step, HasRoot, AllReferenced, WrittenBy, FromBefore;
  }

  lemma StoodBefore(a: Tables, b: Tables, c: Tables, written: Option<NodeId>, k: Key)
    requires Inherits(a, b, written) && k in c.entries && StoodFor(b, c, k)
    requires c.entries[k].id < a.nextId && written != Some(c.entries[k].id)
    ensures StoodFor(a, c, k)
  {
    hide NodeOf;
    var j :| j in b.entries && b.entries[j].id == c.entries[k].id && NodeOf(b.store, b.entries[j]) == NodeOf(c.store, c.entries[k]);
    assert FromBefore(a, b, written, j);
  }

  // ---- The root alone ----

  lemma {:induction false} MkdirParentsKeepZones(db: Tables, p: Path, done: nat)
    requires HasRoot(db.zones) && done <= |p| && MkdirParents(db, p, done).Success?
    ensures MkdirParents(db, p, done).value.db.zones == db.zones
    decreases |p| - done
  {
    hide KindOf, Mkdir, HasRoot;
    if done < |p| {
      var current := p[..done + 1];
      if KindOf(db, current).Some? {
        MkdirParentsKeepZones(db, p, done + 1);
      } else {
        MkdirParentsKeepZones(Mkdir(db, current).value.db, p, done + 1);
      }
    }
  }

  lemma {:induction false} BlockizeKeepsZones(db: Tables, keys: seq<Key>, segment: Option<SegmentId>)
    ensures BlockizeKeys(db, keys, segment).zones == db.zones
    decreases |keys|
  {
    hide Stored, SplitText;
    if keys != [] {
      BlockizeKeepsZones(if IsInlineText(db.entries, keys[0]) then BlockizeOne(db, keys[0], segment) else db, keys[1..], segment);
    }
  }

  lemma WriteKeepsZones(db: Tables, p: Path, data: Bytes, order: RowOrder)
    requires HasRoot(db.zones) && WriteFile(db, p, data, order).Success?
    ensures WriteFile(db, p, data, order).value.db.zones == db.zones
  {
    hide KindOf, HasRoot, EntryKey, InlineFile, Locate, BlockizeKeys, InlineTexts, DropSegments, Unreferenced, ParentIsDirectory;
    var w := WriteInline(db, p, data).value.db;
    BlockizeKeepsZones(w, order(InlineTexts(w.entries, Locate(db.zones, p).zone)), None);
  }

  lemma ImportKeepsRoot(db: Tables, d: Path, batch: Batch, order: RowOrder)
    requires HasRoot(db.zones) && db.nextId !in db.zones && Import(db, d, batch, order).Success?
    ensures HasRoot(Import(db, d, batch, order).value.db.zones)
  {
    hide HasRoot, ImportInline, BlockizeKeys, InlineTexts, Locate;
    var c := ImportInline(db, d, batch, order).value.db;
    var segment, texts := c.store.nextSegment, InlineTexts(c.entries, Locate(c.zones, d).zone);
    BlockizeKeepsZones(c.(store := c.store.(segments := c.store.segments[segment := false], nextSegment := segment + 1)), order(texts), Some(segment));
  }

  lemma ImportTextKeepsZones(db: Tables, p: Path, data: Bytes)
    requires HasRoot(db.zones) && ImportText(db, p, data).Success?
    ensures ImportText(db, p, data).value.db.zones == db.zones
  {
    hide KindOf, HasRoot, EntryKey, InlineFile, Loaded, Importable, AttachContent, ParentIsDirectory;
  }

  lemma DestinationHasParent(db: Tables, s: Path, d: Path)
    requires HasRoot(db.zones) && Move(db, s, d).Success?
    ensures s != [] && d != [] && ClearDestination(db, d).Success?
  {
    hide KindOf, AtOrUnder, Locate, MoveZone, MoveEntries, HasNestedZones, ZonesAt, EntriesOf, EntryKey, HasRoot, DeleteRows;
    MoveUnfolds(db, s, d);
    if ClearDestination(db, d).Success? { assert ParentIsDirectory(db, d); }
  }

  lemma MoveKeepsRoot(db: Tables, s: Path, d: Path)
    requires HasRoot(db.zones) && ValidPath(s) && Move(db, s, d).Success?
    ensures HasRoot(Move(db, s, d).value.db.zones)
  {
    hide KindOf, AtOrUnder, Locate, MovedZones, MovedEntries, PutRows, HasNestedZones, ZonesAt, EntriesOf, EntryKey, HasRoot, ValidPath, Collides, ParentIsDirectory, DeleteRows;
    MoveUnfolds(db, s, d);
    DestinationHasParent(db, s, d);
    var c := ClearDestination(db, d).value;
    MoveLeavesRoot(c, s, d, Locate(c.zones, s).zone, Locate(c.zones, DropLast(d)));
  }

  lemma CopyKeepsRoot(db: Tables, s: Path, d: Path, recursive: bool, order: RowOrder)
    requires HasRoot(db.zones) && db.nextId !in db.zones && Copy(db, s, d, recursive, order).Success?
    ensures HasRoot(Copy(db, s, d, recursive, order).value.db.zones)
  {
    hide KindOf, AtOrUnder, Locate, PutRows, HasNestedZones, CopiedEntries, CopiedZoneEntries, EntryKey, ParentIsDirectory, Collides;
    CopyUnfolds(db, s, d, recursive, order);
    var z :| z in db.zones && db.zones[z].path == [];
    var b := Copy(db, s, d, recursive, order).value.db;
    assert z in b.zones && b.zones[z].path == [];
  }

  /** Every step keeps a zone mounted at the root. */
  lemma StepKeepsRoot(db: Tables, op: Op)
    requires HasRoot(db.zones) && db.nextId !in db.zones
    ensures HasRoot(After(db, op).zones)
  {
    hide HasRoot, MkdirParents, Mkdir, WriteFile, Copy, Move, Import, ImportText, AssertPath, Parse, ValidPath, KindOf, HasChildren, Locate, RemovedZones, RemovedEntries,
         Reclaim, Remove;
    if Step(db, op).Success? {
      var p := op.Target();
      ParsedIsValid(op.path);
      match op
      case MkdirOp(_, parents) => if parents { MkdirParentsKeepZones(db, p, 0); }
      case WriteOp(_, data, order) => WriteKeepsZones(db, p, data, order);
      case CopyOp(_, _, recursive, order) => CopyKeepsRoot(db, op.Source(), p, recursive, order);
      case MoveOp(_, _) =>
        ParsedIsValid(op.source);
        MoveKeepsRoot(db, op.Source(), p);
      case RemoveOp(_, recursive) =>
        RemoveUnfolds(db, p, recursive);
        RemoveLeavesRoot(db, p, recursive);
        ReclaimedZones(DeleteRows(db, RemovedZones(db, p, Locate(db.zones, p), recursive), RemovedEntries(db, p, Locate(db.zones, p), recursive)));
      case ImportOp(_, batch, order) => ImportKeepsRoot(db, p, batch, order);
      case ImportTextOp(_, data) => ImportTextKeepsZones(db, p, data);
    }
  }

  lemma ReclaimedZones(db: Tables)
    ensures Reclaim(db).zones == db.zones
  {
    hide DropSegments, Unreferenced;
  }
}
