/** Over every run the text files are stored in blocks and the others are not, so a search through the
    stored blocks is a search through the texts of the tree. */
module Settling {
  import opened Basics
  import opened Paths
  import opened Utf8
  import opened Blocks
  import opened Tables
  import opened Surgery
  import opened Grafting
  import opened Content
  import opened Commands
  import opened Addresses
  import opened Creating
  import opened Removing
  import opened Moving
  import opened Copying
  import opened Importing
  import opened TextImport
  import opened Publishing
  import opened Runs

  /** What `utf8_or_null` decodes. */
  predicate IsText(bytes: Bytes) { ValidUtf8(bytes) && 0 !in bytes }

  /** A regular file's content is in blocks exactly when it is a text, and no text is left in the
      row. */
  predicate SettledRow(store: Store, payload: Payload) {
    payload.kind == File ==>
      && (payload.content.Some? <==> IsText(Denote(store, payload)))
      && (payload.content.None? ==> payload.text.None?)
  }

  ghost predicate Settled(db: Tables) {
    forall k :: k in db.entries ==> SettledRow(db.store, db.entries[k].payload)
  }

  /** Settled but for inline texts in one zone. */
  ghost predicate SettledBut(db: Tables, zone: ZoneId) {
    forall k :: k in db.entries ==>
      || SettledRow(db.store, db.entries[k].payload)
      || (k.zone == zone && IsInlineText(db.entries, k) && IsText(Denote(db.store, db.entries[k].payload)))
  }

  // ---- Rows that keep their payloads ----

  /** Every row is a directory or has the payload of a row before. */
  ghost predicate PayloadsFrom(a: Entries, b: Entries) {
    forall k :: k in b ==> b[k].payload == DIRECTORY || HasPayload(a, b[k].payload)
  }

  ghost predicate HasPayload(entries: Entries, payload: Payload) { exists j :: j in entries && entries[j].payload == payload }

  lemma SameRowsFrom(entries: Entries)
    ensures PayloadsFrom(entries, entries)
  {
  }

  lemma FewerRowsFrom(entries: Entries, gone: set<Key>)
    ensures PayloadsFrom(entries, entries - gone)
  {
    forall k | k in entries - gone ensures HasPayload(entries, (entries - gone)[k].payload) { assert k in entries; }
  }

  lemma FromTransitive(a: Entries, b: Entries, c: Entries)
    requires PayloadsFrom(a, b) && PayloadsFrom(b, c)
    ensures PayloadsFrom(a, c)
  {
    forall k | k in c && c[k].payload != DIRECTORY ensures HasPayload(a, c[k].payload) {
      assert HasPayload(b, c[k].payload);
      var j :| j in b && b[j].payload == c[k].payload;
      assert b[j].payload != DIRECTORY;
    }
  }

  lemma FromKeepsSettled(a: Tables, b: Tables)
    requires Settled(a) && b.store == a.store && PayloadsFrom(a.entries, b.entries)
    ensures Settled(b)
  {
    hide IsText, Denote;
    forall k | k in b.entries ensures SettledRow(b.store, b.entries[k].payload) {
      if b.entries[k].payload != DIRECTORY {
        assert HasPayload(a.entries, b.entries[k].payload);
        var j :| j in a.entries && a.entries[j].payload == b.entries[k].payload;
        assert SettledRow(a.store, a.entries[j].payload);
      }
    }
  }

  lemma PutRowsFrom(source: Entries, base: Entries, moves: map<Key, Placed>)
    requires PayloadsFrom(source, base) && forall k :: k in moves ==> HasPayload(source, moves[k].entry.payload)
    ensures PayloadsFrom(source, PutRows(base, moves))
  {
    hide HasPayload;
    var after := PutRows(base, moves);
    forall t | t in after && after[t].payload != DIRECTORY ensures HasPayload(source, after[t].payload) {
      if !(exists k :: k in moves && moves[k].key == t) { assert t in base && after[t] == base[t]; }
    }
  }

  lemma DirectoryFrom(entries: Entries, key: Key, e: Entry)
    requires e.payload == DIRECTORY
    ensures PayloadsFrom(entries, entries[key := e])
  {
    var after := entries[key := e];
    forall k | k in after && after[k].payload != DIRECTORY ensures HasPayload(entries, after[k].payload) {
      assert k in entries && after[k] == entries[k];
    }
  }

  // ---- mkdir, move, copy, remove ----

  lemma MkdirFrom(db: Tables, p: Path)
    requires HasRoot(db.zones) && Mkdir(db, p).Success?
    ensures var b := Mkdir(db, p).value.db; b.store == db.store && PayloadsFrom(db.entries, b.entries)
  {
    hide KindOf, ParentIsDirectory, HasRoot, EntryKey, Locate, PayloadsFrom;
    SameRowsFrom(db.entries);
    if p != [] {
      var key := EntryKey(db.zones, p);
      EntryKeyIs(db.zones, p);
      DirectoryFrom(db.entries, key, Entry(db.nextId, DropLast(key.rel), Last(p), DIRECTORY));
    }
  }

  lemma {:induction false} MkdirParentsFrom(db: Tables, p: Path, done: nat)
    requires HasRoot(db.zones) && done <= |p| && MkdirParents(db, p, done).Success?
    ensures var b := MkdirParents(db, p, done).value.db; b.store == db.store && PayloadsFrom(db.entries, b.entries)
    decreases |p| - done
  {
    hide KindOf, Mkdir, PayloadsFrom, HasRoot;
    SameRowsFrom(db.entries);
    if done < |p| {
      var current := p[..done + 1];
      if KindOf(db, current).Some? {
        MkdirParentsFrom(db, p, done + 1);
      } else {
        MkdirFrom(db, current);
        var made := Mkdir(db, current).value.db;
        MkdirParentsFrom(made, p, done + 1);
        FromTransitive(db.entries, made.entries, MkdirParents(made, p, done + 1).value.db.entries);
      }
    }
  }

  lemma ClearFrom(db: Tables, d: Path)
    requires HasRoot(db.zones) && ClearDestination(db, d).Success?
    ensures var c := ClearDestination(db, d).value; c.store == db.store && PayloadsFrom(db.entries, c.entries) && d != []
  {
    hide KindOf, Locate, PayloadsFrom, HasRoot;
    SameRowsFrom(db.entries);
    var l := Locate(db.zones, d);
    FewerRowsFrom(db.entries, {Key(l.zone, l.rel)});
    assert db.entries - {Key(l.zone, l.rel)} == DeleteRows(db, {}, {Key(l.zone, l.rel)}).entries;
  }

  lemma MoveEntriesFrom(db: Tables, sl: Location, d: Path, dk: Key)
    requires d != [] && MoveEntries(db, sl, d, dk).Success?
    ensures var b := MoveEntries(db, sl, d, dk).value.db; b.store == db.store && PayloadsFrom(db.entries, b.entries)
  {
    hide PutRows, TextRerootRel, AtOrUnderRel, Collides, PayloadsFrom, RelativeParent, ParseRel, RenderRel;
    var moves := MovedEntries(db, sl, d, dk);
    forall k | k in moves ensures HasPayload(db.entries, moves[k].entry.payload) { assert moves[k].entry.payload == db.entries[k].payload; }
    FewerRowsFrom(db.entries, moves.Keys);
    PutRowsFrom(db.entries, db.entries - moves.Keys, moves);
  }

  lemma MoveFrom(db: Tables, s: Path, d: Path)
    requires HasRoot(db.zones) && Move(db, s, d).Success?
    ensures var b := Move(db, s, d).value.db; b.store == db.store && PayloadsFrom(db.entries, b.entries)
  {
    hide KindOf, AtOrUnder, Locate, ClearDestination, MoveEntries, HasNestedZones, PayloadsFrom, MovedZones, ZonesAt, EntriesOf, EntryKey, HasRoot, Move;
    MoveUnfolds(db, s, d);
    ClearFrom(db, d);
    var c := ClearDestination(db, d).value;
    var l := Locate(c.zones, s);
    if l.rel != [] {
      MoveEntriesFrom(c, l, d, EntryKey(c.zones, d));
      FromTransitive(db.entries, c.entries, Move(db, s, d).value.db.entries);
    }
  }

  lemma CopyZoneFrom(db: Tables, sz: ZoneId, d: Path, dl: Location, order: RowOrder)
    requires d != []
    ensures var b := CopyZone(db, sz, d, dl, order).db; b.store == db.store && PayloadsFrom(db.entries, b.entries)
  {
    hide PutRows, PayloadsFrom, Assign, EntriesOf;
    var copies := CopiedZoneEntries(db, sz, db.nextId, order);
    forall k | k in copies ensures HasPayload(db.entries, copies[k].entry.payload) { assert copies[k].entry.payload == db.entries[k].payload; }
    SameRowsFrom(db.entries);
    PutRowsFrom(db.entries, db.entries, copies);
  }

  lemma CopyEntriesFrom(db: Tables, sl: Location, d: Path, dk: Key, recursive: bool, order: RowOrder)
    requires d != [] && CopyEntries(db, sl, d, dk, recursive, order).Success?
    ensures var b := CopyEntries(db, sl, d, dk, recursive, order).value.db; b.store == db.store && PayloadsFrom(db.entries, b.entries)
  {
    hide PutRows, PayloadsFrom, Assign, CopiedKeys, TextRerootRel, Collides, RelativeParent, ParseRel, RenderRel;
    var copies := CopiedEntries(db, sl, d, dk, recursive, order);
    forall k | k in copies ensures HasPayload(db.entries, copies[k].entry.payload) { assert copies[k].entry.payload == db.entries[k].payload; }
    SameRowsFrom(db.entries);
    PutRowsFrom(db.entries, db.entries, copies);
  }

  lemma CopyFrom(db: Tables, s: Path, d: Path, recursive: bool, order: RowOrder)
    requires HasRoot(db.zones) && Copy(db, s, d, recursive, order).Success?
    ensures var b := Copy(db, s, d, recursive, order).value.db; b.store == db.store && PayloadsFrom(db.entries, b.entries)
  {
    hide KindOf, AtOrUnder, Locate, HasNestedZones, PayloadsFrom, EntryKey, HasRoot, ParentIsDirectory, Copy, CopyZone, CopyEntries;
    CopyUnfolds(db, s, d, recursive, order);
    var l := Locate(db.zones, s);
    if l.rel == [] {
      CopyZoneFrom(db, l.zone, d, Locate(db.zones, DropLast(d)), order);
    } else {
      CopyEntriesFrom(db, l, d, EntryKey(db.zones, d), recursive, order);
    }
  }

  // ---- Content that moves ----

  /** The same row with its content stored elsewhere denotes the same bytes. */
  lemma SameNodesSettle(a: Tables, b: Tables)
    requires SameNodes(a, b) && Settled(a)
    requires forall k :: k in a.entries ==> b.entries[k].payload == a.entries[k].payload
    ensures Settled(b)
  {
    hide IsText, Denote;
    forall k | k in b.entries ensures SettledRow(b.store, b.entries[k].payload) {
      assert SettledRow(a.store, a.entries[k].payload);
    }
  }

  lemma ReclaimSettles(db: Tables)
    requires Inv(db) && Settled(db)
    ensures Settled(Reclaim(db))
  {
    hide Inv, TreeOf, SettledRow, SameNodes, DropSegments;
    ReclaimKeepsTree(db);
    SameNodesSettle(db, Reclaim(db));
  }

  /** A listed inline text is in an object now, any other row is as it was. */
  predicate RowMoved(before: Entries, after: Entries, keys: seq<Key>, k: Key)
    requires k in before
  {
    && k in after
    && if k in keys && IsInlineText(before, k) then after[k].payload.content.Some? && after[k].payload.kind == File
       else after[k].payload == before[k].payload
  }

  lemma {:induction false} BlockizeKeysMoves(db: Tables, keys: seq<Key>, segment: Option<SegmentId>, k: Key)
    requires k in db.entries
    ensures RowMoved(db.entries, BlockizeKeys(db, keys, segment).entries, keys, k)
    decreases |keys|
  {
    hide SplitText, Stored;
    if keys != [] {
      var one := if IsInlineText(db.entries, keys[0]) then BlockizeOne(db, keys[0], segment) else db;
      BlockizeKeysMoves(one, keys[1..], segment, k);
      assert k in keys <==> k == keys[0] || k in keys[1..];
    }
  }

  /** Storing the inline texts of the zone settles it. */
  lemma BlockizeSettles(db: Tables, b: Tables, zone: ZoneId, keys: seq<Key>)
    requires SettledBut(db, zone) && SameNodes(db, b) && IsEnumeration(keys, InlineTexts(db.entries, zone))
    requires forall k :: k in db.entries ==> RowMoved(db.entries, b.entries, keys, k)
    ensures Settled(b)
  {
    hide IsText, Denote;
    forall k | k in b.entries ensures SettledRow(b.store, b.entries[k].payload) {
      assert RowMoved(db.entries, b.entries, keys, k);
      assert NodeOf(db.store, db.entries[k]) == NodeOf(b.store, b.entries[k]);
      if SettledRow(db.store, db.entries[k].payload) {
        assert !IsInlineText(db.entries, k);
      } else {
        assert k in InlineTexts(db.entries, zone);
      }
    }
  }

  lemma BlockizeZoneSettles(db: Tables, zone: ZoneId, order: RowOrder)
    requires Inv(db) && SettledBut(db, zone) && Enumerating(order)
    ensures Settled(BlockizeZone(db, zone, order))
  {
    hide Inv, TreeOf, SettledBut, Settled, SameNodes, IsEnumeration, InlineTexts, BlockizeKeys;
    var keys := order(InlineTexts(db.entries, zone));
    BlockizeKeepsTree(db, zone, order);
    forall k | k in db.entries ensures RowMoved(db.entries, BlockizeZone(db, zone, order).entries, keys, k) {
      BlockizeKeysMoves(db, keys, None, k);
    }
    BlockizeSettles(db, BlockizeZone(db, zone, order), zone, keys);
  }

  lemma NoneListed(keys: seq<Key>, k: Key)
    requires IsEnumeration(keys, {})
    ensures k !in keys
  {
  }

  lemma BlockizeSegmentSettles(db: Tables, zone: ZoneId, order: RowOrder)
    requires Inv(db) && SettledBut(db, zone) && Enumerating(order)
    ensures Settled(BlockizeZoneSegment(db, zone, order))
  {
    hide Inv, TreeOf, SettledBut, Settled, SameNodes, IsEnumeration, InlineTexts, BlockizeKeys;
    var texts := InlineTexts(db.entries, zone);
    var keys := order(texts);
    var b := BlockizeZoneSegment(db, zone, order);
    BlockizeSegmentKeepsTree(db, zone, order);
    var staged := db.(store := db.store.(segments := db.store.segments[db.store.nextSegment := false], nextSegment := db.store.nextSegment + 1));
    forall k | k in db.entries ensures RowMoved(db.entries, b.entries, keys, k) {
      BlockizeKeysMoves(staged, keys, Some(db.store.nextSegment), k);
      if texts == {} { NoneListed(keys, k); }
    }
    BlockizeSettles(db, b, zone, keys);
  }

  // ---- write and import ----

  lemma DirtyRow(store: Store, data: Bytes)
    ensures var payload := InlineFile(data);
            && Denote(store, payload) == data
            && (IsText(data) ==> payload.text.Some? && payload.content.None?)
            && (!IsText(data) ==> SettledRow(store, payload))
  {
    hide ValidUtf8;
  }

  /** A regular file as it is written. */
  ghost predicate Inlined(payload: Payload) { payload.kind == File ==> exists data: Bytes :: payload == InlineFile(data) }

  lemma InlinedRow(b: Tables, k: Key)
    requires k in b.entries && Inlined(b.entries[k].payload)
    ensures || SettledRow(b.store, b.entries[k].payload)
            || (IsInlineText(b.entries, k) && IsText(Denote(b.store, b.entries[k].payload)))
  {
    hide IsText, Denote, InlineFile;
    if b.entries[k].payload.kind == File {
      var data: Bytes :| b.entries[k].payload == InlineFile(data);
      DirtyRow(b.store, data);
    }
  }

  /** Rows added to a zone, or overwritten there. */
  lemma AddedSettledBut(a: Tables, b: Tables, added: Entries, zone: ZoneId)
    requires Settled(a) && b.store == a.store && b.entries == a.entries + added
    requires forall k :: k in added ==> k.zone == zone && Inlined(added[k].payload)
    ensures SettledBut(b, zone)
  {
    hide IsText, Denote, SettledRow, Inlined, IsInlineText;
    forall k | k in b.entries
      ensures || SettledRow(b.store, b.entries[k].payload)
              || (k.zone == zone && IsInlineText(b.entries, k) && IsText(Denote(b.store, b.entries[k].payload)))
    {
      if k in added { InlinedRow(b, k); }
    }
  }

  /** A row added to a zone, or overwritten there. */
  lemma OneRowSettledBut(a: Tables, b: Tables, key: Key, e: Entry)
    requires Settled(a) && b.store == a.store && b.entries == a.entries[key := e] && Inlined(e.payload)
    ensures SettledBut(b, key.zone)
  {
    hide Settled, SettledBut, Inlined;
    assert a.entries[key := e] == a.entries + map[key := e];
    AddedSettledBut(a, b, map[key := e], key.zone);
  }

  /** The key of a path that is no zone is in the zone the path is located in. */
  lemma EntryZoneIs(zones: Zones, p: Path)
    requires HasRoot(zones) && ZonePathsUnique(zones) && p != [] && forall z :: z in zones ==> zones[z].path != p
    ensures EntryKey(zones, p).zone == Locate(zones, p).zone
  {
    EntryKeyIs(zones, p);
    var l := Locate(zones, DropLast(p));
    assert IsDeepest(zones, p, l.zone) by {
      assert zones[l.zone].path <= DropLast(p) <= p;
      forall y | y in zones && zones[y].path <= p ensures |zones[y].path| <= |zones[l.zone].path| {
        assert zones[y].path == p[..|zones[y].path|];
        if |zones[y].path| < |p| { assert zones[y].path <= DropLast(p); }
      }
    }
    LocateIsCanonical(zones, p, l.zone, l.rel + [Last(p)]);
  }

  lemma NotAZone(db: Tables, p: Path)
    requires !IsZonePath(db, p)
    ensures forall z :: z in db.zones ==> db.zones[z].path != p
  {
  }

  lemma WriteInlineSettledBut(db: Tables, p: Path, data: Bytes)
    requires Inv(db) && Settled(db) && !IsZonePath(db, p) && HasRoot(db.zones) && WriteInline(db, p, data).Success?
    ensures SettledBut(WriteInline(db, p, data).value.db, Locate(db.zones, p).zone)
  {
    hide Inv, Settled, SettledBut, HasRoot, IsZonePath, ZonePathsUnique, KindOf, EntryKey, Locate, InlineFile, WriteInline, NewEntry, TreeOf;
    WriteUnfolds(db, p, data);
    WrittenEntry(db, p, data);
    UniqueZonePaths(db);
    NotAZone(db, p);
    EntryZoneIs(db.zones, p);
    var b := WriteInline(db, p, data).value.db;
    var key := EntryKey(db.zones, p);
    OneRowSettledBut(db, b, key, b.entries[key]);
  }

  lemma UniqueZonePaths(db: Tables)
    requires Inv(db)
    ensures ZonePathsUnique(db.zones) && HasRoot(db.zones)
  {
    hide ZonePathsUnique, NamesValid, Homed, EntryParents, ZoneParents, Labelled, IdsUnique, HasRoot, StoreOk, Payloads;
  }

  lemma WriteSettles(db: Tables, p: Path, data: Bytes, order: RowOrder)
    requires Inv(db) && Settled(db) && ValidPath(p) && !IsZonePath(db, p) && Enumerating(order)
    requires HasRoot(db.zones) && WriteFile(db, p, data, order).Success?
    ensures Settled(WriteFile(db, p, data, order).value.db)
  {
    hide Inv, Settled, SettledBut, HasRoot, IsZonePath, ValidPath, WriteInline, BlockizeZone, Reclaim, Locate, WriteRefusal, WrittenId, TreeOf, FreshId, InlineFile;
    WriteInlineMeansTree(db, p, data);
    WriteInlineSettledBut(db, p, data);
    var w := WriteInline(db, p, data).value.db;
    var zone := Locate(db.zones, p).zone;
    BlockizeZoneSettles(w, zone, order);
    BlockizeKeepsTree(w, zone, order);
    ReclaimSettles(BlockizeZone(w, zone, order));
  }

  lemma StagedRow(staged: Staged)
    ensures Inlined(StagedPayload(staged))
  {
    hide InlineFile;
    if staged.kind == File { assert StagedPayload(staged) == InlineFile(staged.content); }
  }

  lemma PlantedRow(batch: Batch, nz: ZoneId, next: NodeId, order: RowOrder, k: Key)
    requires k in PlantedEntries(nz, [], BatchRows(batch, next, order))
    ensures var payload := PlantedEntries(nz, [], BatchRows(batch, next, order))[k].payload;
            k.zone == nz && Inlined(payload)
  {
    hide Inlined, InlineFile, StagedPayload, Assign, PlantedEntries, RenderRel, ParseRel;
    var rows := BatchRows(batch, next, order);
    PlantedEntryAt(nz, [], rows, k);
    var r := k.rel[0..];
    assert r in rows && rows[r].payload == StagedPayload(batch[RenderRel(r)]);
    StagedRow(batch[RenderRel(r)]);
  }

  /** A new zone has staged rows only. */
  lemma StagedZoneSettledBut(db: Tables, row: Zone, batch: Batch, order: RowOrder)
    requires Settled(db)
    ensures SettledBut(AddStagedZone(db, row, batch, order), db.nextId)
  {
    hide Settled, SettledBut, Inlined, BatchRows, PlantedEntries;
    var nz := db.nextId;
    var planted := PlantedEntries(nz, [], BatchRows(batch, nz + 1, order));
    var c := AddStagedZone(db, row, batch, order);
    forall k | k in planted ensures k.zone == nz && Inlined(planted[k].payload) { PlantedRow(batch, nz, nz + 1, order, k); }
    AddedSettledBut(db, c, planted, nz);
  }

  lemma NewZoneLocated(db: Tables, row: Zone, batch: Batch, order: RowOrder)
    requires Inv(AddStagedZone(db, row, batch, order))
    ensures var zones := AddStagedZone(db, row, batch, order).zones; HasRoot(zones) && Locate(zones, row.path).zone == db.nextId
  {
    hide Inv, HasRoot, BatchRows, PlantedEntries;
    var c := AddStagedZone(db, row, batch, order);
    UniqueZonePaths(c);
    assert c.zones[db.nextId] == row;
    assert IsDeepest(c.zones, row.path, db.nextId);
    assert row.path + [] == row.path;
    LocateIsCanonical(c.zones, row.path, db.nextId, []);
  }

  lemma AbsentIsNoZone(db: Tables, p: Path)
    requires Inv(db) && p !in TreeOf(db)
    ensures !IsZonePath(db, p)
  {
    hide Namespace, TreeOf, HasRoot, ZonePathsUnique;
    InvHasNamespace(db);
    UniqueZonePaths(db);
    if z :| z in db.zones && db.zones[z].path == p { ZoneInTree(db, z); }
  }

  lemma ImportSettles(db: Tables, d: Path, batch: Batch, order: RowOrder)
    requires Inv(db) && Settled(db) && ValidPath(d) && Enumerating(order)
    requires HasRoot(db.zones) && db.nextId !in db.zones && Import(db, d, batch, order).Success?
    ensures Settled(Import(db, d, batch, order).value.db)
  {
    hide Inv, TreeOf, Settled, SettledBut, HasRoot, KindOf, ParentIsDirectory, Locate, ValidPath, AddStagedZone, Imported, NewEntry, WithEntry, StagedPayload,
         ImportInline, BlockizeZoneSegment, RelativeTextOk, RelativeParent;
    InvHasNamespace(db);
    LookupKind(db, d);
    ParentMeansTree(db, d);
    ImportRefuses(db, d, batch, order);
    ImportMeansTree(db, d, batch, order);
    assert BatchOk(batch) && ImportRefusal(TreeOf(db), d).None?;
    if batch[""].kind == Dir {
      ImportDirUnfolds(db, d, batch, order);
      ImportDirMeansTree(db, d, batch, order);
      var l := Locate(db.zones, DropLast(d));
      var row := Zone(d, Some(l.zone), Some(l.rel), Last(d));
      StagedZoneSettledBut(db, row, batch, order);
      NewZoneLocated(db, row, batch, order);
      BlockizeSegmentSettles(AddStagedZone(db, row, batch, order), db.nextId, order);
    } else {
      ImportOneUnfolds(db, d, batch, order);
      ImportOneMeansTree(db, d, batch);
      ImportOneSettles(db, d, batch, order);
      ZonesStay(db, d, NewEntry(db, d, StagedPayload(batch[""])));
    }
  }

  lemma ZonesStay(db: Tables, p: Path, e: Entry)
    requires HasRoot(db.zones) && p != []
    ensures WithEntry(db, p, e).zones == db.zones
  {
    hide EntryKey;
  }

  lemma ImportOneSettles(db: Tables, d: Path, batch: Batch, order: RowOrder)
    requires Inv(db) && Settled(db) && Enumerating(order) && HasRoot(db.zones) && d != [] && d !in TreeOf(db) && "" in batch
    requires Inv(WithEntry(db, d, NewEntry(db, d, StagedPayload(batch[""]))))
    ensures Settled(BlockizeZoneSegment(WithEntry(db, d, NewEntry(db, d, StagedPayload(batch[""]))), Locate(db.zones, d).zone, order))
  {
    hide Inv, TreeOf, Settled, SettledBut, HasRoot, Locate, StagedPayload, BlockizeZoneSegment, EntryKey, IsZonePath, ZonePathsUnique, InlineFile;
    UniqueZonePaths(db);
    AbsentIsNoZone(db, d);
    NotAZone(db, d);
    EntryZoneIs(db.zones, d);
    var e := NewEntry(db, d, StagedPayload(batch[""]));
    var c := WithEntry(db, d, e);
    StagedRow(batch[""]);
    assert e.payload == StagedPayload(batch[""]);
    OneRowSettledBut(db, c, EntryKey(db.zones, d), e);
    BlockizeSegmentSettles(c, Locate(db.zones, d).zone, order);
  }

  lemma RewrittenSettled(a: Tables, b: Tables, key: Key, e: Entry)
    requires Settled(a) && b.store == a.store && b.entries == a.entries[key := e] && SettledRow(b.store, e.payload)
    ensures Settled(b)
  {
    hide IsText, Denote;
    forall k | k in b.entries ensures SettledRow(b.store, b.entries[k].payload) {
      if k != key { assert SettledRow(a.store, a.entries[k].payload); }
    }
  }

  /** A published text is in blocks. */
  lemma PublishedRow(store: Store, o: ObjectId, data: Bytes)
    requires o in store.rows && Bodies(store.rows[o].blocks) == data && Importable(data)
    ensures SettledRow(store, InlineFile([]).(content := Some(o), size := |data|))
  {
    hide ValidUtf8, Bodies, LinesFitUpTo;
    EmptyInline();
  }

  lemma ImportTextSettles(db: Tables, p: Path, data: Bytes)
    requires Inv(db) && Settled(db) && ValidPath(p) && !IsZonePath(db, p)
    requires HasRoot(db.zones) && ImportText(db, p, data).Success?
    ensures Settled(ImportText(db, p, data).value.db)
  {
    hide Namespace, TreeOf, StoreOk, Payloads, WriteInline, Importable, Loaded, SameNodes, WriteRefusal, AttachContent, HasRoot, WrittenId, Bodies, PathOf, EntryKey,
         InlineFile, FreshId, ValidPath, Settled, SettledRow, NewEntry, IdsUnique, KindOf, ParentIsDirectory, ZonePathsUnique, Locate;
    NamespaceParts(db);
    LoadedOk(db, data);
    var a := db.(store := Loaded(db.store, data));
    assert !IsZonePath(a, p);
    hide IsZonePath;
    SameTree(db, a);
    SameNodesSettle(db, a);
    WriteInlineMeansTree(a, p, []);
    WriteUnfolds(a, p, []);
    WrittenEntry(a, p, []);
    var w := WriteInline(a, p, []).value;
    var key, o := EntryKey(db.zones, p), db.store.nextObject;
    NamespaceParts(w.db);
    AttachIsOne(w.db.zones, w.db.entries, w.db.nextId, key, o, |data|);
    PublishedRow(a.store, o, data);
    var e := w.db.entries[key].(payload := InlineFile([]).(content := Some(o), size := |data|));
    RewrittenSettled(a, ImportText(db, p, data).value.db, key, e);
  }

  // ---- Runs ----

  /** Every row of a written zone is met. */
  ghost predicate OrderOk(op: Op) { op.WriteOp? ==> Enumerating(op.order) }

  /** Every step leaves all texts stored. */
  lemma StepSettles(db: Tables, op: Op)
    requires Inv(db) && Settled(db) && Supported(db, op) && OrderOk(op)
    ensures Settled(After(db, op))
  {
    hide Inv, Settled, HasRoot, IsZonePath, ValidPath, CopyJudged, MoveJudged, RemoveJudged, MkdirParents, Mkdir, WriteFile, Copy, Move, Remove, Import, ImportText, Op.PathsOk, Enumerating;
    if HasRoot(db.zones) && db.nextId !in db.zones && Step(db, op).Success? {
      var p := op.Target();
      TargetsAreValid(op);
      var b := Step(db, op).value.db;
      match op
      case MkdirOp(_, parents) =>
        if parents { MkdirParentsFrom(db, p, 0); } else { MkdirFrom(db, p); }
        FromKeepsSettled(db, b);
      case WriteOp(_, data, order) => WriteSettles(db, p, data, order);
      case CopyOp(_, _, recursive, order) =>
        CopyFrom(db, op.Source(), p, recursive, order);
        FromKeepsSettled(db, b);
      case MoveOp(_, _) =>
        MoveFrom(db, op.Source(), p);
        FromKeepsSettled(db, b);
      case RemoveOp(_, recursive) => RemoveSettles(db, p, recursive);
      case ImportOp(_, batch, order) => ImportSettles(db, p, batch, order);
      case ImportTextOp(_, data) => ImportTextSettles(db, p, data);
    }
  }

  lemma TargetsAreValid(op: Op)
    requires op.PathsOk()
    ensures ValidPath(op.Target())
  {
    hide AssertPath, ValidPath, Parse;
    ParsedIsValid(op.path);
  }

  lemma RemoveSettles(db: Tables, p: Path, recursive: bool)
    requires Inv(db) && Settled(db) && HasRoot(db.zones) && Remove(db, p, recursive).Success?
    ensures Settled(Remove(db, p, recursive).value.db)
  {
    hide KindOf, HasChildren, RemovedZones, RemovedEntries, Locate, HasRoot, Remove, Settled, Reclaim, SettledRow, Inv;
    RemoveUnfolds(db, p, recursive);
    var l := Locate(db.zones, p);
    var gz, gk := RemovedZones(db, p, l, recursive), RemovedEntries(db, p, l, recursive);
    FewerRowsFrom(db.entries, gk);
    var left := DeleteRows(db, gz, gk);
    assert left.entries == db.entries - gk;
    FromKeepsSettled(db, left);
    LeftPayloads(db, gz, gk);
    LeftReclaimed(left);
  }

  lemma LeftPayloads(db: Tables, gz: set<ZoneId>, gk: set<Key>)
    requires Inv(db)
    ensures var left := DeleteRows(db, gz, gk); StoreOk(left.store) && Payloads(left.entries, left.store)
  {
    hide Namespace, StoreOk, PayloadOk;
  }

  /** Reclaiming keeps what the remaining rows reach. */
  lemma LeftReclaimed(db: Tables)
    requires StoreOk(db.store) && Payloads(db.entries, db.store) && Settled(db)
    ensures Settled(Reclaim(db))
  {
    hide IsText, Denote, StoreOk, Payloads, DropSegments, PayloadOk;
    forall k | k in db.entries ensures SettledRow(Reclaim(db).store, db.entries[k].payload) {
      DropKeepsPayload(db.entries, db.store, k);
      assert SettledRow(db.store, db.entries[k].payload);
    }
  }

  /** Over every run. */
  lemma {:induction false} RunSettles(db: Tables, ops: seq<Op>)
    requires Inv(db) && Settled(db) && AllSupported(db, ops) && forall i :: 0 <= i < |ops| ==> OrderOk(ops[i])
    ensures var last := States(db, ops)[|ops|]; Inv(last) && Settled(last)
    decreases |ops|
  {
    hide Inv, Settled, Supported, After, OrderOk;
    if ops != [] {
      var next := After(db, ops[0]);
      var rest := States(next, ops[1..]);
      assert States(db, ops) == [db] + rest;
      assert Supported(db, ops[0]) by { assert Supported(States(db, ops)[0], ops[0]); }
      AfterKeeps(db, ops[0]);
      StepSettles(db, ops[0]);
      assert AllSupported(next, ops[1..]) by {
        forall i | 0 <= i < |ops| - 1 ensures Supported(rest[i], ops[1..][i]) {
          assert Supported(States(db, ops)[i + 1], ops[i + 1]);
        }
      }
      RunSettles(next, ops[1..]);
    }
  }
}
