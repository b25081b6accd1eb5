/** The volume as the server runs it: its tables are fields that the statements of each command
    update in place, and every statement on the entries fires its counter trigger. */
module Volume {
  import opened Basics
  import opened Paths
  import opened Blocks
  import opened Tables
  import opened Grafting
  import opened Surgery
  import opened Content
  import opened Commands
  import opened Counters
  import opened Creating
  import opened Usage
  import opened TextImport
  import opened Publishing
  import Queries
  import Runs
  import opened Transplanting
  import opened Removing
  import opened Moving
  import opened Copying
  import opened Importing
  import opened EveryRun

  /** What the schema and the triggers guarantee whatever the commands do: unique zone paths,
      entries of existing zones, ids from a sequence, and counters that agree with the rows. */
  ghost predicate Consistent(rows: Tables, counters: ZoneCounters) {
    && ZonePathsUnique(rows.zones)
    && (forall k :: k in rows.entries ==> k.zone in rows.zones)
    && (forall z :: z in rows.zones ==> z < rows.nextId)
    && Agree(counters, rows.zones, rows.entries)
  }

  lemma UniquePaths(rows: Tables, counters: ZoneCounters)
    requires Consistent(rows, counters)
    ensures ZonePathsUnique(rows.zones)
  {
    hide Agree, ZonePathsUnique;
  }

  /** The call ended as the command says: it raised and left the rows, or it changed them. */
  ghost predicate Ran(outcome: Outcome, before: Tables, after: Tables, r: Result<nat, Error>) {
    match outcome
    case Failure(e) => r == Failure(e) && after == before
    case Success(done) => r == Success(done.count) && after == done.db
  }

  /** Where nothing is, the key computed from the parent is the path's own address. */
  lemma FreeKey(db: Tables, p: Path)
    requires HasRoot(db.zones) && ZonePathsUnique(db.zones) && p != [] && KindOf(db, p).None?
    ensures EntryKey(db.zones, p) !in db.entries
    ensures forall z :: z in db.zones ==> db.zones[z].path != p
  {
    var l := Locate(db.zones, p);
    var a := db.zones[l.zone].path;
    assert a + l.rel == p && l.rel != [];
    forall z | z in db.zones ensures db.zones[z].path != p {
      assert db.zones[z].path <= p ==> |db.zones[z].path| <= |a|;
    }
    assert DropLast(p) == a + DropLast(l.rel);
    assert IsDeepest(db.zones, DropLast(p), l.zone) by {
      assert DropLast(p) <= p;
    }
    LocateIsCanonical(db.zones, DropLast(p), l.zone, DropLast(l.rel));
    assert Last(p) == Last(l.rel) && DropLast(l.rel) + [Last(l.rel)] == l.rel;
  }

  lemma LocatedZone(zones: Zones, p: Path)
    requires HasRoot(zones)
    ensures Locate(zones, p).zone in zones
    ensures p != [] ==> EntryKey(zones, p).zone in zones
  {
  }

  // ---- Steps of the loops ----

  lemma DropNothing(store: Store)
    ensures DropSegments(store, {}) == store
  {
    var s := DropSegments(store, {});
    assert s.objects == store.objects && s.rows == store.rows && s.segments == store.segments;
  }

  lemma DropOneMore(store: Store, done: set<SegmentId>, s: SegmentId)
    ensures DropSegments(DropSegments(store, done), {s}) == DropSegments(store, done + {s})
  {
    var a, b := DropSegments(DropSegments(store, done), {s}), DropSegments(store, done + {s});
    assert a.objects == b.objects;
    assert a.rows == b.rows;
    assert a.segments == b.segments;
  }

  lemma BlockizeNext(db: Tables, keys: seq<Key>, i: nat, segment: Option<SegmentId>)
    requires i < |keys|
    ensures BlockizeKeys(db, keys[i..], segment) ==
            BlockizeKeys(if IsInlineText(db.entries, keys[i]) then BlockizeOne(db, keys[i], segment) else db, keys[i + 1..], segment)
  {
    hide IsInlineText, BlockizeOne;
    assert keys[i..][0] == keys[i] && keys[i..][1..] == keys[i + 1..];
  }

  /** Consistency does not concern the contents. */
  lemma StoreIsFree(zones: Zones, entries: Entries, nextId: NodeId, store: Store, counters: ZoneCounters)
    ensures forall other: Store ::
              Consistent(Tables(zones, entries, nextId, other), counters) <==> Consistent(Tables(zones, entries, nextId, store), counters)
  {
    hide Agree, ZonePathsUnique;
  }

  lemma Reassembled(before: Entries, after: Entries, touched: set<Key>)
    requires after.Keys == before.Keys && forall k :: k in before && k !in touched ==> after[k] == before[k]
    ensures (before - touched) + Restricted(after, touched) == after
    ensures (before - touched).Keys !! Restricted(after, touched).Keys
  {
  }

  lemma TouchedZones(zones: Zones, entries: Entries, after: Entries, touched: set<Key>, nextId: NodeId, store: Store, counters: ZoneCounters)
    requires Consistent(Tables(zones, entries, nextId, store), counters) && after.Keys == entries.Keys
    ensures forall k :: k in Restricted(after, touched) ==> k.zone in zones
  {
    hide Agree, ZonePathsUnique;
  }

  lemma DirectoryHasName(db: Tables, p: Path)
    requires HasRoot(db.zones) && ParentIsDirectory(db, p)
    ensures p != []
  {
    hide KindOf;
  }

  lemma NoneInside(entries: Entries, zs: set<ZoneId>, inside: set<Key>)
    requires inside == set k | k in entries && k.zone in zs
    ensures forall k :: k in entries - inside ==> k.zone !in zs
  {
  }

  /** The DELETE statements of remove, one after the other, delete its rows. */
  lemma RemovedInSteps(db: Tables, p: Path, l: Location, recursive: bool, here: set<Key>)
    requires var gz := RemovedZones(db, p, l, recursive); var inside := EntriesOf(db.entries, gz);
             here == if l.rel == [] then {} else
                     set k | k in db.entries - inside && k.zone == l.zone
                             && (k.rel == l.rel || (recursive && UnderRel(l.rel, k.rel)))
    ensures var gz, gk := RemovedZones(db, p, l, recursive), RemovedEntries(db, p, l, recursive);
            var inside := EntriesOf(db.entries, gz);
            db.entries - inside - here == db.entries - gk && |inside| + |here| == |gk|
  {
    hide RemovedZones, UnderRel;
    var inside := EntriesOf(db.entries, RemovedZones(db, p, l, recursive));
    var gk := RemovedEntries(db, p, l, recursive);
    assert inside + here == gk && inside !! here;
  }

  /** The new rows of an INSERT or UPDATE, by their new keys. */
  function NewRows(moves: map<Key, Placed>): Entries
    requires forall j, k :: j in moves && k in moves && moves[j].key == moves[k].key ==> j == k
  {
    map k | k in moves :: moves[k].key := moves[k].entry
  }

  lemma Placements(base: Entries, moves: map<Key, Placed>)
    requires !Collides(base, moves)
    ensures forall j, k :: j in moves && k in moves && moves[j].key == moves[k].key ==> j == k
    ensures PutRows(base, moves) == base + NewRows(moves) && base.Keys !! NewRows(moves).Keys
  {
    var rows := NewRows(moves);
    forall k | k in moves ensures moves[k].key in rows && rows[moves[k].key] == moves[k].entry {}
    PutRowsIs(base, moves, rows);
  }

  lemma MovedKeys(zones: Zones, s: Path, d: Path, sz: ZoneId, dl: Location)
    requires d != []
    ensures MovedZones(zones, s, d, sz, dl).Keys == zones.Keys
  {
    hide AtOrUnder, TextReroot;
  }

  lemma PlacedIn(moves: map<Key, Placed>, z: ZoneId)
    requires forall j, k :: j in moves && k in moves && moves[j].key == moves[k].key ==> j == k
    requires forall k :: k in moves ==> moves[k].key.zone == z
    ensures forall t :: t in NewRows(moves) ==> t.zone == z
  {
  }

  lemma MovedTo(db: Tables, sl: Location, d: Path, dk: Key)
    requires d != []
    ensures forall k :: k in MovedEntries(db, sl, d, dk) ==> MovedEntries(db, sl, d, dk)[k].key.zone == dk.zone
  {
    hide AtOrUnderRel, TextRerootRel, ParseRel, RelativeParent, RenderRel;
  }

  lemma MoveZoneFails(db: Tables, s: Path, d: Path, sz: ZoneId)
    requires HasRoot(db.zones) && d != []
    ensures var m := MoveZone(db, s, d, sz, Locate(db.zones, DropLast(d))); m.Failure? ==> m.error == UniqueViolation
  {
    hide MovedZones, Locate;
  }

  lemma EntryZones(rows: Tables, counters: ZoneCounters)
    requires Consistent(rows, counters)
    ensures forall k :: k in rows.entries ==> k.zone in rows.zones
  {
    hide Agree, ZonePathsUnique;
  }

  /** The sequence may run ahead of the rows. */
  lemma MoreIds(rows: Tables, counters: ZoneCounters, nextId: NodeId)
    requires Consistent(rows, counters) && nextId >= rows.nextId
    ensures Consistent(rows.(nextId := nextId), counters)
  {
    hide Agree, ZonePathsUnique;
  }

  lemma ZoneCopiesFit(rows: Tables, now: Tables, sz: ZoneId, nz: ZoneId, order: RowOrder)
    requires now.entries == rows.entries && forall k :: k in rows.entries ==> k.zone in rows.zones
    requires nz !in rows.zones
    ensures CopiedZoneEntries(now, sz, nz, order) == CopiedZoneEntries(rows, sz, nz, order)
    ensures !Collides(rows.entries, CopiedZoneEntries(rows, sz, nz, order))
    ensures forall k :: k in CopiedZoneEntries(rows, sz, nz, order) ==> CopiedZoneEntries(rows, sz, nz, order)[k].key.zone == nz
  {
    hide Assign;
  }

  lemma CopiedTo(db: Tables, sl: Location, d: Path, dk: Key, recursive: bool, order: RowOrder)
    requires d != []
    ensures forall k :: k in CopiedEntries(db, sl, d, dk, recursive, order) ==>
                          CopiedEntries(db, sl, d, dk, recursive, order)[k].key.zone == dk.zone
  {
    hide UnderRel, TextRerootRel, ParseRel, RelativeParent, RenderRel, Assign;
  }

  lemma PlantedFit(entries: Entries, nz: ZoneId, rows: Forest)
    requires forall k :: k in entries ==> k.zone != nz
    ensures entries.Keys !! PlantedEntries(nz, [], rows).Keys
    ensures forall k :: k in PlantedEntries(nz, [], rows) ==> k.zone == nz
  {
    forall k | k in PlantedEntries(nz, [], rows) ensures k.zone == nz {
      PlantedEntryAt(nz, [], rows, k);
    }
    hide PlantedEntries;
  }

  lemma AddStagedUnfolds(db: Tables, row: Zone, batch: Batch, order: RowOrder)
    ensures var nz := db.nextId; var rows := BatchRows(batch, nz + 1, order);
            AddStagedZone(db, row, batch, order) ==
            Tables(db.zones[nz := row], db.entries + PlantedEntries(nz, [], rows), nz + 1 + |rows|, db.store)
  {
    hide BatchRows, PlantedEntries;
  }

  lemma CountersAgree(rows: Tables, counters: ZoneCounters)
    requires Consistent(rows, counters)
    ensures Agree(counters, rows.zones, rows.entries) && counters.Keys == rows.zones.Keys
  {
    hide Tally, ZonePathsUnique;
  }

  lemma ZonesAtAreZones(zones: Zones, s: Path)
    ensures ZonesAt(zones, s) <= zones.Keys
  {
    hide AtOrUnder;
  }

  /** `move` on a zone source. */
  lemma ZoneMoveUnfolds(db: Tables, s: Path, d: Path)
    requires HasRoot(db.zones) && Locate(db.zones, s).rel == []
    ensures s == [] || AtOrUnder(s, d) ==> Commands.Move(db, s, d) == Failure(CannotMove)
    ensures !(s == [] || AtOrUnder(s, d)) && Commands.ClearDestination(db, d).Failure? ==>
              Commands.Move(db, s, d) == Failure(Commands.ClearDestination(db, d).error)
    ensures !(s == [] || AtOrUnder(s, d)) && Commands.ClearDestination(db, d).Success? && d != [] ==>
              var c := Commands.ClearDestination(db, d).value; var l := Locate(c.zones, s);
              var m := MoveZone(c, s, d, l.zone, Locate(c.zones, DropLast(d)));
              var zs := ZonesAt(c.zones, s);
              if m.Success? then Commands.Move(db, s, d) == Success(Done(m.value, |zs| + |EntriesOf(c.entries, zs)|))
              else Commands.Move(db, s, d) == Failure(m.error)
  {
    hide AtOrUnder, Locate, MoveZone, ZonesAt, EntriesOf, Commands.ClearDestination, Commands.Move;
    MoveUnfolds(db, s, d);
  }

  /** `sum(size)` of the regular files among the rows. */
  method SumSizes(rows: Entries) returns (total: nat)
    ensures total == TotalBytes(rows)
  {
    hide Restricted, TotalBytes;
    total := 0;
    var todo := rows.Keys;
    assert Restricted(rows, rows.Keys) == rows by { AllRows(rows); }
    while todo != {}
      invariant todo <= rows.Keys && TotalBytes(rows) == total + TotalBytes(Restricted(rows, todo))
      decreases todo
    {
      var k :| k in todo;
      OneRowFewer(rows, todo, k);
      total := total + FileSize(rows[k]);
      todo := todo - {k};
    }
    NoRows(rows);
  }

  lemma OneRowFewer(rows: Entries, todo: set<Key>, k: Key)
    requires k in todo && todo <= rows.Keys
    ensures TotalBytes(Restricted(rows, todo)) == FileSize(rows[k]) + TotalBytes(Restricted(rows, todo - {k}))
  {
    hide TotalBytes;
    TotalWithout(Restricted(rows, todo), k);
    assert Restricted(rows, todo) - {k} == Restricted(rows, todo - {k});
  }

  lemma NoRows(rows: Entries)
    ensures TotalBytes(Restricted(rows, {})) == 0
  {
    assert Restricted(rows, {}) == map[];
  }

  lemma AttachedElsewhere(entries: Entries, id: NodeId, o: ObjectId, size: nat)
    ensures var after := AttachContent(entries, id, o, size);
            after.Keys == entries.Keys && forall k :: k in entries && entries[k].id != id ==> after[k] == entries[k]
  {
  }

  lemma UpsertRows(entries: Entries, inserted: Entries, updated: Entries)
    requires entries.Keys !! inserted.Keys && updated.Keys <= entries.Keys
    ensures entries - updated.Keys + (inserted + updated) == entries + inserted + updated
    ensures (entries - updated.Keys).Keys !! (inserted + updated).Keys
    ensures map[] + Restricted(entries, updated.Keys) == Restricted(entries, updated.Keys)
  {
    SameMap(entries - updated.Keys + (inserted + updated), entries + inserted + updated);
  }

  /** A call that ran as the step says left the rows of the run's next state. */
  lemma RanIsAfter(db: Tables, op: Runs.Op, after: Tables, r: Result<nat, Error>)
    requires HasRoot(db.zones) && db.nextId !in db.zones && Ran(Runs.Step(db, op), db, after, r)
    ensures after == Runs.After(db, op)
  {
    hide Runs.Step, HasRoot;
  }

  lemma NextIsNoZone(rows: Tables, counters: ZoneCounters)
    requires Consistent(rows, counters)
    ensures rows.nextId !in rows.zones
  {
    hide Agree, ZonePathsUnique;
  }

  lemma {:induction false} StateAfter(db: Tables, ops: seq<Runs.Op>, i: nat)
    requires i < |ops|
    ensures Runs.States(db, ops)[i + 1] == Runs.After(Runs.States(db, ops)[i], ops[i])
    decreases |ops|
  {
    hide Runs.After;
    if i > 0 { StateAfter(Runs.After(db, ops[0]), ops[1..], i - 1); }
  }

  lemma FinalState(db: Tables, ops: seq<Runs.Op>)
    ensures Final(db, ops) == Runs.States(db, ops)[|ops|]
  {
    hide Runs.After;
  }

  class Volume {
    var zones: Zones
    var entries: Entries
    var nextId: NodeId
    var store: Store
    var counters: ZoneCounters

    ghost function Rows(): Tables
      reads this
    {
      Tables(zones, entries, nextId, store)
    }

    ghost predicate Valid()
      reads this
    {
      Consistent(Rows(), counters)
    }

    /** `create_volume`. */
    constructor ()
      ensures Valid() && HasRoot(zones)
      ensures Rows() == Tables(map[0 := Zone([], None, None, "")], map[], 1, Store(map[], map[], map[], 0, 0))
    {
      zones := map[0 := Zone([], None, None, "")];
      entries := map[];
      nextId := 1;
      store := Store(map[], map[], map[], 0, 0);
      counters := map[0 := ZERO];
      new;
      TallyOfNone(entries, 0);
      assert zones[0].path == [];
    }

    // ---- Statements ----

    /** An UPDATE of the entries: rows go, rows come, the trigger fires. */
    method ReplaceEntries(gone: set<Key>, added: Entries)
      requires Valid() && (entries - gone).Keys !! added.Keys
      requires forall k :: k in added ==> k.zone in zones
      modifies this`entries, this`counters
      ensures Valid() && entries == old(entries) - gone + added
      ensures counters == Fired(old(counters), Restricted(old(entries), gone), added)
    {
      hide Agree, Fired, ZonePathsUnique, Restricted;
      FiringKeepsAgreement(counters, zones, entries, gone, added);
      var oldRows := Restricted(entries, gone);
      counters := FireUpdate(counters, oldRows, added);
      entries := entries - gone + added;
    }

    /** An INSERT into the entries. */
    method InsertEntries(added: Entries)
      requires Valid() && entries.Keys !! added.Keys
      requires forall k :: k in added ==> k.zone in zones
      modifies this`entries, this`counters
      ensures Valid() && entries == old(entries) + added
      ensures counters == Fired(old(counters), map[], added)
    {
      hide Agree, Fired, ZonePathsUnique;
      assert entries - {} == entries && Restricted(entries, {}) == map[];
      FiringKeepsAgreement(counters, zones, entries, {}, added);
      counters := FireInsert(counters, added);
      entries := entries + added;
    }

    method InsertEntry(key: Key, e: Entry)
      requires Valid() && key !in entries && key.zone in zones
      modifies this`entries, this`counters
      ensures Valid() && entries == old(entries)[key := e]
    {
      hide Consistent, Fired;
      ghost var before := entries;
      InsertEntries(map[key := e]);
      assert entries == before[key := e];
    }

    /** A DELETE from the entries. */
    method DeleteEntries(gone: set<Key>)
      requires Valid()
      modifies this`entries, this`counters
      ensures Valid() && entries == old(entries) - gone
      ensures counters == Fired(old(counters), Restricted(old(entries), gone), map[])
    {
      hide Agree, Fired, ZonePathsUnique, Restricted;
      assert entries - gone + map[] == entries - gone;
      FiringKeepsAgreement(counters, zones, entries, gone, map[]);
      counters := FireDelete(counters, Restricted(entries, gone));
      entries := entries - gone;
    }

    /** INSERT ... ON CONFLICT DO UPDATE: the rows whose key is new are inserted, the others updated,
        and both triggers fire, each for its own rows. */
    method UpsertEntries(inserted: Entries, updated: Entries)
      requires Valid() && entries.Keys !! inserted.Keys && updated.Keys <= entries.Keys
      requires forall k :: k in inserted ==> k.zone in zones
      modifies this`entries, this`counters
      ensures Valid() && entries == old(entries) + inserted + updated
    {
      hide Agree, Fired, ZonePathsUnique;
      var oldRows := Restricted(entries, updated.Keys);
      ghost var before := counters;
      UpsertRows(entries, inserted, updated);
      FiringKeepsAgreement(counters, zones, entries, updated.Keys, inserted + updated);
      FiringsCompose(counters, map[], inserted, oldRows, updated);
      counters := FireInsert(counters, inserted);
      counters := FireUpdate(counters, oldRows, updated);
      entries := entries + inserted + updated;
    }

    /** A new zone starts with zero counters. */
    method InsertZone(row: Zone) returns (z: ZoneId)
      requires Valid() && forall y :: y in zones ==> zones[y].path != row.path
      modifies this`zones, this`counters, this`nextId
      ensures Valid() && z == old(nextId) && z !in old(zones) && nextId == z + 1 && zones == old(zones)[z := row]
    {
      hide Tally;
      z := nextId;
      zones := zones[z := row];
      counters := counters[z := ZERO];
      nextId := nextId + 1;
      TallyOfNone(entries, z);
    }

    method DeleteZones(gone: set<ZoneId>)
      requires Valid() && forall k :: k in entries ==> k.zone !in gone
      modifies this`zones, this`counters
      ensures Valid() && zones == old(zones) - gone
    {
      hide Tally;
      zones := zones - gone;
      counters := counters - gone;
    }

    /** An UPDATE of the zone rows; the unique index on their paths may refuse it. */
    method UpdateZones(rows: Zones) returns (ok: bool)
      requires Valid() && rows.Keys == zones.Keys
      modifies this`zones
      ensures Valid() && ok == ZonePathsUnique(rows) && zones == if ok then rows else old(zones)
    {
      hide Tally;
      ok := forall a, b :: a in rows && b in rows && rows[a].path == rows[b].path ==> a == b;
      if ok {
        zones := rows;
      }
    }

    /** A raised error rolls the whole call back. */
    method Rollback(rows: Tables, before: ZoneCounters)
      requires Consistent(rows, before)
      modifies this
      ensures Valid() && Rows() == rows && counters == before
    {
      hide Consistent;
      zones, entries, nextId, store := rows.zones, rows.entries, rows.nextId, rows.store;
      counters := before;
    }

    method NextId() returns (id: NodeId)
      requires Valid()
      modifies this`nextId
      ensures Valid() && id == old(nextId) && nextId == id + 1
    {
      hide Tally;
      id := nextId;
      nextId := nextId + 1;
    }

    // ---- Lookups ----

    /** `locate_zone`: the ancestors of the path joined with the zones, the longest first. */
    method LocateZone(p: Path) returns (l: Location)
      requires Valid() && HasRoot(zones)
      ensures l == Locate(zones, p)
    {
      hide Agree;
      ghost var root :| root in zones && zones[root].path == [];
      var k := |p|;
      while !(exists z :: z in zones && zones[z].path == p[..k])
        invariant 0 <= k <= |p|
        invariant forall z :: z in zones && zones[z].path <= p ==> |zones[z].path| <= k
        decreases k
      {
        assert zones[root].path == p[..0];
        forall z | z in zones && zones[z].path <= p ensures |zones[z].path| <= k - 1 {
          assert zones[z].path == p[..|zones[z].path|];
        }
        k := k - 1;
      }
      var z :| z in zones && zones[z].path == p[..k];
      assert IsDeepest(zones, p, z) && zones[z].path + p[k..] == p;
      LocateIsCanonical(zones, p, z, p[k..]);
      l := Location(z, p[k..]);
    }

    method KindAt(p: Path) returns (kind: Option<Kind>)
      requires Valid() && HasRoot(zones)
      ensures kind == KindOf(Rows(), p)
    {
      hide Consistent;
      var l := LocateZone(p);
      var key := Key(l.zone, l.rel);
      if l.rel == [] {
        kind := Some(Dir);
      } else if key in entries {
        kind := Some(entries[key].payload.kind);
      } else {
        kind := None;
      }
    }

    method ParentIsDir(p: Path) returns (b: bool)
      requires Valid() && HasRoot(zones)
      ensures b == ParentIsDirectory(Rows(), p)
    {
      hide Consistent, KindOf;
      if p == [] {
        return false;
      }
      var kind := KindAt(DropLast(p));
      b := kind == Some(Dir);
    }

    method KeyFor(p: Path) returns (key: Key)
      requires Valid() && HasRoot(zones) && p != []
      ensures key == EntryKey(zones, p) && key.zone in zones && key.rel != []
    {
      hide Consistent, Locate;
      var l := LocateZone(DropLast(p));
      key := Key(l.zone, l.rel + [Last(p)]);
      LocatedZone(zones, p);
    }

    // ---- mkdir ----

    method Mkdir(p: Path) returns (r: Result<nat, Error>)
      requires Valid() && HasRoot(zones)
      modifies this
      ensures Valid() && zones == old(zones)
      ensures Ran(Commands.Mkdir(old(Rows()), p), old(Rows()), Rows(), r)
    {
      hide Consistent, KindOf, ParentIsDirectory, EntryKey;
      if p == [] {
        return Success(0);
      }
      var kind := KindAt(p);
      if kind.Some? {
        return Failure(PathExists);
      }
      var inDirectory := ParentIsDir(p);
      if !inDirectory {
        return Failure(NoParent);
      }
      var key := KeyFor(p);
      UniquePaths(Rows(), counters);
      FreeKey(Rows(), p);
      var id := NextId();
      InsertEntry(key, Entry(id, DropLast(key.rel), Last(p), DIRECTORY));
      r := Success(1);
    }

    /** `mkdir` with `parents`: a loop over the names of the path. */
    method MkdirParents(p: Path) returns (r: Result<nat, Error>)
      requires Valid() && HasRoot(zones)
      modifies this
      ensures Valid() && zones == old(zones)
      ensures Ran(Commands.MkdirParents(old(Rows()), p, 0), old(Rows()), Rows(), r)
    {
      hide Consistent, KindOf, Commands.Mkdir;
      ghost var rows := Rows();
      var before, countersBefore := Tables(zones, entries, nextId, store), counters;
      for i := 0 to |p|
        invariant Valid() && zones == old(zones)
        invariant Commands.MkdirParents(rows, p, 0) == Commands.MkdirParents(Rows(), p, i)
      {
        var current := p[..i + 1];
        var kind := KindAt(current);
        if kind == None {
          var made := Mkdir(current);
          if made.Failure? {
            Rollback(before, countersBefore);
            return Failure(made.error);
          }
        } else if kind != Some(Dir) {
          Rollback(before, countersBefore);
          return Failure(NotADirectory);
        }
      }
      r := Success(0);
    }

    // ---- Content ----

    /** The texts of the rows move to content objects, in one UPDATE of the entries. */
    method StoreTexts(keys: seq<Key>, segment: Option<SegmentId>)
      requires Valid()
      modifies this`entries, this`counters, this`store
      ensures Valid() && Rows() == BlockizeKeys(old(Rows()), keys, segment)
    {
      hide Consistent, SplitText, Restricted;
      ghost var rows := Rows();
      var after := entries;
      assert keys[0..] == keys;
      for i := 0 to |keys|
        invariant BlockizeKeys(rows, keys, segment) == BlockizeKeys(Tables(zones, after, nextId, store), keys[i..], segment)
        invariant after.Keys == entries.Keys
        invariant forall k :: k in entries && k !in keys[..i] ==> after[k] == entries[k]
        invariant Consistent(Tables(zones, entries, nextId, store), counters)
      {
        var k := keys[i];
        BlockizeNext(Tables(zones, after, nextId, store), keys, i, segment);
        if IsInlineText(after, k) {
          var e, o := after[k], store.nextObject;
          store := Stored(store, o, Object(e.payload.size, segment), SplitText(e.payload.text.value, BLOCK_BYTES));
          after := after[k := e.(payload := e.payload.(content := Some(o), text := Some([])))];
        }
        StoreIsFree(zones, entries, nextId, store, counters);
      }
      var touched := set k | k in keys && k in entries;
      assert keys[|keys|..] == [] && keys[..|keys|] == keys;
      Reassembled(entries, after, touched);
      TouchedZones(zones, entries, after, touched, nextId, store, counters);
      ReplaceEntries(touched, Restricted(after, touched));
    }

    method BlockizeZone(zone: ZoneId, order: RowOrder)
      requires Valid()
      modifies this`entries, this`counters, this`store
      ensures Valid() && Rows() == Content.BlockizeZone(old(Rows()), zone, order)
    {
      hide Consistent, BlockizeKeys, InlineTexts;
      StoreTexts(order(InlineTexts(entries, zone)), None);
    }

    /** A segment is staged, filled and published, or dropped again when there is nothing to store. */
    method BlockizeZoneSegment(zone: ZoneId, order: RowOrder)
      requires Valid()
      modifies this`entries, this`counters, this`store
      ensures Valid() && Rows() == Content.BlockizeZoneSegment(old(Rows()), zone, order)
    {
      hide Consistent, BlockizeKeys, InlineTexts;
      StoreIsFree(zones, entries, nextId, store, counters);
      var segment := store.nextSegment;
      store := store.(segments := store.segments[segment := false], nextSegment := segment + 1);
      var keys := InlineTexts(entries, zone);
      if keys == {} {
        store := store.(segments := store.segments - {segment});
        return;
      }
      StoreTexts(order(keys), Some(segment));
      StoreIsFree(zones, entries, nextId, store, counters);
      store := store.(segments := store.segments[segment := true]);
    }

    /** A loop over the published segments no entry reaches: their blocks, objects and rows go. */
    method ReclaimContentSegments()
      requires Valid()
      modifies this`store
      ensures Valid() && Rows() == Reclaim(old(Rows()))
    {
      hide Consistent, DropSegments;
      StoreIsFree(zones, entries, nextId, store, counters);
      var todo := Unreferenced(entries, store);
      ghost var all, before := todo, store;
      DropNothing(store);
      assert all - todo == {};
      while todo != {}
        invariant todo <= all && store == DropSegments(before, all - todo)
        decreases todo
      {
        var s :| s in todo;
        DropOneMore(before, all - todo, s);
        assert all - todo + {s} == all - (todo - {s});
        store := DropSegments(store, {s});
        todo := todo - {s};
      }
      assert all - {} == all;
    }

    // ---- write ----

    /** INSERT ... ON CONFLICT DO UPDATE ... WHERE kind = 1. */
    method WriteFileInline(p: Path, data: Bytes) returns (r: Result<nat, Error>)
      requires Valid() && HasRoot(zones)
      modifies this`entries, this`counters, this`nextId
      ensures Valid()
      ensures Ran(WriteInline(old(Rows()), p, data), old(Rows()), Rows(), r)
    {
      hide Consistent, KindOf, ParentIsDirectory, EntryKey, InlineFile;
      var inDirectory := ParentIsDir(p);
      if !inDirectory {
        return Failure(NoParent);
      }
      assert p != [] by { DirectoryHasName(Rows(), p); }
      var key := KeyFor(p);
      if key in entries && entries[key].payload.kind != File {
        return Failure(NotRegularFile);
      }
      var id := NextId();
      ghost var before := entries;
      if key !in entries {
        UpsertEntries(map[key := Entry(id, DropLast(key.rel), Last(p), InlineFile(data))], map[]);
        assert entries == before[key := Entry(id, DropLast(key.rel), Last(p), InlineFile(data))];
        r := Success(id);
      } else {
        var row := entries[key].(payload := InlineFile(data));
        UpsertEntries(map[], map[key := row]);
        assert entries == before[key := row];
        r := Success(row.id);
      }
    }

    method WriteFile(p: Path, data: Bytes, order: RowOrder) returns (r: Result<nat, Error>)
      requires Valid() && HasRoot(zones)
      modifies this
      ensures Valid()
      ensures Ran(Commands.WriteFile(old(Rows()), p, data, order), old(Rows()), Rows(), r)
    {
      hide Consistent, WriteInline, Content.BlockizeZone, Reclaim, Locate;
      r := WriteFileInline(p, data);
      if r.Failure? {
        return;
      }
      var l := LocateZone(p);
      BlockizeZone(l.zone, order);
      ReclaimContentSegments();
    }

    // ---- remove ----

    /** The DELETE statements of remove: nested zones with their entries, then the entries here. */
    method DeleteSelected(p: Path, l: Location, recursive: bool) returns (count: nat)
      requires Valid()
      modifies this`zones, this`entries, this`counters
      ensures Valid()
      ensures var gz, gk := RemovedZones(old(Rows()), p, l, recursive), RemovedEntries(old(Rows()), p, l, recursive);
              Rows() == DeleteRows(old(Rows()), gz, gk) && count == |gk| + |gz|
    {
      hide Consistent, AtOrUnder, Under, UnderRel, RemovedEntries;
      ghost var rows := Rows();
      ghost var gz := RemovedZones(rows, p, l, recursive);
      var removedZones: nat, removedEntries: nat := 0, 0;
      if l.rel == [] || recursive {
        var selected := set z | z in zones && ((l.rel == [] && AtOrUnder(p, zones[z].path)) || (l.rel != [] && Under(p, zones[z].path)));
        var inside := set k | k in entries && k.zone in selected;
        DeleteEntries(inside);
        removedEntries := |inside|;
        NoneInside(rows.entries, selected, inside);
        DeleteZones(selected);
        removedZones := |selected|;
        assert selected == gz && inside == EntriesOf(rows.entries, gz);
      } else {
        assert gz == {} && EntriesOf(rows.entries, gz) == {};
        assert rows.zones - gz == zones && rows.entries - {} == entries;
      }
      assert zones == rows.zones - gz && entries == rows.entries - EntriesOf(rows.entries, gz);
      var here := if l.rel == [] then {} else
        set k | k in entries && k.zone == l.zone && (k.rel == l.rel || (recursive && UnderRel(l.rel, k.rel)));
      DeleteEntries(here);
      RemovedInSteps(rows, p, l, recursive, here);
      var removedHere: nat := |here|;
      count := removedEntries + removedHere + removedZones;
    }

    method Remove(p: Path, recursive: bool) returns (r: Result<nat, Error>)
      requires Valid() && HasRoot(zones)
      modifies this
      ensures Valid()
      ensures Ran(Commands.Remove(old(Rows()), p, recursive), old(Rows()), Rows(), r)
    {
      hide Consistent, Commands.Remove, KindOf, HasChildren, Locate, Reclaim, RemovedZones, RemovedEntries, DeleteRows;
      RemoveUnfolds(Rows(), p, recursive);
      if p == [] {
        return Failure(CannotRemove);
      }
      var kind := KindAt(p);
      if kind.None? {
        return Failure(NoSuchPath);
      }
      var l := LocateZone(p);
      if kind == Some(Dir) && !recursive && HasChildren(Tables(zones, entries, nextId, store), l) {
        return Failure(NotEmpty);
      }
      var count := DeleteSelected(p, l, recursive);
      ReclaimContentSegments();
      r := Success(count);
    }

    // ---- move ----

    /** The checks on the destination; a destination that is no directory is deleted. */
    method ClearDestination(d: Path) returns (r: Result<bool, Error>)
      requires Valid() && HasRoot(zones)
      modifies this`entries, this`counters
      ensures Valid()
      ensures match Commands.ClearDestination(old(Rows()), d)
              case Failure(e) => r == Failure(e) && Rows() == old(Rows())
              case Success(cleared) => r.Success? && Rows() == cleared && d != []
    {
      hide Consistent, KindOf, ParentIsDirectory, Locate;
      ghost var rows := Rows();
      ClearUnfolds(rows, d);
      hide Commands.ClearDestination;
      var inDirectory := ParentIsDir(d);
      if !inDirectory {
        return Failure(NoParent);
      }
      DirectoryHasName(rows, d);
      var kind := KindAt(d);
      if kind == Some(Dir) {
        return Failure(DestinationIsDirectory);
      }
      if kind.Some? {
        var l := LocateZone(d);
        DeleteEntries({Key(l.zone, l.rel)});
        assert rows.zones - {} == zones;
      }
      r := Success(true);
    }

    /** The UPDATE of the zone rows. */
    method RerootZoneRows(s: Path, d: Path, sz: ZoneId) returns (ok: bool)
      requires Valid() && HasRoot(zones) && d != []
      modifies this`zones
      ensures Valid()
      ensures match MoveZone(old(Rows()), s, d, sz, Locate(old(zones), DropLast(d)))
              case Failure(e) => !ok && Rows() == old(Rows())
              case Success(moved) => ok && Rows() == moved
    {
      hide Consistent, Locate, MovedZones;
      var dl := LocateZone(DropLast(d));
      MovedKeys(zones, s, d, sz, dl);
      ok := UpdateZones(MovedZones(zones, s, d, sz, dl));
    }

    /** The UPDATE of the entry rows. */
    method RerootEntryRows(sl: Location, d: Path, dk: Key) returns (r: Result<nat, Error>)
      requires Valid() && d != [] && dk.zone in zones
      modifies this`entries, this`counters
      ensures Valid()
      ensures Ran(MoveEntries(old(Rows()), sl, d, dk), old(Rows()), Rows(), r)
    {
      hide Consistent, MovedEntries, Collides, PutRows, NewRows;
      var moves := MovedEntries(Tables(zones, entries, nextId, store), sl, d, dk);
      if Collides(entries - moves.Keys, moves) {
        return Failure(UniqueViolation);
      }
      Placements(entries - moves.Keys, moves);
      MovedTo(Rows(), sl, d, dk);
      PlacedIn(moves, dk.zone);
      var rows := NewRows(moves);
      ReplaceEntries(moves.Keys, rows);
      r := Success(|moves|);
    }

    method Move(s: Path, d: Path) returns (r: Result<nat, Error>)
      requires Valid() && HasRoot(zones)
      modifies this
      ensures Valid()
      ensures Ran(Commands.Move(old(Rows()), s, d), old(Rows()), Rows(), r)
    {
      hide Consistent, Commands.Move, Commands.ClearDestination, KindOf, Locate, AtOrUnder, EntryKey, ZonesAt, EntriesOf, MoveZone, MoveEntries, HasNestedZones;
      ghost var rows := Rows();
      var before, countersBefore := Tables(zones, entries, nextId, store), counters;
      MoveUnfolds(rows, s, d);
      if s == [] || AtOrUnder(s, d) {
        return Failure(CannotMove);
      }
      var kind := KindAt(s);
      if kind.None? {
        return Failure(NoSuchPath);
      }
      var cleared := ClearDestination(d);
      if cleared.Failure? {
        return Failure(cleared.error);
      }
      var sl := LocateZone(s);
      if sl.rel == [] {
        var zs := ZonesAt(zones, s);
        var count: nat := |zs| + |EntriesOf(entries, zs)|;
        var ok := RerootZoneRows(s, d, sl.zone);
        if !ok {
          Rollback(before, countersBefore);
          MoveZoneFails(Commands.ClearDestination(rows, d).value, s, d, sl.zone);
          return Failure(UniqueViolation);
        }
        return Success(count);
      }
      if HasNestedZones(zones, s) {
        Rollback(before, countersBefore);
        return Failure(NestedZones);
      }
      var dk := KeyFor(d);
      r := RerootEntryRows(sl, d, dk);
      if r.Failure? {
        Rollback(before, countersBefore);
      }
    }

    // ---- copy ----

    /** The zone's rows inserted again under a new zone. */
    method CopyZoneRows(d: Path, sz: ZoneId, order: RowOrder) returns (r: Result<nat, Error>)
      requires Valid() && HasRoot(zones) && d != [] && forall z :: z in zones ==> zones[z].path != d
      modifies this`zones, this`entries, this`counters, this`nextId
      ensures Valid()
      ensures Ran(Success(CopyZone(old(Rows()), sz, d, Locate(old(zones), DropLast(d)), order)), old(Rows()), Rows(), r)
    {
      hide Consistent, Locate, CopiedZoneEntries, PutRows, Collides, NewRows;
      ghost var rows := Rows();
      var dl := LocateZone(DropLast(d));
      EntryZones(rows, counters);
      var nz := InsertZone(Zone(d, Some(dl.zone), Some(dl.rel), Last(d)));
      var copies := CopiedZoneEntries(Tables(zones, entries, nextId, store), sz, nz, order);
      ZoneCopiesFit(rows, Rows(), sz, nz, order);
      Placements(entries, copies);
      PlacedIn(copies, nz);
      MoreIds(Rows(), counters, nextId + |copies|);
      nextId := nextId + |copies|;
      InsertEntries(NewRows(copies));
      var count: nat := |copies| + 1;
      r := Success(count);
    }

    method CopyEntryRows(sl: Location, d: Path, dk: Key, recursive: bool, order: RowOrder) returns (r: Result<nat, Error>)
      requires Valid() && d != [] && dk.zone in zones
      modifies this`entries, this`counters, this`nextId
      ensures Valid()
      ensures Ran(CopyEntries(old(Rows()), sl, d, dk, recursive, order), old(Rows()), Rows(), r)
    {
      hide Consistent, CopiedEntries, PutRows, Collides, NewRows;
      var copies := CopiedEntries(Tables(zones, entries, nextId, store), sl, d, dk, recursive, order);
      if Collides(entries, copies) {
        return Failure(UniqueViolation);
      }
      Placements(entries, copies);
      CopiedTo(Rows(), sl, d, dk, recursive, order);
      PlacedIn(copies, dk.zone);
      MoreIds(Rows(), counters, nextId + |copies|);
      nextId := nextId + |copies|;
      InsertEntries(NewRows(copies));
      r := Success(|copies|);
    }

    method Copy(s: Path, d: Path, recursive: bool, order: RowOrder) returns (r: Result<nat, Error>)
      requires Valid() && HasRoot(zones)
      modifies this
      ensures Valid()
      ensures Ran(Commands.Copy(old(Rows()), s, d, recursive, order), old(Rows()), Rows(), r)
    {
      hide Consistent, Commands.Copy, KindOf, Locate, AtOrUnder, EntryKey, HasNestedZones, CopyZone, CopyEntries, ParentIsDirectory;
      ghost var rows := Rows();
      CopyUnfolds(rows, s, d, recursive, order);
      if s == [] || AtOrUnder(s, d) {
        return Failure(CannotCopy);
      }
      var kind := KindAt(d);
      if kind.Some? {
        return Failure(DestinationExists);
      }
      var inDirectory := ParentIsDir(d);
      if !inDirectory {
        return Failure(NoParent);
      }
      var sl := LocateZone(s);
      var key := Key(sl.zone, sl.rel);
      if sl.rel == [] {
        if !recursive {
          return Failure(OmittingDirectory);
        }
        if HasNestedZones(zones, s) {
          return Failure(NestedZones);
        }
        UniquePaths(rows, counters);
        FreeKey(rows, d);
        r := CopyZoneRows(d, sl.zone, order);
        return;
      }
      if key !in entries {
        return Failure(NoSuchPath);
      }
      if entries[key].payload.kind == Dir && !recursive {
        return Failure(OmittingDirectory);
      }
      if entries[key].payload.kind == Dir && HasNestedZones(zones, s) {
        return Failure(NestedZones);
      }
      var dk := KeyFor(d);
      r := CopyEntryRows(sl, d, dk, recursive, order);
    }

    // ---- import ----

    /** The staged rows inserted under the new zone. */
    method InsertStaged(nz: ZoneId, staged: Forest)
      requires Valid() && nz in zones && forall k :: k in entries ==> k.zone != nz
      modifies this`entries, this`counters, this`nextId
      ensures Valid() && nextId == old(nextId) + |staged| && entries == old(entries) + PlantedEntries(nz, [], staged)
    {
      hide Consistent, PlantedEntries;
      PlantedFit(entries, nz, staged);
      MoreIds(Rows(), counters, nextId + |staged|);
      nextId := nextId + |staged|;
      InsertEntries(PlantedEntries(nz, [], staged));
    }

    method InsertBatch(d: Path, batch: Batch, dl: Location, order: RowOrder)
      requires Valid() && d != [] && forall z :: z in zones ==> zones[z].path != d
      modifies this`zones, this`entries, this`counters, this`nextId
      ensures Valid()
      ensures Rows() == AddStagedZone(old(Rows()), Zone(d, Some(dl.zone), Some(dl.rel), Last(d)), batch, order)
    {
      hide Consistent, BatchRows, PlantedEntries, AddStagedZone;
      var row := Zone(d, Some(dl.zone), Some(dl.rel), Last(d));
      ghost var rows := Rows();
      EntryZones(rows, counters);
      AddStagedUnfolds(rows, row, batch, order);
      var nz := InsertZone(row);
      ghost var made := Rows();
      var staged := BatchRows(batch, nz + 1, order);
      assert made == Tables(rows.zones[nz := row], rows.entries, nz + 1, rows.store);
      InsertStaged(nz, staged);
      assert Rows() == Tables(made.zones, made.entries + PlantedEntries(nz, [], staged), made.nextId + |staged|, made.store);
    }

    method ApplyImportInline(d: Path, batch: Batch, order: RowOrder) returns (r: Result<nat, Error>)
      requires Valid() && HasRoot(zones) && nextId !in zones
      modifies this
      ensures Valid()
      ensures Ran(ImportInline(old(Rows()), d, batch, order), old(Rows()), Rows(), r)
    {
      hide Consistent, ImportInline, KindOf, Locate, EntryKey, AddStagedZone, ParentIsDirectory, StagedPayload;
      ghost var rows := Rows();
      ImportRefuses(rows, d, batch, order);
      if !BatchOk(batch) {
        return Failure(BadBatch);
      }
      var inDirectory := ParentIsDir(d);
      var kind := KindAt(d);
      if !inDirectory || kind.Some? {
        return Failure(DestinationTaken);
      }
      DirectoryHasName(rows, d);
      UniquePaths(rows, counters);
      FreeKey(rows, d);
      if batch[""].kind == Dir {
        ImportDirUnfolds(rows, d, batch, order);
        var dl := LocateZone(DropLast(d));
        InsertBatch(d, batch, dl, order);
      } else {
        ImportOneUnfolds(rows, d, batch, order);
        var key := KeyFor(d);
        var id := NextId();
        InsertEntry(key, Entry(id, DropLast(key.rel), Last(d), StagedPayload(batch[""])));
      }
      r := Success(|batch|);
    }

    method ApplyImport(d: Path, batch: Batch, order: RowOrder) returns (r: Result<nat, Error>)
      requires Valid() && HasRoot(zones) && nextId !in zones
      modifies this
      ensures Valid()
      ensures Ran(Import(old(Rows()), d, batch, order), old(Rows()), Rows(), r)
    {
      hide Consistent, ImportInline, Locate, Content.BlockizeZoneSegment;
      r := ApplyImportInline(d, batch, order);
      if r.Success? {
        var l := LocateZone(d);
        BlockizeZoneSegment(l.zone, order);
      }
    }

    /** `publish_content`'s UPDATE of the row with the written file's id. */
    method AttachObject(id: NodeId, o: ObjectId, size: nat)
      requires Valid()
      modifies this`entries, this`counters
      ensures Valid() && entries == AttachContent(old(entries), id, o, size)
    {
      hide Consistent, Restricted, AttachContent;
      var after := AttachContent(entries, id, o, size);
      var touched := set k | k in entries && entries[k].id == id;
      AttachedElsewhere(entries, id, o, size);
      Reassembled(entries, after, touched);
      TouchedZones(zones, entries, after, touched, nextId, store, counters);
      ReplaceEntries(touched, Restricted(after, touched));
    }

    /** `import_text`: the client writes the blocks as a COPY stream, the server decodes them into a
        segment of their own, publishes it and attaches the object to the target. */
    method ImportText(p: Path, data: Bytes, owner: Owner) returns (r: Result<nat, Error>)
      requires Valid() && HasRoot(zones) && owner.Valid() && |data| < MAX_I64
      modifies this
      ensures Valid()
      ensures Ran(Publishing.ImportText(old(Rows()), p, data), old(Rows()), Rows(), r)
    {
      hide Consistent, Importable, WriteInline, SplitText, StoredBlocks, CopyStream, AttachContent;
      var before, countersBefore := Tables(zones, entries, nextId, store), counters;
      var copied, stream := WriteBlocks(data, owner);
      if copied.Failure? {
        return Failure(BadText);
      }
      StoredBlocksAreSplit(owner, data);
      StoreIsFree(zones, entries, nextId, store, counters);
      var segment, o := store.nextSegment, store.nextObject;
      store := store.(segments := store.segments[segment := false], nextSegment := segment + 1);
      store := Stored(store, o, Object(copied.value, Some(segment)), StoredBlocks(stream));
      store := store.(segments := store.segments[segment := true]);
      r := WriteFileInline(p, []);
      if r.Failure? {
        Rollback(before, countersBefore);
        return;
      }
      AttachObject(r.value, o, copied.value);
    }

    // ---- The fast routes ----

    /** `move_command` counts a zone source by its counters; it does exactly what `move` does. */
    method MoveCommand(s: Path, d: Path) returns (r: Result<nat, Error>)
      requires Valid() && HasRoot(zones)
      modifies this
      ensures Valid()
      ensures Ran(Commands.Move(old(Rows()), s, d), old(Rows()), Rows(), r)
    {
      hide Consistent, Commands.Move, Commands.ClearDestination, Usage.MoveCommand, KindOf, Locate, AtOrUnder, ZonesAt, EntriesOf, MoveZone, ZoneSum, Agree, Restricted, TotalBytes;
      ghost var rows := Rows();
      var before, countersBefore := Tables(zones, entries, nextId, store), counters;
      var sl := LocateZone(s);
      if sl.rel != [] {
        r := Move(s, d);
        return;
      }
      ZoneMoveUnfolds(rows, s, d);
      if s == [] || AtOrUnder(s, d) {
        return Failure(CannotMove);
      }
      var cleared := ClearDestination(d);
      if cleared.Failure? {
        return Failure(cleared.error);
      }
      var zs := ZonesAt(zones, s);
      CountersAgree(Rows(), counters);
      ZoneSumIsTotal(counters, zones, entries, zs) by { ZonesAtAreZones(zones, s); }
      var sum := SumCounters(counters, zs);
      var count: nat := |zs| + sum.entryCount;
      var ok := RerootZoneRows(s, d, sl.zone);
      if !ok {
        Rollback(before, countersBefore);
        MoveZoneFails(Commands.ClearDestination(rows, d).value, s, d, sl.zone);
        return Failure(UniqueViolation);
      }
      r := Success(count);
    }

    method DiskUsage(p: Path) returns (r: Result<nat, Error>)
      requires Valid() && HasRoot(zones)
      ensures r == Usage.DiskUsage(Rows(), p)
    {
      hide Consistent, Locate, UsageKeys, TotalBytes, Restricted;
      var l := LocateZone(p);
      var key := Key(l.zone, l.rel);
      if l.rel != [] && key !in entries {
        return Failure(NoSuchPath);
      }
      if l.rel != [] && entries[key].payload.kind == File {
        return Success(entries[key].payload.size);
      }
      var total := SumSizes(Restricted(entries, UsageKeys(Tables(zones, entries, nextId, store), p, l)));
      r := Success(total);
    }

    method DiskUsageFast(p: Path) returns (r: Result<int, Error>)
      requires Valid() && HasRoot(zones)
      ensures counters.Keys == zones.Keys && r == Usage.DiskUsageFast(Rows(), counters, p)
      ensures p != [] ==> r == match Usage.DiskUsage(Rows(), p) case Failure(e) => Failure(e) case Success(n) => Success(n)
    {
      hide Consistent, Locate, UsageKeys, TotalBytes, Restricted, Usage.DiskUsage, Agree, FastZones, ZoneSum;
      CountersAgree(Rows(), counters);
      if p != [] { FastUsageIsUsage(Rows(), counters, p); }
      var l := LocateZone(p);
      if l.rel != [] {
        var usage := DiskUsage(p);
        if usage.Failure? {
          return Failure(usage.error);
        }
        return Success(usage.value);
      }
      FastAreZones(zones, p);
      var sum := SumCounters(counters, FastZones(zones, p));
      r := Success(sum.fileBytes);
    }

    /** `list`, its rows ordered by name. */
    method List(p: Path) returns (r: Result<seq<Queries.Listing>, Error>)
      requires Valid() && Inv(Rows())
      ensures TreeKind(TreeOf(Rows()), p) != Some(Dir) ==> r == Failure(NotADirectory)
      ensures TreeKind(TreeOf(Rows()), p) == Some(Dir) ==>
                && r.Success? && Queries.Ascending(r.value, Queries.ByName)
                && forall row :: row in r.value <==> row in Queries.Children(TreeOf(Rows()), p)
    {
      hide Consistent, Inv, Locate, TreeOf, Queries.ListedEntries, Queries.ListedZones, Queries.Children, Queries.KeysUnique, Queries.Ascending, IsDirectory, HasRoot;
      InvHasNamespace(Rows());
      Queries.ListMeansChildren(Rows(), p);
      Queries.ChildNamesUnique(TreeOf(Rows()), p);
      var l := LocateZone(p);
      if l.rel != [] && !IsDirectory(entries, Key(l.zone, l.rel)) {
        return Failure(NotADirectory);
      }
      var rows := Tables(zones, entries, nextId, store);
      var listed := Queries.OrderBy(Queries.ListedEntries(rows, l) + Queries.ListedZones(rows, l), Queries.ByName);
      r := Success(listed);
    }

    /** `find_paths`, its rows ordered by path. */
    method FindPaths(p: Path, pattern: Option<string>, filter: Option<Kind>) returns (found: seq<Path>)
      requires Valid() && Inv(Rows()) && Queries.ZonesTold(Rows(), p) && Queries.EntriesTold(Rows(), p)
      ensures Queries.Ascending(found, Queries.ByPath)
      ensures forall q :: q in found <==> Queries.IsFound(TreeOf(Rows()), p, pattern, filter, q)
    {
      hide Consistent, Inv, Locate, TreeOf, Queries.FoundFrom, Queries.IsFound, Queries.KeysUnique, Queries.Ascending, HasRoot, Queries.ZonesTold, Queries.EntriesTold;
      InvHasNamespace(Rows());
      Queries.FindMeansGlob(Rows(), p, pattern, filter);
      Queries.FoundPathsUnique(Rows(), p, pattern, filter);
      var l := LocateZone(p);
      found := Queries.OrderBy(Queries.FoundFrom(Tables(zones, entries, nextId, store), p, l, pattern, filter), Queries.ByPath);
    }

    // ---- Runs ----

    /** One call of the API: the paths are checked, then the command runs. */
    method Perform(op: Runs.Op, owner: Owner) returns (r: Result<nat, Error>)
      requires Valid() && HasRoot(zones) && nextId !in zones
      requires owner.Valid() && (op.ImportTextOp? ==> |op.data| < MAX_I64)
      modifies this
      ensures Valid()
      ensures Ran(Runs.Step(old(Rows()), op), old(Rows()), Rows(), r)
    {
      hide Consistent, AssertPath, Parse, HasRoot, Commands.Mkdir, Commands.MkdirParents, Commands.WriteFile, Commands.Copy, Commands.Move, Commands.Remove, Import, Publishing.ImportText;
      if !op.PathsOk() {
        return Failure(InvalidPath);
      }
      var p := op.Target();
      match op
      case MkdirOp(_, parents) =>
        if parents { r := MkdirParents(p); } else { r := Mkdir(p); }
      case WriteOp(_, data, order) => r := WriteFile(p, data, order);
      case CopyOp(_, _, recursive, order) => r := Copy(op.Source(), p, recursive, order);
      case MoveOp(_, _) => r := Move(op.Source(), p);
      case RemoveOp(_, recursive) => r := Remove(p, recursive);
      case ImportOp(_, batch, order) => r := ApplyImport(p, batch, order);
      case ImportTextOp(_, data) => r := ImportText(p, data, owner);
    }

    /** Over every run, whatever rows the text tests select and wherever a write goes: the counters agree
        with the rows, a zone is mounted at the root, the rows go through the states of the run, and each
        call answers as its step does. */
    method PerformAll(ops: seq<Runs.Op>, owner: Owner) returns (results: seq<Result<nat, Error>>)
      requires Valid() && HasRoot(zones)
      requires owner.Valid() && forall i :: 0 <= i < |ops| && ops[i].ImportTextOp? ==> |ops[i].data| < MAX_I64
      modifies this
      ensures Valid() && HasRoot(zones) && |results| == |ops|
      ensures var s := Runs.States(old(Rows()), ops);
              && Rows() == s[|ops|]
              && forall i :: 0 <= i < |ops| ==>
                   HasRoot(s[i].zones) && s[i].nextId !in s[i].zones && Ran(Runs.Step(s[i], ops[i]), s[i], s[i + 1], results[i])
    {
      hide Consistent, HasRoot, Runs.States, Runs.Step, Runs.After, Ran, Runs.Op.PathsOk;
      ghost var s := Runs.States(Rows(), ops);
      results := [];
      for k := 0 to |ops|
        invariant Valid() && HasRoot(zones) && Rows() == s[k] && |results| == k
        invariant forall i :: 0 <= i < k ==>
                    HasRoot(s[i].zones) && s[i].nextId !in s[i].zones && Ran(Runs.Step(s[i], ops[i]), s[i], s[i + 1], results[i])
      {
        NextIsNoZone(Rows(), counters);
        StepKeepsRoot(Rows(), ops[k]);
        var r := Perform(ops[k], owner);
        RanIsAfter(s[k], ops[k], Rows(), r);
        StateAfter(old(Rows()), ops, k);
        results := results + [r];
      }
    }

    /** From a volume whose rows and contents are in order, the rows stay in order and every row keeps its
        content, and nothing but a write to it changes the node of an entry. */
    method PerformLasting(ops: seq<Runs.Op>, owner: Owner) returns (results: seq<Result<nat, Error>>)
      requires Valid() && Lasting(Rows()) && forall i :: 0 <= i < |ops| ==> Delivered(ops[i])
      requires owner.Valid() && forall i :: 0 <= i < |ops| && ops[i].ImportTextOp? ==> |ops[i].data| < MAX_I64
      modifies this
      ensures Valid() && Lasting(Rows()) && |results| == |ops|
      ensures NodesKept(old(Rows()), ops, Rows())
    {
      hide Consistent, Lasting, HasRoot, Runs.States, Runs.Step, Runs.After, Ran, NodesKept, Final, Delivered;
      ghost var before := Rows();
      RunLasts(before, ops);
      RunKeepsAllNodes(before, ops);
      RootStays(before);
      results := PerformAll(ops, owner);
      FinalState(before, ops);
    }

    /** Over every run whose text tests judge the rows rightly and whose writes meet no zone the rows keep
        the whole invariant. */
    method PerformSupported(ops: seq<Runs.Op>, owner: Owner) returns (results: seq<Result<nat, Error>>)
      requires Valid() && Inv(Rows()) && Runs.AllSupported(Rows(), ops)
      requires owner.Valid() && forall i :: 0 <= i < |ops| && ops[i].ImportTextOp? ==> |ops[i].data| < MAX_I64
      modifies this
      ensures Valid() && Inv(Rows()) && |results| == |ops|
      ensures var s := Runs.States(old(Rows()), ops);
              && Rows() == s[|ops|]
              && forall i :: 0 <= i < |ops| ==>
                   && HasRoot(s[i].zones) && s[i].nextId !in s[i].zones && Ran(Runs.Step(s[i], ops[i]), s[i], s[i + 1], results[i])
                   && Runs.Meets(s[i], ops[i], Runs.Step(s[i], ops[i]))
    {
      hide Consistent, Inv, Lasting, HasRoot, Runs.AllSupported, Runs.States, Runs.Step, Runs.Meets, Ran, Runs.Op.PathsOk;
      ghost var before := Rows();
      Runs.RunRefinesTrees(before, ops);
      ValidIsLasting(before);
      RootStays(before);
      results := PerformAll(ops, owner);
      assert Inv(Runs.States(before, ops)[|ops|]);
    }
  }
}
