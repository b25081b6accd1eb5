/** The namespace commands of the SQL API, each as the change it makes to the rows. A failure
    raises and rolls back, so it leaves the rows as they were. */
module Commands {
  import opened Basics
  import opened Paths
  import opened Tables
  import opened Grafting
  import opened Surgery
  import opened Content

  datatype Error =
    | CannotCopy | CannotMove | CannotRemove
    | DestinationExists | DestinationIsDirectory | DestinationTaken | PathExists
    | NoParent | NoSuchPath | OmittingDirectory | NotADirectory | NotEmpty | NotRegularFile
    | NestedZones | BadBatch | UniqueViolation | BadText | InvalidPath

  /** The rows afterwards and the number the command returns. */
  datatype Done = Done(db: Tables, count: nat)

  type Outcome = Result<Done, Error>

  // ---- Shared tests ----

  /** `path = p OR path LIKE p || '/%'`. */
  predicate AtOrUnder(p: Path, q: Path) { q == p || Under(p, q) }

  predicate AtOrUnderRel(p: Path, q: Path) { q == p || UnderRel(p, q) }

  predicate HasNestedZones(zones: Zones, p: Path) {
    exists z :: z in zones && Under(p, zones[z].path)
  }

  ghost predicate ParentIsDirectory(db: Tables, p: Path)
    requires HasRoot(db.zones)
  {
    p != [] && KindOf(db, DropLast(p)) == Some(Dir)
  }

  /** Where an entry for `p` goes: its parent's zone, below its parent's relative path. */
  ghost function EntryKey(zones: Zones, p: Path): Key
    requires HasRoot(zones) && p != []
  {
    var l := Locate(zones, DropLast(p));
    Key(l.zone, l.rel + [Last(p)])
  }

  // ---- Row statements ----

  /** A row with the key an INSERT or UPDATE gives it. */
  datatype Placed = Placed(key: Key, entry: Entry)

  predicate Collides(base: Entries, moves: map<Key, Placed>) {
    || (exists k :: k in moves && moves[k].key in base)
    || (exists j, k :: j in moves && k in moves && j != k && moves[j].key == moves[k].key)
  }

  /** The rows `base` with the placed rows added. */
  ghost function PutRows(base: Entries, moves: map<Key, Placed>): Entries {
    var targets := set k | k in moves :: moves[k].key;
    base + map target | target in targets :: var k :| k in moves && moves[k].key == target; moves[k].entry
  }

  /** Fresh ids from a sequence, one per row, in the order the rows arrive. */
  function Assign(rows: seq<Key>, next: NodeId): map<Key, NodeId> {
    if rows == [] then map[] else Assign(rows[1..], next + 1)[rows[0] := next]
  }

  /** Every row of the set, once. */
  predicate IsEnumeration(rows: seq<Key>, keys: set<Key>) {
    && (forall i, j :: 0 <= i < j < |rows| ==> rows[i] != rows[j])
    && (forall i :: 0 <= i < |rows| ==> rows[i] in keys)
    && forall k :: k in keys ==> k in rows
  }

  ghost predicate Enumerating(order: RowOrder) {
    forall keys: set<Key> :: IsEnumeration(order(keys), keys)
  }

  /** One order in which a database may deliver the rows of any set. */
  ghost function SomeOrder(keys: set<Key>): (rows: seq<Key>)
    ensures IsEnumeration(rows, keys)
    decreases keys
  {
    if keys == {} then []
    else
      var k :| k in keys;
      [k] + SomeOrder(keys - {k})
  }

  lemma EnumeratingOrderExists()
    ensures exists order: RowOrder :: Enumerating(order)
  {
    var order: RowOrder := keys => SomeOrder(keys);
    assert Enumerating(order) by {
      forall keys: set<Key> ensures IsEnumeration(order(keys), keys) {
        assert order(keys) == SomeOrder(keys);
      }
    }
  }

  lemma {:induction false} IdsOfEnumeration(rows: seq<Key>, keys: set<Key>, next: NodeId)
    requires IsEnumeration(rows, keys)
    ensures Assign(rows, next).Keys == keys
    ensures forall k :: k in keys ==> next <= Assign(rows, next)[k] < next + |keys|
    ensures forall j, k :: j in keys && k in keys && Assign(rows, next)[j] == Assign(rows, next)[k] ==> j == k
    decreases |rows|
  {
    if rows == [] {
      assert keys == {};
    } else {
      var k, rest := rows[0], keys - {rows[0]};
      EnumerationRest(rows, keys);
      IdsOfEnumeration(rows[1..], rest, next + 1);
      OneMoreId(keys, k, Assign(rows[1..], next + 1), next);
    }
  }

  lemma EnumerationRest(rows: seq<Key>, keys: set<Key>)
    requires IsEnumeration(rows, keys) && rows != []
    ensures rows[0] in keys && IsEnumeration(rows[1..], keys - {rows[0]})
  {
  }

  /** The ids are fresh, distinct and one per row, whatever the order. */
  lemma AssignedIds(order: RowOrder, keys: set<Key>, next: NodeId)
    requires Enumerating(order)
    ensures Assign(order(keys), next).Keys == keys
    ensures forall k :: k in keys ==> next <= Assign(order(keys), next)[k] < next + |keys|
    ensures forall j, k :: j in keys && k in keys && Assign(order(keys), next)[j] == Assign(order(keys), next)[k] ==> j == k
  {
    hide IsEnumeration, Assign;
    IdsOfEnumeration(order(keys), keys, next);
  }

  lemma OneMoreId(keys: set<Key>, k: Key, rest: map<Key, NodeId>, next: NodeId)
    requires k in keys && rest.Keys == keys - {k}
    requires forall j :: j in rest ==> next + 1 <= rest[j] < next + 1 + |keys - {k}|
    requires forall i, j :: i in rest && j in rest && rest[i] == rest[j] ==> i == j
    ensures rest[k := next].Keys == keys
    ensures forall j :: j in keys ==> next <= rest[k := next][j] < next + |keys|
    ensures forall i, j :: i in keys && j in keys && rest[k := next][i] == rest[k := next][j] ==> i == j
  {
  }

  // ---- mkdir ----

  ghost function Mkdir(db: Tables, p: Path): (r: Outcome)
    requires HasRoot(db.zones)
    ensures r.Success? ==> r.value.db.zones == db.zones
  {
    if p == [] then Success(Done(db, 0))
    else if KindOf(db, p).Some? then Failure(PathExists)
    else if !ParentIsDirectory(db, p) then Failure(NoParent)
    else
      var key := EntryKey(db.zones, p);
      var entry := Entry(db.nextId, DropLast(key.rel), Last(p), DIRECTORY);
      Success(Done(db.(entries := db.entries[key := entry], nextId := db.nextId + 1), 1))
  }

  /** `mkdir` with `parents`: each ancestor in turn, `done` of them handled. */
  ghost function MkdirParents(db: Tables, p: Path, done: nat): Outcome
    requires HasRoot(db.zones) && done <= |p|
    decreases |p| - done
  {
    if done == |p| then Success(Done(db, 0))
    else
      var current := p[..done + 1];
      match KindOf(db, current)
      case None =>
        (match Mkdir(db, current)
         case Failure(e) => Failure(e)
         case Success(made) => MkdirParents(made.db, p, done + 1))
      case Some(kind) => if kind != Dir then Failure(NotADirectory) else MkdirParents(db, p, done + 1)
  }

  // ---- write ----

  /** `write_file_inline`: insert a regular file, or overwrite the one with the same key. The
      target itself is not compared with the zones. */
  ghost function WriteInline(db: Tables, p: Path, data: Bytes): Outcome
    requires HasRoot(db.zones)
  {
    if !ParentIsDirectory(db, p) then Failure(NoParent)
    else
      var key := EntryKey(db.zones, p);
      if key !in db.entries then
        var entry := Entry(db.nextId, DropLast(key.rel), Last(p), InlineFile(data));
        Success(Done(db.(entries := db.entries[key := entry], nextId := db.nextId + 1), db.nextId))
      else if db.entries[key].payload.kind != File then Failure(NotRegularFile)
      else
        var old_ := db.entries[key];
        Success(Done(db.(entries := db.entries[key := old_.(payload := InlineFile(data))], nextId := db.nextId + 1), old_.id))
  }

  /** `write_file`: then move the zone's inline texts to blocks and reclaim segments. */
  ghost function WriteFile(db: Tables, p: Path, data: Bytes, order: RowOrder): Outcome
    requires HasRoot(db.zones)
  {
    match WriteInline(db, p, data)
    case Failure(e) => Failure(e)
    case Success(written) => Success(Done(Reclaim(BlockizeZone(written.db, Locate(db.zones, p).zone, order)), written.count))
  }

  // ---- remove ----

  /** The listing of a directory is not empty. */
  predicate HasChildren(db: Tables, l: Location) {
    || (exists k :: k in db.entries && k.zone == l.zone && db.entries[k].parentPath == l.rel)
    || (exists z :: z in db.zones && db.zones[z].parentZone == Some(l.zone) && db.zones[z].parentPath == Some(l.rel))
  }

  function RemovedZones(db: Tables, p: Path, l: Location, recursive: bool): set<ZoneId> {
    if l.rel == [] then set z | z in db.zones && AtOrUnder(p, db.zones[z].path)
    else if recursive then set z | z in db.zones && Under(p, db.zones[z].path)
    else {}
  }

  function RemovedEntries(db: Tables, p: Path, l: Location, recursive: bool): set<Key> {
    var gone := RemovedZones(db, p, l, recursive);
    set k | k in db.entries &&
            (k.zone in gone
             || (l.rel != [] && k.zone == l.zone && (k.rel == l.rel || (recursive && UnderRel(l.rel, k.rel)))))
  }

  ghost function Remove(db: Tables, p: Path, recursive: bool): Outcome
    requires HasRoot(db.zones)
  {
    if p == [] then Failure(CannotRemove)
    else if KindOf(db, p).None? then Failure(NoSuchPath)
    else
      var l := Locate(db.zones, p);
      if KindOf(db, p) == Some(Dir) && !recursive && HasChildren(db, l) then Failure(NotEmpty)
      else
        var gz, gk := RemovedZones(db, p, l, recursive), RemovedEntries(db, p, l, recursive);
        Success(Done(Reclaim(DeleteRows(db, gz, gk)), |gk| + |gz|))
  }

  // ---- move ----

  /** `destination || substr(path, length(source) + 1)` on absolute and on relative paths. */
  function TextReroot(p: Path, s: Path, d: Path): Path {
    Parse(Render(d) + Substr(Render(p), |Render(s)| + 1))
  }

  function TextRerootRel(p: Path, s: Path, d: Path): Path {
    ParseRel(RenderRel(d) + Substr(RenderRel(p), |RenderRel(s)| + 1))
  }

  function MovedZones(zones: Zones, s: Path, d: Path, sz: ZoneId, dl: Location): Zones
    requires d != []
  {
    map z | z in zones ::
      if AtOrUnder(s, zones[z].path) then
        Zone(TextReroot(zones[z].path, s, d),
             if z == sz then Some(dl.zone) else zones[z].parentZone,
             if z == sz then Some(dl.rel) else zones[z].parentPath,
             if z == sz then Last(d) else zones[z].name)
      else zones[z]
  }

  function ZonesAt(zones: Zones, s: Path): set<ZoneId> { set z | z in zones && AtOrUnder(s, zones[z].path) }

  function EntriesOf(entries: Entries, zs: set<ZoneId>): set<Key> { set k | k in entries && k.zone in zs }

  ghost function MoveZone(db: Tables, s: Path, d: Path, sz: ZoneId, dl: Location): Result<Tables, Error>
    requires d != []
  {
    var zones := MovedZones(db.zones, s, d, sz, dl);
    if ZonePathsUnique(zones) then Success(db.(zones := zones)) else Failure(UniqueViolation)
  }

  /** The rows the entry UPDATE rewrites and what they become. */
  function MovedEntries(db: Tables, sl: Location, d: Path, dk: Key): map<Key, Placed>
    requires d != []
  {
    map k | k in db.entries && k.zone == sl.zone && AtOrUnderRel(sl.rel, k.rel) ::
      var rel := TextRerootRel(k.rel, sl.rel, dk.rel);
      Placed(Key(dk.zone, rel),
             db.entries[k].(parentPath := ParseRel(RelativeParent(RenderRel(rel))),
                            name := if k.rel == sl.rel then Last(d) else db.entries[k].name))
  }

  ghost function MoveEntries(db: Tables, sl: Location, d: Path, dk: Key): Outcome
    requires d != []
  {
    var moves := MovedEntries(db, sl, d, dk);
    var rest := db.entries - moves.Keys;
    if Collides(rest, moves) then Failure(UniqueViolation)
    else Success(Done(db.(entries := PutRows(rest, moves)), |moves|))
  }

  /** The checks `move` and `move_command` share on the destination, and the deletion of a
      destination that is not a directory. */
  ghost function ClearDestination(db: Tables, d: Path): (r: Result<Tables, Error>)
    requires HasRoot(db.zones)
    ensures r.Success? ==> r.value.zones == db.zones
  {
    if !ParentIsDirectory(db, d) then Failure(NoParent)
    else if KindOf(db, d) == Some(Dir) then Failure(DestinationIsDirectory)
    else if KindOf(db, d).Some? then
      var l := Locate(db.zones, d); Success(DeleteRows(db, {}, {Key(l.zone, l.rel)}))
    else Success(db)
  }

  ghost function Move(db: Tables, s: Path, d: Path): Outcome
    requires HasRoot(db.zones)
  {
    if s == [] || AtOrUnder(s, d) then Failure(CannotMove)
    else if KindOf(db, s).None? then Failure(NoSuchPath)
    else
      match ClearDestination(db, d)
      case Failure(e) => Failure(e)
      case Success(cleared) =>
        var sl := Locate(cleared.zones, s);
        if sl.rel == [] then
          var zs := ZonesAt(cleared.zones, s);
          match MoveZone(cleared, s, d, sl.zone, Locate(cleared.zones, DropLast(d)))
          case Failure(e) => Failure(e)
          case Success(moved) => Success(Done(moved, |zs| + |EntriesOf(cleared.entries, zs)|))
        else if HasNestedZones(cleared.zones, s) then Failure(NestedZones)
        else MoveEntries(cleared, sl, d, EntryKey(cleared.zones, d))
  }

  // ---- copy ----

  function CopiedZoneEntries(db: Tables, sz: ZoneId, nz: ZoneId, order: RowOrder): map<Key, Placed> {
    var keys := EntriesOf(db.entries, {sz});
    var ids := Assign(order(keys), nz + 1);
    map k | k in keys && k in ids && k in db.entries :: Placed(Key(nz, k.rel), db.entries[k].(id := ids[k]))
  }

  ghost function CopyZone(db: Tables, sz: ZoneId, d: Path, dl: Location, order: RowOrder): Done
    requires d != []
  {
    var nz := db.nextId;
    var copies := CopiedZoneEntries(db, sz, nz, order);
    Done(db.(zones := db.zones[nz := Zone(d, Some(dl.zone), Some(dl.rel), Last(d))],
             entries := PutRows(db.entries, copies),
             nextId := nz + 1 + |copies|), |copies| + 1)
  }

  /** The rows an entry copy selects. */
  function CopiedKeys(db: Tables, sl: Location, recursive: bool): set<Key> {
    set k | k in db.entries && k.zone == sl.zone && (k.rel == sl.rel || (recursive && UnderRel(sl.rel, k.rel)))
  }

  function CopiedEntries(db: Tables, sl: Location, d: Path, dk: Key, recursive: bool, order: RowOrder): map<Key, Placed>
    requires d != []
  {
    var keys := CopiedKeys(db, sl, recursive);
    var ids := Assign(order(keys), db.nextId);
    map k | k in keys && k in ids && k in db.entries ::
      var rel := TextRerootRel(k.rel, sl.rel, dk.rel);
      Placed(Key(dk.zone, rel),
             Entry(ids[k], ParseRel(RelativeParent(RenderRel(rel))),
                   if k.rel == sl.rel then Last(d) else db.entries[k].name, db.entries[k].payload))
  }

  ghost function CopyEntries(db: Tables, sl: Location, d: Path, dk: Key, recursive: bool, order: RowOrder): Outcome
    requires d != []
  {
    var copies := CopiedEntries(db, sl, d, dk, recursive, order);
    if Collides(db.entries, copies) then Failure(UniqueViolation)
    else Success(Done(db.(entries := PutRows(db.entries, copies), nextId := db.nextId + |copies|), |copies|))
  }

  ghost function Copy(db: Tables, s: Path, d: Path, recursive: bool, order: RowOrder): Outcome
    requires HasRoot(db.zones)
  {
    if s == [] || AtOrUnder(s, d) then Failure(CannotCopy)
    else if KindOf(db, d).Some? then Failure(DestinationExists)
    else if !ParentIsDirectory(db, d) then Failure(NoParent)
    else
      var sl, key := Locate(db.zones, s), Key(Locate(db.zones, s).zone, Locate(db.zones, s).rel);
      if sl.rel == [] then
        if !recursive then Failure(OmittingDirectory)
        else if HasNestedZones(db.zones, s) then Failure(NestedZones)
        else Success(CopyZone(db, sl.zone, d, Locate(db.zones, DropLast(d)), order))
      else if key !in db.entries then Failure(NoSuchPath)
      else if db.entries[key].payload.kind == Dir && !recursive then Failure(OmittingDirectory)
      else if db.entries[key].payload.kind == Dir && HasNestedZones(db.zones, s) then Failure(NestedZones)
      else CopyEntries(db, sl, d, EntryKey(db.zones, d), recursive, order)
  }

  // ---- import ----

  /** One staged row; the batch is keyed by its relative path text, which is unique. */
  datatype Staged = Staged(kind: Kind, content: Bytes, link: string)

  type Batch = map<string, Staged>

  predicate RelativeTextOk(s: string) { WellSeparated(s) && !HasDots(s) }

  /** The checks on the batch itself. */
  predicate BatchOk(batch: Batch) {
    && "" in batch
    && (forall s :: s in batch && s != "" ==> RelativeTextOk(s))
    && forall s :: s in batch && s != "" ==> RelativeParent(s) in batch && batch[RelativeParent(s)].kind == Dir
  }

  function StagedPayload(staged: Staged): Payload {
    match staged.kind
    case File => InlineFile(staged.content)
    case Dir => DIRECTORY
    case Link => Payload(Link, None, None, None, 0, Some(staged.link))
  }

  /** The rows a batch becomes, addressed relative to the destination. */
  function BatchRows(batch: Batch, next: NodeId, order: RowOrder): Forest {
    var paths := set s | s in batch && s != "" :: ParseRel(s);
    var keys := set r | r in paths :: Key(0, r);
    var ids := Assign(order(keys), next);
    map r | r in paths && RenderRel(r) in batch && Key(0, r) in ids :: Row(ids[Key(0, r)], StagedPayload(batch[RenderRel(r)]))
  }

  /** A new zone with the rows of the batch. */
  function AddStagedZone(db: Tables, row: Zone, batch: Batch, order: RowOrder): Tables {
    var nz := db.nextId;
    var rows := BatchRows(batch, nz + 1, order);
    Tables(db.zones[nz := row], db.entries + PlantedEntries(nz, [], rows), nz + 1 + |rows|, db.store)
  }

  ghost function ImportInline(db: Tables, d: Path, batch: Batch, order: RowOrder): (r: Outcome)
    requires HasRoot(db.zones) && db.nextId !in db.zones
    ensures r.Success? ==> HasRoot(r.value.db.zones)
  {
    if !BatchOk(batch) then Failure(BadBatch)
    else if !ParentIsDirectory(db, d) || KindOf(db, d).Some? then Failure(DestinationTaken)
    else
      var dl, nz := Locate(db.zones, DropLast(d)), db.nextId;
      if batch[""].kind == Dir then
        var row := Zone(d, Some(dl.zone), Some(dl.rel), Last(d));
        AddZoneKeepsRoot(db.zones, nz, row);
        Success(Done(AddStagedZone(db, row, batch, order), |batch|))
      else
        var key := EntryKey(db.zones, d);
        Success(Done(db.(entries := db.entries[key := Entry(nz, dl.rel, Last(d), StagedPayload(batch[""]))],
                         nextId := nz + 1), |batch|))
  }

  /** `apply_import`: then the destination's zone moves to blocks in a new segment. */
  ghost function Import(db: Tables, d: Path, batch: Batch, order: RowOrder): Outcome
    requires HasRoot(db.zones) && db.nextId !in db.zones
  {
    match ImportInline(db, d, batch, order)
    case Failure(e) => Failure(e)
    case Success(done) => Success(Done(BlockizeZoneSegment(done.db, Locate(done.db.zones, d).zone, order), done.count))
  }
}
