/** The rows of one volume, the invariant they keep, and the tree they stand for. */
module Tables {
  import opened Basics
  import opened Paths
  import opened Utf8
  import opened Blocks

  type ZoneId = nat
  type NodeId = nat
  type ObjectId = nat
  type SegmentId = nat

  datatype Kind = File | Dir | Link

  /** What an entry holds besides its place: text or binary bytes, or a shared content object. */
  datatype Payload = Payload(kind: Kind, text: Option<Bytes>, binary: Option<Bytes>,
                             content: Option<ObjectId>, size: nat, link: Option<string>)

  const DIRECTORY := Payload(Dir, None, None, None, 0, None)

  /** The unique key of `zone_entries` within a volume. */
  datatype Key = Key(zone: ZoneId, rel: Path)

  datatype Entry = Entry(id: NodeId, parentPath: Path, name: Name, payload: Payload)

  datatype Zone = Zone(path: Path, parentZone: Option<ZoneId>, parentPath: Option<Path>, name: Name)

  datatype Object = Object(size: nat, segment: Option<SegmentId>)

  /** The blocks of one object, in the common table or in one segment's table. */
  datatype Rows = Rows(segment: Option<SegmentId>, blocks: seq<Block>)

  /** Content tables; a segment is staged (false) or published (true). */
  datatype Store = Store(objects: map<ObjectId, Object>, rows: map<ObjectId, Rows>,
                         segments: map<SegmentId, bool>, nextObject: ObjectId, nextSegment: SegmentId)

  type Zones = map<ZoneId, Zone>
  type Entries = map<Key, Entry>

  datatype Tables = Tables(zones: Zones, entries: Entries, nextId: NodeId, store: Store)

  // ---- Places ----

  function ZonePath(zones: Zones, z: ZoneId): Path {
    if z in zones then zones[z].path else []
  }

  /** The absolute path of an entry. */
  function PathOf(zones: Zones, k: Key): Path { ZonePath(zones, k.zone) + k.rel }

  ghost predicate HasRoot(zones: Zones) { exists z :: z in zones && zones[z].path == [] }

  ghost predicate ZonePathsUnique(zones: Zones) {
    forall a, b :: a in zones && b in zones && zones[a].path == zones[b].path ==> a == b
  }

  /** `z` is the deepest zone at or above `p`. */
  ghost predicate IsDeepest(zones: Zones, p: Path, z: ZoneId) {
    && z in zones && zones[z].path <= p
    && forall y :: y in zones && zones[y].path <= p ==> |zones[y].path| <= |zones[z].path|
  }

  lemma {:induction false} DeepestExists(zones: Zones, p: Path)
    requires HasRoot(zones)
    ensures exists z :: IsDeepest(zones, p, z)
    decreases |p|
  {
    if z :| z in zones && zones[z].path == p {
      assert IsDeepest(zones, p, z);
    } else if p != [] {
      var q := DropLast(p);
      DeepestExists(zones, q);
      var z :| IsDeepest(zones, q, z);
      forall y | y in zones && zones[y].path <= p ensures zones[y].path <= q {
        assert zones[y].path == p[..|zones[y].path|];
      }
      assert IsDeepest(zones, p, z);
    }
  }

  lemma DeepestUnique(zones: Zones, p: Path, a: ZoneId, b: ZoneId)
    requires ZonePathsUnique(zones) && IsDeepest(zones, p, a) && IsDeepest(zones, p, b)
    ensures a == b
  {
    assert zones[a].path == p[..|zones[a].path|] == zones[b].path;
  }

  ghost function DeepestZone(zones: Zones, p: Path): (z: ZoneId)
    requires HasRoot(zones)
    ensures IsDeepest(zones, p, z)
  {
    DeepestExists(zones, p);
    var z :| IsDeepest(zones, p, z);
    z
  }

  datatype Location = Location(zone: ZoneId, rel: Path)

  /** `pgos_private.locate_zone`: the longest ancestor that is a zone, and the rest of the path. */
  ghost function Locate(zones: Zones, p: Path): Location
    requires HasRoot(zones)
  {
    var z := DeepestZone(zones, p);
    Location(z, p[|zones[z].path|..])
  }

  /** The located zone and relative path are the canonical address of the path. */
  lemma LocateIsCanonical(zones: Zones, p: Path, z: ZoneId, rel: Path)
    requires HasRoot(zones) && ZonePathsUnique(zones)
    ensures Locate(zones, p) == Location(z, rel) <==> IsDeepest(zones, p, z) && zones[z].path + rel == p
  {
    var found := Locate(zones, p);
    assert zones[found.zone].path + found.rel == p;
    if IsDeepest(zones, p, z) && zones[z].path + rel == p {
      DeepestUnique(zones, p, found.zone, z);
      assert p[|zones[z].path|..] == rel;
    }
  }

  // ---- The invariant ----

  ghost predicate NamesValid(zones: Zones, entries: Entries) {
    && (forall z :: z in zones ==> ValidPath(zones[z].path))
    && forall k :: k in entries ==> k.zone in zones && k.rel != [] && ValidPath(k.rel)
  }

  /** Every entry lives in its deepest zone. */
  ghost predicate Homed(zones: Zones, entries: Entries) {
    forall k, z {:trigger PathOf(zones, k), zones[z]} ::
      k in entries && z in zones && ZonePath(zones, k.zone) < zones[z].path ==> !(zones[z].path <= PathOf(zones, k))
  }

  predicate IsDirectory(entries: Entries, k: Key) { k in entries && entries[k].payload.kind == Dir }

  /** The parent of an entry in the same zone is the zone itself or a directory entry. */
  ghost predicate EntryParents(entries: Entries) {
    forall k {:trigger DropLast(k.rel)} :: k in entries && |k.rel| > 1 ==> IsDirectory(entries, Key(k.zone, DropLast(k.rel)))
  }

  /** `(z, rel)` is the canonical address of the directory `p`. */
  ghost predicate IsDirAddress(zones: Zones, entries: Entries, p: Path, z: ZoneId, rel: Path) {
    && IsDeepest(zones, p, z) && zones[z].path + rel == p
    && (rel == [] || IsDirectory(entries, Key(z, rel)))
  }

  /** A nested zone names the canonical address of its parent, which is a directory. */
  ghost predicate ZoneParent(zones: Zones, entries: Entries, row: Zone) {
    if row.path == [] then row.parentZone == None && row.parentPath == None && row.name == ""
    else
      && row.name == Last(row.path)
      && row.parentZone.Some? && row.parentPath.Some?
      && IsDirAddress(zones, entries, DropLast(row.path), row.parentZone.value, row.parentPath.value)
  }

  ghost predicate ZoneParents(zones: Zones, entries: Entries) {
    forall z {:trigger ZoneParent(zones, entries, zones[z])} :: z in zones ==> ZoneParent(zones, entries, zones[z])
  }

  ghost predicate Labelled(entries: Entries) {
    forall k :: k in entries && k.rel != [] ==>
      entries[k].parentPath == DropLast(k.rel) && entries[k].name == Last(k.rel)
  }

  ghost predicate IdsUnique(zones: Zones, entries: Entries, nextId: NodeId) {
    && (forall z :: z in zones ==> z < nextId)
    && (forall k :: k in entries ==> entries[k].id < nextId && entries[k].id !in zones)
    && forall j, k :: j in entries && k in entries && entries[j].id == entries[k].id ==> j == k
  }

  /** The namespace part of the invariant. */
  ghost predicate Namespace(zones: Zones, entries: Entries, nextId: NodeId) {
    && HasRoot(zones)
    && ZonePathsUnique(zones)
    && NamesValid(zones, entries)
    && Homed(zones, entries)
    && EntryParents(entries)
    && ZoneParents(zones, entries)
    && Labelled(entries)
    && IdsUnique(zones, entries, nextId)
  }

  /** A zone is mounted at the path. */
  ghost predicate IsZonePath(db: Tables, p: Path) { exists z :: z in db.zones && db.zones[z].path == p }

  /** The bytes a file payload stands for. */
  function Denote(store: Store, payload: Payload): Bytes {
    match payload.content
    case Some(o) => if o in store.rows then Bodies(store.rows[o].blocks) else []
    case None =>
      match payload.text
      case Some(text) => text
      case None => if payload.binary.Some? then payload.binary.value else []
  }

  ghost predicate PayloadOk(store: Store, payload: Payload) {
    match payload.kind
    case Dir => payload == DIRECTORY
    case Link => payload.text == None && payload.binary == None && payload.content == None && payload.size == 0 && payload.link.Some?
    case File =>
      && payload.link == None
      && (payload.text.Some? <==> payload.binary.None?)
      && (payload.text.Some? ==> ValidUtf8(payload.text.value))
      && (payload.content.Some? ==> payload.text == Some([]) && payload.content.value in store.objects)
      && payload.size == |Denote(store, payload)|
  }

  ghost predicate ObjectOk(store: Store, o: ObjectId)
    requires o in store.objects && o in store.rows
  {
    var blocks := store.rows[o].blocks;
    && store.rows[o].segment == store.objects[o].segment
    && (store.objects[o].segment.Some? ==> store.objects[o].segment.value in store.segments)
    && Contiguous(blocks, 0, 1) && LineAligned(blocks)
    && store.objects[o].size == |Bodies(blocks)|
  }

  ghost predicate StoreOk(store: Store) {
    && store.objects.Keys == store.rows.Keys
    && (forall o :: o in store.objects ==> o < store.nextObject && ObjectOk(store, o))
    && (forall s :: s in store.segments ==> s < store.nextSegment)
  }

  ghost predicate Payloads(entries: Entries, store: Store) {
    forall k :: k in entries ==> PayloadOk(store, entries[k].payload)
  }

  ghost predicate Inv(db: Tables) {
    && Namespace(db.zones, db.entries, db.nextId)
    && StoreOk(db.store)
    && Payloads(db.entries, db.store)
  }

  // ---- The tree ----

  datatype Node = Node(id: NodeId, kind: Kind, bytes: Bytes, link: Option<string>)

  type Tree = map<Path, Node>

  function DirNode(z: ZoneId): Node { Node(z, Dir, [], None) }

  function NodeOf(store: Store, e: Entry): Node {
    Node(e.id, e.payload.kind, if e.payload.kind == File then Denote(store, e.payload) else [], e.payload.link)
  }

  ghost function AllPaths(zones: Zones, entries: Entries): set<Path> {
    (set z | z in zones :: zones[z].path) + (set k | k in entries :: PathOf(zones, k))
  }

  ghost function NodeAt(db: Tables, p: Path): Node
    requires p in AllPaths(db.zones, db.entries)
  {
    if z :| z in db.zones && db.zones[z].path == p then DirNode(z)
    else var k :| k in db.entries && PathOf(db.zones, k) == p; NodeOf(db.store, db.entries[k])
  }

  /** The tree a volume stands for: every zone is a directory, every entry a node. */
  ghost function TreeOf(db: Tables): Tree {
    map p | p in AllPaths(db.zones, db.entries) :: NodeAt(db, p)
  }

  lemma PathsUnique(zones: Zones, entries: Entries, j: Key, k: Key)
    requires Homed(zones, entries) && NamesValid(zones, entries) && ZonePathsUnique(zones)
    requires j in entries && k in entries && PathOf(zones, j) == PathOf(zones, k)
    ensures j == k
  {
    var a, b, p := zones[j.zone].path, zones[k.zone].path, PathOf(zones, j);
    assert a == p[..|a|] && b == p[..|b|];
    assert |a| < |b| ==> a < b;
    assert |b| < |a| ==> b < a;
    assert j.rel == p[|a|..] && k.rel == p[|b|..];
  }

  lemma EntryIsNotZone(zones: Zones, entries: Entries, k: Key, z: ZoneId)
    requires Homed(zones, entries) && NamesValid(zones, entries)
    requires k in entries && z in zones
    ensures PathOf(zones, k) != zones[z].path
  {
    var a, b := zones[k.zone].path, zones[z].path;
    assert PathOf(zones, k) == b ==> a < b;
  }

  lemma EntryInTree(db: Tables, k: Key)
    requires Namespace(db.zones, db.entries, db.nextId) && k in db.entries
    ensures PathOf(db.zones, k) in TreeOf(db)
    ensures TreeOf(db)[PathOf(db.zones, k)] == NodeOf(db.store, db.entries[k])
  {
    hide NodeOf, DirNode, PathOf, Homed, EntryParents, ZoneParents, Labelled, IdsUnique, ZonePathsUnique, HasRoot;
    var p := PathOf(db.zones, k);
    assert p in AllPaths(db.zones, db.entries);
    forall z | z in db.zones ensures db.zones[z].path != p {
      EntryIsNotZone(db.zones, db.entries, k, z);
    }
    forall j | j in db.entries && PathOf(db.zones, j) == p ensures j == k {
      PathsUnique(db.zones, db.entries, j, k);
    }
    assert NodeAt(db, p) == NodeOf(db.store, db.entries[k]);
  }

  lemma ZoneInTree(db: Tables, z: ZoneId)
    requires ZonePathsUnique(db.zones) && z in db.zones
    ensures db.zones[z].path in TreeOf(db)
    ensures TreeOf(db)[db.zones[z].path] == DirNode(z)
  {
    hide NodeOf, DirNode, PathOf;
    var p := db.zones[z].path;
    assert p in AllPaths(db.zones, db.entries);
    assert NodeAt(db, p) == DirNode(z);
  }

  /** The rows and the tree name the same nodes. */
  lemma TreeHasRows(db: Tables)
    requires Namespace(db.zones, db.entries, db.nextId)
    ensures TreeOf(db).Keys == AllPaths(db.zones, db.entries)
    ensures forall z :: z in db.zones ==> db.zones[z].path in TreeOf(db) && TreeOf(db)[db.zones[z].path] == DirNode(z)
    ensures forall k :: k in db.entries ==>
              PathOf(db.zones, k) in TreeOf(db) && TreeOf(db)[PathOf(db.zones, k)] == NodeOf(db.store, db.entries[k])
  {
    assert TreeOf(db).Keys == AllPaths(db.zones, db.entries);
    assert ZonePathsUnique(db.zones);
    hide *;
    forall z | z in db.zones
      ensures db.zones[z].path in TreeOf(db) && TreeOf(db)[db.zones[z].path] == DirNode(z)
    {
      ZoneInTree(db, z);
    }
    forall k | k in db.entries
      ensures PathOf(db.zones, k) in TreeOf(db) && TreeOf(db)[PathOf(db.zones, k)] == NodeOf(db.store, db.entries[k])
    {
      EntryInTree(db, k);
    }
  }

  lemma ZonePathListed(zones: Zones, entries: Entries, z: ZoneId)
    requires z in zones
    ensures zones[z].path in AllPaths(zones, entries)
  {
    hide PathOf;
  }

  lemma EntryPathListed(zones: Zones, entries: Entries, k: Key)
    requires k in entries
    ensures PathOf(zones, k) in AllPaths(zones, entries)
  {
    hide PathOf;
  }

  /** A tree that names the same nodes as the rows, and no others, is the tree of the rows. */
  lemma TreeIs(db: Tables, t: Tree)
    requires Namespace(db.zones, db.entries, db.nextId)
    requires forall p :: p in t ==> p in AllPaths(db.zones, db.entries)
    requires forall z :: z in db.zones ==> db.zones[z].path in t && t[db.zones[z].path] == DirNode(z)
    requires forall k :: k in db.entries ==>
               PathOf(db.zones, k) in t && t[PathOf(db.zones, k)] == NodeOf(db.store, db.entries[k])
    ensures TreeOf(db) == t
  {
    hide NodeOf, DirNode, PathOf, Namespace, NodeAt, TreeOf;
    TreeHasRows(db);
    var u := TreeOf(db);
    forall p | p in AllPaths(db.zones, db.entries) ensures p in t && u[p] == t[p] {
      if k :| k in db.entries && PathOf(db.zones, k) == p {
      } else {
        var z :| z in db.zones && db.zones[z].path == p;
      }
    }
    assert u.Keys == t.Keys;
  }

  // ---- Lookups ----

  /** `pgos_private.kind_of`. */
  ghost function KindOf(db: Tables, p: Path): Option<Kind>
    requires HasRoot(db.zones)
  {
    var l := Locate(db.zones, p);
    if l.rel == [] then Some(Dir)
    else if Key(l.zone, l.rel) in db.entries then Some(db.entries[Key(l.zone, l.rel)].payload.kind)
    else None
  }

  function TreeKind(t: Tree, p: Path): Option<Kind> {
    if p in t then Some(t[p].kind) else None
  }

  lemma DeepestOfEntry(zones: Zones, entries: Entries, k: Key)
    requires Homed(zones, entries) && NamesValid(zones, entries) && k in entries
    ensures IsDeepest(zones, PathOf(zones, k), k.zone)
  {
    var p, a := PathOf(zones, k), zones[k.zone].path;
    assert p[..|a|] == a;
    forall y | y in zones && zones[y].path <= p ensures |zones[y].path| <= |a| {
      var b := zones[y].path;
      assert b == p[..|b|];
      assert |b| > |a| ==> a < b;
    }
  }

  lemma EntryAtAddress(db: Tables, p: Path, l: Location)
    requires Namespace(db.zones, db.entries, db.nextId)
    requires IsDeepest(db.zones, p, l.zone) && db.zones[l.zone].path + l.rel == p && l.rel != []
    ensures p in TreeOf(db) <==> Key(l.zone, l.rel) in db.entries
    ensures p in TreeOf(db) ==> TreeOf(db)[p] == NodeOf(db.store, db.entries[Key(l.zone, l.rel)])
  {
    hide NodeOf, NodeAt, EntryParents, ZoneParents, Labelled, IdsUnique, HasRoot, Homed;
    var key := Key(l.zone, l.rel);
    assert PathOf(db.zones, key) == p;
    assert TreeOf(db).Keys == AllPaths(db.zones, db.entries);
    if key in db.entries {
      EntryInTree(db, key);
    }
    forall k | k in db.entries && PathOf(db.zones, k) == p ensures k == key {
      DeepestOfEntry(db.zones, db.entries, k);
      DeepestUnique(db.zones, p, k.zone, l.zone);
      assert k.rel == p[|db.zones[l.zone].path|..] == l.rel;
    }
    forall z | z in db.zones ensures db.zones[z].path != p {
      assert |db.zones[l.zone].path| < |p|;
    }
  }

  /** A path names a node exactly when its canonical address is a zone or an entry. */
  lemma LookupFinds(db: Tables, p: Path)
    requires Namespace(db.zones, db.entries, db.nextId)
    ensures KindOf(db, p) == TreeKind(TreeOf(db), p)
    ensures var l := Locate(db.zones, p);
            && IsDeepest(db.zones, p, l.zone) && db.zones[l.zone].path + l.rel == p
            && (l.rel == [] ==> p in TreeOf(db) && TreeOf(db)[p] == DirNode(l.zone))
            && (l.rel != [] ==>
                  (p in TreeOf(db) <==> Key(l.zone, l.rel) in db.entries)
                  && (p in TreeOf(db) ==> TreeOf(db)[p] == NodeOf(db.store, db.entries[Key(l.zone, l.rel)])))
  {
    hide TreeOf, AllPaths, NodeAt, Homed, EntryParents, ZoneParents, Labelled, IdsUnique, NamesValid;
    var l := Locate(db.zones, p);
    assert db.zones[l.zone].path + l.rel == p;
    if l.rel == [] {
      assert db.zones[l.zone].path == p;
      ZoneInTree(db, l.zone);
    } else {
      EntryAtAddress(db, p, l);
    }
  }
}
