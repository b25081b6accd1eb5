/** Content objects: blockizing text, publishing segments, reclaiming them, and reading back. */
module Content {
  import opened Basics
  import opened Paths
  import opened Utf8
  import opened Blocks
  import opened Tables
  import opened Grafting

  /** The target block size blockizing passes to the splitter. */
  const BLOCK_BYTES := 8192

  /** `utf8_or_null`: decoding fails on invalid UTF-8 and on NUL. */
  function Utf8OrNull(data: Bytes): Option<Bytes> {
    if ValidUtf8(data) && 0 !in data then Some(data) else None
  }

  /** The inline payload of a regular file. */
  function InlineFile(data: Bytes): Payload {
    var decoded := Utf8OrNull(data);
    Payload(File, decoded, if decoded == None then Some(data) else None, None, |data|, None)
  }

  lemma InlineFileOk(store: Store, data: Bytes)
    ensures PayloadOk(store, InlineFile(data)) && Denote(store, InlineFile(data)) == data
  {
    hide ValidUtf8;
  }

  // ---- Content changes the tree cannot see ----

  /** The two row sets differ only in how file contents are stored. */
  ghost predicate SameNodes(a: Tables, b: Tables) {
    && a.zones == b.zones && a.nextId == b.nextId && a.entries.Keys == b.entries.Keys
    && forall k :: k in a.entries ==>
         && a.entries[k].(payload := b.entries[k].payload) == b.entries[k]
         && NodeOf(a.store, a.entries[k]) == NodeOf(b.store, b.entries[k])
  }

  lemma SameKinds(a: Tables, b: Tables)
    requires SameNodes(a, b)
    ensures forall k :: IsDirectory(a.entries, k) <==> IsDirectory(b.entries, k)
    ensures forall k :: k in a.entries ==> a.entries[k].id == b.entries[k].id
  {
  }

  lemma SameParents(a: Tables, b: Tables)
    requires SameNodes(a, b) && EntryParents(a.entries) && ZoneParents(a.zones, a.entries)
    ensures EntryParents(b.entries) && ZoneParents(b.zones, b.entries)
  {
    SameKinds(a, b);
    hide NodeOf, IsDirectory, IsDeepest;
    forall z | z in b.zones ensures ZoneParent(b.zones, b.entries, b.zones[z]) {
      assert ZoneParent(a.zones, a.entries, a.zones[z]);
    }
  }

  lemma SamePlaces(a: Tables, b: Tables)
    requires SameNodes(a, b) && NamesValid(a.zones, a.entries) && Homed(a.zones, a.entries) && Labelled(a.entries)
    requires IdsUnique(a.zones, a.entries, a.nextId)
    ensures NamesValid(b.zones, b.entries) && Homed(b.zones, b.entries) && Labelled(b.entries)
    ensures IdsUnique(b.zones, b.entries, b.nextId)
  {
    hide NodeOf, PathOf, ZonePath, ValidPath;
  }

  lemma SameNamespace(a: Tables, b: Tables)
    requires SameNodes(a, b) && Namespace(a.zones, a.entries, a.nextId)
    ensures Namespace(b.zones, b.entries, b.nextId)
  {
    hide HasRoot, ZonePathsUnique, NamesValid, Homed, EntryParents, ZoneParents, Labelled, IdsUnique, NodeOf;
    SameParents(a, b);
    SamePlaces(a, b);
  }

  /** The tree does not see how contents are stored. */
  lemma SameTree(a: Tables, b: Tables)
    requires SameNodes(a, b) && Namespace(a.zones, a.entries, a.nextId)
    ensures Namespace(b.zones, b.entries, b.nextId) && TreeOf(b) == TreeOf(a)
  {
    hide NodeOf, Namespace, PathOf, DirNode, TreeOf;
    SameNamespace(a, b);
    TreeHasRows(a);
    assert AllPaths(a.zones, a.entries) == AllPaths(b.zones, b.entries);
    TreeIs(b, TreeOf(a));
  }

  // ---- Blockizing ----

  /** An inline text file. */
  predicate IsInlineText(entries: Entries, k: Key) {
    k in entries && entries[k].payload.kind == File && entries[k].payload.text.Some? && entries[k].payload.content.None?
  }

  /** The entries `blockize_zone` selects: inline text files of one zone. */
  function InlineTexts(entries: Entries, zone: ZoneId): set<Key> {
    set k | k in entries && k.zone == zone && IsInlineText(entries, k)
  }

  /** The order in which the database delivers the rows of a set, which it does not promise. */
  type RowOrder = set<Key> -> seq<Key>

  function Stored(store: Store, o: ObjectId, object_: Object, blocks: seq<Block>): Store {
    store.(objects := store.objects[o := object_], rows := store.rows[o := Rows(object_.segment, blocks)],
           nextObject := Max(store.nextObject, o + 1))
  }

  /** One entry's text moves to a fresh content object. */
  function BlockizeOne(db: Tables, k: Key, segment: Option<SegmentId>): Tables
    requires k in db.entries && db.entries[k].payload.text.Some?
  {
    var e := db.entries[k];
    var o := db.store.nextObject;
    db.(entries := db.entries[k := e.(payload := e.payload.(content := Some(o), text := Some([])))],
        store := Stored(db.store, o, Object(e.payload.size, segment), SplitText(e.payload.text.value, BLOCK_BYTES)))
  }

  function BlockizeKeys(db: Tables, keys: seq<Key>, segment: Option<SegmentId>): Tables
    decreases |keys|
  {
    if keys == [] then db
    else BlockizeKeys(if IsInlineText(db.entries, keys[0]) then BlockizeOne(db, keys[0], segment) else db, keys[1..], segment)
  }

  lemma StoredKeeps(store: Store, o: ObjectId, object_: Object, blocks: seq<Block>, payload: Payload)
    requires o !in store.objects && PayloadOk(store, payload)
    ensures PayloadOk(Stored(store, o, object_, blocks), payload)
    ensures payload.kind == File ==> Denote(Stored(store, o, object_, blocks), payload) == Denote(store, payload)
  {
    hide ValidUtf8, Bodies;
  }

  lemma StoredOk(store: Store, o: ObjectId, object_: Object, blocks: seq<Block>)
    requires StoreOk(store) && o !in store.objects
    requires Contiguous(blocks, 0, 1) && LineAligned(blocks) && object_.size == |Bodies(blocks)|
    requires object_.segment.Some? ==> object_.segment.value in store.segments
    ensures StoreOk(Stored(store, o, object_, blocks))
  {
    hide Contiguous, LineAligned, Bodies;
  }

  lemma TextOf(db: Tables, k: Key)
    requires StoreOk(db.store) && Payloads(db.entries, db.store)
    requires IsInlineText(db.entries, k)
    ensures var payload := db.entries[k].payload;
            && payload.size == |payload.text.value| && payload.link == None && payload.binary == None
            && Denote(db.store, payload) == payload.text.value && db.store.nextObject !in db.store.objects
  {
    hide ValidUtf8, Contiguous, LineAligned, Bodies;
    assert PayloadOk(db.store, db.entries[k].payload);
  }

  /** The entry after its text moved to an object. */
  lemma MovedText(store: Store, payload: Payload, segment: Option<SegmentId>)
    requires payload.kind == File && payload.text.Some? && payload.content.None? && payload.link == None && payload.binary == None
    requires payload.size == |payload.text.value|
    ensures var o := store.nextObject;
            var after := Stored(store, o, Object(payload.size, segment), SplitText(payload.text.value, BLOCK_BYTES));
            var moved := payload.(content := Some(o), text := Some([]));
            PayloadOk(after, moved) && Denote(after, moved) == payload.text.value
  {
    hide Contiguous, LineAligned, SplitText, Bodies;
    SplitTextPartitions(payload.text.value, BLOCK_BYTES);
    EmptyIsValid();
    hide ValidUtf8;
  }

  /** Moving one text to an object keeps every node and the content invariant. */
  lemma BlockizeOneKeeps(db: Tables, k: Key, segment: Option<SegmentId>)
    requires StoreOk(db.store) && Payloads(db.entries, db.store)
    requires IsInlineText(db.entries, k)
    requires segment.Some? ==> segment.value in db.store.segments
    ensures var b := BlockizeOne(db, k, segment);
            && StoreOk(b.store) && Payloads(b.entries, b.store) && SameNodes(db, b)
            && b.store.segments == db.store.segments && b.store.nextSegment == db.store.nextSegment
  {
    hide ValidUtf8, Contiguous, LineAligned, StoreOk, PayloadOk, Denote, SplitText, Bodies;
    var payload, o := db.entries[k].payload, db.store.nextObject;
    var blocks := SplitText(payload.text.value, BLOCK_BYTES);
    TextOf(db, k);
    SplitTextPartitions(payload.text.value, BLOCK_BYTES);
    StoredOk(db.store, o, Object(payload.size, segment), blocks);
    MovedText(db.store, payload, segment);
    var b := BlockizeOne(db, k, segment);
    forall j | j in b.entries
      ensures PayloadOk(b.store, b.entries[j].payload)
      ensures NodeOf(db.store, db.entries[j]) == NodeOf(b.store, b.entries[j])
    {
      if j != k { StoredKeeps(db.store, o, Object(payload.size, segment), blocks, db.entries[j].payload); }
    }
  }

  lemma SameNodesTransitive(a: Tables, b: Tables, c: Tables)
    requires SameNodes(a, b) && SameNodes(b, c)
    ensures SameNodes(a, c)
  {
    hide NodeOf;
  }

  lemma SameNodesReflexive(db: Tables)
    ensures SameNodes(db, db)
  {
    hide NodeOf;
  }

  lemma {:induction false} BlockizeKeysKeeps(db: Tables, keys: seq<Key>, segment: Option<SegmentId>)
    requires StoreOk(db.store) && Payloads(db.entries, db.store)
    requires segment.Some? ==> segment.value in db.store.segments
    ensures var b := BlockizeKeys(db, keys, segment);
            && StoreOk(b.store) && Payloads(b.entries, b.store) && SameNodes(db, b)
            && b.store.segments == db.store.segments && b.store.nextSegment == db.store.nextSegment
    decreases |keys|
  {
    hide StoreOk, Payloads, SameNodes;
    if keys == [] {
      SameNodesReflexive(db);
    } else if IsInlineText(db.entries, keys[0]) {
      var one := BlockizeOne(db, keys[0], segment);
      BlockizeOneKeeps(db, keys[0], segment);
      BlockizeKeysKeeps(one, keys[1..], segment);
      SameNodesTransitive(db, one, BlockizeKeys(one, keys[1..], segment));
    } else {
      BlockizeKeysKeeps(db, keys[1..], segment);
    }
  }

  /** `blockize_zone`. */
  function BlockizeZone(db: Tables, zone: ZoneId, order: RowOrder): Tables {
    BlockizeKeys(db, order(InlineTexts(db.entries, zone)), None)
  }

  /** `blockize_zone_segment`: the new objects share one segment, published at the end; with
      nothing to store the segment is dropped again. */
  function BlockizeZoneSegment(db: Tables, zone: ZoneId, order: RowOrder): Tables {
    var keys := InlineTexts(db.entries, zone);
    var segment := db.store.nextSegment;
    var staged := db.(store := db.store.(segments := db.store.segments[segment := false], nextSegment := segment + 1));
    if keys == {} then staged.(store := staged.store.(segments := staged.store.segments - {segment}))
    else
      var b := BlockizeKeys(staged, order(keys), Some(segment));
      b.(store := b.store.(segments := b.store.segments[segment := true]))
  }

  lemma SegmentsOnly(a: Tables, b: Tables)
    requires b == a.(store := b.store) && b.store == a.store.(segments := b.store.segments, nextSegment := b.store.nextSegment)
    requires Payloads(a.entries, a.store)
    ensures SameNodes(a, b) && Payloads(b.entries, b.store)
  {
    hide ValidUtf8, Bodies;
  }

  lemma SegmentMarked(store: Store, s: SegmentId, published: bool)
    requires StoreOk(store) && s <= store.nextSegment
    ensures StoreOk(store.(segments := store.segments[s := published], nextSegment := Max(store.nextSegment, s + 1)))
  {
    hide Bodies, Contiguous, LineAligned;
    assert forall o :: o in store.objects ==> ObjectOk(store, o);
  }

  /** Blockizing a zone keeps the invariant and the tree. */
  lemma BlockizeKeepsTree(db: Tables, zone: ZoneId, order: RowOrder)
    requires Inv(db)
    ensures Inv(BlockizeZone(db, zone, order)) && TreeOf(BlockizeZone(db, zone, order)) == TreeOf(db)
    ensures BlockizeZone(db, zone, order).zones == db.zones && SameNodes(db, BlockizeZone(db, zone, order))
  {
    hide Namespace, StoreOk, Payloads, TreeOf, NodeOf;
    BlockizeKeysKeeps(db, order(InlineTexts(db.entries, zone)), None);
    SameTree(db, BlockizeZone(db, zone, order));
  }

  lemma NothingToStore(db: Tables)
    requires StoreOk(db.store) && Payloads(db.entries, db.store)
    ensures var segment := db.store.nextSegment;
            var b := db.(store := db.store.(segments := db.store.segments[segment := false] - {segment}, nextSegment := segment + 1));
            StoreOk(b.store) && Payloads(b.entries, b.store) && SameNodes(db, b)
  {
    hide Bodies, Contiguous, LineAligned, ValidUtf8;
    assert db.store.segments[db.store.nextSegment := false] - {db.store.nextSegment} == db.store.segments;
    assert forall o :: o in db.store.objects ==> ObjectOk(db.store, o);
  }

  /** The segment is staged before blockizing and published after. */
  lemma StageAndPublish(db: Tables, keys: seq<Key>)
    requires StoreOk(db.store) && Payloads(db.entries, db.store)
    ensures var segment := db.store.nextSegment;
            var staged := db.(store := db.store.(segments := db.store.segments[segment := false], nextSegment := segment + 1));
            var c := BlockizeKeys(staged, keys, Some(segment));
            var b := c.(store := c.store.(segments := c.store.segments[segment := true]));
            StoreOk(b.store) && Payloads(b.entries, b.store) && SameNodes(db, b)
  {
    hide StoreOk, Payloads, NodeOf, SameNodes;
    var segment := db.store.nextSegment;
    var staged := db.(store := db.store.(segments := db.store.segments[segment := false], nextSegment := segment + 1));
    SegmentMarked(db.store, segment, false);
    SegmentsOnly(db, staged);
    BlockizeKeysKeeps(staged, keys, Some(segment));
    var c := BlockizeKeys(staged, keys, Some(segment));
    SegmentMarked(c.store, segment, true);
    var b := c.(store := c.store.(segments := c.store.segments[segment := true]));
    SegmentsOnly(c, b);
    SameNodesTransitive(db, staged, c);
    SameNodesTransitive(db, c, b);
  }

  lemma BlockizeSegmentKeepsTree(db: Tables, zone: ZoneId, order: RowOrder)
    requires Inv(db)
    ensures Inv(BlockizeZoneSegment(db, zone, order)) && TreeOf(BlockizeZoneSegment(db, zone, order)) == TreeOf(db)
    ensures SameNodes(db, BlockizeZoneSegment(db, zone, order))
  {
    hide Namespace, Payloads, TreeOf, NodeOf, SameNodes, StoreOk, InlineTexts;
    StageAndPublish(db, order(InlineTexts(db.entries, zone)));
    NothingToStore(db);
    SameTree(db, BlockizeZoneSegment(db, zone, order));
  }

  // ---- Reclaiming ----

  /** An entry still reaches an object stored in the segment. */
  predicate Referenced(entries: Entries, store: Store, s: SegmentId) {
    exists k :: k in entries && entries[k].payload.content.Some?
                && entries[k].payload.content.value in store.objects
                && store.objects[entries[k].payload.content.value].segment == Some(s)
  }

  function Unreferenced(entries: Entries, store: Store): set<SegmentId> {
    set s | s in store.segments && store.segments[s] && !Referenced(entries, store, s)
  }

  /** Dropping a segment's table removes its blocks; its objects and its own row go with it. */
  function DropSegments(store: Store, gone: set<SegmentId>): Store {
    var dropped := set o | o in store.objects && store.objects[o].segment.Some? && store.objects[o].segment.value in gone;
    var emptied := set o | o in store.rows && store.rows[o].segment.Some? && store.rows[o].segment.value in gone;
    store.(objects := store.objects - dropped, rows := store.rows - emptied, segments := store.segments - gone)
  }

  /** `reclaim_content_segments`. */
  function Reclaim(db: Tables): Tables {
    db.(store := DropSegments(db.store, Unreferenced(db.entries, db.store)))
  }

  lemma DropKeepsPayload(entries: Entries, store: Store, k: Key)
    requires StoreOk(store) && Payloads(entries, store) && k in entries
    ensures var s := DropSegments(store, Unreferenced(entries, store));
            PayloadOk(s, entries[k].payload) && NodeOf(s, entries[k]) == NodeOf(store, entries[k])
  {
    hide ValidUtf8, Bodies, Contiguous, LineAligned;
    var p := entries[k].payload;
    assert PayloadOk(store, p);
    if p.kind == File && p.content.Some? {
      var o := p.content.value;
      assert o in store.rows && ObjectOk(store, o);
      if store.objects[o].segment.Some? {
        assert Referenced(entries, store, store.objects[o].segment.value);
      }
    }
  }

  lemma DropKeepsStore(store: Store, gone: set<SegmentId>)
    requires StoreOk(store)
    ensures StoreOk(DropSegments(store, gone))
  {
    hide Bodies, Contiguous, LineAligned;
    var s := DropSegments(store, gone);
    assert forall o :: o in store.objects ==> ObjectOk(store, o);
    assert s.objects.Keys == s.rows.Keys;
  }

  /** Reclaiming never drops a block an entry still reaches. */
  lemma ReclaimKeepsNodes(db: Tables)
    requires StoreOk(db.store) && Payloads(db.entries, db.store)
    ensures var r := Reclaim(db); StoreOk(r.store) && Payloads(r.entries, r.store) && SameNodes(db, r)
  {
    hide StoreOk, PayloadOk, NodeOf, DropSegments;
    var r := Reclaim(db);
    DropKeepsStore(db.store, Unreferenced(db.entries, db.store));
    forall k | k in db.entries
      ensures PayloadOk(r.store, r.entries[k].payload) && NodeOf(r.store, r.entries[k]) == NodeOf(db.store, db.entries[k])
    {
      DropKeepsPayload(db.entries, db.store, k);
    }
  }

  /** It keeps the tree, and leaves every published segment of the volume referenced. */
  lemma ReclaimKeepsTree(db: Tables)
    requires Inv(db)
    ensures Inv(Reclaim(db)) && TreeOf(Reclaim(db)) == TreeOf(db)
    ensures SameNodes(db, Reclaim(db))
    ensures AllReferenced(Reclaim(db))
  {
    hide Namespace, TreeOf, StoreOk, Payloads, NodeOf, DropSegments, AllReferenced;
    ReclaimKeepsNodes(db);
    SameTree(db, Reclaim(db));
    ReclaimLeavesReferenced(db);
  }

  /** An entry reaches the segment through its content object. */
  ghost predicate Reaches(db: Tables, s: SegmentId) {
    exists k :: k in db.entries && db.entries[k].payload.content.Some?
                && db.entries[k].payload.content.value in db.store.objects
                && db.store.objects[db.entries[k].payload.content.value].segment == Some(s)
  }

  /** Exactly the published segments that no entry reaches go, with exactly their objects and rows. */
  lemma ReclaimIs(db: Tables)
    requires StoreOk(db.store)
    ensures var a, b := db.store, Reclaim(db).store;
            && Reclaim(db) == db.(store := b) && b.nextObject == a.nextObject && b.nextSegment == a.nextSegment
            && (forall s :: s in b.segments <==> s in a.segments && (a.segments[s] ==> Reaches(db, s)))
            && (forall s :: s in b.segments ==> b.segments[s] == a.segments[s])
            && (forall o :: o in b.objects <==> o in a.objects && (a.objects[o].segment.Some? ==> a.objects[o].segment.value in b.segments))
            && (forall o :: o in b.objects ==> o in b.rows && b.objects[o] == a.objects[o] && b.rows[o] == a.rows[o])
            && b.rows.Keys == b.objects.Keys
  {
    hide Bodies, Contiguous, LineAligned;
    forall s ensures Reaches(db, s) <==> Referenced(db.entries, db.store, s) {}
  }

  /** Every published segment is referenced. */
  ghost predicate AllReferenced(db: Tables) {
    forall s :: s in db.store.segments && db.store.segments[s] ==> Reaches(db, s)
  }

  lemma ReclaimLeavesReferenced(db: Tables)
    requires StoreOk(db.store)
    ensures AllReferenced(Reclaim(db))
  {
    hide Bodies, Contiguous, LineAligned;
    var r := Reclaim(db);
    forall s | s in r.store.segments && r.store.segments[s] ensures Reaches(r, s) {
      assert Referenced(db.entries, db.store, s);
      var k :| k in db.entries && db.entries[k].payload.content.Some?
               && db.entries[k].payload.content.value in db.store.objects
               && db.store.objects[db.entries[k].payload.content.value].segment == Some(s);
      assert db.entries[k].payload.content.value in r.store.objects;
    }
  }

  // ---- Reading ----

  datatype ReadError = NotRegular | Missing | TooLarge | InvalidRange | Raised

  const WHOLE_READ_LIMIT := 134217728

  const RANGE_LIMIT := 16777216

  /** `read_file`. */
  ghost function ReadFile(db: Tables, p: Path): Result<Bytes, ReadError>
    requires HasRoot(db.zones)
  {
    var l := Locate(db.zones, p);
    var key := Key(l.zone, l.rel);
    if l.rel == [] then Failure(NotRegular)
    else if key !in db.entries || db.entries[key].payload.kind != File then Failure(Missing)
    else
      var payload := db.entries[key].payload;
      if payload.content.Some? && payload.content.value in db.store.objects
         && db.store.objects[payload.content.value].size > WHOLE_READ_LIMIT then Failure(TooLarge)
      else Success(Denote(db.store, payload))
  }

  /** `read_range`. */
  ghost function ReadRange(db: Tables, p: Path, start: int, count: int): Result<Bytes, ReadError>
    requires HasRoot(db.zones)
  {
    if start < 0 || count < 0 || count > RANGE_LIMIT then Failure(InvalidRange)
    else
      var l := Locate(db.zones, p);
      var key := Key(l.zone, l.rel);
      if key !in db.entries then Failure(Missing)
      else
        var payload := db.entries[key].payload;
        if payload.kind != File then Failure(NotRegular)
        else if start >= payload.size || count == 0 then Success([])
        else
          var r := RangeOfPayload(db.store, payload, start, count);
          if r.Some? then Success(r.value) else Failure(Raised)
  }

  /** The content of the file at a path is a stored object; otherwise it is in its row. */
  ghost predicate IsStoredAt(db: Tables, p: Path) {
    exists k :: k in db.entries && PathOf(db.zones, k) == p && db.entries[k].payload.content.Some?
  }

  lemma AddressedRow(db: Tables, p: Path)
    requires Namespace(db.zones, db.entries, db.nextId)
    ensures HasRoot(db.zones)
    ensures var l := Locate(db.zones, p); var key := Key(l.zone, l.rel);
            && (l.rel == [] <==> IsZonePath(db, p))
            && (l.rel != [] && key in db.entries ==> (IsStoredAt(db, p) <==> db.entries[key].payload.content.Some?))
  {
    hide EntryParents, ZoneParents, Labelled, IdsUnique, Homed, NamesValid, Locate;
    LookupFinds(db, p);
    var l := Locate(db.zones, p);
    var key := Key(l.zone, l.rel);
    if z :| z in db.zones && db.zones[z].path == p {
      assert IsDeepest(db.zones, p, z);
      LocateIsCanonical(db.zones, p, z, []);
    }
    if l.rel == [] { assert db.zones[l.zone].path == p; }
    if key in db.entries {
      assert PathOf(db.zones, key) == p;
      forall k | k in db.entries && PathOf(db.zones, k) == p ensures k == key { PathsUnique(db.zones, db.entries, k, key); }
    }
  }

  /** A whole-file read gives the bytes of the node, unless they are a stored object over the limit; it
      says why there are none to read. */
  lemma ReadFileReadsTree(db: Tables, p: Path)
    requires Inv(db)
    ensures HasRoot(db.zones)
    ensures var t := TreeOf(db);
            ReadFile(db, p) ==
            if p !in t then Failure(Missing)
            else if t[p].kind != File then Failure(if IsZonePath(db, p) then NotRegular else Missing)
            else if IsStoredAt(db, p) && |t[p].bytes| > WHOLE_READ_LIMIT then Failure(TooLarge)
            else Success(t[p].bytes)
  {
    hide TreeOf, ValidUtf8, Bodies, Contiguous, LineAligned, Namespace, IsZonePath, IsStoredAt, HasRoot, IsDeepest;
    LookupFinds(db, p);
    NamespaceParts(db);
    AddressedRow(db, p);
    var l := Locate(db.zones, p);
    hide Locate, Denote;
    if l.rel != [] && Key(l.zone, l.rel) in db.entries {
      ContentSize(db, Key(l.zone, l.rel));
    }
  }

  lemma ContentSize(db: Tables, k: Key)
    requires StoreOk(db.store) && Payloads(db.entries, db.store) && k in db.entries
    ensures var payload := db.entries[k].payload;
            payload.kind == File ==>
              && payload.size == |Denote(db.store, payload)|
              && (payload.content.Some? ==>
                    && payload.content.value in db.store.objects && payload.content.value in db.store.rows
                    && db.store.objects[payload.content.value].size == payload.size
                    && Denote(db.store, payload) == Bodies(db.store.rows[payload.content.value].blocks)
                    && Contiguous(db.store.rows[payload.content.value].blocks, 0, 1)
                    && LineAligned(db.store.rows[payload.content.value].blocks))
  {
    hide ValidUtf8, Bodies, Contiguous, LineAligned;
    assert PayloadOk(db.store, db.entries[k].payload);
  }

  /** The bytes of a range of one payload; None where PostgreSQL would raise. */
  ghost function RangeOfPayload(store: Store, payload: Payload, start: nat, count: nat): Option<Bytes>
    requires start < payload.size
  {
    match payload.content
    case None => Substring(Denote(store, payload), start + 1, count)
    case Some(o) => if o in store.rows then RangeOfBlocks(store.rows[o].blocks, payload.size, start, count) else Some([])
  }

  lemma RangeOfPayloadIsSlice(db: Tables, k: Key, start: nat, count: nat)
    requires StoreOk(db.store) && Payloads(db.entries, db.store) && k in db.entries
    requires db.entries[k].payload.kind == File && start < db.entries[k].payload.size && count > 0
    ensures var bytes := Denote(db.store, db.entries[k].payload);
            && |bytes| == db.entries[k].payload.size
            && RangeOfPayload(db.store, db.entries[k].payload, start, count) ==
               Some(bytes[start..Min(start + count, |bytes|)])
  {
    hide ValidUtf8, Contiguous, LineAligned, Pieces, LastOffsetUpTo, StoreOk, Payloads, RangeOfBlocks;
    ContentSize(db, k);
    var payload := db.entries[k].payload;
    if payload.content.Some? {
      RangeOfBlocksIsSlice(db.store.rows[payload.content.value].blocks, start, count);
    }
  }

  /** The entry behind a file of the tree. */
  lemma FileAddress(db: Tables, p: Path)
    requires Namespace(db.zones, db.entries, db.nextId) && p in TreeOf(db) && TreeOf(db)[p].kind == File
    ensures HasRoot(db.zones)
    ensures var l := Locate(db.zones, p);
            && Key(l.zone, l.rel) in db.entries
            && db.entries[Key(l.zone, l.rel)].payload.kind == File
            && Denote(db.store, db.entries[Key(l.zone, l.rel)].payload) == TreeOf(db)[p].bytes
  {
    hide TreeOf, Namespace, Denote, Locate, AllPaths;
    NamespaceParts(db);
    LookupFinds(db, p);
  }

  /** A range read of a file gives exactly the range of its bytes, for every accepted range. */
  lemma ReadRangeIsSlice(db: Tables, p: Path, start: nat, count: nat)
    requires Inv(db) && count <= RANGE_LIMIT
    requires p in TreeOf(db) && TreeOf(db)[p].kind == File
    ensures HasRoot(db.zones)
    ensures ReadRange(db, p, start, count) == Success(Slice(TreeOf(db)[p].bytes, start, count))
  {
    hide TreeOf, Namespace, StoreOk, Payloads, Denote, Locate, RangeOfPayload, AllPaths;
    FileAddress(db, p);
    var l := Locate(db.zones, p);
    var k := Key(l.zone, l.rel);
    ContentSize(db, k);
    if start < db.entries[k].payload.size && count > 0 {
      RangeOfPayloadIsSlice(db, k, start, count);
    } else if start < db.entries[k].payload.size {
      assert TreeOf(db)[p].bytes[start..start] == [];
    }
  }

  /** A range read refuses a range out of bounds, a missing path or a zone, and what is no regular file;
      otherwise it gives that slice of the bytes. */
  lemma ReadRangeReadsTree(db: Tables, p: Path, start: int, count: int)
    requires Inv(db)
    ensures HasRoot(db.zones)
    ensures var t := TreeOf(db);
            ReadRange(db, p, start, count) ==
            if start < 0 || count < 0 || count > 16777216 then Failure(InvalidRange)
            else if p !in t || IsZonePath(db, p) then Failure(Missing)
            else if t[p].kind != File then Failure(NotRegular)
            else Success(Slice(t[p].bytes, start, count))
  {
    hide TreeOf, Namespace, StoreOk, Payloads, IsZonePath, IsStoredAt, HasRoot, IsDeepest, RangeOfPayload;
    LookupFinds(db, p);
    NamespaceParts(db);
    AddressedRow(db, p);
    var l := Locate(db.zones, p);
    hide Locate, Denote;
    if Key(l.zone, l.rel) in db.entries { EntriesNamed(db, l); }
    if start >= 0 && 0 <= count <= RANGE_LIMIT && p in TreeOf(db) && TreeOf(db)[p].kind == File {
      ReadRangeIsSlice(db, p, start, count);
    }
  }

  lemma EntriesNamed(db: Tables, l: Location)
    requires NamesValid(db.zones, db.entries) && Key(l.zone, l.rel) in db.entries
    ensures l.rel != []
  {
  }
}
