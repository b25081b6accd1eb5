/** Importing one large text: its blocks become a content object in a segment of its own, which is
    published and attached to the target file. */
module Publishing {
  import opened Basics
  import opened Paths
  import opened Utf8
  import opened Blocks
  import opened Tables
  import opened Grafting
  import opened Content
  import opened Commands
  import opened Addresses
  import opened Creating
  import opened TextImport
  import Grep

  // ---- What may be imported ----

  /** The lines of the text behind a line start are those told by the positions. */
  lemma {:induction false} LinesFitIff(data: Bytes, max: nat, start: nat)
    requires start <= |data| && (start == |data| || LineStart(data, start))
    ensures (forall p :: start <= p < |data| && LineStart(data, p) ==> LineEnd(data, p) - p <= max) <==>
            forall i :: 0 <= i < |Grep.Lines(data[start..])| ==> |Grep.Lines(data[start..])[i]| <= max
    decreases |data| - start
  {
    if start < |data| {
      var end := LineEnd(data, start);
      WholeLine(data, start);
      hide *;
      LinesFitIff(data, max, end);
      LinesBehind(data, start);
      OneMoreFits(data[start..end], Grep.Lines(data[end..]), max);
    }
  }

  lemma OneMoreFits(first: Bytes, rest: seq<Bytes>, max: nat)
    ensures var lines := [first] + rest;
            (forall i :: 0 <= i < |lines| ==> |lines[i]| <= max) <==> |first| <= max && forall i :: 0 <= i < |rest| ==> |rest[i]| <= max
  {
    var lines := [first] + rest;
    forall i | 0 <= i < |rest| ensures lines[i + 1] == rest[i] {}
    assert lines[0] == first;
  }

  lemma LinesBehind(data: Bytes, start: nat)
    requires start < |data|
    ensures var end := LineEnd(data, start); Grep.Lines(data[start..]) == [data[start..end]] + Grep.Lines(data[end..])
  {
    hide NewlineFrom;
    var text, end := data[start..], LineEnd(data, start);
    NewlineFromShift(data, start, 0);
    assert Min(NewlineFrom(text, 0) + 1, |text|) == end - start;
    assert text[..end - start] == data[start..end] && text[end - start..] == data[end..];
  }

  /** The importer accepts exactly the encodings of code points other than NUL and surrogates of which no
      line, with its newline, is longer than 16 MiB. */
  lemma ImportableIff(data: Bytes)
    ensures Importable(data) <==>
              && 0 !in data
              && (exists cs :: AllScalars(cs) && data == EncodeAll(cs))
              && exists lines :: Grep.AreLines(lines, data) && forall i :: 0 <= i < |lines| ==> |lines[i]| <= MAX_LINE
  {
    hide ValidUtf8, EncodeAll, AllScalars, Grep.AreLines, Grep.Lines;
    ValidUtf8Iff(data);
    Grep.LinesAreLines(data);
    assert data[0..] == data;
    LinesFitIff(data, MAX_LINE, 0);
    forall lines | Grep.AreLines(lines, data) ensures lines == Grep.Lines(data) { Grep.LinesUnique(lines, Grep.Lines(data), data); }
  }

  /** The content tables with the text's blocks as a new object in a new, published segment. */
  function Loaded(store: Store, data: Bytes): Store {
    var segment := store.nextSegment;
    var staged := store.(segments := store.segments[segment := false], nextSegment := segment + 1);
    var loaded := Stored(staged, store.nextObject, Object(|data|, Some(segment)), SplitText(data, BLOCK_SIZE - 1));
    loaded.(segments := loaded.segments[segment := true])
  }

  /** `publish_content`'s update of the entry with the written file's id. */
  function AttachContent(entries: Entries, id: NodeId, o: ObjectId, size: nat): Entries {
    map k | k in entries ::
      if entries[k].id == id then entries[k].(payload := entries[k].payload.(content := Some(o), size := size))
      else entries[k]
  }

  /** `import_text`. */
  ghost function ImportText(db: Tables, p: Path, data: Bytes): Outcome
    requires HasRoot(db.zones)
  {
    if !Importable(data) then Failure(BadText)
    else
      match WriteInline(db.(store := Loaded(db.store, data)), p, [])
      case Failure(e) => Failure(e)
      case Success(written) =>
        var entries := AttachContent(written.db.entries, written.count, db.store.nextObject, |data|);
        Success(Done(written.db.(entries := entries), written.count))
  }

  lemma LoadedOk(db: Tables, data: Bytes)
    requires StoreOk(db.store) && Payloads(db.entries, db.store)
    ensures var a := db.(store := Loaded(db.store, data)); var o := db.store.nextObject;
            && StoreOk(a.store) && Payloads(a.entries, a.store) && SameNodes(db, a)
            && o in a.store.objects && o in a.store.rows && Bodies(a.store.rows[o].blocks) == data
  {
    hide StoreOk, ValidUtf8, SplitText, Contiguous, LineAligned, Bodies;
    var segment, o := db.store.nextSegment, db.store.nextObject;
    var blocks := SplitText(data, BLOCK_SIZE - 1);
    SplitTextPartitions(data, BLOCK_SIZE - 1);
    SegmentMarked(db.store, segment, false);
    var staged := db.store.(segments := db.store.segments[segment := false], nextSegment := segment + 1);
    FreshObject(db.store);
    StoredOk(staged, o, Object(|data|, Some(segment)), blocks);
    var loaded := Stored(staged, o, Object(|data|, Some(segment)), blocks);
    SegmentMarked(loaded, segment, true);
    var a := db.(store := Loaded(db.store, data));
    forall k | k in db.entries
      ensures PayloadOk(a.store, db.entries[k].payload) && NodeOf(db.store, db.entries[k]) == NodeOf(a.store, db.entries[k])
    {
      LoadedKeeps(db.store, data, db.entries[k].payload);
    }
  }

  lemma FreshObject(store: Store)
    requires StoreOk(store)
    ensures store.nextObject !in store.objects
  {
    hide Contiguous, LineAligned, Bodies;
  }

  lemma LoadedKeeps(store: Store, data: Bytes, payload: Payload)
    requires StoreOk(store) && PayloadOk(store, payload)
    ensures PayloadOk(Loaded(store, data), payload)
    ensures payload.kind == File ==> Denote(Loaded(store, data), payload) == Denote(store, payload)
  {
    hide ValidUtf8, Bodies, SplitText, Contiguous, LineAligned, StoreOk;
    FreshObject(store);
  }

  lemma WrittenEntry(db: Tables, p: Path, data: Bytes)
    requires HasRoot(db.zones) && WriteInline(db, p, data).Success?
    ensures p != []
    ensures var w, key := WriteInline(db, p, data).value, EntryKey(db.zones, p);
            && key in w.db.entries && w.db.entries[key].payload == InlineFile(data) && w.db.entries[key].id == w.count
            && w.db.store == db.store && w.db.zones == db.zones
  {
    hide KindOf, EntryKey, InlineFile, WriteInline;
    WriteUnfolds(db, p, data);
  }

  lemma AttachIsOne(zones: Zones, entries: Entries, nextId: NodeId, k: Key, o: ObjectId, size: nat)
    requires IdsUnique(zones, entries, nextId) && k in entries
    ensures AttachContent(entries, entries[k].id, o, size) ==
            entries[k := entries[k].(payload := entries[k].payload.(content := Some(o), size := size))]
  {
  }

  /** The written file's row attached to the loaded object. */
  lemma AttachMeansNode(db: Tables, k: Key, o: ObjectId, data: Bytes)
    requires Inv(db) && k in db.entries && db.entries[k].payload == InlineFile([])
    requires o in db.store.objects && o in db.store.rows && Bodies(db.store.rows[o].blocks) == data
    ensures var a := db.(entries := AttachContent(db.entries, db.entries[k].id, o, |data|));
            && Inv(a)
            && TreeOf(a) == TreeOf(db)[PathOf(db.zones, k) := Node(db.entries[k].id, File, data, None)]
  {
    hide Namespace, TreeOf, StoreOk, Payloads, PathOf, AttachContent, IdsUnique, Bodies, Contiguous, LineAligned;
    NamespaceParts(db);
    AttachIsOne(db.zones, db.entries, db.nextId, k, o, |data|);
    EmptyInline();
    var payload := InlineFile([]).(content := Some(o), size := |data|);
    assert Denote(db.store, payload) == data;
    EmptyIsValid();
    hide ValidUtf8;
    RewritePayload(db, k, payload, db.nextId);
    AddPayloadOk(db.entries, db.store, k, db.entries[k].(payload := payload));
  }

  lemma EmptyInline()
    ensures InlineFile([]) == Payload(File, Some([]), None, None, 0, None)
  {
  }

  /** The content tables with one object more, the blocks of the text, which has a new segment for itself;
      the segment is published, everything else is as before. */
  ghost predicate InOwnSegment(a: Store, b: Store, o: ObjectId, segment: SegmentId, data: Bytes) {
    && o !in a.rows && segment !in a.segments && (forall x :: x in a.rows ==> a.rows[x].segment != Some(segment))
    && b.rows == a.rows[o := Rows(Some(segment), SplitText(data, BLOCK_SIZE - 1))]
    && b.objects == a.objects[o := Object(|data|, Some(segment))]
    && b.segments == a.segments[segment := true]
  }

  lemma LoadedApart(store: Store, data: Bytes)
    requires StoreOk(store)
    ensures InOwnSegment(store, Loaded(store, data), store.nextObject, store.nextSegment, data)
  {
    hide Contiguous, LineAligned, Bodies, SplitText;
    FreshObject(store);
    forall x | x in store.rows ensures store.rows[x].segment != Some(store.nextSegment) {
      assert x in store.objects && ObjectOk(store, x);
    }
  }

  /** The row of the file at a path reaches the object. */
  ghost predicate HoldsObject(db: Tables, p: Path, o: ObjectId) {
    exists k :: k in db.entries && PathOf(db.zones, k) == p && db.entries[k].payload.content == Some(o)
  }

  lemma ImportedTextIsStored(db: Tables, p: Path, data: Bytes)
    requires Inv(db) && HasRoot(db.zones) && ImportText(db, p, data).Success?
    ensures var b, o := ImportText(db, p, data).value.db, db.store.nextObject;
            InOwnSegment(db.store, b.store, o, db.store.nextSegment, data) && HoldsObject(b, p, o)
  {
    hide Inv, WriteInline, Importable, Loaded, HasRoot, EntryKey, InlineFile, StoreOk, InOwnSegment, PathOf;
    var a := db.(store := Loaded(db.store, data));
    InvHasStore(db);
    LoadedApart(db.store, data);
    WrittenEntry(a, p, []);
    EntryKeyPath(db.zones, p);
    var w, key := WriteInline(a, p, []).value, EntryKey(db.zones, p);
    assert key in ImportText(db, p, data).value.db.entries;
  }

  lemma InvHasStore(db: Tables)
    requires Inv(db)
    ensures StoreOk(db.store)
  {
    hide Namespace, StoreOk, Payloads;
  }

  /** An accepted text is there exactly, in blocks of a segment of its own; every other node is as
      before. */
  lemma ImportTextMeansTree(db: Tables, p: Path, data: Bytes)
    requires Inv(db) && ValidPath(p) && !IsZonePath(db, p)
    ensures HasRoot(db.zones)
    ensures !Importable(data) ==> ImportText(db, p, data) == Failure(BadText)
    ensures Importable(data) && WriteRefusal(TreeOf(db), p).Some? ==>
              ImportText(db, p, data) == Failure(WriteRefusal(TreeOf(db), p).value)
    ensures Importable(data) && WriteRefusal(TreeOf(db), p).None? ==>
              && ImportText(db, p, data).Success?
              && ImportText(db, p, data).value.count == WrittenId(TreeOf(db), p, db.nextId)
              && Inv(ImportText(db, p, data).value.db)
              && TreeOf(ImportText(db, p, data).value.db) ==
                 TreeOf(db)[p := Node(WrittenId(TreeOf(db), p, db.nextId), File, data, None)]
              && InOwnSegment(db.store, ImportText(db, p, data).value.db.store, db.store.nextObject, db.store.nextSegment, data)
              && HoldsObject(ImportText(db, p, data).value.db, p, db.store.nextObject)
  {
    hide InOwnSegment, HoldsObject, Namespace, TreeOf, StoreOk, Payloads, WriteInline, Importable, Loaded, SameNodes,
         WriteRefusal, AttachContent, HasRoot, WrittenId, Bodies, PathOf, EntryKey, InlineFile, FreshId, ValidPath;
    NamespaceParts(db);
    LoadedOk(db, data);
    var a := db.(store := Loaded(db.store, data));
    assert !IsZonePath(a, p);
    hide IsZonePath;
    SameTree(db, a);
    WriteInlineMeansTree(a, p, []);
    if Importable(data) && WriteRefusal(TreeOf(db), p).None? {
      WrittenEntry(a, p, []);
      EntryKeyPath(db.zones, p);
      var w := WriteInline(a, p, []).value;
      AttachMeansNode(w.db, EntryKey(db.zones, p), db.store.nextObject, data);
      ImportedTextIsStored(db, p, data);
    }
  }
}
