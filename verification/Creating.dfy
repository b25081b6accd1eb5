/** mkdir and write: what they do to the tree, and when they refuse. */
module Creating {
  import opened Basics
  import opened Paths
  import opened Tables
  import opened Trees
  import opened Surgery
  import opened Grafting
  import opened Content
  import opened Commands
  import opened Addresses

  /** `id` is carried by no node of the tree. */
  ghost predicate FreshId(t: Tree, id: NodeId) { forall q :: q in t ==> t[q].id != id }

  lemma NextIdIsFresh(db: Tables)
    requires Namespace(db.zones, db.entries, db.nextId)
    ensures FreshId(TreeOf(db), db.nextId)
  {
    hide Namespace, TreeOf, IsTree, IdsDistinct, ValidPath;
    RowsMakeTree(db);
  }

  // ---- mkdir ----

  ghost function MkdirRefusal(t: Tree, p: Path): Option<Error> {
    if p in t then Some(PathExists)
    else if p == [] || TreeKind(t, DropLast(p)) != Some(Dir) then Some(NoParent)
    else None
  }

  /** The row a new node gets. */
  ghost function NewEntry(db: Tables, p: Path, payload: Payload): Entry
    requires HasRoot(db.zones) && p != []
  {
    Entry(db.nextId, DropLast(EntryKey(db.zones, p).rel), Last(p), payload)
  }

  ghost function WithEntry(db: Tables, p: Path, e: Entry): Tables
    requires HasRoot(db.zones) && p != []
  {
    db.(entries := db.entries[EntryKey(db.zones, p) := e], nextId := db.nextId + 1)
  }

  lemma MkdirUnfolds(db: Tables, p: Path)
    requires HasRoot(db.zones) && p != []
    ensures KindOf(db, p).Some? ==> Mkdir(db, p) == Failure(PathExists)
    ensures KindOf(db, p).None? && !ParentIsDirectory(db, p) ==> Mkdir(db, p) == Failure(NoParent)
    ensures KindOf(db, p).None? && ParentIsDirectory(db, p) ==>
              Mkdir(db, p) == Success(Done(WithEntry(db, p, NewEntry(db, p, DIRECTORY)), 1))
  {
    hide KindOf, ParentIsDirectory, EntryKey;
  }

  /** Adding a valid node's row keeps the invariant and adds exactly that node. */
  lemma NewEntryMeansNode(db: Tables, p: Path, payload: Payload)
    requires Inv(db) && ValidPath(p) && p != [] && p !in TreeOf(db)
    requires TreeKind(TreeOf(db), DropLast(p)) == Some(Dir) && PayloadOk(db.store, payload)
    ensures HasRoot(db.zones)
    ensures var e := NewEntry(db, p, payload); var b := WithEntry(db, p, e);
            && Inv(b) && TreeOf(b) == TreeOf(db)[p := NodeOf(db.store, e)] && EntryKey(db.zones, p) !in db.entries
  {
    hide Namespace, TreeOf, EntryKey, StoreOk, Payloads, NodeOf, PayloadOk;
    AddEntry(db, p, payload);
    AddPayloadOk(db.entries, db.store, EntryKey(db.zones, p), NewEntry(db, p, payload));
  }

  /** mkdir adds exactly one directory with a fresh id, and refuses exactly where the tree says. */
  lemma MkdirMeansTree(db: Tables, p: Path)
    requires Inv(db) && ValidPath(p) && p != []
    ensures HasRoot(db.zones)
    ensures MkdirRefusal(TreeOf(db), p).Some? ==> Mkdir(db, p) == Failure(MkdirRefusal(TreeOf(db), p).value)
    ensures MkdirRefusal(TreeOf(db), p).None? ==>
              && Mkdir(db, p).Success?
              && Inv(Mkdir(db, p).value.db) && FreshId(TreeOf(db), db.nextId)
              && TreeOf(Mkdir(db, p).value.db) == TreeOf(db)[p := Node(db.nextId, Dir, [], None)]
              && Mkdir(db, p).value.db.store == db.store
  {
    hide Inv, TreeOf, KindOf, FreshId, Mkdir, PayloadOk, ParentIsDirectory;
    InvHasNamespace(db);
    ParentMeansTree(db, p);
    LookupKind(db, p);
    NextIdIsFresh(db);
    MkdirUnfolds(db, p);
    if MkdirRefusal(TreeOf(db), p).None? {
      DirectoryOk(db.store);
      NewEntryMeansNode(db, p, DIRECTORY);
    }
  }

  lemma DirectoryOk(store: Store)
    ensures PayloadOk(store, DIRECTORY)
  {
  }

  lemma LookupKind(db: Tables, p: Path)
    requires Namespace(db.zones, db.entries, db.nextId)
    ensures HasRoot(db.zones) && KindOf(db, p) == TreeKind(TreeOf(db), p)
  {
    hide TreeOf, KindOf, Namespace;
    NamespaceParts(db);
    LookupFinds(db, p);
  }

  lemma InvHasNamespace(db: Tables)
    requires Inv(db)
    ensures Namespace(db.zones, db.entries, db.nextId) && StoreOk(db.store) && Payloads(db.entries, db.store)
  {
    hide Namespace, StoreOk, Payloads;
  }

  lemma AddPayloadOk(entries: Entries, store: Store, k: Key, e: Entry)
    requires Payloads(entries, store) && PayloadOk(store, e.payload)
    ensures Payloads(entries[k := e], store)
  {
    hide PayloadOk;
  }

  /** The tree with the missing leading parts of `p`, up to `upto` names, made directories. */
  ghost predicate WithParents(t: Tree, u: Tree, p: Path, upto: nat)
    requires upto <= |p|
  {
    && (forall q :: q in u <==> q in t || (q <= p && |q| <= upto))
    && (forall q :: q in t ==> u[q] == t[q])
    && forall q :: q in u && q !in t ==> u[q].kind == Dir
  }

  /** Some leading part of `p` is not a directory. */
  ghost predicate BlockedParents(t: Tree, p: Path) {
    exists k :: 0 <= k <= |p| && p[..k] in t && t[p[..k]].kind != Dir
  }

  lemma OneMoreParent(t: Tree, n: Node, w: Tree, p: Path, done: nat)
    requires done < |p| && p[..done + 1] !in t && n.kind == Dir
    ensures WithParents(t[p[..done + 1] := n], w, p, |p|) ==> WithParents(t, w, p, |p|)
    ensures BlockedParents(t[p[..done + 1] := n], p) <==> BlockedParents(t, p)
  {
    forall k | 0 <= k <= |p| && p[..k] == p[..done + 1] ensures k == done + 1 {
      assert |p[..k]| == k;
    }
  }

  ghost predicate ParentsMade(t: Tree, p: Path, done: nat)
    requires done <= |p|
  {
    forall k :: 0 <= k <= done ==> p[..k] in t && t[p[..k]].kind == Dir
  }

  lemma OneMoreMade(t: Tree, n: Node, p: Path, done: nat)
    requires done < |p| && ParentsMade(t, p, done) && n.kind == Dir
    ensures ParentsMade(t[p[..done + 1] := n], p, done + 1)
  {
  }

  lemma AllMade(t: Tree, p: Path)
    requires ParentsMade(t, p, |p|)
    ensures WithParents(t, t, p, |p|) && !BlockedParents(t, p)
  {
    assert forall q :: q <= p ==> q == p[..|q|];
  }

  lemma ParentsUnfold(db: Tables, p: Path, done: nat)
    requires HasRoot(db.zones) && done < |p|
    ensures var current := p[..done + 1];
            && (KindOf(db, current).None? && Mkdir(db, current).Success? ==>
                  MkdirParents(db, p, done) == MkdirParents(Mkdir(db, current).value.db, p, done + 1))
            && (KindOf(db, current) == Some(Dir) ==> MkdirParents(db, p, done) == MkdirParents(db, p, done + 1))
            && (KindOf(db, current).Some? && KindOf(db, current) != Some(Dir) ==> MkdirParents(db, p, done) == Failure(NotADirectory))
  {
    hide KindOf, Mkdir;
  }

  /** `mkdir -p` makes exactly the missing ancestors and the target, or refuses because some
      leading part is not a directory. */
  lemma {:induction false} MkdirParentsMeansTree(db: Tables, p: Path, done: nat)
    requires Inv(db) && ValidPath(p) && done <= |p|
    requires ParentsMade(TreeOf(db), p, done)
    ensures HasRoot(db.zones)
    ensures BlockedParents(TreeOf(db), p) ==> MkdirParents(db, p, done) == Failure(NotADirectory)
    ensures !BlockedParents(TreeOf(db), p) ==>
              && MkdirParents(db, p, done).Success?
              && Inv(MkdirParents(db, p, done).value.db)
              && WithParents(TreeOf(db), TreeOf(MkdirParents(db, p, done).value.db), p, |p|)
    decreases |p| - done
  {
    hide Inv, TreeOf, KindOf, Mkdir, MkdirRefusal, BlockedParents, WithParents, FreshId, HasRoot;
    InvHasNamespace(db);
    LookupKind(db, p);
    var t := TreeOf(db);
    if done == |p| {
      AllMade(t, p);
    } else {
      var current := p[..done + 1];
      LookupKind(db, current);
      ParentsUnfold(db, p, done);
      assert DropLast(current) == p[..done];
      if current in t && t[current].kind == Dir {
        MkdirParentsMeansTree(db, p, done + 1);
      } else if current in t {
        BlockedAt(t, p, done + 1);
      } else {
        MkdirMeansTree(db, current);
        RefusalAbsent(t, current);
        var made := Mkdir(db, current).value.db;
        var n := Node(db.nextId, Dir, [], None);
        OneMoreMade(t, n, p, done);
        MkdirParentsMeansTree(made, p, done + 1);
        OneMoreParent(t, n, if MkdirParents(made, p, done + 1).Success? then TreeOf(MkdirParents(made, p, done + 1).value.db) else t, p, done);
      }
    }
  }

  lemma BlockedAt(t: Tree, p: Path, k: nat)
    requires k <= |p| && p[..k] in t && t[p[..k]].kind != Dir
    ensures BlockedParents(t, p)
  {
  }

  lemma RefusalAbsent(t: Tree, p: Path)
    requires p != [] && p !in t && DropLast(p) in t && t[DropLast(p)].kind == Dir
    ensures MkdirRefusal(t, p).None?
  {
  }

  // ---- write ----

  ghost function WriteRefusal(t: Tree, p: Path): Option<Error> {
    if p == [] || TreeKind(t, DropLast(p)) != Some(Dir) then Some(NoParent)
    else if p in t && t[p].kind != File then Some(NotRegularFile)
    else None
  }

  /** The id a written file carries: its own if it existed, else a fresh one. */
  function WrittenId(t: Tree, p: Path, next: NodeId): NodeId { if p in t then t[p].id else next }

  lemma ExistingEntryKey(db: Tables, p: Path)
    requires Namespace(db.zones, db.entries, db.nextId) && p in TreeOf(db) && p != [] && !IsZonePath(db, p)
    ensures HasRoot(db.zones)
    ensures EntryKey(db.zones, p) in db.entries && PathOf(db.zones, EntryKey(db.zones, p)) == p
    ensures TreeOf(db)[p] == NodeOf(db.store, db.entries[EntryKey(db.zones, p)])
  {
    hide TreeOf, NodeOf, Locate, Namespace, AllPaths;
    NamespaceParts(db);
    PathIsRow(db, p);
    var k :| k in db.entries && PathOf(db.zones, k) == p;
    EntryInTree(db, k);
    EntryParentLocated(db, k);
  }

  /** An entry's key is the one computed from its path. */
  lemma EntryParentLocated(db: Tables, k: Key)
    requires Namespace(db.zones, db.entries, db.nextId) && k in db.entries
    ensures HasRoot(db.zones) && PathOf(db.zones, k) != []
    ensures EntryKey(db.zones, PathOf(db.zones, k)) == k
  {
    hide EntryParents, ZoneParents, Labelled, IdsUnique, ValidPath;
    var p, a := PathOf(db.zones, k), db.zones[k.zone].path;
    DeepestOfEntry(db.zones, db.entries, k);
    assert DropLast(p) == a + DropLast(k.rel);
    assert IsDeepest(db.zones, DropLast(p), k.zone) by {
      assert a <= DropLast(p);
      assert DropLast(p) <= p;
    }
    LocateIsCanonical(db.zones, DropLast(p), k.zone, DropLast(k.rel));
    assert DropLast(k.rel) + [Last(k.rel)] == k.rel && Last(p) == Last(k.rel);
  }

  lemma WriteUnfolds(db: Tables, p: Path, data: Bytes)
    requires HasRoot(db.zones)
    ensures !ParentIsDirectory(db, p) ==> WriteInline(db, p, data) == Failure(NoParent)
    ensures ParentIsDirectory(db, p) ==>
              var key := EntryKey(db.zones, p);
              && (key !in db.entries ==>
                    WriteInline(db, p, data) == Success(Done(WithEntry(db, p, NewEntry(db, p, InlineFile(data))), db.nextId)))
              && (key in db.entries && db.entries[key].payload.kind != File ==>
                    WriteInline(db, p, data) == Failure(NotRegularFile))
              && (key in db.entries && db.entries[key].payload.kind == File ==>
                    WriteInline(db, p, data) ==
                    Success(Done(WithEntry(db, p, db.entries[key].(payload := InlineFile(data))), db.entries[key].id)))
  {
    hide KindOf, EntryKey, InlineFile;
  }

  lemma ExistingFile(db: Tables, p: Path)
    requires Namespace(db.zones, db.entries, db.nextId) && p != [] && p in TreeOf(db) && TreeOf(db)[p].kind == File
    requires !IsZonePath(db, p)
    ensures HasRoot(db.zones)
    ensures var key := EntryKey(db.zones, p);
            && key in db.entries && db.entries[key].payload.kind == File && db.entries[key].id == TreeOf(db)[p].id
            && PathOf(db.zones, key) == p
  {
    hide Namespace, TreeOf, EntryKey, Denote, IsZonePath, PathOf, AllPaths;
    ExistingEntryKey(db, p);
  }

  lemma FileNode(store: Store, e: Entry, data: Bytes)
    ensures NodeOf(store, e.(payload := InlineFile(data))) == Node(e.id, File, data, None)
  {
    hide Utf8OrNull;
    InlineFileOk(store, data);
  }

  lemma OverwriteMeansNode(db: Tables, p: Path, data: Bytes)
    requires Inv(db) && p != [] && p in TreeOf(db) && TreeOf(db)[p].kind == File && !IsZonePath(db, p)
    ensures HasRoot(db.zones)
    ensures var key := EntryKey(db.zones, p);
            && key in db.entries && db.entries[key].payload.kind == File && db.entries[key].id == TreeOf(db)[p].id
            && var b := WithEntry(db, p, db.entries[key].(payload := InlineFile(data)));
            Inv(b) && TreeOf(b) == TreeOf(db)[p := Node(TreeOf(db)[p].id, File, data, None)]
  {
    hide Namespace, TreeOf, EntryKey, StoreOk, Payloads, InlineFile, NodeOf, PayloadOk, IsZonePath, PathOf;
    ExistingFile(db, p);
    InlineFileOk(db.store, data);
    InlineFileIsFile(data);
    var key := EntryKey(db.zones, p);
    FileNode(db.store, db.entries[key], data);
    RewritePayload(db, key, InlineFile(data), db.nextId + 1);
    AddPayloadOk(db.entries, db.store, key, db.entries[key].(payload := InlineFile(data)));
  }

  lemma NewFileMeansNode(db: Tables, p: Path, data: Bytes)
    requires Inv(db) && ValidPath(p) && p != [] && p !in TreeOf(db) && TreeKind(TreeOf(db), DropLast(p)) == Some(Dir)
    ensures HasRoot(db.zones)
    ensures var b := WithEntry(db, p, NewEntry(db, p, InlineFile(data)));
            && EntryKey(db.zones, p) !in db.entries
            && Inv(b) && TreeOf(b) == TreeOf(db)[p := Node(db.nextId, File, data, None)]
  {
    hide Inv, TreeOf, EntryKey, InlineFile, Denote, PayloadOk, WithEntry;
    InlineFileOk(db.store, data);
    InlineFileIsFile(data);
    NewEntryMeansNode(db, p, InlineFile(data));
  }

  /** write puts exactly the given bytes at the path and changes no other node; it refuses
      exactly where the tree says. The target must not be a zone. */
  lemma WriteInlineMeansTree(db: Tables, p: Path, data: Bytes)
    requires Inv(db) && ValidPath(p) && !IsZonePath(db, p)
    ensures HasRoot(db.zones)
    ensures WriteRefusal(TreeOf(db), p).Some? ==> WriteInline(db, p, data) == Failure(WriteRefusal(TreeOf(db), p).value)
    ensures WriteRefusal(TreeOf(db), p).None? ==>
              && WriteInline(db, p, data).Success?
              && WriteInline(db, p, data).value.count == WrittenId(TreeOf(db), p, db.nextId)
              && Inv(WriteInline(db, p, data).value.db)
              && WriteInline(db, p, data).value.db.zones == db.zones
              && TreeOf(WriteInline(db, p, data).value.db) ==
                 TreeOf(db)[p := Node(WrittenId(TreeOf(db), p, db.nextId), File, data, None)]
    ensures FreshId(TreeOf(db), db.nextId)
  {
    hide Inv, TreeOf, KindOf, EntryKey, FreshId, InlineFile, IsZonePath, WriteInline, ParentIsDirectory, NewEntry;
    InvHasNamespace(db);
    ParentMeansTree(db, p);
    NextIdIsFresh(db);
    WriteUnfolds(db, p, data);
    if p != [] && TreeKind(TreeOf(db), DropLast(p)) == Some(Dir) {
      if p !in TreeOf(db) {
        NewFileMeansNode(db, p, data);
      } else if TreeOf(db)[p].kind == File {
        OverwriteMeansNode(db, p, data);
      } else {
        ExistingEntryKey(db, p);
      }
    }
  }

  lemma InlineFileIsFile(data: Bytes)
    ensures InlineFile(data).kind == File && InlineFile(data).link == None
  {
  }

  /** write over a zone adds a second row for its path: the invariant survives a successful
      write if and only if the target is not a zone. */
  lemma WriteKeepsInvariantIffNoZone(db: Tables, p: Path, data: Bytes)
    requires Inv(db) && ValidPath(p) && HasRoot(db.zones) && WriteInline(db, p, data).Success?
    ensures Inv(WriteInline(db, p, data).value.db) <==> !IsZonePath(db, p)
  {
    hide Namespace, TreeOf, StoreOk, Payloads, EntryKey, KindOf, InlineFile;
    if !IsZonePath(db, p) {
      WriteInlineMeansTree(db, p, data);
    } else {
      NamespaceParts(db);
      var z :| z in db.zones && db.zones[z].path == p;
      var b := WriteInline(db, p, data).value.db;
      var key := EntryKey(db.zones, p);
      assert key in b.entries && b.zones == db.zones;
      EntryKeyPath(db.zones, p);
      if Namespace(b.zones, b.entries, b.nextId) {
        NamespaceParts(b);
        EntryIsNotZone(b.zones, b.entries, key, z);
      }
    }
  }

  lemma EntryKeyPath(zones: Zones, p: Path)
    requires HasRoot(zones) && p != []
    ensures PathOf(zones, EntryKey(zones, p)) == p
  {
    var l := Locate(zones, DropLast(p));
    ChildAddress(zones[l.zone].path, l.rel, p);
  }

  /** A whole write: the bytes are there, every other node is as before, and every published
      segment is still referenced. */
  lemma WriteFileMeansTree(db: Tables, p: Path, data: Bytes, order: RowOrder)
    requires Inv(db) && ValidPath(p) && !IsZonePath(db, p)
    ensures HasRoot(db.zones)
    ensures WriteRefusal(TreeOf(db), p).Some? ==> WriteFile(db, p, data, order) == Failure(WriteRefusal(TreeOf(db), p).value)
    ensures WriteRefusal(TreeOf(db), p).None? ==>
              && WriteFile(db, p, data, order).Success?
              && WriteFile(db, p, data, order).value.count == WrittenId(TreeOf(db), p, db.nextId)
              && Inv(WriteFile(db, p, data, order).value.db)
              && TreeOf(WriteFile(db, p, data, order).value.db) ==
                 TreeOf(db)[p := Node(WrittenId(TreeOf(db), p, db.nextId), File, data, None)]
              && AllReferenced(WriteFile(db, p, data, order).value.db)
    ensures FreshId(TreeOf(db), db.nextId)
  {
    hide Inv, TreeOf, WriteInline, IsZonePath, FreshId, BlockizeZone, Reclaim, AllReferenced, SameNodes, WriteRefusal, WrittenId, Locate;
    WriteInlineMeansTree(db, p, data);
    if WriteRefusal(TreeOf(db), p).None? {
      var inline := WriteInline(db, p, data).value.db;
      var zone := Locate(db.zones, p).zone;
      BlockizeKeepsTree(inline, zone, order);
      ReclaimKeepsTree(BlockizeZone(inline, zone, order));
    }
  }

  /** A file reads the same in two volumes whose trees agree on it. */
  lemma ReadsFromTree(a: Tables, b: Tables, q: Path, start: nat, count: nat)
    requires Inv(a) && Inv(b) && count <= RANGE_LIMIT
    requires q in TreeOf(a) && q in TreeOf(b) && TreeOf(a)[q].kind == File == TreeOf(b)[q].kind
    requires TreeOf(a)[q].bytes == TreeOf(b)[q].bytes
    ensures HasRoot(a.zones) && HasRoot(b.zones)
    ensures ReadRange(a, q, start, count) == ReadRange(b, q, start, count)
    ensures |TreeOf(a)[q].bytes| <= WHOLE_READ_LIMIT ==> ReadFile(a, q) == ReadFile(b, q)
  {
    hide Inv, TreeOf, ReadFile, ReadRange, HasRoot;
    ReadRangeIsSlice(a, q, start, count);
    ReadRangeIsSlice(b, q, start, count);
    ReadFileReadsTree(a, q);
    ReadFileReadsTree(b, q);
  }

  /** Reading back: the written path gives exactly the bytes. */
  lemma WriteReadsBack(db: Tables, p: Path, data: Bytes, order: RowOrder, start: nat, count: nat)
    requires Inv(db) && ValidPath(p) && !IsZonePath(db, p) && count <= RANGE_LIMIT
    requires WriteRefusal(TreeOf(db), p).None?
    ensures HasRoot(db.zones) && WriteFile(db, p, data, order).Success? && HasRoot(WriteFile(db, p, data, order).value.db.zones)
    ensures |data| <= WHOLE_READ_LIMIT ==> ReadFile(WriteFile(db, p, data, order).value.db, p) == Success(data)
    ensures ReadRange(WriteFile(db, p, data, order).value.db, p, start, count) == Success(Slice(data, start, count))
  {
    hide Inv, TreeOf, WriteFile, IsZonePath, FreshId, AllReferenced, WriteRefusal, WrittenId, ReadFile, ReadRange, HasRoot;
    WriteFileMeansTree(db, p, data, order);
    var after := WriteFile(db, p, data, order).value.db;
    ReadRangeIsSlice(after, p, start, count);
    ReadFileReadsTree(after, p);
  }

  /** Every other path reads as before a write, including copies that shared the content object
      the write replaced. */
  lemma WriteIsIsolated(db: Tables, p: Path, data: Bytes, order: RowOrder, q: Path, start: nat, count: nat)
    requires Inv(db) && ValidPath(p) && !IsZonePath(db, p) && count <= RANGE_LIMIT
    requires WriteRefusal(TreeOf(db), p).None?
    requires q != p && q in TreeOf(db) && TreeOf(db)[q].kind == File
    ensures HasRoot(db.zones) && WriteFile(db, p, data, order).Success? && HasRoot(WriteFile(db, p, data, order).value.db.zones)
    ensures ReadRange(WriteFile(db, p, data, order).value.db, q, start, count) == ReadRange(db, q, start, count)
    ensures |TreeOf(db)[q].bytes| <= WHOLE_READ_LIMIT ==> ReadFile(WriteFile(db, p, data, order).value.db, q) == ReadFile(db, q)
  {
    hide Inv, TreeOf, WriteFile, IsZonePath, FreshId, AllReferenced, WriteRefusal, WrittenId, ReadFile, ReadRange, HasRoot;
    WriteFileMeansTree(db, p, data, order);
    ReadsFromTree(db, WriteFile(db, p, data, order).value.db, q, start, count);
  }
}
