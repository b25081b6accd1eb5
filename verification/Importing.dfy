/** import: a staged batch whose checks force it to be a tree is added exactly. */
module Importing {
  import opened Basics
  import opened Paths
  import opened Tables
  import opened Trees
  import opened Surgery
  import opened Grafting
  import opened Content
  import opened Commands
  import opened Addresses
  import opened Creating
  import opened Copying

  ghost function ImportRefusal(t: Tree, d: Path): Option<Error> {
    if d in t || d == [] || TreeKind(t, DropLast(d)) != Some(Dir) then Some(DestinationTaken) else None
  }

  function StagedNode(staged: Staged, id: NodeId): Node {
    Node(id, staged.kind, if staged.kind == File then staged.content else [],
         if staged.kind == Link then Some(staged.link) else None)
  }

  /** The batch has a row for the relative path. */
  predicate IsStaged(batch: Batch, r: Path) { ValidPath(r) && RenderRel(r) in batch }

  /** `u` is `t` with exactly the staged nodes added below `d`, under ids no node of `t` carries. */
  ghost predicate Imported(t: Tree, u: Tree, batch: Batch, d: Path) {
    && (forall q :: q in u <==> q in t || (d <= q && IsStaged(batch, q[|d|..])))
    && (forall q :: q in t ==> u[q] == t[q])
    && forall q :: q in u && q !in t ==>
         u[q] == StagedNode(batch[RenderRel(q[|d|..])], u[q].id) && FreshId(t, u[q].id)
  }

  // ---- The batch is a forest ----

  /** The two regular expressions accept exactly the texts of valid relative paths. */
  lemma RelativeTextMeansValid(s: string)
    requires RelativeTextOk(s)
    ensures ValidPath(ParseRel(s)) && RenderRel(ParseRel(s)) == s && ParseRel(s) != []
  {
    HasDotsBelowSlash(s);
    assert ("/" + s)[1..] == s;
    AssertPathMeansValid("/" + s);
    assert AssertPath("/" + s);
    assert Render(Parse("/" + s)) == "/" + s;
  }

  lemma ValidMeansRelativeText(r: Path)
    requires ValidPath(r) && r != []
    ensures RelativeTextOk(RenderRel(r)) && RenderRel(r) != ""
  {
    var s := RenderRel(r);
    HasDotsBelowSlash(s);
    assert ("/" + s)[1..] == s;
    AssertPathMeansValid("/" + s);
    assert Render(r) == "/" + s;
    RenderedNotEmpty(r);
    assert s != "";
  }

  /** The batch accounts for a text: it is a valid relative path, and its parent is a staged directory. */
  ghost predicate IsPlaced(batch: Batch, s: string) {
    exists r: Path ::
      && r != [] && ValidPath(r) && RenderRel(r) == s
      && RenderRel(DropLast(r)) in batch && batch[RenderRel(DropLast(r))].kind == Dir
  }

  /** The checks accept exactly the batches with a root in which every other text is a valid relative
      path below a staged directory. */
  lemma BatchOkIff(batch: Batch)
    ensures BatchOk(batch) <==> "" in batch && forall s :: s in batch && s != "" ==> IsPlaced(batch, s)
  {
    hide ParseRel, RenderRel, RelativeTextOk, ValidPath, RelativeParent;
    if BatchOk(batch) {
      forall s | s in batch && s != "" ensures IsPlaced(batch, s) {
        RelativeTextMeansValid(s);
        RelativeParentMeansDropLast(ParseRel(s));
        assert RenderRel(ParseRel(s)) == s;
      }
    }
    if "" in batch && forall s :: s in batch && s != "" ==> IsPlaced(batch, s) {
      forall s | s in batch && s != ""
        ensures RelativeTextOk(s) && RelativeParent(s) in batch && batch[RelativeParent(s)].kind == Dir
      {
        var r: Path :| r != [] && ValidPath(r) && RenderRel(r) == s
                       && RenderRel(DropLast(r)) in batch && batch[RenderRel(DropLast(r))].kind == Dir;
        ValidMeansRelativeText(r);
        RelativeParentMeansDropLast(r);
      }
    }
  }

  ghost function StagedPaths(batch: Batch): set<Path> { set s | s in batch && s != "" :: ParseRel(s) }

  lemma StagedPathIs(batch: Batch, r: Path)
    requires BatchOk(batch)
    ensures r in StagedPaths(batch) <==> r != [] && IsStaged(batch, r)
  {
    hide ParseRel, RenderRel, RelativeTextOk, ValidPath, RelativeParent;
    if r in StagedPaths(batch) {
      var s :| s in batch && s != "" && ParseRel(s) == r;
      RelativeTextMeansValid(s);
    }
    if r != [] && IsStaged(batch, r) {
      RenderedNotEmpty(r);
      assert ParseRel(RenderRel(r)) == r;
    }
  }

  lemma RenderedNotEmpty(r: Path)
    requires ValidPath(r)
    ensures ParseRel(RenderRel(r)) == r && (r != [] <==> RenderRel(r) != "")
  {
    ParseRender(r);
  }

  lemma StagedParent(batch: Batch, r: Path)
    requires BatchOk(batch) && IsStaged(batch, r) && r != []
    ensures IsStaged(batch, DropLast(r)) && batch[RenderRel(DropLast(r))].kind == Dir
  {
    hide ParseRel, RenderRel, RelativeTextOk, ValidName, RelativeParent;
    RenderedNotEmpty(r);
    RelativeParentMeansDropLast(r);
    assert RelativeParent(RenderRel(r)) in batch;
  }

  lemma {:induction false} RelativeKeys(paths: set<Path>, keys: set<Key>)
    requires keys == set r | r in paths :: Key(0, r)
    ensures |keys| == |paths|
  {
    ImageCard(paths, (r: Path) => Key(0, r), keys);
  }

  ghost function RelKeys(batch: Batch): set<Key> { set r | r in StagedPaths(batch) :: Key(0, r) }

  lemma BatchRow(batch: Batch, next: NodeId, r: Path, order: RowOrder)
    requires Enumerating(order)
    requires BatchOk(batch)
    ensures r in BatchRows(batch, next, order) <==> r != [] && IsStaged(batch, r)
    ensures r in BatchRows(batch, next, order) ==>
              && Key(0, r) in RelKeys(batch)
              && BatchRows(batch, next, order)[r] == Row(Assign(order(RelKeys(batch)), next)[Key(0, r)], StagedPayload(batch[RenderRel(r)]))
  {
    hide ParseRel, RenderRel, BatchOk, Assign, StagedPayload, ValidPath, Enumerating;
    StagedPathIs(batch, r);
    AssignedIds(order, RelKeys(batch), next);
    assert StagedPaths(batch) == set s | s in batch && s != "" :: ParseRel(s);
  }

  lemma StagedKind(staged: Staged)
    ensures StagedPayload(staged).kind == staged.kind
  {
    InlineFileIsFile(staged.content);
    hide InlineFile;
  }

  /** The checks on the batch make it a forest. */
  lemma BatchIsForest(batch: Batch, next: NodeId, order: RowOrder)
    requires Enumerating(order)
    requires BatchOk(batch)
    ensures IsForest(BatchRows(batch, next, order)) && [] !in BatchRows(batch, next, order)
  {
    hide BatchRows, BatchOk, RenderRel, ValidPath, StagedPayload;
    var rows := BatchRows(batch, next, order);
    BatchRow(batch, next, [], order);
    forall r | r in rows ensures ValidPath(r) && (|r| > 1 ==> IsDirRow(rows, DropLast(r))) {
      BatchRow(batch, next, r, order);
      if |r| > 1 {
        StagedParent(batch, r);
        BatchRow(batch, next, DropLast(r), order);
        StagedKind(batch[RenderRel(DropLast(r))]);
      }
    }
  }

  lemma BatchIdsFree(base: Tables, batch: Batch, order: RowOrder)
    requires Enumerating(order)
    requires IdsUnique(base.zones, base.entries, base.nextId) && BatchOk(batch)
    ensures IdsFree(base, BatchRows(batch, base.nextId, order), base.nextId + |RelKeys(batch)|)
  {
    hide BatchRows, BatchOk, Assign, StagedPayload, RenderRel, ValidPath, RelKeys;
    var rows := BatchRows(batch, base.nextId, order);
    AssignedIds(order, RelKeys(batch), base.nextId);
    forall r ensures r in rows ==> Key(0, r) in RelKeys(batch) && rows[r].id == Assign(order(RelKeys(batch)), base.nextId)[Key(0, r)] {
      BatchRow(batch, base.nextId, r, order);
    }
  }

  /** There are as many rows as the batch has besides its root. */
  lemma BatchSize(batch: Batch, next: NodeId, order: RowOrder)
    requires Enumerating(order)
    requires BatchOk(batch)
    ensures |BatchRows(batch, next, order)| == |RelKeys(batch)| == |batch| - 1
  {
    hide BatchRows, RenderRel, ParseRel, RelativeTextOk, RelativeParent, ValidPath;
    var rest := batch.Keys - {""};
    forall a, b | a in rest && b in rest && ParseRel(a) == ParseRel(b) ensures a == b {
      assert a in batch && b in batch;
      RelativeTextMeansValid(a);
      RelativeTextMeansValid(b);
    }
    assert StagedPaths(batch) == set s | s in rest :: ParseRel(s);
    ImageCard(rest, (s: string) => ParseRel(s), StagedPaths(batch));
    RelativeKeys(StagedPaths(batch), RelKeys(batch));
    hide BatchOk;
    forall r ensures r in BatchRows(batch, next, order) <==> r in StagedPaths(batch) {
      BatchRow(batch, next, r, order);
      StagedPathIs(batch, r);
    }
    assert BatchRows(batch, next, order).Keys == StagedPaths(batch);
  }

  // ---- A directory root ----

  lemma StagedPayloadOk(store: Store, staged: Staged)
    ensures PayloadOk(store, StagedPayload(staged))
    ensures forall e: Entry :: e.payload == StagedPayload(staged) ==> NodeOf(store, e) == StagedNode(staged, e.id)
  {
    InlineFileOk(store, staged.content);
    InlineFileIsFile(staged.content);
    hide InlineFile;
  }

  lemma StagedRowsOk(entries: Entries, store: Store, batch: Batch, next: NodeId, nz: ZoneId, order: RowOrder)
    requires Enumerating(order)
    requires BatchOk(batch) && Payloads(entries, store)
    ensures Payloads(entries + PlantedEntries(nz, [], BatchRows(batch, next, order)), store)
  {
    hide BatchRows, PlantedEntries, PayloadOk, StagedPayload, BatchOk, Assign, RenderRel, RelKeys;
    var rows := BatchRows(batch, next, order);
    forall k | k in PlantedEntries(nz, [], rows) ensures PayloadOk(store, PlantedEntries(nz, [], rows)[k].payload) {
      PlantedEntryAt(nz, [], rows, k);
      BatchRow(batch, next, k.rel[0..], order);
      StagedPayloadOk(store, batch[RenderRel(k.rel[0..])]);
    }
  }

  lemma BatchNode(store: Store, batch: Batch, next: NodeId, r: Path, order: RowOrder)
    requires Enumerating(order)
    requires BatchOk(batch)
    ensures var nodes := NodesOf(store, BatchRows(batch, next, order));
            && (r in nodes <==> r != [] && IsStaged(batch, r))
            && (r in nodes ==>
                  && Key(0, r) in RelKeys(batch)
                  && nodes[r] == StagedNode(batch[RenderRel(r)], Assign(order(RelKeys(batch)), next)[Key(0, r)]))
  {
    hide BatchRows, Assign, RenderRel, RelKeys, NodeOf, StagedPayload, StagedNode, IsStaged;
    BatchRow(batch, next, r, order);
    if r in BatchRows(batch, next, order) {
      assert IsStaged(batch, r) by { }
      StagedIn(batch, r);
      StagedPayloadOk(store, batch[RenderRel(r)]);
    }
  }

  lemma StagedIn(batch: Batch, r: Path)
    requires IsStaged(batch, r)
    ensures RenderRel(r) in batch
  {
  }

  lemma MayGraftStaged(db: Tables, batch: Batch, row: Zone, order: RowOrder)
    requires Enumerating(order)
    requires Inv(db) && MayAddZone(db, db.nextId, row) && BatchOk(batch)
    ensures var nz := db.nextId; var rows := BatchRows(batch, nz + 1, order); var a := AddZone(db, nz, row);
            MayGraft(a, nz, [], rows, nz + 1 + |rows|) && a.nextId == nz + 1 && a.entries == db.entries && a.store == db.store
  {
    hide Namespace, StoreOk, Payloads, ValidPath, IsForest, Room, IdsFree, MayAddZone, AddZone, BatchOk, BatchRows, RelKeys, TreeOf, AllPaths, IdsUnique,
         HasRoot, ZonePathsUnique, NamesValid, Homed, EntryParents, ZoneParents, Labelled;
    var nz := db.nextId;
    var a := AddZone(db, nz, row);
    AddZoneKeepsNamespace(db, nz, row);
    NamespaceParts(a);
    AddZoneNext(db, nz, row);
    AddZoneParts(db, nz, row);
    BatchIdsFree(a, batch, order);
    BatchIsForest(batch, nz + 1, order);
    BatchSize(batch, nz + 1, order);
    NewZoneRoom(db, nz, row, BatchRows(batch, nz + 1, order));
  }

  lemma StagedIsGraft(db: Tables, row: Zone, batch: Batch, order: RowOrder)
    ensures var nz := db.nextId; var rows := BatchRows(batch, nz + 1, order);
            AddStagedZone(db, row, batch, order) == Graft(AddZone(db, nz, row), nz, [], rows, nz + 1 + |rows|)
  {
    hide BatchRows, PlantedEntries;
  }

  /** The staged rows planted in the new, empty zone. */
  lemma StagedZoneRows(db: Tables, batch: Batch, row: Zone, order: RowOrder)
    requires Enumerating(order)
    requires Inv(db) && MayAddZone(db, db.nextId, row) && BatchOk(batch)
    ensures var c, a := AddStagedZone(db, row, batch, order), AddZone(db, db.nextId, row);
            Inv(c) && TreeOf(c) == Grafted(TreeOf(a), row.path, NodesOf(db.store, BatchRows(batch, db.nextId + 1, order)))
  {
    hide Namespace, StoreOk, Payloads, TreeOf, Grafted, NodesOf, MayGraft, MayAddZone, PlantedEntries, AddZone, BatchOk, BatchRows;
    var nz := db.nextId;
    var a := AddZone(db, nz, row);
    var rows := BatchRows(batch, nz + 1, order);
    StagedIsGraft(db, row, batch, order);
    MayGraftStaged(db, batch, row, order);
    GraftKeepsNamespace(a, nz, [], rows, nz + 1 + |rows|);
    GraftPlants(a, nz, [], rows, nz + 1 + |rows|);
    StagedRowsOk(db.entries, db.store, batch, nz + 1, nz, order);
    NewZonePath(db, nz, row);
  }

  lemma ImportedAt(t: Tree, nodes: Tree, batch: Batch, d: Path, n: Node, q: Path)
    requires Vacant(t, d) && "" in batch
    requires n == StagedNode(batch[""], n.id) && FreshId(t, n.id)
    requires forall r :: (r in nodes <==> r != [] && IsStaged(batch, r))
                         && (r in nodes && RenderRel(r) in batch ==>
                               nodes[r] == StagedNode(batch[RenderRel(r)], nodes[r].id) && FreshId(t, nodes[r].id))
    ensures var u := Grafted(t[d := n], d, nodes);
            && (q in u <==> q in t || (d <= q && IsStaged(batch, q[|d|..])))
            && (q in t ==> u[q] == t[q])
            && (q in u && q !in t ==> u[q] == StagedNode(batch[RenderRel(q[|d|..])], u[q].id) && FreshId(t, u[q].id))
  {
    hide Planted, FreshId, StagedNode, ValidName;
    PlantedAt(d, nodes, q);
    assert RenderRel([]) == "";
    if d <= q && q[|d|..] == [] { assert q == d; }
    if q == d { assert q[|d|..] == []; }
    hide RenderRel;
  }

  lemma ImportedFreshRoot(t: Tree, nodes: Tree, batch: Batch, d: Path, n: Node)
    requires Vacant(t, d) && "" in batch
    requires n == StagedNode(batch[""], n.id) && FreshId(t, n.id)
    requires forall r :: (r in nodes <==> r != [] && IsStaged(batch, r))
                         && (r in nodes && RenderRel(r) in batch ==>
                               nodes[r] == StagedNode(batch[RenderRel(r)], nodes[r].id) && FreshId(t, nodes[r].id))
    ensures Imported(t, Grafted(t[d := n], d, nodes), batch, d)
  {
    hide Grafted, FreshId, StagedNode, Vacant, IsStaged, RenderRel;
    var u := Grafted(t[d := n], d, nodes);
    forall q
      ensures (q in u <==> q in t || (d <= q && IsStaged(batch, q[|d|..])))
      ensures q in t && q in u ==> u[q] == t[q]
      ensures q in u && q !in t && d <= q && RenderRel(q[|d|..]) in batch ==>
                u[q] == StagedNode(batch[RenderRel(q[|d|..])], u[q].id) && FreshId(t, u[q].id)
    {
      ImportedAt(t, nodes, batch, d, n, q);
    }
    ImportedIntro(t, u, batch, d);
  }

  lemma ImportedIntro(t: Tree, u: Tree, batch: Batch, d: Path)
    requires forall q :: q in u <==> q in t || (d <= q && IsStaged(batch, q[|d|..]))
    requires forall q :: q in t && q in u ==> u[q] == t[q]
    requires forall q :: q in u && q !in t && d <= q && RenderRel(q[|d|..]) in batch ==>
                           u[q] == StagedNode(batch[RenderRel(q[|d|..])], u[q].id) && FreshId(t, u[q].id)
    ensures Imported(t, u, batch, d)
  {
    hide StagedNode, FreshId, RenderRel, ValidPath;
  }

  lemma ImportRefuses(db: Tables, d: Path, batch: Batch, order: RowOrder)
    requires HasRoot(db.zones) && db.nextId !in db.zones
    ensures !BatchOk(batch) ==> ImportInline(db, d, batch, order) == Failure(BadBatch)
    ensures BatchOk(batch) && (!ParentIsDirectory(db, d) || KindOf(db, d).Some?) ==> ImportInline(db, d, batch, order) == Failure(DestinationTaken)
  {
    hide KindOf, Locate, BatchOk, BatchRows, PlantedEntries, StagedPayload, ParentIsDirectory, EntryKey;
  }

  lemma ImportDirUnfolds(db: Tables, d: Path, batch: Batch, order: RowOrder)
    requires HasRoot(db.zones) && db.nextId !in db.zones
    requires BatchOk(batch) && ParentIsDirectory(db, d) && KindOf(db, d).None? && batch[""].kind == Dir && d != []
    ensures var l := Locate(db.zones, DropLast(d));
            ImportInline(db, d, batch, order) ==
            Success(Done(AddStagedZone(db, Zone(d, Some(l.zone), Some(l.rel), Last(d)), batch, order), |batch|))
  {
    hide KindOf, Locate, BatchOk, AddStagedZone, ParentIsDirectory, EntryKey, HasRoot;
  }

  lemma ImportOneUnfolds(db: Tables, d: Path, batch: Batch, order: RowOrder)
    requires HasRoot(db.zones) && db.nextId !in db.zones
    requires BatchOk(batch) && ParentIsDirectory(db, d) && KindOf(db, d).None? && batch[""].kind != Dir && d != []
    ensures ImportInline(db, d, batch, order) == Success(Done(WithEntry(db, d, NewEntry(db, d, StagedPayload(batch[""]))), |batch|))
  {
    hide KindOf, Locate, BatchOk, BatchRows, PlantedEntries, StagedPayload, ParentIsDirectory, EntryKey, HasRoot;
    EntryKeyIs(db.zones, d);
  }

  lemma ImportDirMeansTree(db: Tables, d: Path, batch: Batch, order: RowOrder)
    requires Enumerating(order)
    requires Inv(db) && ValidPath(d) && d != [] && BatchOk(batch) && batch[""].kind == Dir
    requires d !in TreeOf(db) && TreeKind(TreeOf(db), DropLast(d)) == Some(Dir)
    ensures HasRoot(db.zones)
    ensures var l := Locate(db.zones, DropLast(d));
            var c := AddStagedZone(db, Zone(d, Some(l.zone), Some(l.rel), Last(d)), batch, order);
            Inv(c) && Imported(TreeOf(db), TreeOf(c), batch, d)
  {
    hide AddStagedZone, Inv, TreeOf, Locate, ValidPath, HasRoot, Grafted, NodesOf, PlantedEntries, BatchRows, Vacant,
         MayAddZone, AddZone, FreshId, Imported, RenderRel, Assign, RelKeys,
         IsStaged, StagedNode, RelativeTextOk, RelativeParent;
    InvHasNamespace(db);
    LookupKind(db, d);
    NewZoneAllowed(db, d);
    var l, nz := Locate(db.zones, DropLast(d)), db.nextId;
    var row := Zone(d, Some(l.zone), Some(l.rel), Last(d));
    StagedZoneRows(db, batch, row, order);
    AddZonePlants(db, nz, row);
    NextIdIsFresh(db);
    VacantBelow(db, d);
    var t, nodes := TreeOf(db), NodesOf(db.store, BatchRows(batch, nz + 1, order));
    forall r
      ensures r in nodes <==> r != [] && IsStaged(batch, r)
      ensures r in nodes && RenderRel(r) in batch ==>
                nodes[r] == StagedNode(batch[RenderRel(r)], nodes[r].id) && FreshId(t, nodes[r].id)
    {
      BatchNode(db.store, batch, nz + 1, r, order);
      if r in nodes {
        StagedIn(batch, r);
        AssignedIsFresh(db, RelKeys(batch), nz + 1, Key(0, r), order);
        StagedId(batch[RenderRel(r)], Assign(order(RelKeys(batch)), nz + 1)[Key(0, r)]);
      }
    }
    StagedDir(batch[""], nz);
    ImportedFreshRoot(t, nodes, batch, d, DirNode(nz));
  }

  lemma StagedId(staged: Staged, id: NodeId)
    ensures StagedNode(staged, id).id == id
  {
  }

  lemma StagedDir(staged: Staged, id: NodeId)
    requires staged.kind == Dir
    ensures StagedNode(staged, id) == DirNode(id)
  {
  }

  // ---- A single node ----

  /** A batch whose root is no directory holds nothing else. */
  lemma SingleBatch(batch: Batch)
    requires BatchOk(batch) && batch[""].kind != Dir
    ensures |batch| == 1
    ensures forall r :: IsStaged(batch, r) <==> r == []
  {
    hide RelativeParent, RelativeTextOk, RenderRel, ValidName;
    forall s | s in batch ensures s == "" {
      if s != "" {
        RelativeTextMeansValid(s);
        OnlyRoot(batch, ParseRel(s));
      }
    }
    assert batch.Keys == {""};
    forall r | IsStaged(batch, r) ensures r == [] { RenderedNotEmpty(r); }
    assert RenderRel([]) == "" by { EmptyText(); }
  }

  lemma EmptyText()
    ensures RenderRel([]) == ""
  {
  }

  /** Every staged path leads up to the root row, which must then be a directory. */
  lemma {:induction false} OnlyRoot(batch: Batch, r: Path)
    requires BatchOk(batch) && IsStaged(batch, r) && batch[""].kind != Dir
    ensures r == []
    decreases |r|
  {
    hide BatchOk, RenderRel, ValidPath;
    if r != [] {
      StagedParent(batch, r);
      OnlyRoot(batch, DropLast(r));
      EmptyText();
    }
  }

  lemma ImportedSingle(t: Tree, batch: Batch, d: Path, n: Node)
    requires "" in batch && n == StagedNode(batch[""], n.id) && FreshId(t, n.id) && d !in t
    requires forall r :: IsStaged(batch, r) <==> r == []
    ensures Imported(t, t[d := n], batch, d)
  {
    hide FreshId, RenderRel, IsStaged, StagedNode;
    EmptyText();
    BelowSelf(d);
    ImportedIntro(t, t[d := n], batch, d);
  }

  lemma ImportOneMeansTree(db: Tables, d: Path, batch: Batch)
    requires Inv(db) && ValidPath(d) && d != [] && BatchOk(batch) && batch[""].kind != Dir
    requires d !in TreeOf(db) && TreeKind(TreeOf(db), DropLast(d)) == Some(Dir)
    ensures HasRoot(db.zones)
    ensures var c := WithEntry(db, d, NewEntry(db, d, StagedPayload(batch[""])));
            Inv(c) && Imported(TreeOf(db), TreeOf(c), batch, d)
  {
    hide Inv, TreeOf, ValidPath, HasRoot, FreshId, IsStaged, StagedNode, EntryKey, StagedPayload, NodeOf, PayloadOk, RelativeTextOk, RelativeParent, Imported, TreeKind;
    InvHasNamespace(db);
    LookupKind(db, d);
    StagedPayloadOk(db.store, batch[""]);
    NewEntryMeansNode(db, d, StagedPayload(batch[""]));
    NextIdIsFresh(db);
    SingleBatch(batch);
    StagedId(batch[""], db.nextId);
    ImportedSingle(TreeOf(db), batch, d, StagedNode(batch[""], db.nextId));
  }

  lemma BelowSelf(d: Path)
    ensures forall q :: d <= q && q[|d|..] == [] <==> q == d
  {
    forall q | d <= q && q[|d|..] == [] ensures q == d {}
    assert d[|d|..] == [];
  }

  /** import adds exactly the staged tree under fresh ids, changes nothing else and returns how
      many nodes it added; it refuses exactly a batch that fails the checks or a taken place. */
  lemma ImportMeansTree(db: Tables, d: Path, batch: Batch, order: RowOrder)
    requires Enumerating(order)
    requires Inv(db) && ValidPath(d)
    ensures HasRoot(db.zones) && db.nextId !in db.zones
    ensures !BatchOk(batch) ==> Import(db, d, batch, order) == Failure(BadBatch)
    ensures BatchOk(batch) && ImportRefusal(TreeOf(db), d).Some? ==> Import(db, d, batch, order) == Failure(DestinationTaken)
    ensures BatchOk(batch) && ImportRefusal(TreeOf(db), d).None? ==>
              && Import(db, d, batch, order).Success?
              && Inv(Import(db, d, batch, order).value.db)
              && Imported(TreeOf(db), TreeOf(Import(db, d, batch, order).value.db), batch, d)
              && Import(db, d, batch, order).value.count == |batch|
  {
    hide Inv, TreeOf, KindOf, ParentIsDirectory, Locate, ValidPath, HasRoot, AddStagedZone, Imported, NewEntry, WithEntry, StagedPayload,
         ImportInline, BlockizeZoneSegment, SameNodes, RelativeTextOk, RelativeParent;
    InvHasNamespace(db);
    LookupKind(db, d);
    ParentMeansTree(db, d);
    NewIdIsNoZone(db, db.nextId);
    ImportRefuses(db, d, batch, order);
    if BatchOk(batch) && ImportRefusal(TreeOf(db), d).None? {
      if batch[""].kind == Dir {
        ImportDirUnfolds(db, d, batch, order);
        ImportDirMeansTree(db, d, batch, order);
      } else {
        ImportOneUnfolds(db, d, batch, order);
        ImportOneMeansTree(db, d, batch);
      }
      var done := ImportInline(db, d, batch, order).value.db;
      BlockizeSegmentKeepsTree(done, Locate(done.zones, d).zone, order);
    }
  }
}
