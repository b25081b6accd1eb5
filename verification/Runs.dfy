/** Runs of the volume: every step keeps the invariant and means one edit of the tree. */
module Runs {
  import opened Basics
  import opened Paths
  import opened Tables
  import opened Trees
  import opened Surgery
  import opened Grafting
  import opened Content
  import opened Commands
  import opened Creating
  import opened Removing
  import opened Moving
  import opened Copying
  import opened Importing
  import opened TextImport
  import opened Publishing

  /** One call of the SQL API, its paths as text. */
  datatype Op =
    | MkdirOp(path: string, parents: bool)
    | WriteOp(path: string, data: Bytes, order: RowOrder)
    | CopyOp(source: string, path: string, recursive: bool, order: RowOrder)
    | MoveOp(source: string, path: string)
    | RemoveOp(path: string, recursive: bool)
    | ImportOp(path: string, batch: Batch, order: RowOrder)
    | ImportTextOp(path: string, data: Bytes)
  {
    predicate PathsOk() {
      AssertPath(path) && ((CopyOp? || MoveOp?) ==> AssertPath(source))
    }

    function Target(): Path { Parse(path) }

    function Source(): Path
      requires CopyOp? || MoveOp?
    {
      Parse(source)
    }
  }

  ghost function Execute(db: Tables, op: Op): Outcome
    requires HasRoot(db.zones) && db.nextId !in db.zones
  {
    var p := op.Target();
    match op
    case MkdirOp(_, parents) => if parents then MkdirParents(db, p, 0) else Mkdir(db, p)
    case WriteOp(_, data, order) => WriteFile(db, p, data, order)
    case CopyOp(_, _, recursive, order) => Copy(db, op.Source(), p, recursive, order)
    case MoveOp(_, _) => Move(db, op.Source(), p)
    case RemoveOp(_, recursive) => Remove(db, p, recursive)
    case ImportOp(_, batch, order) => Import(db, p, batch, order)
    case ImportTextOp(_, data) => ImportText(db, p, data)
  }

  ghost function Step(db: Tables, op: Op): Outcome
    requires HasRoot(db.zones) && db.nextId !in db.zones
  {
    if !op.PathsOk() then Failure(InvalidPath) else Execute(db, op)
  }

  /** The text tests a command runs judge the rows of the volume rightly, and a write meets no zone; the
      database delivers each row of a set once, in any order. */
  ghost predicate Supported(db: Tables, op: Op) {
    match op
    case MkdirOp(_, _) => true
    case WriteOp(_, _, _) => !IsZonePath(db, op.Target())
    case CopyOp(_, _, recursive, order) => CopyJudged(db, op.Source(), op.Target(), recursive) && Enumerating(order)
    case MoveOp(_, _) => MoveJudged(db, op.Source(), op.Target())
    case RemoveOp(_, recursive) => RemoveRefusal(TreeOf(db), op.Target(), recursive).None? ==> RemoveJudged(db, op.Target(), recursive)
    case ImportOp(_, _, order) => Enumerating(order)
    case ImportTextOp(_, _) => !IsZonePath(db, op.Target())
  }

  function FirstError(a: Option<Error>, b: bool, e: Error): Option<Error> {
    if a.Some? then a else if b then Some(e) else None
  }

  /** Why the command refuses, in terms of the tree and of which nodes are zones. */
  ghost function Refusal(db: Tables, op: Op): Option<Error> {
    var t, p := TreeOf(db), op.Target();
    match op
    case MkdirOp(_, parents) =>
      if parents then (if BlockedParents(t, p) then Some(NotADirectory) else None)
      else if p == [] then None else MkdirRefusal(t, p)
    case WriteOp(_, _, _) => WriteRefusal(t, p)
    case CopyOp(_, _, recursive, _) =>
      FirstError(CopyRefusal(t, op.Source(), p, recursive), ZonesBelow(db, op.Source()), NestedZones)
    case MoveOp(_, _) => FirstError(MoveRefusal(t, op.Source(), p), HoldsZones(db, op.Source()), NestedZones)
    case RemoveOp(_, recursive) => RemoveRefusal(t, p, recursive)
    case ImportOp(_, batch, _) => if !BatchOk(batch) then Some(BadBatch) else ImportRefusal(t, p)
    case ImportTextOp(_, data) => if !Importable(data) then Some(BadText) else WriteRefusal(t, p)
  }

  /** What an accepted command does to the tree and what it returns. */
  ghost predicate Change(t: Tree, u: Tree, op: Op, next: NodeId, count: nat) {
    var p := op.Target();
    match op
    case MkdirOp(_, parents) =>
      if parents then WithParents(t, u, p, |p|)
      else if p == [] then u == t
      else u == t[p := Node(next, Dir, [], None)] && FreshId(t, next)
    case WriteOp(_, data, _) =>
      u == t[p := Node(WrittenId(t, p, next), File, data, None)] && FreshId(t, next) && count == WrittenId(t, p, next)
    case CopyOp(_, _, _, _) => Duplicated(t, u, op.Source(), p) && count == |Subtree(t, op.Source())|
    case MoveOp(_, _) => u == Moved(t, op.Source(), p) && count == |Subtree(t, op.Source())|
    case RemoveOp(_, _) => u == Pruned(t, p) && count == |Subtree(t, p)|
    case ImportOp(_, batch, _) => Imported(t, u, batch, p) && count == |batch|
    case ImportTextOp(_, data) =>
      u == t[p := Node(WrittenId(t, p, next), File, data, None)] && count == WrittenId(t, p, next)
  }

  /** The step refuses exactly when and why the tree says; otherwise it edits the tree as it
      should, keeps the invariant, and after a write or a remove every published segment is
      still referenced. */
  ghost predicate Meets(db: Tables, op: Op, r: Outcome) {
    if !op.PathsOk() then r == Failure(InvalidPath)
    else if Refusal(db, op).Some? then r == Failure(Refusal(db, op).value)
    else
      && r.Success? && Inv(r.value.db)
      && Change(TreeOf(db), TreeOf(r.value.db), op, db.nextId, r.value.count)
      && (op.WriteOp? || op.RemoveOp? ==> AllReferenced(r.value.db))
  }

  lemma ParsedIsValid(s: string)
    requires AssertPath(s)
    ensures ValidPath(Parse(s))
  {
    hide AssertPath, ValidPath, Parse, Render;
    AssertPathMeansValid(s);
  }

  lemma Ready(db: Tables)
    requires Inv(db)
    ensures HasRoot(db.zones) && db.nextId !in db.zones
  {
    hide Namespace, HasRoot, StoreOk, Payloads;
    NamespaceParts(db);
    NewIdIsNoZone(db, db.nextId);
  }

  lemma MkdirMeets(db: Tables, op: Op)
    requires Inv(db) && op.MkdirOp? && op.PathsOk() && HasRoot(db.zones) && db.nextId !in db.zones
    ensures Meets(db, op, Execute(db, op))
  {
    hide Inv, TreeOf, AssertPath, Parse, ValidPath, MkdirParents, Mkdir, FreshId, WithParents, BlockedParents, MkdirRefusal, HasRoot, ParentsMade, IsTree, IdsDistinct;
    var p := op.Target();
    ParsedIsValid(op.path);
    InvHasNamespace(db);
    if op.parents {
      RowsMakeTree(db);
      RootMade(TreeOf(db), p);
      MkdirParentsMeansTree(db, p, 0);
    } else if p == [] {
      MkdirRoot(db);
    } else {
      MkdirMeansTree(db, p);
    }
  }

  lemma RootMade(t: Tree, p: Path)
    requires IsTree(t)
    ensures ParentsMade(t, p, 0)
  {
    assert p[..0] == [];
  }

  lemma MkdirRoot(db: Tables)
    requires HasRoot(db.zones)
    ensures Mkdir(db, []) == Success(Done(db, 0))
  {
  }

  lemma WriteMeets(db: Tables, op: Op)
    requires Inv(db) && op.WriteOp? && op.PathsOk() && Supported(db, op) && HasRoot(db.zones) && db.nextId !in db.zones
    ensures Meets(db, op, Execute(db, op))
  {
    hide Inv, TreeOf, AssertPath, Parse, ValidPath, WriteFile, FreshId, WriteRefusal, WrittenId, HasRoot, IsZonePath, AllReferenced;
    ParsedIsValid(op.path);
    WriteFileMeansTree(db, op.Target(), op.data, op.order);
  }

  lemma CopyMeets(db: Tables, op: Op)
    requires Inv(db) && op.CopyOp? && op.PathsOk() && Supported(db, op) && HasRoot(db.zones) && db.nextId !in db.zones
    ensures Meets(db, op, Execute(db, op))
  {
    hide Inv, TreeOf, AssertPath, Parse, ValidPath, CopyJudged, Copy, Duplicated, CopyRefusal, ZonesBelow, Subtree, HasRoot;
    ParsedIsValid(op.path);
    CopyMeansTree(db, op.Source(), op.Target(), op.recursive, op.order);
  }

  lemma MoveMeets(db: Tables, op: Op)
    requires Inv(db) && op.MoveOp? && op.PathsOk() && Supported(db, op) && HasRoot(db.zones) && db.nextId !in db.zones
    ensures Meets(db, op, Execute(db, op))
  {
    hide Inv, TreeOf, AssertPath, Parse, ValidPath, MoveJudged, Move, Moved, MoveRefusal, HoldsZones, Subtree, HasRoot;
    ParsedIsValid(op.path);
    MoveMeansTree(db, op.Source(), op.Target());
  }

  lemma RemoveMeets(db: Tables, op: Op)
    requires Inv(db) && op.RemoveOp? && op.PathsOk() && Supported(db, op) && HasRoot(db.zones) && db.nextId !in db.zones
    ensures Meets(db, op, Execute(db, op))
  {
    hide Inv, TreeOf, AssertPath, Parse, ValidPath, RemoveJudged, Remove, RemoveRefusal, Pruned, Subtree, HasRoot, AllReferenced;
    RemoveMeansTree(db, op.Target(), op.recursive);
  }

  lemma ImportMeets(db: Tables, op: Op)
    requires Inv(db) && (op.ImportOp? || op.ImportTextOp?) && op.PathsOk() && Supported(db, op)
    requires HasRoot(db.zones) && db.nextId !in db.zones
    ensures Meets(db, op, Execute(db, op))
  {
    hide Inv, TreeOf, AssertPath, Parse, ValidPath, Import, ImportText, TreeKind, Imported, BatchOk, Importable, WriteRefusal, WrittenId, HasRoot, IsZonePath;
    ParsedIsValid(op.path);
    if op.ImportOp? {
      ImportMeansTree(db, op.Target(), op.batch, op.order);
    } else {
      ImportTextMeansTree(db, op.Target(), op.data);
    }
  }

  /** Every step, whatever the command. */
  lemma StepMeets(db: Tables, op: Op)
    requires Inv(db) && Supported(db, op)
    ensures HasRoot(db.zones) && db.nextId !in db.zones
    ensures Meets(db, op, Step(db, op))
  {
    hide Inv, Meets, Supported, HasRoot;
    Ready(db);
    if !op.PathsOk() {
      BadPathMeets(db, op);
    } else {
      hide Execute, Op.PathsOk;
      match op
      case MkdirOp(_, _) => MkdirMeets(db, op);
      case WriteOp(_, _, _) => WriteMeets(db, op);
      case CopyOp(_, _, _, _) => CopyMeets(db, op);
      case MoveOp(_, _) => MoveMeets(db, op);
      case RemoveOp(_, _) => RemoveMeets(db, op);
      case ImportOp(_, _, _) => ImportMeets(db, op);
      case ImportTextOp(_, _) => ImportMeets(db, op);
    }
  }

  lemma BadPathMeets(db: Tables, op: Op)
    requires !op.PathsOk()
    ensures Meets(db, op, Failure(InvalidPath))
  {
    hide Op.PathsOk, Refusal, Change, AllReferenced, Inv;
  }

  // ---- The condition ----

  /** Wildcard-free sources and targets are judged rightly in every volume; so is the removal of an entry
      without the flag, whatever its name. */
  lemma PlainIsSupported(db: Tables, op: Op)
    requires Inv(db) && op.PathsOk()
    requires op.CopyOp? || op.MoveOp? ==> PlainPath(op.Source())
    requires op.RemoveOp? ==> PlainPath(op.Target()) || (!op.recursive && !IsZonePath(db, op.Target()))
    requires op.WriteOp? || op.ImportTextOp? ==> !IsZonePath(db, op.Target())
    requires op.CopyOp? || op.ImportOp? ==> Enumerating(op.order)
    ensures Supported(db, op)
  {
    hide Inv, Namespace, TreeOf, AssertPath, Parse, ValidPath, PlainPath, IsZonePath, CopyJudged, MoveJudged, RemoveJudged, RemoveRefusal, Enumerating;
    InvHasNamespace(db);
    ParsedIsValid(op.path);
    var p := op.Target();
    match op
    case CopyOp(_, _, recursive, _) =>
      ParsedIsValid(op.source);
      PlainCopyIsJudged(db, op.Source(), p, recursive);
    case MoveOp(_, _) =>
      ParsedIsValid(op.source);
      PlainMoveIsJudged(db, op.Source(), p);
    case RemoveOp(_, recursive) =>
      if RemoveRefusal(TreeOf(db), p, recursive).None? {
        if PlainPath(p) { PlainRemoveIsJudged(db, p, recursive); } else { EntryRemoveIsJudged(db, p); }
      }
    case _ =>
  }

  /** The condition is exact: a move or a remove, and a copy from a source without an escape, means what
      it should if and only if the tests judge the rows rightly. */
  lemma StepMeetsIff(db: Tables, op: Op)
    requires Inv(db) && op.PathsOk() && (op.CopyOp? || op.MoveOp? || op.RemoveOp?)
    requires op.CopyOp? ==> EscapeFree(op.Source()) && Enumerating(op.order)
    ensures HasRoot(db.zones) && db.nextId !in db.zones
    ensures Meets(db, op, Step(db, op)) <==> Supported(db, op)
  {
    hide Inv, TreeOf, AssertPath, Parse, ValidPath, EscapeFree, HasRoot, Copy, Move, Remove, CopyJudged, MoveJudged, RemoveJudged, Duplicated, Moved, Pruned,
         CopyRefusal, MoveRefusal, RemoveRefusal, ZonesBelow, HoldsZones, Subtree, AllReferenced, Enumerating;
    Ready(db);
    if Supported(db, op) { StepMeets(db, op); }
    ParsedIsValid(op.path);
    var p := op.Target();
    match op
    case CopyOp(_, _, recursive, order) => CopiesTreeIff(db, op.Source(), p, recursive, order);
    case MoveOp(_, _) => MovesTreeIff(db, op.Source(), p);
    case RemoveOp(_, recursive) =>
      if RemoveRefusal(TreeOf(db), p, recursive).None? { RemovePrunesIff(db, p, recursive); }
    case _ =>
  }

  // ---- Runs ----

  /** A refused step is rolled back. */
  ghost function After(db: Tables, op: Op): Tables {
    if HasRoot(db.zones) && db.nextId !in db.zones && Step(db, op).Success? then Step(db, op).value.db else db
  }

  /** The states of a run, the initial one included. */
  ghost function States(db: Tables, ops: seq<Op>): (r: seq<Tables>)
    ensures |r| == |ops| + 1 && r[0] == db
    decreases |ops|
  {
    if ops == [] then [db] else [db] + States(After(db, ops[0]), ops[1..])
  }

  ghost predicate AllSupported(db: Tables, ops: seq<Op>) {
    forall i :: 0 <= i < |ops| ==> Supported(States(db, ops)[i], ops[i])
  }

  /** A volume just created: a root zone and nothing else. */
  const NEW_VOLUME: Tables :=
    Tables(map[0 := Zone([], None, None, "")], map[], 1, Store(map[], map[], map[], 0, 0))

  lemma NewVolumeIsValid()
    ensures Inv(NEW_VOLUME) && TreeOf(NEW_VOLUME) == map[[] := Node(0, Dir, [], None)]
  {
    hide Denote;
    assert NEW_VOLUME.zones[0].path == [];
    var t: Tree := map[[] := Node(0, Dir, [], None)];
    NewVolumeNamespace();
    hide Namespace, TreeOf, NodeOf;
    TreeIs(NEW_VOLUME, t);
  }

  lemma NewVolumeNamespace()
    ensures Namespace(NEW_VOLUME.zones, NEW_VOLUME.entries, NEW_VOLUME.nextId)
  {
    assert 0 in NEW_VOLUME.zones && NEW_VOLUME.zones[0].path == [];
  }

  lemma AfterKeeps(db: Tables, op: Op)
    requires Inv(db) && Supported(db, op)
    ensures Inv(After(db, op))
  {
    hide Inv, Supported, Step, Refusal, Change, AllReferenced, HasRoot, Op.PathsOk;
    StepMeets(db, op);
  }

  /** Over every run, each state is valid and each step means one edit of the tree or a refusal
      that changes nothing. */
  lemma {:induction false} RunRefinesTrees(db: Tables, ops: seq<Op>)
    requires Inv(db) && AllSupported(db, ops)
    ensures var s := States(db, ops);
            && (forall i :: 0 <= i <= |ops| ==> Inv(s[i]) && HasRoot(s[i].zones) && s[i].nextId !in s[i].zones)
            && forall i :: 0 <= i < |ops| ==> Meets(s[i], ops[i], Step(s[i], ops[i])) && s[i + 1] == After(s[i], ops[i])
    decreases |ops|
  {
    hide Inv, Supported, Step, Meets, After, HasRoot;
    Ready(db);
    if ops != [] {
      var rest := States(After(db, ops[0]), ops[1..]);
      assert States(db, ops) == [db] + rest;
      assert Supported(db, ops[0]) by { assert Supported(States(db, ops)[0], ops[0]); }
      AfterKeeps(db, ops[0]);
      StepMeets(db, ops[0]);
      assert AllSupported(After(db, ops[0]), ops[1..]) by {
        forall i | 0 <= i < |ops| - 1 ensures Supported(rest[i], ops[1..][i]) {
          assert Supported(States(db, ops)[i + 1], ops[i + 1]);
        }
      }
      RunRefinesTrees(After(db, ops[0]), ops[1..]);
      var s := States(db, ops);
      forall i | 0 <= i < |ops| ensures Meets(s[i], ops[i], Step(s[i], ops[i])) && s[i + 1] == After(s[i], ops[i]) {
        if i > 0 { assert s[i] == rest[i - 1] && s[i + 1] == rest[i] && ops[i] == ops[1..][i - 1]; }
      }
    }
  }

  // ---- Isolation ----

  /** The command may replace, re-root or delete the node at `q`. */
  predicate Touches(op: Op, q: Path) {
    match op
    case MkdirOp(_, _) => false
    case WriteOp(_, _, _) => q == op.Target()
    case CopyOp(_, _, _, _) => false
    case MoveOp(_, _) => op.Source() <= q || op.Target() <= q
    case RemoveOp(_, _) => op.Target() <= q
    case ImportOp(_, _, _) => false
    case ImportTextOp(_, _) => q == op.Target()
  }

  lemma ChangeLeaves(t: Tree, u: Tree, op: Op, next: NodeId, count: nat, q: Path)
    requires IsTree(t) && q in t && !Touches(op, q) && Change(t, u, op, next, count)
    requires op.MoveOp? ==> MoveRefusal(t, op.Source(), op.Target()).None?
    requires op.MkdirOp? && !op.parents && op.Target() != [] ==> op.Target() !in t
    ensures q in u && u[q] == t[q]
  {
    hide IsTree, FreshId, Moved, MoveRefusal, IsStaged, StagedNode, Parse;
    if op.MoveOp? { MovedMeans(t, op.Source(), op.Target(), q); }
  }

  lemma AcceptedFacts(db: Tables, op: Op)
    requires Refusal(db, op).None?
    ensures op.MoveOp? ==> MoveRefusal(TreeOf(db), op.Source(), op.Target()).None?
    ensures op.MkdirOp? && !op.parents && op.Target() != [] ==> op.Target() !in TreeOf(db)
  {
    hide TreeOf, MoveRefusal, HoldsZones, ZonesBelow, CopyRefusal, WriteRefusal, RemoveRefusal, ImportRefusal, BlockedParents, Importable, BatchOk, Parse;
  }

  lemma StepLeaves(db: Tables, op: Op, q: Path)
    requires Inv(db) && Supported(db, op) && q in TreeOf(db) && !Touches(op, q)
    ensures q in TreeOf(After(db, op)) && TreeOf(After(db, op))[q] == TreeOf(db)[q]
  {
    hide Inv, Supported, TreeOf, Step, Refusal, Change, Touches, HasRoot, AllReferenced, IsTree, IdsDistinct, ValidPath, Op.PathsOk, Op.Target, Op.Source, MoveRefusal;
    Ready(db);
    InvHasNamespace(db);
    RowsMakeTree(db);
    StepMeets(db, op);
    if op.PathsOk() && Refusal(db, op).None? {
      AcceptedFacts(db, op);
      var done := Step(db, op).value;
      ChangeLeaves(TreeOf(db), TreeOf(done.db), op, db.nextId, done.count, q);
    }
  }

  lemma {:induction false} RunLeaves(db: Tables, ops: seq<Op>, q: Path)
    requires Inv(db) && AllSupported(db, ops) && q in TreeOf(db)
    requires forall i :: 0 <= i < |ops| ==> !Touches(ops[i], q)
    ensures var last := States(db, ops)[|ops|]; Inv(last) && q in TreeOf(last) && TreeOf(last)[q] == TreeOf(db)[q]
    decreases |ops|
  {
    hide Inv, Supported, TreeOf, After, Touches;
    if ops != [] {
      var next := After(db, ops[0]);
      var rest := States(next, ops[1..]);
      assert States(db, ops) == [db] + rest;
      assert Supported(db, ops[0]) by { assert Supported(States(db, ops)[0], ops[0]); }
      AfterKeeps(db, ops[0]);
      StepLeaves(db, ops[0], q);
      assert AllSupported(next, ops[1..]) by {
        forall i | 0 <= i < |ops| - 1 ensures Supported(rest[i], ops[1..][i]) {
          assert Supported(States(db, ops)[i + 1], ops[i + 1]);
        }
      }
      RunLeaves(next, ops[1..], q);
    }
  }

  /** Over every run, a file no command of the run touches reads at the end as at the start,
      whatever happened to the copies that share its content. */
  lemma RunIsIsolated(db: Tables, ops: seq<Op>, q: Path, start: nat, count: nat)
    requires Inv(db) && AllSupported(db, ops) && q in TreeOf(db) && TreeOf(db)[q].kind == File && count <= RANGE_LIMIT
    requires forall i :: 0 <= i < |ops| ==> !Touches(ops[i], q)
    ensures HasRoot(db.zones) && HasRoot(States(db, ops)[|ops|].zones)
    ensures var last := States(db, ops)[|ops|];
            && ReadRange(last, q, start, count) == ReadRange(db, q, start, count)
            && (|TreeOf(db)[q].bytes| <= WHOLE_READ_LIMIT ==> ReadFile(last, q) == ReadFile(db, q))
  {
    hide Inv, Supported, TreeOf, After, Touches, States, AllSupported, ReadRange, ReadFile, HasRoot;
    RunLeaves(db, ops, q);
    ReadsFromTree(db, States(db, ops)[|ops|], q, start, count);
  }
}
