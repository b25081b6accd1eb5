/** A copy that comes out right although its test misses a row below the source: it selects another row in
    its place whose copy looks the same. */
module Coincidence {
  import opened Basics
  import opened Patterns
  import opened Paths
  import opened Tables
  import opened Trees
  import opened Surgery
  import opened Grafting
  import opened Wildcards
  import opened Content
  import opened Commands
  import opened Addresses
  import opened Transplanting
  import opened Creating
  import opened Copying
  import opened Departures

  const SOURCE: Path := ["\\%%"]

  const LOST: Path := ["\\%%", "x"]

  const OTHER: Path := ["%ab"]

  const TAKEN: Path := ["%ab", "x"]

  const TOP := Key(0, SOURCE)

  const MISSED := Key(0, LOST)

  const SIBLING := Key(0, OTHER)

  const CHOSEN := Key(0, TAKEN)

  /** The directories `/\%%`, `/\%%/x`, `/%ab` and `/%ab/x`. */
  const ESCAPED: Tables :=
    Tables(map[0 := ROOT_ZONE],
           map[TOP := Entry(1, [], "\\%%", DIRECTORY),
               MISSED := Entry(2, SOURCE, "x", DIRECTORY),
               SIBLING := Entry(3, [], "%ab", DIRECTORY),
               CHOSEN := Entry(4, OTHER, "x", DIRECTORY)],
           5, NO_CONTENT)

  lemma PathsDiffer()
    ensures SOURCE != LOST && SOURCE != OTHER && SOURCE != TAKEN && LOST != OTHER && LOST != TAKEN && OTHER != TAKEN
    ensures SOURCE <= LOST && !(SOURCE <= OTHER) && !(SOURCE <= TAKEN)
  {
    assert "\\%%"[0] != "%ab"[0] && SOURCE[0] == LOST[0] == "\\%%" && OTHER[0] == TAKEN[0] == "%ab";
    assert |SOURCE| == |OTHER| == 1 && |LOST| == |TAKEN| == 2;
  }

  lemma EscapedRows(k: Key)
    ensures k in ESCAPED.entries <==> k == TOP || k == MISSED || k == SIBLING || k == CHOSEN
    ensures ESCAPED.entries[TOP] == Entry(1, [], "\\%%", DIRECTORY)
    ensures ESCAPED.entries[MISSED] == Entry(2, SOURCE, "x", DIRECTORY)
    ensures ESCAPED.entries[SIBLING] == Entry(3, [], "%ab", DIRECTORY)
    ensures ESCAPED.entries[CHOSEN] == Entry(4, OTHER, "x", DIRECTORY)
  {
    PathsDiffer();
  }

  lemma EscapedNames()
    ensures ValidPath(SOURCE) && ValidPath(LOST) && ValidPath(OTHER) && ValidPath(TAKEN) && ValidPath(["d"]) && ValidPath(["d", "x"])
    ensures DropLast(LOST) == SOURCE && DropLast(TAKEN) == OTHER && DropLast(SOURCE) == [] && DropLast(OTHER) == []
    ensures Last(LOST) == Last(TAKEN) == "x" && Last(SOURCE) == "\\%%" && Last(OTHER) == "%ab"
  {
  }

  lemma EscapedRow(k: Key)
    requires k in ESCAPED.entries
    ensures |k.rel| > 1 ==> IsDirectory(ESCAPED.entries, Key(k.zone, DropLast(k.rel)))
    ensures ESCAPED.entries[k].parentPath == DropLast(k.rel) && ESCAPED.entries[k].name == Last(k.rel)
    ensures k.zone == 0 && k.rel != [] && ValidPath(k.rel) && 0 < ESCAPED.entries[k].id < 5 && ESCAPED.entries[k].payload == DIRECTORY
  {
    EscapedRows(k);
    EscapedNames();
    hide ValidPath;
  }

  lemma EscapedIds(j: Key, k: Key)
    requires j in ESCAPED.entries && k in ESCAPED.entries && ESCAPED.entries[j].id == ESCAPED.entries[k].id
    ensures j == k
  {
    EscapedRows(j);
    EscapedRows(k);
  }

  lemma EscapedIsValid()
    ensures Inv(ESCAPED) && HasRoot(ESCAPED.zones) && ZonePathsUnique(ESCAPED.zones)
  {
    hide ValidPath, IsDirectory, Homed, NamesValid, ZoneParents, ZonePathsUnique, StoreOk, HasRoot;
    NoContentOk();
    forall k | k in ESCAPED.entries
      ensures k.zone == 0 && k.rel != [] && ValidPath(k.rel) && 0 < ESCAPED.entries[k].id < 5 && ESCAPED.entries[k].payload == DIRECTORY
      ensures |k.rel| > 1 ==> IsDirectory(ESCAPED.entries, Key(k.zone, DropLast(k.rel)))
      ensures ESCAPED.entries[k].parentPath == DropLast(k.rel) && ESCAPED.entries[k].name == Last(k.rel)
    {
      EscapedRow(k);
    }
    forall j, k | j in ESCAPED.entries && k in ESCAPED.entries && ESCAPED.entries[j].id == ESCAPED.entries[k].id ensures j == k {
      EscapedIds(j, k);
    }
    OneZoneHolds(ESCAPED.entries);
  }

  // ---- What the test selects ----

  lemma EscapedTexts()
    ensures Join(SOURCE) == "\\%%" && Join(LOST) == "\\%%/x" && Join(OTHER) == "%ab" && Join(TAKEN) == "%ab/x"
  {
    assert LOST[1..] == ["x"] && TAKEN[1..] == ["x"];
  }

  lemma EscapedTests()
    ensures !Like("\\%%/x", "\\%%/%", TEXT) && !Like("%ab", "\\%%/%", TEXT) && Like("%ab/x", "\\%%/%", TEXT)
    ensures !Like("/d", "/\\%%/%", TEXT)
  {
    var p := "\\%%/%";
    assert p[2..] == "%/%" && p[1] == '%' && "%/%"[1..] == "/%" && "/%"[1..] == "%";
    assert "%ab/x"[1..] == "ab/x" && "ab/x"[1..] == "b/x" && "b/x"[1..] == "/x" && "/x"[1..] == "x";
    assert "%ab"[1..] == "ab" && "ab"[1..] == "b" && "b"[1..] == "";
    LikeAnything("x", TEXT);
    assert Like("/x", "/%", TEXT) && Like("/x", "%/%", TEXT) && Like("b/x", "%/%", TEXT) && Like("ab/x", "%/%", TEXT);
    assert !Like("", "%/%", TEXT) && !Like("b", "%/%", TEXT) && !Like("ab", "%/%", TEXT);
    assert "/\\%%/%"[1..] == p && "/d"[1..] == "d";
  }

  lemma EscapedSelected()
    ensures !UnderRel(SOURCE, LOST) && !UnderRel(SOURCE, OTHER) && UnderRel(SOURCE, TAKEN) && !AtOrUnder(SOURCE, ["d"])
  {
    EscapedTexts();
    EscapedTests();
    hide Join, Like;
    assert "\\%%" + "/" + ['%'] == "\\%%/%";
    assert "/" + "\\%%" + "/" + ['%'] == "/\\%%/%";
    assert Join(["d"]) == "d" && "/" + "d" == "/d" by { OneName("d"); }
    assert ["d"] != SOURCE by { assert |"d"| != |"\\%%"| && SOURCE[0] == "\\%%"; }
  }

  lemma OneName(n: string)
    ensures Join([n]) == n
  {
  }

  lemma CopiedAndBelow()
    ensures CopiedKeys(ESCAPED, Location(0, SOURCE), true) == {TOP, CHOSEN}
    ensures Below(ESCAPED.entries, TOP) == {TOP, MISSED}
  {
    PathsDiffer();
    EscapedSelected();
    hide UnderRel, AtOrUnder;
    forall k ensures k in CopiedKeys(ESCAPED, Location(0, SOURCE), true) <==> k == TOP || k == CHOSEN { EscapedRows(k); }
    forall k ensures k in Below(ESCAPED.entries, TOP) <==> k == TOP || k == MISSED { EscapedRows(k); }
  }

  // ---- The rows of the copy ----

  const TARGET: Path := ["d"]

  const COPY := Key(0, TARGET)

  const COPY_BELOW := Key(0, ["d", "x"])

  /** The two new rows. */
  function Added(top: NodeId, below: NodeId): Entries {
    map[COPY := Entry(top, [], "d", DIRECTORY), COPY_BELOW := Entry(below, TARGET, "x", DIRECTORY)]
  }

  lemma AddedRows(top: NodeId, below: NodeId, k: Key)
    ensures k in Added(top, below) <==> k == COPY || k == COPY_BELOW
    ensures Added(top, below)[COPY] == Entry(top, [], "d", DIRECTORY)
    ensures Added(top, below)[COPY_BELOW] == Entry(below, TARGET, "x", DIRECTORY)
    ensures COPY != COPY_BELOW
  {
    assert |TARGET| != |["d", "x"]|;
  }

  /** What the rewriting of the path texts makes of the selected rows. */
  lemma RewrittenTexts()
    ensures TextRerootRel(SOURCE, SOURCE, TARGET) == TARGET && TextRerootRel(TAKEN, SOURCE, TARGET) == ["d", "x"]
    ensures ParseRel(RelativeParent(RenderRel(TARGET))) == [] && ParseRel(RelativeParent(RenderRel(["d", "x"]))) == TARGET
  {
    EscapedTexts();
    EscapedNames();
    OneName("d");
    assert Join(["d", "x"]) == "d/x" by { assert ["d", "x"][1..] == ["x"]; }
    assert "%ab/x"[3..] == "/x" && "d" + "/x" == "d/x" && "d" + "" == "d";
    ParseRender(TARGET);
    ParseRender(["d", "x"]);
    ParseRender([]);
    RelativeParentMeansDropLast(TARGET);
    RelativeParentMeansDropLast(["d", "x"]);
    assert DropLast(TARGET) == [] && DropLast(["d", "x"]) == TARGET;
  }

  lemma CopiedRows(order: RowOrder, k: Key)
    requires Enumerating(order)
    ensures var ids := Assign(order({TOP, CHOSEN}), 5);
            var copies := CopiedEntries(ESCAPED, Location(0, SOURCE), TARGET, COPY, true, order);
            && ids.Keys == {TOP, CHOSEN}
            && (k in copies <==> k in ids) && TOP in copies && CHOSEN in copies
            && copies[TOP] == Placed(COPY, Entry(ids[TOP], [], "d", DIRECTORY))
            && copies[CHOSEN] == Placed(COPY_BELOW, Entry(ids[CHOSEN], TARGET, "x", DIRECTORY))
  {
    CopiedAndBelow();
    PathsDiffer();
    EscapedRows(k);
    RewrittenTexts();
    hide Enumerating, Assign, TextRerootRel, ParseRel, RelativeParent, RenderRel, CopiedKeys;
    AssignedIds(order, {TOP, CHOSEN}, 5);
    assert Last(TARGET) == "d";
  }

  lemma CopiesAdded(order: RowOrder)
    requires Enumerating(order)
    ensures var ids := Assign(order({TOP, CHOSEN}), 5); var copies := CopiedEntries(ESCAPED, Location(0, SOURCE), TARGET, COPY, true, order);
            && TOP in ids && CHOSEN in ids && copies.Keys == {TOP, CHOSEN}
            && PutRows(ESCAPED.entries, copies) == ESCAPED.entries + Added(ids[TOP], ids[CHOSEN])
  {
    hide Enumerating, Assign, CopiedEntries, PutRows, Added;
    var ids := Assign(order({TOP, CHOSEN}), 5);
    var copies := CopiedEntries(ESCAPED, Location(0, SOURCE), TARGET, COPY, true, order);
    forall k ensures k in copies <==> k == TOP || k == CHOSEN { CopiedRows(order, k); }
    CopiedRows(order, TOP);
    forall k ensures k in Added(ids[TOP], ids[CHOSEN]) <==> k == COPY || k == COPY_BELOW { AddedRows(ids[TOP], ids[CHOSEN], k); }
    AddedRows(ids[TOP], ids[CHOSEN], COPY);
    PutRowsIs(ESCAPED.entries, copies, Added(ids[TOP], ids[CHOSEN]));
  }

  lemma CopiesFit(order: RowOrder)
    requires Enumerating(order)
    ensures var copies := CopiedEntries(ESCAPED, Location(0, SOURCE), TARGET, COPY, true, order);
            !Collides(ESCAPED.entries, copies) && |copies| == 2
  {
    hide Enumerating, Assign, CopiedEntries;
    var copies := CopiedEntries(ESCAPED, Location(0, SOURCE), TARGET, COPY, true, order);
    PathsDiffer();
    forall k ensures k in copies <==> k == TOP || k == CHOSEN { CopiedRows(order, k); }
    CopiedRows(order, TOP);
    TargetIsFree();
    AddedRows(0, 0, COPY);
    assert copies.Keys == {TOP, CHOSEN};
    MapOfTwo(copies, TOP, CHOSEN);
  }

  lemma MapOfTwo<V>(m: map<Key, V>, a: Key, b: Key)
    requires m.Keys == {a, b} && a != b
    ensures |m| == 2
  {
    assert |m.Keys| == 2;
  }

  lemma TargetIsFree()
    ensures COPY !in ESCAPED.entries && COPY_BELOW !in ESCAPED.entries
  {
    EscapedRows(COPY);
    EscapedRows(COPY_BELOW);
    assert "d"[0] != '%' && "d"[0] != '\\' && TARGET[0] == "d" && ["d", "x"][0] == "d";
    assert SOURCE[0][0] == LOST[0][0] == '\\' && OTHER[0][0] == TAKEN[0][0] == '%';
  }

  // ---- The copy of the right rows ----

  /** The same order, with the missed row in the place of the one selected for it. */
  ghost function Swapped(order: RowOrder): RowOrder {
    (keys: set<Key>) =>
      if keys == {TOP, MISSED} then
        if order({TOP, CHOSEN}) == [TOP, CHOSEN] then [TOP, MISSED]
        else [MISSED, TOP]
      else order(keys)
  }

  lemma SwappedEnumerates(order: RowOrder)
    requires Enumerating(order)
    ensures Enumerating(Swapped(order))
  {
    PathsDiffer();
    forall keys: set<Key> ensures IsEnumeration(Swapped(order)(keys), keys) {
      assert IsEnumeration(order(keys), keys);
    }
  }

  lemma TwoRows(rows: seq<Key>, a: Key, b: Key)
    requires IsEnumeration(rows, {a, b}) && a != b
    ensures rows == [a, b] || rows == [b, a]
  {
    assert a in rows && b in rows;
    EnumerationRest(rows, {a, b});
    assert {a, b} - {rows[0]} == {if rows[0] == a then b else a};
    OneRow(rows[1..], if rows[0] == a then b else a);
    assert rows == [rows[0]] + rows[1..];
  }

  lemma OneRow(rows: seq<Key>, a: Key)
    requires IsEnumeration(rows, {a})
    ensures rows == [a]
  {
    assert a in rows;
    EnumerationRest(rows, {a});
    assert {a} - {rows[0]} == {};
    IdsOfEnumeration(rows[1..], {}, 0);
    FirstHasId(rows[1..], 0);
    assert rows == [rows[0]] + rows[1..];
  }

  lemma FirstHasId(rows: seq<Key>, next: NodeId)
    ensures rows == [] || Assign(rows, next) != map[]
  {
    if rows != [] { assert rows[0] in Assign(rows, next); }
  }

  lemma SwappedIds(order: RowOrder)
    requires Enumerating(order)
    ensures var a, b := {TOP, CHOSEN}, {TOP, MISSED};
            var ids, swapped := Assign(order(a), 5), Assign(Swapped(order)(b), 5);
            && ids.Keys == a && swapped.Keys == b
            && swapped[TOP] == ids[TOP] && swapped[MISSED] == ids[CHOSEN]
  {
    PathsDiffer();
    var a := {TOP, CHOSEN};
    assert IsEnumeration(order(a), a);
    hide Enumerating, IsEnumeration;
    TwoRows(order(a), TOP, CHOSEN);
    AssignTwo(TOP, CHOSEN, 5);
    AssignTwo(CHOSEN, TOP, 5);
    AssignTwo(TOP, MISSED, 5);
    AssignTwo(MISSED, TOP, 5);
    hide Assign;
    assert [CHOSEN, TOP][0] != [TOP, CHOSEN][0];
  }

  lemma AssignTwo(a: Key, b: Key, next: NodeId)
    requires a != b
    ensures Assign([a, b], next) == map[a := next, b := next + 1]
  {
    assert [a, b][1..] == [b] && [b][1..] == [];
    assert Assign([b], next + 1) == map[b := next + 1];
    assert map[b := next + 1][a := next] == map[a := next, b := next + 1];
  }

  lemma TransplantedRows(ids: map<Key, NodeId>, k: Key)
    requires ids.Keys == {TOP, MISSED}
    ensures var moves := Transplanted(ESCAPED.entries, TOP, ids, COPY);
            && (k in moves <==> k in ids)
            && TOP in moves && moves[TOP] == Placed(COPY, Entry(ids[TOP], [], "d", DIRECTORY))
            && MISSED in moves && moves[MISSED] == Placed(COPY_BELOW, Entry(ids[MISSED], TARGET, "x", DIRECTORY))
  {
    CopiedAndBelow();
    PathsDiffer();
    EscapedRows(k);
    assert LOST[1..] == ["x"] && SOURCE[1..] == [] && TARGET + ["x"] == ["d", "x"] && TARGET + [] == TARGET;
    assert DropLast(["d", "x"]) == TARGET && DropLast(TARGET) == [] && Last(["d", "x"]) == "x" && Last(TARGET) == "d";
    hide Below;
  }

  lemma TransplantedAdded(ids: map<Key, NodeId>)
    requires ids.Keys == {TOP, MISSED}
    ensures PutRows(ESCAPED.entries, Transplanted(ESCAPED.entries, TOP, ids, COPY)) ==
            ESCAPED.entries + Added(ids[TOP], ids[MISSED])
  {
    hide Transplanted, PutRows, Added;
    var moves := Transplanted(ESCAPED.entries, TOP, ids, COPY);
    forall k ensures k in moves <==> k == TOP || k == MISSED { TransplantedRows(ids, k); }
    TransplantedRows(ids, TOP);
    forall k ensures k in Added(ids[TOP], ids[MISSED]) <==> k == COPY || k == COPY_BELOW {
      AddedRows(ids[TOP], ids[MISSED], k);
    }
    AddedRows(ids[TOP], ids[MISSED], COPY);
    PutRowsIs(ESCAPED.entries, moves, Added(ids[TOP], ids[MISSED]));
  }

  // ---- The command ----

  lemma EscapedAddress()
    ensures HasRoot(ESCAPED.zones) && Locate(ESCAPED.zones, SOURCE) == Location(0, SOURCE)
    ensures EntryKey(ESCAPED.zones, TARGET) == COPY
    ensures !IsZonePath(ESCAPED, SOURCE) && !ZonesBelow(ESCAPED, SOURCE) && !HasNestedZones(ESCAPED.zones, SOURCE)
  {
    EscapedIsValid();
    hide Inv, Under, ValidPath;
    assert ESCAPED.zones.Keys == {0} && ESCAPED.zones[0].path == [];
    assert IsDeepest(ESCAPED.zones, SOURCE, 0) && IsDeepest(ESCAPED.zones, [], 0);
    LocateIsCanonical(ESCAPED.zones, SOURCE, 0, SOURCE);
    LocateIsCanonical(ESCAPED.zones, [], 0, []);
    assert DropLast(TARGET) == [] && [] + [Last(TARGET)] == TARGET;
    EscapedNames();
    RootNotUnder(SOURCE);
  }

  lemma EscapedTree()
    ensures CopyRefusal(TreeOf(ESCAPED), SOURCE, TARGET, true).None?
    ensures SOURCE in TreeOf(ESCAPED) && TARGET !in TreeOf(ESCAPED) && TreeKind(TreeOf(ESCAPED), DropLast(TARGET)) == Some(Dir)
    ensures KindOf(ESCAPED, TARGET).None? && ParentIsDirectory(ESCAPED, TARGET)
  {
    EscapedIsValid();
    hide Inv, TreeOf, KindOf, HasRoot, Locate, PathOf;
    InvHasNamespace(ESCAPED);
    EscapedRows(TOP);
    EntryInTree(ESCAPED, TOP);
    PathsInRoot(ESCAPED.zones, SOURCE);
    RootInTree(ESCAPED);
    EscapedAddress();
    TargetIsFree();
    LookupKind(ESCAPED, TARGET);
    TargetIsMissing();
    ParentMeansTree(ESCAPED, TARGET);
    assert DropLast(TARGET) == [];
    assert !(SOURCE <= TARGET) by { assert "d"[0] != "\\%%"[0] && SOURCE[0] == "\\%%" && TARGET[0] == "d"; }
  }

  lemma TargetIsMissing()
    ensures TARGET !in TreeOf(ESCAPED)
  {
    hide TreeOf, PathOf, Namespace;
    EscapedIsValid();
    if TARGET in TreeOf(ESCAPED) {
      PathIsRow(ESCAPED, TARGET);
      assert ESCAPED.zones.Keys == {0} && ESCAPED.zones[0].path == [];
      var k :| k in ESCAPED.entries && PathOf(ESCAPED.zones, k) == TARGET;
      EscapedRow(k);
      PathsInRoot(ESCAPED.zones, k.rel);
      assert k == COPY;
      TargetIsFree();
    }
  }

  /** The copy is as it should be, though its test judges wrongly. */
  lemma CopyComesOutRight(order: RowOrder)
    requires Enumerating(order)
    ensures Inv(ESCAPED) && HasRoot(ESCAPED.zones)
    ensures CopiesTree(ESCAPED, SOURCE, TARGET, true, order) && !CopyJudged(ESCAPED, SOURCE, TARGET, true)
  {
    hide Inv, TreeOf, KindOf, ParentIsDirectory, Locate, HasRoot, EntryKey, CopiedEntries, PutRows, Transplanted, Collides, Assign, Duplicated, Subtree,
         HasNestedZones, IsZonePath, ZonesBelow, AtOrUnder, CopiedKeys, Below, Swapped, Added, TreeKind, CopyRefusal, Copy, Enumerating, EntrySource, ValidPath;
    EscapedIsValid();
    InvHasNamespace(ESCAPED);
    EscapedAddress();
    EscapedTree();
    EscapedSelected();
    EscapedNames();
    EscapedRows(TOP);
    CopyUnfolds(ESCAPED, SOURCE, TARGET, true, order);
    CopiesAdded(order);
    CopiesFit(order);
    SwappedEnumerates(order);
    SwappedIds(order);
    CopiedAndBelow();
    TransplantedAdded(Assign(Swapped(order)({TOP, MISSED}), 5));
    EntrySourceAt(ESCAPED, SOURCE);
    CopiedEntriesPlanted(ESCAPED, SOURCE, TARGET, Location(0, SOURCE), Swapped(order));
    PathsDiffer();
    assert |{TOP, MISSED}| == 2;
    assert MISSED in {TOP, MISSED} && MISSED !in {TOP, CHOSEN};
  }
}
