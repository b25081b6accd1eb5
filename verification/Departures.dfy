/** Inputs at which the program leaves its intent: whole volumes and the commands that go wrong on
    them. */
module Departures {
  import opened Basics
  import opened Patterns
  import opened Paths
  import opened Tables
  import opened Trees
  import opened Surgery
  import opened Grafting
  import opened Content
  import opened Commands
  import opened Creating
  import opened Removing
  import opened Moving
  import opened Copying
  import opened Transplanting
  import opened Counters
  import opened Usage

  const NO_CONTENT: Store := Store(map[], map[], map[], 0, 0)

  const ROOT_ZONE := Zone([], None, None, "")

  lemma NoContentOk()
    ensures StoreOk(NO_CONTENT)
  {
  }

  // ---- A wildcard in the target of a remove ----

  /** The directories `/a_`, `/ab` and `/ab/c`. */
  const SIBLINGS: Tables :=
    Tables(map[0 := ROOT_ZONE],
           map[Key(0, ["a_"]) := Entry(1, [], "a_", DIRECTORY),
               Key(0, ["ab"]) := Entry(2, [], "ab", DIRECTORY),
               Key(0, ["ab", "c"]) := Entry(3, ["ab"], "c", DIRECTORY)],
           4, NO_CONTENT)

  lemma OneZoneHolds(entries: Entries)
    requires forall k :: k in entries ==> k.zone == 0 && k.rel != [] && ValidPath(k.rel)
    ensures var zones: Zones := map[0 := ROOT_ZONE];
            HasRoot(zones) && ZonePathsUnique(zones) && NamesValid(zones, entries) && Homed(zones, entries) && ZoneParents(zones, entries)
  {
    var zones: Zones := map[0 := ROOT_ZONE];
    assert zones[0].path == [];
  }

  lemma SiblingNames()
    ensures ValidPath(["a_"]) && ValidPath(["ab"]) && ValidPath(["ab", "c"])
  {
  }

  const A_: Key := Key(0, ["a_"])

  const AB: Key := Key(0, ["ab"])

  const ABC: Key := Key(0, ["ab", "c"])

  lemma SiblingRows(k: Key)
    ensures k in SIBLINGS.entries <==> k == A_ || k == AB || k == ABC
    ensures SIBLINGS.entries[A_] == Entry(1, [], "a_", DIRECTORY)
    ensures SIBLINGS.entries[AB] == Entry(2, [], "ab", DIRECTORY)
    ensures SIBLINGS.entries[ABC] == Entry(3, ["ab"], "c", DIRECTORY)
  {
    KeysDiffer();
  }

  lemma KeysDiffer()
    ensures A_ != AB && A_ != ABC && AB != ABC && !(["a_"] <= ["ab"]) && !(["a_"] <= ["ab", "c"])
  {
    assert "a_"[1] != "ab"[1] && ["a_"][0] != ["ab"][0] && |["ab"]| != |["ab", "c"]|;
    assert ["a_"][0] != ["ab", "c"][0];
  }

  lemma SiblingParents(k: Key)
    requires k in SIBLINGS.entries
    ensures |k.rel| > 1 ==> IsDirectory(SIBLINGS.entries, Key(k.zone, DropLast(k.rel)))
    ensures SIBLINGS.entries[k].parentPath == DropLast(k.rel) && SIBLINGS.entries[k].name == Last(k.rel)
    ensures k.zone == 0 && k.rel != [] && ValidPath(k.rel)
  {
    SiblingRows(k);
    SiblingNames();
    hide ValidPath;
    assert DropLast(["ab", "c"]) == ["ab"] && DropLast(["a_"]) == [] && DropLast(["ab"]) == [];
  }

  lemma SiblingIds(k: Key)
    requires k in SIBLINGS.entries
    ensures 0 < SIBLINGS.entries[k].id < 4 && PayloadOk(NO_CONTENT, SIBLINGS.entries[k].payload)
    ensures SIBLINGS.entries[k].id == 1 ==> k == A_
    ensures SIBLINGS.entries[k].id == 2 ==> k == AB
    ensures SIBLINGS.entries[k].id == 3 ==> k == ABC
  {
    SiblingRows(k);
  }

  lemma SiblingsAreValid()
    ensures Inv(SIBLINGS)
  {
    hide ValidPath, PayloadOk, IsDirectory, Homed, NamesValid, ZoneParents, ZonePathsUnique, StoreOk, HasRoot;
    NoContentOk();
    forall k | k in SIBLINGS.entries
      ensures k.zone == 0 && k.rel != [] && ValidPath(k.rel)
      ensures |k.rel| > 1 ==> IsDirectory(SIBLINGS.entries, Key(k.zone, DropLast(k.rel)))
      ensures SIBLINGS.entries[k].parentPath == DropLast(k.rel) && SIBLINGS.entries[k].name == Last(k.rel)
    {
      SiblingParents(k);
    }
    forall k | k in SIBLINGS.entries
      ensures 0 < SIBLINGS.entries[k].id < 4 && PayloadOk(NO_CONTENT, SIBLINGS.entries[k].payload)
    {
      SiblingIds(k);
    }
    forall j, k | j in SIBLINGS.entries && k in SIBLINGS.entries && SIBLINGS.entries[j].id == SIBLINGS.entries[k].id ensures j == k {
      SiblingIds(j);
      SiblingIds(k);
    }
    OneZoneHolds(SIBLINGS.entries);
  }

  lemma SiblingTexts()
    ensures UnderRel(["a_"], ["ab", "c"]) && !UnderRel(["a_"], ["ab"]) && !Under(["a_"], [])
  {
    var p := "a_/" + "%";
    assert Join(["ab", "c"]) == "ab/c" by { assert ["ab", "c"][1..] == ["c"]; }
    assert p == "a_/%" && p[1..] == "_/%" && "_/%"[1..] == "/%" && "/%"[1..] == "%" && "%"[1..] == "";
    assert "ab/c"[1..] == "b/c" && "b/c"[1..] == "/c" && "/c"[1..] == "c" && "c"[1..] == "";
    assert "ab"[1..] == "b" && "b"[1..] == "";
    LikeAnything("c", TEXT);
    assert Like("c", "%", TEXT) && Like("/c", "/%", TEXT) && Like("b/c", "_/%", TEXT) && Like("ab/c", p, TEXT);
    assert !Like("", "/%", TEXT) && !Like("b", "_/%", TEXT) && !Like("ab", p, TEXT);
    assert RenderRel(["a_"]) + "/" == "a_/" && RenderRel(["ab"]) == "ab";
    var q := "/a_/" + "%";
    assert Render(["a_"]) + "/" == "/a_/" && Render([]) == "/";
    assert q == "/a_/%" && q[1..] == p && "/"[1..] == "";
    assert !Like("", p, TEXT) && !Like("/", q, TEXT);
  }

  lemma SiblingAddress()
    ensures HasRoot(SIBLINGS.zones) && Locate(SIBLINGS.zones, ["a_"]) == Location(0, ["a_"])
    ensures KindOf(SIBLINGS, ["a_"]) == Some(Dir)
  {
    SiblingsAreValid();
    OneZoneHolds(SIBLINGS.entries) by { SiblingNames(); }
    assert IsDeepest(SIBLINGS.zones, ["a_"], 0);
    LocateIsCanonical(SIBLINGS.zones, ["a_"], 0, ["a_"]);
    SiblingRows(A_);
  }

  /** The rows the statements select. */
  lemma SelectedSiblings()
    ensures RemovedZones(SIBLINGS, ["a_"], Location(0, ["a_"]), true) == {}
    ensures RemovedEntries(SIBLINGS, ["a_"], Location(0, ["a_"]), true) == {A_, ABC}
  {
    SiblingTexts();
    KeysDiffer();
    hide Under, UnderRel;
    var l := Location(0, ["a_"]);
    assert SIBLINGS.zones.Keys == {0} && SIBLINGS.zones[0].path == [];
    assert RemovedZones(SIBLINGS, ["a_"], l, true) == {};
    forall k ensures k in RemovedEntries(SIBLINGS, ["a_"], l, true) <==> k == A_ || k == ABC { SiblingRows(k); }
  }

  /** What is left are the root and `/ab`. */
  lemma SiblingsLeft()
    ensures TreeOf(DeleteRows(SIBLINGS, {}, {A_, ABC})).Keys == {[], ["ab"]}
  {
    hide NodeAt;
    KeysDiffer();
    var left := DeleteRows(SIBLINGS, {}, {A_, ABC});
    assert left.zones == SIBLINGS.zones && left.zones.Keys == {0} && left.zones[0].path == [];
    forall k ensures k in left.entries <==> k == AB { SiblingRows(k); }
    assert PathOf(left.zones, AB) == ["ab"] by { assert [] + ["ab"] == ["ab"]; }
    assert AllPaths(left.zones, left.entries) == {[], ["ab"]};
  }

  /** Removing `/a_` removes `/ab/c` with it. */
  lemma RemoveTakesSibling()
    ensures Inv(SIBLINGS) && HasRoot(SIBLINGS.zones)
    ensures ["ab", "c"] in TreeOf(SIBLINGS) && !(["a_"] <= ["ab", "c"])
    ensures var r := Remove(SIBLINGS, ["a_"], true);
            && r.Success? && r.value.count == 2 == 1 + |Subtree(TreeOf(SIBLINGS), ["a_"])|
            && ["ab", "c"] !in TreeOf(r.value.db)
    ensures !RemoveJudged(SIBLINGS, ["a_"], true)
  {
    hide Inv, KindOf, Locate, Subtree, RemovedZones, RemovedEntries, TreeOf, Reclaim, DeleteRows, HasRoot, Remove, RemoveJudged, AllReferenced;
    SiblingsAreValid();
    SiblingAddress();
    SiblingTree();
    KeysDiffer();
    RemoveUnfolds(SIBLINGS, ["a_"], true);
    SelectedSiblings();
    SiblingsLeft();
    ReclaimedSame(DeleteRows(SIBLINGS, {}, {A_, ABC}));
    assert |{A_, ABC}| == 2;
    SiblingPaths();
    if RemoveJudged(SIBLINGS, ["a_"], true) {
      assert ["a_"] in TreeOf(SIBLINGS).Keys;
      RemoveMeansTree(SIBLINGS, ["a_"], true);
    }
  }

  /** Neither does a move of `/a_` or its recursive copy mean what it should. */
  lemma MoveTakesSibling(order: RowOrder)
    requires Enumerating(order)
    ensures Inv(SIBLINGS) && HasRoot(SIBLINGS.zones)
    ensures !MovesTree(SIBLINGS, ["a_"], ["d"]) && !CopiesTree(SIBLINGS, ["a_"], ["d"], true, order)
  {
    hide Inv, KindOf, Locate, TreeOf, HasRoot, MovesTree, CopiesTree, UnderRel, Under, Enumerating, IsZonePath, HasNestedZones, HoldsZones, ZonesBelow;
    SiblingsAreValid();
    SiblingAddress();
    NewNameAccepted();
    SiblingMisjudged();
    var s, d := ["a_"], ["d"];
    MovesTreeIff(SIBLINGS, s, d);
    CopiesTreeIff(SIBLINGS, s, d, true, order);
  }

  lemma NewNameAccepted()
    ensures MoveRefusal(TreeOf(SIBLINGS), ["a_"], ["d"]).None? && CopyRefusal(TreeOf(SIBLINGS), ["a_"], ["d"], true).None?
    ensures ValidPath(["d"]) && EscapeFree(["a_"])
  {
    hide TreeOf;
    SiblingsAreValid();
    SiblingPaths();
    RootInTree(SIBLINGS);
    assert ["a_"][0] != ["d"][0] && ["ab"][0] != ["d"][0] && |["ab", "c"]| != |["d"]|;
    assert ["a_"] in TreeOf(SIBLINGS).Keys && ["d"] !in TreeOf(SIBLINGS).Keys;
    assert DropLast(["d"]) == [];
  }

  /** The entry `/ab/c` is selected with `/a_`. */
  lemma SiblingMisjudged()
    ensures !IsZonePath(SIBLINGS, ["a_"]) && !HoldsZones(SIBLINGS, ["a_"]) && !ZonesBelow(SIBLINGS, ["a_"])
    ensures var l := Location(0, ["a_"]);
            && !EntriesJudged(EntriesBut(SIBLINGS, ["d"]), l)
            && CopiedKeys(SIBLINGS, l, true) != Below(SIBLINGS.entries, Key(0, ["a_"]))
  {
    SiblingTexts();
    KeysDiffer();
    hide UnderRel;
    assert SIBLINGS.zones.Keys == {0} && SIBLINGS.zones[0].path == [];
    PathsInRoot(SIBLINGS.zones, ABC.rel);
    assert ABC in EntriesBut(SIBLINGS, ["d"]) by { assert |["ab", "c"]| != |["d"]|; }
    assert ABC in CopiedKeys(SIBLINGS, Location(0, ["a_"]), true) && ABC !in Below(SIBLINGS.entries, Key(0, ["a_"]));
  }

  lemma SiblingPaths()
    ensures TreeOf(SIBLINGS).Keys == {[], ["a_"], ["ab"], ["ab", "c"]}
  {
    hide NodeAt, PathOf;
    var zones, entries := SIBLINGS.zones, SIBLINGS.entries;
    forall k ensures k in entries <==> k == A_ || k == AB || k == ABC { SiblingRows(k); }
    PathsInRoot(zones, A_.rel);
    PathsInRoot(zones, AB.rel);
    PathsInRoot(zones, ABC.rel);
    assert zones.Keys == {0} && zones[0].path == [];
    assert AllPaths(zones, entries) == {[], ["a_"], ["ab"], ["ab", "c"]};
  }

  lemma PathsInRoot(zones: Zones, rel: Path)
    requires 0 in zones && zones[0].path == []
    ensures PathOf(zones, Key(0, rel)) == rel
  {
  }

  lemma SiblingTree()
    ensures ["ab", "c"] in TreeOf(SIBLINGS) && |Subtree(TreeOf(SIBLINGS), ["a_"])| == 1
  {
    hide TreeOf;
    SiblingPaths();
    KeysDiffer();
    assert ["ab", "c"] in TreeOf(SIBLINGS).Keys;
    assert Subtree(TreeOf(SIBLINGS), ["a_"]) == {["a_"]};
  }

  // ---- A zone as the target of a write, and below the root ----

  /** The zone `/z` with the file `/z/f`, which holds one byte. */
  const NESTED: Tables :=
    Tables(map[0 := ROOT_ZONE, 1 := Zone(["z"], Some(0), Some([]), "z")],
           map[Key(1, ["f"]) := Entry(2, [], "f", InlineFile([120]))],
           3, NO_CONTENT)

  const F: Key := Key(1, ["f"])

  lemma NestedRows()
    ensures NESTED.entries == map[F := Entry(2, [], "f", InlineFile([120]))] && NESTED.zones.Keys == {0, 1}
    ensures NESTED.zones[0].path == [] && NESTED.zones[1].path == ["z"] && HasRoot(NESTED.zones) && ZonePathsUnique(NESTED.zones)
  {
    assert NESTED.zones[0].path == [];
  }

  lemma NestedZones()
    ensures HasRoot(NESTED.zones) && ZonePathsUnique(NESTED.zones) && ZoneParents(NESTED.zones, NESTED.entries)
    ensures NamesValid(NESTED.zones, NESTED.entries) && Homed(NESTED.zones, NESTED.entries)
  {
    NestedRows();
    var zones, entries := NESTED.zones, NESTED.entries;
    assert ValidPath(["z"]) && ValidPath(["f"]);
    assert IsDirAddress(zones, entries, [], 0, []);
    assert ZoneParents(zones, entries) by { assert DropLast(["z"]) == []; }
  }

  lemma NestedIsValid()
    ensures Inv(NESTED)
  {
    hide InlineFile, PayloadOk, HasRoot, ZonePathsUnique, ZoneParents, NamesValid, Homed, StoreOk;
    NoContentOk();
    InlineFileOk(NO_CONTENT, [120]);
    NestedZones();
    NestedRows();
    assert Labelled(NESTED.entries) by { assert DropLast(["f"]) == []; }
    assert IdsUnique(NESTED.zones, NESTED.entries, 3);
    assert Payloads(NESTED.entries, NO_CONTENT);
  }

  /** A write to `/z` is accepted and leaves two rows for one path. */
  lemma WriteOverZoneBreaks(data: Bytes)
    ensures Inv(NESTED) && HasRoot(NESTED.zones) && ValidPath(["z"])
    ensures WriteInline(NESTED, ["z"], data).Success? && !Inv(WriteInline(NESTED, ["z"], data).value.db)
  {
    NestedIsValid();
    var zones := NESTED.zones;
    assert zones[0].path == [] && HasRoot(zones);
    assert IsDeepest(zones, [], 0);
    assert ZonePathsUnique(zones);
    LocateIsCanonical(zones, [], 0, []);
    assert DropLast(["z"]) == [] && ValidPath(["z"]);
    assert WriteInline(NESTED, ["z"], data).Success?;
    assert IsZonePath(NESTED, ["z"]) by { assert zones[1].path == ["z"]; }
    WriteKeepsInvariantIffNoZone(NESTED, ["z"], data);
  }

  /** The counters of that volume. */
  const NESTED_COUNTERS: ZoneCounters := map[0 := ZERO, 1 := Counter(1, 1)]

  /** The fast total for `/` misses the byte in the zone. */
  lemma FastUsageOfRootMisses()
    ensures Inv(NESTED) && HasRoot(NESTED.zones) && Agree(NESTED_COUNTERS, NESTED.zones, NESTED.entries)
    ensures DiskUsageFast(NESTED, NESTED_COUNTERS, []) == Success(0) && DiskUsage(NESTED, []) == Success(1)
  {
    hide Inv, Agree, HasRoot, DiskUsage, DiskUsageFast;
    NestedIsValid();
    NestedRows();
    NestedTallies();
    NestedTotals();
  }

  lemma NestedTallies()
    ensures Agree(NESTED_COUNTERS, NESTED.zones, NESTED.entries)
  {
    hide Tally;
    NestedRows();
    var e := Entry(2, [], "f", InlineFile([120]));
    assert FileSize(e) == 1;
    TallyOfOne(F, e, 0);
    TallyOfOne(F, e, 1);
  }

  lemma NestedTotals()
    ensures HasRoot(NESTED.zones)
    ensures DiskUsageFast(NESTED, NESTED_COUNTERS, []) == Success(0) && DiskUsage(NESTED, []) == Success(1)
  {
    hide TotalBytes, ZoneSum, FastZones, Locate, UsageKeys, HasRoot, InlineFile;
    NestedZones();
    NestedRows();
    assert IsDeepest(NESTED.zones, [], 0);
    LocateIsCanonical(NESTED.zones, [], 0, []);
    RootIsAlone(NESTED, 0);
    SingleZone(NESTED_COUNTERS, 0);
    OneByteBelow();
  }

  lemma OneByteBelow()
    ensures TotalBytes(Restricted(NESTED.entries, UsageKeys(NESTED, [], Location(0, [])))) == 1
  {
    hide TotalBytes;
    NestedRows();
    assert UsageKeys(NESTED, [], Location(0, [])) == {F};
    var e := Entry(2, [], "f", InlineFile([120]));
    assert Restricted(NESTED.entries, {F}) == map[F := e];
    TotalWithout(map[F := e], F);
    assert map[F := e] - {F} == map[];
    EntriesOfNone(map[]);
  }
}
