/** Disk usage and the fast routes that read the counters instead of the rows. */
module Usage {
  import opened Basics
  import opened Paths
  import opened Tables
  import opened Grafting
  import opened Commands
  import opened Addresses
  import opened Removing
  import opened Counters

  // ---- The rows a recursive query selects ----

  /** A zone the query on `p` looks into. */
  predicate SelectedZone(zones: Zones, p: Path, l: Location, z: ZoneId) {
    z in zones && (z == l.zone || p == [] || AtOrUnder(p, zones[z].path))
  }

  /** The part of a zone the query looks into. */
  function RelativeRoot(l: Location, z: ZoneId): Path { if z == l.zone then l.rel else [] }

  /** The regular files `disk_usage` adds up. */
  function UsageKeys(db: Tables, p: Path, l: Location): set<Key> {
    set k | k in db.entries && db.entries[k].payload.kind == File && SelectedZone(db.zones, p, l, k.zone)
            && (RelativeRoot(l, k.zone) == [] || UnderRel(RelativeRoot(l, k.zone), k.rel))
  }

  ghost function DiskUsage(db: Tables, p: Path): Result<nat, Error>
    requires HasRoot(db.zones)
  {
    var l := Locate(db.zones, p);
    var key := Key(l.zone, l.rel);
    if l.rel != [] && key !in db.entries then Failure(NoSuchPath)
    else if l.rel != [] && db.entries[key].payload.kind == File then Success(db.entries[key].payload.size)
    else Success(TotalBytes(Restricted(db.entries, UsageKeys(db, p, l))))
  }

  // ---- Sums over zones ----

  /** `sum(entry_count)` and `sum(file_bytes)` of some zones. */
  ghost function ZoneSum(counters: ZoneCounters, zs: set<ZoneId>): Counter
    requires zs <= counters.Keys
    decreases zs
  {
    if zs == {} then ZERO
    else
      var z :| z in zs;
      counters[z].Plus(ZoneSum(counters, zs - {z}))
  }

  lemma ZoneRows(entries: Entries, zs: set<ZoneId>, z: ZoneId)
    requires z in zs
    ensures var all, rest := Restricted(entries, EntriesOf(entries, zs)), Restricted(entries, EntriesOf(entries, zs - {z}));
            all == rest + InZone(entries, z) && rest.Keys !! InZone(entries, z).Keys
  {
  }

  lemma EntriesOfNone(entries: Entries)
    ensures |EntriesOf(entries, {})| == 0 && TotalBytes(Restricted(entries, EntriesOf(entries, {}))) == 0
  {
    assert EntriesOf(entries, {}) == {} && Restricted(entries, {}) == map[];
  }

  lemma RestrictedSize(entries: Entries, keys: set<Key>)
    requires keys <= entries.Keys
    ensures |Restricted(entries, keys)| == |keys|
  {
    assert Restricted(entries, keys).Keys == keys;
  }

  lemma OneMoreZone(entries: Entries, zs: set<ZoneId>, z: ZoneId)
    requires z in zs
    ensures var all, rest := EntriesOf(entries, zs), EntriesOf(entries, zs - {z});
            && |all| == |rest| + |InZone(entries, z)|
            && TotalBytes(Restricted(entries, all)) == TotalBytes(Restricted(entries, rest)) + TotalBytes(InZone(entries, z))
  {
    hide TotalBytes, EntriesOf, InZone, Restricted;
    ZoneRows(entries, zs, z);
    var rest := Restricted(entries, EntriesOf(entries, zs - {z}));
    TotalOfUnion(rest, InZone(entries, z));
    UnionSize(rest, InZone(entries, z));
    KeysOfZones(entries, zs);
    KeysOfZones(entries, zs - {z});
    RestrictedSize(entries, EntriesOf(entries, zs));
    RestrictedSize(entries, EntriesOf(entries, zs - {z}));
  }

  /** The counters of some zones add up to their rows. */
  lemma {:induction false} ZoneSumIsTotal(counters: ZoneCounters, zones: Zones, entries: Entries, zs: set<ZoneId>)
    requires Agree(counters, zones, entries) && zs <= zones.Keys
    ensures zs <= counters.Keys
    ensures var keys := EntriesOf(entries, zs);
            ZoneSum(counters, zs) == Counter(|keys|, TotalBytes(Restricted(entries, keys)))
    decreases zs
  {
    hide TotalBytes, EntriesOf, InZone, Restricted;
    if zs == {} {
      EntriesOfNone(entries);
    } else {
      var z :| z in zs && ZoneSum(counters, zs) == counters[z].Plus(ZoneSum(counters, zs - {z}));
      ZoneSumIsTotal(counters, zones, entries, zs - {z});
      OneMoreZone(entries, zs, z);
      assert counters[z] == Tally(entries, z);
      var keys, rest := EntriesOf(entries, zs), EntriesOf(entries, zs - {z});
      assert ZoneSum(counters, zs - {z}) == Counter(|rest|, TotalBytes(Restricted(entries, rest)));
      assert counters[z].Plus(Counter(|rest|, TotalBytes(Restricted(entries, rest)))) == Counter(|keys|, TotalBytes(Restricted(entries, keys)));
    }
  }

  lemma KeysOfZones(entries: Entries, zs: set<ZoneId>)
    ensures EntriesOf(entries, zs) <= entries.Keys
  {
  }

  lemma {:induction false} SumSplit(counters: ZoneCounters, zs: set<ZoneId>, z: ZoneId)
    requires zs <= counters.Keys && z in zs
    ensures ZoneSum(counters, zs) == counters[z].Plus(ZoneSum(counters, zs - {z}))
    decreases zs
  {
    var y :| y in zs && ZoneSum(counters, zs) == counters[y].Plus(ZoneSum(counters, zs - {y}));
    if y != z {
      SumSplit(counters, zs - {y}, z);
      SumSplit(counters, zs - {z}, y);
      assert zs - {y} - {z} == zs - {z} - {y};
      var rest := ZoneSum(counters, zs - {y} - {z});
      assert ZoneSum(counters, zs) == counters[y].Plus(counters[z].Plus(rest));
      assert ZoneSum(counters, zs - {z}) == counters[y].Plus(rest);
    }
  }

  lemma SumOfNone(counters: ZoneCounters)
    ensures ZoneSum(counters, {}) == ZERO
  {
  }

  /** One zone more is added up. */
  lemma SumStep(counters: ZoneCounters, todo: set<ZoneId>, z: ZoneId, sum: Counter)
    requires todo <= counters.Keys && z in todo
    ensures sum.Plus(ZoneSum(counters, todo)) == sum.Plus(counters[z]).Plus(ZoneSum(counters, todo - {z}))
  {
    hide ZoneSum;
    SumSplit(counters, todo, z);
  }

  method SumCounters(counters: ZoneCounters, zs: set<ZoneId>) returns (sum: Counter)
    requires zs <= counters.Keys
    ensures sum == ZoneSum(counters, zs)
  {
    hide ZoneSum;
    sum := ZERO;
    var todo := zs;
    while todo != {}
      invariant todo <= zs && ZoneSum(counters, zs) == sum.Plus(ZoneSum(counters, todo))
      decreases todo
    {
      var z :| z in todo;
      SumStep(counters, todo, z, sum);
      sum := sum.Plus(counters[z]);
      todo := todo - {z};
    }
    SumOfNone(counters);
  }

  // ---- disk_usage_fast ----

  function FastZones(zones: Zones, p: Path): set<ZoneId> { set z | z in zones && AtOrUnder(p, zones[z].path) }

  ghost function DiskUsageFast(db: Tables, counters: ZoneCounters, p: Path): Result<int, Error>
    requires HasRoot(db.zones) && counters.Keys == db.zones.Keys
  {
    if Locate(db.zones, p).rel != [] then
      (match DiskUsage(db, p)
       case Failure(e) => Failure(e)
       case Success(n) => Success(n))
    else Success(ZoneSum(counters, FastZones(db.zones, p)).fileBytes)
  }

  function FileKeys(entries: Entries, keys: set<Key>): set<Key> { set k | k in keys && k in entries && entries[k].payload.kind == File }

  /** Only the regular files count. */
  lemma {:induction false} OnlyFilesCount(entries: Entries, keys: set<Key>)
    requires keys <= entries.Keys
    ensures TotalBytes(Restricted(entries, keys)) == TotalBytes(Restricted(entries, FileKeys(entries, keys)))
    decreases keys
  {
    hide TotalBytes;
    if k :| k in keys && entries[k].payload.kind != File {
      OnlyFilesCount(entries, keys - {k});
      assert FileKeys(entries, keys - {k}) == FileKeys(entries, keys);
      TotalWithout(Restricted(entries, keys), k);
      assert Restricted(entries, keys) - {k} == Restricted(entries, keys - {k});
    } else {
      assert FileKeys(entries, keys) == keys;
    }
  }

  /** At a zone other than the root both routes look into the same zones. */
  lemma SameFiles(db: Tables, p: Path, l: Location)
    requires l.rel == [] && l.zone in db.zones && db.zones[l.zone].path == p && p != []
    ensures UsageKeys(db, p, l) == FileKeys(db.entries, EntriesOf(db.entries, FastZones(db.zones, p)))
  {
    hide Under, UnderRel;
    assert AtOrUnder(p, p);
  }

  /** Given the counters, the fast route gives the same answer for every target but the root. */
  lemma FastUsageIsUsage(db: Tables, counters: ZoneCounters, p: Path)
    requires HasRoot(db.zones) && Agree(counters, db.zones, db.entries) && p != []
    ensures DiskUsageFast(db, counters, p) == match DiskUsage(db, p) case Failure(e) => Failure(e) case Success(n) => Success(n)
  {
    hide Locate, TotalBytes, EntriesOf, FastZones, UsageKeys, ZoneSum, Restricted, HasRoot, Tally, FileKeys;
    DeepestAt(db, p);
    var l := Locate(db.zones, p);
    if l.rel == [] {
      var zs := FastZones(db.zones, p);
      FastAreZones(db.zones, p);
      DeepestIs(db, p, l);
      SameFiles(db, p, l);
      ZoneSumIsTotal(counters, db.zones, db.entries, zs);
      KeysOfZones(db.entries, zs);
      OnlyFilesCount(db.entries, EntriesOf(db.entries, zs));
    }
  }

  lemma FastAreZones(zones: Zones, p: Path)
    ensures FastZones(zones, p) <= zones.Keys
  {
    hide AtOrUnder;
  }

  lemma DeepestIs(db: Tables, p: Path, l: Location)
    requires IsDeepest(db.zones, p, l.zone) && db.zones[l.zone].path + l.rel == p && l.rel == []
    ensures l.zone in db.zones && db.zones[l.zone].path == p
  {
    assert db.zones[l.zone].path + [] == db.zones[l.zone].path;
  }

  // ---- move_command ----

  /** The counters once the destination is cleared: the DELETE fires its trigger. */
  ghost function ClearedCounters(db: Tables, counters: ZoneCounters, cleared: Tables): ZoneCounters {
    Fired(counters, Restricted(db.entries, db.entries.Keys - cleared.entries.Keys), map[])
  }

  lemma ClearedAgree(db: Tables, counters: ZoneCounters, d: Path)
    requires HasRoot(db.zones) && Agree(counters, db.zones, db.entries) && ClearDestination(db, d).Success?
    ensures var c := ClearDestination(db, d).value; Agree(ClearedCounters(db, counters, c), c.zones, c.entries)
  {
    hide KindOf, ParentIsDirectory, Locate, Tally, Restricted, Agree;
    var c := ClearDestination(db, d).value;
    var gone := db.entries.Keys - c.entries.Keys;
    assert c.entries == db.entries - gone && c.zones == db.zones;
    assert (db.entries - gone) + map[] == c.entries;
    FiringKeepsAgreement(counters, db.zones, db.entries, gone, map[]);
  }

  /** `count(*) + sum(entry_count)` over the moved zones. */
  ghost function CommandCount(db: Tables, counters: ZoneCounters, s: Path): nat
    requires Agree(counters, db.zones, db.entries)
  {
    var zs := ZonesAt(db.zones, s);
    ZoneSumIsTotal(counters, db.zones, db.entries, zs);
    |zs| + ZoneSum(counters, zs).entryCount
  }

  /** `move_command`: a zone source is counted by its counters; anything else goes to `move`. */
  ghost function MoveCommand(db: Tables, counters: ZoneCounters, s: Path, d: Path): Outcome
    requires HasRoot(db.zones) && Agree(counters, db.zones, db.entries)
  {
    var sl := Locate(db.zones, s);
    if sl.rel != [] then Move(db, s, d)
    else if s == [] || AtOrUnder(s, d) then Failure(CannotMove)
    else
      match ClearDestination(db, d)
      case Failure(e) => Failure(e)
      case Success(cleared) =>
        ClearedAgree(db, counters, d);
        match MoveZone(cleared, s, d, sl.zone, Locate(cleared.zones, DropLast(d)))
        case Failure(e) => Failure(e)
        case Success(moved) => Success(Done(moved, CommandCount(cleared, ClearedCounters(db, counters, cleared), s)))
  }

  lemma CountIsRows(db: Tables, counters: ZoneCounters, s: Path)
    requires Agree(counters, db.zones, db.entries)
    ensures var zs := ZonesAt(db.zones, s); CommandCount(db, counters, s) == |zs| + |EntriesOf(db.entries, zs)|
  {
    hide Agree, EntriesOf, Restricted, TotalBytes, AtOrUnder;
    ZoneSumIsTotal(counters, db.zones, db.entries, ZonesAt(db.zones, s));
  }

  /** Given the counters, `move_command` does what `move` does: same rows, same count, same errors. */
  lemma MoveCommandIsMove(db: Tables, counters: ZoneCounters, s: Path, d: Path)
    requires HasRoot(db.zones) && Agree(counters, db.zones, db.entries)
    ensures MoveCommand(db, counters, s, d) == Move(db, s, d)
  {
    hide Agree, EntriesOf, AtOrUnder, ClearDestination, Locate, MoveZone, ZonesAt, CommandCount, ClearedCounters, MoveEntries, HasNestedZones, ParentIsDirectory;
    if Locate(db.zones, s).rel == [] && ClearDestination(db, d).Success? {
      var c := ClearDestination(db, d).value;
      ClearedAgree(db, counters, d);
      CountIsRows(c, ClearedCounters(db, counters, c), s);
    }
  }

  // ---- The root ----

  lemma RootIsAlone(db: Tables, root: ZoneId)
    requires ZonePathsUnique(db.zones) && NamesValid(db.zones, db.entries) && root in db.zones && db.zones[root].path == []
    ensures FastZones(db.zones, []) == {root}
  {
    hide Under, ValidPath;
    forall z | z in db.zones ensures !Under([], db.zones[z].path) {
      ZoneNameValid(db, z);
      NothingUnderRoot(db.zones[z].path);
    }
  }

  lemma RootFiles(db: Tables, l: Location)
    requires l.rel == [] && NamesValid(db.zones, db.entries)
    ensures UsageKeys(db, [], l) == FileKeys(db.entries, EntriesOf(db.entries, db.zones.Keys))
  {
    hide AtOrUnder, UnderRel, ValidPath;
  }

  /** Bytes are not negative, so a sum is zero only when every zone's is. */
  lemma {:induction false} ZeroSum(counters: ZoneCounters, zones: Zones, entries: Entries, zs: set<ZoneId>)
    requires Agree(counters, zones, entries) && zs <= counters.Keys
    ensures ZoneSum(counters, zs).fileBytes >= 0
    ensures ZoneSum(counters, zs).fileBytes == 0 <==> forall z :: z in zs ==> counters[z].fileBytes == 0
    decreases zs
  {
    hide TotalBytes, InZone;
    if zs != {} {
      var z :| z in zs;
      SumSplit(counters, zs, z);
      ZeroSum(counters, zones, entries, zs - {z});
      assert counters[z] == Tally(entries, z);
    }
  }

  lemma SingleZone(counters: ZoneCounters, z: ZoneId)
    requires z in counters
    ensures ZoneSum(counters, {z}) == counters[z]
  {
    SumSplit(counters, {z}, z);
    assert {z} - {z} == {};
  }

  /** For the root the fast route counts the root zone alone: it is right if and only if the
      other zones hold no bytes. */
  lemma FastUsageOfRootIff(db: Tables, counters: ZoneCounters)
    requires HasRoot(db.zones) && Agree(counters, db.zones, db.entries) && NamesValid(db.zones, db.entries) && ZonePathsUnique(db.zones)
    ensures DiskUsage(db, []).Success?
    ensures DiskUsageFast(db, counters, []) == Success(DiskUsage(db, []).value) <==>
              forall z :: z in db.zones && db.zones[z].path != [] ==> counters[z].fileBytes == 0
  {
    hide Tally, Restricted, UsageKeys, FileKeys, EntriesOf, Locate, ValidPath, HasRoot;
    DeepestAt(db, []);
    var l := Locate(db.zones, []);
    var root := l.zone;
    DeepestIs(db, [], l);
    RootIsAlone(db, root);
    RootFiles(db, l);
    var all := db.zones.Keys;
    ZoneSumIsTotal(counters, db.zones, db.entries, all);
    KeysOfZones(db.entries, all);
    OnlyFilesCount(db.entries, EntriesOf(db.entries, all));
    SumSplit(counters, all, root);
    SingleZone(counters, root);
    ZeroSum(counters, db.zones, db.entries, all - {root});
  }
}
