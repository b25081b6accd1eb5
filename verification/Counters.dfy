/** The per-zone counters and the statement triggers that keep them. */
module Counters {
  import opened Basics
  import opened Tables

  /** `entry_count` and `file_bytes` of a zone. */
  datatype Counter = Counter(entryCount: int, fileBytes: int) {
    function Plus(other: Counter): Counter { Counter(entryCount + other.entryCount, fileBytes + other.fileBytes) }

    function Minus(other: Counter): Counter { Counter(entryCount - other.entryCount, fileBytes - other.fileBytes) }
  }

  const ZERO := Counter(0, 0)

  type ZoneCounters = map<ZoneId, Counter>

  function FileSize(e: Entry): nat { if e.payload.kind == File then e.payload.size else 0 }

  function InZone(entries: Entries, z: ZoneId): Entries { map k | k in entries && k.zone == z :: entries[k] }

  /** The sum of the sizes of the regular files among the rows. */
  ghost function TotalBytes(entries: Entries): nat
    decreases |entries|
  {
    if entries == map[] then 0
    else
      var k :| k in entries;
      FileSize(entries[k]) + TotalBytes(entries - {k})
  }

  /** What the rows of a zone amount to. */
  ghost function Tally(entries: Entries, z: ZoneId): Counter {
    Counter(|InZone(entries, z)|, TotalBytes(InZone(entries, z)))
  }

  /** The counters are those of the rows. */
  ghost predicate Agree(counters: ZoneCounters, zones: Zones, entries: Entries) {
    counters.Keys == zones.Keys && forall z :: z in counters ==> counters[z] == Tally(entries, z)
  }

  // ---- Sums ----

  lemma {:induction false} TotalWithout(entries: Entries, k: Key)
    requires k in entries
    ensures TotalBytes(entries) == FileSize(entries[k]) + TotalBytes(entries - {k})
    decreases |entries|
  {
    var j :| j in entries && TotalBytes(entries) == FileSize(entries[j]) + TotalBytes(entries - {j});
    if j != k {
      TotalWithout(entries - {j}, k);
      TotalWithout(entries - {k}, j);
      assert entries - {j} - {k} == entries - {k} - {j};
    }
  }

  lemma UnionWithout(a: Entries, b: Entries, k: Key)
    requires a.Keys !! b.Keys && k in b
    ensures (a + b) - {k} == a + (b - {k}) && k in a + b && (a + b)[k] == b[k]
    ensures |b - {k}| < |b| && a.Keys !! (b - {k}).Keys
  {
    assert (b - {k}).Keys == b.Keys - {k};
    SameMap((a + b) - {k}, a + (b - {k}));
  }

  lemma {:induction false} TotalOfUnion(a: Entries, b: Entries)
    requires a.Keys !! b.Keys
    ensures TotalBytes(a + b) == TotalBytes(a) + TotalBytes(b)
    decreases |b|
  {
    if b == map[] {
      assert a + b == a;
      assert TotalBytes(b) == 0;
    } else {
      hide TotalBytes, FileSize;
      var k :| k in b;
      UnionWithout(a, b, k);
      TotalWithout(a + b, k);
      TotalWithout(b, k);
      TotalOfUnion(a, b - {k});
    }
  }

  lemma UnionSize(a: Entries, b: Entries)
    requires a.Keys !! b.Keys
    ensures |a + b| == |a| + |b|
  {
    assert (a + b).Keys == a.Keys + b.Keys;
  }

  lemma InZoneOfUnion(a: Entries, b: Entries, z: ZoneId)
    requires a.Keys !! b.Keys
    ensures InZone(a + b, z) == InZone(a, z) + InZone(b, z)
    ensures InZone(a, z).Keys !! InZone(b, z).Keys
  {
  }

  lemma TallyOfUnion(a: Entries, b: Entries, z: ZoneId)
    requires a.Keys !! b.Keys
    ensures Tally(a + b, z) == Tally(a, z).Plus(Tally(b, z))
  {
    hide InZone, TotalBytes;
    InZoneOfUnion(a, b, z);
    UnionSize(InZone(a, z), InZone(b, z));
    TotalOfUnion(InZone(a, z), InZone(b, z));
  }

  lemma TallyOfNone(entries: Entries, z: ZoneId)
    requires forall k :: k in entries ==> k.zone != z
    ensures Tally(entries, z) == ZERO
  {
    assert InZone(entries, z) == map[];
  }

  lemma TallyOfOne(k: Key, e: Entry, z: ZoneId)
    ensures Tally(map[k := e], z) == if k.zone == z then Counter(1, FileSize(e)) else ZERO
  {
    if k.zone == z {
      assert InZone(map[k := e], z) == map[k := e];
      TotalWithout(map[k := e], k);
      assert map[k := e] - {k} == map[];
    } else {
      TallyOfNone(map[k := e], z);
    }
  }

  function Restricted(entries: Entries, keys: set<Key>): Entries { map k | k in entries && k in keys :: entries[k] }

  lemma SplitRows(entries: Entries, keys: set<Key>)
    ensures (entries - keys) + Restricted(entries, keys) == entries
    ensures (entries - keys).Keys !! Restricted(entries, keys).Keys
  {
  }

  lemma TallyWithout(entries: Entries, keys: set<Key>, z: ZoneId)
    ensures Tally(entries, z) == Tally(entries - keys, z).Plus(Tally(Restricted(entries, keys), z))
  {
    hide Tally;
    SplitRows(entries, keys);
    TallyOfUnion(entries - keys, Restricted(entries, keys), z);
  }

  // ---- The triggers ----

  /** What a `GROUP BY zone_id` over a transition table yields. */
  ghost predicate Sums(sums: ZoneCounters, rows: Entries) {
    && (forall k :: k in rows ==> k.zone in sums)
    && (forall z :: z in sums ==> sums[z] == Tally(rows, z))
  }

  lemma OneMoreRow(rows: Entries, done: set<Key>, k: Key, sums: ZoneCounters)
    requires k in rows && k !in done && Sums(sums, Restricted(rows, done))
    ensures var before := if k.zone in sums then sums[k.zone] else ZERO;
            Sums(sums[k.zone := before.Plus(Counter(1, FileSize(rows[k])))], Restricted(rows, done + {k}))
  {
    hide Tally, Restricted;
    var a := Restricted(rows, done);
    RestrictedMore(rows, done, k);
    if k.zone !in sums { TallyOfNone(a, k.zone); }
    forall z ensures Tally(Restricted(rows, done + {k}), z) ==
                     Tally(a, z).Plus(if k.zone == z then Counter(1, FileSize(rows[k])) else ZERO)
    {
      TallyOfUnion(a, map[k := rows[k]], z);
      TallyOfOne(k, rows[k], z);
    }
  }

  lemma RestrictedMore(rows: Entries, done: set<Key>, k: Key)
    requires k in rows && k !in done
    ensures k !in Restricted(rows, done)
    ensures Restricted(rows, done + {k}) == Restricted(rows, done) + map[k := rows[k]]
    ensures forall j :: j in Restricted(rows, done) ==> j in rows
  {
  }

  /** `count(*)` and `sum(size) FILTER (WHERE kind = 1)` of the rows, by zone. */
  method GroupByZone(rows: Entries) returns (sums: ZoneCounters)
    ensures Sums(sums, rows)
  {
    hide Sums, Tally, Restricted;
    sums := map[];
    var todo := rows.Keys;
    assert rows.Keys - todo == {};
    NoSums(rows);
    while todo != {}
      invariant todo <= rows.Keys
      invariant Sums(sums, Restricted(rows, rows.Keys - todo))
      decreases todo
    {
      var k :| k in todo;
      OneMoreRow(rows, rows.Keys - todo, k, sums);
      assert rows.Keys - todo + {k} == rows.Keys - (todo - {k});
      var before := if k.zone in sums then sums[k.zone] else ZERO;
      sums := sums[k.zone := before.Plus(Counter(1, FileSize(rows[k])))];
      todo := todo - {k};
    }
    assert rows.Keys - todo == rows.Keys;
    AllRows(rows);
  }

  lemma AllRows(rows: Entries)
    ensures Restricted(rows, rows.Keys) == rows
  {
    SameMap(Restricted(rows, rows.Keys), rows);
  }

  lemma NoSums(rows: Entries)
    ensures Sums(map[], Restricted(rows, {}))
  {
    var none: ZoneCounters, r := map[], Restricted(rows, {});
    assert r.Keys == {} && none.Keys == {};
    assert forall k :: k in r ==> k in r.Keys;
    assert forall z :: z in none ==> z in none.Keys;
    hide Tally;
    assert Sums(none, r);
  }

  function Sum(sums: ZoneCounters, z: ZoneId): Counter { if z in sums then sums[z] else ZERO }

  lemma SumIsTally(sums: ZoneCounters, rows: Entries, z: ZoneId)
    requires Sums(sums, rows)
    ensures Sum(sums, z) == Tally(rows, z)
  {
    hide Tally;
    if z !in sums { TallyOfNone(rows, z); }
  }

  /** The counters after a statement took rows away and brought others. */
  ghost function Fired(counters: ZoneCounters, oldRows: Entries, newRows: Entries): ZoneCounters {
    map z | z in counters :: counters[z].Minus(Tally(oldRows, z)).Plus(Tally(newRows, z))
  }

  /** `zone_entries_after_insert`. */
  method FireInsert(counters: ZoneCounters, newRows: Entries) returns (r: ZoneCounters)
    ensures r == Fired(counters, map[], newRows)
  {
    hide Tally, Sums;
    var added := GroupByZone(newRows);
    r := map z | z in counters :: if z in added then counters[z].Plus(added[z]) else counters[z];
    forall z ensures Sum(added, z) == Tally(newRows, z) && Tally(map[], z) == ZERO {
      SumIsTally(added, newRows, z);
      TallyOfNone(map[], z);
    }
    SameMap(r, Fired(counters, map[], newRows));
  }

  /** `zone_entries_after_delete`. */
  method FireDelete(counters: ZoneCounters, oldRows: Entries) returns (r: ZoneCounters)
    ensures r == Fired(counters, oldRows, map[])
  {
    hide Tally, Sums;
    var removed := GroupByZone(oldRows);
    r := map z | z in counters :: if z in removed then counters[z].Minus(removed[z]) else counters[z];
    forall z ensures Sum(removed, z) == Tally(oldRows, z) && Tally(map[], z) == ZERO {
      SumIsTally(removed, oldRows, z);
      TallyOfNone(map[], z);
    }
    SameMap(r, Fired(counters, oldRows, map[]));
  }

  /** The subquery of the UPDATE trigger: the deltas of the old and of the new rows added up by
      zone, without the zones whose deltas cancel. */
  method Deltas(oldRows: Entries, newRows: Entries) returns (changed: ZoneCounters)
    ensures forall z :: Sum(changed, z) == Tally(newRows, z).Minus(Tally(oldRows, z))
  {
    hide Tally, Sums, Counter.Minus;
    var removed := GroupByZone(oldRows);
    var added := GroupByZone(newRows);
    changed := map z | z in removed.Keys + added.Keys && Sum(added, z).Minus(Sum(removed, z)) != ZERO ::
                 Sum(added, z).Minus(Sum(removed, z));
    forall z ensures Sum(changed, z) == Tally(newRows, z).Minus(Tally(oldRows, z)) {
      SumIsTally(removed, oldRows, z);
      SumIsTally(added, newRows, z);
      if z !in changed && z !in removed && z !in added { NothingChanged(); }
    }
  }

  lemma NothingChanged()
    ensures ZERO.Minus(ZERO) == ZERO
  {
  }

  /** `zone_entries_after_update`. */
  method FireUpdate(counters: ZoneCounters, oldRows: Entries, newRows: Entries) returns (r: ZoneCounters)
    ensures r == Fired(counters, oldRows, newRows)
  {
    hide Tally;
    var changed := Deltas(oldRows, newRows);
    r := map z | z in counters :: if z in changed then counters[z].Plus(changed[z]) else counters[z];
    forall z | z in counters ensures r[z] == counters[z].Minus(Tally(oldRows, z)).Plus(Tally(newRows, z)) {
      assert r[z] == counters[z].Plus(Sum(changed, z));
    }
    SameMap(r, Fired(counters, oldRows, newRows));
  }

  /** Two triggers that fire one after the other, as the INSERT and the UPDATE trigger do for an
      upsert, change the counters like one that sees the rows of both. */
  lemma FiringsCompose(counters: ZoneCounters, a: Entries, b: Entries, c: Entries, d: Entries)
    requires a.Keys !! c.Keys && b.Keys !! d.Keys
    ensures Fired(Fired(counters, a, b), c, d) == Fired(counters, a + c, b + d)
  {
    hide Tally;
    forall z | z in counters ensures Fired(Fired(counters, a, b), c, d)[z] == Fired(counters, a + c, b + d)[z] {
      TallyOfUnion(a, c, z);
      TallyOfUnion(b, d, z);
    }
    SameMap(Fired(Fired(counters, a, b), c, d), Fired(counters, a + c, b + d));
  }

  /** Rows replaced by others: the trigger's deltas are the difference of the tallies. */
  lemma ReplacedTally(entries: Entries, gone: set<Key>, added: Entries, z: ZoneId)
    requires (entries - gone).Keys !! added.Keys
    ensures Tally((entries - gone) + added, z) ==
            Tally(entries, z).Minus(Tally(Restricted(entries, gone), z)).Plus(Tally(added, z))
  {
    hide Tally;
    TallyOfUnion(entries - gone, added, z);
    TallyWithout(entries, gone, z);
  }

  /** A statement and its trigger keep the counters in agreement with the rows. */
  lemma FiringKeepsAgreement(counters: ZoneCounters, zones: Zones, entries: Entries, gone: set<Key>, added: Entries)
    requires Agree(counters, zones, entries) && (entries - gone).Keys !! added.Keys
    ensures Agree(Fired(counters, Restricted(entries, gone), added), zones, (entries - gone) + added)
  {
    hide Tally, Restricted;
    forall z | z in counters
      ensures Fired(counters, Restricted(entries, gone), added)[z] == Tally((entries - gone) + added, z)
    {
      ReplacedTally(entries, gone, added, z);
    }
  }
}
