/** The static analysis of a regular expression: literals every match contains, and the shortest run
    of letters every match contains (src/core/search.rs). */
module Regex {
  import opened Basics
  import opened Utf8

  /** An inclusive range of code points or bytes. */
  datatype Range = Range(lo: nat, hi: nat)

  /** The analysed form of an expression, as the parser produces it. */
  datatype Hir =
    | Empty
    | Literal(bytes: Bytes)
    | UnicodeClass(ranges: seq<Range>)
    | ByteClass(ranges: seq<Range>)
    | Look
    | Repetition(min: nat, max: Option<nat>, sub: Hir)
    | Capture(sub: Hir)
    | Concat(parts: seq<Hir>)
    | Alternation(parts: seq<Hir>)

  // ---- What an expression matches ----

  const CODE_POINTS := 0x11_0000

  predicate InRanges(c: nat, ranges: seq<Range>) {
    exists i :: 0 <= i < |ranges| && ranges[i].lo <= c <= ranges[i].hi
  }

  /** The strings an expression can match. An assertion matches the empty string wherever it
      holds; here it may match it anywhere, which only adds strings. */
  ghost predicate Matches(h: Hir, s: Bytes)
    decreases h
  {
    match h
    case Empty => s == []
    case Look => s == []
    case Literal(bytes) => s == bytes
    case UnicodeClass(ranges) => exists c: nat :: c < CODE_POINTS && InRanges(c, ranges) && s == Encode(c)
    case ByteClass(ranges) => |s| == 1 && InRanges(s[0], ranges)
    case Repetition(min, max, sub) =>
      exists pieces: seq<Bytes> ::
        && min <= |pieces| && (max.Some? ==> |pieces| <= max.value)
        && Flatten(pieces) == s
        && forall i :: 0 <= i < |pieces| ==> Matches(sub, pieces[i])
    case Capture(sub) => Matches(sub, s)
    case Concat(parts) =>
      exists pieces: seq<Bytes> ::
        && |pieces| == |parts|
        && Flatten(pieces) == s
        && forall i :: 0 <= i < |parts| ==> Matches(parts[i], pieces[i])
    case Alternation(parts) => exists i :: 0 <= i < |parts| && Matches(parts[i], s)
  }

  /** Some part of the line is a match. */
  ghost predicate HasMatch(h: Hir, line: Bytes) { exists i, j :: 0 <= i <= j <= |line| && Matches(h, line[i..j]) }

  /** The matcher accepts only lines with a part the expression matches. */
  ghost predicate Searches(m: Bytes -> bool, h: Hir) {
    forall line: Bytes :: m(line) ==> HasMatch(h, line)
  }

  lemma {:induction false} PieceContained(pieces: seq<Bytes>, i: nat, needle: Bytes)
    requires i < |pieces| && Contains(pieces[i], needle)
    ensures Contains(Flatten(pieces), needle)
    decreases |pieces|
  {
    if i == 0 {
      ContainsInMiddle([], pieces[0], Flatten(pieces[1..]), needle);
      assert [] + pieces[0] + Flatten(pieces[1..]) == Flatten(pieces);
    } else {
      PieceContained(pieces[1..], i - 1, needle);
      ContainsInMiddle(pieces[0], Flatten(pieces[1..]), [], needle);
      assert pieces[0] + Flatten(pieces[1..]) + [] == Flatten(pieces);
    }
  }

  // ---- Sorted lists without duplicates ----

  predicate BytesLess(a: Bytes, b: Bytes)
    decreases |a|
  {
    b != [] && (a == [] || a[0] < b[0] || (a[0] == b[0] && BytesLess(a[1..], b[1..])))
  }

  function Insert(values: seq<Bytes>, v: Bytes): seq<Bytes> {
    if values == [] || BytesLess(v, values[0]) then [v] + values
    else if v == values[0] then values
    else [values[0]] + Insert(values[1..], v)
  }

  /** `sort_unstable` and `dedup`. */
  function SortDedup(values: seq<Bytes>): seq<Bytes> {
    if values == [] then [] else Insert(SortDedup(values[1..]), values[0])
  }

  predicate StrictlySorted(values: seq<Bytes>) {
    forall i, j :: 0 <= i < j < |values| ==> BytesLess(values[i], values[j])
  }

  lemma {:induction false} BytesLessIsOrder(a: Bytes, b: Bytes)
    ensures a != b ==> BytesLess(a, b) || BytesLess(b, a)
    ensures !(BytesLess(a, b) && BytesLess(b, a))
    decreases |a|
  {
    if a != [] && b != [] {
      BytesLessIsOrder(a[1..], b[1..]);
      assert a[0] == b[0] && a[1..] == b[1..] ==> a == [a[0]] + a[1..] == b;
    }
  }

  lemma {:induction false} BytesLessTransitive(a: Bytes, b: Bytes, c: Bytes)
    requires BytesLess(a, b) && BytesLess(b, c)
    ensures BytesLess(a, c)
    decreases |a|
  {
    if a != [] && a[0] == b[0] == c[0] { BytesLessTransitive(a[1..], b[1..], c[1..]); }
  }

  lemma {:induction false} InsertKeeps(values: seq<Bytes>, v: Bytes)
    requires StrictlySorted(values)
    ensures StrictlySorted(Insert(values, v))
    ensures forall x :: x in Insert(values, v) <==> x == v || x in values
    decreases |values|
  {
    if values == [] {
    } else if BytesLess(v, values[0]) {
      forall j | 1 <= j < |values| ensures BytesLess(v, values[j]) { BytesLessTransitive(v, values[0], values[j]); }
    } else if v != values[0] {
      BytesLessIsOrder(v, values[0]);
      var rest := Insert(values[1..], v);
      InsertKeeps(values[1..], v);
      forall x | x in rest ensures BytesLess(values[0], x) {
        if x != v { var j :| 0 <= j < |values[1..]| && values[1..][j] == x; assert values[j + 1] == x; }
      }
      forall j | 0 <= j < |rest| ensures BytesLess(values[0], rest[j]) { assert rest[j] in rest; }
    }
  }

  /** The same values, each once, in order. */
  lemma {:induction false} SortDedupKeeps(values: seq<Bytes>)
    ensures StrictlySorted(SortDedup(values))
    ensures forall x :: x in SortDedup(values) <==> x in values
  {
    if values != [] {
      SortDedupKeeps(values[1..]);
      InsertKeeps(SortDedup(values[1..]), values[0]);
      assert values == [values[0]] + values[1..];
    }
  }

  // ---- required_interior ----

  /** Length of the shortest value, 0 when there is none. */
  function ShortestLength(values: seq<Bytes>): nat {
    if values == [] then 0
    else if |values| == 1 then |values[0]|
    else Min(|values[0]|, ShortestLength(values[1..]))
  }

  const MIN_LITERAL := 3

  function RequiredInterior(h: Hir): Option<seq<Bytes>>
    decreases h, 1, 0
  {
    match h
    case Literal(bytes) => if |bytes| >= MIN_LITERAL && ValidUtf8(bytes) then Some([bytes]) else None
    case Capture(sub) => RequiredInterior(sub)
    case Repetition(min, _, sub) => if min > 0 then RequiredInterior(sub) else None
    case Concat(parts) => BestPart(h, |parts|)
    case Alternation(parts) =>
      (match AllParts(h, |parts|)
       case None => None
       case Some(values) => Some(SortDedup(values)))
    case _ => None
  }

  /** `filter_map` and `max_by_key`: among the first `n` parts, the last with the longest
      shortest literal. */
  function BestPart(h: Hir, n: nat): Option<seq<Bytes>>
    requires h.Concat? && n <= |h.parts|
    decreases h, 0, n
  {
    if n == 0 then None
    else
      var best, part := BestPart(h, n - 1), RequiredInterior(h.parts[n - 1]);
      if part.None? then best
      else if best.None? || ShortestLength(part.value) >= ShortestLength(best.value) then part
      else best
  }

  /** The values of the first `n` alternatives, unless one has none. */
  function AllParts(h: Hir, n: nat): Option<seq<Bytes>>
    requires h.Alternation? && n <= |h.parts|
    decreases h, 0, n
  {
    if n == 0 then Some([])
    else
      match AllParts(h, n - 1)
      case None => None
      case Some(before) =>
        match RequiredInterior(h.parts[n - 1])
        case None => None
        case Some(values) => Some(before + values)
  }

  /** Literals long enough to search for. */
  predicate Usable(values: seq<Bytes>) {
    forall i :: 0 <= i < |values| ==> |values[i]| >= MIN_LITERAL && ValidUtf8(values[i])
  }

  /** The text contains one of the literals. */
  ghost predicate ContainsAny(s: Bytes, values: seq<Bytes>) { exists i :: 0 <= i < |values| && Contains(s, values[i]) }

  /** Every match contains one of the literals. */
  ghost predicate Covers(h: Hir, values: seq<Bytes>) { forall s: Bytes :: Matches(h, s) ==> ContainsAny(s, values) }

  lemma BestIsSome(h: Hir, n: nat)
    requires h.Concat? && n <= |h.parts| && BestPart(h, n).Some?
    ensures exists i :: 0 <= i < n && RequiredInterior(h.parts[i]) == BestPart(h, n)
    decreases n
  {
    var part := RequiredInterior(h.parts[n - 1]);
    if BestPart(h, n) != part {
      BestIsSome(h, n - 1);
    }
  }

  lemma ContainsMore(s: Bytes, a: seq<Bytes>, b: seq<Bytes>)
    requires ContainsAny(s, a) && forall x :: x in a ==> x in b
    ensures ContainsAny(s, b)
  {
    var i :| 0 <= i < |a| && Contains(s, a[i]);
    assert a[i] in b;
    var j :| 0 <= j < |b| && b[j] == a[i];
  }

  lemma PieceContainsAny(pieces: seq<Bytes>, i: nat, values: seq<Bytes>)
    requires i < |pieces| && ContainsAny(pieces[i], values)
    ensures ContainsAny(Flatten(pieces), values)
  {
    var j :| 0 <= j < |values| && Contains(pieces[i], values[j]);
    PieceContained(pieces, i, values[j]);
  }

  lemma {:induction false} PartsInAll(h: Hir, n: nat, i: nat)
    requires h.Alternation? && i < n <= |h.parts| && AllParts(h, n).Some?
    ensures RequiredInterior(h.parts[i]).Some?
    ensures forall x :: x in RequiredInterior(h.parts[i]).value ==> x in AllParts(h, n).value
    decreases n
  {
    if i < n - 1 { PartsInAll(h, n - 1, i); }
  }

  /** Every string an expression matches contains one of the literals found for it. */
  lemma {:induction false} InteriorCovers(h: Hir, s: Bytes)
    requires Matches(h, s) && RequiredInterior(h).Some?
    ensures ContainsAny(s, RequiredInterior(h).value)
    decreases h
  {
    match h {
      case Literal(bytes) =>
        assert OccursAt(bytes, s, 0);
        assert RequiredInterior(h).value[0] == bytes;
      case Capture(sub) => InteriorCovers(sub, s);
      case Repetition(min, max, sub) =>
        var pieces: seq<Bytes> :| min <= |pieces| && Flatten(pieces) == s && forall i :: 0 <= i < |pieces| ==> Matches(sub, pieces[i]);
        InteriorCovers(sub, pieces[0]);
        PieceContainsAny(pieces, 0, RequiredInterior(sub).value);
      case Concat(parts) =>
        var pieces: seq<Bytes> :| |pieces| == |parts| && Flatten(pieces) == s && forall i :: 0 <= i < |parts| ==> Matches(parts[i], pieces[i]);
        BestIsSome(h, |parts|);
        var i :| 0 <= i < |parts| && RequiredInterior(parts[i]) == BestPart(h, |parts|);
        InteriorCovers(parts[i], pieces[i]);
        PieceContainsAny(pieces, i, RequiredInterior(h).value);
      case Alternation(parts) =>
        var i :| 0 <= i < |parts| && Matches(parts[i], s);
        PartsInAll(h, |parts|, i);
        InteriorCovers(parts[i], s);
        SortDedupKeeps(AllParts(h, |parts|).value);
        ContainsMore(s, RequiredInterior(parts[i]).value, RequiredInterior(h).value);
      case _ =>
    }
  }

  lemma UsableAppend(a: seq<Bytes>, b: seq<Bytes>)
    requires Usable(a) && Usable(b)
    ensures Usable(a + b)
  {
    hide ValidUtf8;
  }

  lemma UsableSame(a: seq<Bytes>, b: seq<Bytes>)
    requires Usable(a) && forall x :: x in b ==> x in a
    ensures Usable(b)
  {
    hide ValidUtf8;
    forall i | 0 <= i < |b| ensures |b[i]| >= MIN_LITERAL && ValidUtf8(b[i]) {
      assert b[i] in a;
    }
  }

  lemma {:induction false} AllPartsUsable(h: Hir, n: nat)
    requires h.Alternation? && n <= |h.parts| && AllParts(h, n).Some?
    requires forall i :: 0 <= i < n && RequiredInterior(h.parts[i]).Some? ==> Usable(RequiredInterior(h.parts[i]).value)
    ensures Usable(AllParts(h, n).value)
    decreases n
  {
    hide Usable;
    if n == 0 {
      NothingUsable();
    } else {
      AllPartsUsable(h, n - 1);
      UsableAppend(AllParts(h, n - 1).value, RequiredInterior(h.parts[n - 1]).value);
    }
  }

  lemma NothingUsable()
    ensures Usable([])
  {
  }

  /** If no literal is found at all, there is nothing to match. */
  lemma InteriorIsSomething(h: Hir)
    requires RequiredInterior(h) == Some([])
    ensures forall s: Bytes :: !Matches(h, s)
  {
    hide Matches, RequiredInterior;
    forall s: Bytes | Matches(h, s) ensures false { InteriorCovers(h, s); }
  }

  /** Each literal is at least three bytes of UTF-8, and there is one unless nothing matches. */
  lemma {:induction false} InteriorUsable(h: Hir)
    requires RequiredInterior(h).Some?
    ensures Usable(RequiredInterior(h).value)
    ensures RequiredInterior(h).value == [] ==> forall s: Bytes :: !Matches(h, s)
    decreases h
  {
    hide Matches;
    if RequiredInterior(h) == Some([]) { InteriorIsSomething(h); }
    match h {
      case Literal(bytes) =>
      case Capture(sub) => InteriorUsable(sub);
      case Repetition(min, max, sub) => InteriorUsable(sub);
      case Concat(parts) =>
        BestIsSome(h, |parts|);
        var i :| 0 <= i < |parts| && RequiredInterior(parts[i]) == BestPart(h, |parts|);
        InteriorUsable(parts[i]);
      case Alternation(parts) =>
        forall i | 0 <= i < |parts| && RequiredInterior(parts[i]).Some? ensures Usable(RequiredInterior(parts[i]).value) {
          InteriorUsable(parts[i]);
        }
        AllPartsUsable(h, |parts|);
        SortDedupKeeps(AllParts(h, |parts|).value);
        UsableSame(AllParts(h, |parts|).value, RequiredInterior(h).value);
      case _ =>
    }
  }

  // ---- required_literals ----

  function FirstBest(candidates: seq<seq<Bytes>>): Option<seq<Bytes>> {
    if candidates == [] then None
    else
      match FirstBest(candidates[1..])
      case None => Some(candidates[0])
      case Some(best) => Some(if Better(best, candidates[0]) then best else candidates[0])
  }

  /** Fewer literals, or as many and a longer shortest one. */
  predicate Better(a: seq<Bytes>, b: seq<Bytes>) {
    |a| < |b| || (|a| == |b| && ShortestLength(a) > ShortestLength(b))
  }

  /** What is kept of an extracted prefix or suffix set: all of it, or nothing. */
  function Kept(extracted: Option<seq<Bytes>>): seq<seq<Bytes>> {
    if extracted.None? || extracted.value == [] || !Usable(extracted.value) then [] else [SortDedup(extracted.value)]
  }

  function AsList(values: Option<seq<Bytes>>): seq<seq<Bytes>> { if values.None? then [] else [values.value] }

  /** The extractor's prefixes and suffixes and the interior literals, the first of the best. */
  function RequiredLiterals(h: Hir, prefixes: Option<seq<Bytes>>, suffixes: Option<seq<Bytes>>): Option<seq<Bytes>> {
    FirstBest(Kept(prefixes) + Kept(suffixes) + AsList(RequiredInterior(h)))
  }

  lemma {:induction false} FirstBestIsBest(candidates: seq<seq<Bytes>>)
    ensures FirstBest(candidates).None? <==> candidates == []
    ensures FirstBest(candidates).Some? ==> FirstBest(candidates).value in candidates
    ensures FirstBest(candidates).Some? ==> forall c :: c in candidates ==> !Better(c, FirstBest(candidates).value)
  {
    if candidates != [] {
      FirstBestIsBest(candidates[1..]);
      assert candidates == [candidates[0]] + candidates[1..];
    }
  }

  lemma CoversSame(h: Hir, a: seq<Bytes>, b: seq<Bytes>)
    requires Covers(h, a) && forall x :: x in a ==> x in b
    ensures Covers(h, b)
  {
    hide Matches, ContainsAny;
    forall s: Bytes | Matches(h, s) ensures ContainsAny(s, b) { ContainsMore(s, a, b); }
  }

  lemma KeptIsSound(h: Hir, extracted: Option<seq<Bytes>>, c: seq<Bytes>)
    requires extracted.Some? ==> Covers(h, extracted.value)
    requires c in Kept(extracted)
    ensures Covers(h, c) && Usable(c)
  {
    hide Covers, Usable;
    SortDedupKeeps(extracted.value);
    CoversSame(h, extracted.value, c);
    UsableSame(extracted.value, c);
  }

  lemma InteriorIsSound(h: Hir)
    requires RequiredInterior(h).Some?
    ensures Covers(h, RequiredInterior(h).value) && Usable(RequiredInterior(h).value)
  {
    hide Matches, ContainsAny, Usable, RequiredInterior;
    InteriorUsable(h);
    forall s: Bytes | Matches(h, s) ensures ContainsAny(s, RequiredInterior(h).value) { InteriorCovers(h, s); }
  }

  /** The selection is sound when the extractor is: every match contains one of the literals, each
      is at least three bytes, and no other candidate set is better. */
  lemma RequiredLiteralsAreSound(h: Hir, prefixes: Option<seq<Bytes>>, suffixes: Option<seq<Bytes>>)
    requires prefixes.Some? ==> Covers(h, prefixes.value)
    requires suffixes.Some? ==> Covers(h, suffixes.value)
    ensures var literals := RequiredLiterals(h, prefixes, suffixes);
            && (literals.Some? ==> Covers(h, literals.value) && Usable(literals.value))
            && (literals.Some? && RequiredInterior(h).Some? ==> !Better(RequiredInterior(h).value, literals.value))
            && (literals.None? ==> RequiredInterior(h).None?)
  {
    hide Covers, Usable, RequiredInterior, Better, Kept, FirstBest;
    var candidates := Kept(prefixes) + Kept(suffixes) + AsList(RequiredInterior(h));
    FirstBestIsBest(candidates);
    if RequiredInterior(h).Some? {
      InteriorIsSound(h);
      assert candidates[|candidates| - 1] == RequiredInterior(h).value;
    }
    if FirstBest(candidates).Some? {
      var c := FirstBest(candidates).value;
      if c in Kept(prefixes) {
        KeptIsSound(h, prefixes, c);
      } else if c in Kept(suffixes) {
        KeptIsSound(h, suffixes, c);
      }
    }
  }

  // ---- minimum_ascii_letter_run ----

  const MAX_U32 := 0xFFFF_FFFF

  predicate Upper(c: nat) { 65 <= c <= 90 }

  predicate Lower(c: nat) { 97 <= c <= 122 }

  predicate Letter(c: nat) { Upper(c) || Lower(c) }

  predicate AllLetters(s: Bytes) { forall i :: 0 <= i < |s| ==> Letter(s[i]) }

  predicate EndsAreLetters(ranges: seq<Range>) {
    forall i :: 0 <= i < |ranges| ==> Letter(ranges[i].lo) && Letter(ranges[i].hi)
  }

  /** The analysis, in 32-bit numbers whose overflow gives no answer. */
  function LetterRun(h: Hir): (r: Option<nat>)
    ensures r.Some? ==> r.value <= MAX_U32
    decreases h, 1, 0
  {
    match h
    case Literal(bytes) => if AllLetters(bytes) && |bytes| <= MAX_U32 then Some(|bytes|) else None
    case UnicodeClass(ranges) => if EndsAreLetters(ranges) then Some(1) else None
    case ByteClass(ranges) => if EndsAreLetters(ranges) then Some(1) else None
    case Capture(sub) => LetterRun(sub)
    case Repetition(min, _, sub) =>
      (match LetterRun(sub)
       case None => None
       case Some(run) => if run * min <= MAX_U32 then Some(run * min) else None)
    case Concat(parts) => LongestRun(h, |parts|)
    case Alternation(parts) => ShortestRun(h, |parts|)
    case Empty => None
    case Look => None
  }

  /** `filter_map` and `max` over the first `n` parts. */
  function LongestRun(h: Hir, n: nat): (r: Option<nat>)
    requires h.Concat? && n <= |h.parts|
    ensures r.Some? ==> r.value <= MAX_U32
    decreases h, 0, n
  {
    if n == 0 then None
    else
      var best, part := LongestRun(h, n - 1), LetterRun(h.parts[n - 1]);
      if part.None? then best else if best.None? || part.value >= best.value then part else best
  }

  /** The minimum over the first `n` alternatives, if every one has a run. */
  function ShortestRun(h: Hir, n: nat): (r: Option<nat>)
    requires h.Alternation? && n <= |h.parts|
    ensures r.Some? ==> r.value <= MAX_U32
    decreases h, 0, n
  {
    if n == 0 then None
    else
      var part := LetterRun(h.parts[n - 1]);
      if part.None? then None
      else if n == 1 then part
      else
        match ShortestRun(h, n - 1)
        case None => None
        case Some(before) => Some(Min(before, part.value))
  }

  /** The text has `n` letters in a row. */
  ghost predicate HasRun(s: Bytes, n: nat) { exists at: nat :: RunAt(s, at, n) }

  predicate RunAt(s: Bytes, at: nat, n: nat) { at + n <= |s| && AllLetters(s[at..at + n]) }

  /** Each range stays within the upper case or within the lower case letters. */
  predicate OneCase(ranges: seq<Range>) {
    forall i :: 0 <= i < |ranges| ==> (Upper(ranges[i].lo) && Upper(ranges[i].hi)) || (Lower(ranges[i].lo) && Lower(ranges[i].hi))
  }

  /** By its form the expression matches nothing but letters. */
  predicate LettersOnly(h: Hir)
    decreases h
  {
    match h
    case Literal(bytes) => AllLetters(bytes)
    case UnicodeClass(ranges) => OneCase(ranges)
    case ByteClass(ranges) => OneCase(ranges)
    case Capture(sub) => LettersOnly(sub)
    case Repetition(_, max, sub) => max == Some(0) || LettersOnly(sub)
    case Concat(parts) => forall i :: 0 <= i < |parts| ==> LettersOnly(parts[i])
    case Alternation(parts) => forall i :: 0 <= i < |parts| ==> LettersOnly(parts[i])
    case Empty => true
    case Look => true
  }

  /** Classes that count stay within one case, and what counts more than once is only letters. */
  predicate InFragment(h: Hir)
    decreases h
  {
    match h
    case UnicodeClass(ranges) => EndsAreLetters(ranges) ==> OneCase(ranges)
    case ByteClass(ranges) => EndsAreLetters(ranges) ==> OneCase(ranges)
    case Capture(sub) => InFragment(sub)
    case Repetition(min, _, sub) =>
      min >= 1 && LetterRun(sub).Some? && LetterRun(sub).value > 0 ==> InFragment(sub) && (min >= 2 ==> LettersOnly(sub))
    case Concat(parts) => forall i :: 0 <= i < |parts| && LetterRun(parts[i]).Some? ==> InFragment(parts[i])
    case Alternation(parts) => forall i :: 0 <= i < |parts| ==> InFragment(parts[i])
    case _ => true
  }

  lemma {:induction false} LettersOnlyMatches(h: Hir, s: Bytes)
    requires LettersOnly(h) && Matches(h, s)
    ensures AllLetters(s)
    decreases h
  {
    match h {
      case UnicodeClass(ranges) =>
        var c: nat :| InRanges(c, ranges) && s == Encode(c);
        LetterEncodes(c, ranges);
      case ByteClass(ranges) => LetterEncodes(s[0], ranges);
      case Capture(sub) => LettersOnlyMatches(sub, s);
      case Repetition(_, max, sub) =>
        var pieces: seq<Bytes> :| && (max.Some? ==> |pieces| <= max.value) && Flatten(pieces) == s
                                  && forall i :: 0 <= i < |pieces| ==> Matches(sub, pieces[i]);
        forall i | 0 <= i < |pieces| ensures AllLetters(pieces[i]) { LettersOnlyMatches(sub, pieces[i]); }
        LetterPieces(pieces, 0);
      case Concat(parts) =>
        var pieces: seq<Bytes> :| |pieces| == |parts| && Flatten(pieces) == s && forall i :: 0 <= i < |parts| ==> Matches(parts[i], pieces[i]);
        forall i | 0 <= i < |pieces| ensures AllLetters(pieces[i]) { LettersOnlyMatches(parts[i], pieces[i]); }
        LetterPieces(pieces, 0);
      case Alternation(parts) =>
        var i :| 0 <= i < |parts| && Matches(parts[i], s);
        LettersOnlyMatches(parts[i], s);
      case _ =>
    }
  }

  lemma LongestIsSome(h: Hir, n: nat)
    requires h.Concat? && n <= |h.parts| && LongestRun(h, n).Some?
    ensures exists i :: 0 <= i < n && LetterRun(h.parts[i]) == LongestRun(h, n)
    decreases n
  {
    if LongestRun(h, n) != LetterRun(h.parts[n - 1]) { LongestIsSome(h, n - 1); }
  }

  lemma {:induction false} ShortestBelow(h: Hir, n: nat, i: nat)
    requires h.Alternation? && i < n <= |h.parts| && ShortestRun(h, n).Some?
    ensures LetterRun(h.parts[i]).Some? && ShortestRun(h, n).value <= LetterRun(h.parts[i]).value
    decreases n
  {
    if i < n - 1 { ShortestBelow(h, n - 1, i); }
  }

  lemma ShorterRun(s: Bytes, n: nat, m: nat)
    requires HasRun(s, n) && m <= n
    ensures HasRun(s, m)
  {
    var at: nat :| RunAt(s, at, n);
    assert s[at..at + m] == s[at..at + n][..m];
    assert RunAt(s, at, m);
  }

  lemma RunInMiddle(a: Bytes, s: Bytes, b: Bytes, n: nat)
    requires HasRun(s, n)
    ensures HasRun(a + s + b, n)
  {
    var at: nat :| RunAt(s, at, n);
    assert (a + s + b)[|a| + at..|a| + at + n] == s[at..at + n];
    assert RunAt(a + s + b, |a| + at, n);
  }

  lemma {:induction false} PieceHasRun(pieces: seq<Bytes>, i: nat, n: nat)
    requires i < |pieces| && HasRun(pieces[i], n)
    ensures HasRun(Flatten(pieces), n)
    decreases |pieces|
  {
    hide HasRun;
    if i == 0 {
      RunInMiddle([], pieces[0], Flatten(pieces[1..]), n);
      assert [] + pieces[0] + Flatten(pieces[1..]) == Flatten(pieces);
    } else {
      PieceHasRun(pieces[1..], i - 1, n);
      RunInMiddle(pieces[0], Flatten(pieces[1..]), [], n);
      assert pieces[0] + Flatten(pieces[1..]) + [] == Flatten(pieces);
    }
  }

  lemma {:induction false} LetterPieces(pieces: seq<Bytes>, n: nat)
    requires forall i :: 0 <= i < |pieces| ==> AllLetters(pieces[i]) && |pieces[i]| >= n
    ensures AllLetters(Flatten(pieces)) && |Flatten(pieces)| >= n * |pieces|
  {
    if pieces != [] {
      LetterPieces(pieces[1..], n);
      assert n * |pieces| == n + n * |pieces[1..]|;
    }
  }

  lemma WholeRun(s: Bytes, n: nat)
    requires AllLetters(s) && n <= |s|
    ensures HasRun(s, n)
  {
    assert RunAt(s, 0, n);
  }

  lemma RunFits(s: Bytes, n: nat)
    requires HasRun(s, n)
    ensures n <= |s|
  {
  }

  lemma RepeatedRun(pieces: seq<Bytes>, run: nat, min: nat)
    requires min <= |pieces|
    requires forall i :: 0 <= i < |pieces| ==> AllLetters(pieces[i]) && |pieces[i]| >= run
    ensures HasRun(Flatten(pieces), run * min)
  {
    LetterPieces(pieces, run);
    assert run * min <= run * |pieces| by { Scaled(run, min, |pieces|); }
    WholeRun(Flatten(pieces), run * min);
  }

  lemma Scaled(a: nat, b: nat, c: nat)
    requires b <= c
    ensures a * b <= a * c
  {
  }

  lemma LetterEncodes(c: nat, ranges: seq<Range>)
    requires OneCase(ranges) && InRanges(c, ranges)
    ensures Letter(c) && Encode(c) == [c]
  {
  }

  /** What one part has, the concatenation has. */
  lemma PartHasRun(h: Hir, pieces: seq<Bytes>)
    requires h.Concat? && InFragment(h) && LetterRun(h).Some? && |pieces| == |h.parts|
    requires forall i :: 0 <= i < |pieces| ==> Matches(h.parts[i], pieces[i])
    ensures HasRun(Flatten(pieces), LetterRun(h).value)
    decreases h, 0
  {
    hide Matches, HasRun, Flatten;
    LongestIsSome(h, |h.parts|);
    var i :| 0 <= i < |h.parts| && LetterRun(h.parts[i]) == LongestRun(h, |h.parts|);
    LetterRunIsSound(h.parts[i], pieces[i]);
    PieceHasRun(pieces, i, LetterRun(h).value);
  }

  /** The least run of the alternatives is in each of them. */
  lemma AlternativeHasRun(h: Hir, i: nat, s: Bytes)
    requires h.Alternation? && InFragment(h) && LetterRun(h).Some? && i < |h.parts| && Matches(h.parts[i], s)
    ensures HasRun(s, LetterRun(h).value)
    decreases h, 0
  {
    hide Matches, HasRun;
    ShortestBelow(h, |h.parts|, i);
    LetterRunIsSound(h.parts[i], s);
    ShorterRun(s, LetterRun(h.parts[i]).value, LetterRun(h).value);
  }

  /** In a repetition nothing counts, one piece counts, or all pieces are letters. */
  lemma RepetitionHasRun(h: Hir, pieces: seq<Bytes>, run: nat)
    requires h.Repetition? && InFragment(h) && LetterRun(h.sub) == Some(run) && h.min <= |pieces|
    requires forall i :: 0 <= i < |pieces| ==> Matches(h.sub, pieces[i])
    ensures HasRun(Flatten(pieces), run * h.min)
    decreases h, 0
  {
    hide Matches, Flatten;
    if h.min == 0 || run == 0 {
      assert run * h.min == 0;
      assert RunAt(Flatten(pieces), 0, 0);
    } else if h.min == 1 {
      LetterRunIsSound(h.sub, pieces[0]);
      PieceHasRun(pieces, 0, run);
    } else {
      forall i | 0 <= i < |pieces| ensures AllLetters(pieces[i]) && |pieces[i]| >= run {
        LettersOnlyMatches(h.sub, pieces[i]);
        LetterRunIsSound(h.sub, pieces[i]);
        RunFits(pieces[i], run);
      }
      RepeatedRun(pieces, run, h.min);
    }
  }

  /** On the fragment every match has a run of letters at least as long as the computed one. */
  lemma {:induction false} LetterRunIsSound(h: Hir, s: Bytes)
    requires Matches(h, s) && InFragment(h) && LetterRun(h).Some?
    ensures HasRun(s, LetterRun(h).value)
    decreases h, 1
  {
    hide HasRun;
    match h {
      case Literal(bytes) => WholeRun(s, |bytes|);
      case UnicodeClass(ranges) =>
        var c: nat :| InRanges(c, ranges) && s == Encode(c);
        LetterEncodes(c, ranges);
        WholeRun(s, 1);
      case ByteClass(ranges) =>
        LetterEncodes(s[0], ranges);
        WholeRun(s, 1);
      case Capture(sub) => LetterRunIsSound(sub, s);
      case Repetition(min, max, sub) =>
        var pieces: seq<Bytes> :| min <= |pieces| && Flatten(pieces) == s && forall i :: 0 <= i < |pieces| ==> Matches(sub, pieces[i]);
        RepetitionHasRun(h, pieces, LetterRun(sub).value);
      case Concat(parts) =>
        var pieces: seq<Bytes> :| |pieces| == |parts| && Flatten(pieces) == s && forall i :: 0 <= i < |parts| ==> Matches(parts[i], pieces[i]);
        PartHasRun(h, pieces);
      case Alternation(parts) =>
        var i :| 0 <= i < |parts| && Matches(parts[i], s);
        AlternativeHasRun(h, i, s);
      case _ =>
    }
  }

  /** For a class whose range ends are letters the analysis is right if and only if no range
      spans both cases, be it a class of code points or of bytes. */
  lemma ClassRunSoundIffOneCase(ranges: seq<Range>, h: Hir)
    requires h == UnicodeClass(ranges) || h == ByteClass(ranges)
    requires EndsAreLetters(ranges) && forall i :: 0 <= i < |ranges| ==> ranges[i].lo <= ranges[i].hi
    ensures LetterRun(h) == Some(1)
    ensures OneCase(ranges) <==> forall s: Bytes :: Matches(h, s) ==> HasRun(s, 1)
  {
    if OneCase(ranges) {
      forall s: Bytes | Matches(h, s) ensures HasRun(s, 1) { LetterRunIsSound(h, s); }
    } else {
      var i :| 0 <= i < |ranges| && !((Upper(ranges[i].lo) && Upper(ranges[i].hi)) || (Lower(ranges[i].lo) && Lower(ranges[i].hi)));
      var bracket: Bytes := [91];
      assert InRanges(91, ranges);
      assert Matches(h, bracket) by { assert Encode(91) == bracket; }
      assert !HasRun(bracket, 1) by { assert !Letter(bracket[0]); NoRunOfOne(bracket); }
    }
  }

  lemma NoRunOfOne(s: Bytes)
    requires |s| == 1 && !Letter(s[0])
    ensures !HasRun(s, 1)
  {
    forall at: nat ensures !RunAt(s, at, 1) {
      assert at + 1 <= |s| ==> s[at..at + 1][0] == s[0];
    }
  }

  const ABC: Bytes := [97, 98, 99]

  const ONE: Bytes := [49]

  const DIGIT: Hir := UnicodeClass([Range(48, 57)])

  /** The expression `abc[0-9]`. */
  const MIXED: Hir := Concat([Literal(ABC), DIGIT])

  lemma MixedRun()
    ensures LetterRun(MIXED) == Some(3)
  {
    assert LetterRun(Literal(ABC)) == Some(3);
    assert LetterRun(DIGIT) == None by { assert !Letter(DIGIT.ranges[0].lo); }
    assert LongestRun(MIXED, 0) == None && LongestRun(MIXED, 1) == Some(3);
    assert LongestRun(MIXED, 2) == Some(3);
  }

  lemma MixedMatches()
    ensures Matches(MIXED, ABC + ONE)
  {
    FlattenTwo(ABC, ONE);
    var pieces := [ABC, ONE];
    assert |pieces| == |MIXED.parts| && Flatten(pieces) == ABC + ONE;
    assert Matches(DIGIT, ONE) by {
      var ranges := DIGIT.ranges;
      assert ranges[0].lo <= 49 <= ranges[0].hi;
      assert InRanges(49, ranges) && Encode(49) == ONE;
    }
    assert Matches(MIXED.parts[0], pieces[0]) && Matches(MIXED.parts[1], pieces[1]);
  }

  lemma ThriceMatches(h: Hir, s: Bytes)
    requires Matches(h, s)
    ensures Matches(Repetition(3, Some(3), h), s + (s + (s + [])))
  {
    FlattenThree(s);
    var pieces := [s, s, s];
    assert |pieces| == 3 && Flatten(pieces) == s + (s + (s + []));
  }

  lemma NoNine(s: Bytes)
    requires |s| == 12 && !Letter(s[3])
    ensures !HasRun(s, 9)
  {
    forall at: nat ensures !RunAt(s, at, 9) {
      assert at + 9 <= |s| ==> s[at..at + 9][3 - at] == s[3];
    }
  }

  /** Outside the fragment the computed run can be too long: `(?:abc[0-9]){3}` is said to have nine
      letters in a row, and matches `abc1abc1abc1`. */
  lemma RepetitionMiscounts()
    ensures LetterRun(Repetition(3, Some(3), MIXED)) == Some(9)
    ensures exists s: Bytes :: Matches(Repetition(3, Some(3), MIXED), s) && !HasRun(s, 9)
  {
    hide Matches, HasRun, LongestRun;
    MixedRun();
    MixedMatches();
    var piece := ABC + ONE;
    ThriceMatches(MIXED, piece);
    var s := piece + (piece + (piece + []));
    assert s[3] == 49;
    NoNine(s);
  }

  lemma FlattenTwo(a: Bytes, b: Bytes)
    ensures Flatten([a, b]) == a + b
  {
    assert [a, b][1..] == [b] && [b][1..] == [];
    assert Flatten([b]) == b + [];
  }

  lemma FlattenThree(a: Bytes)
    ensures Flatten([a, a, a]) == a + (a + (a + []))
  {
    assert [a, a, a][1..] == [a, a] && [a, a][1..] == [a] && [a][1..] == [];
    assert Flatten([a]) == a + [] && Flatten([a, a]) == a + Flatten([a]);
  }
}
