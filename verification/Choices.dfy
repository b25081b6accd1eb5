/** What the analysis of an expression chooses among its parts: when it finds literals, which ones,
    and which run of letters (src/core/search.rs). */
module Choices {
  import opened Basics
  import opened Utf8
  import opened Collation
  import opened Regex

  // ---- Where literals are found ----

  /** Every way through the expression passes a literal of three bytes or more. */
  predicate HasLiteral(h: Hir)
    decreases h
  {
    match h
    case Literal(bytes) => |bytes| >= MIN_LITERAL && ValidUtf8(bytes)
    case Capture(sub) => HasLiteral(sub)
    case Repetition(min, _, sub) => min > 0 && HasLiteral(sub)
    case Concat(parts) => exists i :: 0 <= i < |parts| && HasLiteral(parts[i])
    case Alternation(parts) => forall i :: 0 <= i < |parts| ==> HasLiteral(parts[i])
    case _ => false
  }

  /** Literals are found exactly then. */
  lemma {:induction false} InteriorFound(h: Hir)
    ensures RequiredInterior(h).Some? <==> HasLiteral(h)
    decreases h
  {
    match h {
      case Literal(bytes) =>
      case Capture(sub) => InteriorFound(sub);
      case Repetition(min, max, sub) => InteriorFound(sub);
      case Concat(parts) =>
        forall i | 0 <= i < |parts| ensures RequiredInterior(parts[i]).Some? <==> HasLiteral(parts[i]) { InteriorFound(parts[i]); }
        BestPartIs(h, |parts|);
      case Alternation(parts) =>
        forall i | 0 <= i < |parts| ensures RequiredInterior(parts[i]).Some? <==> HasLiteral(parts[i]) { InteriorFound(parts[i]); }
        AllPartsAre(h, |parts|);
      case _ =>
    }
  }

  /** `i` is the last of the first `n` parts whose shortest literal is the longest. */
  ghost predicate IsBestPart(h: Hir, n: nat, i: nat)
    requires h.Concat? && n <= |h.parts|
  {
    && i < n && RequiredInterior(h.parts[i]).Some?
    && forall j :: 0 <= j < n && RequiredInterior(h.parts[j]).Some? ==>
         var a, b := ShortestLength(RequiredInterior(h.parts[j]).value), ShortestLength(RequiredInterior(h.parts[i]).value);
         a < b || (a == b && j <= i)
  }

  lemma {:induction false} BestPartIs(h: Hir, n: nat)
    requires h.Concat? && n <= |h.parts|
    ensures BestPart(h, n).None? <==> forall i :: 0 <= i < n ==> RequiredInterior(h.parts[i]).None?
    ensures BestPart(h, n).Some? ==> exists i: nat :: IsBestPart(h, n, i) && RequiredInterior(h.parts[i]) == BestPart(h, n)
    decreases n
  {
    if n > 0 {
      hide RequiredInterior, ShortestLength, IsBestPart;
      BestPartIs(h, n - 1);
      var best, part := BestPart(h, n - 1), RequiredInterior(h.parts[n - 1]);
      if best.None? && part.Some? {
        BestBehind(h, n, n - 1);
      } else if best.Some? {
        var i: nat :| IsBestPart(h, n - 1, i) && RequiredInterior(h.parts[i]) == best;
        BestBehind(h, n, i);
      }
    }
  }

  /** One part more. */
  lemma BestBehind(h: Hir, n: nat, i: nat)
    requires h.Concat? && 0 < n <= |h.parts| && i < n
    requires if i == n - 1 then forall j :: 0 <= j < n - 1 ==> RequiredInterior(h.parts[j]).None? else IsBestPart(h, n - 1, i)
    ensures var part := RequiredInterior(h.parts[n - 1]);
            part.Some? ==>
              var last := RequiredInterior(h.parts[i]).None? || ShortestLength(part.value) >= ShortestLength(RequiredInterior(h.parts[i]).value);
              IsBestPart(h, n, if last then n - 1 else i)
    ensures RequiredInterior(h.parts[n - 1]).None? && i < n - 1 ==> IsBestPart(h, n, i)
  {
    hide RequiredInterior, ShortestLength;
  }

  /** A sequence takes the literals of one part: those whose shortest is the longest, of the last
      such part. */
  lemma InteriorOfConcat(h: Hir)
    requires h.Concat? && RequiredInterior(h).Some?
    ensures exists i: nat :: IsBestPart(h, |h.parts|, i) && RequiredInterior(h) == RequiredInterior(h.parts[i])
  {
    hide IsBestPart, BestPart;
    BestPartIs(h, |h.parts|);
  }

  lemma {:induction false} AllPartsAre(h: Hir, n: nat)
    requires h.Alternation? && n <= |h.parts|
    ensures AllParts(h, n).Some? <==> forall i :: 0 <= i < n ==> RequiredInterior(h.parts[i]).Some?
    ensures AllParts(h, n).Some? ==> forall x ::
              x in AllParts(h, n).value <==> exists i :: 0 <= i < n && x in RequiredInterior(h.parts[i]).value
    decreases n
  {
    if n > 0 {
      hide RequiredInterior;
      AllPartsAre(h, n - 1);
    }
  }

  /** An alternation takes exactly the literals of all its alternatives, each once, in the order of
      their bytes. */
  lemma InteriorOfAlternation(h: Hir)
    requires h.Alternation? && RequiredInterior(h).Some?
    ensures forall i :: 0 <= i < |h.parts| ==> RequiredInterior(h.parts[i]).Some?
    ensures var values := RequiredInterior(h).value;
            && (forall x :: x in values <==> exists i :: 0 <= i < |h.parts| && x in RequiredInterior(h.parts[i]).value)
            && forall i, j :: 0 <= i < j < |values| ==> BytesBefore(values[i], values[j])
  {
    hide SortDedup, BytesBefore, AllParts;
    AllPartsAre(h, |h.parts|);
    SortDedupKeeps(AllParts(h, |h.parts|).value);
    SortDedupAscends(AllParts(h, |h.parts|).value);
  }

  // ---- Order and length ----

  lemma {:induction false} BytesLessIsBefore(a: Bytes, b: Bytes)
    ensures BytesLess(a, b) <==> BytesBefore(a, b)
    decreases |a|
  {
    if a != [] && b != [] && a[0] == b[0] {
      BytesLessIsBefore(a[1..], b[1..]);
      BytesBeforeTail(a, b);
    } else if a != [] && b != [] {
      assert a[..0] == b[..0];
      forall i | 0 < i < |a| && i < |b| ensures a[..i] != b[..i] { assert a[..i][0] != b[..i][0]; }
    }
  }

  lemma BytesBeforeTail(a: Bytes, b: Bytes)
    requires a != [] && b != [] && a[0] == b[0]
    ensures BytesBefore(a, b) <==> BytesBefore(a[1..], b[1..])
  {
    var s, t := a[1..], b[1..];
    assert a == [a[0]] + s && b == [b[0]] + t;
    assert a < b <==> s < t;
    if i :| 0 <= i < |a| && i < |b| && a[..i] == b[..i] && a[i] < b[i] {
      assert i > 0 && s[..i - 1] == a[..i][1..] && t[..i - 1] == b[..i][1..];
      assert s[i - 1] < t[i - 1];
    }
    if i :| 0 <= i < |s| && i < |t| && s[..i] == t[..i] && s[i] < t[i] {
      assert a[..i + 1] == [a[0]] + s[..i] && b[..i + 1] == [b[0]] + t[..i];
      assert a[i + 1] < b[i + 1];
    }
  }

  /** Sorted literals ascend in the order of their bytes. */
  lemma SortDedupAscends(values: seq<Bytes>)
    ensures forall i, j :: 0 <= i < j < |SortDedup(values)| ==> BytesBefore(SortDedup(values)[i], SortDedup(values)[j])
  {
    hide BytesLess, BytesBefore, SortDedup;
    SortDedupKeeps(values);
    var sorted := SortDedup(values);
    forall i, j | 0 <= i < j < |sorted| ensures BytesBefore(sorted[i], sorted[j]) { BytesLessIsBefore(sorted[i], sorted[j]); }
  }

  lemma {:induction false} ShortestLengthIs(values: seq<Bytes>)
    requires values != []
    ensures exists i :: 0 <= i < |values| && |values[i]| == ShortestLength(values)
    ensures forall i :: 0 <= i < |values| ==> ShortestLength(values) <= |values[i]|
  {
    if |values| == 1 {
      assert |values[0]| == ShortestLength(values);
    } else {
      ShortestLengthIs(values[1..]);
      var i :| 0 <= i < |values[1..]| && |values[1..][i]| == ShortestLength(values[1..]);
      assert values[i + 1] == values[1..][i];
      forall k | 1 <= k < |values| ensures ShortestLength(values) <= |values[k]| { assert values[k] == values[1..][k - 1]; }
    }
  }

  // ---- The selection ----

  /** Fewer literals come first, then those whose shortest is longer, then the earlier candidate. */
  ghost predicate ComesFirst(candidates: seq<seq<Bytes>>, i: nat, j: nat)
    requires i < |candidates| && j < |candidates|
  {
    var a, b := candidates[i], candidates[j];
    || |a| < |b|
    || (|a| == |b| && (ShortestLength(a) > ShortestLength(b) || (ShortestLength(a) == ShortestLength(b) && i <= j)))
  }

  /** The selection takes the candidate that comes before all others. */
  lemma {:induction false} FirstBestComesFirst(candidates: seq<seq<Bytes>>)
    ensures FirstBest(candidates).None? <==> candidates == []
    ensures FirstBest(candidates).Some? ==>
              exists i :: 0 <= i < |candidates| && candidates[i] == FirstBest(candidates).value
                          && forall j :: 0 <= j < |candidates| ==> ComesFirst(candidates, i, j)
    decreases |candidates|
  {
    if candidates != [] {
      hide ShortestLength;
      var rest := candidates[1..];
      FirstBestComesFirst(rest);
      if rest == [] {
        assert ComesFirst(candidates, 0, 0);
      } else {
        var i :| 0 <= i < |rest| && rest[i] == FirstBest(rest).value && forall j :: 0 <= j < |rest| ==> ComesFirst(rest, i, j);
        forall j | 1 <= j < |candidates| ensures ComesFirst(rest, i, j - 1) && candidates[j] == rest[j - 1] {}
        if Better(rest[i], candidates[0]) {
          var k := i + 1;
          assert forall j :: 0 <= j < |candidates| ==> ComesFirst(candidates, k, j);
        } else {
          assert forall j :: 0 <= j < |candidates| ==> ComesFirst(candidates, 0, j);
        }
      }
    }
  }

  /** An extracted set takes part exactly if it is there, is not empty, and each of its literals is text
      of three bytes or more; then with the same literals, in the order of their bytes. */
  lemma KeptMeans(extracted: Option<seq<Bytes>>)
    ensures Kept(extracted) != [] <==>
              && extracted.Some? && extracted.value != []
              && forall x :: x in extracted.value ==> |x| >= 3 && exists cs :: AllScalars(cs) && x == EncodeAll(cs)
    ensures Kept(extracted) != [] ==>
              var kept := Kept(extracted)[0];
              && Kept(extracted) == [kept]
              && (forall x :: x in kept <==> x in extracted.value)
              && forall i, j :: 0 <= i < j < |kept| ==> BytesBefore(kept[i], kept[j])
  {
    hide SortDedup, BytesBefore, ValidUtf8, AllScalars, EncodeAll;
    if extracted.Some? {
      SortDedupKeeps(extracted.value);
      SortDedupAscends(extracted.value);
      forall x | x in extracted.value ensures ValidUtf8(x) <==> exists cs :: AllScalars(cs) && x == EncodeAll(cs) { ValidUtf8Iff(x); }
      forall i | 0 <= i < |extracted.value| ensures extracted.value[i] in extracted.value {}
    }
  }

  /** The literals of an expression are one of the sets that take part, and none of the others has fewer,
      or as many of which the shortest is longer. */
  lemma SelectionMeans(h: Hir, prefixes: Option<seq<Bytes>>, suffixes: Option<seq<Bytes>>)
    ensures var selected := RequiredLiterals(h, prefixes, suffixes);
            && (selected.None? <==> Kept(prefixes) == [] && Kept(suffixes) == [] && RequiredInterior(h).None?)
            && (selected.Some? ==>
                  && (selected.value in Kept(prefixes) || selected.value in Kept(suffixes) || RequiredInterior(h) == selected)
                  && forall c :: c in Kept(prefixes) || c in Kept(suffixes) || RequiredInterior(h) == Some(c) ==>
                       || |selected.value| < |c|
                       || (|selected.value| == |c| && ShortestLength(selected.value) >= ShortestLength(c)))
  {
    hide Kept, RequiredInterior, FirstBest, ShortestLength;
    var candidates := Kept(prefixes) + Kept(suffixes) + AsList(RequiredInterior(h));
    FirstBestComesFirst(candidates);
    assert forall c :: c in candidates <==> c in Kept(prefixes) || c in Kept(suffixes) || RequiredInterior(h) == Some(c);
    assert |candidates| == |Kept(prefixes)| + |Kept(suffixes)| + if RequiredInterior(h).Some? then 1 else 0;
    if FirstBest(candidates).Some? {
      var best := FirstBest(candidates).value;
      var i :| 0 <= i < |candidates| && candidates[i] == best && forall j :: 0 <= j < |candidates| ==> ComesFirst(candidates, i, j);
      forall c | c in candidates ensures |best| < |c| || (|best| == |c| && ShortestLength(best) >= ShortestLength(c)) {
        var j :| 0 <= j < |candidates| && candidates[j] == c;
        assert ComesFirst(candidates, i, j);
      }
    }
  }

  // ---- Runs ----

  /** A sequence has a run when one of its parts has, and then the longest of theirs. */
  lemma LetterRunOfConcat(h: Hir)
    requires h.Concat?
    ensures LetterRun(h).None? <==> forall i :: 0 <= i < |h.parts| ==> LetterRun(h.parts[i]).None?
    ensures LetterRun(h).Some? ==>
              && (exists i :: 0 <= i < |h.parts| && LetterRun(h.parts[i]) == LetterRun(h))
              && forall i :: 0 <= i < |h.parts| && LetterRun(h.parts[i]).Some? ==> LetterRun(h.parts[i]).value <= LetterRun(h).value
  {
    LongestRunIs(h, |h.parts|);
  }

  lemma {:induction false} LongestRunIs(h: Hir, n: nat)
    requires h.Concat? && n <= |h.parts|
    ensures LongestRun(h, n).None? <==> forall i :: 0 <= i < n ==> LetterRun(h.parts[i]).None?
    ensures LongestRun(h, n).Some? ==>
              && (exists i :: 0 <= i < n && LetterRun(h.parts[i]) == LongestRun(h, n))
              && forall i :: 0 <= i < n && LetterRun(h.parts[i]).Some? ==> LetterRun(h.parts[i]).value <= LongestRun(h, n).value
    decreases n
  {
    if n > 0 {
      hide LetterRun;
      LongestRunIs(h, n - 1);
    }
  }

  /** An alternation has a run when it has alternatives and all of them have, and then the shortest of
      theirs. */
  lemma LetterRunOfAlternation(h: Hir)
    requires h.Alternation?
    ensures LetterRun(h).Some? <==> h.parts != [] && forall i :: 0 <= i < |h.parts| ==> LetterRun(h.parts[i]).Some?
    ensures LetterRun(h).Some? ==>
              && (exists i :: 0 <= i < |h.parts| && LetterRun(h.parts[i]) == LetterRun(h))
              && forall i :: 0 <= i < |h.parts| ==> LetterRun(h.parts[i]).Some? && LetterRun(h.parts[i]).value >= LetterRun(h).value
  {
    ShortestRunIs(h, |h.parts|);
  }

  lemma {:induction false} ShortestRunIs(h: Hir, n: nat)
    requires h.Alternation? && n <= |h.parts|
    ensures ShortestRun(h, n).Some? <==> n > 0 && forall i :: 0 <= i < n ==> LetterRun(h.parts[i]).Some?
    ensures ShortestRun(h, n).Some? ==>
              && (exists i :: 0 <= i < n && LetterRun(h.parts[i]) == ShortestRun(h, n))
              && forall i :: 0 <= i < n ==> LetterRun(h.parts[i]).Some? && LetterRun(h.parts[i]).value >= ShortestRun(h, n).value
    decreases n
  {
    if n > 1 {
      hide LetterRun;
      ShortestRunIs(h, n - 1);
    }
  }
}
