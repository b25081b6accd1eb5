/** Canonical form of the paths clients send (src/core/path.rs). */
module Normalize {
  import opened Basics
  import opened Paths

  datatype PathError = NotAbsolute | Nul | EscapesRoot

  const NUL: char := '\0'

  /** One segment: empty and `.` are skipped, `..` pops, anything else is pushed. */
  function Step(parts: Path, part: string): Option<Path> {
    if part == "" || part == "." then Some(parts)
    else if part == ".." then if parts == [] then None else Some(DropLast(parts))
    else Some(parts + [part])
  }

  function Walk(parts: Path, segments: seq<string>): Option<Path>
    decreases |segments|
  {
    if segments == [] then Some(parts)
    else
      match Step(parts, segments[0])
      case None => None
      case Some(next) => Walk(next, segments[1..])
  }

  function Normalized(path: string): Result<string, PathError> {
    if path == "" || path[0] != '/' then Failure(NotAbsolute)
    else if NUL in path then Failure(Nul)
    else
      match Walk([], Split(path))
      case None => Failure(EscapesRoot)
      case Some(parts) => Success(Render(parts))
  }

  method Normalize(path: string) returns (r: Result<string, PathError>)
    ensures r == Normalized(path)
  {
    if path == "" || path[0] != '/' {
      return Failure(NotAbsolute);
    }
    if NUL in path {
      return Failure(Nul);
    }
    var parts: Path := [];
    var segments := Split(path);
    assert segments[0..] == segments;
    for i := 0 to |segments|
      invariant Walk([], segments) == Walk(parts, segments[i..])
    {
      var part := segments[i];
      assert segments[i..][0] == part && segments[i..][1..] == segments[i + 1..];
      if part == "" || part == "." {
      } else if part == ".." {
        if parts == [] {
          return Failure(EscapesRoot);
        }
        parts := DropLast(parts);
      } else {
        parts := parts + [part];
      }
    }
    assert segments[|segments|..] == [] && Render([]) == "/";
    r := Success(if parts == [] then "/" else "/" + Join(parts));
  }

  /** How far a run of segments leads below where it started. */
  function Depth(segments: seq<string>): int {
    if segments == [] then 0
    else
      Depth(DropLast(segments)) +
      (if Last(segments) == ".." then -1 else if Last(segments) == "" || Last(segments) == "." then 0 else 1)
  }

  /** No leading run of segments climbs above the root, `above` levels up. */
  predicate StaysBelow(above: nat, segments: seq<string>) {
    forall k :: 0 <= k <= |segments| ==> above + Depth(segments[..k]) >= 0
  }

  lemma {:induction false} WalkAppend(parts: Path, a: seq<string>, b: seq<string>)
    ensures Walk(parts, a + b) == match Walk(parts, a) case None => None case Some(next) => Walk(next, b)
    decreases |a|
  {
    if a == [] {
      assert a + b == b;
    } else {
      assert (a + b)[1..] == a[1..] + b;
      match Step(parts, a[0]) {
        case None =>
        case Some(next) => WalkAppend(next, a[1..], b);
      }
    }
  }

  lemma StaysBelowNothing(above: nat)
    ensures StaysBelow(above, [])
  {
  }

  lemma StaysBelowSnoc(above: nat, a: seq<string>, l: string)
    ensures StaysBelow(above, a + [l]) <==> StaysBelow(above, a) && above + Depth(a + [l]) >= 0
  {
    hide Depth;
    var s := a + [l];
    assert s[..|s|] == s;
    assert forall k :: 0 <= k <= |a| ==> s[..k] == a[..k];
    if StaysBelow(above, s) {
      forall k | 0 <= k <= |a| ensures above + Depth(a[..k]) >= 0 {
        assert s[..k] == a[..k];
      }
    }
  }

  /** The walk succeeds exactly when no leading run of segments climbs above the start. */
  lemma {:induction false} WalkMeansDepth(parts: Path, segments: seq<string>)
    ensures Walk(parts, segments).Some? <==> StaysBelow(|parts|, segments)
    ensures Walk(parts, segments).Some? ==> |Walk(parts, segments).value| == |parts| + Depth(segments)
    decreases |segments|
  {
    hide StaysBelow;
    if segments == [] {
      StaysBelowNothing(|parts|);
    } else {
      var a, l := DropLast(segments), Last(segments);
      assert a + [l] == segments;
      WalkMeansDepth(parts, a);
      WalkAppend(parts, a, [l]);
      StaysBelowSnoc(|parts|, a, l);
      assert [l][1..] == [];
    }
  }

  lemma {:induction false} SplitAtSlash(a: string, b: string)
    ensures Split(a + "/" + b) == Split(a) + Split(b)
  {
    if a == "" {
      assert ("" + "/" + b)[1..] == b;
    } else {
      assert (a + "/" + b)[1..] == a[1..] + "/" + b;
      SplitAtSlash(a[1..], b);
    }
  }

  lemma {:induction false} WalkNames(parts: Path, names: Path)
    requires ValidPath(names)
    ensures Walk(parts, names) == Some(parts + names)
    decreases |names|
  {
    if names == [] {
      assert parts + names == parts;
    } else {
      WalkNames(parts + [names[0]], names[1..]);
      assert parts + [names[0]] + names[1..] == parts + names;
    }
  }

  lemma {:induction false} WalkKeepsValid(parts: Path, segments: seq<string>)
    requires ValidPath(parts) && Slashless(segments)
    ensures Walk(parts, segments).Some? ==> ValidPath(Walk(parts, segments).value)
    decreases |segments|
  {
    if segments != [] && Step(parts, segments[0]).Some? {
      WalkKeepsValid(Step(parts, segments[0]).value, segments[1..]);
    }
  }

  lemma {:induction false} JoinHasOnly(p: seq<string>, c: char)
    requires forall i :: 0 <= i < |p| ==> c !in p[i]
    requires c != '/'
    ensures c !in Join(p)
  {
    if |p| > 1 { JoinHasOnly(p[1..], c); }
  }

  lemma {:induction false} SplitHasNo(s: string, c: char)
    requires c !in s
    ensures forall i :: 0 <= i < |Split(s)| ==> c !in Split(s)[i]
  {
    if s != "" { SplitHasNo(s[1..], c); }
  }

  lemma {:induction false} WalkHasNo(parts: Path, segments: seq<string>, c: char)
    requires forall i :: 0 <= i < |parts| ==> c !in parts[i]
    requires forall i :: 0 <= i < |segments| ==> c !in segments[i]
    ensures Walk(parts, segments).Some? ==>
              forall i :: 0 <= i < |Walk(parts, segments).value| ==> c !in Walk(parts, segments).value[i]
    decreases |segments|
  {
    if segments != [] && Step(parts, segments[0]).Some? {
      WalkHasNo(Step(parts, segments[0]).value, segments[1..], c);
    }
  }

  lemma WalkCanonical(parts: Path)
    requires ValidPath(parts)
    ensures Walk([], Split(Render(parts))) == Some(parts)
  {
    assert Render(parts) == "" + "/" + Join(parts);
    SplitAtSlash("", Join(parts));
    if parts != [] {
      SplitJoin(parts);
      WalkAppend([], [""], parts);
      WalkNames([], parts);
      assert [] + parts == parts;
      assert Walk([], [""]) == Some([]);
    } else {
      assert Split("") + Split("") == ["", ""];
      assert ["", ""][1..] == [""];
    }
  }

  /** What acceptance means, what the result looks like, and idempotence. */
  lemma NormalizeAcceptsExactly(path: string)
    ensures Normalized(path).Success? <==>
              && path != "" && path[0] == '/' && NUL !in path
              && StaysBelow(0, Split(path))
    ensures Normalized(path).Success? ==> AssertPath(Normalized(path).value)
    ensures Normalized(path).Success? ==> Normalized(Normalized(path).value) == Normalized(path)
  {
    if path != "" && path[0] == '/' && NUL !in path {
      var segments := Split(path);
      WalkMeansDepth([], segments);
      if Walk([], segments).Some? {
        var parts := Walk([], segments).value;
        JoinSplit(path);
        WalkKeepsValid([], segments);
        AssertPathMeansValid(Render(parts));
        SplitHasNo(path, NUL);
        WalkHasNo([], segments, NUL);
        JoinHasOnly(parts, NUL);
        WalkCanonical(parts);
      }
    }
  }

  /** Normalizing a prefix first changes nothing. */
  lemma NormalizeComposes(a: string, b: string)
    requires Normalized(a).Success?
    ensures Normalized(a + "/" + b) == Normalized(Normalized(a).value + "/" + b)
  {
    var n := Normalized(a).value;
    NormalizeAcceptsExactly(a);
    var parts := Walk([], Split(a)).value;
    JoinSplit(a);
    WalkKeepsValid([], Split(a));
    WalkCanonical(parts);
    SplitAtSlash(a, b);
    SplitAtSlash(n, b);
    WalkAppend([], Split(a), Split(b));
    WalkAppend([], Split(n), Split(b));
    assert NUL in a + "/" + b <==> NUL in b;
    assert NUL in n + "/" + b <==> NUL in b;
  }

  // ---- Which segments stay ----

  /** A segment that stays: not empty, no dot or two dots, without slash and NUL. */
  predicate IsName(n: string) { n != "" && n != "." && n != ".." && '/' !in n && NUL !in n }

  lemma {:induction false} SplitOne(n: string)
    requires '/' !in n
    ensures Split(n) == [n]
  {
    if n != "" {
      SplitOne(n[1..]);
      assert [n[0]] + n[1..] == n;
    }
  }

  /** Segments in the middle that lead back to where they started change nothing. */
  lemma SameWithout(a: string, middle: string, b: string)
    requires NUL !in middle && forall parts: Path :: Walk(parts, Split(middle)) == Some(parts)
    ensures Normalized(a + "/" + middle + "/" + b) == Normalized(a + "/" + b)
  {
    var s, t := a + "/" + middle + "/" + b, a + "/" + b;
    assert s == a + "/" + (middle + "/" + b);
    SplitAtSlash(a, middle + "/" + b);
    SplitAtSlash(middle, b);
    SplitAtSlash(a, b);
    WalkAppend([], Split(a), Split(middle) + Split(b));
    WalkAppend([], Split(a), Split(b));
    if Walk([], Split(a)).Some? { WalkAppend(Walk([], Split(a)).value, Split(middle), Split(b)); }
    assert NUL in s <==> NUL in a || NUL in b;
    assert NUL in t <==> NUL in a || NUL in b;
  }

  lemma BackIsNothing(n: string, parts: Path)
    requires IsName(n)
    ensures Walk(parts, Split(n + "/..")) == Some(parts)
  {
    SplitAtSlash(n, "..");
    SplitOne(n);
    SplitOne("..");
    assert n + "/" + ".." == n + "/..";
    assert Split(n + "/..") == [n, ".."] && [n, ".."][1..] == [".."] && [".."][1..] == [];
    assert DropLast(parts + [n]) == parts;
    hide Split;
    assert Walk(parts, [n, ".."]) == Walk(parts + [n], [".."]) == Walk(parts, []);
  }

  lemma DotIsNothing(dot: string, parts: Path)
    requires dot == "" || dot == "."
    ensures Walk(parts, Split(dot)) == Some(parts)
  {
    SplitOne(dot);
    assert [dot][1..] == [];
  }

  /** Two dots take the name before them, wherever they stand. */
  lemma BackTakesName(a: string, n: string, b: string)
    requires IsName(n)
    ensures Normalized(a + "/" + n + "/../" + b) == Normalized(a + "/" + b)
  {
    forall parts: Path ensures Walk(parts, Split(n + "/..")) == Some(parts) { BackIsNothing(n, parts); }
    SameWithout(a, n + "/..", b);
    assert a + "/" + n + "/../" + b == a + "/" + (n + "/..") + "/" + b;
  }

  /** A dot and an empty segment change nothing, nor does a slash at the end. */
  lemma DotsAreSkipped(a: string, b: string)
    ensures Normalized(a + "/./" + b) == Normalized(a + "/" + b) && Normalized(a + "//" + b) == Normalized(a + "/" + b)
    ensures a != "" ==> Normalized(a + "/") == Normalized(a)
  {
    forall parts: Path ensures Walk(parts, Split(".")) == Some(parts) && Walk(parts, Split("")) == Some(parts) {
      DotIsNothing(".", parts);
      DotIsNothing("", parts);
    }
    SameWithout(a, ".", b);
    assert a + "/./" + b == a + "/" + "." + "/" + b;
    SameWithout(a, "", b);
    assert a + "//" + b == a + "/" + "" + "/" + b;
    SplitAtSlash(a, "");
    assert a + "/" + "" == a + "/";
    WalkAppend([], Split(a), Split(""));
  }

  /** A canonical path stays as it is. */
  lemma CanonicalStays(p: Path)
    requires ValidPath(p) && forall i :: 0 <= i < |p| ==> NUL !in p[i]
    ensures Normalized(Render(p)) == Success(Render(p))
  {
    WalkCanonical(p);
    JoinHasOnly(p, NUL);
  }

  /** Two dots at the start climb above the root, and why a path is refused. */
  lemma RefusedFor(path: string)
    ensures path == "" || path[0] != '/' ==> Normalized(path) == Failure(NotAbsolute)
    ensures path != "" && path[0] == '/' && NUL in path ==> Normalized(path) == Failure(Nul)
    ensures path != "" && path[0] == '/' && NUL !in path && !StaysBelow(0, Split(path)) ==> Normalized(path) == Failure(EscapesRoot)
  {
    WalkMeansDepth([], Split(path));
    hide StaysBelow, Walk;
  }
}
