/** Paths as sequences of names, and the SQL string functions that handle them as text. */
module Paths {
  import opened Basics
  import opened Patterns

  type Name = string
  type Path = seq<Name>

  predicate NoSlash(n: string) { '/' !in n }

  predicate DotName(n: string) { n == "." || n == ".." }

  predicate ValidName(n: string) { n != "" && NoSlash(n) && !DotName(n) }

  predicate ValidPath(p: Path) { forall i :: 0 <= i < |p| ==> ValidName(p[i]) }

  predicate Slashless(p: seq<string>) { forall i :: 0 <= i < |p| ==> NoSlash(p[i]) }

  // ---- Splitting and joining ----

  function Split(s: string): (r: seq<string>)
    ensures |r| >= 1
  {
    if s == "" then [""]
    else if s[0] == '/' then [""] + Split(s[1..])
    else var r := Split(s[1..]); [[s[0]] + r[0]] + r[1..]
  }

  function Join(p: seq<string>): string {
    if p == [] then "" else if |p| == 1 then p[0] else p[0] + "/" + Join(p[1..])
  }

  lemma {:induction false} JoinSplit(s: string)
    ensures Join(Split(s)) == s && Slashless(Split(s))
  {
    if s != "" {
      JoinSplit(s[1..]);
      var r := Split(s[1..]);
      if s[0] == '/' {
        assert Split(s)[1..] == r;
      } else {
        assert Split(s)[1..] == r[1..];
        assert s == [s[0]] + s[1..];
      }
    }
  }

  lemma {:induction false} SplitJoin(p: seq<string>)
    requires p != [] && Slashless(p)
    ensures Split(Join(p)) == p
    decreases |p|, |p[0]|
  {
    var n := p[0];
    var s := Join(p);
    if n == "" {
      if |p| > 1 {
        SplitJoin(p[1..]);
        assert s[1..] == Join(p[1..]);
      }
    } else {
      var q := [n[1..]] + p[1..];
      assert q[1..] == p[1..];
      SplitJoin(q);
      assert s[1..] == Join(q) && s[0] == n[0];
      assert [n[0]] + n[1..] == n && q[1..] == p[1..] && [n] + p[1..] == p;
    }
  }

  lemma {:induction false} JoinAppend(a: seq<string>, b: seq<string>)
    requires a != [] && b != []
    ensures Join(a + b) == Join(a) + "/" + Join(b)
  {
    assert (a + b)[1..] == a[1..] + b;
    if |a| > 1 {
      JoinAppend(a[1..], b);
    } else {
      assert a[1..] + b == b;
    }
  }

  // ---- The text of a path ----

  /** A path relative to a zone; the zone itself is the empty text. */
  function RenderRel(p: Path): string { Join(p) }

  /** An absolute path. */
  function Render(p: Path): string { "/" + Join(p) }

  function Parse(s: string): Path {
    if |s| <= 1 then [] else Split(s[1..])
  }

  function ParseRel(s: string): Path {
    if s == "" then [] else Split(s)
  }

  lemma ParseRender(p: Path)
    requires ValidPath(p)
    ensures Parse(Render(p)) == p && ParseRel(RenderRel(p)) == p
    ensures p != [] ==> Join(p) != ""
  {
    if p != [] {
      SplitJoin(p);
      assert Render(p)[1..] == Join(p);
      assert Join(p) != "" by {
        assert p[0] != "";
      }
    }
  }

  lemma RenderInjective(p: Path, q: Path)
    requires ValidPath(p) && ValidPath(q) && Render(p) == Render(q)
    ensures p == q
  {
    ParseRender(p);
    ParseRender(q);
  }

  // ---- assert_path ----

  /** The first regular expression: a slash, then non-empty runs of other characters
      separated by single slashes. */
  predicate WellSeparated(t: string) {
    t != "" && t[0] != '/' && t[|t| - 1] != '/' &&
    forall i :: 0 <= i < |t| - 1 ==> !(t[i] == '/' && t[i + 1] == '/')
  }

  predicate DotsAt(t: string, i: nat)
    requires i < |t|
  {
    (i == 0 || t[i - 1] == '/') && t[i] == '.' &&
    (i + 1 == |t| || t[i + 1] == '/' || (t[i + 1] == '.' && (i + 2 == |t| || t[i + 2] == '/')))
  }

  /** The second regular expression: a `.` or `..` between slashes or ends. */
  predicate HasDots(t: string) { exists i :: 0 <= i < |t| && DotsAt(t, i) }

  predicate AssertPath(s: string) {
    s == "/" || (s != "" && s[0] == '/' && WellSeparated(s[1..]) && !HasDots(s))
  }

  lemma WellSeparatedCons(n: string, u: string)
    requires NoSlash(n)
    ensures WellSeparated(n + "/" + u) <==> n != "" && WellSeparated(u)
  {
    var t := n + "/" + u;
    assert t[|n|] == '/';
    assert forall i :: 0 <= i < |n| ==> t[i] == n[i];
    assert forall i :: 0 <= i < |u| ==> t[|n| + 1 + i] == u[i];
    if n != "" && WellSeparated(u) {
      forall i | 0 <= i < |t| - 1 ensures !(t[i] == '/' && t[i + 1] == '/') {
        if i > |n| { assert t[i] == u[i - |n| - 1] && t[i + 1] == u[i - |n|]; }
      }
    }
    assert u == "" ==> t[|t| - 1] == '/';
    if WellSeparated(t) {
      assert t[|n| + 1] == u[0];
      forall i | 0 <= i < |u| - 1 ensures !(u[i] == '/' && u[i + 1] == '/') {
        assert u[i] == t[|n| + 1 + i] && u[i + 1] == t[|n| + 1 + i + 1];
      }
    }
  }

  lemma {:induction false} WellSeparatedMeansNonEmpty(p: seq<string>)
    requires p != [] && Slashless(p)
    ensures WellSeparated(Join(p)) <==> forall i :: 0 <= i < |p| ==> p[i] != ""
  {
    if |p| > 1 {
      hide WellSeparated;
      WellSeparatedCons(p[0], Join(p[1..]));
      WellSeparatedMeansNonEmpty(p[1..]);
      assert forall i :: 1 <= i < |p| ==> p[i] == p[1..][i - 1];
      assert forall i :: 0 <= i < |p| - 1 ==> p[1..][i] == p[i + 1];
    }
  }

  lemma HasDotsCons(n: string, u: string)
    requires NoSlash(n)
    ensures HasDots(n + "/" + u) <==> DotName(n) || HasDots(u)
  {
    var t := n + "/" + u;
    assert t[|n|] == '/';
    assert forall i :: 0 <= i < |n| ==> t[i] == n[i] && n[i] != '/';
    assert forall i :: 0 <= i < |u| ==> t[|n| + 1 + i] == u[i];
    assert forall i :: 0 <= i < |u| ==> (DotsAt(u, i) <==> DotsAt(t, |n| + 1 + i));
    if DotName(n) { assert DotsAt(t, 0); }
    if i :| 0 <= i < |t| && DotsAt(t, i) {
      if i > |n| { assert DotsAt(u, i - |n| - 1); }
    }
    if i :| 0 <= i < |u| && DotsAt(u, i) { assert DotsAt(t, |n| + 1 + i); }
  }

  lemma {:induction false} HasDotsMeansDotName(p: seq<string>)
    requires p != [] && Slashless(p)
    ensures HasDots(Join(p)) <==> exists i :: 0 <= i < |p| && DotName(p[i])
  {
    if |p| == 1 {
      if DotName(p[0]) { assert DotsAt(p[0], 0); }
    } else {
      hide HasDots;
      HasDotsCons(p[0], Join(p[1..]));
      HasDotsMeansDotName(p[1..]);
      assert forall i :: 1 <= i < |p| ==> p[i] == p[1..][i - 1];
      assert forall i :: 0 <= i < |p| - 1 ==> p[1..][i] == p[i + 1];
    }
  }

  /** `assert_path` accepts exactly the texts of valid paths. */
  lemma AssertPathMeansValid(s: string)
    ensures AssertPath(s) <==> s != "" && s[0] == '/' && ValidPath(Parse(s)) && Render(Parse(s)) == s
    ensures AssertPath(s) <==> exists p :: ValidPath(p) && Render(p) == s
  {
    if s != "" && s[0] == '/' && s != "/" {
      var t := s[1..];
      var p := Split(t);
      JoinSplit(t);
      WellSeparatedMeansNonEmpty(p);
      HasDotsMeansDotName(p);
      HasDotsBelowSlash(t);
      assert s == "/" + t;
    }
    assert AssertPath(s) <==> s != "" && s[0] == '/' && ValidPath(Parse(s)) && Render(Parse(s)) == s;
    forall p | ValidPath(p) && Render(p) == s ensures Parse(s) == p {
      ParseRender(p);
    }
  }

  lemma HasDotsBelowSlash(t: string)
    ensures HasDots("/" + t) <==> HasDots(t)
  {
    var s := "/" + t;
    assert forall i :: 0 <= i < |t| ==> s[i + 1] == t[i];
    assert forall i :: 0 <= i < |t| ==> (DotsAt(s, i + 1) <==> DotsAt(t, i));
    if i :| 0 <= i < |s| && DotsAt(s, i) { assert DotsAt(t, i - 1); }
    if i :| 0 <= i < |t| && DotsAt(t, i) { assert DotsAt(s, i + 1); }
  }

  // ---- SQL string functions ----

  function Reverse(s: string): string {
    if s == "" then "" else Reverse(s[1..]) + [s[0]]
  }

  /** 1-based position of a character, 0 when absent. */
  function Strpos(s: string, c: char): nat {
    if s == "" then 0
    else if s[0] == c then 1
    else var r := Strpos(s[1..], c); if r == 0 then 0 else r + 1
  }

  /** `substr(s, from)`, 1-based. */
  function Substr(s: string, from: nat): string
    requires from >= 1
  {
    if from - 1 >= |s| then "" else s[from - 1..]
  }

  function TrimLeadingSlash(s: string): string {
    if s != "" && s[0] == '/' then TrimLeadingSlash(s[1..]) else s
  }

  function NameOf(s: string): string {
    if s == "/" then ""
    else var k := Strpos(Reverse(s), '/') - 1; if 0 <= k <= |s| then s[|s| - k..] else ""
  }

  function ParentOf(s: string): Option<string> {
    if s == "/" then None
    else if Strpos(Substr(s, 2), '/') == 0 then Some("/")
    else var k := Strpos(Reverse(s), '/'); Some(if k <= |s| then s[..|s| - k] else "")
  }

  function RelativeParent(s: string): string {
    if Strpos(s, '/') == 0 then ""
    else var k := Strpos(Reverse(s), '/'); if k <= |s| then s[..|s| - k] else ""
  }

  function RelativeName(s: string): string {
    var k := Strpos(Reverse("/" + s), '/') - 1;
    if 0 <= k <= |s| then s[|s| - k..] else ""
  }

  function AbsolutePath(zonePath: string, relative: string): string {
    if relative == "" then zonePath
    else if zonePath == "/" then "/" + relative
    else zonePath + "/" + relative
  }

  /** The relative path `locate_zone` reports for a zone it found above a path. */
  function RelativeTo(zonePath: string, s: string): string {
    if zonePath == s then ""
    else if zonePath == "/" then TrimLeadingSlash(s)
    else Substr(s, |zonePath| + 2)
  }

  /** The texts `ancestor_paths` yields, shallowest first. */
  function AncestorPaths(s: string): seq<string> {
    var parts := Split(TrimLeadingSlash(s));
    seq((if s == "/" then 0 else |parts|) + 1,
        depth requires 0 <= depth <= |parts| => if depth == 0 then "/" else "/" + Join(parts[..depth]))
  }

  // ---- What the string functions mean on segments ----

  lemma {:induction false} StrposAbsent(s: string, c: char)
    ensures Strpos(s, c) == 0 <==> c !in s
    ensures Strpos(s, c) <= |s|
  {
    if s != "" {
      StrposAbsent(s[1..], c);
      assert s == [s[0]] + s[1..];
    }
  }

  lemma {:induction false} StrposFound(a: string, c: char, b: string)
    requires c !in a
    ensures Strpos(a + [c] + b, c) == |a| + 1
  {
    if a == "" {
      assert ("" + [c] + b)[0] == c;
    } else {
      assert (a + [c] + b)[1..] == a[1..] + [c] + b;
      StrposFound(a[1..], c, b);
    }
  }

  lemma {:induction false} ReverseAppend(a: string, b: string)
    ensures Reverse(a + b) == Reverse(b) + Reverse(a)
  {
    if a == "" {
      assert a + b == b;
    } else {
      assert (a + b)[1..] == a[1..] + b;
      ReverseAppend(a[1..], b);
    }
  }

  lemma {:induction false} ReverseKeeps(s: string)
    ensures |Reverse(s)| == |s|
    ensures forall c :: c in Reverse(s) <==> c in s
  {
    if s != "" {
      ReverseKeeps(s[1..]);
      assert s == [s[0]] + s[1..];
    }
  }

  lemma LastSlash(a: string, n: string)
    requires NoSlash(n)
    ensures Strpos(Reverse(a + "/" + n), '/') == |n| + 1
  {
    ReverseAppend(a + "/", n);
    ReverseAppend(a, "/");
    ReverseKeeps(n);
    assert Reverse("/") == "/" by { assert "/"[1..] == ""; }
    assert Reverse(n) + ("/" + Reverse(a)) == Reverse(n) + ['/'] + Reverse(a);
    StrposFound(Reverse(n), '/', Reverse(a));
  }

  lemma JoinLast(p: Path)
    requires ValidPath(p) && |p| > 1
    ensures Join(p) == Join(DropLast(p)) + "/" + Last(p)
  {
    assert p == DropLast(p) + [Last(p)];
    JoinAppend(DropLast(p), [Last(p)]);
  }

  lemma ValidText(p: Path)
    requires ValidPath(p) && p != []
    ensures Join(p) != "" && Join(p)[0] != '/' && Render(p) != "/" && Substr(Render(p), 2) == Join(p)
  {
    ParseRender(p);
    assert Render(p)[1..] == Join(p);
    assert Join(p)[0] == p[0][0];
    assert p[0][0] in p[0];
  }

  lemma NameOfMeansLast(p: Path)
    requires ValidPath(p) && p != []
    ensures NameOf(Render(p)) == Last(p) == RelativeName(RenderRel(p))
  {
    ValidText(p);
    var a := if |p| == 1 then "" else "/" + Join(DropLast(p));
    if |p| > 1 { JoinLast(p); }
    assert Render(p) == a + "/" + Last(p);
    LastSlash(a, Last(p));
  }

  lemma ParentOfMeansDropLast(p: Path)
    requires ValidPath(p) && p != []
    ensures ParentOf(Render(p)) == Some(Render(DropLast(p)))
  {
    hide Reverse, Strpos, Substr;
    ValidText(p);
    StrposAbsent(Join(p), '/');
    if |p| == 1 {
      assert Join(p) == p[0] && DropLast(p) == [] && Render([]) == "/";
    } else {
      JoinLast(p);
      var a := Join(DropLast(p));
      assert Join(p)[|a|] == '/';
      LastSlash("/" + a, Last(p));
      assert Render(p) == ("/" + a) + "/" + Last(p);
      assert Render(p)[..|a| + 1] == "/" + a;
    }
  }

  lemma RelativeParentMeansDropLast(p: Path)
    requires ValidPath(p) && p != []
    ensures RelativeParent(RenderRel(p)) == RenderRel(DropLast(p))
  {
    hide Reverse, Strpos;
    StrposAbsent(Join(p), '/');
    if |p| == 1 {
      assert Join(p) == p[0] && DropLast(p) == [];
    } else {
      JoinLast(p);
      var a := Join(DropLast(p));
      assert Join(p)[|a|] == '/' && Join(p)[..|a|] == a;
      LastSlash(a, Last(p));
    }
  }

  lemma AbsolutePathMeansAppend(z: Path, r: Path)
    requires ValidPath(z) && ValidPath(r)
    ensures AbsolutePath(Render(z), RenderRel(r)) == Render(z + r)
  {
    ParseRender(z);
    ParseRender(r);
    if r == [] {
      assert z + r == z;
    } else if z == [] {
      assert z + r == r;
      assert Render(z) == "/";
    } else {
      JoinAppend(z, r);
      assert Render(z) != "/" by { assert Render(z)[1..] == Join(z); }
    }
  }

  lemma TrimValid(p: Path)
    requires ValidPath(p)
    ensures TrimLeadingSlash(Render(p)) == Join(p)
  {
    assert Render(p)[1..] == Join(p);
    if p != [] { ValidText(p); }
  }

  lemma AncestorsArePrefixes(p: Path)
    requires ValidPath(p)
    ensures |AncestorPaths(Render(p))| == |p| + 1
    ensures forall k :: 0 <= k <= |p| ==> AncestorPaths(Render(p))[k] == Render(p[..k])
  {
    TrimValid(p);
    ParseRender(p);
    if p != [] {
      SplitJoin(p);
      assert Render(p) != "/" by { assert Render(p)[1..] == Join(p); }
    }
  }

  lemma RelativeBelow(z: Path, r: Path)
    requires ValidPath(z) && z != [] && r != []
    ensures Render(z + r) == Render(z) + "/" + Join(r) && Render(z) != "/"
    ensures Substr(Render(z + r), |Render(z)| + 2) == Join(r)
  {
    hide Join, ValidPath;
    JoinAppend(z, r);
    ValidText(z);
    var s := Render(z + r);
    assert s == Render(z) + "/" + Join(r);
    assert s[|Render(z)| + 1..] == Join(r);
  }

  /** The text offsets of `locate_zone` give the segments below the zone. */
  lemma RelativeToMeansDrop(z: Path, p: Path)
    requires ValidPath(p) && z <= p
    ensures RelativeTo(Render(z), Render(p)) == RenderRel(p[|z|..])
  {
    var r := p[|z|..];
    assert ValidPath(z) && p == z + r;
    hide ValidPath, TrimLeadingSlash, Substr;
    if z == p {
      assert r == [];
    } else {
      if Render(z) == Render(p) { RenderInjective(z, p); }
      if z == [] {
        TrimValid(p);
        assert r == p;
      } else {
        hide Join;
        RelativeBelow(z, r);
      }
    }
  }

  lemma JoinPrefix(s: Path, p: Path)
    requires s <= p && s != []
    ensures Join(s) <= Join(p)
    ensures s < p ==> Join(p) == Join(s) + "/" + Join(p[|s|..])
    ensures s == p ==> Join(p)[|Join(s)|..] == ""
  {
    if s < p {
      assert p == s + p[|s|..];
      JoinAppend(s, p[|s|..]);
      assert Join(p)[..|Join(s)|] == Join(s);
    } else {
      assert s == p;
    }
  }

  /** `destination || substr(path, length(source) + 1)` replaces the leading segments. */
  lemma TextRerootMeansReplacePrefix(s: Path, d: Path, p: Path)
    requires ValidPath(p) && ValidPath(d) && s <= p && s != [] && d != []
    ensures Parse(Render(d) + Substr(Render(p), |Render(s)| + 1)) == d + p[|s|..]
    ensures ParseRel(RenderRel(d) + Substr(RenderRel(p), |RenderRel(s)| + 1)) == d + p[|s|..]
  {
    hide Join, Split;
    JoinPrefix(s, p);
    var q := d + p[|s|..];
    assert ValidPath(q);
    assert Join(q) == Join(d) + Substr(Join(p), |Join(s)| + 1) by {
      if s == p {
        assert q == d;
      } else {
        JoinAppend(d, p[|s|..]);
        assert Join(p)[|Join(s)|..] == "/" + Join(p[|s|..]);
      }
    }
    assert Substr(Render(p), |Render(s)| + 1) == Substr(Join(p), |Join(s)| + 1) by {
      if |Join(s)| < |Join(p)| { assert Render(p)[|Render(s)|..] == Join(p)[|Join(s)|..]; }
    }
    assert Render(d) + Substr(Render(p), |Render(s)| + 1) == Render(q);
    ParseRender(q);
  }

  // ---- Subtree tests ----

  /** `q LIKE p || '/%'` on absolute paths. */
  predicate Under(p: Path, q: Path) { LikeUnder(Render(q), Render(p) + "/", TEXT) }

  /** The same test on paths relative to one zone. */
  predicate UnderRel(p: Path, q: Path) { LikeUnder(RenderRel(q), RenderRel(p) + "/", TEXT) }

  predicate PlainPath(p: Path) { forall i :: 0 <= i < |p| ==> WildcardFree(p[i], TEXT) }

  lemma {:induction false} PlainText(p: Path)
    requires PlainPath(p)
    ensures WildcardFree(Join(p), TEXT)
  {
    if |p| > 1 {
      PlainText(p[1..]);
    }
  }

  lemma {:induction false} TextPrefixMeansSegments(p: Path, q: Path)
    requires ValidPath(p) && ValidPath(q) && p != []
    ensures Join(p) + "/" <= Join(q) <==> p < q
  {
    if p < q {
      JoinPrefix(p, q);
    }
    if Join(p) + "/" <= Join(q) {
      var t := Join(q)[|Join(p)| + 1..];
      assert Join(q) == Join(p) + "/" + t;
      JoinSplit(t);
      JoinAppend(p, Split(t));
      assert Slashless(p + Split(t));
      SplitJoin(p + Split(t));
      ParseRender(q);
      assert q == p + Split(t);
    }
  }

  /** On wildcard-free paths other than the root the LIKE tests mean "strictly below". */
  lemma UnderMeansBelow(p: Path, q: Path)
    requires ValidPath(p) && ValidPath(q) && PlainPath(p) && p != []
    ensures Under(p, q) <==> p < q
    ensures UnderRel(p, q) <==> p < q
  {
    TextPrefixMeansSegments(p, q);
    PlainText(p);
    UnderIsPrefixIffWildcardFree(Render(p), '/', 'x', TEXT);
    UnderIsPrefixIffWildcardFree(RenderRel(p), '/', 'x', TEXT);
    assert Render(p) + ['/'] == Render(p) + "/" && RenderRel(p) + ['/'] == RenderRel(p) + "/";
    assert Render(p) + "/" <= Render(q) <==> Join(p) + "/" <= Join(q) by {
      assert Render(p) + "/" == "/" + (Join(p) + "/");
      if Join(p) + "/" <= Join(q) {
        assert Render(q)[..|Join(p)| + 2] == "/" + Join(q)[..|Join(p)| + 1];
      }
      if Render(p) + "/" <= Render(q) {
        assert Join(q) == Render(q)[1..];
        assert Join(p) + "/" == (Render(p) + "/")[1..];
      }
    }
  }

  /** No name has an escape. */
  predicate EscapeFree(p: Path) { forall i :: 0 <= i < |p| ==> '\\' !in p[i] }

  lemma {:induction false} EscapeFreeText(p: Path)
    requires EscapeFree(p)
    ensures '\\' !in Join(p)
  {
    if |p| > 1 {
      EscapeFreeText(p[1..]);
    }
  }

  /** Without an escape the test accepts everything strictly below. */
  lemma NothingMissed(p: Path, q: Path)
    requires EscapeFree(p) && p != [] && p < q
    ensures Under(p, q) && UnderRel(p, q)
  {
    hide Join, Like;
    JoinPrefix(p, q);
    EscapeFreeText(p);
    var rest := Join(q[|p|..]);
    LikeOwnText(Join(p) + "/", rest, TEXT);
    LikeOwnText("/" + Join(p) + "/", rest, TEXT);
    assert Join(q) == Join(p) + "/" + rest;
    assert Render(q) == "/" + Join(p) + "/" + rest;
  }

  /** For the root the test is `//%`, which no valid path passes. */
  lemma NothingUnderRoot(q: Path)
    requires ValidPath(q)
    ensures !Under([], q)
  {
    assert Render([]) + "/" == "//";
    LikePlainPrefix(Render(q), "//", "%", TEXT);
    if q != [] { ValidText(q); }
  }

  /** With a wildcard the test leaves the subtree: `/a_` claims what is below `/ab`. */
  lemma UnderscoreSelectsSibling()
    ensures ValidPath(["a_"]) && ValidPath(["ab", "c"]) && Under(["a_"], ["ab", "c"]) && !(["a_"] <= ["ab", "c"])
  {
    var s, p := Render(["ab", "c"]), Render(["a_"]) + "/" + "%";
    assert Join(["ab", "c"]) == "ab/c" by { assert ["ab", "c"][1..] == ["c"]; }
    assert p == "/a_/%" && s == "/ab/c";
    assert Like(s, "/a" + "_/%", TEXT) by {
      LikePlainPrefix(s, "/a", "_/%", TEXT);
      assert s[2..] == "b/c";
      LikePlainPrefix("/c", "/", "%", TEXT);
      LikeAnything("/c"[1..], TEXT);
      assert "b/c"[1..] == "/c" && "_/%"[1..] == "/%" && "/" + "%" == "/%";
    }
    assert "/a" + "_/%" == p;
    assert ["a_"][0] != ["ab", "c"][0];
  }
}
