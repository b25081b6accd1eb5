/** The subtree tests on paths with wildcards: what their unescaped patterns accept among the valid
    paths. */
module Wildcards {
  import opened Basics
  import opened Patterns
  import opened Paths

  /** A pattern taken apart. */
  datatype Token = Run | One | Plain(c: char)

  function Tokens(p: string): seq<Token>
    decreases |p|
  {
    if p == "" then []
    else if p[0] == '\\' then if |p| == 1 then [] else [Plain(p[1])] + Tokens(p[2..])
    else [if p[0] == '%' then Run else if p[0] == '_' then One else Plain(p[0])] + Tokens(p[1..])
  }

  predicate Accepts(s: string, tokens: seq<Token>)
    decreases |tokens| + |s|
  {
    if tokens == [] then s == ""
    else
      match tokens[0]
      case Plain(c) => s != "" && s[0] == c && Accepts(s[1..], tokens[1..])
      case One => s != "" && Accepts(s[1..], tokens[1..])
      case Run => Accepts(s, tokens[1..]) || (s != "" && Accepts(s[1..], tokens))
  }

  lemma {:induction false} LikeIsAccepts(s: string, p: string)
    requires EscapesClosed(p, TEXT)
    ensures Like(s, p, TEXT) <==> Accepts(s, Tokens(p))
    decreases |p| + |s|
  {
    if p != "" {
      if p[0] == '\\' {
        assert Tokens(p)[1..] == Tokens(p[2..]);
        if s != "" { LikeIsAccepts(s[1..], p[2..]); }
      } else {
        assert Tokens(p)[1..] == Tokens(p[1..]);
        if s != "" { LikeIsAccepts(s[1..], p[1..]); }
        if p[0] == '%' {
          LikeIsAccepts(s, p[1..]);
          if s != "" { LikeIsAccepts(s[1..], p); }
        }
      }
    }
  }

  // ---- The tokens of a path ----

  /** A slash always stands for itself, even behind an escape that ends a name. */
  lemma {:induction false} TokensOfName(n: string, rest: string)
    requires NoSlash(n)
    ensures Tokens(n + "/" + rest) == Tokens(n) + [Plain('/')] + Tokens(rest)
    decreases |n|
  {
    var p := n + "/" + rest;
    if n == "" {
      assert p[1..] == rest;
    } else if n[0] == '\\' && |n| == 1 {
      assert p[1] == '/' && p[2..] == rest;
    } else if n[0] == '\\' {
      assert p[2..] == n[2..] + "/" + rest;
      TokensOfName(n[2..], rest);
    } else {
      assert p[1..] == n[1..] + "/" + rest;
      TokensOfName(n[1..], rest);
    }
  }

  function PathTokens(p: Path): seq<Token> {
    if p == [] then [] else Tokens(p[0]) + [Plain('/')] + PathTokens(p[1..])
  }

  lemma {:induction false} TokensOfPath(p: Path, rest: string)
    requires p != [] && Slashless(p)
    ensures Tokens(Join(p) + "/" + rest) == PathTokens(p) + Tokens(rest)
    decreases |p|
  {
    hide Tokens;
    TokensOfName(p[0], rest);
    if |p| == 1 {
      assert PathTokens(p[1..]) == [];
      assert PathTokens(p) == Tokens(p[0]) + [Plain('/')] + [];
    } else {
      var below := Join(p[1..]) + "/" + rest;
      assert Join(p) + "/" + rest == p[0] + "/" + below by { JoinHead(p, rest); }
      TokensOfName(p[0], below);
      TokensOfPath(p[1..], rest);
      AppendAssociates(Tokens(p[0]) + [Plain('/')], PathTokens(p[1..]), Tokens(rest));
    }
  }

  lemma JoinHead(p: Path, rest: string)
    requires |p| > 1
    ensures Join(p) + "/" + rest == p[0] + "/" + (Join(p[1..]) + "/" + rest)
  {
    var below := Join(p[1..]);
    assert Join(p) == p[0] + "/" + below;
    assert p[0] + "/" + below + "/" + rest == p[0] + "/" + (below + "/" + rest);
  }

  lemma {:induction false} PathTokensAppend(a: Path, b: Path)
    ensures PathTokens(a + b) == PathTokens(a) + PathTokens(b)
    decreases |a|
  {
    if a == [] {
      assert a + b == b;
    } else {
      assert (a + b)[1..] == a[1..] + b;
      PathTokensAppend(a[1..], b);
    }
  }

  /** The subtree test of a path. */
  lemma UnderIsAccepts(p: Path, q: Path)
    requires p != [] && ValidPath(p)
    ensures Under(p, q) <==> Accepts(Render(q), [Plain('/')] + PathTokens(p) + [Run])
  {
    hide Tokens, PathTokens, Accepts, EscapesClosed, Join;
    var pattern := Render(p) + "/" + "%";
    PatternTokens(p);
    EscapesClosedBefore(Render(p), '/', TEXT);
    ClosedBeforeRun(Render(p) + "/");
    LikeIsAccepts(Render(q), pattern);
  }

  lemma PatternTokens(p: Path)
    requires p != [] && ValidPath(p)
    ensures Tokens(Render(p) + "/" + "%") == [Plain('/')] + PathTokens(p) + [Run]
  {
    hide PathTokens, Join, Tokens;
    var below := Join(p) + "/" + "%";
    assert Render(p) + "/" + "%" == "" + "/" + below;
    TokensOfName("", below);
    TokensOfPath(p, "%");
    OneRun();
    assert [] + [Plain('/')] + (PathTokens(p) + [Run]) == [Plain('/')] + PathTokens(p) + [Run];
  }

  lemma OneRun()
    ensures Tokens("%") == [Run] && Tokens("") == []
  {
    assert "%"[1..] == "";
  }

  lemma {:induction false} ClosedBeforeRun(p: string)
    requires EscapesClosed(p, TEXT)
    ensures EscapesClosed(p + "%", TEXT)
    decreases |p|
  {
    if p != "" {
      if p[0] == '\\' {
        assert (p + "%")[2..] == p[2..] + "%";
        ClosedBeforeRun(p[2..]);
      } else {
        assert (p + "%")[1..] == p[1..] + "%";
        ClosedBeforeRun(p[1..]);
      }
    }
  }

  // ---- A text the pattern accepts ----

  function Fill(tokens: seq<Token>): string {
    if tokens == [] then "" else [if tokens[0].Plain? then tokens[0].c else 'a'] + Fill(tokens[1..])
  }

  lemma {:induction false} FillAppend(a: seq<Token>, b: seq<Token>)
    ensures Fill(a + b) == Fill(a) + Fill(b)
    decreases |a|
  {
    if a == [] {
      assert a + b == b;
    } else {
      assert (a + b)[1..] == a[1..] + b;
      FillAppend(a[1..], b);
    }
  }

  lemma {:induction false} AcceptsFill(tokens: seq<Token>, t: string)
    ensures Accepts(Fill(tokens) + t, tokens + [Run])
    decreases |tokens|
  {
    var s, all := Fill(tokens) + t, tokens + [Run];
    if tokens == [] {
      AcceptsAnything(t);
      assert s == t && all == [Run];
    } else {
      AcceptsFill(tokens[1..], t);
      assert s[1..] == Fill(tokens[1..]) + t && all[1..] == tokens[1..] + [Run];
      if tokens[0].Run? {
        AcceptsRun(s, all);
      }
    }
  }

  lemma {:induction false} AcceptsAnything(t: string)
    ensures Accepts(t, [Run])
  {
    assert [Run][1..] == [];
    if t != "" { AcceptsAnything(t[1..]); }
  }

  lemma AcceptsRun(s: string, tokens: seq<Token>)
    requires s != "" && tokens != [] && tokens[0].Run? && Accepts(s[1..], tokens[1..])
    ensures Accepts(s, tokens)
  {
    assert Accepts(s[1..], tokens);
  }

  /** The names the pattern's own text stands for. */
  function Filled(p: Path): Path { seq(|p|, i requires 0 <= i < |p| => Fill(Tokens(p[i]))) }

  lemma {:induction false} FilledText(p: Path)
    requires p != []
    ensures Fill(PathTokens(p)) == Join(Filled(p)) + "/"
    decreases |p|
  {
    hide Tokens, Fill;
    FillAppend(Tokens(p[0]), [Plain('/')] + PathTokens(p[1..]));
    FillSlash(PathTokens(p[1..]));
    assert PathTokens(p) == Tokens(p[0]) + ([Plain('/')] + PathTokens(p[1..]));
    assert Filled(p)[1..] == Filled(p[1..]);
    if |p| > 1 {
      FilledText(p[1..]);
    } else {
      FillNothing();
    }
  }

  lemma FillSlash(tokens: seq<Token>)
    ensures Fill([Plain('/')] + tokens) == "/" + Fill(tokens)
  {
    assert ([Plain('/')] + tokens)[1..] == tokens;
  }

  lemma FillNothing()
    ensures Fill(PathTokens([])) == ""
  {
  }

  lemma {:induction false} FillHasNoSlash(n: string)
    requires NoSlash(n)
    ensures NoSlash(Fill(Tokens(n)))
    decreases |n|
  {
    if n != "" {
      if n[0] == '\\' {
        if |n| > 1 {
          FillHasNoSlash(n[2..]);
          assert Tokens(n)[1..] == Tokens(n[2..]);
        }
      } else {
        FillHasNoSlash(n[1..]);
        assert Tokens(n)[1..] == Tokens(n[1..]);
      }
    }
  }

  /** A name stands for itself only if it has no special character. */
  lemma {:induction false} FillIsPlain(n: string)
    ensures |Fill(Tokens(n))| <= |n|
    ensures Fill(Tokens(n)) == n ==> WildcardFree(n, TEXT)
    decreases |n|
  {
    if n != "" {
      var f := Fill(Tokens(n));
      if n[0] == '\\' {
        if |n| > 1 {
          FillIsPlain(n[2..]);
          assert Tokens(n)[1..] == Tokens(n[2..]);
          assert |f| < |n|;
        }
      } else {
        FillIsPlain(n[1..]);
        assert Tokens(n)[1..] == Tokens(n[1..]);
        if f == n {
          assert f[0] == n[0] && f[1..] == n[1..];
          assert forall i :: 1 <= i < |n| ==> n[i] == n[1..][i - 1];
        }
      }
    }
  }

  // ---- Patterns that demand what no path has ----

  predicate AllPlain(tokens: seq<Token>) { forall i :: 0 <= i < |tokens| ==> tokens[i].Plain? }

  lemma {:induction false} PlainPrefix(s: string, tokens: seq<Token>, rest: seq<Token>)
    requires AllPlain(tokens) && Accepts(s, tokens + rest)
    ensures Fill(tokens) <= s
    decreases |tokens|
  {
    if tokens != [] {
      assert (tokens + rest)[1..] == tokens[1..] + rest;
      PlainPrefix(s[1..], tokens[1..], rest);
    }
  }

  /** Plain tokens in the middle of a pattern stand in every text it accepts. */
  lemma {:induction false} PlainInside(s: string, before: seq<Token>, tokens: seq<Token>, rest: seq<Token>)
    requires AllPlain(tokens) && Accepts(s, before + (tokens + rest))
    ensures Contains(s, Fill(tokens))
    decreases |before| + |s|
  {
    if before == [] {
      assert before + (tokens + rest) == tokens + rest;
      PlainPrefix(s, tokens, rest);
      assert OccursAt(Fill(tokens), s, 0);
    } else {
      assert (before + (tokens + rest))[1..] == before[1..] + (tokens + rest);
      if before[0].Run? && Accepts(s, before[1..] + (tokens + rest)) {
        PlainInside(s, before[1..], tokens, rest);
      } else if before[0].Run? {
        PlainInside(s[1..], before, tokens, rest);
        ContainsBehind(s, Fill(tokens));
      } else {
        PlainInside(s[1..], before[1..], tokens, rest);
        ContainsBehind(s, Fill(tokens));
      }
    }
  }

  lemma ContainsBehind(s: string, needle: string)
    requires s != "" && Contains(s[1..], needle)
    ensures Contains(s, needle)
  {
    ContainsInMiddle([s[0]], s[1..], [], needle);
    assert [s[0]] + s[1..] + [] == s;
  }

  /** No valid path has an empty name, a dot or two dots between slashes. */
  lemma NoBadName(q: Path, n: string)
    requires ValidPath(q) && (n == "" || DotName(n))
    ensures !Contains(Render(q), "/" + n + "/")
  {
    var s := Render(q);
    AssertPathMeansValid(s);
    var needle := "/" + n + "/";
    forall at: nat ensures !OccursAt(needle, s, at) {
      if OccursAt(needle, s, at) {
        assert s[at..at + |needle|] == needle;
        assert s[at] == needle[0] && s[at + 1] == needle[1];
        if n == "" {
          assert false;
        } else {
          assert s[at + 2] == needle[2];
          if n == ".." { assert s[at + 3] == needle[3]; }
          assert DotsAt(s, at + 1);
          assert false;
        }
      }
    }
  }

  lemma {:induction false} WildcardFills(tokens: seq<Token>)
    requires !AllPlain(tokens)
    ensures 'a' in Fill(tokens)
    decreases |tokens|
  {
    if tokens[0].Plain? {
      assert tokens[1..] != [] && !AllPlain(tokens[1..]) by {
        var i :| 0 <= i < |tokens| && !tokens[i].Plain?;
        assert tokens[1..][i - 1] == tokens[i];
      }
      WildcardFills(tokens[1..]);
    }
  }

  /** A name that stands for no name keeps the pattern from accepting any path. */
  lemma NothingUnderBadName(p: Path, i: nat, q: Path)
    requires ValidPath(p) && i < |p| && ValidPath(q)
    requires var f := Fill(Tokens(p[i])); f == "" || DotName(f)
    ensures !Under(p, q)
  {
    hide Under, Accepts, Tokens, Contains;
    var name := Tokens(p[i]);
    assert AllPlain(name) by { if !AllPlain(name) { WildcardFills(name); } }
    if Under(p, q) {
      UnderIsAccepts(p, q);
      PathTokensAppend(p[..i], p[i..]);
      assert p[..i] + p[i..] == p && p[i..][1..] == p[i + 1..];
      var before, rest := AroundName(p[..i], name, PathTokens(p[i + 1..]) + [Run]);
      var piece := [Plain('/')] + name + [Plain('/')];
      assert [Plain('/')] + PathTokens(p) + [Run] == before + (piece + rest);
      PlainInside(Render(q), before, piece, rest);
      assert Fill(piece) == "/" + Fill(name) + "/" by {
        FillAppend([Plain('/')] + name, [Plain('/')]);
        FillAppend([Plain('/')], name);
        FillOne();
      }
      NoBadName(q, Fill(name));
    }
  }

  lemma FillOne()
    ensures Fill([Plain('/')]) == "/"
  {
    assert [Plain('/')][1..] == [];
  }

  /** A name stands between two slashes, the first of them its parent's. */
  lemma AroundName(above: Path, name: seq<Token>, rest: seq<Token>) returns (before: seq<Token>, after: seq<Token>)
    ensures after == rest
    ensures [Plain('/')] + (PathTokens(above) + (name + [Plain('/')] + rest)) == before + ([Plain('/')] + name + [Plain('/')] + after)
  {
    hide Tokens, PathTokens;
    after := rest;
    if above == [] {
      before := [];
      assert PathTokens(above) == [] by { NoTokens(); }
    } else {
      LastTokens(above);
      before := [Plain('/')] + PathTokens(DropLast(above)) + Tokens(Last(above));
      Regroup([Plain('/')], PathTokens(DropLast(above)), Tokens(Last(above)), name, rest);
    }
  }

  lemma NoTokens()
    ensures PathTokens([]) == []
  {
  }

  lemma LastTokens(p: Path)
    requires p != []
    ensures PathTokens(p) == PathTokens(DropLast(p)) + Tokens(Last(p)) + [Plain('/')]
  {
    PathTokensAppend(DropLast(p), [Last(p)]);
    assert DropLast(p) + [Last(p)] == p;
    assert PathTokens([Last(p)]) == Tokens(Last(p)) + [Plain('/')] by { assert [Last(p)][1..] == []; }
  }

  lemma Regroup(slash: seq<Token>, a: seq<Token>, b: seq<Token>, name: seq<Token>, rest: seq<Token>)
    ensures slash + ((a + b + slash) + (name + slash + rest)) == (slash + a + b) + (slash + name + slash + rest)
  {
  }

  // ---- The exact condition ----

  /** The pattern accepts a path below another path. */
  lemma FilledIsUnder(p: Path)
    requires p != [] && ValidPath(p)
    ensures Under(p, Filled(p) + ["x"])
  {
    hide Tokens, Accepts;
    var q := Filled(p) + ["x"];
    var tokens := [Plain('/')] + PathTokens(p);
    FilledText(p);
    FillAppend([Plain('/')], PathTokens(p));
    FillOne();
    JoinAppend(Filled(p), ["x"]);
    assert Render(q) == Fill(tokens) + "x";
    AcceptsFill(tokens, "x");
    UnderIsAccepts(p, q);
  }

  lemma FilledIsValid(p: Path)
    requires ValidPath(p) && forall i :: 0 <= i < |p| ==> Fill(Tokens(p[i])) != "" && !DotName(Fill(Tokens(p[i])))
    ensures ValidPath(Filled(p) + ["x"])
  {
    hide Fill, Tokens;
    forall i | 0 <= i < |p| ensures ValidName(Filled(p)[i]) { FillHasNoSlash(p[i]); }
  }

  /** For the valid paths the subtree test of a path is exact if and only if the path has no
      `%`, `_` or `\`. */
  lemma UnderMeansBelowIffPlain(p: Path)
    requires ValidPath(p) && p != []
    ensures PlainPath(p) <==> forall q :: ValidPath(q) ==> (Under(p, q) <==> p < q)
  {
    hide ValidPath, Under, Fill, Tokens;
    if PlainPath(p) {
      forall q | ValidPath(q) ensures Under(p, q) <==> p < q { UnderMeansBelow(p, q); }
    } else {
      var q := WrongPath(p);
      assert ValidPath(q) && !(Under(p, q) <==> p < q);
    }
  }

  lemma WrongPath(p: Path) returns (q: Path)
    requires ValidPath(p) && !PlainPath(p)
    ensures ValidPath(q) && !(Under(p, q) <==> p < q)
  {
    hide Fill, Tokens, Under;
    if i :| 0 <= i < |p| && (Fill(Tokens(p[i])) == "" || DotName(Fill(Tokens(p[i])))) {
      q := p + ["x"];
      NothingUnderBadName(p, i, q);
    } else {
      q := Filled(p) + ["x"];
      FilledIsValid(p);
      FilledIsUnder(p);
      var i :| 0 <= i < |p| && !WildcardFree(p[i], TEXT);
      FillIsPlain(p[i]);
      assert q[i] != p[i];
    }
  }

  // ---- The root ----

  /** No path but the root itself has the root at or below it, wildcards or not. */
  lemma RootNotUnder(p: Path)
    requires ValidPath(p) && p != []
    ensures !Under(p, [])
  {
    hide PathTokens, Tokens, Accepts, Under;
    UnderIsAccepts(p, []);
    if Under(p, []) { OneSlashOnly(p); }
  }

  lemma OneSlashOnly(p: Path)
    requires p != []
    ensures !Accepts(Render([]), [Plain('/')] + PathTokens(p) + [Run])
  {
    hide Tokens, Accepts;
    var slash: seq<Token> := [Plain('/')];
    var rest := PathTokens(p[1..]) + [Run];
    assert PathTokens(p) + [Run] == Tokens(p[0]) + (slash + rest);
    hide PathTokens;
    NothingInEmpty(Tokens(p[0]), rest);
    SlashFirst("/", PathTokens(p) + [Run]);
    assert slash + PathTokens(p) + [Run] == slash + (PathTokens(p) + [Run]);
    assert Render([]) == "/" && "/"[1..] == "";
  }

  lemma SlashFirst(s: string, rest: seq<Token>)
    requires s != ""
    ensures Accepts(s, [Plain('/')] + rest) ==> Accepts(s[1..], rest)
  {
    assert ([Plain('/')] + rest)[1..] == rest;
  }

  lemma NothingInEmpty(before: seq<Token>, rest: seq<Token>)
    ensures !Accepts("", before + ([Plain('/')] + rest))
  {
    hide Accepts;
    var slash: seq<Token> := [Plain('/')];
    assert slash[1..] == [] && Fill(slash) == "/" && !Contains("", "/");
    if Accepts("", before + (slash + rest)) { PlainInside("", before, slash, rest); }
  }
}
