/** PostgreSQL's LIKE, the patterns the program builds for it, and what they accept. */
module Patterns {
  import opened Basics

  /** The three characters LIKE treats specially, over characters or over bytes. */
  datatype Syntax<T(==)> = Syntax(escape: T, run: T, one: T) {
    predicate Distinct() { escape != run && escape != one && run != one }

    predicate Special(c: T) { c == escape || c == run || c == one }
  }

  const TEXT: Syntax<char> := Syntax('\\', '%', '_')

  /** The same characters as bytes. */
  const BYTES: Syntax<byte> := Syntax('\\' as int, '%' as int, '_' as int)

  predicate Like<T(==)>(s: seq<T>, p: seq<T>, x: Syntax<T>)
    decreases |p| + |s|
  {
    if p == [] then s == []
    else if p[0] == x.escape then |p| > 1 && s != [] && s[0] == p[1] && Like(s[1..], p[2..], x)
    else if p[0] == x.run then Like(s, p[1..], x) || (s != [] && Like(s[1..], p, x))
    else if p[0] == x.one then s != [] && Like(s[1..], p[1..], x)
    else s != [] && s[0] == p[0] && Like(s[1..], p[1..], x)
  }

  predicate WildcardFree<T(==)>(p: seq<T>, x: Syntax<T>) {
    forall i :: 0 <= i < |p| ==> !x.Special(p[i])
  }

  // ---- Pattern pieces ----

  lemma {:induction false} LikeRun<T>(s: seq<T>, rest: seq<T>, x: Syntax<T>)
    requires x.Distinct()
    ensures Like(s, [x.run] + rest, x) <==> exists i :: 0 <= i <= |s| && Like(s[i..], rest, x)
    decreases |s|
  {
    var p := [x.run] + rest;
    assert p[1..] == rest;
    assert s[0..] == s;
    if s != [] {
      LikeRun(s[1..], rest, x);
      if i :| 0 <= i <= |s[1..]| && Like(s[1..][i..], rest, x) {
        assert s[1..][i..] == s[i + 1..];
      }
      if i :| 0 <= i <= |s| && Like(s[i..], rest, x) && i != 0 {
        assert s[1..][i - 1..] == s[i..];
      }
    }
  }

  lemma LikeAnything<T>(s: seq<T>, x: Syntax<T>)
    requires x.Distinct()
    ensures Like(s, [x.run], x)
  {
    LikeRun(s, [], x);
    assert [x.run] + [] == [x.run];
    assert Like(s[|s|..], [], x);
  }

  lemma {:induction false} LikePlainPrefix<T>(s: seq<T>, p: seq<T>, rest: seq<T>, x: Syntax<T>)
    requires WildcardFree(p, x)
    ensures Like(s, p + rest, x) <==> p <= s && Like(s[|p|..], rest, x)
    decreases |p|
  {
    if p == [] {
      assert p + rest == rest && s[0..] == s;
    } else {
      assert (p + rest)[1..] == p[1..] + rest;
      assert !x.Special((p + rest)[0]);
      if s != [] {
        LikePlainPrefix(s[1..], p[1..], rest, x);
        if |p| <= |s| { assert s[1..][|p[1..]|..] == s[|p|..]; }
        if s[0] == p[0] {
          assert p == [p[0]] + p[1..] && s == [s[0]] + s[1..];
          assert p[1..] <= s[1..] <==> p <= s;
        }
      }
    }
  }

  // ---- Subtree tests: `path LIKE root || '/%'` ----

  /** `s LIKE root || '%'`; the callers' `root` already ends in the separator. */
  predicate LikeUnder<T(==)>(s: seq<T>, root: seq<T>, x: Syntax<T>) {
    Like(s, root + [x.run], x)
  }

  /** A pattern without escapes accepts its own text and whatever follows. */
  lemma {:induction false} LikeOwnText<T>(root: seq<T>, rest: seq<T>, x: Syntax<T>)
    requires x.Distinct() && x.escape !in root
    ensures LikeUnder(root + rest, root, x)
    decreases |root|
  {
    if root == [] {
      assert root + rest == rest && root + [x.run] == [x.run];
      LikeAnything(rest, x);
    } else {
      LikeOwnText(root[1..], rest, x);
      var s, p := root + rest, root + [x.run];
      assert s[1..] == root[1..] + rest && p[1..] == root[1..] + [x.run];
      if root[0] == x.run { assert Like(s[1..], p, x); }
    }
  }

  /** One text the pattern accepts: escapes collapse, wildcards become `filler`. */
  function Collapse<T(==)>(p: seq<T>, filler: T, x: Syntax<T>): seq<T> {
    if p == [] then []
    else if p[0] == x.escape then if |p| == 1 then [] else [p[1]] + Collapse(p[2..], filler, x)
    else [if x.Special(p[0]) then filler else p[0]] + Collapse(p[1..], filler, x)
  }

  /** The escape character never stands unpaired at the end of the pattern. */
  predicate EscapesClosed<T(==)>(p: seq<T>, x: Syntax<T>) {
    if p == [] then true
    else if p[0] == x.escape then |p| > 1 && EscapesClosed(p[2..], x)
    else EscapesClosed(p[1..], x)
  }

  lemma {:induction false} CollapseMatches<T>(p: seq<T>, filler: T, x: Syntax<T>)
    requires x.Distinct() && EscapesClosed(p, x)
    ensures Like(Collapse(p, filler, x), p + [x.run], x)
    ensures |Collapse(p, filler, x)| <= |p|
    ensures |Collapse(p, filler, x)| == |p| ==>
              forall i :: 0 <= i < |p| ==>
                p[i] != x.escape && Collapse(p, filler, x)[i] == if x.Special(p[i]) then filler else p[i]
    decreases |p|
  {
    var q, c := p + [x.run], Collapse(p, filler, x);
    if p == [] {
      LikeAnything(c, x);
    } else if p[0] == x.escape {
      CollapseMatches(p[2..], filler, x);
      assert q[2..] == p[2..] + [x.run];
      assert c[1..] == Collapse(p[2..], filler, x);
    } else {
      CollapseMatches(p[1..], filler, x);
      assert q[1..] == p[1..] + [x.run];
      assert c[1..] == Collapse(p[1..], filler, x);
      if p[0] == x.run {
        assert Like(c[1..], q[1..], x);
        LikeRun(c, q[1..], x);
        assert q == [x.run] + q[1..];
      }
    }
  }

  lemma {:induction false} EscapesClosedBefore<T>(p: seq<T>, c: T, x: Syntax<T>)
    requires !x.Special(c)
    ensures EscapesClosed(p + [c], x)
    decreases |p|
  {
    if p != [] {
      assert (p + [c])[1..] == p[1..] + [c];
      EscapesClosedBefore(p[1..], c, x);
      if p[0] == x.escape && |p| > 1 {
        assert (p + [c])[2..] == p[2..] + [c];
        EscapesClosedBefore(p[2..], c, x);
      } else if p[0] == x.escape {
        assert (p + [c])[2..] == [];
      }
    }
  }

  /** A `LIKE root || sep || '%'` test is an exact prefix test for `root || sep` if and only
      if `root` holds none of the three special characters. */
  lemma UnderIsPrefixIffWildcardFree<T(!new)>(root: seq<T>, sep: T, filler: T, x: Syntax<T>)
    requires x.Distinct() && !x.Special(sep) && !x.Special(filler)
    ensures WildcardFree(root, x) <==>
              forall s: seq<T> :: LikeUnder(s, root + [sep], x) <==> root + [sep] <= s
  {
    var p := root + [sep];
    if WildcardFree(root, x) {
      forall s: seq<T> ensures LikeUnder(s, p, x) <==> p <= s {
        LikePlainPrefix(s, p, [x.run], x);
        if p <= s { LikeAnything(s[|p|..], x); }
      }
    } else {
      var i :| 0 <= i < |root| && x.Special(root[i]);
      assert p[i] == root[i];
      EscapesClosedBefore(root, sep, x);
      CollapseMatches(p, filler, x);
      var c := Collapse(p, filler, x);
      assert LikeUnder(c, p, x) && !(p <= c) by {
        assert |c| == |p| ==> c[i] != p[i];
      }
    }
  }

  // ---- Escaping ----

  /** Every occurrence of one character replaced by a text, as `replace` does in SQL and Rust. */
  function Replace<T(==)>(s: seq<T>, c: T, to: seq<T>): seq<T> {
    if s == [] then [] else (if s[0] == c then to else [s[0]]) + Replace(s[1..], c, to)
  }

  lemma {:induction false} ReplaceAppend<T>(a: seq<T>, b: seq<T>, c: T, to: seq<T>)
    ensures Replace(a + b, c, to) == Replace(a, c, to) + Replace(b, c, to)
  {
    if a == [] {
      assert a + b == b;
    } else {
      ReplaceAppend(a[1..], b, c, to);
      assert (a + b)[0] == a[0] && (a + b)[1..] == a[1..] + b;
      AppendAssociates(if a[0] == c then to else [a[0]], Replace(a[1..], c, to), Replace(b, c, to));
    }
  }

  /** The three nested replacements that protect a literal. */
  function Escaped<T(==)>(s: seq<T>, x: Syntax<T>): seq<T> {
    Replace(Replace(Replace(s, x.escape, [x.escape, x.escape]), x.run, [x.escape, x.run]), x.one, [x.escape, x.one])
  }

  lemma {:induction false} EscapedCons<T>(s: seq<T>, x: Syntax<T>)
    requires x.Distinct() && s != []
    ensures Escaped(s, x) == (if x.Special(s[0]) then [x.escape, s[0]] else [s[0]]) + Escaped(s[1..], x)
  {
    var e := Replace(s, x.escape, [x.escape, x.escape]);
    var h := if s[0] == x.escape then [x.escape, x.escape] else [s[0]];
    var e' := Replace(s[1..], x.escape, [x.escape, x.escape]);
    assert e == h + e';
    ReplaceAppend(h, e', x.run, [x.escape, x.run]);
    var r := Replace(h, x.run, [x.escape, x.run]);
    var r' := Replace(e', x.run, [x.escape, x.run]);
    ReplaceAppend(r, r', x.one, [x.escape, x.one]);
    assert h[1..] == [] || h[1..] == [x.escape];
    assert r == if s[0] == x.escape then [x.escape, x.escape] else if s[0] == x.run then [x.escape, x.run] else [s[0]] by {
      ReplaceTwo(s[0], x.escape, x.run, [x.escape, x.run]);
    }
    assert Replace(r, x.one, [x.escape, x.one]) == if x.Special(s[0]) then [x.escape, s[0]] else [s[0]] by {
      ReplaceTwo(s[0], x.escape, x.one, [x.escape, x.one]);
      ReplaceTwo(x.run, x.escape, x.one, [x.escape, x.one]);
    }
  }

  lemma ReplaceTwo<T>(a: T, e: T, c: T, to: seq<T>)
    ensures Replace([a], c, to) == if a == c then to else [a]
    ensures e != c ==> Replace([e, a], c, to) == [e] + if a == c then to else [a]
  {
    assert [a][1..] == [];
    assert [e, a][1..] == [a];
  }

  lemma {:induction false} LikeEscapedPrefix<T>(s: seq<T>, v: seq<T>, rest: seq<T>, x: Syntax<T>)
    requires x.Distinct()
    ensures Like(s, Escaped(v, x) + rest, x) <==> v <= s && Like(s[|v|..], rest, x)
    decreases |v|
  {
    if v == [] {
      assert Escaped(v, x) + rest == rest && s[0..] == s;
    } else {
      EscapedCons(v, x);
      var tail := Escaped(v[1..], x) + rest;
      var p := Escaped(v, x) + rest;
      assert if x.Special(v[0]) then p == [x.escape, v[0]] + tail && p[2..] == tail
             else p == [v[0]] + tail && p[1..] == tail;
      if s != [] {
        LikeEscapedPrefix(s[1..], v[1..], rest, x);
        if s[0] == v[0] {
          assert v == [v[0]] + v[1..] && s == [s[0]] + s[1..];
          assert v[1..] <= s[1..] <==> v <= s;
          if v <= s { assert s[1..][|v[1..]|..] == s[|v|..]; }
        }
      }
    }
  }

  /** `%` + escaped needle + `%`. */
  function ContainsPattern<T(==)>(v: seq<T>, x: Syntax<T>): seq<T> {
    [x.run] + Escaped(v, x) + [x.run]
  }

  /** LIKE against the pattern built for a literal means that the literal occurs. */
  lemma LiteralPatternMeansContains<T>(s: seq<T>, v: seq<T>, x: Syntax<T>)
    requires x.Distinct()
    ensures Like(s, ContainsPattern(v, x), x) <==> Contains(s, v)
  {
    var rest := Escaped(v, x) + [x.run];
    assert ContainsPattern(v, x) == [x.run] + rest;
    LikeRun(s, rest, x);
    if i :| 0 <= i <= |s| && Like(s[i..], rest, x) {
      LikeEscapedPrefix(s[i..], v, [x.run], x);
      assert OccursAt(v, s, i);
    }
    if at: nat :| OccursAt(v, s, at) {
      LikeEscapedPrefix(s[at..], v, [x.run], x);
      LikeAnything(s[at..][|v|..], x);
      assert v <= s[at..];
    }
  }

  /** The patterns the program sends for a list of required literals. */
  function LiteralPatterns(literals: Option<seq<Bytes>>): (r: Option<seq<Bytes>>)
    ensures r.None? <==> literals.None?
    ensures r.Some? ==> |r.value| == |literals.value|
    ensures r.Some? ==> forall i, s: Bytes :: 0 <= i < |r.value| ==>
              (Like(s, r.value[i], BYTES) <==> Contains(s, literals.value[i]))
  {
    match literals
    case None => None
    case Some(values) =>
      assert forall i, s: Bytes | 0 <= i < |values| ::
               Like(s, ContainsPattern(values[i], BYTES), BYTES) <==> Contains(s, values[i]) by {
        forall i, s: Bytes | 0 <= i < |values| {
          LiteralPatternMeansContains(s, values[i], BYTES);
        }
      }
      Some(seq(|values|, i requires 0 <= i < |values| => ContainsPattern(values[i], BYTES)))
  }

  // ---- Globs ----

  /** What `find -name` means by a pattern: `*` any run, `?` one character, the rest literal. */
  predicate Glob(name: string, g: string)
    decreases |g| + |name|
  {
    if g == [] then name == []
    else if g[0] == '*' then Glob(name, g[1..]) || (name != [] && Glob(name[1..], g))
    else name != [] && (g[0] == '?' || g[0] == name[0]) && Glob(name[1..], g[1..])
  }

  /** The five nested replacements the queries apply to the pattern. */
  function GlobToLike(g: string): string {
    Replace(Replace(Escaped(g, TEXT), '*', "%"), '?', "_")
  }

  /** What those replacements amount to, character by character. */
  function GlobChar(c: char): string {
    match c
    case '*' => "%"
    case '?' => "_"
    case '\\' => "\\\\"
    case '%' => "\\%"
    case '_' => "\\_"
    case _ => [c]
  }

  function Substitute(g: string): string {
    if g == [] then [] else GlobChar(g[0]) + Substitute(g[1..])
  }

  lemma {:induction false} NestedReplacementsAreOneSubstitution(g: string)
    ensures GlobToLike(g) == Substitute(g)
  {
    if g != [] {
      EscapedCons(g, TEXT);
      var h := if TEXT.Special(g[0]) then ['\\', g[0]] else [g[0]];
      var t := Escaped(g[1..], TEXT);
      ReplaceAppend(h, t, '*', "%");
      ReplaceAppend(Replace(h, '*', "%"), Replace(t, '*', "%"), '?', "_");
      ReplaceTwo(g[0], '\\', '*', "%");
      ReplaceTwo(g[0], '\\', '?', "_");
      ReplaceTwo('%', '\\', '?', "_");
      assert Replace(Replace(h, '*', "%"), '?', "_") == GlobChar(g[0]);
      NestedReplacementsAreOneSubstitution(g[1..]);
    }
  }

  lemma {:induction false} SubstitutePreservesMeaning(name: string, g: string)
    ensures Like(name, Substitute(g), TEXT) <==> Glob(name, g)
    decreases |g| + |name|
  {
    if g != [] {
      var rest := Substitute(g[1..]);
      assert Substitute(g) == GlobChar(g[0]) + rest;
      assert TEXT.Special(g[0]) ==> (GlobChar(g[0]) + rest)[2..] == rest;
      assert !TEXT.Special(g[0]) ==> (GlobChar(g[0]) + rest)[1..] == rest;
      SubstitutePreservesMeaning(name, g[1..]);
      if name != [] {
        SubstitutePreservesMeaning(name[1..], g[1..]);
        SubstitutePreservesMeaning(name[1..], g);
      }
    }
  }

  /** The glob and its translation accept the same names. */
  lemma GlobTranslationPreservesMeaning(name: string, g: string)
    ensures Like(name, GlobToLike(g), TEXT) <==> Glob(name, g)
  {
    NestedReplacementsAreOneSubstitution(g);
    SubstitutePreservesMeaning(name, g);
  }
}
