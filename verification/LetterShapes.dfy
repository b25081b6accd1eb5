/** Exactly when the computed letter run is right: the strings of an expression, told apart only by
    their runs of letters up to a bound, form a finite set that its syntax determines. */
module LetterShapes {
  import opened Basics
  import opened Utf8
  import opened Regex

  /** The runs of letters in a string: all of it, or the run it starts with, its longest and the one
      it ends with. */
  datatype Shape = Letters(size: nat) | Mixed(head: nat, best: nat, tail: nat) {
    function Head(): nat { if Letters? then size else head }

    function Longest(): nat { if Letters? then size else best }
  }

  /** Runs are counted up to a bound. */
  function Cap(k: nat, n: nat): nat { if k <= n then k else n }

  predicate Within(x: Shape, n: nat) {
    match x
    case Letters(size) => size <= n
    case Mixed(head, best, tail) => head <= best <= n && tail <= best
  }

  /** The shape of two strings one after the other. */
  function Join(a: Shape, b: Shape, n: nat): Shape {
    match (a, b)
    case (Letters(x), Letters(y)) => Letters(Cap(x + y, n))
    case (Letters(x), Mixed(head, best, tail)) => Mixed(Cap(x + head, n), Max(best, Cap(x + head, n)), tail)
    case (Mixed(head, best, tail), Letters(y)) => Mixed(head, Max(best, Cap(tail + y, n)), Cap(tail + y, n))
    case (Mixed(head, best, tail), Mixed(head', best', tail')) => Mixed(head, Max(Max(best, best'), Cap(tail + head', n)), tail')
  }

  const NOTHING := Letters(0)

  const OTHER := Mixed(0, 0, 0)

  function ByteShape(b: byte, n: nat): Shape { if Letter(b) then Letters(Cap(1, n)) else OTHER }

  function ShapeOf(s: Bytes, n: nat): Shape {
    if s == [] then NOTHING else Join(ByteShape(s[0], n), ShapeOf(s[1..], n), n)
  }

  lemma JoinWithin(a: Shape, b: Shape, n: nat)
    requires Within(a, n) && Within(b, n)
    ensures Within(Join(a, b, n), n)
    ensures Join(NOTHING, a, n) == a == Join(a, NOTHING, n)
  {
  }

  lemma JoinAssociates(a: Shape, b: Shape, c: Shape, n: nat)
    requires Within(a, n) && Within(b, n) && Within(c, n)
    ensures Join(Join(a, b, n), c, n) == Join(a, Join(b, c, n), n)
  {
    hide Join, Within;
    if a.Letters? && c.Letters? { AmongLetters(a, b, c, n); }
    else if a.Letters? { AfterLetters(a, b, c, n); }
    else if c.Letters? { BeforeLetters(a, b, c, n); }
    else { AmongMixed(a, b, c, n); }
  }

  lemma AmongLetters(a: Shape, b: Shape, c: Shape, n: nat)
    requires Within(a, n) && Within(b, n) && Within(c, n) && a.Letters? && c.Letters?
    ensures Join(Join(a, b, n), c, n) == Join(a, Join(b, c, n), n)
  {
  }

  lemma AfterLetters(a: Shape, b: Shape, c: Shape, n: nat)
    requires Within(a, n) && Within(b, n) && Within(c, n) && a.Letters? && c.Mixed?
    ensures Join(Join(a, b, n), c, n) == Join(a, Join(b, c, n), n)
  {
  }

  lemma BeforeLetters(a: Shape, b: Shape, c: Shape, n: nat)
    requires Within(a, n) && Within(b, n) && Within(c, n) && a.Mixed? && c.Letters?
    ensures Join(Join(a, b, n), c, n) == Join(a, Join(b, c, n), n)
  {
  }

  lemma AmongMixed(a: Shape, b: Shape, c: Shape, n: nat)
    requires Within(a, n) && Within(b, n) && Within(c, n) && a.Mixed? && c.Mixed?
    ensures Join(Join(a, b, n), c, n) == Join(a, Join(b, c, n), n)
  {
  }

  lemma {:induction false} ShapeWithin(s: Bytes, n: nat)
    ensures Within(ShapeOf(s, n), n)
  {
    if s != [] {
      ShapeWithin(s[1..], n);
      JoinWithin(ByteShape(s[0], n), ShapeOf(s[1..], n), n);
    }
  }

  /** Shapes compose as strings do. */
  lemma {:induction false} ShapeAppend(a: Bytes, b: Bytes, n: nat)
    ensures ShapeOf(a + b, n) == Join(ShapeOf(a, n), ShapeOf(b, n), n)
    decreases |a|
  {
    ShapeWithin(b, n);
    if a == [] {
      assert a + b == b;
      JoinWithin(ShapeOf(b, n), NOTHING, n);
    } else {
      assert (a + b)[1..] == a[1..] + b;
      ShapeAppend(a[1..], b, n);
      ShapeWithin(a[1..], n);
      JoinAssociates(ByteShape(a[0], n), ShapeOf(a[1..], n), ShapeOf(b, n), n);
    }
  }

  /** What a shape says of its string. */
  lemma {:induction false} ShapeMeans(s: Bytes, n: nat, k: nat)
    requires k <= n
    ensures ShapeOf(s, n).Head() >= k <==> k <= |s| && AllLetters(s[..k])
    ensures ShapeOf(s, n).Longest() >= k <==> HasRun(s, k)
    decreases |s|, k
  {
    ShapeWithin(s, n);
    if k == 0 {
      assert RunAt(s, 0, 0);
    } else if s == [] {
      assert !HasRun(s, k);
    } else {
      var rest := s[1..];
      ShapeWithin(rest, n);
      ShapeMeans(rest, n, k);
      ShapeMeans(rest, n, k - 1);
      HeadStep(s, k);
      RunStep(s, k);
    }
  }

  lemma HeadStep(s: Bytes, k: nat)
    requires s != [] && k > 0
    ensures k <= |s| && AllLetters(s[..k]) <==> Letter(s[0]) && k - 1 <= |s[1..]| && AllLetters(s[1..][..k - 1])
  {
    if k <= |s| {
      assert s[..k] == [s[0]] + s[1..][..k - 1];
      assert s[..k][1..] == s[1..][..k - 1];
      LettersStep(s[..k]);
    }
  }

  lemma LettersStep(s: Bytes)
    requires s != []
    ensures AllLetters(s) <==> Letter(s[0]) && AllLetters(s[1..])
  {
    if Letter(s[0]) && AllLetters(s[1..]) {
      forall i | 0 <= i < |s| ensures Letter(s[i]) {
        if i > 0 { assert s[i] == s[1..][i - 1]; }
      }
    }
  }

  lemma RunStep(s: Bytes, k: nat)
    requires s != [] && k > 0
    ensures HasRun(s, k) <==> HasRun(s[1..], k) || (k <= |s| && AllLetters(s[..k]))
  {
    if HasRun(s, k) {
      var at: nat :| RunAt(s, at, k);
      if at > 0 {
        SameSlice(s, at - 1, k);
        assert RunAt(s[1..], at - 1, k);
      } else {
        assert s[0..k] == s[..k];
      }
    }
    if HasRun(s[1..], k) {
      var at: nat :| RunAt(s[1..], at, k);
      SameSlice(s, at, k);
      assert RunAt(s, at + 1, k);
    }
    if k <= |s| && AllLetters(s[..k]) {
      assert s[0..k] == s[..k];
      assert RunAt(s, 0, k);
    }
  }

  lemma SameSlice(s: Bytes, at: nat, k: nat)
    requires at + 1 + k <= |s|
    ensures s[at + 1..at + 1 + k] == s[1..][at..at + k]
  {
    var a, b := s[at + 1..at + 1 + k], s[1..][at..at + k];
    assert |a| == |b| && forall i :: 0 <= i < |a| ==> a[i] == b[i];
  }

  // ---- Sets of shapes ----

  /** All there are. */
  function Universe(n: nat): set<Shape> {
    (set k | 0 <= k <= n :: Letters(k)) +
    (set head, best, tail | 0 <= head <= n && 0 <= best <= n && 0 <= tail <= n :: Mixed(head, best, tail))
  }

  predicate AllWithin(shapes: set<Shape>, n: nat) { forall x :: x in shapes ==> Within(x, n) }

  lemma InUniverse(shapes: set<Shape>, n: nat)
    requires AllWithin(shapes, n)
    ensures shapes <= Universe(n)
  {
  }

  function Product(a: set<Shape>, b: set<Shape>, n: nat): set<Shape> {
    set x, y | x in a && y in b :: Join(x, y, n)
  }

  lemma Factors(a: set<Shape>, b: set<Shape>, n: nat, z: Shape) returns (x: Shape, y: Shape)
    requires z in Product(a, b, n)
    ensures x in a && y in b && z == Join(x, y, n)
  {
    hide Join;
    x, y :| x in a && y in b && z == Join(x, y, n);
  }

  lemma IsProduct(a: set<Shape>, b: set<Shape>, n: nat, x: Shape, y: Shape)
    requires x in a && y in b
    ensures Join(x, y, n) in Product(a, b, n)
  {
    hide Join;
  }

  lemma ProductWithin(a: set<Shape>, b: set<Shape>, n: nat)
    requires AllWithin(a, n) && AllWithin(b, n)
    ensures AllWithin(Product(a, b, n), n)
  {
    hide Product;
    forall z | z in Product(a, b, n) ensures Within(z, n) {
      var x, y := Factors(a, b, n, z);
      JoinWithin(x, y, n);
    }
  }

  function Power(a: set<Shape>, k: nat, n: nat): set<Shape> {
    if k == 0 then {NOTHING} else Product(Power(a, k - 1, n), a, n)
  }

  /** Up to `k` times. */
  function UpTo(a: set<Shape>, k: nat, n: nat): set<Shape> {
    if k == 0 then {NOTHING} else UpTo(a, k - 1, n) + Product(UpTo(a, k - 1, n), a, n)
  }

  /** Any number of times: what more repetitions add runs out. */
  function Closure(reached: set<Shape>, a: set<Shape>, n: nat): (r: set<Shape>)
    requires AllWithin(reached, n) && AllWithin(a, n)
    ensures AllWithin(r, n)
    decreases |Universe(n) - reached|
  {
    var next := Product(reached, a, n);
    ProductWithin(reached, a, n);
    if next <= reached then reached
    else
      LessLeft(reached, next, n);
      Closure(reached + next, a, n)
  }

  lemma LessLeft(reached: set<Shape>, next: set<Shape>, n: nat)
    requires AllWithin(next, n) && !(next <= reached)
    ensures |Universe(n) - (reached + next)| < |Universe(n) - reached|
  {
    hide Universe;
    InUniverse(next, n);
    var x :| x in next && x !in reached;
    assert x in Universe(n) - reached && x !in Universe(n) - (reached + next);
    Smaller(Universe(n) - (reached + next), Universe(n) - reached);
  }

  lemma Smaller(a: set<Shape>, b: set<Shape>)
    requires a < b
    ensures |a| < |b|
  {
    var x :| x in b && x !in a;
    assert b == a + (b - a) && a !! (b - a) && x in b - a;
    assert |b| == |a| + |b - a|;
  }

  /** What may follow when at most so many more repetitions are allowed. */
  function Extra(a: set<Shape>, max: Option<nat>, n: nat): set<Shape>
    requires AllWithin(a, n)
  {
    match max case None => Closure({NOTHING}, a, n) case Some(m) => UpTo(a, m, n)
  }

  function Repeated(a: set<Shape>, min: nat, max: Option<nat>, n: nat): set<Shape>
    requires AllWithin(a, n)
  {
    if max.Some? && max.value < min then {} else Product(Power(a, min, n), Extra(a, Beyond(min, max), n), n)
  }

  function Beyond(min: nat, max: Option<nat>): Option<nat>
    requires max.Some? ==> min <= max.value
  {
    if max.None? then None else Some(max.value - min)
  }

  /** Some code point or byte of the class is a letter. */
  predicate HasLetter(ranges: seq<Range>, limit: nat) {
    exists i :: 0 <= i < |ranges| && (Max(ranges[i].lo, 65) <= Min(Min(ranges[i].hi, 90), limit - 1)
                                      || Max(ranges[i].lo, 97) <= Min(Min(ranges[i].hi, 122), limit - 1))
  }

  /** Some code point or byte of the class is none. */
  predicate HasOther(ranges: seq<Range>, limit: nat) {
    exists i :: 0 <= i < |ranges| && ranges[i].lo <= Min(ranges[i].hi, limit - 1)
                && !(Upper(ranges[i].lo) && Upper(ranges[i].hi)) && !(Lower(ranges[i].lo) && Lower(ranges[i].hi))
  }

  function ClassShapes(ranges: seq<Range>, limit: nat, n: nat): set<Shape> {
    (if HasLetter(ranges, limit) then {Letters(Cap(1, n))} else {}) + (if HasOther(ranges, limit) then {OTHER} else {})
  }

  /** The shapes of the strings an expression matches, computed from its form. */
  function Shapes(h: Hir, n: nat): (r: set<Shape>)
    ensures AllWithin(r, n)
    decreases h, 1, 0
  {
    match h
    case Empty => {NOTHING}
    case Look => {NOTHING}
    case Literal(bytes) => ShapeWithin(bytes, n); {ShapeOf(bytes, n)}
    case UnicodeClass(ranges) => ClassShapes(ranges, CODE_POINTS, n)
    case ByteClass(ranges) => ClassShapes(ranges, 256, n)
    case Capture(sub) => Shapes(sub, n)
    case Repetition(min, max, sub) => RepeatedWithin(Shapes(sub, n), min, max, n); Repeated(Shapes(sub, n), min, max, n)
    case Concat(parts) => InSequence(h, |parts|, n)
    case Alternation(parts) => InTurn(h, |parts|, n)
  }

  function InSequence(h: Hir, k: nat, n: nat): (r: set<Shape>)
    requires h.Concat? && k <= |h.parts|
    ensures AllWithin(r, n)
    decreases h, 0, k
  {
    if k == 0 then {NOTHING}
    else
      var before, part := InSequence(h, k - 1, n), Shapes(h.parts[k - 1], n);
      ProductWithin(before, part, n);
      Product(before, part, n)
  }

  function InTurn(h: Hir, k: nat, n: nat): (r: set<Shape>)
    requires h.Alternation? && k <= |h.parts|
    ensures AllWithin(r, n)
    decreases h, 0, k
  {
    if k == 0 then {} else InTurn(h, k - 1, n) + Shapes(h.parts[k - 1], n)
  }

  lemma {:induction false} PowerWithin(a: set<Shape>, k: nat, n: nat)
    requires AllWithin(a, n)
    ensures AllWithin(Power(a, k, n), n) && AllWithin(UpTo(a, k, n), n)
  {
    hide Product;
    if k > 0 {
      PowerWithin(a, k - 1, n);
      ProductWithin(Power(a, k - 1, n), a, n);
      ProductWithin(UpTo(a, k - 1, n), a, n);
    }
  }

  lemma RepeatedWithin(a: set<Shape>, min: nat, max: Option<nat>, n: nat)
    requires AllWithin(a, n)
    ensures AllWithin(Repeated(a, min, max, n), n)
  {
    hide Product, Power, UpTo, Closure;
    assert AllWithin({}, n);
    hide AllWithin;
    if max.None? || min <= max.value {
      PowerWithin(a, min, n);
      match max {
        case None =>
        case Some(m) => PowerWithin(a, m - min, n);
      }
      ProductWithin(Power(a, min, n), Extra(a, Beyond(min, max), n), n);
    }
  }

  // ---- Repetition ----

  /** Up to `m` times is some number of times that is at most `m`. */
  lemma {:induction false} UpToHasPower(a: set<Shape>, m: nat, n: nat, x: Shape) returns (k: nat)
    requires x in UpTo(a, m, n)
    ensures k <= m && x in Power(a, k, n)
    decreases m
  {
    hide Product;
    if m == 0 {
      k := 0;
    } else if x in UpTo(a, m - 1, n) {
      k := UpToHasPower(a, m - 1, n, x);
    } else {
      var y, z := Factors(UpTo(a, m - 1, n), a, n, x);
      k := UpToHasPower(a, m - 1, n, y);
      IsProduct(Power(a, k, n), a, n, y, z);
      k := k + 1;
    }
  }

  lemma {:induction false} PowersInUpTo(a: set<Shape>, k: nat, m: nat, n: nat)
    requires k <= m
    ensures Power(a, k, n) <= UpTo(a, m, n)
    decreases m
  {
    hide Product;
    if m > k {
      PowersInUpTo(a, k, m - 1, n);
    } else if k > 0 {
      PowersInUpTo(a, k - 1, m - 1, n);
      forall x | x in Power(a, k, n) ensures x in UpTo(a, m, n) {
        var y, z := Factors(Power(a, k - 1, n), a, n, x);
        IsProduct(UpTo(a, m - 1, n), a, n, y, z);
      }
    }
  }

  ghost predicate ArePowers(reached: set<Shape>, a: set<Shape>, n: nat) {
    forall x :: x in reached ==> exists k: nat :: x in Power(a, k, n)
  }

  /** Everything in the closure is reached by some number of repetitions. */
  lemma {:induction false} ClosureIsPowers(reached: set<Shape>, a: set<Shape>, n: nat)
    requires AllWithin(reached, n) && AllWithin(a, n) && ArePowers(reached, a, n)
    ensures ArePowers(Closure(reached, a, n), a, n)
    decreases |Universe(n) - reached|
  {
    hide Product, Universe;
    var next := Product(reached, a, n);
    ProductWithin(reached, a, n);
    if !(next <= reached) {
      forall x | x in next ensures exists k: nat :: x in Power(a, k, n) {
        var y, z := Factors(reached, a, n, x);
        var k: nat :| y in Power(a, k, n);
        IsProduct(Power(a, k, n), a, n, y, z);
        assert x in Power(a, k + 1, n);
      }
      LessLeft(reached, next, n);
      ClosureIsPowers(reached + next, a, n);
    }
  }

  /** The closure has what it started with, and one repetition more stays in it. */
  lemma {:induction false} ClosureIsClosed(reached: set<Shape>, a: set<Shape>, n: nat)
    requires AllWithin(reached, n) && AllWithin(a, n)
    ensures reached <= Closure(reached, a, n)
    ensures Product(Closure(reached, a, n), a, n) <= Closure(reached, a, n)
    decreases |Universe(n) - reached|
  {
    hide Product, Universe;
    var next := Product(reached, a, n);
    ProductWithin(reached, a, n);
    if !(next <= reached) {
      LessLeft(reached, next, n);
      ClosureIsClosed(reached + next, a, n);
    }
  }

  lemma {:induction false} PowersInClosure(a: set<Shape>, k: nat, n: nat)
    requires AllWithin(a, n)
    ensures Power(a, k, n) <= Closure({NOTHING}, a, n)
    decreases k
  {
    ClosureIsClosed({NOTHING}, a, n);
    if k > 0 {
      PowersInClosure(a, k - 1, n);
      forall x | x in Power(a, k, n) ensures x in Closure({NOTHING}, a, n) {
        var y, z := Factors(Power(a, k - 1, n), a, n, x);
        IsProduct(Closure({NOTHING}, a, n), a, n, y, z);
      }
    }
  }

  lemma PowersInExtra(a: set<Shape>, k: nat, max: Option<nat>, n: nat)
    requires AllWithin(a, n) && (max.Some? ==> k <= max.value)
    ensures Power(a, k, n) <= Extra(a, max, n)
  {
    match max
    case Some(m) => PowersInUpTo(a, k, m, n);
    case None => PowersInClosure(a, k, n);
  }

  lemma ExtraHasPower(a: set<Shape>, max: Option<nat>, n: nat, x: Shape) returns (k: nat)
    requires AllWithin(a, n) && x in Extra(a, max, n)
    ensures (max.Some? ==> k <= max.value) && x in Power(a, k, n)
  {
    match max
    case Some(m) => k := UpToHasPower(a, m, n, x);
    case None =>
      assert NOTHING in Power(a, 0, n);
      ClosureIsPowers({NOTHING}, a, n);
      k :| x in Power(a, k, n);
  }

  // ---- The shapes are those of the matches ----

  lemma {:induction false} PiecesInPower(pieces: seq<Bytes>, a: set<Shape>, n: nat)
    requires forall i :: 0 <= i < |pieces| ==> ShapeOf(pieces[i], n) in a
    ensures ShapeOf(Flatten(pieces), n) in Power(a, |pieces|, n)
    decreases |pieces|
  {
    hide ShapeOf, Product, Flatten;
    if pieces == [] {
      NoPieces(n);
    } else {
      PiecesInPower(DropLast(pieces), a, n);
      FlattenLast(pieces);
      ShapeAppend(Flatten(DropLast(pieces)), Last(pieces), n);
      IsProduct(Power(a, |pieces| - 1, n), a, n, ShapeOf(Flatten(DropLast(pieces)), n), ShapeOf(Last(pieces), n));
    }
  }

  lemma NoPieces(n: nat)
    ensures Flatten<byte>([]) == [] && ShapeOf([], n) == NOTHING
  {
  }

  lemma FlattenLast(pieces: seq<Bytes>)
    requires pieces != []
    ensures Flatten(pieces) == Flatten(DropLast(pieces)) + Last(pieces)
  {
    assert pieces == DropLast(pieces) + [Last(pieces)];
    FlattenAppend(DropLast(pieces), [Last(pieces)]);
    assert Flatten([Last(pieces)]) == Last(pieces) + [];
  }

  lemma PiecesInRepeated(pieces: seq<Bytes>, a: set<Shape>, min: nat, max: Option<nat>, n: nat)
    requires AllWithin(a, n) && min <= |pieces| && (max.Some? ==> |pieces| <= max.value)
    requires forall i :: 0 <= i < |pieces| ==> ShapeOf(pieces[i], n) in a
    ensures ShapeOf(Flatten(pieces), n) in Repeated(a, min, max, n)
  {
    hide ShapeOf, Product, Flatten, Power, Extra;
    var first, rest := pieces[..min], pieces[min..];
    PiecesInPower(first, a, n);
    PiecesInPower(rest, a, n);
    PowersInExtra(a, |rest|, Beyond(min, max), n);
    assert first + rest == pieces;
    FlattenAppend(first, rest);
    ShapeAppend(Flatten(first), Flatten(rest), n);
    IsProduct(Power(a, min, n), Extra(a, Beyond(min, max), n), n, ShapeOf(Flatten(first), n), ShapeOf(Flatten(rest), n));
  }

  lemma {:induction false} PiecesInSequence(h: Hir, k: nat, n: nat, pieces: seq<Bytes>)
    requires h.Concat? && k <= |h.parts| && |pieces| == k
    requires forall i :: 0 <= i < k ==> ShapeOf(pieces[i], n) in Shapes(h.parts[i], n)
    ensures ShapeOf(Flatten(pieces), n) in InSequence(h, k, n)
    decreases k
  {
    hide ShapeOf, Product, Flatten, Shapes;
    if k == 0 {
      NoPieces(n);
    } else {
      PiecesInSequence(h, k - 1, n, DropLast(pieces));
      FlattenLast(pieces);
      ShapeAppend(Flatten(DropLast(pieces)), Last(pieces), n);
      IsProduct(InSequence(h, k - 1, n), Shapes(h.parts[k - 1], n), n, ShapeOf(Flatten(DropLast(pieces)), n), ShapeOf(Last(pieces), n));
    }
  }

  lemma {:induction false} InSomeTurn(h: Hir, k: nat, n: nat, x: Shape)
    requires h.Alternation? && k <= |h.parts|
    ensures x in InTurn(h, k, n) <==> exists i :: 0 <= i < k && x in Shapes(h.parts[i], n)
    decreases k
  {
    hide Shapes;
    if k > 0 { InSomeTurn(h, k - 1, n, x); }
  }

  lemma EncodedShape(c: nat, n: nat)
    requires c < CODE_POINTS
    ensures ShapeOf(Encode(c), n) == if Letter(c) then Letters(Cap(1, n)) else OTHER
  {
    if c < 0x80 {
      OneByte(c, n);
    } else {
      NoLetters(Encode(c), n);
    }
  }

  lemma OneByte(b: byte, n: nat)
    ensures ShapeOf([b], n) == ByteShape(b, n)
  {
    assert [b][1..] == [];
    JoinWithin(ByteShape(b, n), NOTHING, n);
  }

  lemma {:induction false} NoLetters(s: Bytes, n: nat)
    requires s != [] && forall i :: 0 <= i < |s| ==> s[i] >= 0x80
    ensures ShapeOf(s, n) == OTHER
  {
    if s[1..] != [] {
      NoLetters(s[1..], n);
    }
  }

  /** The code point or byte that makes a class have a letter or another member, and conversely. */
  lemma ClassMembers(ranges: seq<Range>, limit: nat)
    requires limit >= 256
    ensures HasLetter(ranges, limit) <==> exists c: nat :: c < limit && InRanges(c, ranges) && Letter(c)
    ensures HasOther(ranges, limit) <==> exists c: nat :: c < limit && InRanges(c, ranges) && !Letter(c)
  {
    if HasLetter(ranges, limit) {
      var i :| 0 <= i < |ranges| && (Max(ranges[i].lo, 65) <= Min(Min(ranges[i].hi, 90), limit - 1)
                                     || Max(ranges[i].lo, 97) <= Min(Min(ranges[i].hi, 122), limit - 1));
      var c := if Max(ranges[i].lo, 65) <= Min(ranges[i].hi, 90) then Max(ranges[i].lo, 65) else Max(ranges[i].lo, 97);
      assert InRanges(c, ranges) && Letter(c);
    }
    if HasOther(ranges, limit) {
      var i :| 0 <= i < |ranges| && ranges[i].lo <= Min(ranges[i].hi, limit - 1)
               && !(Upper(ranges[i].lo) && Upper(ranges[i].hi)) && !(Lower(ranges[i].lo) && Lower(ranges[i].hi));
      var c := if Upper(ranges[i].lo) then 91 else if Lower(ranges[i].lo) then 123 else ranges[i].lo;
      assert InRanges(c, ranges) && !Letter(c);
    }
  }

  /** Every match has one of the shapes. */
  lemma {:induction false} ShapesComplete(h: Hir, n: nat, s: Bytes)
    requires Matches(h, s)
    ensures ShapeOf(s, n) in Shapes(h, n)
    decreases h
  {
    hide ShapeOf, Repeated, HasLetter, HasOther, Encode, Flatten;
    match h {
      case Empty => NoPieces(n);
      case Look => NoPieces(n);
      case Literal(bytes) =>
      case UnicodeClass(ranges) =>
        var c: nat :| c < CODE_POINTS && InRanges(c, ranges) && s == Encode(c);
        EncodedShape(c, n);
        ClassMembers(ranges, CODE_POINTS);
      case ByteClass(ranges) =>
        assert s == [s[0]];
        OneByte(s[0], n);
        ClassMembers(ranges, 256);
      case Capture(sub) => ShapesComplete(sub, n, s);
      case Repetition(min, max, sub) =>
        var pieces: seq<Bytes> :| min <= |pieces| && (max.Some? ==> |pieces| <= max.value) && Flatten(pieces) == s
                                  && forall i :: 0 <= i < |pieces| ==> Matches(sub, pieces[i]);
        forall i | 0 <= i < |pieces| ensures ShapeOf(pieces[i], n) in Shapes(sub, n) { ShapesComplete(sub, n, pieces[i]); }
        PiecesInRepeated(pieces, Shapes(sub, n), min, max, n);
      case Concat(parts) =>
        var pieces: seq<Bytes> :| |pieces| == |parts| && Flatten(pieces) == s && forall i :: 0 <= i < |parts| ==> Matches(parts[i], pieces[i]);
        forall i | 0 <= i < |pieces| ensures ShapeOf(pieces[i], n) in Shapes(parts[i], n) { ShapesComplete(parts[i], n, pieces[i]); }
        PiecesInSequence(h, |parts|, n, pieces);
      case Alternation(parts) =>
        var i :| 0 <= i < |parts| && Matches(parts[i], s);
        ShapesComplete(parts[i], n, s);
        InSomeTurn(h, |parts|, n, ShapeOf(s, n));
    }
  }

  /** Every shape is that of a match. */
  lemma {:induction false} ShapesSound(h: Hir, n: nat, x: Shape) returns (s: Bytes)
    requires x in Shapes(h, n)
    ensures Matches(h, s) && ShapeOf(s, n) == x
    decreases h, 2, 0
  {
    hide ShapeOf, Repeated, HasLetter, HasOther, Encode, Flatten;
    match h {
      case Empty => s := []; NoPieces(n);
      case Look => s := []; NoPieces(n);
      case Literal(bytes) => s := bytes;
      case UnicodeClass(ranges) =>
        ClassMembers(ranges, CODE_POINTS);
        var c: nat :| c < CODE_POINTS && InRanges(c, ranges) && x == if Letter(c) then Letters(Cap(1, n)) else OTHER;
        EncodedShape(c, n);
        s := Encode(c);
      case ByteClass(ranges) =>
        ClassMembers(ranges, 256);
        var c: nat :| c < 256 && InRanges(c, ranges) && x == if Letter(c) then Letters(Cap(1, n)) else OTHER;
        OneByte(c, n);
        s := [c];
      case Capture(sub) => s := ShapesSound(sub, n, x);
      case Repetition(min, max, sub) =>
        var pieces := RepeatedHasPieces(h, n, x);
        s := Flatten(pieces);
      case Concat(parts) =>
        var pieces := SequenceHasPieces(h, |parts|, n, x);
        s := Flatten(pieces);
      case Alternation(parts) =>
        InSomeTurn(h, |parts|, n, x);
        var i :| 0 <= i < |parts| && x in Shapes(parts[i], n);
        s := ShapesSound(parts[i], n, x);
    }
  }

  lemma {:induction false} PowerHasPieces(h: Hir, k: nat, n: nat, x: Shape) returns (pieces: seq<Bytes>)
    requires h.Repetition? && x in Power(Shapes(h.sub, n), k, n)
    ensures |pieces| == k && ShapeOf(Flatten(pieces), n) == x
    ensures forall i :: 0 <= i < |pieces| ==> Matches(h.sub, pieces[i])
    decreases h, 0, k
  {
    hide ShapeOf, Product, Flatten, Matches, Shapes;
    if k == 0 {
      pieces := [];
      NoPieces(n);
    } else {
      var y, z := Factors(Power(Shapes(h.sub, n), k - 1, n), Shapes(h.sub, n), n, x);
      var before := PowerHasPieces(h, k - 1, n, y);
      var last := ShapesSound(h.sub, n, z);
      pieces := before + [last];
      FlattenLast(pieces);
      assert DropLast(pieces) == before && Last(pieces) == last;
      ShapeAppend(Flatten(before), last, n);
    }
  }

  lemma RepeatedHasPieces(h: Hir, n: nat, x: Shape) returns (pieces: seq<Bytes>)
    requires h.Repetition? && x in Repeated(Shapes(h.sub, n), h.min, h.max, n)
    ensures h.min <= |pieces| && (h.max.Some? ==> |pieces| <= h.max.value) && ShapeOf(Flatten(pieces), n) == x
    ensures forall i :: 0 <= i < |pieces| ==> Matches(h.sub, pieces[i])
    decreases h, 1, 0
  {
    hide ShapeOf, Product, Flatten, Matches, Shapes, Power, Extra;
    var a := Shapes(h.sub, n);
    var y, z := Factors(Power(a, h.min, n), Extra(a, Beyond(h.min, h.max), n), n, x);
    var k := ExtraHasPower(a, Beyond(h.min, h.max), n, z);
    var first := PowerHasPieces(h, h.min, n, y);
    var rest := PowerHasPieces(h, k, n, z);
    pieces := first + rest;
    FlattenAppend(first, rest);
    ShapeAppend(Flatten(first), Flatten(rest), n);
  }

  lemma {:induction false} SequenceHasPieces(h: Hir, k: nat, n: nat, x: Shape) returns (pieces: seq<Bytes>)
    requires h.Concat? && k <= |h.parts| && x in InSequence(h, k, n)
    ensures |pieces| == k && ShapeOf(Flatten(pieces), n) == x
    ensures forall i :: 0 <= i < |pieces| ==> Matches(h.parts[i], pieces[i])
    decreases h, 0, k
  {
    hide ShapeOf, Product, Flatten, Matches, Shapes;
    if k == 0 {
      pieces := [];
      NoPieces(n);
    } else {
      var y, z := Factors(InSequence(h, k - 1, n), Shapes(h.parts[k - 1], n), n, x);
      var before := SequenceHasPieces(h, k - 1, n, y);
      var last := ShapesSound(h.parts[k - 1], n, z);
      pieces := before + [last];
      FlattenLast(pieces);
      assert DropLast(pieces) == before && Last(pieces) == last;
      ShapeAppend(Flatten(before), last, n);
    }
  }

  // ---- When the analysis is right ----

  /** Every shape the expression can take has `n` letters in a row. This is decided by the form of
      the expression alone. */
  predicate RunGuaranteed(h: Hir, n: nat) { forall x :: x in Shapes(h, n) ==> x.Longest() >= n }

  /** For every expression and every number: all matches have so many letters in a row if and only
      if all shapes do. */
  lemma RunGuaranteedIff(h: Hir, n: nat)
    ensures RunGuaranteed(h, n) <==> forall s: Bytes :: Matches(h, s) ==> HasRun(s, n)
  {
    hide Shapes, Matches, HasRun, ShapeOf;
    if RunGuaranteed(h, n) {
      forall s: Bytes | Matches(h, s) ensures HasRun(s, n) {
        ShapesComplete(h, n, s);
        ShapeMeans(s, n, n);
      }
    }
    if forall s: Bytes :: Matches(h, s) ==> HasRun(s, n) {
      forall x | x in Shapes(h, n) ensures x.Longest() >= n {
        var s := ShapesSound(h, n, x);
        ShapeMeans(s, n, n);
      }
    }
  }

  /** The analysis is right for an expression if and only if its shapes have the computed run. */
  lemma LetterRunRightIff(h: Hir)
    requires LetterRun(h).Some?
    ensures RunGuaranteed(h, LetterRun(h).value) <==> forall s: Bytes :: Matches(h, s) ==> HasRun(s, LetterRun(h).value)
    ensures InFragment(h) ==> RunGuaranteed(h, LetterRun(h).value)
  {
    hide RunGuaranteed, Matches, HasRun, InFragment;
    var n := LetterRun(h).value;
    RunGuaranteedIff(h, n);
    if InFragment(h) {
      forall s: Bytes | Matches(h, s) ensures HasRun(s, n) { LetterRunIsSound(h, s); }
    }
  }

  // ---- Repeated words ----

  function Twice(word: Shape, n: nat): Shape
    requires word.Mixed?
  {
    Mixed(word.head, Max(word.best, Cap(word.tail + word.head, n)), word.tail)
  }

  lemma JoinWord(word: Shape, n: nat)
    requires word.Mixed? && Within(word, n)
    ensures Join(NOTHING, word, n) == word && Join(word, word, n) == Join(Twice(word, n), word, n) == Twice(word, n)
  {
  }

  /** Two or more copies of a mixed word add the run across the seam, and no more. */
  lemma {:induction false} PowerOfWord(word: Shape, k: nat, n: nat)
    requires word.Mixed? && Within(word, n) && k >= 1
    ensures Power({word}, k, n) == {if k == 1 then word else Twice(word, n)}
    decreases k
  {
    hide Product, Join, Twice, Within;
    JoinWord(word, n);
    if k == 1 {
      PowerOfNothing({word}, n);
      ProductOfOne(NOTHING, word, n);
    } else {
      PowerOfWord(word, k - 1, n);
      ProductOfOne(if k == 2 then word else Twice(word, n), word, n);
    }
  }

  lemma ProductOfOne(x: Shape, y: Shape, n: nat)
    ensures Product({x}, {y}, n) == {Join(x, y, n)}
  {
    hide Join;
  }

  /** A mixed word repeated at least twice: the computed run is right if and only if it is no longer
      than the word's longest run or the run across the seam. */
  lemma RepeatedWordRightIff(h: Hir, n: nat, word: Shape)
    requires h.Repetition? && h.min >= 2 && (h.max.Some? ==> h.min <= h.max.value)
    requires LetterRun(h) == Some(n) && word.Mixed? && Shapes(h.sub, n) == {word}
    ensures (forall s: Bytes :: Matches(h, s) ==> HasRun(s, n)) <==> n <= Max(word.best, word.tail + word.head)
  {
    hide Matches, HasRun, Power, Extra, Product, LetterRun;
    var longest := Max(word.best, Cap(word.tail + word.head, n));
    var a := Shapes(h.sub, n);
    assert Within(word, n) by { assert word in a; }
    var more := Extra(a, Beyond(h.min, h.max), n);
    forall x | x in Shapes(h, n) ensures x.Longest() == longest {
      var y, z := Factors(Power(a, h.min, n), more, n, x);
      var k := ExtraHasPower(a, Beyond(h.min, h.max), n, z);
      PowerOfWord(word, h.min, n);
      if k == 0 { PowerOfNothing(a, n); } else { PowerOfWord(word, k, n); }
    }
    assert Shapes(h, n) != {} by {
      PowerOfWord(word, h.min, n);
      PowersInExtra(a, 0, Beyond(h.min, h.max), n);
      PowerOfNothing(a, n);
      var y :| y in Power(a, h.min, n);
      IsProduct(Power(a, h.min, n), more, n, y, NOTHING);
    }
    hide Shapes;
    RunGuaranteedIff(h, n);
  }

  lemma PowerOfNothing(a: set<Shape>, n: nat)
    ensures Power(a, 0, n) == {NOTHING}
  {
  }
}
