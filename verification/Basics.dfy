/** Shared vocabulary: results of operations that may raise, bytes, and sequences. */
module Basics {

  datatype Option<+T> = None | Some(value: T)

  /** An operation either succeeds or raises; a raised error rolls everything back. */
  datatype Result<+T, +E> = Success(value: T) | Failure(error: E)

  type byte = b: int | 0 <= b < 256

  type Bytes = seq<byte>

  const NEWLINE: byte := 10

  function Min(a: int, b: int): int { if a <= b then a else b }

  function Max(a: int, b: int): int { if a >= b then a else b }

  /** At most `count` elements from `start` on. */
  function Slice<T>(s: seq<T>, start: nat, count: nat): seq<T> {
    if start >= |s| then [] else s[start..Min(start + count, |s|)]
  }

  function Last<T>(s: seq<T>): T
    requires s != []
  {
    s[|s| - 1]
  }

  function DropLast<T>(s: seq<T>): seq<T>
    requires s != []
  {
    s[..|s| - 1]
  }

  lemma AppendAssociates<T>(a: seq<T>, b: seq<T>, c: seq<T>)
    ensures a + b + c == a + (b + c)
  {
  }

  function Flatten<T>(ss: seq<seq<T>>): seq<T> {
    if ss == [] then [] else ss[0] + Flatten(ss[1..])
  }

  lemma {:induction false} FlattenAppend<T>(a: seq<seq<T>>, b: seq<seq<T>>)
    ensures Flatten(a + b) == Flatten(a) + Flatten(b)
  {
    if a == [] {
      assert a + b == b;
    } else {
      FlattenAppend(a[1..], b);
      assert (a + b)[0] == a[0] && (a + b)[1..] == a[1..] + b;
      AppendAssociates(a[0], Flatten(a[1..]), Flatten(b));
    }
  }

  /** Where `needle` occurs in `text`. */
  predicate OccursAt<T(==)>(needle: seq<T>, text: seq<T>, at: nat) {
    at + |needle| <= |text| && text[at..at + |needle|] == needle
  }

  ghost predicate Contains<T>(text: seq<T>, needle: seq<T>) {
    exists at: nat :: OccursAt(needle, text, at)
  }

  lemma ContainsInMiddle<T>(a: seq<T>, text: seq<T>, b: seq<T>, needle: seq<T>)
    requires Contains(text, needle)
    ensures Contains(a + text + b, needle)
  {
    var at: nat :| OccursAt(needle, text, at);
    assert (a + text + b)[|a| + at..|a| + at + |needle|] == text[at..at + |needle|];
    assert OccursAt(needle, a + text + b, |a| + at);
  }

  lemma SameMap<K(!new), V>(a: map<K, V>, b: map<K, V>)
    requires forall k :: (k in a <==> k in b) && (k in a && k in b ==> a[k] == b[k])
    ensures a == b
  {
  }

  lemma ContainsInEither<T>(a: seq<T>, b: seq<T>, needle: seq<T>)
    requires Contains(a, needle) || Contains(b, needle)
    ensures Contains(a + b, needle)
  {
    if Contains(a, needle) {
      ContainsInMiddle([], a, b, needle);
      assert [] + a + b == a + b;
    } else {
      ContainsInMiddle(a, b, [], needle);
      assert a + b + [] == a + b;
    }
  }
}
