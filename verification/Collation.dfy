/** The "C" collation: the order of texts that queries sort by. */
module Collation {
  import opened Basics
  import opened Utf8

  /** The order by code points: a beginning comes first, otherwise the first difference decides. */
  ghost predicate Before(a: string, b: string) {
    a < b || exists i :: 0 <= i < |a| && i < |b| && a[..i] == b[..i] && a[i] < b[i]
  }

  /** The order by bytes, as `memcmp` and then the lengths decide it. */
  ghost predicate BytesBefore(a: Bytes, b: Bytes) {
    a < b || exists i :: 0 <= i < |a| && i < |b| && a[..i] == b[..i] && a[i] < b[i]
  }

  predicate TextLess(a: string, b: string)
    decreases |a|
  {
    b != "" && (a == "" || a[0] < b[0] || (a[0] == b[0] && TextLess(a[1..], b[1..])))
  }

  /** The comparison character by character decides that order. */
  lemma {:induction false} TextLessIsBefore(a: string, b: string)
    ensures TextLess(a, b) <==> Before(a, b)
    decreases |a|
  {
    if a != "" && b != "" && a[0] == b[0] {
      TextLessIsBefore(a[1..], b[1..]);
      BeforeBehind(a, b);
    } else if a != "" && b != "" {
      assert a[..0] == b[..0];
      forall i | 0 < i < |a| && i < |b| ensures a[..i] != b[..i] { assert a[..i][0] != b[..i][0]; }
    }
  }

  lemma BeforeBehind(a: string, b: string)
    requires a != "" && b != "" && a[0] == b[0]
    ensures Before(a, b) <==> Before(a[1..], b[1..])
  {
    var s, t := a[1..], b[1..];
    assert a == [a[0]] + s && b == [b[0]] + t;
    assert a < b <==> s < t;
    if i :| 0 <= i < |a| && i < |b| && a[..i] == b[..i] && a[i] < b[i] {
      assert i > 0 && s[..i - 1] == a[..i][1..] && t[..i - 1] == b[..i][1..];
      assert s[i - 1] < t[i - 1];
    }
    if i :| 0 <= i < |s| && i < |t| && s[..i] == t[..i] && s[i] < t[i] {
      assert a[..i + 1] == [a[0]] + s[..i] && b[..i + 1] == [b[0]] + t[..i];
      assert a[i + 1] < b[i + 1];
    }
  }

  lemma {:induction false} TextLessIsOrder(a: string, b: string)
    ensures a != b ==> TextLess(a, b) || TextLess(b, a)
    ensures !(TextLess(a, b) && TextLess(b, a))
    ensures !TextLess(a, a)
    decreases |a|
  {
    if a != "" && b != "" {
      TextLessIsOrder(a[1..], b[1..]);
      assert a[0] == b[0] && a[1..] == b[1..] ==> a == [a[0]] + a[1..] == b;
    }
    if a != "" { TextLessIsOrder(a[1..], a[1..]); }
  }

  lemma {:induction false} TextLessTransitive(a: string, b: string, c: string)
    requires TextLess(a, b) && TextLess(b, c)
    ensures TextLess(a, c)
    decreases |a|
  {
    if a != "" && a[0] == b[0] == c[0] { TextLessTransitive(a[1..], b[1..], c[1..]); }
  }

  lemma BeforeIsOrder(a: string, b: string)
    ensures a != b ==> Before(a, b) || Before(b, a)
    ensures !(Before(a, b) && Before(b, a)) && !Before(a, a)
  {
    hide Before, TextLess;
    TextLessIsBefore(a, b);
    TextLessIsBefore(b, a);
    TextLessIsBefore(a, a);
    TextLessIsOrder(a, b);
  }

  lemma BeforeTransitive(a: string, b: string, c: string)
    requires Before(a, b) && Before(b, c)
    ensures Before(a, c)
  {
    hide Before, TextLess;
    TextLessIsBefore(a, b);
    TextLessIsBefore(b, c);
    TextLessIsBefore(a, c);
    TextLessTransitive(a, b, c);
  }

  // ---- The order of the bytes ----

  /** The encodings of two code points differ within both, and in the order of the code points. */
  ghost predicate FirstDifference(a: Bytes, b: Bytes, i: nat) { i < |a| && i < |b| && a[..i] == b[..i] && a[i] < b[i] }

  lemma BitsInOrder(c: nat, d: nat)
    requires c < d
    ensures c / 0x40 < d / 0x40 || (c / 0x40 == d / 0x40 && c % 0x40 < d % 0x40)
  {
  }

  lemma TwoInOrder(c: nat, d: nat)
    requires 0x80 <= c < d < 0x800
    ensures FirstDifference(Encode(c), Encode(d), 0) || FirstDifference(Encode(c), Encode(d), 1)
  {
    BitsInOrder(c, d);
  }

  lemma ThreeInOrder(c: nat, d: nat)
    requires 0x800 <= c < d < 0x1_0000
    ensures exists i :: FirstDifference(Encode(c), Encode(d), i)
  {
    BitsInOrder(c, d);
    Digits(c);
    Digits(d);
    var a, b := Encode(c), Encode(d);
    if c / 0x40 < d / 0x40 { BitsInOrder(c / 0x40, d / 0x40); }
    assert FirstDifference(a, b, 0) || FirstDifference(a, b, 1) || FirstDifference(a, b, 2);
  }

  lemma FourInOrder(c: nat, d: nat)
    requires 0x1_0000 <= c < d < 0x11_0000
    ensures exists i :: FirstDifference(Encode(c), Encode(d), i)
  {
    BitsInOrder(c, d);
    Digits(c);
    Digits(d);
    var a, b := Encode(c), Encode(d);
    if c / 0x40 < d / 0x40 {
      BitsInOrder(c / 0x40, d / 0x40);
      if c / 0x1000 < d / 0x1000 { BitsInOrder(c / 0x1000, d / 0x1000); }
    }
    assert FirstDifference(a, b, 0) || FirstDifference(a, b, 1) || FirstDifference(a, b, 2) || FirstDifference(a, b, 3);
  }

  lemma EncodeInOrder(c: nat, d: nat) returns (i: nat)
    requires IsScalar(c) && IsScalar(d) && c < d
    ensures FirstDifference(Encode(c), Encode(d), i)
  {
    if 0x80 <= c < d < 0x800 {
      TwoInOrder(c, d);
    } else if 0x800 <= c < d < 0x1_0000 {
      ThreeInOrder(c, d);
    } else if 0x1_0000 <= c {
      FourInOrder(c, d);
    } else {
      assert FirstDifference(Encode(c), Encode(d), 0);
    }
    i :| FirstDifference(Encode(c), Encode(d), i);
  }

  lemma BytesBehind(p: Bytes, a: Bytes, b: Bytes)
    requires BytesBefore(a, b)
    ensures BytesBefore(p + a, p + b)
  {
    if i :| 0 <= i < |a| && i < |b| && a[..i] == b[..i] && a[i] < b[i] {
      assert (p + a)[..|p| + i] == p + a[..i] && (p + b)[..|p| + i] == p + b[..i];
      assert (p + a)[|p| + i] < (p + b)[|p| + i];
    }
  }

  lemma BytesAhead(a: Bytes, b: Bytes, i: nat, s: Bytes, t: Bytes)
    requires FirstDifference(a, b, i)
    ensures BytesBefore(a + s, b + t)
  {
    assert (a + s)[..i] == a[..i] && (b + t)[..i] == b[..i] && (a + s)[i] < (b + t)[i];
  }

  lemma BytesBeforeIsStrict(a: Bytes, b: Bytes)
    ensures !(BytesBefore(a, b) && BytesBefore(b, a)) && !BytesBefore(a, a)
  {
    if i :| 0 <= i < |a| && i < |b| && a[..i] == b[..i] && a[i] < b[i] {
      assert forall j :: 0 <= j < i ==> a[j] == a[..i][j] == b[..i][j] == b[j];
      forall j | i < j <= |a| && j <= |b| ensures a[..j] != b[..j] { assert a[..j][i] != b[..j][i]; }
    }
  }

  lemma {:induction false} TextLessMeansBytes(a: string, b: string)
    requires TextLess(a, b)
    ensures BytesBefore(EncodeText(a), EncodeText(b))
    decreases |a|
  {
    hide Encode, BytesBefore;
    if a == "" {
      EmptyFirst(b);
    } else if a[0] < b[0] {
      CharIsScalar(a[0]);
      CharIsScalar(b[0]);
      var i := EncodeInOrder(a[0] as int, b[0] as int);
      BytesAhead(Encode(a[0] as int), Encode(b[0] as int), i, EncodeText(a[1..]), EncodeText(b[1..]));
    } else {
      TextLessMeansBytes(a[1..], b[1..]);
      BytesBehind(Encode(a[0] as int), EncodeText(a[1..]), EncodeText(b[1..]));
    }
  }

  lemma EmptyFirst(b: string)
    requires b != ""
    ensures BytesBefore(EncodeText(""), EncodeText(b))
  {
    CharIsScalar(b[0]);
  }

  /** The order of the texts is that of the bytes of their UTF-8 forms. */
  lemma BeforeMeansBytes(a: string, b: string)
    ensures Before(a, b) <==> BytesBefore(EncodeText(a), EncodeText(b))
  {
    hide Before, BytesBefore, TextLess, EncodeText;
    TextLessIsBefore(a, b);
    TextLessIsBefore(b, a);
    TextLessIsOrder(a, b);
    BytesBeforeIsStrict(EncodeText(a), EncodeText(b));
    if TextLess(a, b) { TextLessMeansBytes(a, b); }
    if TextLess(b, a) { TextLessMeansBytes(b, a); }
  }
}
