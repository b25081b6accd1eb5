/** UTF-8 as section 4 of RFC 3629 defines it, and where a text may be cut. */
module Utf8 {
  import opened Basics

  predicate In(b: byte, lo: int, hi: int) { lo <= b <= hi }

  predicate Tail(b: byte) { In(b, 0x80, 0xBF) }

  /** Length of the character a text starts with, 0 when no character starts there. */
  function CharLen(b: Bytes): (n: nat)
    ensures n <= 4 && n <= |b|
  {
    if b == [] then 0
    else if b[0] <= 0x7F then 1
    else if |b| >= 2 && In(b[0], 0xC2, 0xDF) && Tail(b[1]) then 2
    else if |b| >= 3 && Tail(b[2]) && (
              || (b[0] == 0xE0 && In(b[1], 0xA0, 0xBF))
              || ((In(b[0], 0xE1, 0xEC) || In(b[0], 0xEE, 0xEF)) && Tail(b[1]))
              || (b[0] == 0xED && In(b[1], 0x80, 0x9F))) then 3
    else if |b| >= 4 && Tail(b[2]) && Tail(b[3]) && (
              || (b[0] == 0xF0 && In(b[1], 0x90, 0xBF))
              || (In(b[0], 0xF1, 0xF3) && Tail(b[1]))
              || (b[0] == 0xF4 && In(b[1], 0x80, 0x8F))) then 4
    else 0
  }

  predicate ValidUtf8(b: Bytes) {
    b == [] || (CharLen(b) > 0 && ValidUtf8(b[CharLen(b)..]))
  }

  /** No character of the text straddles position `i`. */
  predicate Boundary(b: Bytes, i: nat) {
    i == 0 || (CharLen(b) > 0 && CharLen(b) <= i && Boundary(b[CharLen(b)..], i - CharLen(b)))
  }

  /** The character is decided by its own bytes; no byte after the first is ASCII. */
  lemma CharLenLocal(a: Bytes, b: Bytes)
    ensures CharLen(a) > 0 ==> CharLen(a + b) == CharLen(a)
    ensures 0 < CharLen(a + b) <= |a| ==> CharLen(a) == CharLen(a + b)
    ensures forall i :: 1 <= i < CharLen(a) ==> a[i] >= 0x80
  {
  }

  /** Cutting after an ASCII byte splits validity. */
  lemma {:induction false} ValidAcrossAsciiCut(a: Bytes, b: Bytes)
    requires a == [] || Last(a) < 0x80
    ensures ValidUtf8(a + b) <==> ValidUtf8(a) && ValidUtf8(b)
    ensures ValidUtf8(a + b) ==> Boundary(a + b, |a|)
    decreases |a|
  {
    if a == [] {
      assert a + b == b;
    } else {
      var n := CharLen(a + b);
      CharLenLocal(a, b);
      CharLenLocal(a + b, []);
      assert (a + b) + [] == a + b && (a + b)[|a| - 1] == Last(a);
      assert a[0] <= 0x7F ==> n == 1;
      assert n <= |a| && CharLen(a) == n;
      if n > 0 {
        assert (a + b)[n..] == a[n..] + b;
        ValidAcrossAsciiCut(a[n..], b);
      }
    }
  }

  /** The encoding of a code point. */
  function Encode(c: nat): Bytes {
    if c < 0x80 then [c]
    else if c < 0x800 then [0xC0 + c / 0x40, 0x80 + c % 0x40]
    else if c < 0x1_0000 then [0xE0 + c / 0x1000, 0x80 + c / 0x40 % 0x40, 0x80 + c % 0x40]
    else if c < 0x11_0000 then [0xF0 + c / 0x4_0000, 0x80 + c / 0x1000 % 0x40, 0x80 + c / 0x40 % 0x40, 0x80 + c % 0x40]
    else []
  }

  // ---- Which byte strings are UTF-8 ----

  /** A code point besides the surrogates. */
  predicate IsScalar(c: nat) { c < 0xD800 || 0xE000 <= c < 0x11_0000 }

  predicate AllScalars(cs: seq<nat>) { forall i :: 0 <= i < |cs| ==> IsScalar(cs[i]) }

  function EncodeAll(cs: seq<nat>): Bytes {
    if cs == [] then [] else Encode(cs[0]) + EncodeAll(cs[1..])
  }

  /** The six bits a byte after the first carries. */
  function Bits(b: byte): int { b as int - 0x80 }

  /** The code point of the character a text starts with. */
  function FirstScalar(b: Bytes): nat
    requires CharLen(b) > 0
  {
    if CharLen(b) == 1 then b[0]
    else if CharLen(b) == 2 then (b[0] as int - 0xC0) * 0x40 + Bits(b[1])
    else if CharLen(b) == 3 then ((b[0] as int - 0xE0) * 0x40 + Bits(b[1])) * 0x40 + Bits(b[2])
    else (((b[0] as int - 0xF0) * 0x40 + Bits(b[1])) * 0x40 + Bits(b[2])) * 0x40 + Bits(b[3])
  }

  lemma LastDigit(high: nat, low: nat)
    requires low < 0x40
    ensures (high * 0x40 + low) / 0x40 == high && (high * 0x40 + low) % 0x40 == low
  {
  }

  lemma Digits(c: nat)
    ensures c / 0x1000 == c / 0x40 / 0x40 && c / 0x4_0000 == c / 0x40 / 0x40 / 0x40
    ensures c / 0x40 * 0x40 + c % 0x40 == c
  {
  }

  lemma FirstScalarEncodes(b: Bytes)
    requires CharLen(b) > 0
    ensures IsScalar(FirstScalar(b)) && Encode(FirstScalar(b)) == b[..CharLen(b)]
  {
    if CharLen(b) == 1 {
    } else if CharLen(b) == 2 {
      LastDigit(b[0] as int - 0xC0, Bits(b[1]));
    } else if CharLen(b) == 3 {
      ThreeEncode(b);
    } else {
      FourEncode(b);
    }
  }

  lemma ThreeEncode(b: Bytes)
    requires CharLen(b) == 3
    ensures IsScalar(FirstScalar(b)) && Encode(FirstScalar(b)) == b[..3]
  {
    var c, high, middle := FirstScalar(b), b[0] as int - 0xE0, (b[0] as int - 0xE0) * 0x40 + Bits(b[1]);
    LastDigit(high, Bits(b[1]));
    LastDigit(middle, Bits(b[2]));
    Digits(c);
    assert c / 0x40 == middle && c / 0x1000 == high;
  }

  lemma FourEncode(b: Bytes)
    requires CharLen(b) == 4
    ensures IsScalar(FirstScalar(b)) && Encode(FirstScalar(b)) == b[..4]
  {
    var c, high := FirstScalar(b), b[0] as int - 0xF0;
    var upper := high * 0x40 + Bits(b[1]);
    var middle := upper * 0x40 + Bits(b[2]);
    LastDigit(high, Bits(b[1]));
    LastDigit(upper, Bits(b[2]));
    LastDigit(middle, Bits(b[3]));
    Digits(c);
    assert c / 0x40 == middle && c / 0x1000 == upper && c / 0x4_0000 == high;
  }

  lemma EncodedIsFirst(c: nat, rest: Bytes)
    requires IsScalar(c)
    ensures CharLen(Encode(c) + rest) == |Encode(c)| > 0 && FirstScalar(Encode(c) + rest) == c
    ensures (Encode(c) + rest)[|Encode(c)|..] == rest
  {
    var b := Encode(c) + rest;
    EncodedLength(c);
    CharLenLocal(Encode(c), rest);
    assert forall i :: 0 <= i < |Encode(c)| ==> b[i] == Encode(c)[i];
    Digits(c);
    Digits(c / 0x40);
    Digits(c / 0x40 / 0x40);
    hide CharLen;
  }

  lemma EncodedLength(c: nat)
    requires IsScalar(c)
    ensures CharLen(Encode(c)) == |Encode(c)| > 0
  {
  }

  /** The code points of a text. */
  function Scalars(b: Bytes): seq<nat> {
    if CharLen(b) == 0 then [] else [FirstScalar(b)] + Scalars(b[CharLen(b)..])
  }

  lemma ValidHead(b: Bytes)
    requires ValidUtf8(b) && b != []
    ensures CharLen(b) > 0 && ValidUtf8(b[CharLen(b)..])
  {
    hide CharLen;
  }

  lemma NothingToDecode()
    ensures AllScalars(Scalars([])) && EncodeAll(Scalars([])) == []
  {
  }

  lemma {:induction false} ScalarsEncode(b: Bytes)
    requires ValidUtf8(b)
    ensures AllScalars(Scalars(b)) && EncodeAll(Scalars(b)) == b
    decreases |b|
  {
    hide *;
    if b == [] {
      NothingToDecode();
    } else {
      ValidHead(b);
      var n := CharLen(b);
      FirstScalarEncodes(b);
      OneScalarMore(b);
      ScalarsEncode(b[n..]);
      EncodeOneMore(FirstScalar(b), Scalars(b[n..]));
      MoreScalars(FirstScalar(b), Scalars(b[n..]));
      assert b == b[..n] + b[n..];
    }
  }

  lemma MoreScalars(c: nat, cs: seq<nat>)
    requires IsScalar(c) && AllScalars(cs)
    ensures AllScalars([c] + cs)
  {
  }

  /** Decoding what was encoded gives the code points back, in order. */
  lemma {:induction false} EncodeRoundTrip(cs: seq<nat>)
    requires AllScalars(cs)
    ensures ValidUtf8(EncodeAll(cs)) && Scalars(EncodeAll(cs)) == cs
    decreases |cs|
  {
    if cs != [] {
      hide CharLen, Encode, FirstScalar;
      EncodedIsFirst(cs[0], EncodeAll(cs[1..]));
      EncodeRoundTrip(cs[1..]);
    }
  }

  /** The UTF-8 byte strings are exactly the encodings of code points other than surrogates. */
  lemma ValidUtf8Iff(b: Bytes)
    ensures ValidUtf8(b) <==> exists cs :: AllScalars(cs) && b == EncodeAll(cs)
  {
    hide ValidUtf8, EncodeAll, Scalars, AllScalars;
    if ValidUtf8(b) { ScalarsEncode(b); }
    if cs :| AllScalars(cs) && b == EncodeAll(cs) { EncodeRoundTrip(cs); }
  }

  /** The length of the encoding of the first few code points. */
  ghost predicate IsBehind(cs: seq<nat>, i: nat) {
    exists k: nat :: k <= |cs| && |EncodeAll(cs[..k])| == i
  }

  /** The boundaries are the places behind so many whole characters. */
  lemma {:induction false} BoundaryIff(b: Bytes, i: nat)
    requires ValidUtf8(b)
    ensures Boundary(b, i) <==> IsBehind(Scalars(b), i)
    decreases |b|
  {
    if b == [] {
      var none: seq<nat> := [];
      assert none[..0] == none && EncodeAll(none) == [] && Scalars(b) == none;
      assert i == 0 ==> |EncodeAll(none[..0])| == i;
      assert forall k: nat :: k <= |none| ==> none[..k] == none;
    } else {
      var n := CharLen(b);
      if n <= i { BoundaryIff(b[n..], i - n); }
      FirstScalarEncodes(b);
      OneScalarMore(b);
      hide CharLen, FirstScalar, Encode, Scalars, IsBehind;
      BehindOneMore(FirstScalar(b), Scalars(b[n..]), i);
    }
  }

  lemma BehindOneMore(c: nat, cs: seq<nat>, i: nat)
    ensures IsBehind([c] + cs, i) <==> i == 0 || (|Encode(c)| <= i && IsBehind(cs, i - |Encode(c)|))
  {
    hide Encode, EncodeAll;
    var all := [c] + cs;
    var none: seq<nat> := [];
    assert all[..0] == none && EncodeAll(none) == [] by { NoScalars(); }
    forall k: nat | 0 < k <= |all| ensures |EncodeAll(all[..k])| == |Encode(c)| + |EncodeAll(cs[..k - 1])| {
      assert all[..k] == [c] + cs[..k - 1];
      EncodeOneMore(c, cs[..k - 1]);
    }
    if |Encode(c)| <= i && IsBehind(cs, i - |Encode(c)|) {
      var k: nat :| k <= |cs| && |EncodeAll(cs[..k])| == i - |Encode(c)|;
      var next := k + 1;
      assert |EncodeAll(all[..next])| == i;
    }
    if k: nat :| 0 < k <= |all| && |EncodeAll(all[..k])| == i {
      var before := k - 1;
      assert before <= |cs| && |EncodeAll(cs[..before])| == i - |Encode(c)|;
    }
  }

  lemma NoScalars()
    ensures EncodeAll([]) == []
  {
  }

  lemma EncodeOneMore(c: nat, cs: seq<nat>)
    ensures EncodeAll([c] + cs) == Encode(c) + EncodeAll(cs)
  {
    assert ([c] + cs)[1..] == cs;
  }

  lemma OneScalarMore(b: Bytes)
    requires CharLen(b) > 0
    ensures Scalars(b) == [FirstScalar(b)] + Scalars(b[CharLen(b)..])
  {
  }

  // ---- Texts ----

  function EncodeText(text: string): Bytes {
    if text == "" then [] else Encode(text[0] as int) + EncodeText(text[1..])
  }

  function CodePoints(text: string): seq<nat> { seq(|text|, i requires 0 <= i < |text| => text[i] as int) }

  /** The bytes of a text are UTF-8 and decode to its characters, in order. */
  lemma {:induction false} EncodedTextDecodes(text: string)
    ensures EncodeText(text) == EncodeAll(CodePoints(text)) && ValidUtf8(EncodeText(text))
    ensures Scalars(EncodeText(text)) == CodePoints(text)
  {
    EncodedTextIs(text);
    EncodeRoundTrip(CodePoints(text));
  }

  lemma {:induction false} EncodedTextIs(text: string)
    ensures EncodeText(text) == EncodeAll(CodePoints(text)) && AllScalars(CodePoints(text))
  {
    hide Encode;
    if text != "" {
      EncodedTextIs(text[1..]);
      assert CodePoints(text)[1..] == CodePoints(text[1..]);
      assert CodePoints(text)[0] == text[0] as int;
      CharIsScalar(text[0]);
      assert forall i :: 1 <= i < |text| ==> CodePoints(text)[i] == CodePoints(text[1..])[i - 1];
    }
  }

  lemma CharIsScalar(c: char)
    ensures IsScalar(c as int)
  {
  }
}
