/** Length-prefixed frames on a byte stream (src/protocol.rs). */
module Framing {
  import opened Basics
  import opened TextImport

  const MAX_FRAME := 67108864

  /** The payload codec: decoding reports how many bytes the value took. */
  datatype Codec<!T> = Codec(encode: T -> Bytes, decode: Bytes -> Option<(T, nat)>)

  /** Decoding an encoded value gives it back and takes exactly its bytes. */
  ghost predicate Lawful<T(!new)>(codec: Codec<T>) {
    forall v: T :: codec.decode(codec.encode(v)) == Some((v, |codec.encode(v)|))
  }

  datatype FrameError = EndOfStream | FrameTooLarge | Undecodable

  predicate Fits<T>(codec: Codec<T>, v: T) { |codec.encode(v)| <= MAX_FRAME }

  /** A payload with its length in front. */
  function Framed(payload: Bytes): Bytes { BigEndian(|payload|, 4) + payload }

  /** The bytes of a frame. */
  function FrameOf<T>(codec: Codec<T>, v: T): Bytes { Framed(codec.encode(v)) }

  /** `write_frame`: a frame that is too large writes nothing. */
  method WriteFrame<T>(codec: Codec<T>, v: T, stream: Bytes) returns (ok: bool, after: Bytes)
    ensures ok == Fits(codec, v) && after == if ok then stream + FrameOf(codec, v) else stream
  {
    var payload := codec.encode(v);
    if |payload| > MAX_FRAME {
      return false, stream;
    }
    var before := stream + BigEndian(|payload|, 4);
    after := before + payload;
    AppendAssociates(stream, BigEndian(|payload|, 4), payload);
    ok := true;
  }

  /** The payload is exactly one value. */
  predicate DecodesTo<T(==)>(codec: Codec<T>, payload: Bytes, v: T) { codec.decode(payload) == Some((v, |payload|)) }

  /** What it means to have read `r` off a stream and to have `rest` left: a value or an undecodable
      payload is one whole frame, a frame too large is just its length, and the end is a stream that
      stops before its first frame does. */
  ghost predicate FrameRead<T>(codec: Codec<T>, stream: Bytes, r: Result<T, FrameError>, rest: Bytes) {
    match r
    case Success(v) =>
      exists payload: Bytes :: |payload| <= MAX_FRAME && stream == Framed(payload) + rest && DecodesTo(codec, payload, v)
    case Failure(Undecodable) =>
      exists payload: Bytes ::
        && |payload| <= MAX_FRAME && stream == Framed(payload) + rest
        && (codec.decode(payload).Some? ==> codec.decode(payload).value.1 != |payload|)
    case Failure(FrameTooLarge) =>
      exists length: nat :: MAX_FRAME < length < 0x1_0000_0000 && stream == BigEndian(length, 4) + rest
    case Failure(EndOfStream) =>
      && rest == []
      && (|stream| < 4 || exists payload: Bytes :: |payload| <= MAX_FRAME && stream < Framed(payload))
  }

  lemma FourBytes(b: Bytes)
    requires |b| == 4
    ensures Number(b) < 0x1_0000_0000 && BigEndian(Number(b), 4) == b
  {
    assert Capacity(4) == 0x1_0000_0000 by { assert Capacity(3) == 0x100_0000; }
    BigEndianOfNumber(b);
  }

  /** `read_frame`: the length, then the payload, then the decoder. */
  method ReadFrame<T>(codec: Codec<T>, stream: Bytes) returns (r: Result<T, FrameError>, rest: Bytes)
    ensures FrameRead(codec, stream, r, rest)
  {
    hide BigEndian, Number, Framed;
    if |stream| < 4 {
      return Failure(EndOfStream), [];
    }
    var length := Number(stream[..4]);
    FourBytes(stream[..4]);
    assert stream == stream[..4] + stream[4..];
    if length > MAX_FRAME {
      return Failure(FrameTooLarge), stream[4..];
    }
    if |stream| < 4 + length {
      ShortFrame(stream);
      return Failure(EndOfStream), [];
    }
    var payload := stream[4..4 + length];
    rest := stream[4 + length..];
    assert stream == Framed(payload) + rest by { WholeFrame(stream); }
    var decoded := codec.decode(payload);
    if decoded.None? || decoded.value.1 != |payload| {
      return Failure(Undecodable), rest;
    }
    assert DecodesTo(codec, payload, decoded.value.0);
    r := Success(decoded.value.0);
  }

  lemma WholeFrame(stream: Bytes)
    requires |stream| >= 4 && |stream| >= 4 + Number(stream[..4])
    ensures var length := Number(stream[..4]); stream == Framed(stream[4..4 + length]) + stream[4 + length..]
  {
    hide BigEndian, Number;
    FourBytes(stream[..4]);
  }

  lemma ShortFrame(stream: Bytes)
    requires |stream| >= 4 && Number(stream[..4]) <= MAX_FRAME && |stream| < 4 + Number(stream[..4])
    ensures exists payload: Bytes :: |payload| <= MAX_FRAME && stream < Framed(payload)
  {
    hide BigEndian, Number, Framed;
    FourBytes(stream[..4]);
    Completed(stream[..4], stream[4..], Number(stream[..4]));
    assert stream == stream[..4] + stream[4..];
  }

  /** Any beginning of a payload can be completed to its announced length. */
  lemma Completed(head: Bytes, begun: Bytes, length: nat)
    requires head == BigEndian(length, 4) && |begun| < length <= MAX_FRAME
    ensures exists payload: Bytes :: |payload| <= MAX_FRAME && head + begun < Framed(payload)
  {
    hide BigEndian;
    var missing: Bytes := seq(length - |begun|, i => 0);
    AppendAssociates(head, begun, missing);
    assert Framed(begun + missing) == head + begun + missing;
    Beginning(head + begun, missing);
  }

  lemma Beginning(a: Bytes, b: Bytes)
    requires b != []
    ensures a < a + b
  {
  }

  /** The length in front says where a frame ends. */
  lemma FrameHead(payload: Bytes, stream: Bytes)
    requires |payload| <= MAX_FRAME && |stream| >= 4 && (Framed(payload) <= stream || stream < Framed(payload))
    ensures Number(stream[..4]) == |payload|
  {
    hide BigEndian, Number;
    LengthField(|payload|);
    assert stream[..4] == Framed(payload)[..4] == BigEndian(|payload|, 4);
  }

  /** A stream determines what is read off it. */
  lemma FrameReadIsUnique<T>(codec: Codec<T>, stream: Bytes, r: Result<T, FrameError>, rest: Bytes, r': Result<T, FrameError>, rest': Bytes)
    requires FrameRead(codec, stream, r, rest) && FrameRead(codec, stream, r', rest')
    ensures r == r' && rest == rest'
  {
    hide BigEndian, Number, Framed, FrameRead;
    FrameReadMeans(codec, stream, r, rest);
    FrameReadMeans(codec, stream, r', rest');
  }

  /** The outcome computed from the head of the stream. */
  lemma FrameReadMeans<T>(codec: Codec<T>, stream: Bytes, r: Result<T, FrameError>, rest: Bytes)
    requires FrameRead(codec, stream, r, rest)
    ensures r == Failure(EndOfStream) <==>
              |stream| < 4 || (Number(stream[..4]) <= MAX_FRAME && |stream| < 4 + Number(stream[..4]))
    ensures r == Failure(FrameTooLarge) <==> |stream| >= 4 && Number(stream[..4]) > MAX_FRAME
    ensures r == Failure(EndOfStream) ==> rest == []
    ensures r == Failure(FrameTooLarge) ==> rest == stream[4..]
    ensures r != Failure(EndOfStream) && r != Failure(FrameTooLarge) ==>
              var length := Number(stream[..4]);
              && rest == stream[4 + length..]
              && match codec.decode(stream[4..4 + length])
                 case None => r == Failure(Undecodable)
                 case Some(decoded) => r == if decoded.1 == length then Success(decoded.0) else Failure(Undecodable)
  {
    hide BigEndian, Number, Framed;
    match r
    case Failure(EndOfStream) =>
      if |stream| >= 4 {
        var payload: Bytes :| |payload| <= MAX_FRAME && stream < Framed(payload);
        FrameHead(payload, stream);
        FramedSize(payload);
      }
    case Failure(FrameTooLarge) =>
      var length: nat :| MAX_FRAME < length < 0x1_0000_0000 && stream == BigEndian(length, 4) + rest;
      assert stream[..4] == BigEndian(length, 4);
      assert Number(BigEndian(length, 4)) == length by { LargeNumber(length); }
    case Failure(Undecodable) =>
      var payload: Bytes :| |payload| <= MAX_FRAME && stream == Framed(payload) + rest
                            && (codec.decode(payload).Some? ==> codec.decode(payload).value.1 != |payload|);
      FrameParts(payload, stream, rest);
    case Success(v) =>
      var payload: Bytes :| |payload| <= MAX_FRAME && stream == Framed(payload) + rest && DecodesTo(codec, payload, v);
      FrameParts(payload, stream, rest);
  }

  lemma LargeNumber(length: nat)
    requires length < 0x1_0000_0000
    ensures Number(BigEndian(length, 4)) == length
  {
    assert Capacity(4) == 0x1_0000_0000 by { assert Capacity(3) == 0x100_0000; }
    NumberOfBigEndian(length, 4);
  }

  lemma FramedSize(payload: Bytes)
    ensures |Framed(payload)| == 4 + |payload|
  {
    hide BigEndian;
  }

  lemma FrameParts(payload: Bytes, stream: Bytes, rest: Bytes)
    requires |payload| <= MAX_FRAME && stream == Framed(payload) + rest
    ensures |stream| >= 4 + |payload| && Number(stream[..4]) == |payload|
    ensures stream[4..4 + |payload|] == payload && stream[4 + |payload|..] == rest
  {
    hide BigEndian, Number;
    FrameHead(payload, stream);
  }

  /** A written frame is read back whole, whatever follows it, and nothing else can be. */
  lemma FrameRoundTrip<T(!new)>(codec: Codec<T>, v: T, rest: Bytes, r: Result<T, FrameError>, left: Bytes)
    requires Lawful(codec) && Fits(codec, v)
    ensures FrameRead(codec, FrameOf(codec, v) + rest, r, left) <==> r == Success(v) && left == rest
  {
    hide Framed;
    assert DecodesTo(codec, codec.encode(v), v);
    assert FrameRead(codec, FrameOf(codec, v) + rest, Success(v), rest);
    if FrameRead(codec, FrameOf(codec, v) + rest, r, left) {
      hide FrameRead;
      FrameReadIsUnique(codec, FrameOf(codec, v) + rest, r, left, Success(v), rest);
    }
  }

  /** Nothing is read off an empty stream. */
  lemma EmptyStream<T>(codec: Codec<T>, r: Result<T, FrameError>, rest: Bytes)
    ensures FrameRead(codec, [], r, rest) <==> r == Failure(EndOfStream) && rest == []
  {
    hide Framed;
    if FrameRead(codec, [], r, rest) { FrameReadMeans(codec, [], r, rest); }
  }

}
