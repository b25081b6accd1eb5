/** Line-aligned blocks of a text: how they are cut and how ranges are read back. */
module Blocks {
  import opened Basics
  import opened Utf8

  /** A stored block; its ordinal is its index. */
  datatype Block = Block(offset: nat, firstLine: nat, body: Bytes)

  function CountNewlines(b: Bytes): nat {
    if b == [] then 0 else (if b[0] == NEWLINE then 1 else 0) + CountNewlines(b[1..])
  }

  lemma {:induction false} CountNewlinesAppend(a: Bytes, b: Bytes)
    ensures CountNewlines(a + b) == CountNewlines(a) + CountNewlines(b)
  {
    if a == [] {
      assert a + b == b;
    } else {
      assert (a + b)[1..] == a[1..] + b;
      CountNewlinesAppend(a[1..], b);
    }
  }

  /** The text a list of blocks stores. */
  function Bodies(blocks: seq<Block>): Bytes {
    if blocks == [] then [] else blocks[0].body + Bodies(blocks[1..])
  }

  lemma BodiesCons(b: Block, rest: seq<Block>)
    ensures Bodies([b] + rest) == b.body + Bodies(rest)
  {
    assert ([b] + rest)[1..] == rest;
  }

  /** Bodies are non-empty, offsets are prefix sums, first lines are one plus earlier newlines. */
  predicate Contiguous(blocks: seq<Block>, offset: nat, line: nat) {
    blocks == [] ||
    (blocks[0].offset == offset && blocks[0].firstLine == line && blocks[0].body != [] &&
     Contiguous(blocks[1..], offset + |blocks[0].body|, line + CountNewlines(blocks[0].body)))
  }

  lemma ContiguousCons(b: Block, rest: seq<Block>)
    requires b.body != [] && Contiguous(rest, b.offset + |b.body|, b.firstLine + CountNewlines(b.body))
    ensures Contiguous([b] + rest, b.offset, b.firstLine)
  {
    assert ([b] + rest)[1..] == rest;
  }

  predicate EndsLine(b: Bytes) { b != [] && Last(b) == NEWLINE }

  /** Every block but the last ends a line. */
  predicate LineAligned(blocks: seq<Block>) {
    forall i :: 0 <= i < |blocks| - 1 ==> EndsLine(blocks[i].body)
  }

  lemma {:induction false} BodiesAppend(a: seq<Block>, b: seq<Block>)
    ensures Bodies(a + b) == Bodies(a) + Bodies(b)
  {
    if a == [] {
      assert a + b == b;
    } else {
      assert (a + b)[1..] == a[1..] + b;
      BodiesAppend(a[1..], b);
    }
  }

  // ---- Cutting ----

  /** Index of the first newline at or after `from`, or the length of the text. */
  function NewlineFrom(b: Bytes, from: nat): (i: nat)
    requires from <= |b|
    ensures from <= i <= |b|
    ensures i < |b| ==> b[i] == NEWLINE
    decreases |b| - from
  {
    if from == |b| then from else if b[from] == NEWLINE then from else NewlineFrom(b, from + 1)
  }

  lemma {:induction false} NewlineFromIsFirst(b: Bytes, from: nat)
    requires from <= |b|
    ensures forall j :: from <= j < NewlineFrom(b, from) ==> b[j] != NEWLINE
    decreases |b| - from
  {
    if from < |b| && b[from] != NEWLINE { NewlineFromIsFirst(b, from + 1); }
  }

  lemma {:induction false} NewlineFromShift(b: Bytes, skip: nat, from: nat)
    requires skip + from <= |b|
    ensures NewlineFrom(b[skip..], from) == NewlineFrom(b, skip + from) - skip
    decreases |b| - from
  {
    if skip + from < |b| { NewlineFromShift(b, skip, from + 1); }
  }

  /** Where the block that starts at `offset` ends. */
  function CutEnd(content: Bytes, target: nat, offset: nat): (end: nat)
    requires offset < |content|
    ensures offset < end <= |content|
    ensures end < |content| ==> end - offset > target && content[end - 1] == NEWLINE
  {
    if |content| - offset <= target then |content|
    else
      var i := NewlineFrom(content, offset + target);
      if i == |content| then |content| else i + 1
  }

  /** The blocks of a text from `offset` on. */
  function SplitFrom(content: Bytes, target: nat, offset: nat, line: nat): seq<Block>
    requires offset <= |content|
    decreases |content| - offset
  {
    if offset == |content| then []
    else
      var end := CutEnd(content, target, offset);
      [Block(offset, line, content[offset..end])] +
      SplitFrom(content, target, end, line + CountNewlines(content[offset..end]))
  }

  function SplitText(content: Bytes, target: nat): seq<Block> { SplitFrom(content, target, 0, 1) }

  /** Every block but the last is longer than the target size and ends a line. */
  predicate FullBlocks(blocks: seq<Block>, target: nat) {
    forall i :: 0 <= i < |blocks| - 1 ==> |blocks[i].body| > target && EndsLine(blocks[i].body)
  }

  /** No block runs past the first newline it could have ended at. */
  predicate ShortestBlocks(blocks: seq<Block>, target: nat) {
    forall i, j :: 0 <= i < |blocks| && target <= j < |blocks[i].body| - 1 ==> blocks[i].body[j] != NEWLINE
  }

  lemma PrependBlock(b: Block, rest: seq<Block>, target: nat)
    requires FullBlocks(rest, target) && ShortestBlocks(rest, target)
    requires rest != [] ==> |b.body| > target && EndsLine(b.body)
    requires forall j :: target <= j < |b.body| - 1 ==> b.body[j] != NEWLINE
    ensures FullBlocks([b] + rest, target) && ShortestBlocks([b] + rest, target)
  {
    var blocks := [b] + rest;
    assert forall i :: 1 <= i < |blocks| ==> blocks[i] == rest[i - 1];
  }

  /** What the blocks of a text are, whatever cut them. */
  predicate Partitions(blocks: seq<Block>, content: Bytes, target: nat, offset: nat, line: nat) {
    && Bodies(blocks) == content
    && Contiguous(blocks, offset, line)
    && FullBlocks(blocks, target)
    && ShortestBlocks(blocks, target)
  }

  lemma PrependPartition(b: Block, rest: seq<Block>, tail: Bytes, target: nat)
    requires Partitions(rest, tail, target, b.offset + |b.body|, b.firstLine + CountNewlines(b.body))
    requires b.body != [] && (rest != [] ==> |b.body| > target && EndsLine(b.body))
    requires forall j :: target <= j < |b.body| - 1 ==> b.body[j] != NEWLINE
    ensures Partitions([b] + rest, b.body + tail, target, b.offset, b.firstLine)
  {
    BodiesCons(b, rest);
    ContiguousCons(b, rest);
    PrependBlock(b, rest, target);
  }

  lemma CutIsShortest(content: Bytes, target: nat, offset: nat)
    requires offset < |content|
    ensures forall j :: offset + target <= j < CutEnd(content, target, offset) - 1 ==> content[j] != NEWLINE
  {
    if |content| - offset > target { NewlineFromIsFirst(content, offset + target); }
  }

  /** The first block: a full run of whole lines, or all that is left. */
  lemma FirstBlock(content: Bytes, target: nat, offset: nat)
    requires offset < |content|
    ensures var end := CutEnd(content, target, offset); var body := content[offset..end];
            && body != [] && body + content[end..] == content[offset..]
            && (end < |content| ==> |body| > target && EndsLine(body))
            && forall j :: target <= j < |body| - 1 ==> body[j] != NEWLINE
  {
    hide CutEnd;
    CutIsShortest(content, target, offset);
  }

  /** The blocks partition the text, and each but the last is the shortest run of whole lines
      longer than the target size. */
  lemma {:induction false} SplitPartitions(content: Bytes, target: nat, offset: nat, line: nat)
    requires offset <= |content|
    ensures Partitions(SplitFrom(content, target, offset, line), content[offset..], target, offset, line)
    decreases |content| - offset
  {
    hide CutEnd, CountNewlines, EndsLine;
    if offset < |content| {
      var end := CutEnd(content, target, offset);
      var b := Block(offset, line, content[offset..end]);
      var line' := line + CountNewlines(b.body);
      SplitPartitions(content, target, end, line');
      FirstBlock(content, target, offset);
      hide Partitions;
      PrependPartition(b, SplitFrom(content, target, end, line'), content[end..], target);
    }
  }

  lemma SplitTextPartitions(content: Bytes, target: nat)
    ensures Partitions(SplitText(content, target), content, target, 0, 1)
    ensures LineAligned(SplitText(content, target))
  {
    SplitPartitions(content, target, 0, 1);
    assert content[0..] == content;
  }

  predicate CutsBetweenCharacters(blocks: seq<Block>, content: Bytes) {
    forall i :: 0 <= i < |blocks| ==> ValidUtf8(blocks[i].body) && Boundary(content, blocks[i].offset)
  }

  lemma EmptyIsValid()
    ensures ValidUtf8([])
  {
  }

  lemma CutBetweenCharacters(content: Bytes, target: nat, offset: nat)
    requires offset < |content| && ValidUtf8(content) && ValidUtf8(content[offset..])
    ensures var end := CutEnd(content, target, offset);
            && ValidUtf8(content[offset..end]) && ValidUtf8(content[end..])
            && (end < |content| ==> Boundary(content, end))
  {
    hide ValidUtf8, Boundary, NewlineFrom;
    var end := CutEnd(content, target, offset);
    assert content[offset..end] + content[end..] == content[offset..];
    assert content[..end] + content[end..] == content;
    EmptyIsValid();
    if end < |content| {
      ValidAcrossAsciiCut(content[..end], content[end..]);
      ValidAcrossAsciiCut(content[offset..end], content[end..]);
    } else {
      assert content[offset..end] == content[offset..];
    }
  }

  /** Every body is UTF-8 by itself, and no cut falls inside a character. */
  lemma {:induction false} SplitKeepsCharacters(content: Bytes, target: nat, offset: nat, line: nat)
    requires offset <= |content| && ValidUtf8(content) && ValidUtf8(content[offset..])
    requires offset == |content| || Boundary(content, offset)
    ensures CutsBetweenCharacters(SplitFrom(content, target, offset, line), content)
    decreases |content| - offset
  {
    hide ValidUtf8, Boundary, CutEnd;
    if offset < |content| {
      var end := CutEnd(content, target, offset);
      CutBetweenCharacters(content, target, offset);
      SplitKeepsCharacters(content, target, end, line + CountNewlines(content[offset..end]));
    }
  }

  /** One block more has been cut; the blocks still to come are unchanged. */
  lemma SplitUnfold(done: seq<Block>, content: Bytes, target: nat, offset: nat, line: nat, body: Bytes)
    requires offset < |content| && body == content[offset..CutEnd(content, target, offset)]
    ensures done + SplitFrom(content, target, offset, line) ==
            done + [Block(offset, line, body)] + SplitFrom(content, target, offset + |body|, line + CountNewlines(body))
  {
    hide CutEnd, CountNewlines;
    var rest := SplitFrom(content, target, offset + |body|, line + CountNewlines(body));
    assert SplitFrom(content, target, offset, line) == [Block(offset, line, body)] + rest;
    AppendAssociates(done, [Block(offset, line, body)], rest);
  }

  lemma SplitEnd(done: seq<Block>, content: Bytes, target: nat, line: nat)
    ensures done + SplitFrom(content, target, |content|, line) == done
  {
  }

  datatype SplitError = BlockSizeNotPositive | NotUtf8

  /** The cut, found in the bytes still to be cut. */
  lemma CutLength(content: Bytes, target: nat, offset: nat)
    requires offset < |content|
    ensures var remaining := content[offset..];
            CutEnd(content, target, offset) - offset ==
            if |remaining| <= target then |remaining|
            else var newline := NewlineFrom(remaining, target); if newline == |remaining| then |remaining| else newline + 1
  {
    if |content| - offset > target { NewlineFromShift(content, offset, target); }
    hide NewlineFrom;
  }

  /** `pgos_private.split_text_blocks`: a loop over the bytes still to be cut. */
  method SplitTextBlocks(content: Bytes, targetBytes: int) returns (r: Result<seq<Block>, SplitError>)
    requires ValidUtf8(content)
    ensures targetBytes < 1 ==> r == Failure(BlockSizeNotPositive)
    ensures targetBytes >= 1 ==> r == Success(SplitText(content, targetBytes))
  {
    hide ValidUtf8, NewlineFrom, SplitFrom, CountNewlines, CutEnd, Boundary;
    if targetBytes < 1 {
      return Failure(BlockSizeNotPositive);
    }
    var remaining := content;
    var nextByteOffset: nat, nextFirstLine: nat := 0, 1;
    var blocks: seq<Block> := [];
    while remaining != []
      invariant nextByteOffset <= |content| && remaining == content[nextByteOffset..] && ValidUtf8(remaining)
      invariant SplitText(content, targetBytes) ==
                blocks + SplitFrom(content, targetBytes, nextByteOffset, nextFirstLine)
      decreases |remaining|
    {
      CutBetweenCharacters(content, targetBytes, nextByteOffset);
      CutLength(content, targetBytes, nextByteOffset);
      var length := |remaining|;
      if |remaining| > targetBytes {
        var newline := NewlineFrom(remaining, targetBytes);
        if newline != |remaining| {
          length := newline + 1;
        }
      }
      assert nextByteOffset + length == CutEnd(content, targetBytes, nextByteOffset);
      var nextBytes := remaining[..length];
      assert nextBytes == content[nextByteOffset..nextByteOffset + length];
      assert remaining[length..] == content[nextByteOffset + length..];
      remaining := remaining[length..];
      if !ValidUtf8(nextBytes) {
        return Failure(NotUtf8);
      }
      SplitUnfold(blocks, content, targetBytes, nextByteOffset, nextFirstLine, nextBytes);
      blocks := blocks + [Block(nextByteOffset, nextFirstLine, nextBytes)];
      nextByteOffset := nextByteOffset + |nextBytes|;
      nextFirstLine := nextFirstLine + CountNewlines(nextBytes);
    }
    SplitEnd(blocks, content, targetBytes, nextFirstLine);
    r := Success(blocks);
  }

  // ---- Range reads ----

  /** `substring(bytes FROM from FOR count)`, which raises on a negative count. */
  function Substring(b: Bytes, from: nat, count: int): Option<Bytes>
    requires from >= 1
  {
    if count < 0 then None
    else if from - 1 >= |b| then Some([])
    else Some(b[from - 1..Min(from - 1 + count, |b|)])
  }

  /** The piece of one block that a range takes. */
  function Piece(b: Block, start: nat, end: nat): Option<Bytes> {
    var skip := Max(start - b.offset, 0);
    Substring(b.body, skip + 1, Min(end - b.offset, |b.body|) - skip)
  }

  /** The largest offset that does not exceed `start`, if any. */
  function LastOffsetUpTo(blocks: seq<Block>, start: nat): Option<nat> {
    if blocks == [] then None
    else
      match LastOffsetUpTo(blocks[1..], start)
      case Some(o) => Some(if blocks[0].offset <= start then Max(o, blocks[0].offset) else o)
      case None => if blocks[0].offset <= start then Some(blocks[0].offset) else None
  }

  function Pieces(blocks: seq<Block>, from: nat, start: nat, end: nat): Option<Bytes> {
    if blocks == [] then Some([])
    else
      match Pieces(blocks[1..], from, start, end)
      case None => None
      case Some(rest) =>
        if !(from <= blocks[0].offset < end) then Some(rest)
        else match Piece(blocks[0], start, end)
          case None => None
          case Some(piece) => Some(piece + rest)
  }

  /** The block branch of `read_range`; None where PostgreSQL would raise. */
  function RangeOfBlocks(blocks: seq<Block>, size: nat, start: nat, count: nat): Option<Bytes>
    requires start < size
  {
    var end := start + Min(count, size - start);
    match LastOffsetUpTo(blocks, start)
    case None => Some([])
    case Some(from) => Pieces(blocks, from, start, end)
  }

  function Clamp(x: int, hi: nat): (r: nat)
    ensures r <= hi
  {
    if x < 0 then 0 else if x > hi then hi else x
  }

  lemma {:induction false} LastOffsetInside(blocks: seq<Block>, offset: nat, line: nat, start: nat)
    requires Contiguous(blocks, offset, line)
    ensures LastOffsetUpTo(blocks, start).Some? <==> blocks != [] && offset <= start
    ensures LastOffsetUpTo(blocks, start).Some? ==>
              var o := LastOffsetUpTo(blocks, start).value;
              && offset <= o <= start
              && (o == offset ==> start < offset + |blocks[0].body| || |blocks| == 1)
    decreases |blocks|
  {
    if blocks != [] {
      LastOffsetInside(blocks[1..], offset + |blocks[0].body|, line + CountNewlines(blocks[0].body), start);
    }
  }

  lemma {:induction false} PiecesAfter(blocks: seq<Block>, offset: nat, line: nat, from: nat, start: nat, end: nat)
    requires Contiguous(blocks, offset, line)
    requires from <= start < offset && start < end
    ensures Pieces(blocks, from, start, end) == Some(Bodies(blocks)[..Clamp(end - offset, |Bodies(blocks)|)])
    decreases |blocks|
  {
    if blocks != [] {
      var b := blocks[0];
      PiecesAfter(blocks[1..], offset + |b.body|, line + CountNewlines(b.body), from, start, end);
      var rest := Bodies(blocks[1..]);
      var k := Clamp(end - offset - |b.body|, |rest|);
      if offset < end {
        assert Piece(b, start, end) == Some(b.body[..Min(end - offset, |b.body|)]);
        assert b.body[..Min(end - offset, |b.body|)] + rest[..k] ==
               (b.body + rest)[..Clamp(end - offset, |b.body + rest|)];
      }
    }
  }

  /** A slice that starts in the first of two texts. */
  lemma SliceAcross(x: Bytes, y: Bytes, i: nat, j: nat)
    requires i < |x| && i < j <= |x| + |y|
    ensures (x + y)[i..j] == x[i..Min(j, |x|)] + y[..Clamp(j - |x|, |y|)]
  {
  }

  lemma PieceAt(b: Block, start: nat, end: nat)
    requires b.offset <= start < b.offset + |b.body| && start < end
    ensures Piece(b, start, end) == Some(b.body[start - b.offset..Min(end - b.offset, |b.body|)])
  {
  }

  lemma PiecesInFirst(blocks: seq<Block>, offset: nat, line: nat, start: nat, end: nat)
    requires Contiguous(blocks, offset, line)
    requires blocks != [] && offset <= start < offset + |blocks[0].body| && start < end <= offset + |Bodies(blocks)|
    ensures Pieces(blocks, offset, start, end) == Some(Bodies(blocks)[start - offset..end - offset])
  {
    hide Piece, CountNewlines;
    var b, rest := blocks[0], blocks[1..];
    var next := offset + |b.body|;
    if rest != [] { PiecesAfter(rest, next, line + CountNewlines(b.body), offset, start, end); }
    assert Pieces(rest, offset, start, end) == Some(Bodies(rest)[..Clamp(end - next, |Bodies(rest)|)]);
    PieceAt(b, start, end);
    SliceAcross(b.body, Bodies(rest), start - offset, end - offset);
  }

  lemma {:induction false} PiecesFrom(blocks: seq<Block>, offset: nat, line: nat, start: nat, end: nat)
    requires Contiguous(blocks, offset, line)
    requires blocks != [] && offset <= start < end <= offset + |Bodies(blocks)|
    ensures LastOffsetUpTo(blocks, start).Some?
    ensures Pieces(blocks, LastOffsetUpTo(blocks, start).value, start, end) ==
            Some(Bodies(blocks)[start - offset..end - offset])
    decreases |blocks|
  {
    hide Piece, CountNewlines;
    var b, rest := blocks[0], blocks[1..];
    var next, line' := offset + |b.body|, line + CountNewlines(b.body);
    LastOffsetInside(blocks, offset, line, start);
    LastOffsetInside(rest, next, line', start);
    if start < next {
      PiecesInFirst(blocks, offset, line, start, end);
    } else {
      assert rest != [] by { assert rest == [] ==> Bodies(rest) == []; }
      PiecesFrom(rest, next, line', start, end);
      assert Bodies(rest)[start - next..end - next] == Bodies(blocks)[start - offset..end - offset];
    }
  }

  /** A range read of contiguous blocks is exactly the range of the concatenated text. */
  lemma RangeOfBlocksIsSlice(blocks: seq<Block>, start: nat, count: nat)
    requires Contiguous(blocks, 0, 1) && start < |Bodies(blocks)| && count > 0
    ensures var size := |Bodies(blocks)|;
            RangeOfBlocks(blocks, size, start, count) == Some(Bodies(blocks)[start..Min(start + count, size)])
  {
    var end := start + Min(count, |Bodies(blocks)| - start);
    assert blocks != [];
    PiecesFrom(blocks, 0, 1, start, end);
  }
}
