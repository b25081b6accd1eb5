/** The importer of one large text: it cuts the text into blocks while reading it and writes them
    as PostgreSQL's COPY "Binary Format" (src/postgres/blocks.rs). */
module TextImport {
  import opened Basics
  import opened Utf8
  import opened Blocks

  const BLOCK_SIZE := 8192

  const MAX_LINE := 16777216

  /** The longest text the 64-bit counters cover. */
  const MAX_I64 := 0x7FFF_FFFF_FFFF_FFFF

  const MAX_I32 := 0x7FFF_FFFF

  // ---- Big-endian integers ----

  function BigEndian(n: nat, width: nat): (b: Bytes)
    ensures |b| == width
  {
    if width == 0 then [] else BigEndian(n / 256, width - 1) + [n % 256]
  }

  function Number(b: Bytes): nat { if b == [] then 0 else Number(DropLast(b)) * 256 + Last(b) }

  /** How many values `width` bytes can hold. */
  function Capacity(width: nat): nat { if width == 0 then 1 else Capacity(width - 1) * 256 }

  lemma {:induction false} NumberOfBigEndian(n: nat, width: nat)
    requires n < Capacity(width)
    ensures Number(BigEndian(n, width)) == n
  {
    if width > 0 {
      assert n / 256 < Capacity(width - 1);
      NumberOfBigEndian(n / 256, width - 1);
      var b := BigEndian(n, width);
      assert DropLast(b) == BigEndian(n / 256, width - 1) && Last(b) == n % 256;
    }
  }

  lemma {:induction false} BigEndianOfNumber(b: Bytes)
    ensures Number(b) < Capacity(|b|) && BigEndian(Number(b), |b|) == b
  {
    if b != [] {
      BigEndianOfNumber(DropLast(b));
      var n := Number(DropLast(b)) * 256 + Last(b);
      assert n / 256 == Number(DropLast(b)) && n % 256 == Last(b);
      assert DropLast(b) + [Last(b)] == b;
    }
  }

  // ---- The COPY stream ----

  /** `PGCOPY\n\377\r\n\0`, the flags and the length of the header extension. */
  const HEADER: Bytes := [80, 71, 67, 79, 80, 89, 10, 255, 13, 10, 0] + [0, 0, 0, 0] + [0, 0, 0, 0]

  const TRAILER: Bytes := [255, 255]

  /** A field value; COPY can also carry NULL. */
  datatype Field = Null | Value(bytes: Bytes)

  type Row = seq<Field>

  function WriteField(value: Bytes): Bytes { BigEndian(|value|, 4) + value }

  function ReadField(b: Bytes): Option<(Field, Bytes)> {
    if |b| < 4 then None
    else if b[..4] == [255, 255, 255, 255] then Some((Null, b[4..]))
    else
      var length := Number(b[..4]);
      if length > MAX_I32 || 4 + length > |b| then None else Some((Value(b[4..4 + length]), b[4 + length..]))
  }

  function ReadFields(b: Bytes, count: nat): (r: Option<(Row, Bytes)>)
    ensures r.Some? ==> |r.value.1| <= |b|
    decreases count
  {
    if count == 0 then Some(([], b))
    else
      match ReadField(b)
      case None => None
      case Some(head) =>
        match ReadFields(head.1, count - 1)
        case None => None
        case Some(tail) => Some(([head.0] + tail.0, tail.1))
  }

  /** The tuples up to the trailer, which ends the stream. */
  function ReadTuples(b: Bytes): Option<seq<Row>>
    decreases |b|
  {
    if |b| < 2 then None
    else if b[..2] == TRAILER then if |b| == 2 then Some([]) else None
    else
      match ReadFields(b[2..], Number(b[..2]))
      case None => None
      case Some(first) =>
        match ReadTuples(first.1)
        case None => None
        case Some(rest) => Some([first.0] + rest)
  }

  /** What the server reads from a COPY stream. */
  function DecodeCopy(b: Bytes): Option<seq<Row>> {
    if |b| < |HEADER| || b[..|HEADER|] != HEADER then None else ReadTuples(b[|HEADER|..])
  }

  /** The three identifiers every row repeats. */
  datatype Owner = Owner(segment: Bytes, contentObject: Bytes, volume: Bytes) {
    predicate Valid() { |segment| == |contentObject| == |volume| == 16 }
  }

  function WriteBlock(owner: Owner, ordinal: nat, block: Block): Bytes {
    BigEndian(7, 2) + WriteField(owner.segment) + WriteField(owner.contentObject) + WriteField(owner.volume) +
    WriteField(BigEndian(ordinal, 8)) + WriteField(BigEndian(block.offset, 8)) + WriteField(BigEndian(block.firstLine, 8)) +
    WriteField(block.body)
  }

  /** The rows of blocks numbered from `ordinal` on. */
  function WriteBlocksFrom(owner: Owner, ordinal: nat, blocks: seq<Block>): Bytes
    decreases |blocks|
  {
    if blocks == [] then [] else WriteBlock(owner, ordinal, blocks[0]) + WriteBlocksFrom(owner, ordinal + 1, blocks[1..])
  }

  function BlockRow(owner: Owner, ordinal: nat, block: Block): Row {
    [Value(owner.segment), Value(owner.contentObject), Value(owner.volume),
     Value(BigEndian(ordinal, 8)), Value(BigEndian(block.offset, 8)), Value(BigEndian(block.firstLine, 8)), Value(block.body)]
  }

  function BlockRows(owner: Owner, ordinal: nat, blocks: seq<Block>): seq<Row>
    decreases |blocks|
  {
    if blocks == [] then [] else [BlockRow(owner, ordinal, blocks[0])] + BlockRows(owner, ordinal + 1, blocks[1..])
  }

  lemma LengthField(n: nat)
    requires n <= MAX_I32
    ensures BigEndian(n, 4) != [255, 255, 255, 255] && Number(BigEndian(n, 4)) == n
  {
    assert Capacity(4) == 0x1_0000_0000 by { assert Capacity(3) == 0x100_0000; }
    NumberOfBigEndian(n, 4);
    var ones: Bytes := [255, 255, 255, 255];
    assert DropLast(ones) == [255, 255, 255] && DropLast([255, 255, 255]) == [255, 255] && DropLast([255, 255]) == [255];
    assert Number([255, 255, 255]) == 0xFF_FFFF by { assert DropLast([255]) == []; }
    assert Number(ones) == 0xFFFF_FFFF;
  }

  lemma FieldRoundTrip(value: Bytes, rest: Bytes)
    requires |value| <= MAX_I32
    ensures ReadField(WriteField(value) + rest) == Some((Value(value), rest))
  {
    hide BigEndian, Number;
    LengthField(|value|);
    var b := WriteField(value) + rest;
    assert b[..4] == BigEndian(|value|, 4);
    assert b[4..4 + |value|] == value && b[4 + |value|..] == rest;
  }

  function WriteFields(values: seq<Bytes>): Bytes {
    if values == [] then [] else WriteField(values[0]) + WriteFields(values[1..])
  }

  function Values(values: seq<Bytes>): Row { seq(|values|, i requires 0 <= i < |values| => Value(values[i])) }

  lemma {:induction false} FieldsRoundTrip(values: seq<Bytes>, rest: Bytes)
    requires forall i :: 0 <= i < |values| ==> |values[i]| <= MAX_I32
    ensures ReadFields(WriteFields(values) + rest, |values|) == Some((Values(values), rest))
    decreases |values|
  {
    hide ReadField, WriteField;
    if values == [] {
      assert WriteFields(values) + rest == rest;
    } else {
      AppendAssociates(WriteField(values[0]), WriteFields(values[1..]), rest);
      FieldRoundTrip(values[0], WriteFields(values[1..]) + rest);
      FieldsRoundTrip(values[1..], rest);
      assert Values(values) == [Value(values[0])] + Values(values[1..]);
    }
  }

  function BlockValues(owner: Owner, ordinal: nat, block: Block): (r: seq<Bytes>)
    ensures |r| == 7
  {
    [owner.segment, owner.contentObject, owner.volume, BigEndian(ordinal, 8), BigEndian(block.offset, 8), BigEndian(block.firstLine, 8), block.body]
  }

  lemma {:induction false} WriteFieldsAppend(a: seq<Bytes>, b: seq<Bytes>)
    ensures WriteFields(a + b) == WriteFields(a) + WriteFields(b)
  {
    hide WriteField;
    if a == [] {
      assert a + b == b;
    } else {
      WriteFieldsAppend(a[1..], b);
      assert (a + b)[1..] == a[1..] + b;
      AppendAssociates(WriteField(a[0]), WriteFields(a[1..]), WriteFields(b));
    }
  }

  lemma OneField(value: Bytes)
    ensures WriteFields([value]) == WriteField(value)
  {
    hide WriteField;
    assert [value][1..] == [];
  }

  lemma OneMoreField(values: seq<Bytes>, value: Bytes)
    ensures WriteFields(values + [value]) == WriteFields(values) + WriteField(value)
  {
    hide WriteFields, WriteField;
    WriteFieldsAppend(values, [value]);
    OneField(value);
  }

  lemma SevenFields(a: Bytes, b: Bytes, c: Bytes, d: Bytes, e: Bytes, f: Bytes, g: Bytes)
    ensures WriteFields([a, b, c, d, e, f, g]) ==
            WriteField(a) + WriteField(b) + WriteField(c) + WriteField(d) + WriteField(e) + WriteField(f) + WriteField(g)
  {
    hide WriteField, WriteFields;
    OneField(a);
    OneMoreField([a], b);
    assert [a] + [b] == [a, b];
    OneMoreField([a, b], c);
    assert [a, b] + [c] == [a, b, c];
    OneMoreField([a, b, c], d);
    assert [a, b, c] + [d] == [a, b, c, d];
    OneMoreField([a, b, c, d], e);
    assert [a, b, c, d] + [e] == [a, b, c, d, e];
    OneMoreField([a, b, c, d, e], f);
    assert [a, b, c, d, e] + [f] == [a, b, c, d, e, f];
    OneMoreField([a, b, c, d, e, f], g);
    assert [a, b, c, d, e, f] + [g] == [a, b, c, d, e, f, g];
  }

  lemma WriteBlockIsFields(owner: Owner, ordinal: nat, block: Block)
    ensures WriteBlock(owner, ordinal, block) == BigEndian(7, 2) + WriteFields(BlockValues(owner, ordinal, block))
    ensures BlockRow(owner, ordinal, block) == Values(BlockValues(owner, ordinal, block))
  {
    hide WriteField, BigEndian;
    SevenFields(owner.segment, owner.contentObject, owner.volume, BigEndian(ordinal, 8), BigEndian(block.offset, 8), BigEndian(block.firstLine, 8), block.body);
    var s := BlockValues(owner, ordinal, block);
    assert BlockRow(owner, ordinal, block) == Values(s);
    assert WriteBlock(owner, ordinal, block) == BigEndian(7, 2) + WriteFields(s);
  }

  lemma FieldCount()
    ensures BigEndian(7, 2) == [0, 7] && Number([0, 7]) == 7
  {
    assert BigEndian(0, 1) == BigEndian(0, 0) + [0] == [0];
    assert BigEndian(7, 2) == BigEndian(7 / 256, 1) + [7 % 256];
    var b: Bytes := [0, 7];
    assert DropLast(b) == [0] && Last(b) == 7;
    assert DropLast(b[..1]) == [] && Number(b[..1]) == 0;
  }

  lemma TupleRoundTrip(owner: Owner, ordinal: nat, block: Block, rest: Bytes)
    requires owner.Valid() && |block.body| <= MAX_I32
    ensures ReadTuples(WriteBlock(owner, ordinal, block) + rest) ==
            match ReadTuples(rest) case None => None case Some(rows) => Some([BlockRow(owner, ordinal, block)] + rows)
  {
    hide WriteField, BigEndian, ReadFields, WriteFields, Number, BlockRow, WriteBlock;
    var values := BlockValues(owner, ordinal, block);
    WriteBlockIsFields(owner, ordinal, block);
    FieldCount();
    FieldsRoundTrip(values, rest);
    var b := WriteBlock(owner, ordinal, block) + rest;
    assert b[..2] == [0, 7] && b[2..] == WriteFields(values) + rest;
    assert [0, 7][1] != TRAILER[1];
  }

  lemma {:induction false} TuplesRoundTrip(owner: Owner, ordinal: nat, blocks: seq<Block>)
    requires owner.Valid() && forall i :: 0 <= i < |blocks| ==> |blocks[i].body| <= MAX_I32
    ensures ReadTuples(WriteBlocksFrom(owner, ordinal, blocks) + TRAILER) == Some(BlockRows(owner, ordinal, blocks))
    decreases |blocks|
  {
    hide WriteBlock, BlockRow;
    if blocks == [] {
      assert WriteBlocksFrom(owner, ordinal, blocks) + TRAILER == TRAILER && TRAILER[..2] == TRAILER;
    } else {
      var rest := WriteBlocksFrom(owner, ordinal + 1, blocks[1..]);
      AppendAssociates(WriteBlock(owner, ordinal, blocks[0]), rest, TRAILER);
      TuplesRoundTrip(owner, ordinal + 1, blocks[1..]);
      TupleRoundTrip(owner, ordinal, blocks[0], rest + TRAILER);
    }
  }

  // ---- Lines ----

  predicate LineStart(data: Bytes, p: nat)
    requires p <= |data|
  {
    p == 0 || data[p - 1] == NEWLINE
  }

  /** The end of the line that starts at `p`, its terminator included. */
  function LineEnd(data: Bytes, p: nat): (end: nat)
    requires p <= |data|
    ensures p <= end <= |data| && (p < |data| ==> p < end)
  {
    Min(NewlineFrom(data, p) + 1, |data|)
  }

  /** No line that starts before `upto` is longer than `max` bytes with its terminator. */
  predicate LinesFitUpTo(data: Bytes, max: nat, upto: nat)
    requires upto <= |data|
  {
    forall p :: 0 <= p < upto && LineStart(data, p) ==> LineEnd(data, p) - p <= max
  }

  /** What the importer accepts. */
  predicate Importable(data: Bytes) {
    ValidUtf8(data) && 0 !in data && LinesFitUpTo(data, MAX_LINE, |data|)
  }

  /** Bytes up to and including the next newline, but at most `limit` of them. */
  function TakeLine(data: Bytes, at: nat, limit: nat): Bytes
    requires at <= |data|
  {
    data[at..Min(LineEnd(data, at), at + limit)]
  }

  lemma {:induction false} NoNewlines(b: Bytes)
    requires forall i :: 0 <= i < |b| ==> b[i] != NEWLINE
    ensures CountNewlines(b) == 0
  {
    if b != [] { NoNewlines(b[1..]); }
  }

  /** A line holds one newline, its last byte, unless the text ends without one. */
  lemma WholeLine(data: Bytes, at: nat)
    requires at < |data|
    ensures var end := LineEnd(data, at);
            && (end == |data| || LineStart(data, end))
            && (CountNewlines(data[at..end]) == 1 || end == |data|)
            && forall p :: at < p < end ==> !LineStart(data, p)
  {
    var i, end := NewlineFrom(data, at), LineEnd(data, at);
    NewlineFromIsFirst(data, at);
    if i < |data| {
      assert data[at..end] == data[at..i] + [NEWLINE];
      NoNewlines(data[at..i]);
      CountNewlinesAppend(data[at..i], [NEWLINE]);
      assert [NEWLINE][1..] == [];
    }
  }

  lemma {:induction false} NewlineFromLater(data: Bytes, a: nat, b: nat)
    requires a <= |data| && a <= b <= NewlineFrom(data, a)
    ensures b <= |data| && NewlineFrom(data, b) == NewlineFrom(data, a)
    decreases b - a
  {
    if a < b { NewlineFromLater(data, a + 1, b); }
  }

  /** Reading whole lines until the block is full stops where the splitter cuts. */
  lemma LinesReachCut(data: Bytes, start: nat, p: nat)
    requires start <= p < |data| && p - start < BLOCK_SIZE
    ensures LineEnd(data, p) - start >= BLOCK_SIZE ==> CutEnd(data, BLOCK_SIZE - 1, start) == LineEnd(data, p)
    ensures LineEnd(data, p) == |data| && |data| - start < BLOCK_SIZE ==> CutEnd(data, BLOCK_SIZE - 1, start) == |data|
  {
    hide NewlineFrom;
    if LineEnd(data, p) - start >= BLOCK_SIZE {
      NewlineFromLater(data, p, start + BLOCK_SIZE - 1);
    }
  }

  lemma {:induction false} LineStartUpTo(data: Bytes, start: nat, i: nat) returns (p: nat)
    requires start <= i <= |data| && LineStart(data, start)
    ensures start <= p <= i && LineStart(data, p) && forall q :: p <= q < i ==> data[q] != NEWLINE
    decreases i
  {
    if LineStart(data, i) { return i; }
    p := LineStartUpTo(data, start, i - 1);
  }

  /** The longest body: a block is cut after the first line that fills it. */
  lemma CutIsBounded(data: Bytes, start: nat)
    requires start < |data| && LineStart(data, start) && LinesFitUpTo(data, MAX_LINE, |data|)
    ensures CutEnd(data, BLOCK_SIZE - 1, start) - start <= BLOCK_SIZE - 1 + MAX_LINE
  {
    var cut := start + BLOCK_SIZE - 1;
    if cut < |data| {
      var p := LineStartUpTo(data, start, cut);
      NoNewlineUpTo(data, p, cut);
      NewlineFromLater(data, p, cut);
      hide NewlineFrom;
      assert LineEnd(data, p) - p <= MAX_LINE;
    }
  }

  lemma {:induction false} NoNewlineUpTo(data: Bytes, p: nat, i: nat)
    requires p <= i <= |data| && forall q :: p <= q < i ==> data[q] != NEWLINE
    ensures NewlineFrom(data, p) >= i
    decreases i - p
  {
    if p < i { NoNewlineUpTo(data, p + 1, i); }
  }

  /** Every body is at most 8191 bytes and one longest line, so its length fits its field. */
  lemma {:induction false} BodiesFit(data: Bytes, start: nat, line: nat)
    requires start <= |data| && LinesFitUpTo(data, MAX_LINE, |data|) && (start == |data| || LineStart(data, start))
    ensures var blocks := SplitFrom(data, BLOCK_SIZE - 1, start, line);
            forall i :: 0 <= i < |blocks| ==> |blocks[i].body| <= BLOCK_SIZE - 1 + MAX_LINE <= MAX_I32
    decreases |data| - start
  {
    hide CutEnd, LinesFitUpTo, CountNewlines;
    if start < |data| {
      var end := CutEnd(data, BLOCK_SIZE - 1, start);
      CutIsBounded(data, start);
      var line' := line + CountNewlines(data[start..end]);
      BodiesFit(data, end, line');
      assert SplitFrom(data, BLOCK_SIZE - 1, start, line) ==
             [Block(start, line, data[start..end])] + SplitFrom(data, BLOCK_SIZE - 1, end, line');
    }
  }

  // ---- Decoding the importer's output ----

  lemma {:induction false} BlockRowAt(owner: Owner, ordinal: nat, blocks: seq<Block>, i: nat)
    requires i < |blocks|
    ensures |BlockRows(owner, ordinal, blocks)| == |blocks|
    ensures BlockRows(owner, ordinal, blocks)[i] == BlockRow(owner, ordinal + i, blocks[i])
    decreases |blocks|
  {
    hide BlockRow;
    if i > 0 {
      BlockRowAt(owner, ordinal + 1, blocks[1..], i - 1);
    } else if |blocks| > 1 {
      BlockRowAt(owner, ordinal + 1, blocks[1..], 0);
    }
  }

  /** A decoded row carries exactly its block. */
  predicate RowIs(row: Row, owner: Owner, ordinal: nat, block: Block) {
    && |row| == 7 && (forall i :: 0 <= i < 7 ==> row[i].Value?)
    && row[0].bytes == owner.segment && row[1].bytes == owner.contentObject && row[2].bytes == owner.volume
    && |row[3].bytes| == 8 && Number(row[3].bytes) == ordinal
    && |row[4].bytes| == 8 && Number(row[4].bytes) == block.offset
    && |row[5].bytes| == 8 && Number(row[5].bytes) == block.firstLine
    && row[6].bytes == block.body
  }

  lemma EightBytes(n: nat)
    requires n <= MAX_I64
    ensures Number(BigEndian(n, 8)) == n
  {
    assert Capacity(4) == 0x1_0000_0000 by { assert Capacity(2) == 0x1_0000; }
    assert Capacity(6) == 0x1_0000_0000_0000 by { assert Capacity(5) == Capacity(4) * 256; }
    assert Capacity(8) == Capacity(7) * 256 == Capacity(6) * 256 * 256;
    NumberOfBigEndian(n, 8);
  }

  lemma RowMeansBlock(owner: Owner, ordinal: nat, block: Block)
    requires ordinal <= MAX_I64 && block.offset <= MAX_I64 && block.firstLine <= MAX_I64
    ensures RowIs(BlockRow(owner, ordinal, block), owner, ordinal, block)
  {
    hide BigEndian, Number;
    EightBytes(ordinal);
    EightBytes(block.offset);
    EightBytes(block.firstLine);
  }

  lemma {:induction false} CountBound(b: Bytes)
    ensures CountNewlines(b) <= |b|
  {
    if b != [] { CountBound(b[1..]); }
  }

  /** Ordinals, offsets and line numbers stay within the text's length. */
  lemma {:induction false} NumbersFit(data: Bytes, start: nat, line: nat)
    requires start <= |data|
    ensures var blocks := SplitFrom(data, BLOCK_SIZE - 1, start, line);
            && |blocks| <= |data| - start
            && forall i :: 0 <= i < |blocks| ==> blocks[i].offset < |data| && blocks[i].firstLine <= line + |data| - start
    decreases |data| - start
  {
    hide CutEnd, CountNewlines;
    if start < |data| {
      var end := CutEnd(data, BLOCK_SIZE - 1, start);
      var line' := line + CountNewlines(data[start..end]);
      CountBound(data[start..end]);
      NumbersFit(data, end, line');
      assert SplitFrom(data, BLOCK_SIZE - 1, start, line) ==
             [Block(start, line, data[start..end])] + SplitFrom(data, BLOCK_SIZE - 1, end, line');
    }
  }

  /** The importer's output for a text. */
  function CopyStream(owner: Owner, data: Bytes): Bytes {
    HEADER + WriteBlocksFrom(owner, 0, SplitText(data, BLOCK_SIZE - 1)) + TRAILER
  }

  lemma HeaderThen(rest: Bytes)
    ensures DecodeCopy(HEADER + rest) == ReadTuples(rest)
  {
    hide ReadTuples;
    assert (HEADER + rest)[..|HEADER|] == HEADER && (HEADER + rest)[|HEADER|..] == rest;
  }

  /** Decoding the importer's output gives one row per block: its bodies concatenate to the text,
      with exact ordinals, offsets and first lines, and every length fits its field. */
  lemma DecodedRowsAreBlocks(owner: Owner, data: Bytes)
    requires owner.Valid() && Importable(data) && |data| < MAX_I64
    ensures var blocks := SplitText(data, BLOCK_SIZE - 1);
            && Partitions(blocks, data, BLOCK_SIZE - 1, 0, 1)
            && DecodeCopy(CopyStream(owner, data)).Some?
            && var rows := DecodeCopy(CopyStream(owner, data)).value;
            && |rows| == |blocks|
            && forall i :: 0 <= i < |rows| ==>
                 RowIs(rows[i], owner, i, blocks[i]) && |blocks[i].body| <= BLOCK_SIZE - 1 + MAX_LINE
  {
    hide SplitFrom, WriteBlocksFrom, BlockRows, BlockRow, RowIs, ReadTuples, DecodeCopy, ValidUtf8, LinesFitUpTo, Partitions, LineAligned;
    var blocks := SplitText(data, BLOCK_SIZE - 1);
    SplitTextPartitions(data, BLOCK_SIZE - 1);
    BodiesFit(data, 0, 1);
    NumbersFit(data, 0, 1);
    TuplesRoundTrip(owner, 0, blocks);
    AppendAssociates(HEADER, WriteBlocksFrom(owner, 0, blocks), TRAILER);
    HeaderThen(WriteBlocksFrom(owner, 0, blocks) + TRAILER);
    var rows := BlockRows(owner, 0, blocks);
    if blocks == [] { NoRows(owner); } else { BlockRowAt(owner, 0, blocks, 0); }
    forall i | 0 <= i < |blocks| ensures i < |rows| && RowIs(rows[i], owner, i, blocks[i]) {
      BlockRowAt(owner, 0, blocks, i);
      RowMeansBlock(owner, i, blocks[i]);
    }
  }

  lemma NoRows(owner: Owner)
    ensures BlockRows(owner, 0, []) == []
  {
  }

  /** The block a decoded row stands for. */
  function RowBlock(row: Row): Block {
    if |row| == 7 && (forall i :: 0 <= i < 7 ==> row[i].Value?) then
      Block(Number(row[4].bytes), Number(row[5].bytes), row[6].bytes)
    else Block(0, 0, [])
  }

  /** The blocks the server stores from a COPY stream. */
  function StoredBlocks(stream: Bytes): seq<Block> {
    match DecodeCopy(stream)
    case None => []
    case Some(rows) => seq(|rows|, i requires 0 <= i < |rows| => RowBlock(rows[i]))
  }

  lemma RowIsItsBlock(row: Row, owner: Owner, ordinal: nat, block: Block)
    requires RowIs(row, owner, ordinal, block)
    ensures RowBlock(row) == block
  {
    hide Number;
  }

  /** The server stores exactly the blocks of the text. */
  lemma StoredBlocksAreSplit(owner: Owner, data: Bytes)
    requires owner.Valid() && Importable(data) && |data| < MAX_I64
    ensures StoredBlocks(CopyStream(owner, data)) == SplitText(data, BLOCK_SIZE - 1)
  {
    hide SplitText, CopyStream, DecodeCopy, RowBlock, RowIs, Importable, Partitions;
    DecodedRowsAreBlocks(owner, data);
    var blocks, rows := SplitText(data, BLOCK_SIZE - 1), DecodeCopy(CopyStream(owner, data)).value;
    forall i | 0 <= i < |rows| ensures RowBlock(rows[i]) == blocks[i] {
      RowIsItsBlock(rows[i], owner, i, blocks[i]);
    }
  }

  // ---- The importer ----

  datatype ImportError = LineTooLong | NotUtf8 | HasNul

  lemma LongLine(data: Bytes, at: nat)
    requires at < |data| && LineStart(data, at) && LineEnd(data, at) - at > MAX_LINE
    ensures !Importable(data)
  {
  }

  lemma FitsNext(data: Bytes, at: nat)
    requires at < |data| && LinesFitUpTo(data, MAX_LINE, at) && LineEnd(data, at) - at <= MAX_LINE
    ensures LinesFitUpTo(data, MAX_LINE, LineEnd(data, at))
  {
    WholeLine(data, at);
    hide LineEnd, CountNewlines;
  }

  /** A block that is not clean makes the text unacceptable; a clean one extends the clean part. */
  lemma CleanBlock(data: Bytes, start: nat, end: nat)
    requires start < end <= |data| && (start == 0 || data[start - 1] == NEWLINE) && (end == |data| || data[end - 1] == NEWLINE)
    requires ValidUtf8(data[..start]) && 0 !in data[..start]
    ensures !ValidUtf8(data[start..end]) || 0 in data[start..end] ==> !Importable(data)
    ensures ValidUtf8(data[start..end]) && 0 !in data[start..end] ==> ValidUtf8(data[..end]) && 0 !in data[..end]
  {
    hide ValidUtf8, LinesFitUpTo;
    assert data[..start] + data[start..] == data && data[start..end] + data[end..] == data[start..];
    assert data[..start] + data[start..end] == data[..end];
    ValidAcrossAsciiCut(data[..start], data[start..]);
    ValidAcrossAsciiCut(data[..start], data[start..end]);
    EmptyIsValid();
    if end < |data| {
      ValidAcrossAsciiCut(data[start..end], data[end..]);
    } else {
      assert data[start..end] == data[start..];
    }
  }

  /** The blocks still to be written. */
  function Remaining(owner: Owner, ordinal: nat, data: Bytes, at: nat, line: nat): Bytes
    requires at <= |data|
  {
    WriteBlocksFrom(owner, ordinal, SplitFrom(data, BLOCK_SIZE - 1, at, line))
  }

  lemma RemainingNext(owner: Owner, ordinal: nat, data: Bytes, at: nat, line: nat, end: nat)
    requires at < |data| && end == CutEnd(data, BLOCK_SIZE - 1, at)
    ensures Remaining(owner, ordinal, data, at, line) ==
            WriteBlock(owner, ordinal, Block(at, line, data[at..end])) +
            Remaining(owner, ordinal + 1, data, end, line + CountNewlines(data[at..end]))
  {
    hide WriteBlock, CountNewlines, CutEnd;
    var b, rest := Block(at, line, data[at..end]), SplitFrom(data, BLOCK_SIZE - 1, end, line + CountNewlines(data[at..end]));
    assert SplitFrom(data, BLOCK_SIZE - 1, at, line) == [b] + rest;
    assert ([b] + rest)[1..] == rest;
  }

  lemma NothingRemains(owner: Owner, ordinal: nat, data: Bytes, line: nat)
    ensures Remaining(owner, ordinal, data, |data|, line) == []
  {
  }

  /** `write_all` of one length-prefixed field. */
  method AppendField(sink: Bytes, value: Bytes) returns (r: Bytes)
    requires |value| <= MAX_I32
    ensures r == sink + WriteField(value)
  {
    r := sink + BigEndian(|value|, 4);
    r := r + value;
  }

  method AppendBlock(sink: Bytes, owner: Owner, ordinal: nat, offset: nat, firstLine: nat, block: Bytes) returns (r: Bytes)
    requires owner.Valid() && |block| <= MAX_I32
    ensures r == sink + WriteBlock(owner, ordinal, Block(offset, firstLine, block))
  {
    hide WriteField, BigEndian;
    r := sink + BigEndian(7, 2);
    r := AppendField(r, owner.segment);
    r := AppendField(r, owner.contentObject);
    r := AppendField(r, owner.volume);
    r := AppendField(r, BigEndian(ordinal, 8));
    r := AppendField(r, BigEndian(offset, 8));
    r := AppendField(r, BigEndian(firstLine, 8));
    r := AppendField(r, block);
  }

  /** Whole lines are read until the block is full or the text ends. */
  method ReadBlock(data: Bytes, start: nat) returns (r: Result<Bytes, ImportError>, lines: nat)
    requires start <= |data| && (start == |data| || LineStart(data, start)) && LinesFitUpTo(data, MAX_LINE, start)
    ensures r.Failure? ==> !Importable(data)
    ensures r.Success? && start == |data| ==> r.value == []
    ensures r.Success? && start < |data| ==>
              var end := CutEnd(data, BLOCK_SIZE - 1, start);
              && r.value == data[start..end] && |r.value| <= BLOCK_SIZE - 1 + MAX_LINE
              && LinesFitUpTo(data, MAX_LINE, end)
              && (lines == CountNewlines(r.value) || end == |data|)
  {
    hide NewlineFrom, CutEnd, CountNewlines, LinesFitUpTo, Importable;
    var block: Bytes, at := [], start;
    lines := 0;
    assert CountNewlines([]) == 0 by { NoNewlines([]); }
    while |block| < BLOCK_SIZE
      invariant start <= at <= |data| && block == data[start..at]
      invariant at == |data| || LineStart(data, at)
      invariant LinesFitUpTo(data, MAX_LINE, at)
      invariant |block| <= BLOCK_SIZE - 1 + MAX_LINE
      invariant at > start && (|block| >= BLOCK_SIZE || at == |data|) ==> at == CutEnd(data, BLOCK_SIZE - 1, start)
      invariant lines == CountNewlines(block) || at == |data|
      decreases |data| - at
    {
      var line := TakeLine(data, at, MAX_LINE + 1);
      if |line| > MAX_LINE {
        LongLine(data, at);
        return Failure(LineTooLong), lines;
      }
      if line == [] {
        break;
      }
      WholeLine(data, at);
      FitsNext(data, at);
      LinesReachCut(data, start, at);
      var next := at + |line|;
      assert line == data[at..next] && next == LineEnd(data, at);
      CountNewlinesAppend(block, line);
      assert data[start..at] + data[at..next] == data[start..next];
      block := block + line;
      at := next;
      lines := lines + 1;
    }
    r := Success(block);
  }

  /** `write_blocks`: it accepts exactly the clean texts with short enough lines, and then returns
      their size and the stream that decodes to their blocks. */
  method WriteBlocks(data: Bytes, owner: Owner) returns (r: Result<nat, ImportError>, sink: Bytes)
    requires owner.Valid() && |data| < MAX_I64
    ensures r.Success? <==> Importable(data)
    ensures r.Success? ==> r.value == |data| && sink == CopyStream(owner, data)
  {
    hide WriteBlock, CutEnd, CountNewlines, LinesFitUpTo, ValidUtf8, Remaining;
    sink := HEADER;
    var at: nat, ordinal: nat, offset: nat, firstLine: nat := 0, 0, 0, 1;
    assert LinesFitUpTo(data, MAX_LINE, 0) by { NothingToFit(data); }
    EmptyIsValid();
    assert CopyStream(owner, data) == HEADER + Remaining(owner, 0, data, 0, 1) + TRAILER by { RemainingAll(owner, data); }
    while true
      invariant at == offset <= |data| && (at == |data| || LineStart(data, at))
      invariant LinesFitUpTo(data, MAX_LINE, at) && ValidUtf8(data[..at]) && 0 !in data[..at]
      invariant sink + Remaining(owner, ordinal, data, at, firstLine) + TRAILER == CopyStream(owner, data)
      decreases |data| - at
    {
      var block, lines := ReadBlock(data, at);
      if block.Failure? {
        return Failure(block.error), sink;
      }
      if block.value == [] {
        break;
      }
      var end := at + |block.value|;
      assert end == CutEnd(data, BLOCK_SIZE - 1, at) && block.value == data[at..end];
      CleanBlock(data, at, end);
      if !ValidUtf8(block.value) {
        return Failure(ImportError.NotUtf8), sink;
      }
      if 0 in block.value {
        return Failure(HasNul), sink;
      }
      RemainingNext(owner, ordinal, data, at, firstLine, end);
      LastLineFree(owner, ordinal + 1, data, firstLine + lines, firstLine + CountNewlines(block.value));
      ghost var before := sink;
      sink := AppendBlock(sink, owner, ordinal, offset, firstLine, block.value);
      AppendAssociates(before, WriteBlock(owner, ordinal, Block(at, firstLine, block.value)),
                       Remaining(owner, ordinal + 1, data, end, firstLine + CountNewlines(block.value)));
      ordinal := ordinal + 1;
      offset := offset + |block.value|;
      firstLine := firstLine + lines;
      at := end;
    }
    NothingRemains(owner, ordinal, data, firstLine);
    assert data[..at] == data && sink + [] == sink;
    sink := sink + TRAILER;
    r := Success(offset);
  }

  lemma NothingToFit(data: Bytes)
    ensures LinesFitUpTo(data, MAX_LINE, 0)
  {
  }

  lemma RemainingAll(owner: Owner, data: Bytes)
    ensures Remaining(owner, 0, data, 0, 1) == WriteBlocksFrom(owner, 0, SplitText(data, BLOCK_SIZE - 1))
  {
  }

  /** Once nothing remains the line number no longer matters. */
  lemma LastLineFree(owner: Owner, ordinal: nat, data: Bytes, a: nat, b: nat)
    ensures Remaining(owner, ordinal, data, |data|, a) == Remaining(owner, ordinal, data, |data|, b)
  {
  }
}
