/** The candidate rows a search asks the database for, and why matching only them gives the answer
    of plain grep. */
module Search {
  import opened Basics
  import opened Patterns
  import opened Utf8
  import opened Blocks
  import opened Grep
  import opened Queries

  /** A text file as the search sees it: where it is, its blocks, and the segment they are in. */
  datatype SearchFile = SearchFile(path: string, blocks: seq<Block>, segment: Option<nat>)

  /** A candidate row; `number` tells the lines of one block apart. */
  datatype HitRow = HitRow(path: string, ordinal: nat, number: nat, firstLine: nat, body: Bytes)

  /** What the client may ask for: no filter, or literals of which every match contains one. */
  type Literals = Option<seq<Bytes>>

  /** The matcher accepts no line without one of the literals, and no literal is empty. */
  ghost predicate Required(m: LineMatcher, literals: seq<Bytes>) {
    && (forall line: Bytes :: m(line) ==> exists i :: 0 <= i < |literals| && Contains(line, literals[i]))
    && forall i :: 0 <= i < |literals| ==> literals[i] != []
  }

  // ---- The three shapes of candidate rows ----

  /** A whole block. */
  function BlockRow(file: SearchFile, i: nat): HitRow
    requires i < |file.blocks|
  {
    HitRow(file.path, i, 0, file.blocks[i].firstLine, file.blocks[i].body)
  }

  /** Which blocks of a file come back whole: all of them, those that match one of the patterns, or
      none when there is no pattern. */
  predicate MatchesSome(body: Bytes, patterns: Option<seq<Bytes>>) {
    patterns.None? || exists i :: 0 <= i < |patterns.value| && Like(body, patterns.value[i], BYTES)
  }

  /** `strpos(body, literal) > 0`. */
  predicate StrposFinds(body: Bytes, literal: Bytes) { FindIn(body, literal) }

  datatype Route =
    | Pruned(literal: Bytes, segments: set<nat>)
    | SingleNeedle(pattern: Bytes)
    | ManyNeedles(patterns: Option<seq<Bytes>>)

  /** The block passes the WHERE clause of the route. */
  predicate Passes(route: Route, file: SearchFile, i: nat)
    requires i < |file.blocks|
  {
    var body := file.blocks[i].body;
    match route
    case Pruned(literal, segments) => (file.segment.None? || file.segment.value in segments) && StrposFinds(body, literal)
    case SingleNeedle(pattern) => Like(body, pattern, BYTES)
    case ManyNeedles(patterns) => MatchesSome(body, patterns)
  }

  /** `string_to_table(body, E'\n')`: the text between newlines. */
  function Fields(text: Bytes): (r: seq<Bytes>)
    ensures |r| >= 1
    decreases |text|
  {
    var i := NewlineFrom(text, 0);
    if i == |text| then [text] else [text[..i]] + Fields(text[i + 1..])
  }

  /** The row of one line of a block, its terminator put back. */
  function LineRow(file: SearchFile, i: nat, n: nat, field: Bytes): HitRow
    requires i < |file.blocks|
  {
    HitRow(file.path, i, n + 1, file.blocks[i].firstLine + n, field + [NEWLINE])
  }

  /** The matching lines of a block from its `n`th on. */
  function LineRows(file: SearchFile, i: nat, pattern: Bytes, fields: seq<Bytes>, n: nat): seq<HitRow>
    requires i < |file.blocks| && n <= |fields|
    decreases |fields| - n
  {
    if n == |fields| then []
    else
      (if Like(fields[n], pattern, BYTES) then [LineRow(file, i, n, fields[n])] else [])
      + LineRows(file, i, pattern, fields, n + 1)
  }

  /** The candidate rows of one block. */
  function RowsOfBlock(route: Route, file: SearchFile, i: nat): seq<HitRow>
    requires i < |file.blocks|
  {
    if !Passes(route, file, i) || file.blocks[i].body == [] then []
    else if route.SingleNeedle? then LineRows(file, i, route.pattern, Fields(file.blocks[i].body), 0)
    else [BlockRow(file, i)]
  }

  /** The candidate rows of a file from its `i`th block on, in order. */
  function RowsOfFile(route: Route, file: SearchFile, i: nat): seq<HitRow>
    requires i <= |file.blocks|
    decreases |file.blocks| - i
  {
    if i == |file.blocks| then [] else RowsOfBlock(route, file, i) + RowsOfFile(route, file, i + 1)
  }

  function RowsOfFiles(route: Route, files: seq<SearchFile>): seq<HitRow> {
    if files == [] then [] else RowsOfFile(route, files[0], 0) + RowsOfFiles(route, files[1..])
  }

  // ---- What the client makes of the rows ----

  /** The prefix of a row's lines. */
  function RowStyle(lineNumbers: bool, pathPrefix: Bytes, path: string): Style {
    Style(lineNumbers, Label(pathPrefix, EncodeText(path)))
  }

  /** `grep_regex_output`: each row is searched by itself. */
  function RowsOutput(m: LineMatcher, lineNumbers: bool, pathPrefix: Bytes, rows: seq<HitRow>): Bytes {
    if rows == [] then []
    else
      GrepText(m, RowStyle(lineNumbers, pathPrefix, rows[0].path), rows[0].firstLine, rows[0].body)
      + RowsOutput(m, lineNumbers, pathPrefix, rows[1..])
  }

  predicate FoundInRows(m: LineMatcher, rows: seq<HitRow>) { exists i :: 0 <= i < |rows| && Found(m, rows[i].body) }

  lemma {:induction false} RowsOutputAppend(m: LineMatcher, lineNumbers: bool, pathPrefix: Bytes, a: seq<HitRow>, b: seq<HitRow>)
    ensures RowsOutput(m, lineNumbers, pathPrefix, a + b) ==
            RowsOutput(m, lineNumbers, pathPrefix, a) + RowsOutput(m, lineNumbers, pathPrefix, b)
    ensures FoundInRows(m, a + b) <==> FoundInRows(m, a) || FoundInRows(m, b)
    decreases |a|
  {
    hide GrepText, Found, RowStyle;
    if a == [] {
      assert a + b == b;
    } else {
      assert (a + b)[0] == a[0] && (a + b)[1..] == a[1..] + b;
      RowsOutputAppend(m, lineNumbers, pathPrefix, a[1..], b);
      AppendAssociates(GrepText(m, RowStyle(lineNumbers, pathPrefix, a[0].path), a[0].firstLine, a[0].body),
                       RowsOutput(m, lineNumbers, pathPrefix, a[1..]), RowsOutput(m, lineNumbers, pathPrefix, b));
    }
    FoundSplits(m, a, b);
  }

  lemma FoundSplits(m: LineMatcher, a: seq<HitRow>, b: seq<HitRow>)
    ensures FoundInRows(m, a + b) <==> FoundInRows(m, a) || FoundInRows(m, b)
  {
    hide Found;
    forall i | 0 <= i < |b| ensures (a + b)[|a| + i] == b[i] {}
    forall i | 0 <= i < |a| ensures (a + b)[i] == a[i] {}
    if i :| 0 <= i < |b| && Found(m, b[i].body) { assert Found(m, (a + b)[|a| + i].body); }
    if i :| 0 <= i < |a| && Found(m, a[i].body) { assert Found(m, (a + b)[i].body); }
  }

  lemma OneRow(m: LineMatcher, lineNumbers: bool, pathPrefix: Bytes, row: HitRow)
    ensures RowsOutput(m, lineNumbers, pathPrefix, [row]) == GrepText(m, RowStyle(lineNumbers, pathPrefix, row.path), row.firstLine, row.body)
    ensures FoundInRows(m, [row]) <==> Found(m, row.body)
  {
    hide GrepText, Found, RowStyle;
    var rows := [row];
    assert rows[1..] == [] && rows[0] == row;
  }

  /** `grep_regex_output` over the rows the database streams. */
  method GrepRegexOutput(m: LineMatcher, lineNumbers: bool, pathPrefix: Bytes, rows: seq<HitRow>)
    returns (frames: seq<Bytes>, foundAny: bool)
    ensures Flatten(frames) == RowsOutput(m, lineNumbers, pathPrefix, rows)
    ensures forall i :: 0 <= i < |frames| ==> 0 < |frames[i]| <= FRAME
    ensures foundAny <==> FoundInRows(m, rows)
  {
    hide GrepText, Found, Chunks, Flatten;
    frames, foundAny := [], false;
    FlattenNothing();
    assert rows[..0] == [];
    for i := 0 to |rows|
      invariant Flatten(frames) == RowsOutput(m, lineNumbers, pathPrefix, rows[..i])
      invariant forall j :: 0 <= j < |frames| ==> 0 < |frames[j]| <= FRAME
      invariant foundAny <==> FoundInRows(m, rows[..i])
    {
      var prefix := pathPrefix + EncodeText(rows[i].path) + [COLON];
      var blockOutput, found := SearchPrefixed(m, lineNumbers, rows[i].firstLine, rows[i].body, prefix);
      assert rows[..i + 1] == rows[..i] + [rows[i]];
      RowsOutputAppend(m, lineNumbers, pathPrefix, rows[..i], [rows[i]]);
      OneRow(m, lineNumbers, pathPrefix, rows[i]);
      ChunksJoin(blockOutput, FRAME);
      FlattenAppend(frames, Chunks(blockOutput, FRAME));
      frames := frames + Chunks(blockOutput, FRAME);
      foundAny := foundAny || found;
    }
    assert rows[..|rows|] == rows;
  }

  // ---- Filtering loses nothing ----

  /** A text none of whose lines matches prints nothing. */
  lemma {:induction false} NothingPrintedWithoutMatch(m: LineMatcher, style: Style, first: nat, lines: seq<Bytes>)
    requires forall i :: 0 <= i < |lines| ==> !m(LineBody(lines[i]))
    ensures GrepLines(m, style, first, lines) == [] && !AnyLine(m, lines)
    decreases |lines|
  {
    hide LineBody;
    if lines != [] { NothingPrintedWithoutMatch(m, style, first + 1, lines[1..]); }
  }

  lemma LinesCons(text: Bytes) returns (head: Bytes, tail: Bytes)
    requires text != []
    ensures Lines(text) == [head] + Lines(tail) && text == head + tail && |tail| < |text|
  {
    var end := Min(NewlineFrom(text, 0) + 1, |text|);
    head, tail := text[..end], text[end..];
  }

  /** A line of a text occurs in it. */
  lemma {:induction false} LineInText(text: Bytes, i: nat, needle: Bytes)
    requires i < |Lines(text)| && Contains(LineBody(Lines(text)[i]), needle)
    ensures Contains(text, needle)
    decreases |text|
  {
    assert text != [] by { NoLines(); }
    hide Contains, LineBody, Lines;
    var head, tail := LinesCons(text);
    if i == 0 {
      BodyInLine(head, needle);
    } else {
      LineInText(tail, i - 1, needle);
    }
    ContainsInEither(head, tail, needle);
  }

  lemma NoLines()
    ensures Lines([]) == []
  {
  }

  lemma BodyInLine(line: Bytes, needle: Bytes)
    requires Contains(LineBody(line), needle)
    ensures Contains(line, needle)
  {
    if EndsLine(line) {
      ContainsInMiddle([], DropLast(line), [NEWLINE], needle);
      assert [] + DropLast(line) + [NEWLINE] == line;
    }
  }

  /** A block without any of the literals prints nothing. */
  lemma WithoutLiteralsNothing(m: LineMatcher, literals: seq<Bytes>, style: Style, first: nat, text: Bytes)
    requires Required(m, literals)
    requires forall i :: 0 <= i < |literals| ==> !Contains(text, literals[i])
    ensures GrepText(m, style, first, text) == [] && !Found(m, text)
  {
    hide Lines, GrepLines, Contains, LineBody;
    forall i | 0 <= i < |Lines(text)| ensures !m(LineBody(Lines(text)[i])) {
      if m(LineBody(Lines(text)[i])) {
        var j :| 0 <= j < |literals| && Contains(LineBody(Lines(text)[i]), literals[j]);
        LineInText(text, i, literals[j]);
      }
    }
    NothingPrintedWithoutMatch(m, style, first, Lines(text));
  }

  lemma FindInIsContains(text: Bytes, needle: Bytes)
    ensures FindIn(text, needle) <==> Contains(text, needle)
  {
    if at: nat :| OccursAt(needle, text, at) { assert 0 <= at <= |text|; }
  }

  // ---- Lines as rows ----

  /** Nothing but the end of a text follows its last field. */
  predicate EndsField(text: Bytes) { text == [] || EndsLine(text) }

  /** One field and one line are cut off at each terminator. */
  lemma FieldsStep(text: Bytes)
    requires NewlineFrom(text, 0) < |text|
    ensures var i := NewlineFrom(text, 0); var rest := text[i + 1..];
            && Fields(text) == [text[..i]] + Fields(rest) && Lines(text) == [text[..i + 1]] + Lines(rest)
            && LineBody(text[..i + 1]) == text[..i]
            && (EndsField(text) <==> EndsField(rest)) && |rest| < |text|
  {
    var i := NewlineFrom(text, 0);
    var rest := text[i + 1..];
    assert rest != [] ==> Last(rest) == Last(text);
    assert Last(text[..i + 1]) == NEWLINE && DropLast(text[..i + 1]) == text[..i];
  }

  lemma LastFieldOnly(text: Bytes)
    requires NewlineFrom(text, 0) == |text|
    ensures Fields(text) == [text] && Lines(text) == (if text == [] then [] else [text])
    ensures EndsField(text) <==> text == []
    ensures LineBody(text) == text
  {
    NewlineFromIsFirst(text, 0);
    if text != [] {
      assert text[..|text|] == text && text[|text|..] == [];
    }
  }

  /** The fields of a text are its lines without terminators, and an empty one after the last
      terminator. */
  lemma {:induction false} FieldsAreLines(text: Bytes)
    ensures |Fields(text)| == |Lines(text)| + if EndsField(text) then 1 else 0
    ensures forall i :: 0 <= i < |Lines(text)| ==> Fields(text)[i] == LineBody(Lines(text)[i])
    ensures EndsField(text) ==> Last(Fields(text)) == []
    decreases |text|
  {
    hide Fields, Lines, LineBody, EndsField, NewlineFrom;
    if NewlineFrom(text, 0) < |text| {
      FieldsStep(text);
      FieldsAreLines(text[NewlineFrom(text, 0) + 1..]);
    } else {
      LastFieldOnly(text);
    }
  }

  predicate NoNewline(line: Bytes) { forall i :: 0 <= i < |line| ==> line[i] != NEWLINE }

  lemma {:induction false} FieldHasNoNewline(text: Bytes, i: nat)
    requires i < |Fields(text)|
    ensures NoNewline(Fields(text)[i])
    decreases |text|
  {
    var n := NewlineFrom(text, 0);
    NewlineFromIsFirst(text, 0);
    if n < |text| && i > 0 { FieldHasNoNewline(text[n + 1..], i - 1); }
  }

  lemma {:induction false} NewlineAtEnd(text: Bytes, from: nat)
    requires from < |text| && Last(text) == NEWLINE
    requires forall j :: from <= j < |text| - 1 ==> text[j] != NEWLINE
    ensures NewlineFrom(text, from) == |text| - 1
    decreases |text| - from
  {
    if from < |text| - 1 { NewlineAtEnd(text, from + 1); }
  }

  lemma LineOfField(field: Bytes)
    requires NoNewline(field)
    ensures Lines(field + [NEWLINE]) == [field + [NEWLINE]]
    ensures LineBody(field + [NEWLINE]) == field
  {
    var text := field + [NEWLINE];
    NewlineAtEnd(text, 0);
    assert text[..|text|] == text && text[|text|..] == [];
  }

  /** The row of a line prints what the line itself prints. */
  lemma LineRowPrints(m: LineMatcher, style: Style, number: nat, line: Bytes)
    requires NoNewline(LineBody(line))
    ensures GrepText(m, style, number, LineBody(line) + [NEWLINE]) == if m(LineBody(line)) then Printed(style, number, line) else []
    ensures Found(m, LineBody(line) + [NEWLINE]) <==> m(LineBody(line))
  {
    var field := LineBody(line);
    LineOfField(field);
    hide Lines;
    OneLine(m, style, number, field + [NEWLINE]);
    AnyLineOne(m, field + [NEWLINE]);
    if EndsLine(line) {
      assert field + [NEWLINE] == line;
    } else {
      AddedTerminator(style, number, line);
    }
  }

  lemma AddedTerminator(style: Style, number: nat, line: Bytes)
    requires !EndsLine(line)
    ensures Printed(style, number, line + [NEWLINE]) == Printed(style, number, line)
  {
    hide Decimal;
    assert EndsLine(line + [NEWLINE]);
    var head := style.prefix + (if style.lineNumbers then Decimal(number) + [COLON] else []);
    assert head + (line + [NEWLINE]) + [] == head + line + [NEWLINE];
  }

  lemma SingleRequired(m: LineMatcher, literal: Bytes, line: Bytes)
    requires Required(m, [literal]) && m(line)
    ensures Contains(line, literal)
  {
    var i :| 0 <= i < |[literal]| && Contains(line, [literal][i]);
    assert [literal][i] == literal;
  }

  lemma EmptyHasNo(literal: Bytes)
    requires literal != []
    ensures !Contains([], literal)
  {
  }

  lemma NotEmptyLiteral(m: LineMatcher, literal: Bytes)
    requires Required(m, [literal])
    ensures literal != []
  {
    assert [literal][0] != [];
  }

  /** The rows of the lines of a block from the `n`th on. */
  function MatchingLines(file: SearchFile, i: nat, literal: Bytes, n: nat): seq<HitRow>
    requires i < |file.blocks| && n <= |Fields(file.blocks[i].body)|
  {
    LineRows(file, i, ContainsPattern(literal, BYTES), Fields(file.blocks[i].body), n)
  }

  lemma MatchingLinesUnfold(file: SearchFile, i: nat, literal: Bytes, n: nat)
    requires i < |file.blocks| && n < |Fields(file.blocks[i].body)|
    ensures var field, rest := Fields(file.blocks[i].body)[n], MatchingLines(file, i, literal, n + 1);
            MatchingLines(file, i, literal, n) == if Contains(field, literal) then [LineRow(file, i, n, field)] + rest else rest
  {
    hide Fields, Like, Contains, ContainsPattern;
    LiteralPatternMeansContains(Fields(file.blocks[i].body)[n], literal, BYTES);
  }

  /** One line of a block, as a row or filtered out, prints what the line prints. */
  lemma LineRowStep(m: LineMatcher, lineNumbers: bool, pathPrefix: Bytes, file: SearchFile, i: nat, literal: Bytes, n: nat, line: Bytes)
    requires i < |file.blocks| && Required(m, [literal])
    requires n < |Fields(file.blocks[i].body)| && Fields(file.blocks[i].body)[n] == LineBody(line)
    ensures var rows, rest := MatchingLines(file, i, literal, n), MatchingLines(file, i, literal, n + 1);
            var style := RowStyle(lineNumbers, pathPrefix, file.path);
            && RowsOutput(m, lineNumbers, pathPrefix, rows) ==
               (if m(LineBody(line)) then Printed(style, file.blocks[i].firstLine + n, line) else []) + RowsOutput(m, lineNumbers, pathPrefix, rest)
            && (FoundInRows(m, rows) <==> m(LineBody(line)) || FoundInRows(m, rest))
  {
    hide MatchingLines, Fields, GrepText, Found, Contains, LineBody, Printed, RowStyle, NoNewline, Required, RowsOutput, FoundInRows;
    var style := RowStyle(lineNumbers, pathPrefix, file.path);
    MatchingLinesUnfold(file, i, literal, n);
    FieldHasNoNewline(file.blocks[i].body, n);
    LineRowPrints(m, style, file.blocks[i].firstLine + n, line);
    var rest := MatchingLines(file, i, literal, n + 1);
    if Contains(LineBody(line), literal) {
      var row := LineRow(file, i, n, LineBody(line));
      OneRow(m, lineNumbers, pathPrefix, row);
      RowsOutputAppend(m, lineNumbers, pathPrefix, [row], rest);
    } else if m(LineBody(line)) {
      SingleRequired(m, literal, LineBody(line));
    }
  }

  /** The rows of the lines of a block from the `n`th on print what those lines print. */
  lemma {:induction false} LineRowsPrint(m: LineMatcher, lineNumbers: bool, pathPrefix: Bytes, file: SearchFile, i: nat, literal: Bytes, n: nat)
    requires i < |file.blocks| && Required(m, [literal])
    requires n <= |Lines(file.blocks[i].body)| <= |Fields(file.blocks[i].body)|
    ensures var body, rows := file.blocks[i].body, MatchingLines(file, i, literal, n);
            var style := RowStyle(lineNumbers, pathPrefix, file.path);
            && RowsOutput(m, lineNumbers, pathPrefix, rows) == GrepLines(m, style, file.blocks[i].firstLine + n, Lines(body)[n..])
            && (FoundInRows(m, rows) <==> AnyLine(m, Lines(body)[n..]))
    decreases |Lines(file.blocks[i].body)| - n
  {
    hide MatchingLines, Lines, Fields, LineBody, Printed, RowStyle, Required, EndsField, GrepLines, AnyLine, RowsOutput, FoundInRows;
    var body := file.blocks[i].body;
    var lines := Lines(body);
    if n == |lines| {
      LastField(m, file, i, literal);
      NoRowsPrint(m, lineNumbers, pathPrefix);
      assert lines[n..] == [];
      NoLinesPrint(m, RowStyle(lineNumbers, pathPrefix, file.path), file.blocks[i].firstLine + n);
    } else {
      FieldsAreLines(body);
      LineRowStep(m, lineNumbers, pathPrefix, file, i, literal, n, lines[n]);
      LineRowsPrint(m, lineNumbers, pathPrefix, file, i, literal, n + 1);
      LinesTail(m, RowStyle(lineNumbers, pathPrefix, file.path), file.blocks[i].firstLine + n, lines, n);
    }
  }

  lemma NoRowsPrint(m: LineMatcher, lineNumbers: bool, pathPrefix: Bytes)
    ensures RowsOutput(m, lineNumbers, pathPrefix, []) == [] && !FoundInRows(m, [])
  {
  }

  lemma NoLinesPrint(m: LineMatcher, style: Style, first: nat)
    ensures GrepLines(m, style, first, []) == [] && !AnyLine(m, [])
  {
  }

  lemma LinesTail(m: LineMatcher, style: Style, first: nat, lines: seq<Bytes>, n: nat)
    requires n < |lines|
    ensures GrepLines(m, style, first, lines[n..]) ==
            (if m(LineBody(lines[n])) then Printed(style, first, lines[n]) else []) + GrepLines(m, style, first + 1, lines[n + 1..])
    ensures AnyLine(m, lines[n..]) <==> m(LineBody(lines[n])) || AnyLine(m, lines[n + 1..])
  {
    hide LineBody, Printed;
    assert lines[n..][0] == lines[n] && lines[n..][1..] == lines[n + 1..];
    AnyLineAppend(m, [lines[n]], lines[n + 1..]);
    AnyLineOne(m, lines[n]);
    assert [lines[n]] + lines[n + 1..] == lines[n..];
  }

  /** After the last line there is at most an empty field, which no literal occurs in. */
  lemma LastField(m: LineMatcher, file: SearchFile, i: nat, literal: Bytes)
    requires i < |file.blocks| && Required(m, [literal])
    requires |Lines(file.blocks[i].body)| <= |Fields(file.blocks[i].body)|
    ensures MatchingLines(file, i, literal, |Lines(file.blocks[i].body)|) == []
  {
    hide Lines, Fields, Like, Contains, ContainsPattern, Required;
    var body := file.blocks[i].body;
    FieldsAreLines(body);
    NotEmptyLiteral(m, literal);
    EmptyHasNo(literal);
    var fields, n := Fields(body), |Lines(body)|;
    if EndsField(body) {
      assert fields[n] == Last(fields);
      MatchingLinesUnfold(file, i, literal, n);
    }
  }

  // ---- One block, one file, all files ----

  /** The route asks only for what every match needs, and prunes no segment in use. */
  ghost predicate Sound(route: Route, m: LineMatcher, files: seq<SearchFile>) {
    match route
    case Pruned(literal, segments) =>
      Required(m, [literal]) && forall i :: 0 <= i < |files| ==> files[i].segment.None? || files[i].segment.value in segments
    case SingleNeedle(pattern) => exists literal: Bytes :: pattern == ContainsPattern(literal, BYTES) && Required(m, [literal])
    case ManyNeedles(patterns) =>
      exists literals: Literals :: patterns == LiteralPatterns(literals) && (literals.Some? ==> Required(m, literals.value))
  }

  ghost predicate SoundFor(route: Route, m: LineMatcher, file: SearchFile) { Sound(route, m, [file]) }

  lemma SoundForEach(route: Route, m: LineMatcher, files: seq<SearchFile>, i: nat)
    requires Sound(route, m, files) && i < |files|
    ensures SoundFor(route, m, files[i])
  {
    hide Required, ContainsPattern;
    assert [files[i]][0] == files[i];
  }

  /** A block the route leaves out prints nothing. */
  lemma LeftOutPrintsNothing(m: LineMatcher, route: Route, file: SearchFile, i: nat, style: Style)
    requires i < |file.blocks| && SoundFor(route, m, file) && !Passes(route, file, i)
    ensures GrepText(m, style, file.blocks[i].firstLine, file.blocks[i].body) == [] && !Found(m, file.blocks[i].body)
  {
    hide GrepText, Found, Like, Contains, ContainsPattern, Required, FindIn;
    var b := file.blocks[i];
    match route
    case Pruned(literal, segments) =>
      assert [file][0] == file;
      FindInIsContains(b.body, literal);
      WithoutLiteralsNothing(m, [literal], style, b.firstLine, b.body);
    case SingleNeedle(pattern) =>
      var literal: Bytes :| pattern == ContainsPattern(literal, BYTES) && Required(m, [literal]);
      LiteralPatternMeansContains(b.body, literal, BYTES);
      WithoutLiteralsNothing(m, [literal], style, b.firstLine, b.body);
    case ManyNeedles(patterns) =>
      var literals: Literals :| patterns == LiteralPatterns(literals) && (literals.Some? ==> Required(m, literals.value));
      forall j | 0 <= j < |literals.value| ensures !Contains(b.body, literals.value[j]) {
        assert !Like(b.body, patterns.value[j], BYTES);
      }
      WithoutLiteralsNothing(m, literals.value, style, b.firstLine, b.body);
  }

  /** The candidate rows of a block print what the block prints. */
  lemma BlockRowsPrint(m: LineMatcher, lineNumbers: bool, pathPrefix: Bytes, route: Route, file: SearchFile, i: nat)
    requires i < |file.blocks| && file.blocks[i].body != [] && SoundFor(route, m, file)
    ensures var b, rows := file.blocks[i], RowsOfBlock(route, file, i);
            && RowsOutput(m, lineNumbers, pathPrefix, rows) == GrepText(m, RowStyle(lineNumbers, pathPrefix, file.path), b.firstLine, b.body)
            && (FoundInRows(m, rows) <==> Found(m, b.body))
  {
    hide Found, Passes, ContainsPattern, Required, RowStyle, RowsOutput, FoundInRows, Lines, Fields, LiteralPatterns, GrepLines, AnyLine;
    var b := file.blocks[i];
    var style := RowStyle(lineNumbers, pathPrefix, file.path);
    if !Passes(route, file, i) {
      LeftOutPrintsNothing(m, route, file, i, style);
      NoRowsPrint(m, lineNumbers, pathPrefix);
    } else if route.SingleNeedle? {
      var literal: Bytes :| route.pattern == ContainsPattern(literal, BYTES) && Required(m, [literal]);
      FieldsAreLines(b.body);
      LineRowsPrint(m, lineNumbers, pathPrefix, file, i, literal, 0);
      assert Lines(b.body)[0..] == Lines(b.body);
      FoundIsAnyLine(m, b.body);
    } else {
      OneRow(m, lineNumbers, pathPrefix, BlockRow(file, i));
    }
  }

  lemma FoundIsAnyLine(m: LineMatcher, text: Bytes)
    ensures Found(m, text) <==> AnyLine(m, Lines(text))
  {
  }

  /** The candidate rows of a file print what its blocks print. */
  lemma {:induction false} FileRowsPrint(m: LineMatcher, lineNumbers: bool, pathPrefix: Bytes, route: Route, file: SearchFile, i: nat)
    requires i <= |file.blocks| && SoundFor(route, m, file)
    requires forall j :: 0 <= j < |file.blocks| ==> file.blocks[j].body != []
    ensures var rows, style := RowsOfFile(route, file, i), RowStyle(lineNumbers, pathPrefix, file.path);
            && RowsOutput(m, lineNumbers, pathPrefix, rows) == GrepBlocks(m, style, file.blocks[i..])
            && (FoundInRows(m, rows) <==> FoundInBlocks(m, file.blocks[i..]))
    decreases |file.blocks| - i
  {
    hide Found, SoundFor, RowStyle, RowsOutput, FoundInRows, RowsOfBlock, GrepText, FoundInBlocks;
    if i == |file.blocks| {
      NoRowsPrint(m, lineNumbers, pathPrefix);
      assert file.blocks[i..] == [];
      NoBlocksFound(m);
    } else {
      BlockRowsPrint(m, lineNumbers, pathPrefix, route, file, i);
      FileRowsPrint(m, lineNumbers, pathPrefix, route, file, i + 1);
      RowsOutputAppend(m, lineNumbers, pathPrefix, RowsOfBlock(route, file, i), RowsOfFile(route, file, i + 1));
      assert file.blocks[i..][0] == file.blocks[i] && file.blocks[i..][1..] == file.blocks[i + 1..];
      FoundTail(m, file.blocks[i..]);
    }
  }

  lemma NoBlocksFound(m: LineMatcher)
    ensures !FoundInBlocks(m, [])
  {
  }

  /** Plain grep: every file whole, in the given order. */
  function PlainGrep(m: LineMatcher, lineNumbers: bool, pathPrefix: Bytes, files: seq<SearchFile>): Bytes {
    if files == [] then []
    else
      GrepText(m, RowStyle(lineNumbers, pathPrefix, files[0].path), 1, Bodies(files[0].blocks))
      + PlainGrep(m, lineNumbers, pathPrefix, files[1..])
  }

  predicate PlainFound(m: LineMatcher, files: seq<SearchFile>) {
    exists i :: 0 <= i < |files| && Found(m, Bodies(files[i].blocks))
  }

  predicate WellStored(file: SearchFile) { Contiguous(file.blocks, 0, 1) && LineAligned(file.blocks) }

  lemma {:induction false} BodiesNotEmpty(blocks: seq<Block>, offset: nat, line: nat, j: nat)
    requires Contiguous(blocks, offset, line) && j < |blocks|
    ensures blocks[j].body != []
    decreases |blocks|
  {
    hide CountNewlines;
    if j > 0 { BodiesNotEmpty(blocks[1..], offset + |blocks[0].body|, line + CountNewlines(blocks[0].body), j - 1); }
  }

  lemma PlainFoundTail(m: LineMatcher, files: seq<SearchFile>)
    requires files != []
    ensures PlainFound(m, files) <==> Found(m, Bodies(files[0].blocks)) || PlainFound(m, files[1..])
  {
    hide Found;
    assert forall i :: 1 <= i < |files| ==> files[i] == files[1..][i - 1];
    assert forall i :: 0 <= i < |files| - 1 ==> files[1..][i] == files[i + 1];
  }

  /** Searching only the candidate rows gives the bytes and the flag of plain grep. */
  lemma {:induction false} CandidatesAreEnough(m: LineMatcher, lineNumbers: bool, pathPrefix: Bytes, route: Route, files: seq<SearchFile>)
    requires Sound(route, m, files) && forall i :: 0 <= i < |files| ==> WellStored(files[i])
    ensures RowsOutput(m, lineNumbers, pathPrefix, RowsOfFiles(route, files)) == PlainGrep(m, lineNumbers, pathPrefix, files)
    ensures FoundInRows(m, RowsOfFiles(route, files)) <==> PlainFound(m, files)
    decreases |files|
  {
    hide Found, SoundFor, RowStyle, RowsOutput, FoundInRows, RowsOfFile, GrepText, PlainFound, Contiguous, LineAligned;
    if files == [] {
      NoRowsPrint(m, lineNumbers, pathPrefix);
      NothingPlain(m);
    } else {
      var file := files[0];
      SoundForEach(route, m, files, 0);
      SoundTail(route, m, files);
      hide Sound;
      forall j | 0 <= j < |file.blocks| ensures file.blocks[j].body != [] { BodiesNotEmpty(file.blocks, 0, 1, j); }
      FileRowsPrint(m, lineNumbers, pathPrefix, route, file, 0);
      assert file.blocks[0..] == file.blocks;
      BlockwiseIsWhole(m, RowStyle(lineNumbers, pathPrefix, file.path), file.blocks, 0, 1);
      CandidatesAreEnough(m, lineNumbers, pathPrefix, route, files[1..]);
      RowsOutputAppend(m, lineNumbers, pathPrefix, RowsOfFile(route, file, 0), RowsOfFiles(route, files[1..]));
      PlainFoundTail(m, files);
    }
  }

  lemma NothingPlain(m: LineMatcher)
    ensures !PlainFound(m, [])
  {
  }

  lemma SoundTail(route: Route, m: LineMatcher, files: seq<SearchFile>)
    requires Sound(route, m, files) && files != []
    ensures Sound(route, m, files[1..])
  {
    hide Required, ContainsPattern, LiteralPatterns;
  }
}
