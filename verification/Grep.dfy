/** Matching the lines of a text and printing them, whole or block by block. */
module Grep {
  import opened Basics
  import opened Blocks

  /** Whether a line, without its terminator, matches. */
  type LineMatcher = Bytes -> bool

  const COLON: byte := 58

  /** What precedes each printed line. */
  datatype Style = Style(lineNumbers: bool, prefix: Bytes)

  // ---- Lines ----

  /** The lines of a text, each with its terminator; only the last may lack one. */
  function Lines(text: Bytes): seq<Bytes>
    decreases |text|
  {
    if text == [] then []
    else
      var end := Min(NewlineFrom(text, 0) + 1, |text|);
      [text[..end]] + Lines(text[end..])
  }

  /** A line without its terminator. */
  function LineBody(line: Bytes): Bytes { if EndsLine(line) then DropLast(line) else line }

  /** What the digits stand for, the most significant first. */
  function DigitsValue(digits: Bytes): int {
    if digits == [] then 0 else DigitsValue(DropLast(digits)) * 10 + (Last(digits) as int - 48)
  }

  /** The decimal numeral of a number: digits with its value, without a leading zero. */
  predicate IsNumeral(digits: Bytes, n: nat) {
    && digits != [] && (forall i :: 0 <= i < |digits| ==> 48 <= digits[i] <= 57)
    && (digits[0] == 48 ==> n == 0 && |digits| == 1)
    && DigitsValue(digits) == n
  }

  /** `number.to_string()`. */
  function Decimal(n: nat): Bytes {
    if n < 10 then [48 + n] else Decimal(n / 10) + [48 + n % 10]
  }

  lemma {:induction false} DecimalIsNumeral(n: nat)
    ensures IsNumeral(Decimal(n), n)
  {
    var high := if n < 10 then [] else Decimal(n / 10);
    var last: byte := 48 + n % 10;
    if n >= 10 { DecimalIsNumeral(n / 10); }
    assert Decimal(n) == high + [last];
    assert DropLast(high + [last]) == high && Last(high + [last]) == last;
  }

  /** A number has one numeral. */
  lemma {:induction false} NumeralUnique(a: Bytes, b: Bytes, n: nat)
    requires IsNumeral(a, n) && IsNumeral(b, n)
    ensures a == b
    decreases |a|
  {
    NumeralLength(a, n);
    NumeralLength(b, n);
    assert a == DropLast(a) + [Last(a)] && b == DropLast(b) + [Last(b)];
    if n >= 10 {
      NumeralUnique(DropLast(a), DropLast(b), n / 10);
    }
  }

  /** The last digit is the remainder, the others are the numeral of the quotient. */
  lemma {:induction false} NumeralLength(digits: Bytes, n: nat)
    requires IsNumeral(digits, n)
    ensures Last(digits) as int == 48 + n % 10
    ensures if n < 10 then |digits| == 1 else |digits| > 1 && IsNumeral(DropLast(digits), n / 10)
    decreases |digits|
  {
    if |digits| == 1 {
      assert DropLast(digits) == [];
    } else {
      var high := DropLast(digits);
      assert high[0] == digits[0];
      HighPositive(high);
      assert n == DigitsValue(high) * 10 + (Last(digits) as int - 48);
      assert n / 10 == DigitsValue(high) && n % 10 == Last(digits) as int - 48;
    }
  }

  lemma {:induction false} HighPositive(digits: Bytes)
    requires digits != [] && (forall i :: 0 <= i < |digits| ==> 48 <= digits[i] <= 57) && digits[0] != 48
    ensures DigitsValue(digits) > 0
    decreases |digits|
  {
    if |digits| == 1 {
      assert DropLast(digits) == [];
    } else {
      assert DropLast(digits)[0] == digits[0];
      HighPositive(DropLast(digits));
    }
  }

  /** A printed line: a terminator is added only when the line has none. */
  function Printed(style: Style, number: nat, line: Bytes): Bytes {
    style.prefix + (if style.lineNumbers then Decimal(number) + [COLON] else []) + line
    + (if EndsLine(line) then [] else [NEWLINE])
  }

  /** The matching lines printed, the first line having number `first`. */
  function GrepLines(m: LineMatcher, style: Style, first: nat, lines: seq<Bytes>): Bytes
    decreases |lines|
  {
    if lines == [] then []
    else
      (if m(LineBody(lines[0])) then Printed(style, first, lines[0]) else [])
      + GrepLines(m, style, first + 1, lines[1..])
  }

  predicate AnyLine(m: LineMatcher, lines: seq<Bytes>) { exists i :: 0 <= i < |lines| && m(LineBody(lines[i])) }

  /** Plain grep of one text. */
  function GrepText(m: LineMatcher, style: Style, first: nat, text: Bytes): Bytes {
    GrepLines(m, style, first, Lines(text))
  }

  predicate Found(m: LineMatcher, text: Bytes) { AnyLine(m, Lines(text)) }

  // ---- The sink ----

  class BlockOutput {
    var output: Bytes
    var found: bool
    const firstLine: nat
    const style: Style

    constructor (first: nat, s: Style)
      ensures output == [] && !found && firstLine == first && style == s
    {
      output := [];
      found := false;
      firstLine := first;
      style := s;
    }

    /** Called for each matching line in turn with its number within the block. */
    method Matched(number: nat, bytes: Bytes)
      requires number >= 1
      modifies this
      ensures found && output == old(output) + Printed(style, firstLine + number - 1, bytes)
      ensures IsPrinted(old(output), style, firstLine + number - 1, bytes, output)
    {
      hide Decimal, IsPrinted;
      ghost var before := output;
      found := true;
      output := output + style.prefix;
      if style.lineNumbers {
        output := output + Decimal(firstLine + number - 1);
        output := output + [COLON];
      }
      output := output + bytes;
      if !EndsLine(bytes) {
        output := output + [NEWLINE];
      }
      PrintedIsPrinted(before, style, firstLine + number - 1, bytes);
    }
  }

  /** The digits in front of a line: its numeral, or none if numbers are not asked for. */
  predicate IsNumber(style: Style, number: nat, digits: Bytes) {
    if style.lineNumbers then IsNumeral(digits, number) else digits == []
  }

  /** What a line adds to an output: the prefix, its number in decimal and a colon if asked for, the line,
      and a newline if it has none. */
  ghost predicate IsPrinted(before: Bytes, style: Style, number: nat, line: Bytes, after: Bytes) {
    exists digits ::
      && IsNumber(style, number, digits)
      && after == before + style.prefix + (if style.lineNumbers then digits + [COLON] else []) + line +
                  (if line != [] && Last(line) == NEWLINE then [] else [NEWLINE])
  }

  lemma PrintedIsPrinted(before: Bytes, style: Style, number: nat, line: Bytes)
    ensures IsPrinted(before, style, number, line, before + Printed(style, number, line))
  {
    hide Decimal, IsNumeral;
    DecimalIsNumeral(number);
    var digits := if style.lineNumbers then Decimal(number) else [];
    assert IsNumber(style, number, digits);
    PrintedBehind(before, style, number, line, if style.lineNumbers then digits + [COLON] else []);
  }

  lemma PrintedBehind(before: Bytes, style: Style, number: nat, line: Bytes, numbered: Bytes)
    requires numbered == if style.lineNumbers then Decimal(number) + [COLON] else []
    ensures before + Printed(style, number, line) ==
            before + style.prefix + numbered + line + (if line != [] && Last(line) == NEWLINE then [] else [NEWLINE])
  {
    hide Decimal;
  }

  // ---- What lines and their printing are ----

  /** Without the newline at its end, if it has one. */
  function Unterminated(line: Bytes): Bytes {
    if line != [] && line[|line| - 1] == NEWLINE then line[..|line| - 1] else line
  }

  /** A text cut behind each of its newlines. */
  ghost predicate AreLines(lines: seq<Bytes>, text: Bytes) {
    && Flatten(lines) == text
    && forall i :: 0 <= i < |lines| ==>
         && lines[i] != []
         && (forall j :: 0 <= j < |lines[i]| - 1 ==> lines[i][j] != NEWLINE)
         && (i < |lines| - 1 ==> lines[i][|lines[i]| - 1] == NEWLINE)
  }

  lemma {:induction false} LinesAreLines(text: Bytes)
    ensures AreLines(Lines(text), text)
    decreases |text|
  {
    if text != [] {
      hide AreLines, NewlineFrom;
      NewlineFromIsFirst(text, 0);
      var end := Min(NewlineFrom(text, 0) + 1, |text|);
      LinesAreLines(text[end..]);
      assert Lines(text) == [text[..end]] + Lines(text[end..]);
      LineInFront(text, end, Lines(text[end..]));
    }
  }

  lemma LineInFront(text: Bytes, end: nat, rest: seq<Bytes>)
    requires 0 < end <= |text| && AreLines(rest, text[end..])
    requires forall j :: 0 <= j < end - 1 ==> text[j] != NEWLINE
    requires end == |text| || text[end - 1] == NEWLINE
    ensures AreLines([text[..end]] + rest, text)
  {
    var lines := [text[..end]] + rest;
    assert lines[1..] == rest;
    assert text == text[..end] + text[end..];
    assert end == |text| ==> text[end..] == [];
    EmptyText(rest, text[end..]);
    forall i | 1 <= i < |lines| ensures lines[i] == rest[i - 1] {}
  }

  /** There is one way to cut a text into lines. */
  lemma {:induction false} LinesUnique(a: seq<Bytes>, b: seq<Bytes>, text: Bytes)
    requires AreLines(a, text) && AreLines(b, text)
    ensures a == b
    decreases |a|
  {
    if a == [] || b == [] {
      EmptyText(a, text);
      EmptyText(b, text);
    } else {
      FirstLinesAgree(a, b, text);
      assert text[|a[0]|..] == Flatten(a[1..]) && text[|b[0]|..] == Flatten(b[1..]);
      TailLines(a, text);
      TailLines(b, text);
      LinesUnique(a[1..], b[1..], text[|a[0]|..]);
      assert a == [a[0]] + a[1..] && b == [b[0]] + b[1..];
    }
  }

  lemma TailLines(lines: seq<Bytes>, text: Bytes)
    requires AreLines(lines, text) && lines != []
    ensures |lines[0]| <= |text| && AreLines(lines[1..], text[|lines[0]|..])
  {
    var rest := lines[1..];
    assert text[|lines[0]|..] == Flatten(rest);
    forall i | 0 <= i < |rest| ensures rest[i] == lines[i + 1] {}
  }

  lemma FirstLinesAgree(a: seq<Bytes>, b: seq<Bytes>, text: Bytes)
    requires AreLines(a, text) && AreLines(b, text) && a != [] && b != []
    ensures a[0] == b[0]
  {
    hide AreLines;
    FirstNotShorter(a, b, text);
    FirstNotShorter(b, a, text);
    FirstLineBegins(a, text);
    FirstLineBegins(b, text);
  }

  lemma FirstNotShorter(a: seq<Bytes>, b: seq<Bytes>, text: Bytes)
    requires AreLines(a, text) && AreLines(b, text) && a != [] && b != []
    ensures |a[0]| >= |b[0]|
  {
    FirstLineBegins(a, text);
    FirstLineBegins(b, text);
    var line := b[0];
    assert forall j :: 0 <= j < |line| ==> line[j] == text[j];
    assert a[0] == text[..|a[0]|];
  }

  lemma EmptyText(lines: seq<Bytes>, text: Bytes)
    requires AreLines(lines, text)
    ensures lines == [] <==> text == []
  {
    if lines != [] { FirstLineBegins(lines, text); }
  }

  lemma FirstLineBegins(lines: seq<Bytes>, text: Bytes)
    requires AreLines(lines, text) && lines != []
    ensures |lines[0]| <= |text| && text[..|lines[0]|] == lines[0]
    ensures |lines[0]| < |text| ==> Last(lines[0]) == NEWLINE
  {
    assert text == lines[0] + Flatten(lines[1..]);
    if |lines| == 1 { assert Flatten(lines[1..]) == []; }
  }

  /** Each line that matches is printed with its own number, in order; the others print nothing. */
  ghost predicate PrintsLines(m: LineMatcher, style: Style, first: nat, lines: seq<Bytes>, output: Bytes) {
    exists pieces: seq<Bytes> :: PrintedPieces(m, style, first, lines, pieces) && Flatten(pieces) == output
  }

  ghost predicate PrintedPieces(m: LineMatcher, style: Style, first: nat, lines: seq<Bytes>, pieces: seq<Bytes>) {
    && |pieces| == |lines|
    && forall i :: 0 <= i < |lines| ==>
         if m(Unterminated(lines[i])) then IsPrinted([], style, first + i, lines[i], pieces[i]) else pieces[i] == []
  }

  /** What plain grep prints, and when it finds something. */
  lemma GrepMeans(m: LineMatcher, style: Style, first: nat, text: Bytes)
    ensures exists lines :: AreLines(lines, text) && PrintsLines(m, style, first, lines, GrepText(m, style, first, text))
                            && (Found(m, text) <==> exists i :: 0 <= i < |lines| && m(Unterminated(lines[i])))
  {
    hide *;
    var lines := Lines(text);
    LinesAreLines(text);
    LinesPrint(m, style, first, lines);
    ThroughLines(m, style, first, text);
  }

  lemma ThroughLines(m: LineMatcher, style: Style, first: nat, text: Bytes)
    ensures GrepText(m, style, first, text) == GrepLines(m, style, first, Lines(text))
    ensures Found(m, text) <==> exists i :: 0 <= i < |Lines(text)| && m(Unterminated(Lines(text)[i]))
  {
    hide Lines, GrepLines, LineBody, Unterminated;
    forall line: Bytes ensures LineBody(line) == Unterminated(line) { BodyIsUnterminated(line); }
  }

  lemma {:induction false} LinesPrint(m: LineMatcher, style: Style, first: nat, lines: seq<Bytes>)
    ensures PrintsLines(m, style, first, lines, GrepLines(m, style, first, lines))
    decreases |lines|
  {
    if lines == [] {
      assert PrintedPieces(m, style, first, lines, []);
    } else {
      hide Printed, LineBody, PrintedPieces;
      LinesPrint(m, style, first + 1, lines[1..]);
      var rest: seq<Bytes> :| PrintedPieces(m, style, first + 1, lines[1..], rest) &&
                              Flatten(rest) == GrepLines(m, style, first + 1, lines[1..]);
      var piece := if m(LineBody(lines[0])) then Printed(style, first, lines[0]) else [];
      OnePieceMore(m, style, first, lines, rest);
      assert ([piece] + rest)[1..] == rest;
      assert PrintedPieces(m, style, first, lines, [piece] + rest);
    }
  }

  lemma OnePieceMore(m: LineMatcher, style: Style, first: nat, lines: seq<Bytes>, rest: seq<Bytes>)
    requires lines != [] && PrintedPieces(m, style, first + 1, lines[1..], rest)
    ensures PrintedPieces(m, style, first, lines, [if m(LineBody(lines[0])) then Printed(style, first, lines[0]) else []] + rest)
  {
    hide Printed, IsPrinted, LineBody, Unterminated;
    BodyIsUnterminated(lines[0]);
    var nothing: Bytes := [];
    PrintedIsPrinted(nothing, style, first, lines[0]);
    assert nothing + Printed(style, first, lines[0]) == Printed(style, first, lines[0]);
    forall i | 1 <= i < |lines|
      ensures if m(Unterminated(lines[i])) then IsPrinted([], style, first + i, lines[i], rest[i - 1]) else rest[i - 1] == []
    {
      assert lines[i] == lines[1..][i - 1];
    }
  }

  lemma BodyIsUnterminated(line: Bytes)
    ensures LineBody(line) == Unterminated(line)
  {
  }

  lemma OneLine(m: LineMatcher, style: Style, first: nat, line: Bytes)
    ensures GrepLines(m, style, first, [line]) == if m(LineBody(line)) then Printed(style, first, line) else []
  {
    hide Printed, LineBody;
    var lines := [line];
    assert lines[1..] == [];
  }

  /** Lines done so far. */
  lemma GrepLinesSnoc(m: LineMatcher, style: Style, first: nat, lines: seq<Bytes>, i: nat)
    requires i < |lines|
    ensures GrepLines(m, style, first, lines[..i + 1]) ==
            GrepLines(m, style, first, lines[..i])
            + (if m(LineBody(lines[i])) then Printed(style, first + i, lines[i]) else [])
  {
    assert lines[..i + 1] == lines[..i] + [lines[i]];
    GrepLinesAppend(m, style, first, lines[..i], [lines[i]]);
    OneLine(m, style, first + i, lines[i]);
  }

  lemma {:induction false} GrepLinesAppend(m: LineMatcher, style: Style, first: nat, a: seq<Bytes>, b: seq<Bytes>)
    ensures GrepLines(m, style, first, a + b) == GrepLines(m, style, first, a) + GrepLines(m, style, first + |a|, b)
    decreases |a|
  {
    hide Printed, LineBody;
    if a == [] {
      assert a + b == b;
    } else {
      assert (a + b)[0] == a[0] && (a + b)[1..] == a[1..] + b;
      GrepLinesAppend(m, style, first + 1, a[1..], b);
      AppendAssociates(if m(LineBody(a[0])) then Printed(style, first, a[0]) else [],
                       GrepLines(m, style, first + 1, a[1..]), GrepLines(m, style, first + |a|, b));
    }
  }

  /** `search_prefixed`: the searcher hands each matching line of the text to the sink. */
  method SearchPrefixed(m: LineMatcher, lineNumbers: bool, firstLine: nat, text: Bytes, prefix: Bytes)
    returns (output: Bytes, found: bool)
    ensures output == GrepText(m, Style(lineNumbers, prefix), firstLine, text)
    ensures found <==> Found(m, text)
  {
    hide Printed, Lines;
    var lines := Lines(text);
    var sink := new BlockOutput(firstLine, Style(lineNumbers, prefix));
    assert lines[..0] == [];
    for i := 0 to |lines|
      invariant sink.output == GrepLines(m, Style(lineNumbers, prefix), firstLine, lines[..i])
      invariant sink.found <==> AnyLine(m, lines[..i])
    {
      GrepLinesSnoc(m, sink.style, firstLine, lines, i);
      assert lines[..i + 1] == lines[..i] + [lines[i]];
      AnyLineAppend(m, lines[..i], [lines[i]]);
      AnyLineOne(m, lines[i]);
      if m(LineBody(lines[i])) {
        sink.Matched(i + 1, lines[i]);
      }
    }
    assert lines[..|lines|] == lines;
    output, found := sink.output, sink.found;
  }

  lemma AnyLineAppend(m: LineMatcher, a: seq<Bytes>, b: seq<Bytes>)
    ensures AnyLine(m, a + b) <==> AnyLine(m, a) || AnyLine(m, b)
  {
    hide LineBody;
    forall i | 0 <= i < |b| ensures (a + b)[|a| + i] == b[i] {}
    forall i | 0 <= i < |a| ensures (a + b)[i] == a[i] {}
    if i :| 0 <= i < |b| && m(LineBody(b[i])) { assert m(LineBody((a + b)[|a| + i])); }
    if i :| 0 <= i < |a| && m(LineBody(a[i])) { assert m(LineBody((a + b)[i])); }
  }

  lemma AnyLineOne(m: LineMatcher, line: Bytes)
    ensures AnyLine(m, [line]) <==> m(LineBody(line))
  {
    hide LineBody;
    assert [line][0] == line;
  }

  // ---- literal_output ----

  predicate FindIn(line: Bytes, needle: Bytes) { exists at :: 0 <= at <= |line| && OccursAt(needle, line, at) }

  /** Plain grep of several texts, each with its own prefix, from line 1. */
  function GrepFiles(m: LineMatcher, lineNumbers: bool, files: seq<(Bytes, Bytes)>): Bytes {
    if files == [] then []
    else GrepText(m, Style(lineNumbers, files[0].0), 1, files[0].1) + GrepFiles(m, lineNumbers, files[1..])
  }

  predicate FoundInFiles(m: LineMatcher, files: seq<(Bytes, Bytes)>) {
    exists i :: 0 <= i < |files| && Found(m, files[i].1)
  }

  lemma {:induction false} GrepFilesAppend(m: LineMatcher, lineNumbers: bool, a: seq<(Bytes, Bytes)>, b: seq<(Bytes, Bytes)>)
    ensures GrepFiles(m, lineNumbers, a + b) == GrepFiles(m, lineNumbers, a) + GrepFiles(m, lineNumbers, b)
    decreases |a|
  {
    hide GrepText;
    if a == [] {
      assert a + b == b;
    } else {
      assert (a + b)[0] == a[0] && (a + b)[1..] == a[1..] + b;
      GrepFilesAppend(m, lineNumbers, a[1..], b);
      AppendAssociates(GrepText(m, Style(lineNumbers, a[0].0), 1, a[0].1), GrepFiles(m, lineNumbers, a[1..]), GrepFiles(m, lineNumbers, b));
    }
  }

  /** `path_prefix`, the path and a colon. */
  function Label(pathPrefix: Bytes, path: Bytes): Bytes { pathPrefix + path + [COLON] }

  function Labelled(pathPrefix: Bytes, files: seq<(Bytes, Bytes)>): seq<(Bytes, Bytes)> {
    seq(|files|, i requires 0 <= i < |files| => (Label(pathPrefix, files[i].0), files[i].1))
  }

  /** `literal_output`: each line that contains the needle, printed with its path. */
  method LiteralOutput(files: seq<(Bytes, Bytes)>, needle: Bytes, lineNumbers: bool, pathPrefix: Bytes)
    returns (output: Bytes, matchedAny: bool)
    ensures var m := (line: Bytes) => FindIn(line, needle);
            && output == GrepFiles(m, lineNumbers, Labelled(pathPrefix, files))
            && (matchedAny <==> FoundInFiles(m, Labelled(pathPrefix, files)))
  {
    hide GrepText, Found, FindIn;
    var m := (line: Bytes) => FindIn(line, needle);
    var labelled := Labelled(pathPrefix, files);
    output, matchedAny := [], false;
    assert labelled[..0] == [];
    for i := 0 to |files|
      invariant output == GrepFiles(m, lineNumbers, labelled[..i])
      invariant matchedAny <==> exists j :: 0 <= j < i && Found(m, labelled[j].1)
    {
      var printed, matched := LiteralLines(files[i].1, needle, lineNumbers, pathPrefix, files[i].0);
      assert labelled[..i + 1] == labelled[..i] + [labelled[i]];
      GrepFilesAppend(m, lineNumbers, labelled[..i], [labelled[i]]);
      OneFile(m, lineNumbers, labelled[i]);
      output := output + printed;
      matchedAny := matchedAny || matched;
    }
    assert labelled[..|files|] == labelled;
  }

  lemma OneFile(m: LineMatcher, lineNumbers: bool, file: (Bytes, Bytes))
    ensures GrepFiles(m, lineNumbers, [file]) == GrepText(m, Style(lineNumbers, file.0), 1, file.1)
  {
    hide GrepText;
    assert [file][1..] == [];
  }

  /** The inner loop over the lines of one file. */
  method LiteralLines(text: Bytes, needle: Bytes, lineNumbers: bool, pathPrefix: Bytes, path: Bytes)
    returns (output: Bytes, matched: bool)
    ensures var m := (line: Bytes) => FindIn(line, needle);
            && output == GrepText(m, Style(lineNumbers, Label(pathPrefix, path)), 1, text)
            && (matched <==> Found(m, text))
  {
    hide Lines, FindIn, Printed;
    var m := (line: Bytes) => FindIn(line, needle);
    var style := Style(lineNumbers, Label(pathPrefix, path));
    var lines := Lines(text);
    output, matched := [], false;
    assert lines[..0] == [];
    for index := 0 to |lines|
      invariant output == GrepLines(m, style, 1, lines[..index])
      invariant matched <==> AnyLine(m, lines[..index])
    {
      var line := LineBody(lines[index]);
      GrepLinesSnoc(m, style, 1, lines, index);
      assert lines[..index + 1] == lines[..index] + [lines[index]];
      AnyLineAppend(m, lines[..index], [lines[index]]);
      AnyLineOne(m, lines[index]);
      if FindIn(line, needle) {
        matched := true;
        ghost var before := output;
        output := output + pathPrefix + path + [COLON];
        if lineNumbers {
          output := output + Decimal(index + 1) + [COLON];
        }
        output := output + line + [NEWLINE];
        PrintedInPieces(before, pathPrefix, path, lineNumbers, index + 1, lines[index]);
      }
    }
    assert lines[..|lines|] == lines;
  }

  /** Appending the pieces one by one prints the line. */
  lemma PrintedInPieces(before: Bytes, pathPrefix: Bytes, path: Bytes, lineNumbers: bool, number: nat, line: Bytes)
    ensures lineNumbers ==>
              before + pathPrefix + path + [COLON] + Decimal(number) + [COLON] + LineBody(line) + [NEWLINE] ==
              before + Printed(Style(lineNumbers, Label(pathPrefix, path)), number, line)
    ensures !lineNumbers ==>
              before + pathPrefix + path + [COLON] + LineBody(line) + [NEWLINE] ==
              before + Printed(Style(lineNumbers, Label(pathPrefix, path)), number, line)
  {
    hide Decimal;
    assert LineBody(line) + [NEWLINE] == line + (if EndsLine(line) then [] else [NEWLINE]);
  }

  // ---- Blocks ----

  /** The first line of a text that begins with whole lines. */
  lemma FirstLineAppend(a: Bytes, b: Bytes)
    requires EndsLine(a)
    ensures NewlineFrom(a + b, 0) == NewlineFrom(a, 0) < |a|
  {
    NewlineFromIsFirst(a, 0);
    NewlineFromIsFirst(a + b, 0);
    var i, j := NewlineFrom(a, 0), NewlineFrom(a + b, 0);
    assert a[|a| - 1] == NEWLINE;
    assert i <= |a| - 1;
    assert (a + b)[i] == NEWLINE;
    assert j <= i;
    assert j < |a| ==> a[j] == NEWLINE;
  }

  lemma HeadLine(text: Bytes, end: nat)
    requires text != [] && NewlineFrom(text, 0) < |text| && end == NewlineFrom(text, 0) + 1
    ensures Lines(text) == [text[..end]] + Lines(text[end..])
  {
    hide NewlineFrom;
    assert Min(NewlineFrom(text, 0) + 1, |text|) == end;
  }

  /** Cutting after whole lines cuts the list of lines. */
  lemma {:induction false} LinesAppend(a: Bytes, b: Bytes)
    requires a == [] || EndsLine(a)
    ensures Lines(a + b) == Lines(a) + Lines(b)
    decreases |a|
  {
    if a == [] {
      assert a + b == b;
    } else {
      hide *;
      FirstLineAppend(a, b);
      var end := NewlineFrom(a, 0) + 1;
      CutAppend(a, b, end);
      HeadLine(a, end);
      HeadLine(a + b, end);
      StillEndsLine(a, end);
      LinesAppend(a[end..], b);
      AppendAssociates([a[..end]], Lines(a[end..]), Lines(b));
    }
  }

  lemma StillEndsLine(a: Bytes, end: nat)
    requires end <= |a| && EndsLine(a)
    ensures a[end..] == [] || EndsLine(a[end..])
  {
  }

  lemma CutAppend(a: Bytes, b: Bytes, end: nat)
    requires end <= |a|
    ensures (a + b)[..end] == a[..end] && (a + b)[end..] == a[end..] + b
  {
  }

  lemma LineHasOneNewline(a: Bytes)
    requires EndsLine(a)
    ensures var end := NewlineFrom(a, 0) + 1;
            end <= |a| && CountNewlines(a) == 1 + CountNewlines(a[end..])
  {
    hide *;
    var nothing: Bytes := [];
    FirstLineAppend(a, nothing);
    assert a + nothing == a;
    NewlineFromIsFirst(a, 0);
    CountBehind(a, NewlineFrom(a, 0));
  }

  lemma CountBehind(a: Bytes, i: nat)
    requires i < |a| && a[i] == NEWLINE && forall j :: 0 <= j < i ==> a[j] != NEWLINE
    ensures CountNewlines(a) == 1 + CountNewlines(a[i + 1..])
  {
    hide CountNewlines;
    NoNewlineBefore(a, i);
    CountNewlinesAppend(a[..i], a[i..]);
    CountNewlinesAppend([NEWLINE], a[i + 1..]);
    CountOne(NEWLINE);
    assert a == a[..i] + a[i..] && a[i..] == [NEWLINE] + a[i + 1..];
  }

  lemma {:induction false} NoNewlineBefore(a: Bytes, i: nat)
    requires i <= |a| && forall j :: 0 <= j < i ==> a[j] != NEWLINE
    ensures CountNewlines(a[..i]) == 0
  {
    if i > 0 {
      NoNewlineBefore(a, i - 1);
      CountNewlinesAppend(a[..i - 1], [a[i - 1]]);
      assert a[..i] == a[..i - 1] + [a[i - 1]];
      CountOne(a[i - 1]);
    }
  }

  lemma CountOne(b: byte)
    ensures CountNewlines([b]) == if b == NEWLINE then 1 else 0
  {
    var one := [b];
    assert one[1..] == [];
  }

  /** Whole lines are as many as their newlines. */
  lemma {:induction false} LinesCount(a: Bytes)
    requires a == [] || EndsLine(a)
    ensures |Lines(a)| == CountNewlines(a)
    decreases |a|
  {
    if a != [] {
      LineHasOneNewline(a);
      var end := NewlineFrom(a, 0) + 1;
      assert a[end..] != [] ==> Last(a[end..]) == Last(a);
      LinesCount(a[end..]);
    }
  }

  /** The outputs of the blocks of a file, one after the other. */
  function GrepBlocks(m: LineMatcher, style: Style, blocks: seq<Block>): Bytes {
    if blocks == [] then []
    else GrepText(m, style, blocks[0].firstLine, blocks[0].body) + GrepBlocks(m, style, blocks[1..])
  }

  predicate FoundInBlocks(m: LineMatcher, blocks: seq<Block>) {
    exists i :: 0 <= i < |blocks| && Found(m, blocks[i].body)
  }

  lemma GrepTextAppend(m: LineMatcher, style: Style, first: nat, a: Bytes, b: Bytes)
    requires a == [] || EndsLine(a)
    ensures GrepText(m, style, first, a + b) == GrepText(m, style, first, a) + GrepText(m, style, first + CountNewlines(a), b)
    ensures Found(m, a + b) <==> Found(m, a) || Found(m, b)
  {
    hide Lines, CountNewlines, Printed, GrepLines, AnyLine;
    LinesAppend(a, b);
    LinesCount(a);
    GrepLinesAppend(m, style, first, Lines(a), Lines(b));
    AnyLineAppend(m, Lines(a), Lines(b));
  }

  lemma FoundTail(m: LineMatcher, blocks: seq<Block>)
    requires blocks != []
    ensures FoundInBlocks(m, blocks) <==> Found(m, blocks[0].body) || FoundInBlocks(m, blocks[1..])
  {
    hide Found;
    assert forall i :: 1 <= i < |blocks| ==> blocks[i] == blocks[1..][i - 1];
    assert forall i :: 0 <= i < |blocks| - 1 ==> blocks[1..][i] == blocks[i + 1];
  }

  lemma NothingFound(m: LineMatcher)
    ensures !Found(m, [])
  {
  }

  /** Matching line-aligned blocks one by one, with their own first lines, is matching the whole
      text. */
  lemma {:induction false} BlockwiseIsWhole(m: LineMatcher, style: Style, blocks: seq<Block>, offset: nat, line: nat)
    requires Contiguous(blocks, offset, line) && LineAligned(blocks)
    ensures GrepBlocks(m, style, blocks) == GrepText(m, style, line, Bodies(blocks))
    ensures FoundInBlocks(m, blocks) <==> Found(m, Bodies(blocks))
    decreases |blocks|
  {
    hide GrepText, Found, CountNewlines;
    if blocks == [] {
      NothingFound(m);
      NothingPrinted(m, style, line);
    } else {
      var b, rest := blocks[0], blocks[1..];
      FoundTail(m, blocks);
      BlockwiseIsWhole(m, style, rest, offset + |b.body|, line + CountNewlines(b.body));
      if rest == [] {
        assert b.body + [] == b.body && Bodies(rest) == [];
        NothingFound(m);
      } else {
        GrepTextAppend(m, style, line, b.body, Bodies(rest));
      }
    }
  }

  lemma NothingPrinted(m: LineMatcher, style: Style, line: nat)
    ensures GrepText(m, style, line, []) == []
  {
  }

  // ---- grep_file ----

  const FRAME := 65536

  /** `chunks`: runs of the given size, the last possibly shorter. */
  function Chunks(data: Bytes, size: nat): seq<Bytes>
    requires size > 0
    decreases |data|
  {
    if data == [] then [] else [data[..Min(size, |data|)]] + Chunks(data[Min(size, |data|)..], size)
  }

  lemma {:induction false} ChunksJoin(data: Bytes, size: nat)
    requires size > 0
    ensures Flatten(Chunks(data, size)) == data
    ensures forall i :: 0 <= i < |Chunks(data, size)| ==> 0 < |Chunks(data, size)[i]| <= size
    decreases |data|
  {
    if data != [] {
      var head, tail := data[..Min(size, |data|)], data[Min(size, |data|)..];
      ChunksJoin(tail, size);
      assert Chunks(data, size) == [head] + Chunks(tail, size);
      assert Chunks(data, size)[1..] == Chunks(tail, size);
    }
  }

  /** `grep_file`: the blocks in storage order, the output in frames. */
  method GrepFile(m: LineMatcher, lineNumbers: bool, blocks: seq<Block>) returns (frames: seq<Bytes>, anyMatch: bool)
    requires Contiguous(blocks, 0, 1) && LineAligned(blocks)
    ensures Flatten(frames) == GrepText(m, Style(lineNumbers, []), 1, Bodies(blocks))
    ensures forall i :: 0 <= i < |frames| ==> 0 < |frames[i]| <= FRAME
    ensures anyMatch <==> Found(m, Bodies(blocks))
  {
    hide GrepText, Found, Contiguous, LineAligned, Chunks, Flatten;
    var style := Style(lineNumbers, []);
    frames, anyMatch := [], false;
    FlattenNothing();
    assert blocks[0..] == blocks;
    for i := 0 to |blocks|
      invariant Flatten(frames) + GrepBlocks(m, style, blocks[i..]) == GrepBlocks(m, style, blocks)
      invariant forall j :: 0 <= j < |frames| ==> 0 < |frames[j]| <= FRAME
      invariant anyMatch || FoundInBlocks(m, blocks[i..]) <==> FoundInBlocks(m, blocks)
    {
      var data, found := SearchPrefixed(m, lineNumbers, blocks[i].firstLine, blocks[i].body, []);
      assert blocks[i..][0] == blocks[i] && blocks[i..][1..] == blocks[i + 1..];
      FoundTail(m, blocks[i..]);
      ChunksJoin(data, FRAME);
      FlattenAppend(frames, Chunks(data, FRAME));
      AppendAssociates(Flatten(frames), data, GrepBlocks(m, style, blocks[i + 1..]));
      anyMatch := anyMatch || found;
      frames := frames + Chunks(data, FRAME);
    }
    assert blocks[|blocks|..] == [];
    BlockwiseIsWhole(m, style, blocks, 0, 1);
  }

  lemma FlattenNothing()
    ensures Flatten<byte>([]) == []
  {
  }
}
