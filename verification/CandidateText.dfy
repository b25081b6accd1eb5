/** The candidate text of one file: only its lines that can match, for another grep to verify. */
module CandidateText {
  import opened Basics
  import opened Patterns
  import opened Blocks
  import opened Grep
  import opened Search
  import opened Regex
  import opened LetterShapes

  /** No line numbers and no path. */
  const PLAIN: Style := Style(false, [])

  /** The lines of a text that a filter keeps, each with a terminator. */
  function KeptText(keep: LineMatcher, text: Bytes): Bytes { GrepText(keep, PLAIN, 1, text) }

  function AnyLiteral(literals: seq<Bytes>): LineMatcher {
    line => exists i :: 0 <= i < |literals| && FindIn(line, literals[i])
  }

  // ---- Numbers play no part ----

  lemma {:induction false} NumbersDoNotMatter(m: LineMatcher, a: nat, b: nat, lines: seq<Bytes>)
    ensures GrepLines(m, PLAIN, a, lines) == GrepLines(m, PLAIN, b, lines)
    decreases |lines|
  {
    hide LineBody, Decimal;
    if lines != [] { NumbersDoNotMatter(m, a + 1, b + 1, lines[1..]); }
  }

  lemma AnyNumber(m: LineMatcher, first: nat, text: Bytes)
    ensures GrepText(m, PLAIN, first, text) == KeptText(m, text)
  {
    hide GrepLines, Lines;
    NumbersDoNotMatter(m, first, 1, Lines(text));
  }

  // ---- Matching what was kept ----

  lemma PrintedPlain(line: Bytes)
    ensures Printed(PLAIN, 1, line) == LineBody(line) + [NEWLINE]
  {
    hide Decimal;
  }

  /** Only the last line of a text can lack a terminator, and no line holds another one. */
  lemma {:induction false} LineBodiesHaveNoNewline(text: Bytes, i: nat)
    requires i < |Lines(text)|
    ensures NoNewline(LineBody(Lines(text)[i]))
  {
    hide Lines, Fields, NoNewline, LineBody;
    FieldsAreLines(text);
    FieldHasNoNewline(text, i);
  }

  lemma {:induction false} KeptLines(m: LineMatcher, keep: LineMatcher, lines: seq<Bytes>)
    requires forall line: Bytes :: m(line) ==> keep(line)
    requires forall i :: 0 <= i < |lines| ==> NoNewline(LineBody(lines[i]))
    ensures var kept := GrepLines(keep, PLAIN, 1, lines);
            && (kept == [] || EndsLine(kept))
            && GrepText(m, PLAIN, 1, kept) == GrepLines(m, PLAIN, 1, lines)
            && (Found(m, kept) <==> AnyLine(m, lines))
    decreases |lines|
  {
    hide LineBody, Lines, NoNewline, Printed, AnyLine;
    if lines == [] {
      NothingPrinted(m, PLAIN, 1);
      NothingFound(m);
      NoLinesPrint(m, PLAIN, 1);
    } else {
      var line, rest := lines[0], GrepLines(keep, PLAIN, 1, lines[1..]);
      KeptLines(m, keep, lines[1..]);
      NumbersDoNotMatter(keep, 2, 1, lines[1..]);
      NumbersDoNotMatter(m, 2, 1, lines[1..]);
      LinesHead(m, lines);
      hide GrepLines, GrepText, Found;
      if keep(LineBody(line)) { OneKeptLine(m, line, rest); }
      KeptHead(m, keep, lines);
    }
  }

  lemma LinesHead(m: LineMatcher, lines: seq<Bytes>)
    requires lines != []
    ensures AnyLine(m, lines) <==> m(LineBody(lines[0])) || AnyLine(m, lines[1..])
  {
    hide LineBody;
    AnyLineAppend(m, [lines[0]], lines[1..]);
    AnyLineOne(m, lines[0]);
    assert [lines[0]] + lines[1..] == lines;
  }

  lemma KeptHead(m: LineMatcher, keep: LineMatcher, lines: seq<Bytes>)
    requires lines != []
    ensures GrepLines(keep, PLAIN, 1, lines) ==
            if keep(LineBody(lines[0])) then LineBody(lines[0]) + [NEWLINE] + GrepLines(keep, PLAIN, 1, lines[1..])
            else GrepLines(keep, PLAIN, 1, lines[1..])
    ensures GrepLines(m, PLAIN, 1, lines) ==
            if m(LineBody(lines[0])) then LineBody(lines[0]) + [NEWLINE] + GrepLines(m, PLAIN, 1, lines[1..])
            else GrepLines(m, PLAIN, 1, lines[1..])
  {
    hide LineBody, Printed;
    NumbersDoNotMatter(keep, 2, 1, lines[1..]);
    NumbersDoNotMatter(m, 2, 1, lines[1..]);
    PrintedPlain(lines[0]);
  }

  lemma OneKeptLine(m: LineMatcher, line: Bytes, rest: Bytes)
    requires NoNewline(LineBody(line)) && (rest == [] || EndsLine(rest))
    ensures var kept := LineBody(line) + [NEWLINE] + rest;
            && EndsLine(kept)
            && GrepText(m, PLAIN, 1, kept) == (if m(LineBody(line)) then LineBody(line) + [NEWLINE] else []) + GrepText(m, PLAIN, 1, rest)
            && (Found(m, kept) <==> m(LineBody(line)) || Found(m, rest))
  {
    hide LineBody, Lines, NoNewline, Printed, GrepLines, Found, GrepText;
    var head := LineBody(line) + [NEWLINE];
    assert EndsLine(head);
    assert rest != [] ==> Last(head + rest) == Last(rest);
    assert rest == [] ==> head + rest == head;
    GrepTextAppend(m, PLAIN, 1, head, rest);
    LineRowPrints(m, PLAIN, 1, line);
    PrintedPlain(line);
    AnyNumber(m, 1 + CountNewlines(head), rest);
  }

  /** Filtering the lines first and matching what was kept gives the answer of matching the whole
      text. */
  lemma KeptThenMatched(m: LineMatcher, keep: LineMatcher, text: Bytes)
    requires forall line: Bytes :: m(line) ==> keep(line)
    ensures GrepText(m, PLAIN, 1, KeptText(keep, text)) == GrepText(m, PLAIN, 1, text)
    ensures Found(m, KeptText(keep, text)) <==> Found(m, text)
  {
    hide Lines, GrepLines, AnyLine, NoNewline, LineBody;
    forall i | 0 <= i < |Lines(text)| ensures NoNewline(LineBody(Lines(text)[i])) { LineBodiesHaveNoNewline(text, i); }
    KeptLines(m, keep, Lines(text));
    FoundIsAnyLine(m, text);
  }

  /** The computed run of letters is a sound filter for every search whose shapes have it. */
  lemma RunFilterIsSound(m: LineMatcher, h: Hir, n: nat)
    requires LetterRun(h) == Some(n) && RunGuaranteed(h, n)
    requires Searches(m, h)
    ensures forall line: Bytes :: m(line) ==> HasRun(line, n)
  {
    hide Matches, RunGuaranteed, LetterRun, HasRun;
    RunGuaranteedIff(h, n);
    forall line: Bytes | m(line) ensures HasRun(line, n) {
      var i, j :| 0 <= i <= j <= |line| && Matches(h, line[i..j]);
      RunInMiddle(line[..i], line[i..j], line[j..], n);
      assert line[..i] + line[i..j] + line[j..] == line;
    }
  }

  /** For a search that accepts every line with a match the filter loses a line otherwise. */
  lemma RunFilterIsSoundIff(m: LineMatcher, h: Hir, n: nat)
    requires LetterRun(h) == Some(n) && forall line: Bytes :: m(line) <==> HasMatch(h, line)
    ensures RunGuaranteed(h, n) <==> forall line: Bytes :: m(line) ==> HasRun(line, n)
  {
    hide Matches, RunGuaranteed, LetterRun, HasRun;
    if RunGuaranteed(h, n) {
      RunFilterIsSound(m, h, n);
    } else {
      RunGuaranteedIff(h, n);
      var s: Bytes :| Matches(h, s) && !HasRun(s, n);
      assert s[0..|s|] == s;
      assert HasMatch(h, s);
    }
  }

  // ---- stream_candidate_rows ----

  /** What one row contributes. */
  function Selected(literals: Option<seq<Bytes>>, row: (nat, Bytes)): Bytes {
    if literals.Some? && literals.value != [] then GrepText(AnyLiteral(literals.value), PLAIN, row.0, row.1) else row.1
  }

  function Streamed(literals: Option<seq<Bytes>>, rows: seq<(nat, Bytes)>): Bytes {
    if rows == [] then [] else Selected(literals, rows[0]) + Streamed(literals, rows[1..])
  }

  lemma {:induction false} StreamedSnoc(literals: Option<seq<Bytes>>, rows: seq<(nat, Bytes)>, row: (nat, Bytes))
    ensures Streamed(literals, rows + [row]) == Streamed(literals, rows) + Selected(literals, row)
    decreases |rows|
  {
    hide Selected;
    if rows == [] {
      var one := [row];
      assert rows + [row] == one && one[1..] == [];
    } else {
      assert (rows + [row])[0] == rows[0] && (rows + [row])[1..] == rows[1..] + [row];
      StreamedSnoc(literals, rows[1..], row);
      AppendAssociates(Selected(literals, rows[0]), Streamed(literals, rows[1..]), Selected(literals, row));
    }
  }

  /** Each row is filtered by the literals, if there are any, and sent in frames. */
  method StreamCandidateRows(rows: seq<(nat, Bytes)>, literals: Option<seq<Bytes>>) returns (frames: seq<Bytes>)
    ensures Flatten(frames) == Streamed(literals, rows)
    ensures forall i :: 0 <= i < |frames| ==> 0 < |frames[i]| <= FRAME
  {
    hide GrepText, Chunks, Flatten, Found;
    frames := [];
    FlattenNothing();
    assert rows[..0] == [];
    for i := 0 to |rows|
      invariant Flatten(frames) == Streamed(literals, rows[..i])
      invariant forall j :: 0 <= j < |frames| ==> 0 < |frames[j]| <= FRAME
    {
      var selected := rows[i].1;
      if literals.Some? && literals.value != [] {
        var filtered, found := SearchPrefixed(AnyLiteral(literals.value), false, rows[i].0, rows[i].1, []);
        selected := filtered;
      }
      assert rows[..i + 1] == rows[..i] + [rows[i]];
      StreamedSnoc(literals, rows[..i], rows[i]);
      ChunksJoin(selected, FRAME);
      FlattenAppend(frames, Chunks(selected, FRAME));
      frames := frames + Chunks(selected, FRAME);
    }
    assert rows[..|rows|] == rows;
  }

  /** The blocks that contain one of the literals, in storage order. */
  function MatchingBlocks(literals: seq<Bytes>, blocks: seq<Block>): seq<(nat, Bytes)> {
    if blocks == [] then []
    else
      (if MatchesSome(blocks[0].body, LiteralPatterns(Some(literals))) then [(blocks[0].firstLine, blocks[0].body)] else [])
      + MatchingBlocks(literals, blocks[1..])
  }

  lemma LiteralsAreTheirOwn(literals: seq<Bytes>)
    requires forall i :: 0 <= i < |literals| ==> literals[i] != []
    ensures Required(AnyLiteral(literals), literals)
  {
    hide FindIn, Contains;
    forall line: Bytes | AnyLiteral(literals)(line) ensures exists i :: 0 <= i < |literals| && Contains(line, literals[i]) {
      var i :| 0 <= i < |literals| && FindIn(line, literals[i]);
      FindInIsContains(line, literals[i]);
    }
  }

  lemma SkippedBlock(literals: seq<Bytes>, b: Block)
    requires Required(AnyLiteral(literals), literals) && !MatchesSome(b.body, LiteralPatterns(Some(literals)))
    ensures GrepText(AnyLiteral(literals), PLAIN, b.firstLine, b.body) == []
  {
    hide GrepText, Found, Like, Contains, ContainsPattern, Required;
    var patterns := LiteralPatterns(Some(literals));
    forall j | 0 <= j < |literals| ensures !Contains(b.body, literals[j]) {
      assert !Like(b.body, patterns.value[j], BYTES);
    }
    WithoutLiteralsNothing(AnyLiteral(literals), literals, PLAIN, b.firstLine, b.body);
  }

  lemma {:induction false} MatchingBlocksKeepLines(literals: seq<Bytes>, blocks: seq<Block>)
    requires literals != [] && Required(AnyLiteral(literals), literals)
    ensures Streamed(Some(literals), MatchingBlocks(literals, blocks)) == GrepBlocks(AnyLiteral(literals), PLAIN, blocks)
    decreases |blocks|
  {
    hide GrepText, MatchesSome, Required, AnyLiteral, LiteralPatterns;
    if blocks != [] {
      var b, rest := blocks[0], MatchingBlocks(literals, blocks[1..]);
      MatchingBlocksKeepLines(literals, blocks[1..]);
      if MatchesSome(b.body, LiteralPatterns(Some(literals))) {
        var row := (b.firstLine, b.body);
        assert ([row] + rest)[0] == row && ([row] + rest)[1..] == rest;
      } else {
        SkippedBlock(literals, b);
        assert MatchingBlocks(literals, blocks) == rest;
      }
    }
  }

  /** The candidate text of a file is exactly its lines with one of the literals, so matching it is
      matching the whole file. */
  lemma CandidateTextIsEnough(m: LineMatcher, literals: seq<Bytes>, blocks: seq<Block>)
    requires literals != [] && Required(m, literals) && Contiguous(blocks, 0, 1) && LineAligned(blocks)
    ensures var text := Streamed(Some(literals), MatchingBlocks(literals, blocks));
            && text == KeptText(AnyLiteral(literals), Bodies(blocks))
            && GrepText(m, PLAIN, 1, text) == GrepText(m, PLAIN, 1, Bodies(blocks))
            && (Found(m, text) <==> Found(m, Bodies(blocks)))
  {
    hide GrepText, Found, Streamed, MatchingBlocks, Contiguous, LineAligned, GrepBlocks, FoundInBlocks;
    assert forall i :: 0 <= i < |literals| ==> literals[i] != [];
    LiteralsAreTheirOwn(literals);
    MatchingBlocksKeepLines(literals, blocks);
    BlockwiseIsWhole(AnyLiteral(literals), PLAIN, blocks, 0, 1);
    forall line: Bytes | m(line) ensures AnyLiteral(literals)(line) {
      var i :| 0 <= i < |literals| && Contains(line, literals[i]);
      FindInIsContains(line, literals[i]);
    }
    KeptThenMatched(m, AnyLiteral(literals), Bodies(blocks));
  }
}
