/** The queries that filter the lines of one file in SQL and send only those that can match. */
module LineFilters {
  import opened Basics
  import opened Patterns
  import opened Blocks
  import opened Grep
  import opened Search
  import opened Regex
  import opened LetterShapes
  import opened CandidateText

  /** `string_agg(line.body || E'\n', '')` over the lines that pass a test, in their order. */
  function Aggregated(keep: LineMatcher, fields: seq<Bytes>): Bytes {
    if fields == [] then []
    else (if keep(fields[0]) then fields[0] + [NEWLINE] else []) + Aggregated(keep, fields[1..])
  }

  /** Without such a line the aggregate is null. */
  predicate AnyKept(keep: LineMatcher, fields: seq<Bytes>) { exists i :: 0 <= i < |fields| && keep(fields[i]) }

  /** The rows of the query: of each block that passes the test the lines that do. */
  function FilteredRows(keep: LineMatcher, blocks: seq<Block>): seq<(nat, Bytes)> {
    if blocks == [] then [] else FilteredRow(keep, blocks[0]) + FilteredRows(keep, blocks[1..])
  }

  function FilteredRow(keep: LineMatcher, b: Block): seq<(nat, Bytes)> {
    var fields := Fields(b.body);
    if keep(b.body) && AnyKept(keep, fields) then [(b.firstLine, Aggregated(keep, fields))] else []
  }

  /** The empty text fails the test, and what holds a passing text passes. */
  ghost predicate Occurrence(keep: LineMatcher) {
    !keep([]) && forall a: Bytes, s: Bytes, b: Bytes :: keep(s) ==> keep(a + s + b)
  }

  // ---- One block ----

  lemma {:induction false} AggregatedLines(keep: LineMatcher, lines: seq<Bytes>, fields: seq<Bytes>)
    requires !keep([]) && |lines| <= |fields| <= |lines| + 1
    requires forall i :: 0 <= i < |lines| ==> fields[i] == LineBody(lines[i])
    requires |fields| > |lines| ==> Last(fields) == []
    ensures Aggregated(keep, fields) == GrepLines(keep, PLAIN, 1, lines)
    decreases |lines|
  {
    hide LineBody, GrepLines;
    if lines == [] {
      NothingPrinted(keep, PLAIN, 1);
      NoLinesPrint(keep, PLAIN, 1);
      if fields != [] { assert fields[1..] == [] && fields[0] == []; }
    } else {
      KeptHead(keep, keep, lines);
      assert |fields| > |lines| ==> Last(fields[1..]) == Last(fields);
      AggregatedLines(keep, lines[1..], fields[1..]);
    }
  }

  /** The aggregate is the lines that pass, each with a terminator. */
  lemma AggregatedIsKept(keep: LineMatcher, text: Bytes)
    requires !keep([])
    ensures Aggregated(keep, Fields(text)) == KeptText(keep, text)
  {
    hide Fields, Lines, LineBody, Aggregated, GrepLines;
    FieldsAreLines(text);
    AggregatedLines(keep, Lines(text), Fields(text));
  }

  lemma {:induction false} NothingAggregated(keep: LineMatcher, fields: seq<Bytes>)
    requires !AnyKept(keep, fields)
    ensures Aggregated(keep, fields) == []
    decreases |fields|
  {
    if fields != [] {
      assert !keep(fields[0]);
      assert forall i :: 0 <= i < |fields[1..]| ==> fields[1..][i] == fields[i + 1];
      NothingAggregated(keep, fields[1..]);
    }
  }

  lemma Inside(keep: LineMatcher, a: Bytes, s: Bytes, b: Bytes, text: Bytes)
    requires Occurrence(keep) && keep(s) && text == a + s + b
    ensures keep(text)
  {
  }

  lemma {:induction false} FieldInText(keep: LineMatcher, text: Bytes, i: nat)
    requires Occurrence(keep) && i < |Fields(text)| && keep(Fields(text)[i])
    ensures keep(text)
    decreases |text|
  {
    hide Occurrence;
    var n := NewlineFrom(text, 0);
    if n < |text| {
      if i == 0 {
        Inside(keep, [], text[..n], text[n..], text);
      } else {
        FieldInText(keep, text[n + 1..], i - 1);
        Inside(keep, text[..n + 1], text[n + 1..], [], text);
      }
    }
  }

  /** A block without a row has no line that passes. */
  lemma RowIsKept(keep: LineMatcher, b: Block)
    requires Occurrence(keep)
    ensures FilteredRow(keep, b) == [(b.firstLine, KeptText(keep, b.body))] || (FilteredRow(keep, b) == [] && KeptText(keep, b.body) == [])
  {
    hide Fields, Aggregated, Lines, GrepText;
    var fields := Fields(b.body);
    AggregatedIsKept(keep, b.body);
    if i :| 0 <= i < |fields| && keep(fields[i]) {
      FieldInText(keep, b.body, i);
    } else {
      NothingAggregated(keep, fields);
    }
  }

  /** How the client filters once more: by its literals if there are any. */
  ghost predicate Refines(m: LineMatcher, literals: Option<seq<Bytes>>, keep: LineMatcher) {
    if literals.None? then m == keep
    else literals.value != [] && m == AnyLiteral(literals.value) && forall line: Bytes :: m(line) ==> keep(line)
  }

  lemma RowText(keep: LineMatcher, m: LineMatcher, literals: Option<seq<Bytes>>, b: Block)
    requires Occurrence(keep) && Refines(m, literals, keep)
    ensures Streamed(literals, FilteredRow(keep, b)) == GrepText(m, PLAIN, b.firstLine, b.body)
  {
    hide GrepText, FilteredRow, AnyLiteral, Found;
    RowIsKept(keep, b);
    AnyNumber(m, b.firstLine, b.body);
    KeptThenMatched(m, keep, b.body);
    var row: (nat, Bytes) := (b.firstLine, KeptText(keep, b.body));
    if FilteredRow(keep, b) == [row] {
      var rows := [row];
      assert rows[1..] == [];
      AnyNumber(m, row.0, row.1);
    } else {
      NoTextPrints(m);
    }
  }

  lemma NoTextPrints(m: LineMatcher)
    ensures GrepText(m, PLAIN, 1, []) == []
  {
    NothingPrinted(m, PLAIN, 1);
  }

  // ---- All blocks ----

  lemma {:induction false} StreamedAppend(literals: Option<seq<Bytes>>, a: seq<(nat, Bytes)>, b: seq<(nat, Bytes)>)
    ensures Streamed(literals, a + b) == Streamed(literals, a) + Streamed(literals, b)
    decreases |a|
  {
    hide Selected;
    if a == [] {
      assert a + b == b;
    } else {
      assert (a + b)[0] == a[0] && (a + b)[1..] == a[1..] + b;
      StreamedAppend(literals, a[1..], b);
      AppendAssociates(Selected(literals, a[0]), Streamed(literals, a[1..]), Streamed(literals, b));
    }
  }

  lemma {:induction false} RowsText(keep: LineMatcher, m: LineMatcher, literals: Option<seq<Bytes>>, blocks: seq<Block>)
    requires Occurrence(keep) && Refines(m, literals, keep)
    ensures Streamed(literals, FilteredRows(keep, blocks)) == GrepBlocks(m, PLAIN, blocks)
    decreases |blocks|
  {
    hide GrepText, FilteredRow, Occurrence, Refines, Selected;
    if blocks != [] {
      RowText(keep, m, literals, blocks[0]);
      RowsText(keep, m, literals, blocks[1..]);
      StreamedAppend(literals, FilteredRow(keep, blocks[0]), FilteredRows(keep, blocks[1..]));
    }
  }

  // ---- The routes ----

  /** `LIKE` on the escaped literal. */
  function HasNeedle(literal: Bytes): LineMatcher { line => Like(line, LiteralPatterns(Some([literal])).value[0], BYTES) }

  lemma NeedleOccurs(literal: Bytes, line: Bytes)
    ensures HasNeedle(literal)(line) <==> Contains(line, literal)
  {
    hide Like, Contains, ContainsPattern;
    LiteralPatternMeansContains(line, literal, BYTES);
  }

  lemma NeedleIsOccurrence(literal: Bytes)
    requires literal != []
    ensures Occurrence(HasNeedle(literal))
  {
    hide HasNeedle;
    var keep := HasNeedle(literal);
    NeedleOccurs(literal, []);
    forall a: Bytes, s: Bytes, b: Bytes | keep(s) ensures keep(a + s + b) {
      NeedleOccurs(literal, s);
      NeedleOccurs(literal, a + s + b);
      ContainsInMiddle(a, s, b, literal);
    }
  }

  /** With one literal: filtering the lines in SQL, then by the literal, then matching gives the answer of
      matching the whole file. */
  lemma LiteralLinesAreEnough(m: LineMatcher, literal: Bytes, blocks: seq<Block>)
    requires Required(m, [literal]) && Contiguous(blocks, 0, 1) && LineAligned(blocks)
    ensures var text := Streamed(Some([literal]), FilteredRows(HasNeedle(literal), blocks));
            && text == KeptText(AnyLiteral([literal]), Bodies(blocks))
            && GrepText(m, PLAIN, 1, text) == GrepText(m, PLAIN, 1, Bodies(blocks))
            && (Found(m, text) <==> Found(m, Bodies(blocks)))
  {
    hide GrepText, Found, Streamed, FilteredRows, Contiguous, LineAligned, GrepBlocks, FoundInBlocks, HasNeedle, Occurrence, Contains, FindIn;
    var own := AnyLiteral([literal]);
    assert [literal][0] != [];
    NeedleIsOccurrence(literal);
    forall line: Bytes ensures own(line) <==> Contains(line, literal) { OneLiteral(literal, line); }
    forall line: Bytes | own(line) ensures HasNeedle(literal)(line) { NeedleOccurs(literal, line); }
    RowsText(HasNeedle(literal), own, Some([literal]), blocks);
    BlockwiseIsWhole(own, PLAIN, blocks, 0, 1);
    KeptThenMatched(m, own, Bodies(blocks));
  }

  lemma OneLiteral(literal: Bytes, line: Bytes)
    ensures AnyLiteral([literal])(line) <==> Contains(line, literal)
  {
    hide FindIn, Contains;
    FindInIsContains(line, literal);
    assert [literal][0] == literal;
  }

  /** `~ '[A-Za-z]{n}'`. */
  ghost function HasLetters(n: nat): LineMatcher { line => HasRun(line, n) }

  lemma LettersAreOccurrence(n: nat)
    requires n > 0
    ensures Occurrence(HasLetters(n))
  {
    forall a: Bytes, s: Bytes, b: Bytes | HasRun(s, n) ensures HasRun(a + s + b, n) { RunInMiddle(a, s, b, n); }
  }

  /** The client asks for runs of at least eight letters. */
  const SHORTEST_RUN: nat := 8

  /** Without a literal but with a run of letters that every match has: filtering the lines in SQL, then
      matching gives the answer of matching the whole file. */
  lemma LetterLinesAreEnough(m: LineMatcher, h: Hir, n: nat, blocks: seq<Block>)
    requires Searches(m, h) && LetterRun(h) == Some(n) && n >= SHORTEST_RUN && RunGuaranteed(h, n)
    requires Contiguous(blocks, 0, 1) && LineAligned(blocks)
    ensures var text := Streamed(None, FilteredRows(HasLetters(n), blocks));
            && text == KeptText(HasLetters(n), Bodies(blocks))
            && GrepText(m, PLAIN, 1, text) == GrepText(m, PLAIN, 1, Bodies(blocks))
            && (Found(m, text) <==> Found(m, Bodies(blocks)))
  {
    hide GrepText, Found, Streamed, FilteredRows, Contiguous, LineAligned, GrepBlocks, FoundInBlocks, Occurrence, HasRun, Searches, LetterRun, RunGuaranteed;
    LettersAreOccurrence(n);
    RowsText(HasLetters(n), HasLetters(n), None, blocks);
    BlockwiseIsWhole(HasLetters(n), PLAIN, blocks, 0, 1);
    RunFilterIsSound(m, h, n);
    KeptThenMatched(m, HasLetters(n), Bodies(blocks));
  }
}
