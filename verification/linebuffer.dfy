/**
 * The line-buffered keyword lexer, as functions of its state.
 *
 * The lexer reads its source one line at a time into a buffer and keeps a
 * cursor (line counter and column) into it; the current token is a kind and
 * a text. Every lexer operation is written here as the state it leaves
 * behind; the `Lexer` class performs the same steps in place.
 */
module LineBuffer {

  /** The token kinds of the lexer (`tk_punctuation` .. `tk_eof`). */
  datatype TokenKind = Punctuation | Identifier | Keyword | Literal | Eof

  /**
   * The lexer's state. `source` holds the lines of the file and `next` the
   * index of the first line not read yet; `line` and `col` are the cursor,
   * `codeLine` the line buffer, `kind` and `text` the current token.
   */
  datatype Lex = Lex(source: seq<string>, next: nat, line: int, col: nat,
                     codeLine: string, kind: TokenKind, text: string)

  /** `std::isspace` in the "C" locale: space, tab, newline, vertical tab, form feed, carriage return. */
  function IsWhitespace(c: char): (r: bool)
    ensures r <==> c as int in {9, 10, 11, 12, 13, 32}
  {
    c == ' ' || ('\t' <= c <= '\r')
  }

  /** The terminating NUL of the line buffer, read when the cursor sits just past its end. */
  const Nul: char := '\0'

  /** The cursor lies inside the line buffer or just past its last character. */
  predicate InLine(s: Lex) {
    s.col <= |s.codeLine|
  }

  /** The token is the same in both states. */
  predicate SameToken(s: Lex, r: Lex) {
    r.source == s.source && r.kind == s.kind && r.text == s.text
  }

  /**
   * `nextLine`: loads the next line of the source into the buffer (an empty
   * line once the source is exhausted), counts one more line and puts the
   * cursor at column 0.
   */
  function AfterNextLine(s: Lex): (r: Lex)
    ensures SameToken(s, r) && InLine(r) && r.col == 0 && r.line == s.line + 1
    ensures s.next < |s.source| ==> r.codeLine == s.source[s.next] && r.next == s.next + 1
    ensures s.next >= |s.source| ==> r.codeLine == "" && r.next == s.next
  {
    if s.next < |s.source| then s.(next := s.next + 1, codeLine := s.source[s.next], line := s.line + 1, col := 0)
    else s.(codeLine := "", line := s.line + 1, col := 0)
  }

  /**
   * `num_of_unhandled_chars_this_line`: the characters left in the buffer,
   * none exactly at the end of the line and a negative count only past it.
   */
  function Unhandled(s: Lex): (r: int)
    ensures r == 0 <==> AtEndOfLine(s, 0)
    ensures r >= 0 <==> InLine(s)
  {
    |s.codeLine| - s.col
  }

  /** `is_end_of_line(n)`: exactly `n` characters of the buffer remain from the cursor on. */
  function AtEndOfLine(s: Lex, n: nat): (r: bool)
    ensures r <==> InLine(s) && |s.codeLine[s.col..]| == n
  {
    s.col + n == |s.codeLine|
  }

  /**
   * `get_chars_in_this_line(n)`: the `n` characters from the cursor on, which
   * must all lie in the buffer.
   */
  function CharsInLine(s: Lex, n: nat): (r: string)
    requires s.col + n <= |s.codeLine|
    ensures |r| == n && forall i :: 0 <= i < n ==> r[i] == s.codeLine[s.col + i]
  {
    s.codeLine[s.col..s.col + n]
  }

  /**
   * `is_space(n)`: false at the end of the buffer; otherwise the `n`-th
   * character from the cursor, which must lie in the buffer, is whitespace.
   */
  function IsSpace(s: Lex, n: nat): (r: bool)
    requires s.col + n <= |s.codeLine|
    ensures r ==> !AtEndOfLine(s, n)
    ensures r <==> s.col + n < |s.codeLine| && IsWhitespace(CharsInLine(s, n + 1)[n])
  {
    if AtEndOfLine(s, n) then false else IsWhitespace(s.codeLine[s.col + n])
  }

  /** `code_line[col]`: the character under the cursor, NUL just past the end. */
  function CurrentChar(s: Lex): (c: char)
    requires InLine(s)
    ensures c == Nul <== s.col == |s.codeLine|
    ensures s.col < |s.codeLine| ==> c == s.codeLine[s.col]
  {
    if s.col < |s.codeLine| then s.codeLine[s.col] else Nul
  }

  /** One turn of the `eat_chars` loop: load the next line when at its end, then advance one column. */
  function EatStep(s: Lex): Lex {
    var t := if s.col == |s.codeLine| then AfterNextLine(s) else s;
    t.(col := t.col + 1)
  }

  /** `n` turns of the `eat_chars` loop. */
  function EatLoop(s: Lex, n: nat): (r: Lex)
    ensures SameToken(s, r)
    ensures r.line >= s.line
    decreases n
  {
    if n == 0 then s else EatLoop(EatStep(s), n - 1)
  }

  /**
   * `eat_chars(n)`: the loop, then one more line load if the cursor ended at
   * the end of the buffer. The cursor ends at the end of the buffer only on
   * an empty line just loaded.
   */
  function AfterEat(s: Lex, n: nat): (r: Lex)
    ensures SameToken(s, r)
    ensures r.col == |r.codeLine| ==> r.col == 0 && r.codeLine == "" && r.line > s.line
  {
    var t := EatLoop(s, n);
    if t.col == |t.codeLine| then AfterNextLine(t) else t
  }

  /** Within one line the `eat_chars` loop only moves the column. */
  lemma {:induction false} EatLoopWithinLine(s: Lex, n: nat)
    requires s.col + n <= |s.codeLine|
    ensures EatLoop(s, n) == s.(col := s.col + n)
    decreases n
  {
    if n > 0 {
      assert EatStep(s) == s.(col := s.col + 1);
      EatLoopWithinLine(s.(col := s.col + 1), n - 1);
    }
  }

  /**
   * Eating characters that stay inside the line moves the column by that
   * many; eating exactly up to the end of the line moves to the next line.
   */
  lemma EatWithinLine(s: Lex, n: nat)
    requires s.col + n <= |s.codeLine|
    ensures s.col + n < |s.codeLine| ==> AfterEat(s, n) == s.(col := s.col + n)
    ensures s.col + n == |s.codeLine| ==> AfterEat(s, n) == AfterNextLine(s)
    ensures InLine(AfterEat(s, n))
  {
    EatLoopWithinLine(s, n);
  }

  /**
   * Eating past the end of a line onto an empty line leaves the cursor
   * beyond that line's end: from "ab" at column 0, three characters with an
   * empty line next end at column 1 of the empty buffer.
   */
  lemma EatOverrunsEmptyLine()
    ensures var r := AfterEat(Lex([""], 0, 1, 0, "ab", Punctuation, ""), 3);
            r.codeLine == "" && r.col == 1 && !InLine(r)
  {
    var s := Lex([""], 0, 1, 0, "ab", Punctuation, "");
    assert EatStep(s) == s.(col := 1);
    assert EatStep(s.(col := 1)) == s.(col := 2);
    assert EatStep(s.(col := 2)) == Lex([""], 1, 2, 1, "", Punctuation, "");
  }

  /**
   * The base `TokenHandler::handle` of the original lexer: eats one
   * character when the one under the cursor is whitespace, else does nothing.
   */
  function AfterBaseHandle(s: Lex): (r: Lex)
    requires InLine(s)
    ensures SameToken(s, r) && InLine(r)
  {
    if IsWhitespace(CurrentChar(s)) then
      EatWithinLine(s, 1);
      AfterEat(s, 1)
    else s
  }

  /**
   * The base handle moves the cursor by one character exactly when it sits
   * on whitespace, stepping to the next line when that was the last
   * character; at the end of the buffer it reads NUL and stays put.
   */
  lemma BaseHandleMoves(s: Lex)
    requires InLine(s)
    ensures s.col == |s.codeLine| ==> AfterBaseHandle(s) == s
    ensures s.col < |s.codeLine| && !IsWhitespace(s.codeLine[s.col]) ==> AfterBaseHandle(s) == s
    ensures s.col + 1 < |s.codeLine| && IsWhitespace(s.codeLine[s.col]) ==>
      AfterBaseHandle(s) == s.(col := s.col + 1)
    ensures s.col + 1 == |s.codeLine| && IsWhitespace(s.codeLine[s.col]) ==>
      AfterBaseHandle(s) == AfterNextLine(s)
  {
    if s.col < |s.codeLine| {
      EatWithinLine(s, 1);
    }
  }

  /**
   * Keyword `w` sits at column `col` of `line`, followed by whitespace or by
   * the end of the line.
   */
  predicate KeywordAt(line: string, col: nat, w: string) {
    col + |w| <= |line| && line[col..col + |w|] == w &&
    (col + |w| == |line| || IsWhitespace(line[col + |w|]))
  }

  /** A matcher either takes the token or hands the state on to the next one. */
  datatype Outcome = Committed(after: Lex) | Deferred(after: Lex)

  /**
   * `TokenHandler_def::handle` and its siblings, for keyword `w`: the base
   * handle, then a commit of `w` as a keyword when fewer characters than
   * its length do not remain, it is spelled out at the cursor and it ends at
   * the end of the line or before whitespace.
   */
  function MatchKeyword(s: Lex, w: string): (o: Outcome)
    requires InLine(s)
    ensures InLine(o.after) && o.after.source == s.source
  {
    var h := AfterBaseHandle(s);
    if Unhandled(h) < |w| then Deferred(h)
    else if CharsInLine(h, |w|) == w && (AtEndOfLine(h, |w|) || IsSpace(h, |w|)) then
      EatWithinLine(h.(kind := Keyword, text := w), |w|);
      Committed(AfterEat(h.(kind := Keyword, text := w), |w|))
    else Deferred(h)
  }

  /**
   * A keyword matcher commits exactly when the keyword stands delimited at
   * the cursor left by the base handle; it then sets the token to the
   * keyword and eats its characters, and otherwise only the base handle has
   * acted.
   */
  lemma MatchKeywordSpec(s: Lex, w: string)
    requires InLine(s)
    ensures var h := AfterBaseHandle(s);
      (MatchKeyword(s, w).Committed? <==> KeywordAt(h.codeLine, h.col, w)) &&
      (MatchKeyword(s, w).Committed? ==>
         MatchKeyword(s, w).after == AfterEat(h.(kind := Keyword, text := w), |w|) &&
         MatchKeyword(s, w).after.kind == Keyword && MatchKeyword(s, w).after.text == w) &&
      (MatchKeyword(s, w).Deferred? ==> MatchKeyword(s, w).after == h)
  {
    var h := AfterBaseHandle(s);
    if h.col + |w| <= |h.codeLine| && CharsInLine(h, |w|) == w {
      assert h.codeLine[h.col..h.col + |w|] == w;
    }
  }

  /** The keywords of the default chain, in the order they are tried (`def`, `print`, `for`, `in`). */
  const DefaultKeywords: seq<string> := ["def", "print", "for", "in"]

  /**
   * The position in `words` of the first keyword that stands delimited at
   * column `col` of `line`, or `|words|` when none does.
   */
  function FirstKeyword(line: string, col: nat, words: seq<string>): (i: nat)
    ensures i <= |words|
    ensures forall k :: 0 <= k < i ==> !KeywordAt(line, col, words[k])
    ensures i < |words| ==> KeywordAt(line, col, words[i])
    decreases |words|
  {
    if words == [] || KeywordAt(line, col, words[0]) then 0
    else 1 + FirstKeyword(line, col, words[1..])
  }

  /** The cursor is on a character of the line that is not whitespace. */
  predicate AtNonBlank(s: Lex) {
    s.col < |s.codeLine| && !IsWhitespace(s.codeLine[s.col])
  }

  /**
   * A chain of keyword matchers ended by the unknown handler. Each matcher
   * that does not commit passes the state on; the unknown handler only
   * builds a diagnostic and changes nothing. From a cursor on a non-blank
   * character, the first keyword of the chain standing delimited there is
   * committed and its characters eaten; when there is none the state is
   * left exactly as it was.
   */
  function AfterChain(s: Lex, words: seq<string>): (r: Lex)
    requires InLine(s)
    ensures InLine(r) && r.source == s.source
    ensures (r.kind == s.kind && r.text == s.text) || (r.kind == Keyword && r.text in words)
    ensures AtNonBlank(s) ==>
      var i := FirstKeyword(s.codeLine, s.col, words);
      r == if i < |words| then AfterEat(s.(kind := Keyword, text := words[i]), |words[i]|) else s
    decreases |words|
  {
    if words == [] then s
    else
      BaseHandleMoves(s);
      MatchKeywordSpec(s, words[0]);
      match MatchKeyword(s, words[0])
      case Committed(r) => r
      case Deferred(r) => AfterChain(r, words[1..])
  }

  /**
   * From a cursor on a blank followed by a non-blank on the same line, the
   * chain's first matcher eats the blank and the chain then acts as it
   * would from the following column.
   */
  lemma ChainEatsOneBlank(s: Lex, words: seq<string>)
    requires s.col + 1 < |s.codeLine| && IsWhitespace(s.codeLine[s.col])
    requires !IsWhitespace(s.codeLine[s.col + 1]) && words != []
    ensures AfterChain(s, words) == AfterChain(s.(col := s.col + 1), words)
  {
    var t := s.(col := s.col + 1);
    BaseHandleMoves(s);
    MatchKeywordSpec(s, words[0]);
    if !KeywordAt(t.codeLine, t.col, words[0]) {
      assert AtNonBlank(t);
      assert FirstKeyword(t.codeLine, t.col, words) == 1 + FirstKeyword(t.codeLine, t.col, words[1..]);
    }
  }

  /** No keyword of the default chain is a proper prefix of another, so at most one stands at a column. */
  lemma DefaultKeywordsExclusive(line: string, col: nat, u: string, v: string)
    requires u in DefaultKeywords && v in DefaultKeywords
    requires KeywordAt(line, col, u) && KeywordAt(line, col, v)
    ensures u == v
  {
  }

  /**
   * `nextToken`: one run of the default chain. From a cursor on a non-blank
   * character it commits `def`, `print`, `for` or `in` exactly when that
   * keyword stands delimited there, and otherwise changes nothing.
   */
  function NextToken(s: Lex): (r: Lex)
    requires InLine(s)
    ensures (r.kind == s.kind && r.text == s.text) || (r.kind == Keyword && r.text in DefaultKeywords)
    ensures AtNonBlank(s) ==> forall w :: w in DefaultKeywords && KeywordAt(s.codeLine, s.col, w) ==>
      r == AfterEat(s.(kind := Keyword, text := w), |w|)
    ensures AtNonBlank(s) && (forall w :: w in DefaultKeywords ==> !KeywordAt(s.codeLine, s.col, w)) ==> r == s
  {
    var r := AfterChain(s, DefaultKeywords);
    assert AtNonBlank(s) ==> forall w :: w in DefaultKeywords && KeywordAt(s.codeLine, s.col, w) ==>
      r == AfterEat(s.(kind := Keyword, text := w), |w|) by {
      if AtNonBlank(s) {
        forall w | w in DefaultKeywords && KeywordAt(s.codeLine, s.col, w)
          ensures r == AfterEat(s.(kind := Keyword, text := w), |w|)
        {
          var i := FirstKeyword(s.codeLine, s.col, DefaultKeywords);
          if i < |DefaultKeywords| {
            DefaultKeywordsExclusive(s.codeLine, s.col, w, DefaultKeywords[i]);
          }
        }
      }
    }
    r
  }

  /**
   * At the end of the buffer no matcher of a non-empty keyword finds
   * anything and the base handle reads NUL, so the chain leaves the state as
   * it was: the lexer makes no progress on an empty line.
   */
  lemma {:induction false} ChainStuckAtEndOfLine(s: Lex, words: seq<string>)
    requires s.col == |s.codeLine|
    requires forall i :: 0 <= i < |words| ==> words[i] != ""
    ensures AfterChain(s, words) == s
    decreases |words|
  {
    if words != [] {
      BaseHandleMoves(s);
      MatchKeywordSpec(s, words[0]);
      ChainStuckAtEndOfLine(s, words[1..]);
    }
  }

  /** `nextToken` on an empty line buffer leaves the whole state unchanged. */
  lemma NextTokenStuckOnEmptyLine(s: Lex)
    requires s.codeLine == "" && s.col == 0
    ensures NextToken(s) == s
  {
    ChainStuckAtEndOfLine(s, DefaultKeywords);
  }

  /** A keyword must be delimited: on "forward" the `for` matcher passes and no token is made. */
  lemma ForwardIsNoKeyword(k: TokenKind, t: string)
    ensures var s := Lex([], 0, 1, 0, "forward", k, t);
            NextToken(s) == s
  {
    var s := Lex([], 0, 1, 0, "forward", k, t);
    assert s.codeLine[0..3][0] != "def"[0];
    DeferAtNonBlank(s, "def");
    assert s.codeLine[0..5] != "print";
    DeferAtNonBlank(s, "print");
    assert !IsWhitespace(s.codeLine[3]);
    DeferAtNonBlank(s, "for");
    assert s.codeLine[0..2] != "in";
    DeferAtNonBlank(s, "in");
  }

  /** A matcher on a blank that does not precede its keyword eats the blank and passes. */
  lemma DeferAfterBlank(s: Lex, w: string)
    requires s.col + 1 < |s.codeLine| && IsWhitespace(s.codeLine[s.col])
    requires !KeywordAt(s.codeLine, s.col + 1, w)
    ensures MatchKeyword(s, w) == Deferred(s.(col := s.col + 1))
  {
    BaseHandleMoves(s);
    MatchKeywordSpec(s, w);
  }

  /** A matcher on a non-blank that does not start its keyword passes without moving. */
  lemma DeferAtNonBlank(s: Lex, w: string)
    requires s.col < |s.codeLine| && !IsWhitespace(s.codeLine[s.col])
    requires !KeywordAt(s.codeLine, s.col, w)
    ensures MatchKeyword(s, w) == Deferred(s)
  {
    BaseHandleMoves(s);
    MatchKeywordSpec(s, w);
  }

  /**
   * Each keyword matcher runs the base handle first, so leading whitespace
   * is skipped one character per matcher: on "  in x" the `def` and
   * `print` matchers eat one blank each and the `in` matcher commits.
   */
  lemma BlanksSkippedPerMatcher(k: TokenKind, t: string)
    ensures var s := Lex([], 0, 1, 0, "  in x", k, t);
            NextToken(s) == s.(col := 4, kind := Keyword, text := "in")
  {
    var s := Lex([], 0, 1, 0, "  in x", k, t);
    assert s.codeLine[1..4][0] != "def"[0];
    DeferAfterBlank(s, "def");
    var s2 := s.(col := 2);
    DeferAfterBlank(s.(col := 1), "print");
    assert s2.codeLine[2..5][0] != "for"[0];
    DeferAtNonBlank(s2, "for");
    assert s2.codeLine[2..4] == "in" && KeywordAt(s2.codeLine, 2, "in");
    BaseHandleMoves(s2);
    MatchKeywordSpec(s2, "in");
    EatWithinLine(s2.(kind := Keyword, text := "in"), 2);
  }

  /**
   * The first column at or after `col` that holds no whitespace, or the end
   * of the line when there is none.
   */
  function FirstNonBlank(line: string, col: nat): (r: nat)
    requires col <= |line|
    ensures col <= r <= |line|
    ensures forall j :: col <= j < r ==> IsWhitespace(line[j])
    ensures r < |line| ==> !IsWhitespace(line[r])
    decreases |line| - col
  {
    if col == |line| || !IsWhitespace(line[col]) then col else FirstNonBlank(line, col + 1)
  }

  /**
   * The newer base `TokenHandler::handle`: skips the whitespace under the
   * cursor and, when that reaches the end of the line, loads the next line.
   */
  function AfterSkipBlank(s: Lex): (r: Lex)
    requires InLine(s)
    ensures SameToken(s, r) && InLine(r)
  {
    var j := FirstNonBlank(s.codeLine, s.col);
    if j == |s.codeLine| then AfterNextLine(s) else s.(col := j)
  }

  /**
   * The skip routine either stops on the same line at the first character
   * that is not whitespace, or, when only whitespace remains, advances to
   * column 0 of the next line without skipping anything there.
   */
  lemma SkipBlankSpec(s: Lex)
    requires InLine(s)
    ensures var r := AfterSkipBlank(s);
      (r.line == s.line && r.codeLine == s.codeLine && s.col <= r.col < |s.codeLine| &&
       !IsWhitespace(s.codeLine[r.col]) &&
       (forall j :: s.col <= j < r.col ==> IsWhitespace(s.codeLine[j]))) ||
      (r == AfterNextLine(s) && forall j :: s.col <= j < |s.codeLine| ==> IsWhitespace(s.codeLine[j]))
  {
  }

  /** A blank rest of line moves to the next line, whose own leading blanks stay. */
  lemma SkipBlankStopsAtNewLine()
    ensures AfterSkipBlank(Lex(["  x"], 0, 1, 1, "  ", Punctuation, "")) ==
            Lex(["  x"], 1, 2, 0, "  x", Punctuation, "")
  {
    assert FirstNonBlank("  ", 1) == 2;
  }
}
