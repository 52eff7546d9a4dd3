/**
 * The `Lexer` object: its cursor, line buffer and current token are fields
 * updated in place, and each operation is proved to leave exactly the state
 * the corresponding `LineBuffer` function describes.
 */
module Lexing {
  import opened LineBuffer

  class Lexer {
    /** The lines of the source file, and the index of the first one not read yet. */
    var source: seq<string>
    var next: nat
    /** `file_loc.line` and `file_loc.col`. */
    var line: int
    var col: nat
    /** The line buffer and its cached length. */
    var codeLine: string
    var codeLineLength: int
    /** The current token. */
    var kind: TokenKind
    var tokenText: string

    function State(): Lex
      reads this
    {
      Lex(source, next, line, col, codeLine, kind, tokenText)
    }

    predicate Valid()
      reads this
    {
      codeLineLength == |codeLine|
    }

    /**
     * `Lexer(file_loc)`: starts at the given location and loads the first
     * line, so the cursor is at column 0 one line further on. The token kind
     * is left as it comes.
     */
    constructor (source: seq<string>, line0: int, col0: nat)
      ensures Valid()
      ensures State() == AfterNextLine(Lex(source, 0, line0, col0, "", kind, ""))
    {
      this.source := source;
      next := 0;
      line := line0;
      col := col0;
      codeLine := "";
      codeLineLength := 0;
      tokenText := "";
      new;
      NextLine();
    }

    /** `nextLine` */
    method NextLine()
      requires Valid()
      modifies this
      ensures Valid() && State() == AfterNextLine(old(State()))
    {
      if next < |source| {
        codeLine := source[next];
        next := next + 1;
      } else {
        codeLine := "";
      }
      codeLineLength := |codeLine|;
      line := line + 1;
      col := 0;
    }

    /** `eat_chars(number)` */
    method EatChars(number: nat)
      requires Valid()
      modifies this
      ensures Valid() && State() == AfterEat(old(State()), number)
    {
      var n := number;
      while n > 0
        invariant Valid() && EatLoop(State(), n) == EatLoop(old(State()), number)
      {
        if col == codeLineLength {
          NextLine();
        }
        col := col + 1;
        n := n - 1;
      }
      if col == codeLineLength {
        NextLine();
      }
    }

    /** The base `TokenHandler::handle`: eats the character under the cursor if it is whitespace. */
    method Handle()
      requires Valid() && InLine(State())
      modifies this
      ensures Valid() && State() == AfterBaseHandle(old(State()))
    {
      var c := if col < codeLineLength then codeLine[col] else Nul;
      if IsWhitespace(c) {
        EatChars(1);
      }
    }

    /**
     * The body of a keyword matcher for `w` (`TokenHandler_def::handle` and
     * its siblings) up to the point where it would pass; reports whether it
     * committed the keyword.
     */
    method HandleKeyword(w: string) returns (committed: bool)
      requires Valid() && InLine(State())
      modifies this
      ensures Valid() && InLine(State())
      ensures committed == MatchKeyword(old(State()), w).Committed?
      ensures State() == MatchKeyword(old(State()), w).after
    {
      Handle();
      if Unhandled(State()) < |w| {
        return false;
      }
      if CharsInLine(State(), |w|) == w && (AtEndOfLine(State(), |w|) || IsSpace(State(), |w|)) {
        kind := Keyword;
        tokenText := w;
        EatWithinLine(State(), |w|);
        EatChars(|w|);
        return true;
      }
      return false;
    }

    /**
     * A chain of keyword matchers: each one that does not commit passes on
     * to the next (`pass`), and the unknown handler at the end only builds a
     * diagnostic, which is discarded.
     */
    method HandleChain(words: seq<string>)
      requires Valid() && InLine(State())
      modifies this
      ensures Valid() && InLine(State()) && State() == AfterChain(old(State()), words)
      decreases |words|
    {
      if words == [] {
        return;
      }
      var committed := HandleKeyword(words[0]);
      if !committed {
        HandleChain(words[1..]);
      }
    }

    /** `nextToken`: runs the default chain `def`, `print`, `for`, `in`, unknown. */
    method NextToken()
      requires Valid() && InLine(State())
      modifies this
      ensures Valid() && InLine(State()) && State() == LineBuffer.NextToken(old(State()))
    {
      HandleChain(DefaultKeywords);
    }

    /**
     * The newer base `TokenHandler::handle`: eats whitespace up to the first
     * other character or the end of the line, then loads the next line if it
     * got to the end.
     */
    method SkipBlank()
      requires Valid() && InLine(State())
      modifies this
      ensures Valid() && InLine(State()) && State() == AfterSkipBlank(old(State()))
    {
      while col != codeLineLength && IsWhitespace(codeLine[col])
        invariant Valid() && col <= codeLineLength
        invariant State() == old(State()).(col := col)
        invariant FirstNonBlank(codeLine, col) == FirstNonBlank(codeLine, old(col))
        decreases codeLineLength - col
      {
        // eat_chars_in_the_current_line(1)
        col := col + 1;
      }
      if col == codeLineLength {
        NextLine();
      }
    }
  }
}
