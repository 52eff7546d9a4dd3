# Pieck front end: tensor shapes, the keyword lexer and statement chains

This project models three pieces of the Pieck compiler front end in Dafny and
proves what they do.

**Tensor literals and their shapes** (`shapes.dfy`, `values.dfy`, `arena.dfy`,
`shapelaws.dfy`).
- A `Shape` is a rank and a list of dimension sizes. Rank -1 is the
  "uninitialized" sentinel. Shape equality is strict: an uninitialized shape
  equals nothing, not even itself.
- Scalar and tensor values live in an arena indexed by number. A tensor lists
  its elements by index, and each element index is smaller than the tensor's
  own, so the values form an acyclic graph in which one value may appear as
  several elements.
- Each value has a mutable `_shape` memo. `shape_checking` is the class method
  `Arena.Check` with its three loops (`NextDims`, `CheckElements`,
  `CompareElements`). `Value::shape()` is `Arena.GetShape`.
- Both are proved against the function `ShapeOf`. Their contracts state which
  tensors are accepted and what every memo entry holds afterwards (`CheckedMemo`).
  Every tensor the check visits and accepts is cached, even when an enclosing
  tensor is then rejected. Nothing else changes.
- `ShapeOf` is proved to accept exactly the homogeneous, NumPy-style arrays
  (`Conforms`).

**The line-buffered keyword lexer** (`linebuffer.dfy`, `lexer.dfy`).
- The state is the lines of the source, a line buffer, a cursor, and the
  current token kind and text.
- Every helper and matcher is a function of that state. The `Lexer` class
  performs the same steps in place, and each of its methods is proved to leave
  exactly that state.
- The helpers are `nextLine`, `eat_chars`, `is_end_of_line`, `is_space`,
  `get_chars_in_this_line` and `num_of_unhandled_chars_this_line`.
- The matchers are the four keyword matchers, the unknown handler, and the
  chain `def → print → for → in → unknown`.
- The newer whitespace-skipping base handler of `include/Lexer.h` is modelled
  as an alternative skip routine over the same buffer.

**Structural helpers** (`scope.dfy`, `stmtchain.dfy`).
- The `Scope` stack with its prefix ordering.
- `StmtChain`, a linked list whose nodes all point at its first node.
- The `CompoundStmt` cursor over a `StmtChain`. `Parser.cpp` and
  `src/Parser.cpp` hold the same `add`, `header`, `next`, `isTail` and
  `isHeader`; it is modelled once. `cur` exists only in `src/Parser.cpp`, and
  in `Parser.cpp` a statement also holds a pointer to its `Scope`.

Where `eat_chars` is concerned the model follows the code:
- It can return with the column at the end of the buffer, namely when the line
  it just loaded is empty (`AfterEat`).
- When it eats past the end of a line onto an empty one, the column ends
  beyond that line's end (`EatOverrunsEmptyLine`).

## Model

| member | source | states |
|---|---|---|
| `Shapes.Equal` | src/Parser.cpp:25-38 | false when either side is uninitialized (so an uninitialized shape is unequal to itself); otherwise true exactly when ranks and all sizes agree, so any two rank-0 shapes are equal |
| `Shapes.NotEqual` | include/Parser.h:173-175 | exactly the negation of `Equal` |
| `Shapes.Shape.Uninitialized` | include/Parser.h:175 | a well-formed shape is uninitialized exactly when it is not the shape of its own sizes |
| `Shapes.Unset` | include/Parser.h:161-166 | the default shape is uninitialized and has no sizes |
| `Values.NextDim` | src/Parser.cpp:59-64 | 0 for a scalar and the element count for a tensor, so that among well-formed nodes the count is 0 exactly for scalars |
| `Values.ShapeOf` | src/Parser.cpp:57-101 | the reference definition of the check; an accepted value has the empty shape exactly when it is a scalar, and every size in an accepted shape is positive |
| `Values.VisitsBelow` | src/Parser.cpp:82-87 | the check of a tensor only ever reaches tensors at or below its own index |
| `Values.PartlyCheckedStep` | src/Parser.cpp:82-87 | checking one more element adds exactly that element's visited, accepted tensors to the cached ones |
| `Values.NoDescent` | src/Parser.cpp:59-79 | a check that stops before the elements touches only the tensor's own memo, and only when it accepts |
| `Values.FinishDescent` | src/Parser.cpp:80-101 | after all elements are checked the memo is the one the whole check leaves, except at the tensor itself |
| `Values.ElementsCached` | src/Parser.cpp:82-92 | once every element has been checked and accepted, each element's memo holds its shape, so the comparison loop reads cached shapes |
| `Values.NextDimDiffers` | src/Parser.cpp:65-71 | an element whose next-level count differs from the first one's makes the tensor fail |
| `Values.ElementFails` | src/Parser.cpp:82-89 | one rejected element makes the tensor fail |
| `Values.ElementDiffers` | src/Parser.cpp:90-94 | an element shape different from the first one's makes the tensor fail |
| `Values.ElementsAgree` | src/Parser.cpp:90-100 | elements all of shape `d` give the tensor shape `[element count] ++ d` |
| `ValueArena.Arena.IsScala` | include/Parser.h:213 | true exactly for a scalar value, whose next-level count is 0 |
| `ValueArena.Arena.IsTensor` | include/Parser.h:223 | true exactly when `is_scala()` is false: every value is one kind or the other |
| `ValueArena.Arena.AddScalar` | include/Parser.h:202-215 | a new scalar starts with the rank-0 shape, is a scalar and not a tensor |
| `ValueArena.Arena.AddTensor` | include/Parser.h:217-223 | a new tensor of earlier values starts with an uninitialized memo and is a tensor |
| `ValueArena.Arena.SetShape` | include/Parser.h:228 | overwrites that tensor's memo and nothing else |
| `ValueArena.Arena.Check` | src/Parser.cpp:57-101 | accepts exactly when `ShapeOf` gives a shape, and leaves every visited, accepted tensor's memo holding its shape and every other memo as it was |
| `ValueArena.Arena.NextDims` | src/Parser.cpp:59-71 | reports whether all elements have the first element's next-level count (0 for a scalar, element count for a tensor) |
| `ValueArena.Arena.Descend` | src/Parser.cpp:80-101 | for a tensor of equally sized sub-tensors, accepts exactly when `ShapeOf` does, with the same memo effect as `Check` |
| `ValueArena.Arena.CheckElements` | src/Parser.cpp:82-87 | checks every element even after one fails (`&=` does not short-circuit); the result is true exactly when all are accepted |
| `ValueArena.Arena.CompareElements` | src/Parser.cpp:88-99 | with all elements cached, reports whether their shapes agree, which is exactly acceptance, and returns the first shape |
| `ValueArena.Arena.GetShape` | src/Parser.cpp:103-109 | a set memo is returned unchanged with nothing checked; otherwise the check runs and the result is the shape, or the logic error when the check failed; a scalar answers rank 0 |
| `ValueArena.ShapeCheckingScenario` | unittests/testParser.cpp:4-27 | `[[s,s],[s,s,s]]` raises the logic error and `[[s,s],[s,s]]` has shape `(2,2)` |
| `ValueArena.ShapeQueriedTwice` | src/Parser.cpp:103-109 | two successive `shape()` calls on the same value give the same answer |
| `ValueArena.PartialCacheScenario` | src/Parser.cpp:82-89 | a rejected parent leaves its accepted sub-tensor cached and its rejected one unset |
| `ShapeLaws.ShapeHead` | src/Parser.cpp:59-64 | an accepted value's first dimension is its next-level count, and only scalars have the empty shape |
| `ShapeLaws.ShapeOfSound` | src/Parser.cpp:45-56 | every shape the check answers is one the value conforms to as a homogeneous array |
| `ShapeLaws.ShapeOfComplete` | src/Parser.cpp:45-56 | every homogeneous array is accepted with exactly its shape |
| `ShapeLaws.ShapeOfIff` | src/Parser.cpp:45-56 | the check answers `d` if and only if the value is an array of shape `d` |
| `ShapeLaws.ConformsUnique` | src/Parser.cpp:45-56 | a value conforms to at most one shape |
| `ShapeLaws.MixedFails` | src/Parser.cpp:59-71 | a scalar next to a tensor among the elements always fails |
| `ShapeLaws.RaggedFails` | src/Parser.cpp:88-94 | two accepted elements of different shapes make the tensor fail |
| `ShapeLaws.VisitedAccepted` | src/Parser.cpp:82-89 | when a tensor is accepted, so is every tensor its check visits |
| `ShapeLaws.AcceptedAllCached` | src/Parser.cpp:82-100 | after an accepted check every visited tensor's memo is set to its shape |
| `ShapeLaws.CheckIdempotent` | src/Parser.cpp:57-101 | checking the same tensor twice leaves the memo as the first check did |
| `LineBuffer.AfterNextLine` | Lexer.cpp:24-29 | loads the next source line (an empty one past the end), counts one more line, column 0 |
| `LineBuffer.Unhandled` | Lexer.cpp:31-33 | the count is 0 exactly at end of line (`is_end_of_line(0)`, Lexer.cpp:40-42) and non-negative exactly while the cursor is inside the buffer |
| `LineBuffer.CharsInLine` | Lexer.cpp:19-22 | requires the characters to lie in the line; returns exactly the `n` characters at the cursor |
| `LineBuffer.IsWhitespace` | Lexer.cpp:49 | `std::isspace` in the "C" locale: exactly space, tab, newline, vertical tab, form feed and carriage return |
| `LineBuffer.AtEndOfLine` | Lexer.cpp:40-42 | true exactly when the cursor is inside the buffer and `n` characters of it remain |
| `LineBuffer.IsSpace` | Lexer.cpp:44-50 | false at the end of the line; otherwise whether the character `n` places after the cursor is whitespace |
| `LineBuffer.CurrentChar` | Lexer.h:115 | the character under the cursor, or the terminating NUL just past the end |
| `LineBuffer.EatLoop` | Lexer.cpp:10-15 | the loop of `eat_chars` changes neither the source nor the token and never moves back a line |
| `LineBuffer.AfterEat` | Lexer.cpp:9-17 | leaves the token alone, and ends at the end of the buffer only on a freshly loaded empty line |
| `LineBuffer.EatLoopWithinLine` | Lexer.cpp:10-15 | within a line the loop only advances the column by `n` |
| `LineBuffer.EatWithinLine` | Lexer.cpp:9-17 | eating inside a line advances the column; eating exactly to its end loads the next line |
| `LineBuffer.EatOverrunsEmptyLine` | Lexer.cpp:9-17 | eating across onto an empty line leaves the column past that line's end |
| `LineBuffer.AfterBaseHandle` | Lexer.h:114-118 | the base handle keeps the token and the cursor inside the buffer |
| `LineBuffer.BaseHandleMoves` | Lexer.h:114-118 | eats exactly one character when it is whitespace (loading the next line if it was the last), else changes nothing, also at end of line |
| `LineBuffer.MatchKeyword` | Lexer.cpp:57-70 | a keyword matcher keeps the cursor inside the buffer |
| `LineBuffer.MatchKeywordSpec` | Lexer.cpp:57-115 | after the base handle, commits exactly when the keyword is spelled at the cursor and followed by whitespace or end of line, then sets kind keyword and the keyword's text and eats its length; otherwise only the base handle has acted |
| `LineBuffer.FirstKeyword` | Lexer.cpp:124-137 | the position of the first keyword of the chain standing delimited at a column: none before it stands there, the one at it does, or there is none |
| `LineBuffer.AfterChain` | Lexer.cpp:117-137 | the token stays as it was (the unknown handler only reports) or becomes a keyword of the chain; from a non-blank cursor, the first keyword of the chain standing delimited there is committed and its length eaten, and with none the whole state is unchanged |
| `LineBuffer.ChainEatsOneBlank` | Lexer.cpp:57-70 | on a blank followed by a non-blank, the chain's first matcher eats the blank and the chain then acts as from the next column |
| `LineBuffer.DefaultKeywordsExclusive` | Lexer.cpp:124-137 | at most one of `def`, `print`, `for`, `in` stands delimited at any column |
| `LineBuffer.NextToken` | Lexer.cpp:141-143 | the token is unchanged or one of `def`, `print`, `for`, `in` as a keyword; from a non-blank cursor, whichever of them stands delimited there is committed and eaten, and with none the state is unchanged |
| `LineBuffer.ChainStuckAtEndOfLine` | Lexer.cpp:57-119 | at the end of the buffer the chain changes nothing |
| `LineBuffer.NextTokenStuckOnEmptyLine` | Lexer.cpp:141-143 | on an empty line `nextToken` leaves the whole state unchanged |
| `LineBuffer.DeferAfterBlank` | Lexer.cpp:57-70 | a matcher on a blank not followed by its keyword eats the blank and passes |
| `LineBuffer.DeferAtNonBlank` | Lexer.cpp:57-70 | a matcher at a non-blank that does not start its delimited keyword passes without moving |
| `LineBuffer.ForwardIsNoKeyword` | Lexer.cpp:87-100 | on `forward` no keyword is committed and nothing moves |
| `LineBuffer.BlanksSkippedPerMatcher` | Lexer.cpp:57-115 | on `  in x` two matchers eat one blank each and `in` is committed at column 4 |
| `LineBuffer.FirstNonBlank` | include/Lexer.h:123-126 | the stop column: only whitespace before it, a non-whitespace character or the end of line at it |
| `LineBuffer.AfterSkipBlank` | include/Lexer.h:122-130 | the skip routine keeps the token and the cursor inside the buffer |
| `LineBuffer.SkipBlankSpec` | include/Lexer.h:122-130 | stops at the first non-blank on the same line, or, when only blanks remain, moves to column 0 of the next line |
| `LineBuffer.SkipBlankStopsAtNewLine` | include/Lexer.h:127-129 | leading blanks of the newly loaded line are not skipped in the same call |
| `Lexing.Lexer.constructor` | Lexer.h:57-60 | starts at the given location and loads the first line |
| `Lexing.Lexer.NextLine` | Lexer.cpp:24-29 | leaves exactly the state `AfterNextLine` describes, with the length field equal to the line's size |
| `Lexing.Lexer.EatChars` | Lexer.cpp:9-17 | leaves exactly the state `AfterEat` describes |
| `Lexing.Lexer.Handle` | Lexer.h:114-118 | leaves exactly the state `AfterBaseHandle` describes |
| `Lexing.Lexer.HandleKeyword` | Lexer.cpp:57-115 | commits exactly when `MatchKeyword` does and leaves its state |
| `Lexing.Lexer.HandleChain` | Lexer.cpp:53-55 | `pass` hands on to the rest of the chain; leaves exactly the state `AfterChain` describes |
| `Lexing.Lexer.NextToken` | Lexer.cpp:124-143 | runs the default chain and leaves exactly the state `NextToken` describes |
| `Lexing.Lexer.SkipBlank` | include/Lexer.h:122-130 | leaves exactly the state `AfterSkipBlank` describes |
| `Scopes.Scope.Push` | include/Parser.h:30 | appends the name; the new scope lies within the old one |
| `Scopes.Scope.Pop` | include/Parser.h:31 | removes the last name; the old scope lies within the new one |
| `Scopes.Scope.LessEq` | include/Parser.h:32-40 | true exactly when `other`'s names are a prefix of this scope's names |
| `Scopes.WithinReflexive` | include/Parser.h:32-40 | every scope is `<=` itself |
| `Scopes.FewerNamesNotWithin` | include/Parser.h:33-34 | a scope with fewer names is never `<=` one with more |
| `Scopes.WithinTransitive` | include/Parser.h:32-40 | `<=` is transitive |
| `Scopes.WithinAntisymmetric` | include/Parser.h:32-40 | scopes `<=` each other are equal |
| `Scopes.PushThenPop` | include/Parser.h:30-31 | push followed by pop restores the scope |
| `Scopes.NestedScopes` | include/Parser.h:30-40 | an inner scope is `<=` its outer one and not the other way round |
| `StmtChains.StmtChain.constructor` | Parser.h:23-26 | a new node is its own header and has no successor |
| `StmtChains.StmtChain.Add` | src/Parser.cpp:6-10 | a fresh node with the statement and this node's header becomes the successor, replacing any earlier one; nothing else changes |
| `StmtChains.NewChain` | Parser.h:22-26 | a fresh head node is a chain on its own |
| `StmtChains.Append` | src/Parser.cpp:6-10 | `add` on a chain's last node yields a longer chain whose new node has the first node as header |
| `StmtChains.BuildChain` | src/Parser.cpp:6-10 | a chain built by `add` from a head holds the statements in order, every node's header is the head, and the head has a successor unless it is the only statement |
| `StmtChains.CompoundStmt.constructor` | include/Parser.h:69 | the cursor starts at the given node of a chain |
| `StmtChains.CompoundStmt.Header` | src/Parser.cpp:12 | the first statement, wherever the cursor is |
| `StmtChains.CompoundStmt.Cur` | src/Parser.cpp:19 | the statement under the cursor |
| `StmtChains.CompoundStmt.Next` | src/Parser.cpp:14-17 | moves to the following statement and returns it |
| `StmtChains.CompoundStmt.IsTail` | src/Parser.cpp:21 | true exactly on the last statement |
| `StmtChains.CompoundStmt.IsHeader` | src/Parser.cpp:23 | true exactly on the first statement |
| `StmtChains.AddTwice` | src/Parser.cpp:6-10 | a second `add` on the same node replaces its successor; both new nodes share the head as header |
| `StmtChains.WalkThree` | src/Parser.cpp:12-23 | walking a three-statement chain visits the statements in order and ends at the tail, away from the head |

## Left out

- File input: the source file is the sequence of its lines. Opening and closing the file are not modelled, and neither is the file name, which only serves to open the file and to build diagnostics.
- End of file: once the lines are used up, `nextLine` loads an empty line. This is what `std::getline` does for a file whose last line ends in a newline. When the last line has no newline, `std::getline` leaves the buffer holding that last line on every later call, while `nextLine` still counts a line and resets the column, so the C++ lexer scans the last line again. The model does not capture that case.
- Characters: the line buffer is a sequence of Unicode characters. C++ `std::string` holds bytes, so on a line with non-ASCII text the column, the line length and the unhandled-character count are counted in bytes there and in characters here, and `std::isspace` on a negative `char` is undefined behaviour, which the model does not capture.
- `Lexer::report`: it builds a message and discards it, so it is modelled as doing nothing.
- `Lexing.Lexer.constructor`: does not fix the initial token kind, which C++ leaves indeterminate.
- Integer widths: `file_loc.line`, `file_loc.col`, `code_line_length` and the shape sizes are 32-bit in the source and unbounded here; wrap-around is not modelled.
- `Lexing.Lexer.EatChars`: takes a natural number; a negative argument, which would make `while (number--)` run until wrap-around, is not modelled.
- Reading past the buffer: the base handle, the keyword matchers and the skip routine require the cursor inside the buffer or just past its end. Beyond that, `code_line[col]` is undefined behaviour. Only `eat_chars` across an empty line gets there, and no caller in the lexer does that.
- The body of `eat_chars_in_the_current_line` is not part of this model. The skip routine takes it to advance the column by one.
- The identifier, punctuation, number, string, `return` and `let` matchers declared in `include/Lexer.h` are not part of this model; their bodies are not among the source files. Neither is that file's `bool nextToken`, or its `TokenKind` with `tk_number`/`tk_string`.
- The chain's handler objects are allocated anew on every `nextToken`. The model uses a fixed list of keywords ended by the unknown handler.
- `get_chars_in_this_line` and `is_space`: the failing `ASSERT` (a `std::logic_error`) is modelled as a precondition; the lexer's own calls always meet it.
- Scalar values: the `double` and the `std::stod` conversion, with its error, are not modelled; a scalar is an opaque leaf.
- Empty tensors: a `TensorValue` with `dim == 0` is excluded when the tensor is added. `shape_checking` raises through its `ASSERT` (src/Parser.cpp:58) only when it runs on the empty tensor itself. As an element, an empty tensor has next-level count 0 (src/Parser.cpp:61-63), just like a scalar, so the C++ check accepts `[s, empty]` and `[empty, empty]` with shape `[2]` and never checks the empty tensor. The model does not capture these inputs.
- Element arrays: `TensorValue` keeps the caller's `vals` pointer rather than a copy (include/Parser.h:219), so the caller can change a tensor's elements after it is built, after its memo is set (leaving a stale shape), or so that they form a cycle. In the arena a tensor's elements are fixed when it is added and refer only to earlier values, which rules all of this out.
- `ScalaValue::shape`: its `ASSERT` cannot fail, because a scalar's memo is rank 0 from construction on (an arena invariant).
- Shapes own a raw `dims` pointer of `dims_dim` entries. The model holds the sizes as a sequence of exactly `rank` entries; `malloc`/`memcpy`/`new int[]` and aliasing of the arrays are not modelled.
- The memo is the source's `Shape` with its rank -1 sentinel, not a separate option type.
- Object identity of values is an arena index. Sharing one value among several elements is a repeated index. `dynamic_cast` and virtual dispatch are matches on the node kind.
- `Shape::print` (debug output), the `Parser` and its statement builders, the expression classes and the visitor are not part of this model.
- The `Scope` stored in each statement is not modelled.
- `Scopes.Scope.Pop`: requires a non-empty scope; `pop_back` on an empty vector is undefined behaviour.
- The `StmtChain()` default constructor, which makes a node with a null statement, is not modelled.
- `StmtChains.CompoundStmt.Next`: requires a following statement; on the tail the source dereferences a null pointer.
- `StmtChains.CompoundStmt.constructor`: takes the chain's node list as a ghost argument, which the source does not have.
