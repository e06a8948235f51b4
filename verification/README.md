# Verified models of the code carried by the repository

The repository's own C++ is mostly plumbing around Ice, Qt and SOCI. Its intricate logic is in what it
carries along: the Google Test and Google Mock sources, the cpplint tool and the layout engine of the
dashboard. This project models those parts in Dafny and proves what they are for. Every statement below is
about all inputs, all runs or all reachable states.

Run `dafny verify dfyconfig.toml` to check the project.

| file | what it models |
|---|---|
| RegexSyntax.dfy, RegexMatcher.dfy | the simple regular expressions of Google Test: grammar, validator, matcher, full-match pattern |
| GridLayout.dfy, Gridster.dfy | the widget grid: cell index, placing, removing, recursive moves upward |
| PreprocessorNesting.dfy | cpplint's nesting state across preprocessor conditionals |
| BracketScanners.dfy | cpplint's two bracket matchers |
| StringLiterals.dfy | printing characters as C string literals, and reading them back |
| Utf8.dfy | wide strings to UTF-8, and decoding |
| XmlEncoding.dfy, Xml.dfy | XML attribute values, text and CDATA sections, and an XML reader |
| Splitting.dfy, Numerals.dfy, DeathTestFlag.dfy | the flag that a death test passes to its child |
| TestFilter.dfy | the glob filter |
| Shuffling.dfy, Registration.dfy, TestRegistry.dfy, TestSharding.dfy, TestProgram.dfy | registration, shuffling, running, filtering and sharding of tests, and whole test programs |
| Expectations.dfy | Google Mock's prerequisite graph, calls and sequences |
| Wrappers.dfy, Sequences.dfy | an option type and facts about sequences |

Code that changes state is modelled by classes, arrays and methods with loops, code made of expressions by
functions. Each method is tied to a specification that does not repeat it: a language denotation, a reader of
the text it writes, a set of transitive prerequisites, and so on.

## What the models show about the code

- Full matching with a regex that ends in the escape `\$` only matches a prefix: no `$` is appended. That is the
  only exception (`FullMatchIsWholeMatch`).
- `CloseExpression` passes over a closing bracket on a line that opens another one of the same kind. The exact
  condition is in its contract, a concrete text in `ReopenedLineIsMissed`.
- A NUL printed before an octal digit is read back as another character; no other string is affected.
- `ParseNaturalNumber` accepts 20-digit texts that stand for negative ints.
- The read-only `GetTestCase(i)` looks up the shuffled index and then does not use it.
- CDATA sections and escaped text lose carriage returns to the line-end rule of section 2.11 of XML 1.0;
  attribute values do not.
- The reports are declared to be UTF-8, but the filter for characters looks at single bytes. A signed `char` strips
  every byte from 0x80 up, so the report is always well-formed (`SignedKeptIsAscii`). An unsigned `char` keeps them
  all, and the report is well-formed exactly when what is kept is UTF-8 of characters that production [2] of XML 1.0
  allows; `IllFormedIsKept` gives a byte for which it is not.
- `can_go_up_to_row` ignores the column and row it is passed, and its callers' `return true` does not leave the
  loop over columns. `widgets_below` compares a jQuery object with elements, so it takes one widget per column,
  in an order that the comparator on elements does not fix: the model takes any order.
- When `next_position` finds no place, `register_widget` and `add_widget` place nothing; the models return
  `placed == false` with the grid unchanged.
- A called expectation need not have its prerequisites satisfied: an expectation for no calls, `cardinality.max == 0`,
  counts an excessive call without retiring its prerequisites, which may then take excessive calls of their own
  (`CallNeverExpected`). That is the only exception, and it needs a prerequisite that does not retire on saturation
  or is for no calls itself (`PrerequisiteOfCalled`). In every reachable state a called expectation whose maximum is
  above 0 has all its prerequisites satisfied and retired, which makes the pruned search for unsatisfied ones exact.
- With `avoid_overlapped_widgets` off a widget may be put over another one. The index then keeps one half of its
  meaning, it holds a widget only at cells the widget covers, and all moves still end.

## Assumptions

- C strings are sequences without NUL; lengths fit `size_t` and the limit of `String::Format`.
- The grid has no drag in progress; a widget removed is gone at once; sizes, rows and columns are at least 1.
- "Without overlaps" below means that the index agrees with the coordinates and no position asked for is taken.
- A prerequisite is added only to the youngest expectation, before it is called, as EXPECT_CALL statements do.
- `step` in PreprocessorNesting is any function of the block stack and the line.

## Model

| member | source | states |
|---|---|---|
| RegexSyntax.ValidateRegex | dependencies/gmock/gtest/src/gtest-port.cc:232-286 | true exactly when the string is not null and is the text of some regex `^`? (atom or atom with `?`, `*`, `+`)* `$`? whose atoms and escapes are all supported |
| RegexSyntax.ParseCharacterises | dependencies/gmock/gtest/src/gtest-port.cc:232-286 | the grammar is unambiguous: for every text and regex, the text parses to the regex if and only if the regex is valid and that is its text |
| RegexSyntax.ScanIsParse | dependencies/gmock/gtest/src/gtest-port.cc:239-283 | one left-to-right pass that only remembers whether the last token may be repeated accepts exactly the texts that parse |
| RegexSyntax.ValidTextIsParse | dependencies/gmock/gtest/src/gtest-port.cc:232-286 | the whole pass accepts a text if and only if some valid regex has that text |
| RegexSyntax.PunctuationIsGraphic | dependencies/gmock/gtest/src/gtest-port.cc:186-188 | the punctuation set is the graphic ASCII characters that are neither letters nor digits, given by their codes |
| RegexSyntax.ClassMembers | dependencies/gmock/gtest/src/gtest-port.cc:185-195 | `\d` is the ten digits, `\s` the space and the codes 9 to 13, `\w` letters, digits and the underscore, all given by code |
| RegexSyntax.ClassComplements | dependencies/gmock/gtest/src/gtest-port.cc:203-222 | `\D`, `\S` and `\W` match exactly what the small letters do not |
| RegexSyntax.ControlEscapes | dependencies/gmock/gtest/src/gtest-port.cc:203-222 | `\t`, `\n`, `\v`, `\f`, `\r` match the codes 9 to 13, one each, and the dot everything but 10 |
| RegexSyntax.EscapeMatchesSomething | dependencies/gmock/gtest/src/gtest-port.cc:198-222 | an escape is supported if and only if there is a character that it matches |
| RegexSyntax.SingleCharacters | dependencies/gmock/gtest/src/gtest-port.cc:232-286 | a single character is a valid regex if and only if it is no bracket, bar, quantifier or backslash |
| RegexSyntax.QuantifierSymbols | dependencies/gmock/gtest/src/gtest-port.cc:289-316 | `?`, `*` and `+` after a plain character stand for at most one, any number and at least one |
| RegexSyntax.AtomIsLiteral | dependencies/gmock/gtest/src/gtest-port.cc:203-222 | an escaped punctuation mark, and any unescaped character but the dot, matches that character and no other |
| RegexMatcher.MatchRegexAtHead | dependencies/gmock/gtest/src/gtest-port.cc:322-349 | for every valid regex text and NUL-free string: true if and only if some prefix of the string is in the language of the items (up to the end when the regex ends in `$`); the mutual recursion terminates because the regex shrinks |
| RegexMatcher.MatchRepetitionAndRegexAtHead | dependencies/gmock/gtest/src/gtest-port.cc:295-316 | true if and only if the string splits into a number of matches of the atom that the quantifier allows and a prefix that the rest of the regex accepts |
| RegexMatcher.MatchRegexAnywhere | dependencies/gmock/gtest/src/gtest-port.cc:358-371 | true if and only if some substring is in the language, starting at 0 after `^` and ending at the end before `$` |
| RegexMatcher.AcceptsHeadSplit | dependencies/gmock/gtest/src/gtest-port.cc:295-349 | any way to match one atom followed by an accepted rest is a way to match the whole sequence |
| RegexMatcher.AcceptsHeadUnsplit | dependencies/gmock/gtest/src/gtest-port.cc:295-349 | every accepted sequence splits into its first item and an accepted rest |
| RegexMatcher.AcceptsViaHead | dependencies/gmock/gtest/src/gtest-port.cc:358-371 | accepting somewhere in the string is accepting at the head of some suffix |
| RegexMatcher.QuantifierLaws | dependencies/gmock/gtest/src/gtest-port.cc:295-316 | one match; none or one; none, or one and then any number; one and then any number |
| RegexMatcher.AnchorsMean | dependencies/gmock/gtest/src/gtest-port.cc:358-371 | with both anchors the whole string is in the language, with one a prefix or a suffix |
| RegexMatcher.FillFullPattern | dependencies/gmock/gtest/src/gtest-port.cc:405-421 | the bytes copied into the buffer are the full-match pattern followed by one NUL, the first one of the buffer |
| RegexMatcher.FullPatternParse | dependencies/gmock/gtest/src/gtest-port.cc:405-421 | the pattern built for full matches is the text of the same items with both anchors, or without a final anchor when the regex ends in the escape `\$` |
| RegexMatcher.RE.Init | dependencies/gmock/gtest/src/gtest-port.cc:392-423 | the object is valid if and only if its pattern is, keeps the pattern, and holds the full-match pattern of a valid one |
| RegexMatcher.RE.FullMatch | dependencies/gmock/gtest/src/gtest-port.cc:381-383 | false for an invalid regex; else true if and only if the string is fully accepted, which for a regex that does not end in `\$` means that the whole string is in its language |
| RegexMatcher.RE.PartialMatch | dependencies/gmock/gtest/src/gtest-port.cc:387-389 | false for an invalid regex; else true if and only if some substring is accepted |
| RegexMatcher.FullPatternAccepts | dependencies/gmock/gtest/src/gtest-port.cc:381-423 | matching the built pattern anywhere is matching the whole string, and a prefix of it in the `\$` case |
| RegexMatcher.FullMatchIsWholeMatch | dependencies/gmock/gtest/src/gtest-port.cc:381-423 | full matching agrees with membership in the language on every string if and only if the regex does not end in the escape `\$` |
| RegexMatcher.LanguageInhabited | dependencies/gmock/gtest/src/gtest-port.cc:203-349 | every valid item sequence matches some NUL-free string of its own length |
| Gridster.Gridster.constructor | dashboard/assets/javascripts/gridster/jquery.gridster.js:2766-2790 | a new grid holds no widget and no placeholder; its cells are false inside the given rows and columns and undefined elsewhere; the invariant holds |
| Gridster.Gridster.Run | dashboard/assets/javascripts/gridster/jquery.gridster.js:835-1062 | every command of any sequence of add, register and remove has its effect: the widget is there, at the position due, or gone, and others only moved up; the index holds a widget only at cells its coordinates cover; where overlaps are avoided it does so at exactly those cells, widgets that share a column cover different rows, and no widget could still slide up but one that a command registered at a free position in mid-air or that could at the start |
| Gridster.RunFromNew | dashboard/assets/javascripts/gridster/jquery.gridster.js:835-1062 | from a new grid the same holds of every run; where overlaps are avoided and nothing is registered no widget could still slide up |
| Gridster.Gridster.MoveWidgetUp | dashboard/assets/javascripts/gridster/jquery.gridster.js:2087-2124 | in any visiting order, with overlaps or without: terminates because the sum of all rows falls, moves widgets only up, records exactly the moved ones as changed, keeps the invariant of all runs, and leaves the widget at the topmost row it can slide to or higher, with nothing changed if it cannot slide; without overlaps it ends at exactly that row, the stronger invariant is kept, only widgets in the zone below move, without changing the order of any column, and no other widget is left able to slide that was held before |
| Gridster.Gridster.SlideUp | dashboard/assets/javascripts/gridster/jquery.gridster.js:2087-2124 | moves the widget exactly if an upward slide exists, then to the top row of its slide, and the widgets below follow; else nothing changes |
| Gridster.Gridster.SlideTo | dashboard/assets/javascripts/gridster/jquery.gridster.js:2108-2119 | the slide to the given top row with both rounds of moves that follow it; without overlaps whatever it sets afloat is pulled after it |
| Gridster.Gridster.Rise | dashboard/assets/javascripts/gridster/jquery.gridster.js:2110-2114 | the index without the widget, its new row, the index with it and the moves from there; the sum of rows falls, and without overlaps only widgets right below its old place may be left afloat |
| Gridster.Gridster.AddToGridmap | dashboard/assets/javascripts/gridster/jquery.gridster.js:1053-1062 | writes the widget to exactly its cells, then only moves widgets up, keeping the invariant; without overlaps only lower ones move, none of those that come first below it in a column is left able to slide, and nothing is set afloat that did not float once the cells were written |
| Gridster.Gridster.Lift | dashboard/assets/javascripts/gridster/jquery.gridster.js:2110-2112 | frees the old cells and sets the row; without overlaps the new cells are free of other widgets |
| Gridster.Gridster.RemoveWidget | dashboard/assets/javascripts/gridster/jquery.gridster.js:904-928 | the widget is gone from index and grid, others only move up and exactly those that moved are recorded as changed; without overlaps only lower widgets move, no other widget is left able to slide that was held before, and if none floated before and no cell above a widget was never written, the resulting layout is the only one that any visiting order could give |
| Gridster.Gridster.RegisterWidget | dashboard/assets/javascripts/gridster/jquery.gridster.js:973-1006 | the asked position when it is free or overlaps are allowed, else the next position; not placed, with nothing changed, exactly when overlaps are avoided and neither exists; other widgets only move up; unless an overlap is asked for, the widget stays where it is put, only lower ones move, none of those right below it is left able to slide, and nothing is set afloat but the widget itself when it asked for a free position in mid-air |
| Gridster.Gridster.AddWidget | dashboard/assets/javascripts/gridster/jquery.gridster.js:835-852 | placed at the next position for its size, a missing size counting as 1, or nothing changes exactly when there is none; from a grid without overlaps it stays there, no widget right below it is left able to slide, and no widget is set afloat, not even the new one |
| Gridster.Gridster.NextPosition | dashboard/assets/javascripts/gridster/jquery.gridster.js:864-894 | the position returned is free, inside the columns and least by row, then column, among those scanned; none is returned exactly when none is free |
| Gridster.Gridster.FirstByRowAndCol | dashboard/assets/javascripts/gridster/jquery.gridster.js:1446-1455 | the head of the sorted positions comes first by row, then column |
| Gridster.Gridster.CanMoveTo | dashboard/assets/javascripts/gridster/jquery.gridster.js:2361-2386 | true if and only if the rectangle ends inside the columns and covers no cell that holds a widget |
| Gridster.Gridster.CanGoUp | dashboard/assets/javascripts/gridster/jquery.gridster.js:2322-2345 | true if and only if the widget is not in row 1 and nothing stands directly above any of its columns |
| Gridster.Gridster.CanGoUpToRow | dashboard/assets/javascripts/gridster/jquery.gridster.js:2185-2237 | the least row from which every cell up to the widget is empty and not under the placeholder in all its columns; none exactly when no upward slide exists |
| Gridster.Gridster.UpperRows | dashboard/assets/javascripts/gridster/jquery.gridster.js:2195-2214 | the rows of one column that are passable without a gap above the widget |
| Gridster.Gridster.WidgetsBelow | dashboard/assets/javascripts/gridster/jquery.gridster.js:2271-2290 | exactly the widgets that come first below in some column the widget occupies |
| Gridster.Gridster.FirstBelow | dashboard/assets/javascripts/gridster/jquery.gridster.js:2513-2557 | the first widget below a row in a column, if there is one |
| Gridster.Gridster.UpdateWidgetPosition | dashboard/assets/javascripts/gridster/jquery.gridster.js:1021-1027 | the value is written to exactly the covered cells in existing columns, growing a column when needed |
| Gridster.Gridster.MoveEachUp | dashboard/assets/javascripts/gridster/jquery.gridster.js:1056-1061 | moving a set of widgets up in any order keeps the invariant and moves widgets only up; without overlaps it only pulls up the zone below them, and leaves none of them and no other widget newly afloat |
| GridLayout.NoOverlap | dashboard/assets/javascripts/gridster/jquery.gridster.js:1021-1062 | when index and coordinates agree, two widgets that share a column cover different rows of it |
| GridLayout.AgreesAfterRemove | dashboard/assets/javascripts/gridster/jquery.gridster.js:1021-1040 | clearing the cells of a widget leaves an index that agrees with the grid without it |
| GridLayout.AgreesAfterAdd | dashboard/assets/javascripts/gridster/jquery.gridster.js:1021-1062 | writing a widget to free cells leaves an index that agrees with the grid that has it |
| GridLayout.SoundAfterRemove | dashboard/assets/javascripts/gridster/jquery.gridster.js:1021-1040 | clearing the cells of a widget leaves an index that holds the others only where they are, overlaps or not |
| GridLayout.SoundAfterAdd | dashboard/assets/javascripts/gridster/jquery.gridster.js:1021-1062 | so does writing a widget, even over others |
| GridLayout.SlideIsGravity | dashboard/assets/javascripts/gridster/jquery.gridster.js:2087-2124 | sliding one widget over passable cells keeps all widgets placed and passes no other widget |
| GridLayout.TopRowMeans | dashboard/assets/javascripts/gridster/jquery.gridster.js:2185-2237 | where a slide ends all cells above the widget are false and free of the placeholder, and in the row above something stops it: a widget, the placeholder or a cell never written |
| GridLayout.TopRowIs | dashboard/assets/javascripts/gridster/jquery.gridster.js:2185-2237 | and every such row is where the slide ends |
| GridLayout.FloatsCanSlide | dashboard/assets/javascripts/gridster/jquery.gridster.js:2185-2237 | a widget floats, every cell on top of it being passable, if and only if there is a row it can slide up to |
| GridLayout.NewFloater | dashboard/assets/javascripts/gridster/jquery.gridster.js:2271-2290 | when cells become free only where a widget was, only widgets right below it can begin to float, and widgets_below finds those |
| GridLayout.NextsOfWritten | dashboard/assets/javascripts/gridster/jquery.gridster.js:1053-1061 | writing a widget does not change what comes first below it |
| GridLayout.FloatersAfterSlide | dashboard/assets/javascripts/gridster/jquery.gridster.js:2108-2112 | after a slide to its top row a widget does not float, and no other does that did not before but those right below its old place |
| GridLayout.FloatersAfterRemove | dashboard/assets/javascripts/gridster/jquery.gridster.js:904-915 | after its cells are cleared only widgets right below a removed widget are newly afloat |
| GridLayout.NextDoesNotFloat | dashboard/assets/javascripts/gridster/jquery.gridster.js:864-894 | the next position is never in mid-air |
| GridLayout.RoomBelow | dashboard/assets/javascripts/gridster/jquery.gridster.js:864-894 | a widget that fits between a column and the right edge always gets a place if no column it would cover is longer than that one |
| GridLayout.NoRoomForWider | dashboard/assets/javascripts/gridster/jquery.gridster.js:864-894 | a widget wider than the grid gets none |
| GridLayout.PulledUpTransitive | dashboard/assets/javascripts/gridster/jquery.gridster.js:2087-2124 | two rounds of moves upward, the second inside the zone of the first, make one |
| GridLayout.PulledUpMeasure | dashboard/assets/javascripts/gridster/jquery.gridster.js:2087-2124 | moves upward never raise the sum of rows and lower it strictly when anything moved |
| GridLayout.SumOfRowsFalls | dashboard/assets/javascripts/gridster/jquery.gridster.js:2087-2124 | moving one widget up lowers the sum of all rows |
| GridLayout.RoseMeasure | dashboard/assets/javascripts/gridster/jquery.gridster.js:2087-2124 | with overlaps too, moves upward never raise the sum of rows and lower it strictly when anything moved |
| GridLayout.MovedUpTransitive | dashboard/assets/javascripts/gridster/jquery.gridster.js:2087-2124 | two rounds of moves make one, with overlaps or without |
| GridLayout.NothingFloatsIsPacked | dashboard/assets/javascripts/gridster/jquery.gridster.js:2185-2237 | where no widget floats and no cell above a widget was never written, every widget stands in row 1 or right under another one |
| GridLayout.PackedIsHighest | dashboard/assets/javascripts/gridster/jquery.gridster.js:2087-2124 | such a layout puts every widget as high as any layout of the same widgets in the same order |
| GridLayout.PackedIsUnique | dashboard/assets/javascripts/gridster/jquery.gridster.js:2087-2124 | there is only one such layout of widgets in a given order |
| GridLayout.OnlyOneOutcome | dashboard/assets/javascripts/gridster/jquery.gridster.js:904-928 | under the same condition, moves upward that keep the order of every column and leave nothing afloat have only one outcome |
| PreprocessorNesting.NestingState.UpdatePreprocessor | cmake/cpplint.py:1523-1578 | no directive, matched or not, changes the stack that counts, the one that the lines outside all else branches have built; it changes only which conditionals are open and which of them have come to an else branch |
| PreprocessorNesting.NestingState.Update | cmake/cpplint.py:1580-1592 | a line changes the stack that counts as it would without any directives if no open conditional has come to an else branch, and not at all otherwise |
| PreprocessorNesting.NestingState.UpdateAll | cmake/cpplint.py:1523-1592 | after a whole file of any lines the stack that counts is the one left by the surviving lines alone |
| PreprocessorNesting.NestedRun | cmake/cpplint.py:1523-1592 | for every well-nested file, every per-line update and every starting state: reading all lines is reading the lines left when all #else and #elif branches are deleted, and the checkpoint stack comes back to its starting value |
| PreprocessorNesting.NestedPart | cmake/cpplint.py:1523-1592 | the same for one ordinary line or one conditional with any number of branches |
| PreprocessorNesting.NestedBranches | cmake/cpplint.py:1534-1571 | no sequence of #else and #elif branches changes what #endif will restore |
| PreprocessorNesting.ElseStartsAtIf | cmake/cpplint.py:1544-1560 | from any state, after any body and any branches, an #else or #elif line is read with the stack from before the #if |
| PreprocessorNesting.BranchesKeepIf | cmake/cpplint.py:1544-1560 | no sequence of branches changes the stack that the next #else restores |
| PreprocessorNesting.DirectiveKeepsLive | cmake/cpplint.py:1523-1578 | from any state, the checkpoint that #if saves, #else restores and #endif drops is the stack that counts |
| PreprocessorNesting.LiveStep | cmake/cpplint.py:1523-1592 | one line of any kind changes the stack that counts as a plain line does if it survives and not at all if it does not |
| PreprocessorNesting.LiveRun | cmake/cpplint.py:1523-1592 | so do any lines, balanced or not, from any state |
| PreprocessorNesting.LiveStackIsSurvivingRun | cmake/cpplint.py:1523-1592 | from the empty state, the stack that counts is what the surviving lines alone leave |
| CloseExpressions.FindEndOfExpressionInLine | cmake/cpplint.py:1027-1047 | the first place at which the depth is zero just after an end character, or -1 exactly when there is none |
| CloseExpressions.CloseExpression | cmake/cpplint.py:1050-1092 | gives up on anything but an opening bracket and when the character scan never reaches zero; returns the place where the scan first closes if and only if that is on the first line or the line does not end at a positive depth; any place returned closes a span of balance zero |
| CloseExpressions.ClosersOfExpressions | cmake/cpplint.py:1072-1074 | round brackets close round ones, square close square, braces close braces |
| CloseExpressions.ClosedBy | cmake/cpplint.py:1050-1092 | once some depth is not positive the character scan has a first closing place |
| CloseExpressions.ReopenedLineIsMissed | cmake/cpplint.py:1050-1092 | a concrete text whose closing bracket is on a line that opens another: the scan closes on line 1 while the line count stays positive there and ends on line 2 |
| TextInside.GetTextInside | cmake/cpplint.py:3106-3136 | returns t if and only if the text after the opener is t, its closer, then anything, with t properly nested over the three bracket kinds; nothing exactly when there is no such t |
| TextInside.BracketPairs | cmake/cpplint.py:3106-3108 | the three opening and three closing brackets and which belongs to which |
| TextInside.InsideByScan | cmake/cpplint.py:3106-3136 | there is at most one such t and the stack scanner finds it |
| TextInside.ScanSkipsNested | cmake/cpplint.py:3122-3132 | the scanner passes properly nested text and comes back to the same stack |
| TextInside.ScanSound | cmake/cpplint.py:3122-3132 | whatever empties the stack is nested text for each level, each closed by its closer |
| StringLiterals.PrintCharsAsStringTo | dependencies/gmock/gtest/src/gtest-printers.cc:261-275 | what is written is read back, by the literal rules of sections 2.14.3 and 2.14.5 of ISO C++11, as the same characters if and only if no NUL is followed by an octal digit; narrow and wide |
| StringLiterals.PrintedReadsBack | dependencies/gmock/gtest/src/gtest-printers.cc:149-275 | for every string what is printed is read back as the string with each NUL merged with up to two octal digits after it, hence as itself exactly when there are none |
| StringLiterals.MergedIsSame | dependencies/gmock/gtest/src/gtest-printers.cc:149-213 | merging changes nothing exactly when no NUL is followed by an octal digit |
| StringLiterals.StandsForItself | dependencies/gmock/gtest/src/gtest-printers.cc:142-241 | a character is printed as itself if and only if it is printable ASCII other than the double quote and the backslash |
| StringLiterals.NamedEscapes | dependencies/gmock/gtest/src/gtest-printers.cc:149-227 | the escapes with a name, by code; everything else that is not printable is in capital hexadecimal |
| StringLiterals.BrokenOnlyBeforeDigits | dependencies/gmock/gtest/src/gtest-printers.cc:265-271 | the literal is broken only before a character that would be read as a further hexadecimal digit |
| StringLiterals.BreakText | dependencies/gmock/gtest/src/gtest-printers.cc:266-271 | the break closes the literal and, after a space, opens it again with the same prefix |
| StringLiterals.PrintedIsPrintable | dependencies/gmock/gtest/src/gtest-printers.cc:142-275 | for every string what is printed is printable ASCII only |
| StringLiterals.ReadBody | dependencies/gmock/gtest/src/gtest-printers.cc:261-275 | the text between the quotes, after a hexadecimal escape or not, is read as the merged characters |
| StringLiterals.ReadAcrossBreak | dependencies/gmock/gtest/src/gtest-printers.cc:266-271 | closing and reopening the literal ends a hexadecimal escape and adds nothing to the text |
| StringLiterals.ReadStringChar | dependencies/gmock/gtest/src/gtest-printers.cc:149-213 | one printed character other than NUL is read back when no hexadecimal digit follows its hexadecimal escape |
| StringLiterals.NulRead | dependencies/gmock/gtest/src/gtest-printers.cc:149-275 | a printed NUL is read back as the number that it makes with up to two octal digits after it |
| Utf8.CodePointToUtf8 | dependencies/gmock/gtest/src/gtest.cc:1435-1466 | the buffer holds the encoding of a code point of up to 21 bits, or the message for an invalid one, up to its first NUL |
| Utf8.WriteEncoding | dependencies/gmock/gtest/src/gtest.cc:1436-1455 | each branch writes exactly the bytes of its length class and a NUL after them |
| Utf8.InvalidTextShows | dependencies/gmock/gtest/src/gtest.cc:1456-1465 | a number of more than 21 bits is written as a message that holds its value in capital hexadecimal digits |
| Utf8.DecodeOne | dependencies/gmock/gtest/src/gtest.cc:1435-1466 | a decoder of section 3 of RFC 3629, carried on to 21 bits and refusing overlong forms, gets each code point back from the head of any stream, and no byte of it is NUL |
| Utf8.StreamDecodes | dependencies/gmock/gtest/src/gtest.cc:1435-1526 | a concatenated stream decodes to the code points it was made from if and only if none has more than 21 bits |
| Utf8.WideStringToUtf8 | dependencies/gmock/gtest/src/gtest.cc:1504-1526 | the bytes of the code points of the whole text for -1, of none for other negative lengths and else of the text cut to the length, always up to the first NUL, surrogate pairs combined when wide characters have 16 bits |
| Utf8.WideTextDecodes | dependencies/gmock/gtest/src/gtest.cc:1504-1526 | what is written decodes to exactly those code points: always with 16-bit units, and otherwise if and only if none has more than 21 bits |
| Utf8.WideUnitsAreCodePoints | dependencies/gmock/gtest/src/gtest.cc:1504-1526 | 32-bit wide characters are the code points |
| Utf8.UnpairedUnitsAreCodePoints | dependencies/gmock/gtest/src/gtest.cc:1475-1526 | 16-bit ones are too, unless one from D800 to DBFF is followed by one from DC00 to DFFF |
| Utf8.UnitsReadBack | dependencies/gmock/gtest/src/gtest.cc:1475-1486 | code points written in UTF-16 by section 2.1 of RFC 2781 are combined back if and only if none from D800 to DBFF is followed by one from DC00 to DFFF |
| Utf8.Utf16RoundTrip | dependencies/gmock/gtest/src/gtest.cc:1475-1526 | so UTF-16 text converted to UTF-8 and decoded gives back its code points under the same condition |
| Utf8.CodePointsToNul | dependencies/gmock/gtest/src/gtest.cc:1505-1512 | nothing after the first NUL counts |
| Xml.EscapeXml | dependencies/gmock/gtest/src/gtest.cc:3124-3164 | empty for a null pointer; in a UTF-8 document, as an attribute value in either kind of quotes, it is read back as the kept characters whatever follows if and only if these are well-formed UTF-8 of characters of production [2], which a signed char guarantees; as text if and only if moreover there is no carriage return; the kept characters are the input itself if that is well-formed and, with a signed char, ASCII |
| Xml.RemoveInvalidXmlCharacters | dependencies/gmock/gtest/src/gtest.cc:3169-3178 | keeps exactly the valid characters in order, all of them if the input is well-formed and, with a signed char, ASCII; what is left may stand in a UTF-8 document if char is signed or the input was UTF-8 with no flaw but control characters |
| Xml.OutputXmlCDataSection | dependencies/gmock/gtest/src/gtest.cc:3203-3220 | after the stream so far; what is added is read back, by sections 2.2, 2.4, 2.7 and 2.11 of XML 1.0, as the data with normalized line ends if and only if the data is well-formed UTF-8 of characters of production [2], and as the data itself if and only if moreover there is no carriage return |
| Xml.CDataReadsBack | dependencies/gmock/gtest/src/gtest.cc:3203-3220 | the same for the text of the section by itself |
| Xml.DividedReads | dependencies/gmock/gtest/src/gtest.cc:3203-3220 | with every "]]>" moved out of the section, a reader for which a section ends at the first "]]>" gets the data back |
| Xml.LineFeedsOfDivided | dependencies/gmock/gtest/src/gtest.cc:3203-3220 | normalizing the line ends of the divided data is dividing the normalized data |
| Xml.DividedAtFirst | dependencies/gmock/gtest/src/gtest.cc:3206-3212 | data before the first "]]>" is written unchanged |
| Xml.WrittenMarkers | dependencies/gmock/gtest/src/gtest.cc:3203-3220 | the markers of a section and the text that takes a close out of it |
| Xml.AttributeReadsBack | dependencies/gmock/gtest/src/gtest.cc:3124-3164 | an escaped attribute value is read back as the kept characters, white space included, if and only if they are well-formed |
| Xml.AttributeIsSafe | dependencies/gmock/gtest/src/gtest.cc:3124-3164 | an escaped attribute value has no raw quote, angle bracket, tab, carriage return or line feed |
| Xml.OnlyTheseAreEscaped | dependencies/gmock/gtest/src/gtest.cc:3124-3164 | of the bytes kept only angle brackets and ampersands are escaped and, in an attribute value, quotes, tabs and line ends |
| Xml.WrittenReferences | dependencies/gmock/gtest/src/gtest.cc:3124-3164 | what is written for each of them |
| Xml.TextReadsBack | dependencies/gmock/gtest/src/gtest.cc:3124-3164 | escaped text is read as the kept characters with normalized line ends if and only if they are well-formed, and as them exactly when moreover there is no carriage return |
| Xml.KeptIsXmlText | dependencies/gmock/gtest/src/gtest.cc:3019-3026 | the characters kept are text that a UTF-8 document may hold if char is signed or if the input is UTF-8 with no flaw but control characters |
| Xml.XmlTextIsKept | dependencies/gmock/gtest/src/gtest.cc:3024-3026 | well-formed text of characters of production [2] loses nothing; with a signed char, if it is ASCII |
| Xml.LostBytes | dependencies/gmock/gtest/src/gtest.cc:3019-3026 | exactly these bytes are lost, all others stay as often as they occur: below 0x20 but tab, line feed and carriage return, and from 0x80 up if char is signed |
| Xml.SignedKeptIsAscii | dependencies/gmock/gtest/src/gtest.cc:3024-3026 | with a signed char they always are |
| Xml.StrippedIsXmlText | dependencies/gmock/gtest/src/gtest.cc:3169-3178 | removing control characters from UTF-8 text breaks no multibyte character |
| Xml.IllFormedIsKept | dependencies/gmock/gtest/src/gtest.cc:3024-3026 | with an unsigned char the byte 0xFF is kept, which no UTF-8 document may hold |
| Xml.EscapedKeepsEncoding | dependencies/gmock/gtest/src/gtest.cc:3124-3164 | after any text, the escaped string is well-formed if and only if the kept characters are |
| Xml.DividedKeepsEncoding | dependencies/gmock/gtest/src/gtest.cc:3203-3220 | after any text, the divided data is well-formed if and only if the data is |
| DeathTestFlag.SplitString | dependencies/gmock/gtest/src/gtest-death-test.cc:1098-1113 | the fields in order: they join back to the text with the delimiter and none contains it (see SplitUnique) |
| Splitting.SplitJoins | dependencies/gmock/gtest/src/gtest-death-test.cc:1098-1113 | joining the fields with the delimiter gives the input, and no field contains the delimiter |
| Splitting.SplitUnique | dependencies/gmock/gtest/src/gtest-death-test.cc:1098-1113 | no other nonempty list of fields has these two properties |
| DeathTestFlag.ParseNaturalNumberAccepts | dependencies/gmock/gtest/src/gtest-internal-inl.h:970-1009 | accepted exactly: digits only up to the end or the first NUL, with a value below 2^31 or, against the name, at least 2^64 - 2^31 and below 2^64, which becomes a negative int |
| DeathTestFlag.ParseDecimal | dependencies/gmock/gtest/src/gtest-internal-inl.h:970-1009 | the decimal text of an int is parsed back exactly when it is not negative |
| DeathTestFlag.ParseInternalRunDeathTestFlag | dependencies/gmock/gtest/src/gtest-death-test.cc:1184-1227 | no flag for the empty text, an abort unless there are four good fields; the text the parent writes is parsed back to its four values if and only if the file name has no bar and no number is negative |
| DeathTestFlag.FlagRoundTrip | dependencies/gmock/gtest/src/gtest-death-test.cc:1013-1016 | the same for the flag text that the parent builds, for every file name and all ints; its fields are file, line, index and descriptor in this order |
| DeathTestFlag.DecimalIsUsual | dependencies/gmock/gtest/src/gtest-death-test.cc:1013-1016 | the decimal text of an int is a minus sign if it is negative and its digits without leading zeros |
| Numerals.NumeralValue | dependencies/gmock/gtest/src/gtest-death-test.cc:1013-1016 | the value of the numeral of n, in base 10 or 16, is n |
| Numerals.DigitsAreUsual | dependencies/gmock/gtest/src/gtest-printers.cc:186-189 | the digits written are 0 to 9 and A to F; small letters are read as well |
| Numerals.CapitalDigits | dependencies/gmock/gtest/src/gtest-printers.cc:186-189 | numbers are written without small letters and without leading zeros |
| Numerals.ValueOfOneMore | dependencies/gmock/gtest/src/gtest-internal-inl.h:993 | each further digit multiplies the value by the base and adds to it |
| TestFilter.PatternMatchesMeansFits | dependencies/gmock/gtest/src/gtest.cc:433-448 | true if and only if the string splits into pieces that fit the pattern up to its first colon, `?` one character, `*` any |
| TestFilter.FitsOne | dependencies/gmock/gtest/src/gtest.cc:438-447 | `?` takes exactly one character, any other but `*` itself |
| TestFilter.FitsStar | dependencies/gmock/gtest/src/gtest.cc:442-444 | `*` takes any number of characters |
| TestFilter.MatchesFilter | dependencies/gmock/gtest/src/gtest.cc:450-471 | true if and only if some pattern between colons fits the name |
| TestFilter.FilterMatchesTest | dependencies/gmock/gtest/src/gtest.cc:474-502 | true if and only if the full name fits the positive list, `*` when missing before a dash, and not the negative one |
| TestFilter.PositiveAndNegative | dependencies/gmock/gtest/src/gtest.cc:474-502 | without a dash there is only a positive list; else the first dash ends it |
| TestFilter.LeadingDash | dependencies/gmock/gtest/src/gtest.cc:489-494 | `-x` means `*-x`: every name that does not fit x |
| TestFilter.DeathTestCaseNames | dependencies/gmock/gtest/src/gtest.cc:155 | the built-in filter for death test cases fits exactly the names that end in `DeathTest` or contain `DeathTest/` |
| TestFilter.DisabledNames | dependencies/gmock/gtest/src/gtest.cc:150 | the built-in filter for disabled tests fits exactly the names that begin with `DISABLED_` or contain `/DISABLED_` |
| Shuffling.Random.Generate | dependencies/gmock/gtest/src/gtest.cc:284-298 | although the state is computed in wrapping unsigned 32-bit arithmetic, the step is the exact linear congruence 1103515245 s + 12345 modulo 2^31, and the number drawn is the new state modulo the range |
| Shuffling.WrapAround | dependencies/gmock/gtest/src/gtest.cc:286-288 | the wrap-around at 2^32 changes nothing modulo 2^31 |
| Shuffling.DrawsAt | dependencies/gmock/gtest/src/gtest-internal-inl.h:313-318 | each number drawn is the next state cut down to the number of elements not yet placed |
| Shuffling.StateAfterSteps | dependencies/gmock/gtest/src/gtest-internal-inl.h:313-318 | shuffling n elements takes n - 1 steps of the generator |
| Shuffling.SwappedAt | dependencies/gmock/gtest/src/gtest-internal-inl.h:316-317 | two elements change places and nothing else |
| Shuffling.FirstChoiceIsLast | dependencies/gmock/gtest/src/gtest-internal-inl.h:313-318 | the element first chosen comes last |
| Shuffling.ShuffleRange | dependencies/gmock/gtest/src/gtest-internal-inl.h:301-319 | the Fisher-Yates shuffle with the numbers the generator draws; the range is permuted within itself and nothing outside it moves |
| Shuffling.ShuffleRearranges | dependencies/gmock/gtest/src/gtest-internal-inl.h:313-318 | whatever is drawn, the range is permuted within itself and nothing outside it moves |
| Shuffling.EveryOrderIsDrawn | dependencies/gmock/gtest/src/gtest-internal-inl.h:313-318 | every order of the range comes from some choices |
| Shuffling.ChoicesAreUnique | dependencies/gmock/gtest/src/gtest-internal-inl.h:313-318 | different choices give different orders of distinct elements, so each order comes from exactly one sequence of choices |
| Shuffling.ShuffledBlocks | dependencies/gmock/gtest/src/gtest.cc:4484-4496 | shuffling the first block and then the rest keeps a permutation that maps each block to itself |
| Shuffling.ShuffleBlocks | dependencies/gmock/gtest/src/gtest.cc:4486-4491 | the first block is shuffled, then the rest with the numbers that follow; the permutation still maps each block to itself, and the state of the generator has moved on by one step for each index |
| Shuffling.EveryBlockOrderIsDrawn | dependencies/gmock/gtest/src/gtest.cc:4486-4491 | every order of the test cases that keeps the two blocks comes from some choices, those for the first block before the others |
| Shuffling.PermutationVisitsAll | dependencies/gmock/gtest/src/gtest.cc:4206-4264 | looking up every index of such a permutation visits every element exactly once |
| TestRegistry.UnitTestImpl.GetTestCase | dependencies/gmock/gtest/src/gtest.cc:4096-4129 | returns the test case of that name if there is one; else a new one without tests, inserted after the last death test case if its name is one and at the end otherwise; death test cases stay exactly the first block |
| TestRegistry.TestCase.AddTestInfo | dependencies/gmock/gtest/src/gtest.cc:2424-2427 | the test comes last, in the list and in the order of execution, which stays a permutation |
| TestRegistry.UnitTestImpl.AddTestInfo | dependencies/gmock/gtest/src/gtest-internal-inl.h:633-653 | registering a test changes the suites of names as adding to a found or new suite does, and no test ever belongs to the registry twice |
| Registration.AddAddsName | dependencies/gmock/gtest/src/gtest.cc:4096-4129 | adding a test adds its name once and loses none, wherever its suite is found or made |
| Registration.RegisteredNames | dependencies/gmock/gtest/src/gtest.cc:2229-2242 | after any registrations the suites hold exactly the registered names, each as often as it was registered |
| Registration.RegisteredInOrder | dependencies/gmock/gtest/src/gtest.cc:4096-4129 | each test case has one suite with its tests in the order of registration, none is missing, and suites of death tests come first |
| TestProgram.RegisterAll | dependencies/gmock/gtest/src/gtest.cc:2229-2242 | registering tests from the start leaves a valid, unshuffled registry with exactly the suites of those names |
| TestRegistry.InsertKeepsOrder | dependencies/gmock/gtest/src/gtest.cc:4111-4125 | that insertion keeps names distinct and death test cases exactly the first block |
| TestRegistry.UnitTestImpl.ShuffleTests | dependencies/gmock/gtest/src/gtest.cc:4484-4496 | all new orders are determined by the old ones and the state of the generator: the block of death test cases draws first, then the other test cases, then the tests of each test case in turn; the indices stay permutations and each block keeps to itself |
| Shuffling.ShuffledInTurnAt | dependencies/gmock/gtest/src/gtest.cc:4493-4495 | each test case is shuffled with the numbers that come after those of all test cases before it |
| TestRegistry.UnitTestImpl.UnshuffleTests | dependencies/gmock/gtest/src/gtest.cc:4499-4506 | whatever was shuffled before, all indices are the identity again |
| TestRegistry.UnitTestImpl.RunIteration | dependencies/gmock/gtest/src/gtest.cc:4206-4264 | an iteration that reaches its run loop runs every test case once with all death tests first and starts every test that should run exactly once and no other; which test cases and tests start in which order is a function of the orders before and, if it shuffles, of the seed alone; any iteration ends unshuffled |
| TestRegistry.UnitTestImpl.RunTestCases | dependencies/gmock/gtest/src/gtest.cc:4234-4239 | the run loop visits every test case once, death tests first, and starts every test that should run exactly once, in the order that the indices give |
| TestRegistry.TestCase.Run | dependencies/gmock/gtest/src/gtest.cc:2430-2455 | starts the tests that should run in the order of the indices, each exactly once, and none if the test case should not run |
| TestRegistry.UnitTestImpl.GetTestCaseAgrees | dependencies/gmock/gtest/src/gtest-internal-inl.h:565-575 | the read-only and the mutable lookup of the i-th test case agree for every i if and only if the order is unshuffled |
| TestRegistry.TestCase.ShuffleTests | dependencies/gmock/gtest/src/gtest.cc:2463-2465 | the indices of the tests are shuffled as a whole by the next numbers of the generator and stay a permutation |
| TestRegistry.TestCase.UnshuffleTests | dependencies/gmock/gtest/src/gtest.cc:2468-2472 | the indices of the tests are the identity |
| FilterTests.FilterTests | dependencies/gmock/gtest/src/gtest.cc:4377-4428 | every test shows whether it is disabled, matches and is selected as flags and shard say; a test case should run if and only if one of its tests is selected; the count returned is the number selected |
| FilterTests.FilterTestCase | dependencies/gmock/gtest/src/gtest.cc:4391-4423 | the same for the tests of one test case, with the running counts |
| FilterTests.FilterTest | dependencies/gmock/gtest/src/gtest.cc:4394-4422 | the verdict on one test and the fields it sets |
| FilterTests.FilteredIsSelection | dependencies/gmock/gtest/src/gtest.cc:4391-4423 | what filtering leaves is what the run loop relies on: a test case should run whenever one of its tests should, and the tests that should run are those selected |
| TestProgram.AllTestsDistinct | dependencies/gmock/gtest/src/gtest-internal-inl.h:649-652 | all tests of a valid registry are different objects, which filtering relies on |
| TestProgram.AllNames | dependencies/gmock/gtest/src/gtest.cc:4377-4393 | the tests that filtering visits are those of the suites, in the same order |
| TestProgram.Filter | dependencies/gmock/gtest/src/gtest.cc:4179-4184 | what filtering leaves makes the run loop start exactly the tests that flags and shard select, and there are tests to run exactly when one is selected |
| TestProgram.ChosenArePicked | dependencies/gmock/gtest/src/gtest.cc:4391-4423 | the tests that should run, test case by test case, are those the verdicts select, in order |
| TestProgram.RunAllTests | dependencies/gmock/gtest/src/gtest.cc:4173-4264 | every iteration whose set-up does not fail starts exactly the tests selected by flags and shard, each once; two iterations with the same seed start them in the same order |
| TestProgram.GetRandomSeedFromFlag | dependencies/gmock/gtest/src/gtest-internal-inl.h:124-135 | the seed is from 1 to 99999 for every 32-bit flag, a flag in that range stands for itself and others are reduced modulo 99999 |
| TestProgram.SeedInTurn | dependencies/gmock/gtest/src/gtest-internal-inl.h:140-146 | the seeds of the iterations go through 1 to 99999 in turn |
| TestProgram.SeedsDiffer | dependencies/gmock/gtest/src/gtest-internal-inl.h:140-146 | so 99999 consecutive iterations have different seeds |
| TestProgram.SameSeedSameRun | dependencies/gmock/gtest/src/gtest.cc:4212-4239 | the order is a function of the seed: two runs from the unshuffled registry with one seed are equal |
| TestProgram.RunProgram | dependencies/gmock/gtest/src/gtest.cc:4173-4264 | from the registrations to the end: every iteration starts the tests due on the shard; without shards each name that the flags let run is started as often as it was registered, and no other |
| TestProgram.ShardsPickAll | dependencies/gmock/gtest/src/gtest.cc:4366-4368 | all shards together select every runnable test once |
| TestProgram.ProgramsOnShards | dependencies/gmock/gtest/src/gtest.cc:4366-4428 | programs with the same registrations on all shards together are due to start each name that the flags let run as often as it was registered, and no other |
| FilterTests.EachOnOneShard | dependencies/gmock/gtest/src/gtest.cc:4366-4428 | over the runs for all shards every runnable test is selected on exactly one and no other test on any |
| FilterTests.ShardCounts | dependencies/gmock/gtest/src/gtest.cc:4366-4428 | the counts returned on all shards add up to the number of runnable tests and differ by at most one |
| FilterTests.SelectionIsOfShard | dependencies/gmock/gtest/src/gtest.cc:4409-4421 | what a run selects depends only on which tests are runnable and on the shard |
| Sharding.OneShardEach | dependencies/gmock/gtest/src/gtest.cc:4366-4368 | each runnable test falls on the shard given by its rank among runnable tests, and on no other |
| Sharding.SelectedShare | dependencies/gmock/gtest/src/gtest.cc:4366-4368 | after any number of runnable tests a shard has its even share of them, rounded by its index |
| Sharding.ShardsShareAll | dependencies/gmock/gtest/src/gtest.cc:4366-4368 | the shares of all shards add up to all runnable tests and differ by at most one |
| Expectations.Between | dependencies/gmock/src/gmock-cardinalities.cc:50-70 | the bounds given when they are in order, and valid bounds always |
| Expectations.ExpectationBase.RetireAllPreRequisites | dependencies/gmock/src/gmock-spec-builders.cc:95-110 | terminates on an acyclic graph; the retired set becomes exactly the old one and all transitive prerequisites, and is closed again |
| Expectations.ExpectationBase.Retire | dependencies/gmock/include/gmock/gmock-spec-builders.h:767-770 | retires this expectation only and keeps the retired set closed |
| Expectations.RetiredHoldsPrerequisites | dependencies/gmock/src/gmock-spec-builders.cc:96-98 | the early return loses nothing: all transitive prerequisites of a retired expectation are retired |
| Expectations.SatisfiedThroughout | dependencies/gmock/src/gmock-spec-builders.cc:115-124 | AllPrerequisitesAreSatisfied holds if and only if every transitive prerequisite is satisfied |
| Expectations.ExpectationBase.FindUnsatisfiedPrerequisites | dependencies/gmock/src/gmock-spec-builders.cc:128-146 | all it adds to the result are unsatisfied transitive prerequisites; to a result that has none of them yet it adds none exactly when all are satisfied, in every state in which called expectations that are satisfied have theirs satisfied |
| Expectations.PruningIsExact | dependencies/gmock/src/gmock-spec-builders.cc:115-146 | when every satisfied expectation that was called has its prerequisites satisfied, the pruned search finds nothing if and only if all prerequisites are satisfied |
| Expectations.PrunedAreUnsatisfied | dependencies/gmock/src/gmock-spec-builders.cc:128-146 | everything it finds is an unsatisfied transitive prerequisite |
| Expectations.ExplanationIsExact | dependencies/gmock/src/gmock-spec-builders.cc:115-146 | both hold in every reachable state |
| Expectations.ExpectationBase.GetActionForArguments | dependencies/gmock/include/gmock/gmock-spec-builders.h:1174-1202 | counts the call; unless it is excessive exactly the prerequisites, and the expectation itself when it retires on saturation, become retired; the invariant of all runs is kept: every called expectation that may be called at all has all its prerequisites satisfied and retired |
| Expectations.ExpectationBase.IncrementCallCount | dependencies/gmock/include/gmock/gmock-spec-builders.h:810-813 | counts one call and leaves every other expectation settled |
| Expectations.Registry.AddNewExpectation | dependencies/gmock/include/gmock/gmock-spec-builders.h:1506-1525 | a new expectation without calls, younger than all others; in an implicit sequence it becomes the last member, with the last one before it as its only prerequisite |
| Expectations.Registry.After | dependencies/gmock/include/gmock/gmock-spec-builders.h:951-961 | adds older expectations as prerequisites of the youngest one and keeps the graph acyclic |
| Expectations.Registry.FindMatchingExpectation | dependencies/gmock/include/gmock/gmock-spec-builders.h:1618-1632 | the youngest candidate that matches, is active and has all prerequisites satisfied; none exactly when there is none |
| Expectations.Registry.HandleCall | dependencies/gmock/include/gmock/gmock-spec-builders.h:1583-1606 | one mock call: the expectation that takes it is the youngest matching one that was active with all prerequisites satisfied, only its count changes, and after a call that is not excessive all its prerequisites are retired |
| Expectations.PrerequisiteOfCalled | dependencies/gmock/include/gmock/gmock-spec-builders.h:1174-1202 | in every reachable state a prerequisite of a called expectation is satisfied, unless that expectation is for no calls and the prerequisite may take excessive calls, as all may but those that retire on saturation with a maximum above 0 |
| Expectations.CallNeverExpected | dependencies/gmock/include/gmock/gmock-spec-builders.h:1174-1202 | the exception is exact: for every cardinality of a prerequisite that may take excessive calls, retiring or not, some run calls an expectation for no calls that comes after it and ends with the prerequisite unsatisfied |
| Expectations.RunInvariantYoungest | dependencies/gmock/src/gmock-spec-builders.cc:768-776 | whether the invariant holds does not depend on the youngest expectation before its first call |
| Expectations.Sequence.AddExpectation | dependencies/gmock/src/gmock-spec-builders.cc:768-776 | the expectation follows the last one of the sequence, nothing changes when it is the last one already, and the graph stays acyclic |
| Expectations.SequenceOrders | dependencies/gmock/src/gmock-spec-builders.cc:768-776 | each expectation of a sequence has all earlier ones among its transitive prerequisites |

## Left out

- Gridster dragging, placeholder and player moves, collisions, CSS, the `widgets` array and the height of the page: user interface state.
- Gridster.Gridster.RegisterWidget: when an overlap is asked for it does not say in which row each widget ends, nor what the index holds where two widgets overlap, because the visiting order decides both.
- cpplint's style checks, its comment and string cleansing and the angle-bracket heuristics; the update one line makes to the block stack is any function, so blocks are values and the sharing of block objects between saved stacks is not captured.
- The search for the start pattern of `_GetTextInside`: the end of its match is a parameter.
- The POSIX and Windows branches, `RE` ownership of its buffers and the messages for syntax errors.
- Utf8.ChopLowBits: written with division and remainder, because bit patterns are numbers in this model.
- String::Format's limit of 4096 characters, trigraphs, and decimal character references and those beyond ASCII in the XML reader.
- The XML report around attribute values and CDATA sections, and the rest of Google Test's output.
- Events, environments, time and failures in RunAllTests beyond whether the global set-up fails; the list flag; the endless repetition for negative counts; reading the shard from the environment; value-parameterized and typed tests, which expand into registrations before the run.
- Google Mock's actions, matchers, mutexes, user-defined cardinalities and the wrap-around of call counts.
- The Ice servers, database access, plugins, security and logging of the repository: they wrap libraries and would only add easy members.
