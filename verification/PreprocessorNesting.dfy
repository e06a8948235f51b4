/** The nesting state cpplint keeps while it reads a file: a stack of open blocks that
    preprocessor conditionals save and restore, so that #else and #elif branches leave no trace.

    Text stands for whatever one line holds; `step` is the update one line makes to the stack of
    blocks, about which nothing is assumed. */
module PreprocessorNesting {

  datatype Line<Text> =
    | If(text: Text)
    | Else(text: Text)
    | Endif(text: Text)
    | Other(text: Text)

  datatype PreprocessorInfo<Block> =
    PreprocessorInfo(stackBeforeIf: seq<Block>, stackBeforeElse: seq<Block>, seenElse: bool)

  datatype State<Block> = State(stack: seq<Block>, ppStack: seq<PreprocessorInfo<Block>>)

  type Step<!Block, !Text> = (seq<Block>, Line<Text>) -> seq<Block>

  // ----- One line -----

  function AfterDirective<Block, Text>(s: State<Block>, line: Line<Text>): State<Block> {
    var n := |s.ppStack|;
    match line
    case If(_) => s.(ppStack := s.ppStack + [PreprocessorInfo(s.stack, [], false)])
    case Else(_) =>
      if n == 0 then s else
      var info := s.ppStack[n - 1];
      var info' := if info.seenElse then info else info.(seenElse := true, stackBeforeElse := s.stack);
      State(info.stackBeforeIf, s.ppStack[n - 1 := info'])
    case Endif(_) =>
      if n == 0 then s else
      var info := s.ppStack[n - 1];
      State(if info.seenElse then info.stackBeforeElse else s.stack, s.ppStack[..n - 1])
    case Other(_) => s
  }

  function AfterLine<Block, Text>(step: Step<Block, Text>, s: State<Block>, line: Line<Text>): State<Block> {
    var s' := AfterDirective(s, line);
    s'.(stack := step(s'.stack, line))
  }

  class NestingState<!Block, !Text> {
    const step: Step<Block, Text>
    var stack: seq<Block>
    var ppStack: seq<PreprocessorInfo<Block>>

    function Current(): State<Block>
      reads this
    {
      State(stack, ppStack)
    }

    constructor (step: Step<Block, Text>)
      ensures this.step == step && Current() == State([], [])
    {
      this.step := step;
      stack, ppStack := [], [];
    }

    /** UpdatePreprocessor. No directive, matched or not, changes the stack that counts; it changes only
        which conditionals are open and which of them have come to an else branch. */
    method UpdatePreprocessor(line: Line<Text>)
      modifies this
      ensures Current() == AfterDirective(old(Current()), line)
      ensures LiveStack(Current()) == LiveStack(old(Current()))
      ensures OpenOf(ppStack) == OpenAfter(OpenOf(old(ppStack)), line)
    {
      DirectiveKeepsLive(Current(), line);
      if line.If? {
        ppStack := ppStack + [PreprocessorInfo(stack, [], false)];
      } else if line.Else? {
        if ppStack != [] {
          var top := |ppStack| - 1;
          if !ppStack[top].seenElse {
            ppStack := ppStack[top := ppStack[top].(seenElse := true, stackBeforeElse := stack)];
          }
          stack := ppStack[top].stackBeforeIf;
        }
      } else if line.Endif? {
        if ppStack != [] {
          var top := |ppStack| - 1;
          if ppStack[top].seenElse {
            stack := ppStack[top].stackBeforeElse;
          }
          ppStack := ppStack[..top];
        }
      }
    }

    /** Update. The line changes the stack that counts as plain text would, unless it is in an else branch
        of some conditional: then it does not. */
    method Update(line: Line<Text>)
      modifies this
      ensures Current() == AfterLine(step, old(Current()), line)
      ensures OpenOf(ppStack) == OpenAfter(OpenOf(old(ppStack)), line)
      ensures LiveStack(Current()) ==
              if true in OpenOf(ppStack) then LiveStack(old(Current())) else step(LiveStack(old(Current())), line)
    {
      LiveStep(step, Current(), OpenOf(ppStack), line);
      UpdatePreprocessor(line);
      stack := step(stack, line);
    }

    /** Reads a whole file. The blocks left are those of the lines that survive. */
    method UpdateAll(lines: seq<Line<Text>>)
      modifies this
      ensures Current() == AfterLines(step, old(Current()), lines)
      ensures old(Current()) == State([], []) ==>
              LiveStack(Current()) == AfterPlainLines(step, [], Surviving([], lines))
    {
      for i := 0 to |lines|
        invariant Current() == AfterLines(step, old(Current()), lines[..i])
      {
        assert lines[..i + 1][..i] == lines[..i];
        Update(lines[i]);
      }
      assert lines[..|lines|] == lines;
      LiveStackIsSurvivingRun(step, lines);
    }
  }

  // ----- Runs -----

  function AfterLines<Block, Text>(step: Step<Block, Text>, s: State<Block>, lines: seq<Line<Text>>): State<Block> {
    if lines == [] then s
    else AfterLine(step, AfterLines(step, s, lines[..|lines| - 1]), lines[|lines| - 1])
  }

  /** The same with every line taken as ordinary text. */
  function AfterPlainLines<Block, Text>(step: Step<Block, Text>, stack: seq<Block>,
                                        lines: seq<Line<Text>>): seq<Block> {
    if lines == [] then stack
    else step(AfterPlainLines(step, stack, lines[..|lines| - 1]), lines[|lines| - 1])
  }

  lemma {:induction false} AfterLinesConcat<Block, Text>(step: Step<Block, Text>, s: State<Block>, a: seq<Line<Text>>,
                                                         b: seq<Line<Text>>)
    ensures AfterLines(step, s, a + b) == AfterLines(step, AfterLines(step, s, a), b)
  {
    if b == [] {
      assert a + b == a;
    } else {
      AfterLinesConcat(step, s, a, b[..|b| - 1]);
      assert (a + b)[..|a + b| - 1] == a + b[..|b| - 1];
    }
  }

  lemma {:induction false} AfterPlainLinesConcat<Block, Text>(step: Step<Block, Text>, stack: seq<Block>,
                                                              a: seq<Line<Text>>, b: seq<Line<Text>>)
    ensures AfterPlainLines(step, stack, a + b) == AfterPlainLines(step, AfterPlainLines(step, stack, a), b)
  {
    if b == [] {
      assert a + b == a;
    } else {
      AfterPlainLinesConcat(step, stack, a, b[..|b| - 1]);
      assert (a + b)[..|a + b| - 1] == a + b[..|b| - 1];
    }
  }

  lemma AfterOneLine<Block, Text>(step: Step<Block, Text>, s: State<Block>, line: Line<Text>)
    ensures AfterLines(step, s, [line]) == AfterLine(step, s, line)
    ensures AfterPlainLines(step, s.stack, [line]) == step(s.stack, line)
  {
    assert [line][..0] == [];
  }

  // ----- Well-nested files -----

  datatype Part<Text> =
    | Plain(text: Text)
    | Conditional(ifText: Text, body: seq<Part<Text>>, elses: seq<Branch<Text>>, endifText: Text)

  datatype Branch<Text> = Branch(elseText: Text, body: seq<Part<Text>>)

  /** All lines of well-nested parts. */
  function PartsLines<Text>(parts: seq<Part<Text>>): seq<Line<Text>> {
    if parts == [] then [] else PartLines(parts[0]) + PartsLines(parts[1..])
  }

  function PartLines<Text>(part: Part<Text>): seq<Line<Text>> {
    match part
    case Plain(text) => [Other(text)]
    case Conditional(ifText, body, elses, endifText) =>
      [If(ifText)] + PartsLines(body) + BranchesLines(elses) + [Endif(endifText)]
  }

  function BranchesLines<Text>(branches: seq<Branch<Text>>): seq<Line<Text>> {
    if branches == [] then []
    else [Else(branches[0].elseText)] + PartsLines(branches[0].body) + BranchesLines(branches[1..])
  }

  /** The lines left when every #else and #elif branch is deleted. */
  function PrunedLines<Text>(parts: seq<Part<Text>>): seq<Line<Text>> {
    if parts == [] then [] else PrunedPart(parts[0]) + PrunedLines(parts[1..])
  }

  function PrunedPart<Text>(part: Part<Text>): seq<Line<Text>> {
    match part
    case Plain(text) => [Other(text)]
    case Conditional(ifText, body, _, endifText) => [If(ifText)] + PrunedLines(body) + [Endif(endifText)]
  }

  /** Reading a well-nested file is reading its pruned lines, and the checkpoint stack comes back
      unchanged. */
  lemma {:induction false} NestedRun<Block, Text>(step: Step<Block, Text>, s: State<Block>, parts: seq<Part<Text>>)
    ensures AfterLines(step, s, PartsLines(parts)) == s.(stack := AfterPlainLines(step, s.stack, PrunedLines(parts)))
    decreases parts, 1
  {
    if parts != [] {
      NestedPart(step, s, parts[0]);
      var s' := s.(stack := AfterPlainLines(step, s.stack, PrunedPart(parts[0])));
      NestedRun(step, s', parts[1..]);
      AfterLinesConcat(step, s, PartLines(parts[0]), PartsLines(parts[1..]));
      AfterPlainLinesConcat(step, s.stack, PrunedPart(parts[0]), PrunedLines(parts[1..]));
    }
  }

  lemma {:induction false} NestedPart<Block, Text>(step: Step<Block, Text>, s: State<Block>, part: Part<Text>)
    ensures AfterLines(step, s, PartLines(part)) == s.(stack := AfterPlainLines(step, s.stack, PrunedPart(part)))
    decreases part, 0
  {
    match part
    case Plain(text) =>
      AfterOneLine(step, s, Other(text));
    case Conditional(ifText, body, elses, endifText) =>
      var ifLine, endifLine := [If(ifText)], [Endif(endifText)];
      var bodyLines, elseLines := PartsLines(body), BranchesLines(elses);
      AfterOneLine(step, s, If(ifText));
      var s1 := AfterLine(step, s, If(ifText));
      NestedRun(step, s1, body);
      var s2 := AfterLines(step, s1, bodyLines);
      NestedBranches(step, s2, elses);
      var s3 := AfterLines(step, s2, elseLines);
      AfterOneLine(step, s3, Endif(endifText));
      AfterLinesConcat(step, s, ifLine, bodyLines);
      AfterLinesConcat(step, s, ifLine + bodyLines, elseLines);
      AfterLinesConcat(step, s, ifLine + bodyLines + elseLines, endifLine);
      AfterOneLine(step, s2, Endif(endifText));
      AfterPlainLinesConcat(step, s.stack, ifLine, PrunedLines(body));
      AfterPlainLinesConcat(step, s.stack, ifLine + PrunedLines(body), endifLine);
  }

  /** The else branches of an open conditional: what #endif will restore is the stack before the
      first of them. */
  ghost function Restored<Block>(s: State<Block>): State<Block>
    requires s.ppStack != []
  {
    var top := s.ppStack[|s.ppStack| - 1];
    State(if top.seenElse then top.stackBeforeElse else s.stack, s.ppStack[..|s.ppStack| - 1])
  }

  lemma {:induction false} NestedBranches<Block, Text>(step: Step<Block, Text>, s: State<Block>,
                                                       branches: seq<Branch<Text>>)
    requires s.ppStack != []
    ensures var s' := AfterLines(step, s, BranchesLines(branches));
            s'.ppStack != [] && Restored(s') == Restored(s)
    decreases branches, 0
  {
    if branches != [] {
      var elseLine, bodyLines := Else(branches[0].elseText), PartsLines(branches[0].body);
      var s1 := AfterLine(step, s, elseLine);
      AfterOneLine(step, s, elseLine);
      NestedRun(step, s1, branches[0].body);
      var s2 := AfterLines(step, s1, bodyLines);
      NestedBranches(step, s2, branches[1..]);
      AfterLinesConcat(step, s, [elseLine], bodyLines);
      AfterLinesConcat(step, s, [elseLine] + bodyLines, BranchesLines(branches[1..]));
    }
  }

  /** The stack before the #if of the innermost open conditional. */
  ghost function BeforeIf<Block>(s: State<Block>): seq<Block>
    requires s.ppStack != []
  {
    s.ppStack[|s.ppStack| - 1].stackBeforeIf
  }

  lemma {:induction false} BranchesKeepIf<Block, Text>(step: Step<Block, Text>, s: State<Block>,
                                                       branches: seq<Branch<Text>>)
    requires s.ppStack != []
    ensures var s' := AfterLines(step, s, BranchesLines(branches)); s'.ppStack != [] && BeforeIf(s') == BeforeIf(s)
    decreases branches
  {
    if branches != [] {
      var elseLine, bodyLines := Else(branches[0].elseText), PartsLines(branches[0].body);
      var s1 := AfterLine(step, s, elseLine);
      AfterOneLine(step, s, elseLine);
      NestedRun(step, s1, branches[0].body);
      var s2 := AfterLines(step, s1, bodyLines);
      BranchesKeepIf(step, s2, branches[1..]);
      AfterLinesConcat(step, s, [elseLine], bodyLines);
      AfterLinesConcat(step, s, [elseLine] + bodyLines, BranchesLines(branches[1..]));
    }
  }

  /** Every #else and #elif branch begins with the stack from before the #if, whatever the branches before
      it have opened or closed. */
  lemma ElseStartsAtIf<Block, Text>(step: Step<Block, Text>, s: State<Block>, ifText: Text, body: seq<Part<Text>>,
                                    branches: seq<Branch<Text>>, elseText: Text)
    ensures AfterLines(step, s, [If(ifText)] + PartsLines(body) + BranchesLines(branches) + [Else(elseText)]).stack ==
            step(s.stack, Else(elseText))
  {
    var ifLine, bodyLines, branchLines := [If(ifText)], PartsLines(body), BranchesLines(branches);
    AfterOneLine(step, s, If(ifText));
    var s1 := AfterLine(step, s, If(ifText));
    NestedRun(step, s1, body);
    var s2 := AfterLines(step, s1, bodyLines);
    BranchesKeepIf(step, s2, branches);
    var s3 := AfterLines(step, s2, branchLines);
    AfterOneLine(step, s3, Else(elseText));
    AfterLinesConcat(step, s, ifLine, bodyLines);
    AfterLinesConcat(step, s, ifLine + bodyLines, branchLines);
    AfterLinesConcat(step, s, ifLine + bodyLines + branchLines, [Else(elseText)]);
  }

  // ----- Any sequence of lines -----

  /** The stack that counts: the current one outside else branches, else the one saved when the
      outermost else branch began. */
  function LiveStack<Block>(s: State<Block>): seq<Block> {
    LiveOf(s.ppStack, s.stack)
  }

  function LiveOf<Block>(ppStack: seq<PreprocessorInfo<Block>>, stack: seq<Block>): seq<Block> {
    if ppStack == [] then stack
    else if ppStack[0].seenElse then ppStack[0].stackBeforeElse
    else LiveOf(ppStack[1..], stack)
  }

  /** The open conditionals after a line: for each, whether an else branch has begun. */
  function OpenAfter<Text>(open: seq<bool>, line: Line<Text>): seq<bool> {
    match line
    case If(_) => open + [false]
    case Else(_) => if open == [] then [] else open[|open| - 1 := true]
    case Endif(_) => if open == [] then [] else open[..|open| - 1]
    case Other(_) => open
  }

  /** The lines that are not inside, and do not begin, an else branch; a stray #else or #endif
      counts as text. */
  function Surviving<Text>(open: seq<bool>, lines: seq<Line<Text>>): seq<Line<Text>>
    decreases |lines|
  {
    if lines == [] then []
    else
      var open' := OpenAfter(open, lines[0]);
      (if true in open' then [] else [lines[0]]) + Surviving(open', lines[1..])
  }

  ghost predicate Tracks<Block>(ppStack: seq<PreprocessorInfo<Block>>, open: seq<bool>) {
    |open| == |ppStack| && forall i :: 0 <= i < |open| ==> open[i] == ppStack[i].seenElse
  }

  lemma {:induction false} LiveOfAppend<Block>(pp: seq<PreprocessorInfo<Block>>, info: PreprocessorInfo<Block>,
                                               stack: seq<Block>)
    ensures LiveOf(pp + [info], stack) == LiveOf(pp, if info.seenElse then info.stackBeforeElse else stack)
  {
    if pp == [] {
      assert [info][1..] == [];
    } else {
      assert (pp + [info])[1..] == pp[1..] + [info];
      LiveOfAppend(pp[1..], info, stack);
    }
  }

  lemma {:induction false} LiveOfDead<Block>(pp: seq<PreprocessorInfo<Block>>, stack: seq<Block>, other: seq<Block>)
    ensures (exists i :: 0 <= i < |pp| && pp[i].seenElse) ==> LiveOf(pp, stack) == LiveOf(pp, other)
    ensures !(exists i :: 0 <= i < |pp| && pp[i].seenElse) ==> LiveOf(pp, stack) == stack
  {
    if pp != [] {
      LiveOfDead(pp[1..], stack, other);
      if exists i :: 0 <= i < |pp| && pp[i].seenElse {
        var i :| 0 <= i < |pp| && pp[i].seenElse;
        assert i > 0 ==> pp[1..][i - 1].seenElse;
      }
    }
  }

  /** For each open conditional, whether an else branch has begun. */
  function OpenOf<Block>(ppStack: seq<PreprocessorInfo<Block>>): (open: seq<bool>)
    ensures Tracks(ppStack, open)
  {
    seq(|ppStack|, i requires 0 <= i < |ppStack| => ppStack[i].seenElse)
  }

  lemma DirectiveKeepsLive<Block, Text>(s: State<Block>, line: Line<Text>)
    ensures LiveStack(AfterDirective(s, line)) == LiveStack(s)
    ensures OpenOf(AfterDirective(s, line).ppStack) == OpenAfter(OpenOf(s.ppStack), line)
  {
    var mid, n := AfterDirective(s, line), |s.ppStack|;
    if line.If? {
      LiveOfAppend(s.ppStack, PreprocessorInfo(s.stack, [], false), s.stack);
    } else if n > 0 && !line.Other? {
      var rest := s.ppStack[..n - 1];
      assert s.ppStack == rest + [s.ppStack[n - 1]];
      LiveOfAppend(rest, s.ppStack[n - 1], s.stack);
      if line.Else? {
        assert mid.ppStack == rest + [mid.ppStack[n - 1]];
        LiveOfAppend(rest, mid.ppStack[n - 1], mid.stack);
      }
    }
  }

  lemma LiveStep<Block, Text>(step: Step<Block, Text>, s: State<Block>, open: seq<bool>, line: Line<Text>)
    requires Tracks(s.ppStack, open)
    ensures var s', open' := AfterLine(step, s, line), OpenAfter(open, line);
            && Tracks(s'.ppStack, open')
            && LiveStack(s') == if true in open' then LiveStack(s) else step(LiveStack(s), line)
  {
    var mid, open' := AfterDirective(s, line), OpenAfter(open, line);
    var s' := AfterLine(step, s, line);
    DirectiveKeepsLive(s, line);
    assert open == OpenOf(s.ppStack);
    LiveOfDead(mid.ppStack, mid.stack, s'.stack);
    LiveOfDead(mid.ppStack, s'.stack, s'.stack);
    if true in open' {
      var i :| 0 <= i < |open'| && open'[i];
      assert mid.ppStack[i].seenElse;
    }
  }

  lemma {:induction false} LiveRun<Block, Text>(step: Step<Block, Text>, s: State<Block>, open: seq<bool>,
                                                lines: seq<Line<Text>>)
    requires Tracks(s.ppStack, open)
    ensures LiveStack(AfterLines(step, s, lines)) == AfterPlainLines(step, LiveStack(s), Surviving(open, lines))
    decreases |lines|
  {
    if lines != [] {
      var line, rest := lines[0], lines[1..];
      var s', open' := AfterLine(step, s, line), OpenAfter(open, line);
      LiveStep(step, s, open, line);
      LiveRun(step, s', open', rest);
      AfterOneLine(step, s, line);
      AfterOneLine(step, State(LiveStack(s), []), line);
      assert lines == [line] + rest;
      AfterLinesConcat(step, s, [line], rest);
      AfterPlainLinesConcat(step, LiveStack(s), [line], Surviving(open', rest));
      assert [] + Surviving(open', rest) == Surviving(open', rest);
    }
  }

  /** After any lines, balanced or not, the stack that counts is the one the surviving lines alone
      would have left. */
  lemma LiveStackIsSurvivingRun<Block, Text>(step: Step<Block, Text>, lines: seq<Line<Text>>)
    ensures LiveStack(AfterLines(step, State([], []), lines)) == AfterPlainLines(step, [], Surviving([], lines))
  {
    LiveRun(step, State([], []), [], lines);
  }
}
