/** Two bracket matchers of cpplint: the line-counting CloseExpression and the punctuation-stack
    scanner of _GetTextInside, each against an obvious specification. */
module CloseExpressions {

  // ----- Depth of a span -----

  function Balance(s: string, start: char, end: char): int {
    if s == "" then 0
    else Balance(s[..|s| - 1], start, end) +
         (if s[|s| - 1] == start then 1 else if s[|s| - 1] == end then -1 else 0)
  }

  function Count(s: string, ch: char): nat {
    if s == "" then 0 else Count(s[..|s| - 1], ch) + (if s[|s| - 1] == ch then 1 else 0)
  }

  lemma {:induction false} BalanceIsCount(s: string, start: char, end: char)
    requires start != end
    ensures Balance(s, start, end) == Count(s, start) - Count(s, end)
  {
    if s != "" {
      BalanceIsCount(s[..|s| - 1], start, end);
    }
  }

  lemma BalanceStep(s: string, n: nat, start: char, end: char)
    requires n < |s|
    ensures Balance(s[..n + 1], start, end) ==
            Balance(s[..n], start, end) + (if s[n] == start then 1 else if s[n] == end then -1 else 0)
  {
    assert s[..n + 1][..n] == s[..n];
  }

  /** A depth above zero after `from` characters and at or below it after n is zero in between,
      for the first time just after an end character. */
  lemma FirstZero(s: string, from: nat, n: nat, depth: int, start: char, end: char) returns (k: nat)
    requires from <= n <= |s| && depth + Balance(s[..from], start, end) > 0 >= depth + Balance(s[..n], start, end)
    ensures from < k <= n && IsClose(s, depth, start, end, k)
    ensures forall m :: from <= m < k ==> depth + Balance(s[..m], start, end) > 0
  {
    k := from;
    while depth + Balance(s[..k], start, end) > 0
      invariant from <= k <= n
      invariant depth + Balance(s[..k], start, end) >= 0
      invariant forall m :: from <= m < k ==> depth + Balance(s[..m], start, end) > 0
      decreases n - k
    {
      BalanceStep(s, k, start, end);
      k := k + 1;
    }
    BalanceStep(s, k - 1, start, end);
  }

  // ----- FindEndOfExpressionInLine -----

  /** The first place at which the depth is zero just after an end character, or -1. */
  method FindEndOfExpressionInLine(line: string, startpos: nat, depth: int, startchar: char, endchar: char)
    returns (end: int)
    requires startpos <= |line| && startchar != endchar
    ensures end == -1 || 1 <= end - startpos <= |line| - startpos
    ensures end != -1 ==> IsClose(line[startpos..], depth, startchar, endchar, end - startpos)
    ensures forall n :: 1 <= n <= |line| - startpos && (end == -1 || n < end - startpos) ==>
                          !IsClose(line[startpos..], depth, startchar, endchar, n)
  {
    var d := depth;
    ghost var tail := line[startpos..];
    for i := startpos to |line|
      invariant d == depth + Balance(tail[..i - startpos], startchar, endchar)
      invariant forall n :: 1 <= n <= i - startpos ==> !IsClose(tail, depth, startchar, endchar, n)
    {
      BalanceStep(tail, i - startpos, startchar, endchar);
      assert tail[..i - startpos + 1][i - startpos] == line[i];
      if line[i] == startchar {
        d := d + 1;
      } else if line[i] == endchar {
        d := d - 1;
        if d == 0 {
          return i + 1;
        }
      }
    }
    return -1;
  }

  predicate IsClose(tail: string, depth: int, start: char, end: char, n: nat)
    requires n <= |tail|
  {
    n >= 1 && tail[n - 1] == end && depth + Balance(tail[..n], start, end) == 0
  }

  // ----- The span of an expression over several lines -----

  /** An opening bracket at a position of a file. */
  datatype Opening = Opening(lines: seq<string>, linenum: nat, pos: nat, start: char, end: char) {
    ghost predicate Valid() {
      && linenum < |lines| && pos < |lines[linenum]| && lines[linenum][pos] == start && start != end
    }

    /** Where the expression's text begins on a line. */
    function Offset(l: nat): nat {
      if l == linenum then pos else 0
    }

    function Text(l: nat): string
      requires Valid() && linenum <= l < |lines|
    {
      lines[l][Offset(l)..]
    }

    /** The depth after n characters of line l. */
    function Depth(l: nat, n: nat): int
      requires Valid() && linenum <= l < |lines| && n <= |Text(l)|
      decreases l, 0
    {
      DepthBefore(l) + Balance(Text(l)[..n], start, end)
    }

    function DepthBefore(l: nat): int
      requires Valid() && linenum <= l < |lines|
      decreases l, 0, 0
    {
      if l == linenum then 0 else DepthBefore(l - 1) + Balance(Text(l - 1), start, end)
    }

    function EndDepth(l: nat): int
      requires Valid() && linenum <= l < |lines|
    {
      DepthBefore(l) + Balance(Text(l), start, end)
    }

    /** The scan, one character at a time from the bracket, first reaches depth zero just after
        character n of line l. */
    ghost predicate FirstClose(l: nat, n: nat)
      requires Valid()
    {
      && linenum <= l < |lines| && 1 <= n <= |Text(l)| && Depth(l, n) == 0
      && (forall m :: 1 <= m < n ==> Depth(l, m) > 0)
      && PositiveThrough(l)
    }

    /** Depth zero is not reached on any line before l. */
    ghost predicate PositiveThrough(l: nat)
      requires Valid() && l <= |lines|
    {
      forall k, m :: linenum <= k < l && 1 <= m <= |Text(k)| ==> Depth(k, m) > 0
    }
  }

  lemma FirstCharacter(o: Opening)
    requires o.Valid()
    ensures |o.Text(o.linenum)| >= 1 && o.Text(o.linenum)[0] == o.start && o.Depth(o.linenum, 1) == 1
  {
    BalanceStep(o.Text(o.linenum), 0, o.start, o.end);
  }

  lemma DepthAtEnd(o: Opening, l: nat)
    requires o.Valid() && o.linenum <= l < |o.lines|
    ensures o.Depth(l, |o.Text(l)|) == o.EndDepth(l)
    ensures l + 1 < |o.lines| ==> o.DepthBefore(l + 1) == o.EndDepth(l)
  {
    assert o.Text(l)[..|o.Text(l)|] == o.Text(l);
  }

  lemma {:induction false} PositiveBefore(o: Opening, l: nat)
    requires o.Valid() && o.linenum < l < |o.lines| && o.PositiveThrough(l)
    ensures o.DepthBefore(l) > 0
  {
    DepthAtEnd(o, l - 1);
    if o.Text(l - 1) == "" {
      FirstCharacter(o);
      PositiveBefore(o, l - 1);
    }
  }

  /** Once some depth is not positive, the scan has closed. */
  lemma {:induction false} ClosedBy(o: Opening, l: nat, n: nat)
    requires o.Valid() && o.linenum <= l < |o.lines| && 1 <= n <= |o.Text(l)| && o.Depth(l, n) <= 0
    ensures exists k, m :: o.FirstClose(k, m)
    decreases l
  {
    if o.PositiveThrough(l) {
      var from := if l == o.linenum then 1 else 0;
      FirstCharacter(o);
      if l > o.linenum {
        PositiveBefore(o, l);
      }
      var k := FirstZero(o.Text(l), from, n, o.DepthBefore(l), o.start, o.end);
      forall m | 1 <= m < k ensures o.Depth(l, m) > 0 {
      }
      assert o.FirstClose(l, k);
    } else {
      var k, m :| o.linenum <= k < l && 1 <= m <= |o.Text(k)| && o.Depth(k, m) <= 0;
      ClosedBy(o, k, m);
    }
  }

  datatype Closing = Closing(line: string, linenum: int, pos: int)

  function EndcharOf(startchar: char): char {
    if startchar == '(' then ')' else if startchar == '[' then ']' else '}'
  }

  lemma ClosersOfExpressions()
    ensures EndcharOf('(') == ')' && EndcharOf('[') == ']' && EndcharOf('{') == '}'
  {
  }

  /** CloseExpression. The first clause is the answer for anything but an opening bracket. The
      others say when it agrees with the character scan: exactly when the line on which the scan
      closes is the first one or does not end with a positive depth. */
  method CloseExpression(lines: seq<string>, linenum: nat, pos: nat) returns (c: Closing)
    requires linenum < |lines| && pos < |lines[linenum]|
    ensures lines[linenum][pos] !in "({[" ==> c == Closing(lines[linenum], |lines|, -1)
    ensures lines[linenum][pos] in "({[" ==>
              Answers(Opening(lines, linenum, pos, lines[linenum][pos], EndcharOf(lines[linenum][pos])), c)
  {
    hide Balance, Count;
    var line := lines[linenum];
    var startchar := line[pos];
    if startchar !in "({[" {
      return Closing(line, |lines|, -1);
    }
    var endchar := EndcharOf(startchar);
    ghost var o: Opening := Opening(lines, linenum, pos, startchar, endchar);
    var endPos := FindEndOfExpressionInLine(line, pos, 0, startchar, endchar);
    FirstLine(o, endPos);
    if endPos > -1 {
      AnswersOnLine(o, linenum, endPos);
      return Closing(line, linenum, endPos);
    }
    var tail := line[pos..];
    BalanceIsCount(tail, startchar, endchar);
    var numOpen: int := Count(tail, startchar) - Count(tail, endchar);
    var l := linenum;
    while l < |lines| - 1
      invariant linenum <= l < |lines| && line == lines[l]
      invariant numOpen == o.EndDepth(l)
      invariant !exists n :: o.FirstClose(linenum, n)
      invariant forall k :: linenum <= k <= l ==> o.EndDepth(k) > 0
    {
      l := l + 1;
      line := lines[l];
      assert line[0..] == line == o.Text(l);
      DepthAtEnd(o, l - 1);
      BalanceIsCount(line, startchar, endchar);
      var delta: int := Count(line, startchar) - Count(line, endchar);
      if numOpen + delta <= 0 {
        endPos := FindEndOfExpressionInLine(line, 0, numOpen, startchar, endchar);
        LaterLine(o, l, endPos);
        AnswersOnLine(o, l, endPos);
        return Closing(line, l, endPos);
      }
      numOpen := numOpen + delta;
    }
    return Closing(line, |lines|, -1);
  }

  /** What CloseExpression promises for an opening bracket. */
  ghost predicate Answers(o: Opening, c: Closing)
    requires o.Valid()
  {
    if c.pos == -1 then
      // Giving up means that every line ends with a positive depth.
      && c.linenum == |o.lines| && c.line == o.lines[|o.lines| - 1]
      && (forall k :: o.linenum <= k < |o.lines| ==> o.EndDepth(k) > 0)
      && forall l, n :: o.FirstClose(l, n) ==> l != o.linenum
    else
      && o.linenum <= c.linenum < |o.lines| && c.line == o.lines[c.linenum]
      && ClosesOnLine(o, c.linenum, c.pos)
      // It is the place where the scan closes if and only if that line is the first one or does
      // not end with a positive depth.
      && (forall l, n :: o.FirstClose(l, n) ==>
            (c.linenum == l && c.pos == o.Offset(l) + n <==> l == o.linenum || o.EndDepth(l) <= 0))
      && exists l, n :: o.FirstClose(l, n)
  }

  /** The span up to pos has net balance zero, for the first time on this line; the line is the
      first one if the scan closes there, else the first that does not end with a positive depth. */
  ghost predicate ClosesOnLine(o: Opening, l: nat, pos: int)
    requires o.Valid() && o.linenum <= l < |o.lines|
  {
    && 1 <= pos - o.Offset(l) <= |o.Text(l)| && o.Depth(l, pos - o.Offset(l)) == 0
    && (forall m :: 1 <= m < pos - o.Offset(l) ==> o.Depth(l, m) > 0)
    && (l > o.linenum ==>
          && o.EndDepth(l) <= 0
          && (forall k :: o.linenum <= k < l ==> o.EndDepth(k) > 0)
          && forall n :: !o.FirstClose(o.linenum, n))
  }

  lemma FirstLine(o: Opening, end: int)
    requires o.Valid()
    requires end == -1 || 1 <= end - o.pos <= |o.Text(o.linenum)|
    requires end != -1 ==> IsClose(o.Text(o.linenum), 0, o.start, o.end, end - o.pos)
    requires forall n :: 1 <= n <= |o.Text(o.linenum)| && (end == -1 || n < end - o.pos) ==>
                           !IsClose(o.Text(o.linenum), 0, o.start, o.end, n)
    ensures if end == -1 then o.EndDepth(o.linenum) > 0 && forall n :: !o.FirstClose(o.linenum, n)
            else ClosesOnLine(o, o.linenum, end)
  {
    var text := o.Text(o.linenum);
    FirstCharacter(o);
    DepthAtEnd(o, o.linenum);
    assert text[..|text|] == text;
    forall n | 1 <= n <= |text| && (end == -1 || n < end - o.pos) ensures o.Depth(o.linenum, n) > 0 {
      if o.Depth(o.linenum, n) <= 0 {
        var k := FirstZero(text, 1, n, 0, o.start, o.end);
      }
    }
  }

  lemma LaterLine(o: Opening, l: nat, end: int)
    requires o.Valid() && o.linenum < l < |o.lines|
    requires o.EndDepth(l) <= 0 && forall k :: o.linenum <= k < l ==> o.EndDepth(k) > 0
    requires forall n :: !o.FirstClose(o.linenum, n)
    requires end == -1 || 1 <= end <= |o.Text(l)|
    requires end != -1 ==> IsClose(o.Text(l), o.DepthBefore(l), o.start, o.end, end)
    requires forall n :: 1 <= n <= |o.Text(l)| && (end == -1 || n < end) ==>
                           !IsClose(o.Text(l), o.DepthBefore(l), o.start, o.end, n)
    ensures end != -1 && ClosesOnLine(o, l, end)
  {
    var text := o.Text(l);
    DepthAtEnd(o, l - 1);
    DepthAtEnd(o, l);
    forall n | 1 <= n <= |text| && (end == -1 || n < end) ensures o.Depth(l, n) > 0 {
      if o.Depth(l, n) <= 0 {
        var k := FirstZero(text, 0, n, o.DepthBefore(l), o.start, o.end);
      }
    }
    assert Balance("", o.start, o.end) == 0;
  }

  lemma AnswersOnLine(o: Opening, l: nat, pos: int)
    requires o.Valid() && o.linenum <= l < |o.lines| && ClosesOnLine(o, l, pos)
    ensures Answers(o, Closing(o.lines[l], l, pos))
  {
    ClosedBy(o, l, pos - o.Offset(l));
    forall k: nat, n: nat | o.FirstClose(k, n)
      ensures l == k && pos == o.Offset(k) + n <==> k == o.linenum || o.EndDepth(k) <= 0
    {
      assert k <= l;
      if k == l {
        assert n == pos - o.Offset(l);
      }
    }
  }

  /** A line that closes the expression and opens another of the same kind is passed over: the scan
      closes on line 1, which ends with depth 1, and the answer is on line 2. */
  lemma ReopenedLineIsMissed() returns (o: Opening)
    ensures o.lines == ["(", ")(", ")"] && o.linenum == o.pos == 0 && o.start == '(' && o.end == ')'
    ensures o.Valid() && o.FirstClose(1, 1) && o.EndDepth(1) == 1 && o.EndDepth(2) == 0
  {
    o := Opening(["(", ")(", ")"], 0, 0, '(', ')');
    ReopenedLine(o);
  }

  lemma ReopenedLine(o: Opening)
    requires o.lines == ["(", ")(", ")"] && o.linenum == o.pos == 0 && o.start == '(' && o.end == ')'
    ensures o.Valid() && o.FirstClose(1, 1) && o.EndDepth(1) == 1 && o.EndDepth(2) == 0
  {
    FirstCharacter(o);
    DepthAtEnd(o, 0);
    DepthAtEnd(o, 1);
    BalanceStep(o.Text(1), 0, o.start, o.end);
    BalanceStep(o.Text(1), 1, o.start, o.end);
    BalanceStep(o.Text(2), 0, o.start, o.end);
    assert o.Text(0)[..1] == o.Text(0) && o.Text(1)[..2] == o.Text(1) && o.Text(2)[..1] == o.Text(2);
  }
}

module TextInside {
  import opened Sequences
  import opened Wrappers

  predicate IsOpen(ch: char) {
    ch in "({["
  }

  predicate IsClosing(ch: char) {
    ch in ")}]"
  }

  function MatchingPunctuation(ch: char): char {
    if ch == '(' then ')' else if ch == '{' then '}' else ']'
  }

  /** Three opening brackets, each with its own closing one. */
  lemma BracketPairs(ch: char)
    ensures MatchingPunctuation('(') == ')' && MatchingPunctuation('[') == ']' && MatchingPunctuation('{') == '}'
    ensures IsOpen(ch) <==> ch == '(' || ch == '[' || ch == '{'
    ensures IsClosing(ch) <==> ch == ')' || ch == ']' || ch == '}'
  {
  }

  /** Properly nested text over all three bracket kinds, as a derivation. */
  datatype Nest = Empty | Ordinary(ch: char, rest: Nest) | Group(open: char, inner: Nest, rest: Nest) {
    predicate WellFormed() {
      match this
      case Empty => true
      case Ordinary(ch, rest) => !IsOpen(ch) && !IsClosing(ch) && rest.WellFormed()
      case Group(open, inner, rest) => IsOpen(open) && inner.WellFormed() && rest.WellFormed()
    }

    function Text(): string {
      match this
      case Empty => ""
      case Ordinary(ch, rest) => [ch] + rest.Text()
      case Group(open, inner, rest) => [open] + inner.Text() + [MatchingPunctuation(open)] + rest.Text()
    }
  }

  ghost predicate Nested(t: string) {
    exists n: Nest :: n.WellFormed() && n.Text() == t
  }

  /** t is what stands between an opening bracket that `closing` matches and that match. */
  ghost predicate IsInside(t: string, closing: char, after: string) {
    Nested(t) && t + [closing] <= after
  }

  /** The closers the scanner expects, innermost first. */
  datatype Stack = Bottom | On(top: char, below: Stack)

  function StackOf(closers: seq<char>): Stack {
    if closers == [] then Bottom else On(closers[|closers| - 1], StackOf(closers[..|closers| - 1]))
  }

  lemma StackOfPush(closers: seq<char>, top: char)
    ensures StackOf(closers + [top]) == On(top, StackOf(closers))
  {
    assert (closers + [top])[..|closers|] == closers;
  }

  predicate AllClosing(stack: Stack) {
    stack.On? ==> IsClosing(stack.top) && AllClosing(stack.below)
  }

  /** What the scanner makes of its stack at one character; None when it fails. */
  function StackAfter(stack: Stack, ch: char): Option<Stack>
    requires stack.On?
  {
    if ch == stack.top then Some(stack.below)
    else if IsClosing(ch) then None
    else if IsOpen(ch) then Some(On(MatchingPunctuation(ch), stack))
    else Some(stack)
  }

  /** How many characters the scanner reads until the stack is empty; None when it fails or the
      text ends first. */
  function Scan(stack: Stack, s: string): Option<nat>
    decreases |s|
  {
    if stack.Bottom? then Some(0)
    else if s == "" || StackAfter(stack, s[0]).None? then None
    else Shift(1, Scan(StackAfter(stack, s[0]).value, s[1..]))
  }

  function Shift(n: nat, r: Option<nat>): Option<nat> {
    match r
    case Some(m) => Some(n + m)
    case None => None
  }

  /** Nested text for every level of a stack. */
  datatype Nests = NoNests | Level(nest: Nest, outer: Nests)

  ghost predicate Fits(nests: Nests, stack: Stack) {
    match stack
    case Bottom => nests.NoNests?
    case On(_, below) => nests.Level? && nests.nest.WellFormed() && Fits(nests.outer, below)
  }

  /** The text that closes a whole stack. */
  ghost function ClosingText(stack: Stack, nests: Nests): string
    requires Fits(nests, stack)
  {
    match stack
    case Bottom => ""
    case On(top, below) => nests.nest.Text() + [top] + ClosingText(below, nests.outer)
  }

  /** What the scanner accepts is nested text closing every level of its stack. */
  lemma {:induction false} ScanSound(stack: Stack, s: string) returns (nests: Nests)
    requires Scan(stack, s).Some?
    ensures Fits(nests, stack)
    ensures Scan(stack, s).value <= |s| && s[..Scan(stack, s).value] == ClosingText(stack, nests)
    decreases |s|
  {
    if stack.Bottom? {
      nests := NoNests;
    } else {
      var n, ch := Scan(stack, s).value, s[0];
      var stack' := StackAfter(stack, ch).value;
      var nests' := ScanSound(stack', s[1..]);
      var text := ClosingText(stack', nests');
      assert s[..n] == [ch] + s[1..][..n - 1];
      nests := ScanStepSound(stack, ch, nests');
    }
  }

  lemma ScanStepSound(stack: Stack, ch: char, nests': Nests) returns (nests: Nests)
    requires stack.On? && StackAfter(stack, ch).Some? && Fits(nests', StackAfter(stack, ch).value)
    ensures Fits(nests, stack)
    ensures ClosingText(stack, nests) == [ch] + ClosingText(StackAfter(stack, ch).value, nests')
  {
    if ch == stack.top {
      nests := Level(Empty, nests');
    } else if IsOpen(ch) {
      nests := Level(Group(ch, nests'.nest, nests'.outer.nest), nests'.outer.outer);
      var rest := ClosingText(stack.below, nests.outer);
      assert ClosingText(StackAfter(stack, ch).value, nests') ==
             nests'.nest.Text() + [MatchingPunctuation(ch)] + (nests'.outer.nest.Text() + [stack.top] + rest);
    } else {
      nests := Level(Ordinary(ch, nests'.nest), nests'.outer);
    }
  }

  lemma ScanFirst(stack: Stack, ch: char, s: string)
    requires stack.On?
    ensures Scan(stack, [ch] + s) ==
            match StackAfter(stack, ch) case None => None case Some(stack') => Shift(1, Scan(stack', s))
  {
    assert ([ch] + s)[1..] == s;
  }

  lemma GroupText(open: char, inner: Nest, more: Nest, rest: string)
    ensures Group(open, inner, more).Text() + rest ==
            [open] + (inner.Text() + ([MatchingPunctuation(open)] + (more.Text() + rest)))
  {
    var close := [MatchingPunctuation(open)];
    Associates([open] + inner.Text() + close, more.Text(), rest);
    Associates([open] + inner.Text(), close, more.Text() + rest);
    Associates([open], inner.Text(), close + (more.Text() + rest));
  }

  lemma GroupLength(open: char, inner: Nest, more: Nest)
    ensures |Group(open, inner, more).Text()| == 2 + |inner.Text()| + |more.Text()|
  {
  }

  lemma ShiftGroup(i: nat, m: nat, r: Option<nat>)
    ensures Shift(1, Shift(i, Shift(1, Shift(m, r)))) == Shift(2 + i + m, r)
  {
  }

  /** Nested text leaves the stack as it was. */
  lemma {:induction false} ScanSkipsNested(stack: Stack, nest: Nest, rest: string)
    requires stack.On? && AllClosing(stack) && nest.WellFormed()
    ensures Scan(stack, nest.Text() + rest) == Shift(|nest.Text()|, Scan(stack, rest))
    decreases nest
  {
    match nest
    case Empty =>
      assert "" + rest == rest;
    case Ordinary(ch, more) =>
      assert nest.Text() + rest == [ch] + (more.Text() + rest);
      ScanFirst(stack, ch, more.Text() + rest);
      ScanSkipsNested(stack, more, rest);
    case Group(open, inner, more) =>
      var close := MatchingPunctuation(open);
      var afterInner := [close] + (more.Text() + rest);
      GroupText(open, inner, more, rest);
      ScanFirst(stack, open, inner.Text() + afterInner);
      ScanSkipsNested(On(close, stack), inner, afterInner);
      ScanFirst(On(close, stack), close, more.Text() + rest);
      ScanSkipsNested(stack, more, rest);
      GroupLength(open, inner, more);
      ShiftGroup(|inner.Text()|, |more.Text()|, Scan(stack, rest));
  }

  lemma InsideIsScanned(closing: char, s: string, t: string)
    requires IsClosing(closing) && IsInside(t, closing, s)
    ensures Scan(On(closing, Bottom), s) == Some(|t| + 1)
  {
    var nest: Nest :| nest.WellFormed() && nest.Text() == t;
    var rest := s[|t|..];
    assert s == nest.Text() + rest;
    ScanSkipsNested(On(closing, Bottom), nest, rest);
    assert rest == [closing] + rest[1..];
    ScanFirst(On(closing, Bottom), closing, rest[1..]);
  }

  lemma OneLevel(stack: Stack, nests: Nests)
    requires stack.On? && stack.below.Bottom? && Fits(nests, stack)
    ensures ClosingText(stack, nests) == nests.nest.Text() + [stack.top] && nests.nest.WellFormed()
  {
  }

  lemma ScannedIsInside(closing: char, s: string)
    requires Scan(On(closing, Bottom), s).Some?
    ensures var n := Scan(On(closing, Bottom), s).value;
            1 <= n <= |s| && IsInside(s[..n - 1], closing, s)
  {
    var nests := ScanSound(On(closing, Bottom), s);
    OneLevel(On(closing, Bottom), nests);
    NestedPrefix(nests.nest, closing, s, Scan(On(closing, Bottom), s).value);
  }

  lemma NestedPrefix(nest: Nest, closing: char, s: string, n: nat)
    requires nest.WellFormed() && n <= |s| && s[..n] == nest.Text() + [closing]
    ensures 1 <= n && IsInside(s[..n - 1], closing, s)
  {
    var t := nest.Text();
    assert n == |t| + 1;
    assert s[..n - 1] == t by {
      assert s[..n][..n - 1] == t;
    }
  }

  /** The scanner started on one closer finds the text inside exactly when there is one, and there
      is at most one. */
  lemma InsideByScan(closing: char, s: string)
    requires IsClosing(closing)
    ensures match Scan(On(closing, Bottom), s)
            case None => forall t :: !IsInside(t, closing, s)
            case Some(n) => 1 <= n <= |s| && forall t :: IsInside(t, closing, s) <==> t == s[..n - 1]
  {
    forall t | IsInside(t, closing, s) ensures Scan(On(closing, Bottom), s) == Some(|t| + 1) {
      InsideIsScanned(closing, s, t);
    }
    if Scan(On(closing, Bottom), s).Some? {
      ScannedIsInside(closing, s);
    }
  }

  /** _GetTextInside, given where the match of its start pattern ends (None when there is none).
      That the pattern ends in an opening bracket is the assertion the function makes. */
  method GetTextInside(text: string, matchEnd: Option<nat>) returns (inside: Option<string>)
    requires matchEnd.Some? ==> 0 < matchEnd.value <= |text| && IsOpen(text[matchEnd.value - 1])
    ensures matchEnd.None? ==> inside.None?
    ensures matchEnd.Some? ==>
              var closing := MatchingPunctuation(text[matchEnd.value - 1]);
              forall t :: inside == Some(t) <==> IsInside(t, closing, text[matchEnd.value..])
  {
    if matchEnd.None? {
      return None;
    }
    var startPosition := matchEnd.value;
    var closing := MatchingPunctuation(text[startPosition - 1]);
    var punctuationStack := [closing];
    var position := startPosition;
    ghost var s := text[startPosition..];
    InsideByScan(closing, s);
    while punctuationStack != [] && position < |text|
      invariant startPosition <= position <= |text|
      invariant punctuationStack == [] ==> position > startPosition
      decreases |text| - position
      invariant Scan(On(closing, Bottom), s) ==
                Shift(position - startPosition, Scan(StackOf(punctuationStack), text[position..]))
    {
      var top := |punctuationStack| - 1;
      ScanFirst(StackOf(punctuationStack), text[position], text[position + 1..]);
      assert text[position..] == [text[position]] + text[position + 1..];
      if text[position] == punctuationStack[top] {
        punctuationStack := punctuationStack[..top];
      } else if IsClosing(text[position]) {
        return None;
      } else if IsOpen(text[position]) {
        StackOfPush(punctuationStack, MatchingPunctuation(text[position]));
        punctuationStack := punctuationStack + [MatchingPunctuation(text[position])];
      }
      position := position + 1;
    }
    if punctuationStack != [] {
      return None;
    }
    assert text[startPosition..position - 1] == s[..position - 1 - startPosition];
    return Some(text[startPosition..position - 1]);
  }
}
