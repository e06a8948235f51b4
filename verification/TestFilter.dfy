/** Google Test's --gtest_filter: glob patterns, colon-separated lists of them, and the dash that
    begins the negative list. */
module TestFilter {
  import opened Splitting

  // ----- Meaning -----

  ghost predicate PieceFits(p: char, piece: string) {
    match p
    case '?' => |piece| == 1
    case '*' => true
    case _ => piece == [p]
  }

  /** s splits into consecutive pieces, one for each pattern character. */
  ghost predicate Fits(pattern: string, s: string)
    decreases |pattern|, |s|
  {
    if pattern == "" then s == ""
    else exists k :: 0 <= k <= |s| && PieceFits(pattern[0], s[..k]) && Fits(pattern[1..], s[k..])
  }

  ghost predicate SomePatternFits(filter: string, name: string) {
    exists p :: p in Split(filter, ':') && Fits(p, name)
  }

  // ----- Matching -----

  /** PatternMatchesString: the pattern ends at its first colon. */
  predicate PatternMatchesString(pattern: string, str: string)
    decreases |pattern| + |str|
  {
    if pattern == "" || pattern[0] == ':' then str == ""
    else if pattern[0] == '?' then str != "" && PatternMatchesString(pattern[1..], str[1..])
    else if pattern[0] == '*' then
      (str != "" && PatternMatchesString(pattern, str[1..])) || PatternMatchesString(pattern[1..], str)
    else str != "" && pattern[0] == str[0] && PatternMatchesString(pattern[1..], str[1..])
  }

  lemma FitsStar(rest: string, s: string)
    ensures Fits("*" + rest, s) <==> exists k :: 0 <= k <= |s| && Fits(rest, s[k..])
  {
    assert ("*" + rest)[1..] == rest;
  }

  lemma FitsOne(p: char, rest: string, s: string)
    requires p != '*'
    ensures Fits([p] + rest, s) <==> s != "" && (p == '?' || p == s[0]) && Fits(rest, s[1..])
  {
    assert ([p] + rest)[1..] == rest;
    if Fits([p] + rest, s) {
      var k :| 0 <= k <= |s| && PieceFits(p, s[..k]) && Fits(rest, s[k..]);
      assert |s[..k]| == 1 && s[..k][0] == s[0];
    }
    if s != "" && (p == '?' || p == s[0]) && Fits(rest, s[1..]) {
      assert s[..1] == [s[0]];
    }
  }

  lemma {:induction false} PatternMatchesMeansFits(pattern: string, str: string)
    ensures PatternMatchesString(pattern, str) <==> Fits(pattern[..IndexOf(pattern, ':')], str)
    decreases |pattern| + |str|
  {
    if pattern != "" && pattern[0] != ':' {
      var p, rest := pattern[0], pattern[1..];
      var text := rest[..IndexOf(rest, ':')];
      assert pattern[..IndexOf(pattern, ':')] == [p] + text;
      if p == '*' {
        FitsStar(text, str);
        PatternMatchesMeansFits(rest, str);
        assert str[0..] == str;
        if str != "" {
          PatternMatchesMeansFits(pattern, str[1..]);
          FitsStar(text, str[1..]);
          assert forall k :: 0 <= k <= |str[1..]| ==> str[1..][k..] == str[k + 1..];
          assert forall k :: 1 <= k <= |str| ==> str[k..] == str[1..][k - 1..];
        }
      } else {
        FitsOne(p, text, str);
        if str != "" {
          PatternMatchesMeansFits(rest, str[1..]);
        }
      }
    }
  }

  /** MatchesFilter. */
  method MatchesFilter(name: string, filter: string) returns (b: bool)
    ensures b <==> SomePatternFits(filter, name)
  {
    var curPattern := filter;
    while true
      invariant SomePatternFits(filter, name) <==> SomePatternFits(curPattern, name)
      decreases |curPattern|
    {
      var colon := IndexOf(curPattern, ':');
      SomeOfFirst(curPattern, name);
      if PatternMatchesString(curPattern, name) {
        return true;
      }
      if colon == |curPattern| {
        return false;
      }
      curPattern := curPattern[colon + 1..];
    }
  }

  lemma SomeOfFirst(filter: string, name: string)
    ensures var colon := IndexOf(filter, ':');
            SomePatternFits(filter, name) <==>
            PatternMatchesString(filter, name) || (colon < |filter| && SomePatternFits(filter[colon + 1..], name))
  {
    var colon := IndexOf(filter, ':');
    PatternMatchesMeansFits(filter, name);
    var field, rest := filter[..colon], if colon < |filter| then Split(filter[colon + 1..], ':') else [];
    assert colon == |filter| ==> field == filter;
    assert Split(filter, ':') == [field] + rest;
    assert field in [field] + rest;
    assert forall p :: p in [field] + rest <==> p == field || p in rest;
  }

  // ----- The whole flag -----

  /** The flag is cut at its first dash. A test runs if its name fits the positive list, which is
      `*` when it is missing before a dash, and does not fit the negative one. */
  ghost predicate FilterAccepts(flag: string, fullName: string) {
    var dash := IndexOf(flag, '-');
    if dash == |flag| then SomePatternFits(flag, fullName)
    else
      && SomePatternFits(if dash == 0 then "*" else flag[..dash], fullName)
      && !SomePatternFits(flag[dash + 1..], fullName)
  }

  /** FilterMatchesTest, for names within the limit of String::Format. */
  method FilterMatchesTest(testCaseName: string, testName: string, flag: string) returns (b: bool)
    ensures b <==> FilterAccepts(flag, testCaseName + "." + testName)
  {
    var fullName := testCaseName + "." + testName;
    var dash := IndexOf(flag, '-');
    var positive, negative := flag, "";
    if dash < |flag| {
      positive := flag[..dash];
      negative := flag[dash + 1..];
      if positive == "" {
        positive := "*";
      }
    } else {
      SomeOfFirst("", fullName);
    }
    b := MatchesFilter(fullName, positive);
    if b {
      var excluded := MatchesFilter(fullName, negative);
      b := !excluded;
    }
  }

  /** Without a dash there is only a positive list; else the first dash separates it from the negative one. */
  lemma PositiveAndNegative(positive: string, negative: string, fullName: string)
    requires '-' !in positive && positive != ""
    ensures FilterAccepts(positive, fullName) <==> SomePatternFits(positive, fullName)
    ensures FilterAccepts(positive + "-" + negative, fullName) <==>
            SomePatternFits(positive, fullName) && !SomePatternFits(negative, fullName)
  {
    var flag := positive + "-" + negative;
    IndexOfUnique(positive, '-', |positive|);
    IndexOfUnique(flag, '-', |positive|);
    assert flag[..|positive|] == positive && flag[|positive| + 1..] == negative;
  }

  /** A leading dash means "everything but". */
  lemma LeadingDash(negative: string, fullName: string)
    ensures FilterAccepts("-" + negative, fullName) <==> FilterAccepts("*-" + negative, fullName)
    ensures FilterAccepts("-" + negative, fullName) <==> !SomePatternFits(negative, fullName)
  {
    var bare, starred := "-" + negative, "*-" + negative;
    assert IndexOf(bare, '-') == 0 && starred[1..] == bare && IndexOf(starred, '-') == 1;
    assert starred[..1] == "*" && starred[2..] == negative && bare[1..] == negative;
    StarFitsAll(fullName);
  }

  lemma StarFitsAll(name: string)
    ensures SomePatternFits("*", name)
  {
    SplitOfJoin(["*"], ':');
    FitsAnything(name);
  }

  // ----- The two built-in filters -----

  // "*DeathTest:*DeathTest/*"
  const DEATH_TEST_CASE_FILTER := ("*" + "DeathTest") + ":" + ("*" + ("DeathTest/" + "*"))

  // "DISABLED_*:*/DISABLED_*"
  const DISABLE_TEST_FILTER := ("DISABLED_" + "*") + ":" + ("*" + ("/DISABLED_" + "*"))

  lemma {:induction false} FitsLiteral(literal: string, rest: string, s: string)
    requires '*' !in literal && '?' !in literal
    ensures Fits(literal + rest, s) <==> literal <= s && Fits(rest, s[|literal|..])
  {
    if literal == "" {
      assert literal + rest == rest && s[0..] == s;
    } else {
      assert literal + rest == [literal[0]] + (literal[1..] + rest);
      assert literal[0] in literal;
      FitsOne(literal[0], literal[1..] + rest, s);
      if s != "" {
        FitsLiteral(literal[1..], rest, s[1..]);
        assert literal <= s <==> literal[0] == s[0] && literal[1..] <= s[1..];
        if literal <= s {
          assert s[1..][|literal[1..]|..] == s[|literal|..];
        }
      }
    }
  }

  ghost predicate EndsWith(s: string, end: string) {
    exists k :: 0 <= k <= |s| && s[k..] == end
  }

  ghost predicate Contains(s: string, part: string) {
    exists k :: 0 <= k <= |s| && part <= s[k..]
  }

  lemma TwoPatterns(first: string, second: string, name: string)
    requires ':' !in first && ':' !in second
    ensures SomePatternFits(first + ":" + second, name) <==> Fits(first, name) || Fits(second, name)
  {
    var fields := [first, second];
    SplitOfJoin(fields, ':');
    assert Join(fields[1..], ':') == second;
    assert Join(fields, ':') == first + ":" + second;
    assert forall p :: p in fields <==> p == first || p == second;
  }

  ghost predicate IsDeathTestCaseName(name: string) {
    EndsWith(name, "DeathTest") || Contains(name, "DeathTest/")
  }

  ghost predicate IsDisabledName(name: string) {
    "DISABLED_" <= name || Contains(name, "/DISABLED_")
  }

  /** A death test case is one whose name ends in DeathTest or has DeathTest/ in it. */
  lemma DeathTestCaseNames(name: string)
    ensures SomePatternFits(DEATH_TEST_CASE_FILTER, name) <==> IsDeathTestCaseName(name)
  {
    TwoPatterns("*" + "DeathTest", "*" + ("DeathTest/" + "*"), name);
    EndsFits("DeathTest", name);
    InsideFits("DeathTest/", name);
  }

  /** A test or test case is disabled when its name begins with DISABLED_ or has /DISABLED_ in it. */
  lemma DisabledNames(name: string)
    ensures SomePatternFits(DISABLE_TEST_FILTER, name) <==> IsDisabledName(name)
  {
    TwoPatterns("DISABLED_" + "*", "*" + ("/DISABLED_" + "*"), name);
    BeginsFits("DISABLED_", name);
    InsideFits("/DISABLED_", name);
  }

  lemma FitsAnything(s: string)
    ensures Fits("*", s)
  {
    FitsStar("", s);
    assert "*" + "" == "*" && s[|s|..] == "";
  }

  lemma BeginsFits(word: string, name: string)
    requires '*' !in word && '?' !in word
    ensures Fits(word + "*", name) <==> word <= name
  {
    FitsLiteral(word, "*", name);
    if word <= name {
      FitsAnything(name[|word|..]);
    }
  }

  lemma EndsFits(word: string, name: string)
    requires '*' !in word && '?' !in word
    ensures Fits("*" + word, name) <==> EndsWith(name, word)
  {
    FitsStar(word, name);
    forall k | 0 <= k <= |name| ensures Fits(word, name[k..]) <==> name[k..] == word {
      FitsLiteral(word, "", name[k..]);
      assert word + "" == word;
    }
  }

  lemma InsideFits(word: string, name: string)
    requires '*' !in word && '?' !in word
    ensures Fits("*" + (word + "*"), name) <==> Contains(name, word)
  {
    FitsStar(word + "*", name);
    forall k | 0 <= k <= |name| ensures Fits(word + "*", name[k..]) <==> word <= name[k..] {
      BeginsFits(word, name[k..]);
    }
  }
}
