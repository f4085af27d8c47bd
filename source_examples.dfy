/** The behaviour the repository's PHPUnit tests check, derived from the
    general lemmas, and the flag lists whose reading depends on the order
    of the flags. */
module SourceExamples {
  import opened Wrappers
  import opened Text
  import opened PhpBuiltins
  import opened RuleExtraction
  import opened ConfigLines
  import opened RewriteParsing

  const FooRule := "RewriteRule /foo /bar [R=301,L]"
  const BazRule := "RewriteRule /baz /foobar [L]"
  const BazBarRule := "RewriteRule /baz /bar [R=301]"
  const RedRule := "RewriteRule /red /blue [R=301,L]"
  const FileCond := "RewriteCond %{REQUEST_FILENAME} -f"
  const DirCond := "RewriteCond %{REQUEST_FILENAME} -d"

  /** A non-empty string without any whitespace character is a `\S+` run. */
  lemma {:induction false} TokenOfChars(t: string)
    requires |t| > 0 && ' ' !in t && '\t' !in t && '\n' !in t && '\U{b}' !in t && '\U{c}' !in t && '\r' !in t
    ensures IsToken(t)
  {
    forall i | 0 <= i < |t|
      ensures !IsSpace(t[i])
    {
      assert t[i] in t;
    }
  }

  /** A line that starts with the RewriteRule keyword and text after it. */
  lemma {:induction false} RuleLine(l: string)
    requires |l| > 11 && l[..11] == RuleKeyword && l[11] != '\n' && '\n' !in l
    ensures IsRuleLine(l) && IsConfigLine(l)
  {
    MatchesFromVerbatim(l, 0, RuleKeyword, 0);
    assert RuleAt(l, 0);
    assert Lead(l) == 0;
  }

  /** A line that starts with the RewriteCond keyword and has no `w` after
      its first three characters holds no RewriteRule. */
  lemma {:induction false} CondLine(l: string)
    requires |l| > 11 && l[..11] == CondKeyword && '\n' !in l
    requires forall i | 3 <= i < |l| :: l[i] != 'w' && l[i] != 'W'
    ensures IsConfigLine(l) && !IsRuleLine(l) && Lead(l) == 0
  {
    MatchesFromVerbatim(l, 0, CondKeyword, 0);
    assert CondAt(l, 0);
    forall x | RuleAt(l, x)
      ensures false
    {
      if x == 0 {
        CondIsNotRule(l, 0);
      } else {
        KeywordCharAt(l, x, RuleKeyword, 2);
      }
    }
    assert Lead(l) == 0;
  }

  /** A condition line: a configuration line with a keyword at its start
      that is not a rule line. */
  ghost predicate IsCondLine(l: string)
  {
    IsConfigLine(l) && !IsRuleLine(l) && Lead(l) == 0 && |l| > 0
  }

  /** Two rule lines are two blocks. */
  lemma {:induction false} TwoRuleLines(r1: string, r2: string)
    requires IsRuleLine(r1) && IsConfigLine(r1) && IsRuleLine(r2) && IsConfigLine(r2)
    ensures |ExtractRewriteRules(JoinLines([r1, r2]))| == 2
  {
    var lines := [r1, r2];
    assert RuleLineCount([r2]) == 1 by {
      assert [r2][1..] == [];
    }
    assert lines[1..] == [r2];
    ExtractLines(lines);
  }

  /** Two condition lines and the rule line after them are one block: the
      three lines as they stand. */
  lemma {:induction false} CondGroupBlock(c1: string, c2: string, r: string)
    requires IsCondLine(c1) && IsCondLine(c2) && IsRuleLine(r) && IsConfigLine(r)
    ensures ExtractRewriteRules(JoinLines([c1, c2, r])) == [JoinLines([c1, c2, r])]
  {
    var lines := [c1, c2, r];
    assert FirstRuleLine([r]) == Some(0);
    assert FirstRuleLine([c2, r]) == Some(1) by {
      assert [c2, r][1..] == [r];
    }
    assert FirstRuleLine(lines) == Some(2) by {
      assert lines[1..] == [c2, r];
    }
    assert !RuleAt(c1, Lead(c1));
    assert lines[1..3] == lines[1..];
    assert lines[3..] == [];
    assert c1[0..] == c1;
    assert Collect(lines) == [JoinLines(lines)];
    ExtractLines(lines);
  }

  /** A rule line, two condition lines, and two rule lines are three
      blocks. */
  lemma {:induction false} SurroundedGroup(r1: string, c1: string, c2: string, r2: string, r3: string)
    requires IsRuleLine(r1) && IsConfigLine(r1) && IsCondLine(c1) && IsCondLine(c2)
    requires IsRuleLine(r2) && IsConfigLine(r2) && IsRuleLine(r3) && IsConfigLine(r3)
    ensures |ExtractRewriteRules(JoinLines([r1, c1, c2, r2, r3]))| == 3
  {
    var lines := [r1, c1, c2, r2, r3];
    assert RuleLineCount([r3]) == 1 by {
      assert [r3][1..] == [];
    }
    assert RuleLineCount([r2, r3]) == 2 by {
      assert [r2, r3][1..] == [r3];
    }
    assert RuleLineCount([c2, r2, r3]) == 2 by {
      assert [c2, r2, r3][1..] == [r2, r3];
    }
    assert RuleLineCount([c1, c2, r2, r3]) == 2 by {
      assert [c1, c2, r2, r3][1..] == [c2, r2, r3];
    }
    assert lines[1..] == [c1, c2, r2, r3];
    ExtractLines(lines);
  }

  /** The text of two condition lines and a rule line: the rule starts
      after the second LF, and no rule starts before it. */
  lemma {:induction false} CondsThenRule(c1: string, c2: string, r: string)
    requires IsCondLine(c1) && IsCondLine(c2)
    ensures var s := JoinLines([c1, c2, r]);
      var p := |c1| + 1 + |c2| + 1;
      p <= |s| && s[p..] == r && forall q :: 0 <= q < p ==> !RuleAt(s, q)
  {
    var lines := [c1, c2, r];
    var s := JoinLines(lines);
    assert JoinLines([r]) == r;
    assert JoinLines([c2, r]) == c2 + "\n" + r by {
      assert [c2, r][1..] == [r];
    }
    assert s == c1 + "\n" + (c2 + "\n" + r) by {
      assert lines[1..] == [c2, r];
    }
    assert JoinLines([c1, c2]) == c1 + "\n" + c2 by {
      assert [c1, c2][1..] == [c2];
    }
    assert s[0..] == JoinLines([c1, c2]) + ("\n" + r);
    NoRuleOnLines(s, 0, [c1, c2], "\n" + r);
  }

  /** The rule after two condition lines is the one parsed: the scan passes
      over the conditions. */
  lemma {:induction false} RuleAfterConds(c1: string, c2: string, path: string, target: string, flags: Option<string>)
    requires IsCondLine(c1) && IsCondLine(c2) && IsToken(path) && IsToken(target)
    requires flags.Some? ==> flags.value != [] && '\n' !in flags.value && ']' !in flags.value[1..]
    ensures ParseRewrite(JoinLines([c1, c2, FormatRule(path, target, flags)])) ==
      Rewrite(Some(path), Some(target), StatusCode(flags))
  {
    var r := FormatRule(path, target, flags);
    CondsThenRule(c1, c2, r);
    ParseFormatted(JoinLines([c1, c2, r]), |c1| + 1 + |c2| + 1, path, target, flags);
  }

  /** A flag list of one token with a plain name: it sets the status code
      exactly when the name is `R` and the value is truthy. */
  lemma {:induction false} OneFlag(token: string, key: string, value: string)
    requires token == key + "=" + value
    requires key != [] && ' ' !in key && '.' !in key && '%' !in key && '+' !in key && '=' !in key
    requires '&' !in key && '\0' !in key
    requires '&' !in value && '\0' !in value && '%' !in value && '+' !in value
    ensures StatusCode(Some(token)) ==
      if key == "R" && IsTruthy(value) then IntVal(value) else DefaultStatus
  {
    TokensOfJoin([token]);
    NameOfPlain(key, value);
    UrlDecodePlain(value);
    StatusCodeOfR(token);
    assert Names([token]) == [key];
  }

  /** A flag without a value leaves the default. */
  lemma {:induction false} BareFlag(key: string)
    requires key != [] && ' ' !in key && '.' !in key && '%' !in key && '+' !in key && '=' !in key
    requires '&' !in key && '\0' !in key
    ensures StatusCode(Some(key)) == DefaultStatus
  {
    TokensOfJoin([key]);
    NameOfPlain(key, "");
    StatusCodeOfR(key);
    assert Names([key]) == [key];
  }

  /** intval reads 301 from "301" and from "301" followed by a non-digit. */
  lemma {:induction false} IntVal301(v: string, rest: string)
    requires v == "301" + rest
    requires rest == [] || !IsDigit(rest[0])
    ensures IntVal(v) == 301
  {
    IntValDecimal(301, rest);
    assert Decimal(301) == "301";
  }

  /** `R=301`, alone or followed by text that starts with a non-digit,
      gives 301. */
  lemma {:induction false} R301Status(token: string, rest: string)
    requires token == "R=301" + rest
    requires rest == [] || !IsDigit(rest[0])
    requires '&' !in rest && '\0' !in rest && '%' !in rest && '+' !in rest
    ensures StatusCode(Some(token)) == 301
  {
    assert token == "R" + "=" + ("301" + rest);
    OneFlag(token, "R", "301" + rest);
    IntVal301("301" + rest, rest);
  }

  /** The rule `/foo` to `/bar` written with a flag list or without. */
  lemma {:induction false} FooBar(s: string, flags: Option<string>)
    requires flags.Some? ==> flags.value != [] && '\n' !in flags.value && ']' !in flags.value[1..]
    requires s == FormatRule("/foo", "/bar", flags)
    ensures ParseRewrite(s) == Rewrite(Some("/foo"), Some("/bar"), StatusCode(flags))
  {
    TokenOfChars("/foo");
    TokenOfChars("/bar");
    ParseFormatted(s, 0, "/foo", "/bar", flags);
  }

  // The lemmas from here to MoreRuleLinesOfTests, and FlagPiecesPlain below,
  // model nothing of their own: each states one fact about one string
  // literal of the tests, so that the verifier meets each literal in a small
  // proof of its own rather than inside the larger example lemmas.
  lemma FooRuleLine()
    ensures IsRuleLine(FooRule) && IsConfigLine(FooRule)
  {
    RuleLine(FooRule);
  }

  lemma BazRuleLine()
    ensures IsRuleLine(BazRule) && IsConfigLine(BazRule)
  {
    RuleLine(BazRule);
  }

  lemma BazBarRuleLine()
    ensures IsRuleLine(BazBarRule) && IsConfigLine(BazBarRule)
  {
    RuleLine(BazBarRule);
  }

  lemma RedRuleLine()
    ensures IsRuleLine(RedRule) && IsConfigLine(RedRule)
  {
    RuleLine(RedRule);
  }

  lemma RuleLinesOfTests()
    ensures IsRuleLine(FooRule) && IsConfigLine(FooRule)
    ensures IsRuleLine(BazRule) && IsConfigLine(BazRule)
  {
    FooRuleLine();
    BazRuleLine();
  }

  lemma MoreRuleLinesOfTests()
    ensures IsRuleLine(BazBarRule) && IsConfigLine(BazBarRule)
    ensures IsRuleLine(RedRule) && IsConfigLine(RedRule)
  {
    BazBarRuleLine();
    RedRuleLine();
  }

  lemma FileCondLine()
    ensures IsCondLine(FileCond)
  {
    CondLine(FileCond);
  }

  lemma DirCondLine()
    ensures IsCondLine(DirCond)
  {
    CondLine(DirCond);
  }

  /** testExtractRewriteRules: two rule lines give two blocks. */
  lemma TwoRulesTwoBlocks()
    ensures |ExtractRewriteRules(JoinLines([FooRule, BazRule]))| == 2
  {
    RuleLinesOfTests();
    TwoRuleLines(FooRule, BazRule);
  }

  /** testExtractRewriteRulesWithRewriteCond: two conditions and the rule
      after them are one block, the whole text. */
  lemma CondsAndRuleOneBlock()
    ensures ExtractRewriteRules(JoinLines([FileCond, DirCond, FooRule])) ==
      [JoinLines([FileCond, DirCond, FooRule])]
  {
    RuleLinesOfTests();
    FileCondLine();
    DirCondLine();
    CondGroupBlock(FileCond, DirCond, FooRule);
  }

  /** testExtractRewriteRulesWithRewriteCondAndSurroundingRules: a rule, a
      group of two conditions with its rule, and one more rule give three
      blocks. */
  lemma SurroundedCondsThreeBlocks()
    ensures |ExtractRewriteRules(JoinLines([BazBarRule, FileCond, DirCond, FooRule, RedRule]))| == 3
  {
    RuleLinesOfTests();
    MoreRuleLinesOfTests();
    FileCondLine();
    DirCondLine();
    SurroundedGroup(BazBarRule, FileCond, DirCond, FooRule, RedRule);
  }

  /** testBasicRewrites and testThatStatusCodeDefaultsTo302. */
  lemma BasicRewrite()
    ensures ParseRewrite("RewriteRule /foo /bar") == Rewrite(Some("/foo"), Some("/bar"), 302)
  {
    FooBar("RewriteRule /foo /bar", None);
  }

  lemma StatusR301()
    ensures StatusCode(Some("R=301")) == 301
  {
    R301Status("R=301", "");
  }

  /** testBasicRewritesWithModifiers (and testRewriteOutputKeys): `[R=301]`
      gives 301. */
  lemma RewriteWithModifier()
    ensures ParseRewrite("RewriteRule /foo /bar [R=301]") == Rewrite(Some("/foo"), Some("/bar"), 301)
  {
    FooBar("RewriteRule /foo /bar [R=301]", Some("R=301"));
    StatusR301();
  }

  /** `[R=301,L]` gives 301: the one token names `R`, and intval stops at
      the comma. */
  lemma StatusR301L()
    ensures StatusCode(Some("R=301,L")) == 301
  {
    R301Status("R=301,L", ",L");
  }

  lemma FooRuleFormat()
    ensures FooRule == FormatRule("/foo", "/bar", Some("R=301,L"))
  {
  }

  /** The block of testExtractRewriteRulesWithRewriteCond, parsed: the
      condition lines are passed over and `[R=301,L]` gives 301. */
  lemma CondBlockParts()
    ensures ParseRewrite(JoinLines([FileCond, DirCond, FooRule])) ==
      Rewrite(Some("/foo"), Some("/bar"), StatusCode(Some("R=301,L")))
  {
    FileCondLine();
    DirCondLine();
    FooRuleFormat();
    TokenOfChars("/foo");
    TokenOfChars("/bar");
    RuleAfterConds(FileCond, DirCond, "/foo", "/bar", Some("R=301,L"));
  }

  lemma CondBlockRewrite()
    ensures ParseRewrite(JoinLines([FileCond, DirCond, FooRule])) == Rewrite(Some("/foo"), Some("/bar"), 301)
  {
    CondBlockParts();
    StatusR301L();
  }

  lemma IntValPermanent()
    ensures IntVal("permanent") == 0
  {
    assert !IsSpace('p');
    IntValNoDigits("permanent");
  }

  lemma StatusRPermanent()
    ensures StatusCode(Some("R=permanent")) == 0
  {
    OneFlag("R=permanent", "R", "permanent");
    IntValPermanent();
  }

  lemma StatusR0()
    ensures StatusCode(Some("R=0")) == 302
  {
    OneFlag("R=0", "R", "0");
  }

  /** `R` without a value, `R=0`, and a non-numeric value. */
  lemma FlagEdgeCases()
    ensures StatusCode(Some("R")) == 302
    ensures StatusCode(Some("R=0")) == 302
    ensures StatusCode(Some("R=permanent")) == 0
  {
    BareFlag("R");
    StatusR0();
    StatusRPermanent();
  }

  lemma StatusLR301()
    ensures StatusCode(Some("L,R=301")) == 302
  {
    OneFlag("L,R=301", "L,R", "301");
  }

  lemma AsWrittenLR()
    ensures ParseRewrite("RewriteRule /foo /bar [L,R=301]").statusCode == 302
  {
    FooBar("RewriteRule /foo /bar [L,R=301]", Some("L,R=301"));
    StatusLR301();
  }

  lemma AsWrittenRL()
    ensures ParseRewrite("RewriteRule /foo /bar [R=301,L]").statusCode == 301
  {
    FooBar("RewriteRule /foo /bar [R=301,L]", Some("R=301,L"));
    StatusR301L();
  }

  /** As written, a flag list splits only at `&`: in `[L,R=301]` the one
      token names `L,R`, so no `R` is found and the rule keeps 302, while
      `[R=301,L]` gives 301. */
  lemma FlagOrderAsWritten()
    ensures ParseRewrite("RewriteRule /foo /bar [L,R=301]").statusCode == 302
    ensures ParseRewrite("RewriteRule /foo /bar [R=301,L]").statusCode == 301
  {
    AsWrittenLR();
    AsWrittenRL();
  }

  lemma PlainL()
    ensures NameOf("L") == "L"
  {
    NameOfPlain("L", "");
  }

  lemma PlainR301()
    ensures NameOf("R=301") == "R" && ValueOf("R=301") == "301"
  {
    assert "R=301" == "R" + "=" + "301";
    UrlDecodePlain("301");
    NameOfPlain("R", "301");
  }

  // A literal fact only, split out as the group above FooRuleLine is.
  lemma FlagPiecesPlain()
    ensures "L" != [] && ',' !in "L" && '&' !in "L" && '\0' !in "L"
    ensures "R=301" != [] && ',' !in "R=301" && '&' !in "R=301" && '\0' !in "R=301"
  {
  }

  /** Two flags, each free of separators and NUL, as a list of pieces. */
  lemma {:induction false} PairPieces(x: string, y: string)
    requires x != [] && ',' !in x && '&' !in x && '\0' !in x
    requires y != [] && ',' !in y && '&' !in y && '\0' !in y
    ensures forall i :: 0 <= i < |[x, y]| ==>
      [x, y][i] != [] && ',' !in [x, y][i] && '&' !in [x, y][i] && '\0' !in [x, y][i]
  {
  }

  lemma IntendedFlagsLR()
    ensures IntendedStatusCode(Some("L,R=301")) == 301
  {
    assert JoinWith(["L", "R=301"], ',') == "L,R=301";
    PlainL();
    PlainR301();
    FlagPiecesPlain();
    IntVal301("301", "");
    PairPieces("L", "R=301");
    IntendedStatusFindsR(["L", "R=301"], 1);
  }

  lemma IntendedFlagsRL()
    ensures IntendedStatusCode(Some("R=301,L")) == 301
  {
    assert JoinWith(["R=301", "L"], ',') == "R=301,L";
    PlainL();
    PlainR301();
    FlagPiecesPlain();
    IntVal301("301", "");
    PairPieces("R=301", "L");
    IntendedStatusFindsR(["R=301", "L"], 0);
  }

  /** The rule `/foo` to `/bar` under the intended reading. */
  lemma {:induction false} FooBarIntended(s: string, flags: Option<string>)
    requires flags.Some? ==> flags.value != [] && '\n' !in flags.value && ']' !in flags.value[1..]
    requires s == FormatRule("/foo", "/bar", flags)
    ensures IntendedParseRewrite(s) == Rewrite(Some("/foo"), Some("/bar"), IntendedStatusCode(flags))
  {
    TokenOfChars("/foo");
    TokenOfChars("/bar");
    IntendedParseFormatted(s, 0, "/foo", "/bar", flags);
  }

  lemma IntendedLR()
    ensures IntendedParseRewrite("RewriteRule /foo /bar [L,R=301]").statusCode == 301
  {
    FooBarIntended("RewriteRule /foo /bar [L,R=301]", Some("L,R=301"));
    IntendedFlagsLR();
  }

  lemma IntendedRL()
    ensures IntendedParseRewrite("RewriteRule /foo /bar [R=301,L]").statusCode == 301
  {
    FooBarIntended("RewriteRule /foo /bar [R=301,L]", Some("R=301,L"));
    IntendedFlagsRL();
  }

  /** Read with commas as separators, both orders give 301. */
  lemma FlagOrderIntended()
    ensures IntendedParseRewrite("RewriteRule /foo /bar [L,R=301]").statusCode == 301
    ensures IntendedParseRewrite("RewriteRule /foo /bar [R=301,L]").statusCode == 301
  {
    IntendedLR();
    IntendedRL();
  }
}
