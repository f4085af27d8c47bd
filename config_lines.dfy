/** extractRewriteRules on a configuration held one directive per line.
    Collect states, line by line, which blocks such a configuration holds;
    BlocksOfLines proves that the scanner of RuleExtraction returns exactly
    those blocks. */
module ConfigLines {
  import opened Wrappers
  import opened Text
  import opened RuleExtraction

  /** The first position at or after i on line l where an attempt can start:
      a RewriteCond keyword, or a RewriteRule keyword with text after it.
      |l| when there is none. */
  function LeadFrom(l: string, i: nat): (x: nat)
    requires i <= |l|
    decreases |l| - i
    ensures i <= x <= |l|
    ensures x < |l| ==> CondAt(l, x) || RuleAt(l, x)
    ensures forall y :: i <= y < x ==> !CondAt(l, y) && !RuleAt(l, y)
  {
    if i == |l| || CondAt(l, i) || RuleAt(l, i) then i else LeadFrom(l, i + 1)
  }

  /** The first position on line l where an attempt can start, |l| when
      there is none. */
  function Lead(l: string): (x: nat)
    ensures x <= |l|
    ensures x < |l| ==> CondAt(l, x) || RuleAt(l, x)
    ensures forall y :: 0 <= y < x ==> !CondAt(l, y) && !RuleAt(l, y)
  {
    LeadFrom(l, 0)
  }

  /** A rule line: its first keyword is a RewriteRule with text after it.
      Whatever precedes the keyword (indentation, a comment sign) is not
      part of the block. */
  predicate IsRuleLine(l: string)
  {
    Lead(l) < |l| && RuleAt(l, Lead(l))
  }

  /** A line this view covers: it holds no LF and, unless it is a rule line,
      no RewriteRule that could end a match. Such a line is a rule line, a
      condition line (its first keyword is RewriteCond), or a line with no
      keyword at all (other directives, comments, blank lines). */
  ghost predicate IsConfigLine(l: string)
  {
    '\n' !in l && (IsRuleLine(l) || forall x :: !RuleAt(l, x))
  }

  ghost predicate AllConfigLines(lines: seq<string>)
  {
    forall i :: 0 <= i < |lines| ==> IsConfigLine(lines[i])
  }

  lemma {:induction false} ConfigSuffix(lines: seq<string>, k: nat)
    requires AllConfigLines(lines) && k <= |lines|
    ensures AllConfigLines(lines[k..])
  {
    forall i | 0 <= i < |lines| - k
      ensures IsConfigLine(lines[k..][i])
    {
      assert lines[k..][i] == lines[k + i];
    }
  }

  /** The index of the first rule line, if any. */
  function FirstRuleLine(lines: seq<string>): (j: Option<nat>)
    ensures j.Some? ==> j.value < |lines| && IsRuleLine(lines[j.value])
    ensures forall i :: 0 <= i < |lines| && (j.None? || i < j.value) ==> !IsRuleLine(lines[i])
  {
    if lines == [] then None
    else if IsRuleLine(lines[0]) then Some(0)
    else
      match FirstRuleLine(lines[1..])
      case None => None
      case Some(j) => Some(j + 1)
  }

  /** The blocks of a configuration, read line by line. A rule line is a
      block of its own, from its keyword to the end of the line. A condition
      line opens a block that takes in every following line up to and
      including the next rule line; with no rule line after it, it yields
      nothing. Lines without a keyword outside such a block are skipped. */
  function Collect(lines: seq<string>): seq<string>
    decreases |lines|
  {
    if lines == [] then []
    else
      var l := lines[0];
      var x := Lead(l);
      if x == |l| then Collect(lines[1..])
      else if RuleAt(l, x) then [l[x..]] + Collect(lines[1..])
      else
        match FirstRuleLine(lines)
        case None => []
        case Some(j) => [l[x..] + "\n" + JoinLines(lines[1..j + 1])] + Collect(lines[j + 1..])
  }

  /** The number of rule lines. */
  function RuleLineCount(lines: seq<string>): nat
  {
    if lines == [] then 0
    else (if IsRuleLine(lines[0]) then 1 else 0) + RuleLineCount(lines[1..])
  }

  lemma {:induction false} RuleLineCountSplit(a: seq<string>, b: seq<string>)
    ensures RuleLineCount(a + b) == RuleLineCount(a) + RuleLineCount(b)
    decreases |a|
  {
    if a == [] {
      assert a + b == b;
    } else {
      assert (a + b)[0] == a[0];
      assert (a + b)[1..] == a[1..] + b;
      RuleLineCountSplit(a[1..], b);
      assert RuleLineCount(a + b) == (if IsRuleLine(a[0]) then 1 else 0) + RuleLineCount(a[1..] + b);
    }
  }

  lemma {:induction false} NoRuleLineCount(lines: seq<string>)
    requires forall i :: 0 <= i < |lines| ==> !IsRuleLine(lines[i])
    ensures RuleLineCount(lines) == 0
    decreases |lines|
  {
    if lines != [] {
      NoRuleLineCount(lines[1..]);
    }
  }

  /** Every rule line ends exactly one block: N rule lines give N blocks,
      whatever condition and other lines lie between them. */
  lemma {:induction false} CollectCountsRuleLines(lines: seq<string>)
    ensures |Collect(lines)| == RuleLineCount(lines)
    decreases |lines|
  {
    if lines != [] {
      var l := lines[0];
      var x := Lead(l);
      if x == |l| || RuleAt(l, x) {
        CollectCountsRuleLines(lines[1..]);
      } else {
        match FirstRuleLine(lines)
        case None =>
          NoRuleLineCount(lines);
        case Some(j) =>
          CollectCountsRuleLines(lines[j + 1..]);
          assert lines == lines[..j] + [lines[j]] + lines[j + 1..];
          RuleLineCountSplit(lines[..j] + [lines[j]], lines[j + 1..]);
          RuleLineCountSplit(lines[..j], [lines[j]]);
          NoRuleLineCount(lines[..j]);
          assert [lines[j]][1..] == [];
      }
    }
  }

  /** A line of the subject at o, followed by t. */
  lemma {:induction false} LineAt(s: string, o: nat, l: string, t: string)
    requires o <= |s| && s[o..] == l + t && '\n' !in l && (t == "" || t[0] == '\n')
    ensures o + |l| <= |s| && s[o..o + |l|] == l && s[o + |l|..] == t
    ensures o + |l| == |s| || s[o + |l|] == '\n'
    ensures forall k :: o <= k < o + |l| ==> s[k] != '\n'
  {
    assert s[o..o + |l|] == s[o..][..|l|];
    assert s[o + |l|..] == s[o..][|l|..];
    forall k | o <= k < o + |l|
      ensures s[k] != '\n'
    {
      assert s[k] == l[k - o];
      assert l[k - o] in l;
    }
    if t != "" {
      assert s[o + |l|] == t[0];
    }
  }

  /** No attempt succeeds on a line before its lead. */
  lemma {:induction false} LeadNoMatch(s: string, o: nat, l: string)
    requires o + |l| <= |s| && s[o..o + |l|] == l
    requires o + |l| == |s| || s[o + |l|] == '\n'
    ensures forall y :: o <= y < o + Lead(l) ==> MatchAt(s, y).None?
  {
    forall y | o <= y < o + Lead(l)
      ensures MatchAt(s, y).None?
    {
      KeywordsOnLine(s, o, l, y - o);
    }
  }

  /** A line with no RewriteRule on it holds no place where a match could
      end, up to and including the LF after it. */
  lemma {:induction false} NoRuleOnLine(s: string, o: nat, l: string, t: string)
    requires o <= |s| && s[o..] == l + t && '\n' !in l && (t == "" || t[0] == '\n')
    requires forall x :: !RuleAt(l, x)
    ensures o + |l| <= |s| && s[o + |l|..] == t
    ensures forall y :: o <= y <= o + |l| ==> !RuleAt(s, y)
  {
    LineAt(s, o, l, t);
    forall y | o <= y <= o + |l|
      ensures !RuleAt(s, y)
    {
      KeywordsOnLine(s, o, l, y - o);
    }
  }

  /** The first of several lines in the subject, and where the others start. */
  lemma {:induction false} NextLine(s: string, o: nat, ls: seq<string>, t: string)
    requires o <= |s| && s[o..] == JoinLines(ls) + t && ls != []
    ensures s[o..] == ls[0] + (AfterFirstLine(ls[1..]) + t)
    ensures |JoinLines(ls)| == |ls[0]| + |AfterFirstLine(ls[1..])|
    ensures ls[1..] != [] ==> o + |ls[0]| + 1 <= |s| && s[o + |ls[0]| + 1..] == JoinLines(ls[1..]) + t
  {
    JoinLinesFirst(ls);
    if ls[1..] != [] {
      assert s[o + |ls[0]| + 1..] == s[o..][|ls[0]| + 1..];
    }
  }

  /** The lines after the first of lines that hold no rule line. */
  lemma {:induction false} NoRuleLineTail(ls: seq<string>)
    requires ls != [] && AllConfigLines(ls) && forall i :: 0 <= i < |ls| ==> !IsRuleLine(ls[i])
    ensures forall x :: !RuleAt(ls[0], x)
    ensures AllConfigLines(ls[1..]) && forall i :: 0 <= i < |ls[1..]| ==> !IsRuleLine(ls[1..][i])
  {
    assert IsConfigLine(ls[0]) && !IsRuleLine(ls[0]);
    ConfigSuffix(ls, 1);
    forall i | 0 <= i < |ls[1..]|
      ensures !IsRuleLine(ls[1..][i])
    {
      assert ls[1..][i] == ls[i + 1];
    }
  }

  /** What ends a line: nothing, or a LF, neither of which ends a match. */
  lemma {:induction false} NoRuleAtLineEnd(s: string, o: nat, t: string)
    requires o <= |s| && s[o..] == t && (t == "" || t[0] == '\n')
    ensures !RuleAt(s, o)
  {
    if o < |s| {
      assert s[o] == s[o..][0];
      NewlineNoMatch(s, o);
    }
  }

  /** Lines that are not rule lines hold no place where a match could end. */
  lemma {:induction false} NoRuleOnLines(s: string, o: nat, ls: seq<string>, t: string)
    requires o <= |s| && s[o..] == JoinLines(ls) + t && (t == "" || t[0] == '\n')
    requires AllConfigLines(ls) && forall i :: 0 <= i < |ls| ==> !IsRuleLine(ls[i])
    ensures forall y :: o <= y <= o + |JoinLines(ls)| ==> !RuleAt(s, y)
    decreases |ls|
  {
    if ls == [] {
      NoRuleAtLineEnd(s, o, t);
    } else {
      NextLine(s, o, ls, t);
      NoRuleLineTail(ls);
      NoRuleOnLine(s, o, ls[0], AfterFirstLine(ls[1..]) + t);
      if ls[1..] != [] {
        NoRuleOnLines(s, o + |ls[0]| + 1, ls[1..], t);
      }
    }
  }

  /** A RewriteRule keyword with no RewriteCond keyword between the start
      of its line and itself is not glued to one. */
  lemma {:induction false} NotGluedAfterNewline(s: string, a: nat, r: nat)
    requires 0 < a <= r <= |s| && s[a - 1] == '\n'
    requires forall y :: a <= y < r ==> !CondAt(s, y)
    ensures !Glued(s, r)
  {
    if r >= 11 && r - 11 < a && CondAt(s, r - 11) {
      KeywordWithinLine(s, r - 11, CondKeyword, a - 1);
      assert false;
    }
  }

  /** The search from the start of a line goes straight to the line's lead,
      and what stands at the lead can be read off the line. */
  lemma {:induction false} LineStart(s: string, o: nat, l: string, t: string)
    requires o <= |s| && s[o..] == l + t && '\n' !in l && (t == "" || t[0] == '\n')
    ensures o + |l| <= |s| && s[o..o + |l|] == l && s[o + |l|..] == t
    ensures FindMatch(s, o) == FindMatch(s, o + Lead(l))
    ensures CondAt(s, o + Lead(l)) == CondAt(l, Lead(l))
    ensures RuleAt(s, o + Lead(l)) == RuleAt(l, Lead(l))
  {
    LineAt(s, o, l, t);
    LeadNoMatch(s, o, l);
    FindMatchSkips(s, o, o + Lead(l));
    KeywordsOnLine(s, o, l, Lead(l));
  }

  /** From inside a line, the line runs to its own end. */
  lemma {:induction false} LineEndOfLine(s: string, o: nat, l: string, t: string, k: nat)
    requires o <= |s| && s[o..] == l + t && '\n' !in l && (t == "" || t[0] == '\n')
    requires o <= k <= o + |l|
    ensures LineEnd(s, k) == o + |l|
  {
    LineAt(s, o, l, t);
    LineEndAt(s, k, o + |l|);
  }

  /** The rule line that closes a condition group, at a after a LF:
      where its RewriteRule keyword is, that nothing before the keyword on
      the line can start or end a match, and where the block ends. */
  lemma {:induction false} ClosingRuleLine(s: string, a: nat, rl: string, after: string)
    requires 0 < a <= |s| && s[a - 1] == '\n' && s[a..] == rl + after
    requires '\n' !in rl && (after == "" || after[0] == '\n') && IsRuleLine(rl)
    ensures RuleAt(s, a + Lead(rl)) && !Glued(s, a + Lead(rl))
    ensures forall y :: a <= y < a + Lead(rl) ==> !RuleAt(s, y)
  {
    var r := a + Lead(rl);
    LineAt(s, a, rl, after);
    forall y | a <= y < r
      ensures !RuleAt(s, y) && !CondAt(s, y)
    {
      KeywordsOnLine(s, a, rl, y - a);
    }
    KeywordsOnLine(s, a, rl, Lead(rl));
    NotGluedAfterNewline(s, a, r);
  }

  /** The lines up to line j and the lines after it. */
  lemma {:induction false} JoinAfter(lines: seq<string>, j: nat)
    requires j < |lines|
    ensures JoinLines(lines) == JoinLines(lines[..j + 1]) + AfterFirstLine(lines[j + 1..])
  {
    if j + 1 < |lines| {
      JoinLinesSplit(lines, j + 1);
    } else {
      assert lines[..j + 1] == lines;
    }
  }

  /** The lines up to line j, ending with line j. */
  lemma {:induction false} JoinUpTo(lines: seq<string>, j: nat)
    requires 0 < j < |lines|
    ensures JoinLines(lines[..j + 1]) == JoinLines(lines[..j]) + ("\n" + lines[j])
  {
    var upTo := lines[..j + 1];
    JoinLinesSplit(upTo, j);
    assert upTo[..j] == lines[..j] && upTo[j..] == [lines[j]];
  }

  /** How the lines up to rule line j join. */
  lemma {:induction false} JoinAround(lines: seq<string>, j: nat)
    requires 0 < j < |lines|
    ensures JoinLines(lines) == JoinLines(lines[..j + 1]) + AfterFirstLine(lines[j + 1..])
    ensures JoinLines(lines[..j + 1]) == JoinLines(lines[..j]) + ("\n" + lines[j])
    ensures JoinLines(lines) == JoinLines(lines[..j]) + ("\n" + (lines[j] + AfterFirstLine(lines[j + 1..])))
  {
    JoinAfter(lines, j);
    JoinUpTo(lines, j);
    var before, line, after := JoinLines(lines[..j]), lines[j], AfterFirstLine(lines[j + 1..]);
    assert before + ("\n" + line) + after == before + ("\n" + (line + after));
  }

  /** The first line of a group and the lines after it. */
  lemma {:induction false} JoinFirst(lines: seq<string>, j: nat)
    requires 0 < j < |lines|
    ensures JoinLines(lines[..j + 1]) == lines[0] + ("\n" + JoinLines(lines[1..j + 1]))
    ensures |lines[0]| <= |JoinLines(lines[..j])|
  {
    var upTo := lines[..j + 1];
    JoinLinesFirst(upTo);
    assert upTo[0] == lines[0] && upTo[1..] == lines[1..j + 1];
    JoinLinesFirst(lines[..j]);
    assert lines[..j][0] == lines[0];
  }

  /** A LF at k, then u. */
  lemma {:induction false} NewlineThen(s: string, k: nat, a: nat, u: string)
    requires k <= |s| && s[k..] == "\n" + u && a == k + 1
    ensures a <= |s| && s[a - 1] == '\n' && s[a..] == u
  {
    assert s[k] == s[k..][0];
    assert s[k + 1..] == s[k..][1..];
  }

  /** The search from o finds the condition at c completed by the rule at
      r when nothing from o to r can end a match and no attempt succeeds
      between o and c. */
  lemma {:induction false} GroupMatch(s: string, o: nat, c: nat, a: nat, r: nat)
    requires o <= c && c + 12 <= a <= r && CondAt(s, c) && RuleAt(s, r) && !Glued(s, r)
    requires forall y :: o <= y < a ==> !RuleAt(s, y)
    requires forall y :: a <= y < r ==> !RuleAt(s, y)
    requires FindMatch(s, o) == FindMatch(s, c)
    ensures FindMatch(s, o) == Some(Match(c, r))
  {
    forall y | c <= y < r
      ensures !RuleAt(s, y)
    {
      if y < a {
        assert o <= y < a;
      }
    }
    CondGroupMatch(s, c, r);
  }

  /** Dropping the lead of the first line of a text. */
  lemma {:induction false} DropLead(t: string, l: string, u: string, x: nat)
    requires t == l + ("\n" + u) && x <= |l|
    ensures t[x..] == l[x..] + "\n" + u
  {
  }

  /** The rule line j of a group sits after a LF at a. */
  lemma {:induction false} RuleLineOfGroup(s: string, o: nat, lines: seq<string>, j: nat, a: nat)
    requires o <= |s| && s[o..] == JoinLines(lines) && 0 < j < |lines|
    requires a == o + |JoinLines(lines[..j])| + 1
    ensures a <= |s| && s[a - 1] == '\n' && s[a..] == lines[j] + AfterFirstLine(lines[j + 1..])
  {
    var J := JoinLines(lines[..j]);
    var u := lines[j] + AfterFirstLine(lines[j + 1..]);
    JoinAround(lines, j);
    SplitAt(s, o, J, "\n" + u);
    NewlineThen(s, o + |J|, a, u);
  }

  /** No match ends before the rule line of a group. */
  lemma {:induction false} NoRuleBeforeRuleLine(s: string, o: nat, lines: seq<string>, j: nat)
    requires o <= |s| && s[o..] == JoinLines(lines) && AllConfigLines(lines)
    requires FirstRuleLine(lines) == Some(j) && 0 < j
    ensures forall y :: o <= y < o + |JoinLines(lines[..j])| + 1 ==> !RuleAt(s, y)
  {
    JoinAround(lines, j);
    forall i | 0 <= i < j
      ensures IsConfigLine(lines[..j][i]) && !IsRuleLine(lines[..j][i])
    {
      assert lines[..j][i] == lines[i];
    }
    NoRuleOnLines(s, o, lines[..j], "\n" + (lines[j] + AfterFirstLine(lines[j + 1..])));
  }

  /** The opening condition line of a group: the search from o goes
      straight to its RewriteCond keyword, which lies before the rule line
      starting at a. */
  lemma {:induction false} OpeningCondLine(s: string, o: nat, lines: seq<string>, j: nat, a: nat)
    requires o <= |s| && s[o..] == JoinLines(lines) && 0 < j < |lines| && IsConfigLine(lines[0])
    requires a == o + |JoinLines(lines[..j])| + 1
    requires Lead(lines[0]) < |lines[0]| && !RuleAt(lines[0], Lead(lines[0]))
    ensures CondAt(s, o + Lead(lines[0])) && o + Lead(lines[0]) + 12 <= a
    ensures FindMatch(s, o) == FindMatch(s, o + Lead(lines[0]))
  {
    var l := lines[0];
    var t := AfterFirstLine(lines[1..]);
    JoinLinesFirst(lines);
    LineStart(s, o, l, t);
    JoinFirst(lines, j);
  }

  /** The closing rule line j of a group, starting at a: where its
      RewriteRule keyword is, that it is not glued, and that nothing on the
      line before it can end a match. */
  lemma {:induction false} ClosingOfGroup(s: string, o: nat, lines: seq<string>, j: nat, a: nat)
    requires o <= |s| && s[o..] == JoinLines(lines) && 0 < j < |lines|
    requires a == o + |JoinLines(lines[..j])| + 1
    requires IsConfigLine(lines[j]) && IsRuleLine(lines[j])
    ensures RuleAt(s, a + Lead(lines[j])) && !Glued(s, a + Lead(lines[j]))
    ensures forall y :: a <= y < a + Lead(lines[j]) ==> !RuleAt(s, y)
  {
    RuleLineOfGroup(s, o, lines, j, a);
    ClosingRuleLine(s, a, lines[j], AfterFirstLine(lines[j + 1..]));
  }

  /** A condition line at o whose block ends at rule line j, starting at
      a: the search from o finds the match that runs from the condition
      keyword to the rule line's RewriteRule keyword. */
  lemma {:induction false} CondGroupFind(s: string, o: nat, lines: seq<string>, j: nat, a: nat)
    requires o <= |s| && s[o..] == JoinLines(lines) && 0 < j < |lines|
    requires a == o + |JoinLines(lines[..j])| + 1
    requires IsConfigLine(lines[0]) && Lead(lines[0]) < |lines[0]| && !RuleAt(lines[0], Lead(lines[0]))
    requires IsConfigLine(lines[j]) && IsRuleLine(lines[j])
    requires forall y :: o <= y < a ==> !RuleAt(s, y)
    ensures FindMatch(s, o) == Some(Match(o + Lead(lines[0]), a + Lead(lines[j])))
  {
    OpeningCondLine(s, o, lines, j, a);
    ClosingOfGroup(s, o, lines, j, a);
    GroupMatch(s, o, o + Lead(lines[0]), a, a + Lead(lines[j]));
  }

  /** The text of that block: the condition line from its keyword on, and
      every line after it up to and including the rule line; what follows
      is the rest of the lines. */
  lemma {:induction false} CondGroupText(s: string, o: nat, lines: seq<string>, j: nat, a: nat)
    requires o <= |s| && s[o..] == JoinLines(lines) && 0 < j < |lines|
    requires a == o + |JoinLines(lines[..j])| + 1
    requires Lead(lines[0]) < |lines[0]|
    ensures o + Lead(lines[0]) <= a + |lines[j]| <= |s|
    ensures s[o + Lead(lines[0])..a + |lines[j]|] == lines[0][Lead(lines[0])..] + "\n" + JoinLines(lines[1..j + 1])
    ensures s[a + |lines[j]|..] == AfterFirstLine(lines[j + 1..])
  {
    var l := lines[0];
    var x := Lead(l);
    var P := JoinLines(lines[..j + 1]);
    var e := a + |lines[j]|;
    JoinAround(lines, j);
    JoinFirst(lines, j);
    SplitAt(s, o, P, AfterFirstLine(lines[j + 1..]));
    assert o + |P| == e;
    DropLead(P, l, JoinLines(lines[1..j + 1]), x);
    assert s[o + x..e] == s[o..e][x..];
  }

  /** What follows a line: nothing, or a LF and further lines. */
  lemma {:induction false} AfterLine(s: string, b: nat, rest: seq<string>)
    requires b <= |s| && s[b..] == AfterFirstLine(rest) && AllConfigLines(rest)
    ensures TextsFrom(s, b) == Collect(rest)
    decreases |rest|, 1
  {
    if rest == [] {
      assert |s[b..]| == 0;
      NothingAtEnd(s);
    } else {
      assert s[b] == s[b..][0];
      NewlineNoMatch(s, b);
      FindMatchSkips(s, b, b + 1);
      assert s[b + 1..] == s[b..][1..];
      BlocksOfLines(s, b + 1, rest);
    }
  }

  /** A line without keywords: the search skips it. */
  lemma {:induction false} PlainLineStep(s: string, o: nat, l: string, t: string)
    requires o <= |s| && s[o..] == l + t && '\n' !in l && (t == "" || t[0] == '\n')
    requires Lead(l) == |l|
    ensures o + |l| <= |s| && s[o + |l|..] == t
    ensures TextsFrom(s, o) == TextsFrom(s, o + |l|)
  {
    LineStart(s, o, l, t);
  }

  /** Once the next match and the text of its block are known, the texts
      from o are that text and the texts after the block. */
  lemma {:induction false} TextsStepTo(s: string, o: nat, c: nat, r: nat, e: nat, text: string)
    requires FindMatch(s, o) == Some(Match(c, r)) && r + 12 <= e <= |s|
    requires LineEnd(s, r + 12) == e && c <= e && s[c..e] == text
    ensures TextsFrom(s, o) == [text] + TextsFrom(s, e)
  {
    TextsFromStep(s, o, Match(c, r));
  }

  /** The search from a rule line at o finds its RewriteRule keyword, and
      the block runs to the end of the line. */
  lemma {:induction false} RuleLineFind(s: string, o: nat, l: string, t: string)
    requires o <= |s| && s[o..] == l + t && '\n' !in l && (t == "" || t[0] == '\n')
    requires IsRuleLine(l)
    ensures FindMatch(s, o) == Some(Match(o + Lead(l), o + Lead(l)))
    ensures o + Lead(l) + 12 <= o + |l| <= |s| && LineEnd(s, o + Lead(l) + 12) == o + |l|
  {
    var x := Lead(l);
    LineStart(s, o, l, t);
    LineEndOfLine(s, o, l, t, o + x + 12);
  }

  /** The text of a line from x on, and what follows it. */
  lemma {:induction false} LineText(s: string, o: nat, l: string, t: string, x: nat)
    requires o <= |s| && s[o..] == l + t && x <= |l|
    ensures o + |l| <= |s| && s[o + x..o + |l|] == l[x..] && s[o + |l|..] == t
  {
    SplitAt(s, o, l, t);
    assert s[o + x..o + |l|] == s[o..o + |l|][x..];
  }

  /** A rule line: its block is the line from its keyword on. */
  lemma {:induction false} RuleLineStep(s: string, o: nat, l: string, t: string) returns (b: nat)
    requires o <= |s| && s[o..] == l + t && '\n' !in l && (t == "" || t[0] == '\n')
    requires IsRuleLine(l)
    ensures b == o + |l| && b <= |s| && s[b..] == t
    ensures TextsFrom(s, o) == [l[Lead(l)..]] + TextsFrom(s, b)
  {
    b := o + |l|;
    RuleLineFind(s, o, l, t);
    LineText(s, o, l, t, Lead(l));
    TextsStepTo(s, o, o + Lead(l), o + Lead(l), b, l[Lead(l)..]);
  }

  /** What a condition line at o and the first rule line j after it give
      the steps below: j is a later line, and nothing before it can end a
      match. */
  lemma {:induction false} GroupPremises(s: string, o: nat, lines: seq<string>, j: nat)
    requires o <= |s| && s[o..] == JoinLines(lines) && AllConfigLines(lines)
    requires 0 < |lines| && Lead(lines[0]) < |lines[0]| && !RuleAt(lines[0], Lead(lines[0]))
    requires FirstRuleLine(lines) == Some(j)
    ensures 0 < j < |lines| && IsConfigLine(lines[0]) && IsConfigLine(lines[j]) && IsRuleLine(lines[j])
    ensures forall y :: o <= y < o + |JoinLines(lines[..j])| + 1 ==> !RuleAt(s, y)
    ensures AllConfigLines(lines[j + 1..])
  {
    assert IsConfigLine(lines[0]) && IsConfigLine(lines[j]);
    NoRuleBeforeRuleLine(s, o, lines, j);
    ConfigSuffix(lines, j + 1);
  }

  /** The block of a group ends where its rule line, starting at a, ends. */
  lemma {:induction false} ClosingLineEnd(s: string, o: nat, lines: seq<string>, j: nat, a: nat, r: nat)
    requires o <= |s| && s[o..] == JoinLines(lines) && 0 < j < |lines|
    requires a == o + |JoinLines(lines[..j])| + 1 && r == a + Lead(lines[j])
    requires IsConfigLine(lines[j]) && IsRuleLine(lines[j])
    ensures r + 12 <= a + |lines[j]| <= |s| && LineEnd(s, r + 12) == a + |lines[j]|
  {
    RuleLineOfGroup(s, o, lines, j, a);
    LineEndOfLine(s, a, lines[j], AfterFirstLine(lines[j + 1..]), r + 12);
  }

  /** A condition line with a rule line after it, starting at a: one block
      for the group. */
  lemma {:induction false} CondGroupStep(s: string, o: nat, lines: seq<string>, j: nat, a: nat) returns (b: nat)
    requires o <= |s| && s[o..] == JoinLines(lines) && 0 < j < |lines|
    requires a == o + |JoinLines(lines[..j])| + 1
    requires IsConfigLine(lines[0]) && Lead(lines[0]) < |lines[0]| && !RuleAt(lines[0], Lead(lines[0]))
    requires IsConfigLine(lines[j]) && IsRuleLine(lines[j])
    requires forall y :: o <= y < a ==> !RuleAt(s, y)
    ensures b == a + |lines[j]| && b <= |s| && s[b..] == AfterFirstLine(lines[j + 1..])
    ensures TextsFrom(s, o) == [lines[0][Lead(lines[0])..] + "\n" + JoinLines(lines[1..j + 1])] + TextsFrom(s, b)
  {
    var c := o + Lead(lines[0]);
    var r := a + Lead(lines[j]);
    b := a + |lines[j]|;
    var text := lines[0][Lead(lines[0])..] + "\n" + JoinLines(lines[1..j + 1]);
    CondGroupFind(s, o, lines, j, a);
    CondGroupText(s, o, lines, j, a);
    ClosingLineEnd(s, o, lines, j, a, r);
    TextsStepTo(s, o, c, r, b, text);
  }

  /** A condition line with no rule line after it: nothing more is found. */
  lemma {:induction false} CondTailStep(s: string, o: nat, lines: seq<string>)
    requires o <= |s| && s[o..] == JoinLines(lines) && AllConfigLines(lines)
    requires FirstRuleLine(lines) == None
    ensures TextsFrom(s, o) == []
  {
    NoRuleOnLines(s, o, lines, "");
    BlocksEmptyIff(s, o);
  }

  /** How Collect reads a line without keywords. */
  lemma {:induction false} CollectPlain(lines: seq<string>)
    requires lines != [] && Lead(lines[0]) == |lines[0]|
    ensures Collect(lines) == Collect(lines[1..])
  {
  }

  /** A condition line with no rule line after it yields nothing. */
  lemma {:induction false} CollectTail(lines: seq<string>)
    requires lines != [] && Lead(lines[0]) < |lines[0]| && !RuleAt(lines[0], Lead(lines[0]))
    requires FirstRuleLine(lines) == None
    ensures Collect(lines) == []
  {
  }

  /** How Collect reads a rule line. */
  lemma {:induction false} CollectRule(lines: seq<string>)
    requires lines != [] && IsRuleLine(lines[0])
    ensures Collect(lines) == [lines[0][Lead(lines[0])..]] + Collect(lines[1..])
  {
  }

  /** How Collect reads a condition line followed, at j, by a rule line. */
  lemma {:induction false} CollectGroup(lines: seq<string>, j: nat)
    requires lines != [] && Lead(lines[0]) < |lines[0]| && !RuleAt(lines[0], Lead(lines[0]))
    requires FirstRuleLine(lines) == Some(j)
    ensures Collect(lines) == [lines[0][Lead(lines[0])..] + "\n" + JoinLines(lines[1..j + 1])] + Collect(lines[j + 1..])
  {
  }

  /** A line without keywords adds nothing: the texts from o are those
      from the next line on. */
  lemma {:induction false} PlainCase(s: string, o: nat, lines: seq<string>) returns (b: nat)
    requires o <= |s| && s[o..] == JoinLines(lines) && AllConfigLines(lines) && lines != []
    requires Lead(lines[0]) == |lines[0]|
    ensures b == o + |lines[0]| && b <= |s| && s[b..] == AfterFirstLine(lines[1..]) && AllConfigLines(lines[1..])
    ensures TextsFrom(s, o) == TextsFrom(s, b) && Collect(lines) == Collect(lines[1..])
  {
    assert IsConfigLine(lines[0]);
    ConfigSuffix(lines, 1);
    JoinLinesFirst(lines);
    var l := lines[0];
    b := o + |l|;
    PlainLineStep(s, o, l, AfterFirstLine(lines[1..]));
    CollectPlain(lines);
  }

  /** A rule line adds its own block, on both sides. */
  lemma {:induction false} RuleCase(s: string, o: nat, lines: seq<string>) returns (b: nat)
    requires o <= |s| && s[o..] == JoinLines(lines) && AllConfigLines(lines) && lines != []
    requires IsRuleLine(lines[0])
    ensures b == o + |lines[0]| && b <= |s| && s[b..] == AfterFirstLine(lines[1..]) && AllConfigLines(lines[1..])
    ensures TextsFrom(s, o) == [lines[0][Lead(lines[0])..]] + TextsFrom(s, b)
    ensures Collect(lines) == [lines[0][Lead(lines[0])..]] + Collect(lines[1..])
  {
    assert IsConfigLine(lines[0]);
    ConfigSuffix(lines, 1);
    JoinLinesFirst(lines);
    var l := lines[0];
    var t := AfterFirstLine(lines[1..]);
    b := RuleLineStep(s, o, l, t);
    CollectRule(lines);
  }

  /** A condition line and the lines up to the next rule line add one
      block, on both sides. */
  lemma {:induction false} GroupCase(s: string, o: nat, lines: seq<string>, j: nat) returns (b: nat)
    requires o <= |s| && s[o..] == JoinLines(lines) && AllConfigLines(lines) && lines != []
    requires Lead(lines[0]) < |lines[0]| && !RuleAt(lines[0], Lead(lines[0]))
    requires FirstRuleLine(lines) == Some(j)
    ensures 0 < j < |lines|
    ensures b == o + |JoinLines(lines[..j])| + 1 + |lines[j]|
    ensures b <= |s| && s[b..] == AfterFirstLine(lines[j + 1..]) && AllConfigLines(lines[j + 1..])
    ensures TextsFrom(s, o) == [lines[0][Lead(lines[0])..] + "\n" + JoinLines(lines[1..j + 1])] + TextsFrom(s, b)
    ensures Collect(lines) == [lines[0][Lead(lines[0])..] + "\n" + JoinLines(lines[1..j + 1])] + Collect(lines[j + 1..])
  {
    GroupPremises(s, o, lines, j);
    var a := o + |JoinLines(lines[..j])| + 1;
    b := CondGroupStep(s, o, lines, j, a);
    CollectGroup(lines, j);
  }

  /** One step of the scan over the lines: either the rest of the content
      yields nothing, or the texts from o are settled once those from b,
      the start of what follows, are. */
  lemma {:induction false} LineStep(s: string, o: nat, lines: seq<string>) returns (done: bool, b: nat, rest: seq<string>)
    requires o <= |s| && s[o..] == JoinLines(lines) && AllConfigLines(lines) && lines != []
    ensures done ==> TextsFrom(s, o) == Collect(lines)
    ensures !done ==> |rest| < |lines| && b <= |s| && s[b..] == AfterFirstLine(rest) && AllConfigLines(rest)
    ensures !done && TextsFrom(s, b) == Collect(rest) ==> TextsFrom(s, o) == Collect(lines)
  {
    var l := lines[0];
    var x := Lead(l);
    if x == |l| {
      b := PlainCase(s, o, lines);
      done, rest := false, lines[1..];
    } else if RuleAt(l, x) {
      b := RuleCase(s, o, lines);
      done, rest := false, lines[1..];
    } else {
      match FirstRuleLine(lines)
      case None =>
        CondTailStep(s, o, lines);
        CollectTail(lines);
        done, b, rest := true, o, lines;
      case Some(j) =>
        b := GroupCase(s, o, lines, j);
        done, rest := false, lines[j + 1..];
    }
  }

  /** The scanner returns, from the start of a line on, exactly the blocks
      Collect reads off the lines. */
  lemma {:induction false} BlocksOfLines(s: string, o: nat, lines: seq<string>)
    requires o <= |s| && s[o..] == JoinLines(lines) && AllConfigLines(lines)
    ensures TextsFrom(s, o) == Collect(lines)
    decreases |lines|, 0
  {
    if lines == [] {
      assert |s[o..]| == 0;
      NothingAtEnd(s);
    } else {
      var done, b, rest := LineStep(s, o, lines);
      if !done {
        AfterLine(s, b, rest);
      }
    }
  }

  /** extractRewriteRules on a configuration made of lines. */
  lemma {:induction false} ExtractLines(lines: seq<string>)
    requires AllConfigLines(lines)
    ensures ExtractRewriteRules(JoinLines(lines)) == Collect(lines)
    ensures |ExtractRewriteRules(JoinLines(lines))| == RuleLineCount(lines)
  {
    BlocksOfLines(JoinLines(lines), 0, lines);
    CollectCountsRuleLines(lines);
  }
}
