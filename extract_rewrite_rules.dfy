/** ApacheRedirectParser::extractRewriteRules: a single `preg_match_all` of
        /((?:RewriteCond(?:.|\s)+?)*RewriteRule.+)$/im
    over the whole configuration, returning the whole matches in order.
    The regular expression is not interpreted in general: MatchAt and
    FindMatch follow, step for step, the order in which PCRE's backtracking
    matcher tries this one pattern, so the block they settle on is the one
    PHP returns. */
module RuleExtraction {
  import opened Wrappers
  import opened Text

  const CondKeyword := "RewriteCond"
  const RuleKeyword := "RewriteRule"

  /** `RewriteCond`, in any letter case, starts at i. */
  predicate CondAt(s: string, i: nat)
  {
    KeywordAt(s, i, CondKeyword)
  }

  /** `RewriteRule.+` can match at i: the keyword, then at least one character
      that is not a newline. Greedy `.+` then runs to the end of the line, where
      `$` holds. */
  predicate RuleAt(s: string, i: nat)
  {
    KeywordAt(s, i, RuleKeyword) && i + 11 < |s| && s[i + 11] != '\n'
  }

  /** A RewriteRule written straight after a RewriteCond keyword
      ("RewriteCondRewriteRule …"): the lazy `+?` must take at least one
      character after `RewriteCond`, so an attempt that reads that RewriteCond
      as one more condition steps over such a rule. */
  predicate Glued(s: string, i: nat)
  {
    i >= 11 && CondAt(s, i - 11)
  }

  lemma {:induction false} CondIsNotRule(s: string, i: nat)
    requires CondAt(s, i)
    ensures !KeywordAt(s, i, RuleKeyword)
  {
    KeywordCharAt(s, i, CondKeyword, 7);
    if KeywordAt(s, i, RuleKeyword) {
      KeywordCharAt(s, i, RuleKeyword, 7);
    }
  }

  /** No RewriteRule keyword starts inside a RewriteCond keyword. */
  lemma {:induction false} NoRuleInsideCond(s: string, p: nat)
    requires CondAt(s, p)
    ensures forall x :: p <= x < p + 11 ==> !KeywordAt(s, x, RuleKeyword)
  {
    CondIsNotRule(s, p);
    forall x | p < x < p + 11
      ensures !KeywordAt(s, x, RuleKeyword)
    {
      if KeywordAt(s, x, RuleKeyword) {
        KeywordCharAt(s, p, CondKeyword, x - p);
        KeywordCharAt(s, x, RuleKeyword, 0);
        if x == p + 3 {
          KeywordCharAt(s, p, CondKeyword, 4);
          KeywordCharAt(s, x, RuleKeyword, 1);
        }
        assert false;
      }
    }
  }

  /** Where one match ends: the position of the pattern's final RewriteRule. */
  datatype Match = Match(start: nat, rule: nat)

  /** The pattern `(?:RewriteCond(?:.|\s)+?)*RewriteRule.+$` tried at p.
      The greedy `*` first tries one more iteration: a RewriteCond at p, one
      character for `(?:.|\s)` (any character), and then the lazy loop, which
      is FindMatch from p + 12. Only if that fails does it leave the loop and
      try `RewriteRule.+$` at p itself. The result is the position of the
      RewriteRule keyword that completes the match. */
  function MatchAt(s: string, p: nat): (r: Option<nat>)
    decreases |s| - p, 0
    ensures r.Some? ==> p <= r.value && RuleAt(s, r.value)
    ensures r.Some? ==> CondAt(s, p) || RuleAt(s, p)
    ensures RuleAt(s, p) ==> r == Some(p)
  {
    if CondAt(s, p) then
      CondIsNotRule(s, p);
      NoRuleInsideCond(s, p);
      if p + 12 <= |s| && FindMatch(s, p + 12).Some? then Some(FindMatch(s, p + 12).value.rule)
      else None
    else if RuleAt(s, p) then Some(p)
    else None
  }

  /** The leftmost position at or after q where the pattern matches. The same
      walk serves twice: preg_match_all moves its start one character on after
      a failed attempt, and the lazy `(?:.|\s)+?` after a RewriteCond takes one
      more character each time what follows it fails. */
  function FindMatch(s: string, q: nat): (m: Option<Match>)
    decreases |s| - q, 1
    ensures m.Some? ==> q <= m.value.start <= m.value.rule && RuleAt(s, m.value.rule)
    ensures m.None? ==> forall x :: q <= x ==> !RuleAt(s, x)
  {
    if q > |s| then None
    else
      match MatchAt(s, q)
      case Some(r) => Some(Match(q, r))
      case None => if q < |s| then FindMatch(s, q + 1) else None
  }

  /** The match FindMatch reports is what the attempt at its start finds. */
  lemma {:induction false} FindMatchFound(s: string, q: nat)
    requires FindMatch(s, q).Some?
    ensures MatchAt(s, FindMatch(s, q).value.start) == Some(FindMatch(s, q).value.rule)
    decreases |s| - q
  {
    if MatchAt(s, q).None? {
      assert q < |s| && FindMatch(s, q) == FindMatch(s, q + 1);
      FindMatchFound(s, q + 1);
    }
  }

  /** The match FindMatch settles on is the leftmost one: every attempt
      before it fails. */
  lemma {:induction false} FindMatchLeftmost(s: string, q: nat)
    requires FindMatch(s, q).Some?
    ensures forall k :: q <= k < FindMatch(s, q).value.start ==> MatchAt(s, k).None?
    decreases |s| - q
  {
    var m := FindMatch(s, q).value;
    if MatchAt(s, q).Some? {
      assert m.start == q;
    } else {
      assert q < |s| && FindMatch(s, q) == FindMatch(s, q + 1);
      FindMatchLeftmost(s, q + 1);
      forall k | q < k < m.start
        ensures MatchAt(s, k).None?
      {
        assert q + 1 <= k < FindMatch(s, q + 1).value.start;
      }
    }
  }

  /** One whole match as preg_match_all reports it: from its start to the end
      of the line of its RewriteRule. `rule` records where that keyword is. */
  datatype Block = Block(start: nat, rule: nat, end: nat)

  /** b is a match of the pattern in s, with everything the pattern promises. */
  ghost predicate IsMatchBlock(s: string, b: Block)
  {
    && b.start <= b.rule && b.rule + 12 <= b.end <= |s|
    && MatchAt(s, b.start) == Some(b.rule)
    && (CondAt(s, b.start) || RuleAt(s, b.start))
    && RuleAt(s, b.rule)
    && (forall k :: b.rule <= k < b.end ==> s[k] != '\n')
    && (b.end == |s| || s[b.end] == '\n')
  }

  /** The matches preg_match_all collects from offset o on: after each match
      the search resumes where that match ended. */
  function Blocks(s: string, o: nat): (bs: seq<Block>)
    ensures forall i :: 0 <= i < |bs| ==> o <= bs[i].start <= bs[i].rule && RuleAt(s, bs[i].rule)
    ensures bs == [] ==> forall x :: o <= x ==> !RuleAt(s, x)
  {
    BlocksFrom(s, FindMatch(s, o))
  }

  /** The blocks from a found match (or none) on. */
  function BlocksFrom(s: string, m: Option<Match>): (bs: seq<Block>)
    requires m.Some? ==> m.value.start <= m.value.rule && RuleAt(s, m.value.rule)
    decreases if m.Some? then |s| - m.value.rule else 0
    ensures bs == [] <==> m.None?
    ensures m.Some? ==> bs[0].start == m.value.start && bs[0].rule == m.value.rule
    ensures forall i :: 0 <= i < |bs| ==> bs[i].start <= bs[i].rule && RuleAt(s, bs[i].rule)
    ensures m.Some? ==> forall i :: 0 <= i < |bs| ==> m.value.start <= bs[i].start
  {
    match m
    case None => []
    case Some(m) =>
      var e := LineEnd(s, m.rule + 12);
      [Block(m.start, m.rule, e)] + BlocksFrom(s, FindMatch(s, e))
  }

  /** Each block is a match of the pattern, at or after the offset. */
  lemma {:induction false} BlocksAreMatches(s: string, o: nat)
    ensures forall i :: 0 <= i < |Blocks(s, o)| ==> IsMatchBlock(s, Blocks(s, o)[i]) && o <= Blocks(s, o)[i].start
    decreases |s| - o
  {
    if FindMatch(s, o).Some? {
      var bs := Blocks(s, o);
      var m := FindMatch(s, o).value;
      var e := LineEnd(s, m.rule + 12);
      var rest := Blocks(s, e);
      assert bs == [Block(m.start, m.rule, e)] + rest;
      FindMatchFound(s, o);
      FoundBlock(s, m);
      BlocksAreMatches(s, e);
      forall i | 0 <= i < |bs|
        ensures IsMatchBlock(s, bs[i]) && o <= bs[i].start
      {
        if i > 0 {
          assert bs[i] == rest[i - 1];
        }
      }
    }
  }

  /** Where each block lies: after the offset, its rule inside it. */
  lemma {:induction false} BlocksWithin(s: string, o: nat)
    ensures forall i :: 0 <= i < |Blocks(s, o)| ==>
              o <= Blocks(s, o)[i].start <= Blocks(s, o)[i].rule && Blocks(s, o)[i].rule + 12 <= Blocks(s, o)[i].end <= |s|
    decreases |s| - o
  {
    if FindMatch(s, o).Some? {
      var bs := Blocks(s, o);
      var m := FindMatch(s, o).value;
      var e := LineEnd(s, m.rule + 12);
      var rest := Blocks(s, e);
      assert bs == [Block(m.start, m.rule, e)] + rest;
      BlocksWithin(s, e);
      forall i | 0 <= i < |bs|
        ensures o <= bs[i].start <= bs[i].rule && bs[i].rule + 12 <= bs[i].end <= |s|
      {
        if i > 0 {
          assert bs[i] == rest[i - 1];
        }
      }
    }
  }

  /** Blocks come in input order and do not overlap. */
  lemma {:induction false} BlocksInOrder(s: string, o: nat)
    ensures forall i, j :: 0 <= i < j < |Blocks(s, o)| ==> Blocks(s, o)[i].end <= Blocks(s, o)[j].start
    decreases |s| - o
  {
    if FindMatch(s, o).Some? {
      var bs := Blocks(s, o);
      var m := FindMatch(s, o).value;
      var e := LineEnd(s, m.rule + 12);
      var rest := Blocks(s, e);
      assert bs == [Block(m.start, m.rule, e)] + rest;
      BlocksWithin(s, e);
      BlocksInOrder(s, e);
      forall i, j | 0 <= i < j < |bs|
        ensures bs[i].end <= bs[j].start
      {
        assert bs[j] == rest[j - 1];
        if i > 0 {
          assert bs[i] == rest[i - 1];
        }
      }
    }
  }

  /** There are no blocks exactly when no RewriteRule line lies ahead. */
  lemma {:induction false} BlocksEmptyIff(s: string, o: nat)
    ensures |Blocks(s, o)| == 0 <==> forall x :: o <= x ==> !RuleAt(s, x)
  {
    if FindMatch(s, o).Some? {
      assert RuleAt(s, FindMatch(s, o).value.rule);
    }
  }

  /** A match found by FindMatch, cut at the end of its rule's line, is a block. */
  lemma {:induction false} FoundBlock(s: string, m: Match)
    requires m.start <= m.rule && RuleAt(s, m.rule) && MatchAt(s, m.start) == Some(m.rule)
    ensures IsMatchBlock(s, Block(m.start, m.rule, LineEnd(s, m.rule + 12)))
  {
    forall k | m.rule <= k < m.rule + 11 {
      KeywordWithinLine(s, m.rule, RuleKeyword, k);
    }
    LineEndFirst(s, m.rule + 12);
  }

  /** Every RewriteRule a single attempt runs past is glued to a RewriteCond
      keyword; any other rule would have ended the match first. */
  lemma {:induction false} MatchAtSkipsOnlyGlued(s: string, p: nat)
    requires MatchAt(s, p).Some?
    ensures forall x :: p <= x < MatchAt(s, p).value && RuleAt(s, x) ==> Glued(s, x)
    decreases |s| - p, 0
  {
    var r := MatchAt(s, p).value;
    if CondAt(s, p) {
      NoRuleInsideCond(s, p);
      assert p + 12 <= |s| && FindMatch(s, p + 12).Some?;
      assert r == FindMatch(s, p + 12).value.rule;
      FindMatchSkipsOnlyGlued(s, p + 12);
      forall x | p <= x < r && RuleAt(s, x)
        ensures Glued(s, x)
      {
        if x < p + 11 {
          assert false;
        } else if x == p + 11 {
          assert CondAt(s, x - 11);
        }
      }
    } else {
      assert r == p;
    }
  }

  /** The same for the leftmost match at or after q, counted from q. */
  lemma {:induction false} FindMatchSkipsOnlyGlued(s: string, q: nat)
    requires FindMatch(s, q).Some?
    ensures forall x :: q <= x < FindMatch(s, q).value.rule && RuleAt(s, x) ==> Glued(s, x)
    decreases |s| - q, 1
  {
    if MatchAt(s, q).Some? {
      assert FindMatch(s, q).value.rule == MatchAt(s, q).value;
      MatchAtSkipsOnlyGlued(s, q);
    } else {
      assert q < |s| && FindMatch(s, q) == FindMatch(s, q + 1);
      var r := FindMatch(s, q + 1).value.rule;
      FindMatchSkipsOnlyGlued(s, q + 1);
      assert !RuleAt(s, q);
      forall x | q <= x < r && RuleAt(s, x)
        ensures Glued(s, x)
      {
        assert x != q;
      }
    }
  }

  /** An attempt that starts at a RewriteCond succeeds exactly when some
      RewriteRule line follows at least one character after the keyword: a
      trailing RewriteCond produces nothing. */
  lemma {:induction false} CondMatchesIffRuleAhead(s: string, p: nat)
    requires CondAt(s, p)
    ensures MatchAt(s, p).Some? <==> exists x :: p + 12 <= x && RuleAt(s, x)
  {
    if p + 12 <= |s| && FindMatch(s, p + 12).Some? {
      assert RuleAt(s, FindMatch(s, p + 12).value.rule);
    }
  }

  /** Where the search for block i of Blocks(s, o) starts. */
  function GapStart(o: nat, bs: seq<Block>, i: nat): nat
    requires i <= |bs|
  {
    if i == 0 then o else bs[i - 1].end
  }

  /** Without a RewriteRule ahead, no attempt succeeds. */
  lemma {:induction false} NoRuleNoMatch(s: string, o: nat)
    requires forall x :: o <= x ==> !RuleAt(s, x)
    ensures forall k :: o <= k ==> MatchAt(s, k).None?
  {
  }

  /** Blocks are leftmost: nothing matches between the end of one block (or
      the offset) and the start of the next. */
  lemma {:induction false} BlocksLeftmost(s: string, o: nat)
    ensures forall i, k :: 0 <= i < |Blocks(s, o)| && GapStart(o, Blocks(s, o), i) <= k < Blocks(s, o)[i].start
              ==> MatchAt(s, k).None?
    decreases |s| - o
  {
    var bs := Blocks(s, o);
    if FindMatch(s, o).Some? {
      var m := FindMatch(s, o).value;
      var e := LineEnd(s, m.rule + 12);
      var rest := Blocks(s, e);
      assert bs == [Block(m.start, m.rule, e)] + rest;
      BlocksLeftmost(s, e);
      forall i, k | 0 <= i < |bs| && GapStart(o, bs, i) <= k < bs[i].start
        ensures MatchAt(s, k).None?
      {
        if i == 0 {
          FindMatchLeftmost(s, o);
          assert o <= k < m.start;
        } else {
          assert bs[i] == rest[i - 1];
          if i == 1 {
            assert GapStart(o, bs, i) == bs[0].end == e;
          } else {
            assert GapStart(o, bs, i) == bs[i - 1].end == rest[i - 2].end;
          }
        }
      }
    }
  }

  /** Nothing matches after the last block. */
  lemma {:induction false} BlocksExhaustive(s: string, o: nat)
    ensures forall k :: GapStart(o, Blocks(s, o), |Blocks(s, o)|) <= k ==> MatchAt(s, k).None?
    decreases |s| - o
  {
    var bs := Blocks(s, o);
    if FindMatch(s, o).None? {
      NoRuleNoMatch(s, o);
    } else {
      var m := FindMatch(s, o).value;
      var e := LineEnd(s, m.rule + 12);
      var rest := Blocks(s, e);
      assert bs == [Block(m.start, m.rule, e)] + rest;
      BlocksExhaustive(s, e);
      if rest == [] {
        assert GapStart(o, bs, |bs|) == bs[0].end == e;
      } else {
        assert GapStart(o, bs, |bs|) == bs[|bs| - 1].end == rest[|rest| - 1].end;
      }
    }
  }

  /** Every RewriteRule line of the content lies inside some block. */
  lemma {:induction false} BlocksCoverEveryRule(s: string, o: nat, x: nat)
    requires o <= x && RuleAt(s, x)
    ensures exists i :: 0 <= i < |Blocks(s, o)| && Blocks(s, o)[i].start <= x < Blocks(s, o)[i].end
    decreases |s| - o
  {
    var bs := Blocks(s, o);
    var m := FindMatch(s, o).value;
    var e := LineEnd(s, m.rule + 12);
    var rest := Blocks(s, e);
    assert bs == [Block(m.start, m.rule, e)] + rest;
    assert MatchAt(s, x) == Some(x);
    FindMatchLeftmost(s, o);
    assert m.start <= x;
    if x >= e {
      BlocksCoverEveryRule(s, e, x);
      var j :| 0 <= j < |rest| && rest[j].start <= x < rest[j].end;
      assert bs[j + 1] == rest[j];
    } else {
      assert bs[0].start <= x < bs[0].end;
    }
  }

  /** Inside a block, every RewriteRule before the one that ends it is glued
      to a RewriteCond keyword. */
  lemma {:induction false} BlocksRunPastOnlyGluedRules(s: string, o: nat)
    ensures forall i, x :: 0 <= i < |Blocks(s, o)| && Blocks(s, o)[i].start <= x < Blocks(s, o)[i].rule && RuleAt(s, x)
              ==> Glued(s, x)
  {
    var bs := Blocks(s, o);
    BlocksAreMatches(s, o);
    forall i | 0 <= i < |bs| {
      MatchAtSkipsOnlyGlued(s, bs[i].start);
    }
  }

  /** Positions where no attempt succeeds can be stepped over. */
  lemma {:induction false} FindMatchSkips(s: string, q: nat, q2: nat)
    requires q <= q2 <= |s|
    requires forall k :: q <= k < q2 ==> MatchAt(s, k).None?
    ensures FindMatch(s, q) == FindMatch(s, q2)
    decreases q2 - q
  {
    if q < q2 {
      assert MatchAt(s, q).None?;
      FindMatchSkips(s, q + 1, q2);
    }
  }

  /** A RewriteCond at c is completed by the RewriteRule at r when no other
      RewriteRule comes in between and r is not glued to a RewriteCond. */
  lemma {:induction false} CondGroupMatch(s: string, c: nat, r: nat)
    requires CondAt(s, c) && c + 12 <= r && RuleAt(s, r) && !Glued(s, r)
    requires forall x :: c <= x < r ==> !RuleAt(s, x)
    ensures MatchAt(s, c) == Some(r)
  {
    assert FindMatch(s, c + 12).Some?;
    var m := FindMatch(s, c + 12).value;
    FindMatchSkipsOnlyGlued(s, c + 12);
    assert m.rule == r;
  }

  /** Whether a keyword starts inside a line can be read off the line alone. */
  lemma {:induction false} KeywordOnLine(s: string, o: nat, line: string, y: nat, kw: string)
    requires o + |line| <= |s| && s[o..o + |line|] == line
    requires o + |line| == |s| || s[o + |line|] == '\n'
    requires y <= |line| && '\n' !in kw
    ensures KeywordAt(s, o + y, kw) <==> KeywordAt(line, y, kw)
  {
    var b := o + |line|;
    if KeywordAt(s, o + y, kw) && b < o + y + |kw| {
      KeywordWithinLine(s, o + y, kw, b);
    }
    if o + y + |kw| <= b {
      KeywordInSlice(s, o, b, o + y, kw);
    }
  }

  /** The same for the two starts an attempt can have. */
  lemma {:induction false} KeywordsOnLine(s: string, o: nat, line: string, y: nat)
    requires o + |line| <= |s| && s[o..o + |line|] == line
    requires o + |line| == |s| || s[o + |line|] == '\n'
    requires y <= |line|
    ensures CondAt(s, o + y) <==> CondAt(line, y)
    ensures RuleAt(s, o + y) <==> RuleAt(line, y)
  {
    KeywordOnLine(s, o, line, y, CondKeyword);
    KeywordOnLine(s, o, line, y, RuleKeyword);
    if o + y + 11 < o + |line| {
      assert line[y + 11] == s[o + y + 11];
    }
  }

  /** The text of each block. */
  function BlockTexts(s: string, bs: seq<Block>): (ts: seq<string>)
    requires forall i :: 0 <= i < |bs| ==> bs[i].start <= bs[i].end <= |s|
    ensures |ts| == |bs|
    ensures forall i :: 0 <= i < |bs| ==> ts[i] == s[bs[i].start..bs[i].end]
  {
    if bs == [] then [] else [s[bs[0].start..bs[0].end]] + BlockTexts(s, bs[1..])
  }

  /** The texts of the matches preg_match_all collects from offset o on. */
  function TextsFrom(s: string, o: nat): seq<string>
  {
    BlocksWithin(s, o);
    BlockTexts(s, Blocks(s, o))
  }

  /** A LF ends every attempt that starts on it. */
  lemma {:induction false} NewlineNoMatch(s: string, b: nat)
    requires b < |s| && s[b] == '\n'
    ensures MatchAt(s, b).None?
  {
    if KeywordAt(s, b, CondKeyword) {
      KeywordWithinLine(s, b, CondKeyword, b);
    }
    if KeywordAt(s, b, RuleKeyword) {
      KeywordWithinLine(s, b, RuleKeyword, b);
    }
  }

  /** Nothing is found from the end of the subject. */
  lemma {:induction false} NothingAtEnd(s: string)
    ensures TextsFrom(s, |s|) == []
  {
    assert MatchAt(s, |s|).None?;
  }

  /** Once the next match is known, the first text is that match's line. */
  lemma {:induction false} TextsFromStep(s: string, o: nat, m: Match)
    requires FindMatch(s, o) == Some(m)
    ensures m.rule + 12 <= |s| && m.start <= m.rule
    ensures TextsFrom(s, o) == [s[m.start..LineEnd(s, m.rule + 12)]] + TextsFrom(s, LineEnd(s, m.rule + 12))
  {
    var e := LineEnd(s, m.rule + 12);
    var bs := Blocks(s, o);
    BlocksWithin(s, o);
    BlocksWithin(s, e);
    assert bs == [Block(m.start, m.rule, e)] + Blocks(s, e);
    assert bs[1..] == Blocks(s, e);
  }

  /** ApacheRedirectParser::extractRewriteRules: the whole matches of one
      preg_match_all over the content, the text of each block in order. */
  function ExtractRewriteRules(content: string): (blocks: seq<string>)
    ensures forall i :: 0 <= i < |Blocks(content, 0)| ==>
      Blocks(content, 0)[i].start <= Blocks(content, 0)[i].end <= |content|
    ensures blocks == BlockTexts(content, Blocks(content, 0))
  {
    BlocksWithin(content, 0);
    TextsFrom(content, 0)
  }
}
