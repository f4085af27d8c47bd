/** parseRewrite: one block of configuration text read into the path, the
    target and the status code of its redirect, through the pattern
    `/RewriteRule (\S+) (\S+)(?:\s\[(.+?)\])?/i` and the `R` flag. */
module RewriteParsing {
  import opened Wrappers
  import opened Text
  import opened PhpBuiltins
  import opened RuleExtraction

  /** The array parseRewrite returns: path and target stay null (None)
      when the pattern does not match. */
  datatype Rewrite = Rewrite(path: Option<string>, target: Option<string>, statusCode: int)

  /** Apache's status code for a redirect that names none. */
  const DefaultStatus: int := 302

  /** The literal start of the pattern, matched in any letter case. */
  const RulePrefix: string := "RewriteRule "

  /** The groups of one match: `(\S+)`, `(\S+)` and, when the bracketed
      part matched, `(.+?)`. */
  datatype RuleParts = RuleParts(path: string, target: string, flags: Option<string>)

  /** Where a run of non-whitespace starting at i ends: greedy `\S+` stops
      only at whitespace or at the end of the subject. */
  function TokenEnd(s: string, i: nat): (e: nat)
    requires i <= |s|
    ensures i <= e <= |s|
    ensures forall k :: i <= k < e ==> !IsSpace(s[k])
    ensures e == |s| || IsSpace(s[e])
    decreases |s| - i
  {
    if i == |s| || IsSpace(s[i]) then i else TokenEnd(s, i + 1)
  }

  /** TokenEnd finds the whitespace (or the end) that closes a run. */
  lemma {:induction false} TokenEndAt(s: string, i: nat, e: nat)
    requires i <= e <= |s| && (e == |s| || IsSpace(s[e]))
    requires forall k :: i <= k < e ==> !IsSpace(s[k])
    ensures TokenEnd(s, i) == e
    decreases e - i
  {
    if i < e {
      TokenEndAt(s, i + 1, e);
    }
  }

  /** The first `]` at or after k on the same line: the place where the
      lazy `.+?` stops. None when an LF or the end of the subject comes
      first. */
  function CloseFrom(s: string, k: nat): (r: Option<nat>)
    requires k <= |s|
    ensures r.Some? ==> k <= r.value < |s| && s[r.value] == ']'
    ensures r.Some? ==> forall j :: k <= j < r.value ==> s[j] != ']' && s[j] != '\n'
    ensures r.None? ==> forall j :: k <= j < LineEnd(s, k) ==> s[j] != ']'
    decreases |s| - k
  {
    if k == |s| || s[k] == '\n' then None
    else if s[k] == ']' then Some(k)
    else CloseFrom(s, k + 1)
  }

  /** CloseFrom finds the first `]` that no LF precedes. */
  lemma {:induction false} CloseFromAt(s: string, k: nat, c: nat)
    requires k <= c < |s| && s[c] == ']'
    requires forall j :: k <= j < c ==> s[j] != ']' && s[j] != '\n'
    ensures CloseFrom(s, k) == Some(c)
    decreases c - k
  {
    if k < c {
      CloseFromAt(s, k + 1, c);
    }
  }

  /** The optional part `(?:\s\[(.+?)\])` tried where the target ends:
      whitespace, `[`, at least one character other than LF, up to the
      first `]` on the line. When it fails the `?` lets the match go on
      without it, so a failed flag list never shortens the target. */
  function FlagsAt(s: string, e: nat): (f: Option<string>)
    requires e <= |s|
    ensures f.Some? ==> e + 3 + |f.value| <= |s| && IsSpace(s[e]) && s[e + 1] == '['
    ensures f.Some? ==> s[e + 2..e + 2 + |f.value|] == f.value && s[e + 2 + |f.value|] == ']'
    ensures f.Some? ==> f.value != [] && '\n' !in f.value && ']' !in f.value[1..]
  {
    if e + 2 < |s| && IsSpace(s[e]) && s[e + 1] == '[' && s[e + 2] != '\n' then
      match CloseFrom(s, e + 3)
      case None => None
      case Some(k) =>
        var f := s[e + 2..k];
        assert forall j :: 0 <= j < |f| ==> f[j] == s[e + 2 + j];
        Some(f)
    else None
  }

  /** Any bracketed list after whitespace, non-empty, without LF, and
      without `]` after its first character is the one FlagsAt reads. */
  lemma {:induction false} FlagsAtShape(s: string, e: nat, f: string)
    requires e + 3 + |f| <= |s| && IsSpace(s[e]) && s[e + 1] == '['
    requires s[e + 2..e + 2 + |f|] == f && s[e + 2 + |f|] == ']'
    requires f != [] && '\n' !in f && ']' !in f[1..]
    ensures FlagsAt(s, e) == Some(f)
  {
    var c := e + 2 + |f|;
    forall j | e + 3 <= j < c
      ensures s[j] != ']' && s[j] != '\n'
    {
      assert s[j] == f[j - e - 2] && f[j - e - 2] == f[1..][j - e - 3];
    }
    assert s[e + 2] == f[0];
    CloseFromAt(s, e + 3, c);
  }

  /** The pattern tried at position p: the prefix in any letter case, the
      path (a maximal run of non-whitespace, which must be followed by a
      space since a shorter run never is), the target (a maximal run), and
      the flag list where the target ends. */
  function PartsAt(s: string, p: nat): (r: Option<RuleParts>)
    ensures r.Some? ==> KeywordAt(s, p, RulePrefix)
    ensures r.Some? ==> IsToken(r.value.path) && IsToken(r.value.target)
    ensures r.Some? ==>
      var a := p + 12 + |r.value.path|;
      var e := a + 1 + |r.value.target|;
      e <= |s| && s[p + 12..a] == r.value.path && s[a] == ' ' && s[a + 1..e] == r.value.target &&
      (e == |s| || IsSpace(s[e])) && r.value.flags == FlagsAt(s, e)
  {
    if !KeywordAt(s, p, RulePrefix) then None
    else
      var a := TokenEnd(s, p + 12);
      if a == p + 12 || a == |s| || s[a] != ' ' then None
      else
        var e := TokenEnd(s, a + 1);
        if e == a + 1 then None
        else
          var path, target := s[p + 12..a], s[a + 1..e];
          assert forall k :: 0 <= k < |path| ==> path[k] == s[p + 12 + k];
          assert forall k :: 0 <= k < |target| ==> target[k] == s[a + 1 + k];
          Some(RuleParts(path, target, FlagsAt(s, e)))
  }

  /** The converse: wherever the prefix is followed by a run, a space, and a
      run ending at whitespace or at the end, PartsAt reads those runs. */
  lemma {:induction false} PartsAtShape(s: string, p: nat, path: string, target: string, a: nat, e: nat)
    requires KeywordAt(s, p, RulePrefix) && IsToken(path) && IsToken(target)
    requires a == p + 12 + |path| && e == a + 1 + |target| && e <= |s|
    requires s[p + 12..a] == path && s[a] == ' ' && s[a + 1..e] == target
    requires e == |s| || IsSpace(s[e])
    ensures PartsAt(s, p) == Some(RuleParts(path, target, FlagsAt(s, e)))
  {
    forall k | p + 12 <= k < a
      ensures !IsSpace(s[k])
    {
      assert s[k] == path[k - p - 12];
    }
    forall k | a + 1 <= k < e
      ensures !IsSpace(s[k])
    {
      assert s[k] == target[k - a - 1];
    }
    TokenEndAt(s, p + 12, a);
    TokenEndAt(s, a + 1, e);
  }

  /** preg_match's leftmost match: the first position from p on where the
      pattern matches. */
  function FindRule(s: string, p: nat): (r: Option<nat>)
    requires p <= |s|
    ensures r.Some? ==> p <= r.value < |s| && PartsAt(s, r.value).Some?
    ensures r.Some? ==> forall q :: p <= q < r.value ==> PartsAt(s, q).None?
    ensures r.None? ==> forall q :: p <= q <= |s| ==> PartsAt(s, q).None?
    decreases |s| - p
  {
    if PartsAt(s, p).Some? then Some(p)
    else if p == |s| then None
    else FindRule(s, p + 1)
  }

  /** The status code the flag list gives: parse_str reads it as a query
      string, and a truthy `R` variable is read with intval. */
  function StatusCode(flags: Option<string>): (code: int)
    ensures flags.None? ==> code == DefaultStatus
    ensures flags.Some? && (forall i :: 0 <= i < |Tokens(flags.value)| ==> NameOf(Tokens(flags.value)[i]) != "R") ==>
      code == DefaultStatus
  {
    match flags
    case None => DefaultStatus
    case Some(f) =>
      var modifiers := ParseStr(f);
      if "R" in modifiers && IsTruthy(modifiers["R"]) then IntVal(modifiers["R"]) else DefaultStatus
  }

  /** parseRewrite: path, target and status of the leftmost match; nulls
      and 302 when there is none. */
  function ParseRewrite(rule: string): (r: Rewrite)
    ensures r.path.None? <==> r.target.None?
    ensures r.path.None? <==> forall q :: 0 <= q <= |rule| ==> PartsAt(rule, q).None?
    ensures r.path.None? ==> r.statusCode == DefaultStatus
    ensures r.path.Some? ==> IsToken(r.path.value) && IsToken(r.target.value)
  {
    match FindRule(rule, 0)
    case None => Rewrite(None, None, DefaultStatus)
    case Some(p) =>
      var parts := PartsAt(rule, p).value;
      Rewrite(Some(parts.path), Some(parts.target), StatusCode(parts.flags))
  }

  /** parseRewrite reads the leftmost match: wherever the pattern first
      matches, the groups found there are the path, the target and the flag
      list the status code comes from. */
  lemma {:induction false} ParseRewriteLeftmost(rule: string, p: nat)
    requires PartsAt(rule, p).Some?
    requires forall q :: 0 <= q < p ==> PartsAt(rule, q).None?
    ensures var parts := PartsAt(rule, p).value;
      ParseRewrite(rule) == Rewrite(Some(parts.path), Some(parts.target), StatusCode(parts.flags))
  {
    FindRuleAt(rule, p);
  }

  /** Where this pattern's prefix stands, extractRewriteRules sees a
      RewriteRule that can end a block. */
  lemma {:induction false} PrefixIsRule(s: string, q: nat)
    requires KeywordAt(s, q, RulePrefix)
    ensures RuleAt(s, q)
  {
    MatchesFromPrefix(s, q, RulePrefix, 11, 0);
    assert RulePrefix[..11] == RuleKeyword;
    KeywordCharAt(s, q, RulePrefix, 11);
  }

  /** A flag list written after a target. */
  function FlagsText(flags: Option<string>): string
  {
    if flags.Some? then " [" + (flags.value + "]") else ""
  }

  /** A rule written the way the pattern reads it. */
  function FormatRule(path: string, target: string, flags: Option<string>): string
  {
    RulePrefix + (path + (" " + (target + FlagsText(flags))))
  }

  /** Where the flag list of a written rule sits. */
  lemma {:induction false} FormattedFlags(s: string, e: nat, flags: Option<string>)
    requires flags.Some? ==> flags.value != [] && '\n' !in flags.value && ']' !in flags.value[1..]
    requires e <= |s| && s[e..] == FlagsText(flags)
    ensures e == |s| || IsSpace(s[e])
    ensures FlagsAt(s, e) == flags
  {
    if flags.Some? {
      var f := flags.value;
      SplitAt(s, e, " [", f + "]");
      assert s[e] == s[e..e + 2][0] && s[e + 1] == s[e..e + 2][1];
      SplitAt(s, e + 2, f, "]");
      assert s[e + 2 + |f|] == s[e + 2 + |f|..][0];
      FlagsAtShape(s, e, f);
    }
  }

  /** The prefix and the path of a written rule: the path ends at a. */
  lemma {:induction false} FormattedHead(s: string, p: nat, path: string, rest: string) returns (a: nat)
    requires p <= |s| && s[p..] == RulePrefix + (path + rest)
    ensures KeywordAt(s, p, RulePrefix)
    ensures a == p + 12 + |path| && a <= |s| && s[p + 12..a] == path && s[a..] == rest
  {
    var b := p + 12;
    assert KeywordAt(s, p, RulePrefix) && s[b..] == path + rest by {
      SplitAt(s, p, RulePrefix, path + rest);
      MatchesFromVerbatim(s, p, RulePrefix, 0);
    }
    a := b + |path|;
    SplitAt(s, b, path, rest);
  }

  /** The space, the target and the flag list of a written rule: the
      target ends at e. */
  lemma {:induction false} FormattedTail(s: string, a: nat, target: string, flags: Option<string>) returns (e: nat)
    requires flags.Some? ==> flags.value != [] && '\n' !in flags.value && ']' !in flags.value[1..]
    requires a <= |s| && s[a..] == " " + (target + FlagsText(flags))
    ensures e == a + 1 + |target| && e <= |s| && s[a] == ' ' && s[a + 1..e] == target
    ensures (e == |s| || IsSpace(s[e])) && FlagsAt(s, e) == flags
  {
    var tail := FlagsText(flags);
    var c := a + 1;
    assert s[a] == ' ' && s[c..] == target + tail by {
      SplitAt(s, a, " ", target + tail);
      assert s[a] == s[a..a + 1][0];
    }
    e := c + |target|;
    assert s[c..e] == target && s[e..] == tail by {
      SplitAt(s, c, target, tail);
    }
    FormattedFlags(s, e, flags);
  }

  /** Where the parts of a written rule sit: the path ends at a, the
      target at e. */
  lemma {:induction false} FormattedLayout(s: string, p: nat, path: string, target: string, flags: Option<string>)
    returns (a: nat, e: nat)
    requires flags.Some? ==> flags.value != [] && '\n' !in flags.value && ']' !in flags.value[1..]
    requires p <= |s| && s[p..] == FormatRule(path, target, flags)
    ensures KeywordAt(s, p, RulePrefix)
    ensures a == p + 12 + |path| && e == a + 1 + |target| && e <= |s|
    ensures s[p + 12..a] == path && s[a] == ' ' && s[a + 1..e] == target
    ensures (e == |s| || IsSpace(s[e])) && FlagsAt(s, e) == flags
  {
    a := FormattedHead(s, p, path, " " + (target + FlagsText(flags)));
    e := FormattedTail(s, a, target, flags);
  }

  /** Where a rule is written out, the pattern reads its parts. */
  lemma {:induction false} FormattedParts(s: string, p: nat, path: string, target: string, flags: Option<string>)
    requires IsToken(path) && IsToken(target)
    requires flags.Some? ==> flags.value != [] && '\n' !in flags.value && ']' !in flags.value[1..]
    requires p <= |s| && s[p..] == FormatRule(path, target, flags)
    ensures PartsAt(s, p) == Some(RuleParts(path, target, flags))
  {
    var a, e := FormattedLayout(s, p, path, target, flags);
    PartsAtShape(s, p, path, target, a, e);
  }

  /** Where extractRewriteRules sees no RewriteRule, this pattern does not match. */
  lemma {:induction false} NoPartsBefore(s: string, p: nat)
    requires forall q :: 0 <= q < p ==> !RuleAt(s, q)
    ensures forall q :: 0 <= q < p ==> PartsAt(s, q).None?
  {
    forall q | 0 <= q < p
      ensures PartsAt(s, q).None?
    {
      if PartsAt(s, q).Some? {
        PrefixIsRule(s, q);
      }
    }
  }

  /** The first position where the pattern matches is the one preg_match reports. */
  lemma {:induction false} FindRuleAt(s: string, p: nat)
    requires p <= |s| && PartsAt(s, p).Some?
    requires forall q :: 0 <= q < p ==> PartsAt(s, q).None?
    ensures FindRule(s, 0) == Some(p)
  {
  }

  /** A rule written out parses back into its parts, wherever it follows
      text in which extractRewriteRules sees no RewriteRule. */
  lemma {:induction false} ParseFormatted(s: string, p: nat, path: string, target: string, flags: Option<string>)
    requires IsToken(path) && IsToken(target)
    requires flags.Some? ==> flags.value != [] && '\n' !in flags.value && ']' !in flags.value[1..]
    requires p <= |s| && s[p..] == FormatRule(path, target, flags)
    requires forall q :: 0 <= q < p ==> !RuleAt(s, q)
    ensures ParseRewrite(s) == Rewrite(Some(path), Some(target), StatusCode(flags))
  {
    FormattedParts(s, p, path, target, flags);
    NoPartsBefore(s, p);
    FindRuleAt(s, p);
  }

  /** The status code is the last value the flag list gives `R`, read with
      intval, when that value is truthy; 302 when it is not or when no
      token names `R`. */
  lemma {:induction false} StatusCodeOfR(f: string)
    ensures StatusCode(Some(f)) == (
      match LastValue(Tokens(f), "R")
      case Some(v) => if IsTruthy(v) then IntVal(v) else DefaultStatus
      case None => DefaultStatus)
  {
    ParseStrLookup(f, "R");
  }

  /** The flag list as Apache writes it, each `,` a separator. */
  function CommasAsSeparators(f: string): (g: string)
    ensures |g| == |f|
    ensures forall i :: 0 <= i < |f| ==> g[i] == (if f[i] == ',' then '&' else f[i])
  {
    if f == [] then [] else [if f[0] == ',' then '&' else f[0]] + CommasAsSeparators(f[1..])
  }

  /** The status code the flag list evidently means: the same reading of
      `R`, with the flags separated by commas as in Apache's syntax. */
  function IntendedStatusCode(flags: Option<string>): int
  {
    match flags
    case None => DefaultStatus
    case Some(f) => StatusCode(Some(CommasAsSeparators(f)))
  }

  lemma {:induction false} CommasKeep(p: string)
    requires ',' !in p
    ensures CommasAsSeparators(p) == p
  {
    forall i | 0 <= i < |p|
      ensures CommasAsSeparators(p)[i] == p[i]
    {
      assert p[i] in p;
    }
  }

  lemma {:induction false} CommasAppend(x: string, y: string)
    ensures CommasAsSeparators(x + y) == CommasAsSeparators(x) + CommasAsSeparators(y)
  {
    var g, h := CommasAsSeparators(x + y), CommasAsSeparators(x) + CommasAsSeparators(y);
    forall i | 0 <= i < |x + y|
      ensures g[i] == h[i]
    {
      if i < |x| {
        assert (x + y)[i] == x[i];
      } else {
        assert (x + y)[i] == y[i - |x|];
      }
    }
  }

  /** Flags joined with commas read as the same flags joined with `&`. */
  lemma {:induction false} CommasOfJoin(pieces: seq<string>)
    requires |pieces| > 0 && forall i :: 0 <= i < |pieces| ==> ',' !in pieces[i]
    ensures CommasAsSeparators(JoinWith(pieces, ',')) == JoinWith(pieces, '&')
    decreases |pieces|
  {
    var p := pieces[0];
    CommasKeep(p);
    if |pieces| > 1 {
      CommasOfJoin(pieces[1..]);
      var s := JoinWith(pieces[1..], ',');
      CommasAppend(p + [','], s);
      CommasAppend(p, [',']);
      assert CommasAsSeparators([',']) == ['&'];
    }
  }

  /** With commas as separators, a flag list in which exactly one flag
      names `R` has that flag's status code, whatever its position. */
  lemma {:induction false} IntendedStatusFindsR(pieces: seq<string>, k: nat)
    requires k < |pieces|
    requires forall i :: 0 <= i < |pieces| ==>
      pieces[i] != [] && ',' !in pieces[i] && '&' !in pieces[i] && '\0' !in pieces[i]
    requires NameOf(pieces[k]) == "R"
    requires forall i :: 0 <= i < |pieces| && i != k ==> NameOf(pieces[i]) != "R"
    ensures IntendedStatusCode(Some(JoinWith(pieces, ','))) ==
      if IsTruthy(ValueOf(pieces[k])) then IntVal(ValueOf(pieces[k])) else DefaultStatus
  {
    CommasOfJoin(pieces);
    TokensOfJoin(pieces);
    StatusCodeOfR(JoinWith(pieces, '&'));
    var names := Names(pieces);
    assert names[k] == "R";
    assert LastIndex(names, "R") == Some(k);
  }

  /** parseRewrite as evidently intended: the same path and target, with
      the status code read from a comma-separated flag list. */
  function IntendedParseRewrite(rule: string): (r: Rewrite)
    ensures r.path == ParseRewrite(rule).path && r.target == ParseRewrite(rule).target
    ensures r.path.None? ==> r.statusCode == DefaultStatus
  {
    match FindRule(rule, 0)
    case None => Rewrite(None, None, DefaultStatus)
    case Some(p) =>
      var parts := PartsAt(rule, p).value;
      Rewrite(Some(parts.path), Some(parts.target), IntendedStatusCode(parts.flags))
  }

  /** A rule written out parses back into its parts under the intended
      reading too, its status code read from the commas-separated flags. */
  lemma {:induction false} IntendedParseFormatted(s: string, p: nat, path: string, target: string, flags: Option<string>)
    requires IsToken(path) && IsToken(target)
    requires flags.Some? ==> flags.value != [] && '\n' !in flags.value && ']' !in flags.value[1..]
    requires p <= |s| && s[p..] == FormatRule(path, target, flags)
    requires forall q :: 0 <= q < p ==> !RuleAt(s, q)
    ensures IntendedParseRewrite(s) == Rewrite(Some(path), Some(target), IntendedStatusCode(flags))
  {
    FormattedParts(s, p, path, target, flags);
    NoPartsBefore(s, p);
    FindRuleAt(s, p);
  }
}
