/** Characters and lines as the source's regular expressions see them.
    PHP strings are byte strings and both patterns run in PCRE's default,
    non-UTF mode: one `char` here stands for one byte, the `i` flag folds
    ASCII letters only, and the newline convention is a single LF. */
module Text {

  /** ASCII lower case, the folding PCRE applies under the `i` flag. */
  function Lower(c: char): char
  {
    if 'A' <= c <= 'Z' then (c as int + 32) as char else c
  }

  /** PCRE's `\s` without Unicode properties: HT, LF, VT, FF, CR and space.
      PHP skips the same set before a numeric string. */
  predicate IsSpace(c: char)
  {
    c == ' ' || 9 <= c as int <= 13
  }

  predicate IsDigit(c: char)
  {
    '0' <= c <= '9'
  }

  /** The keyword `kw`, in any letter case, matches s from position i + k
      on, compared character by character after folding. (The subject's
      length in the decreases clause keeps the verifier from unrolling the
      whole comparison whenever the keyword is a literal.) */
  predicate MatchesFrom(s: string, i: nat, kw: string, k: nat)
    decreases |kw| - k, |s|
  {
    k >= |kw| || (i + k < |s| && Lower(s[i + k]) == Lower(kw[k]) && MatchesFrom(s, i, kw, k + 1))
  }

  /** The keyword `kw`, in any letter case, occupies `s[i..i + |kw|]`. */
  predicate KeywordAt(s: string, i: nat, kw: string)
  {
    i + |kw| <= |s| && MatchesFrom(s, i, kw, 0)
  }

  /** Each character from position k of a keyword matched from k is there, up to letter case. */
  lemma {:induction false} MatchesFromChar(s: string, i: nat, kw: string, k: nat, j: nat)
    requires MatchesFrom(s, i, kw, k) && k <= j < |kw|
    ensures i + j < |s| && Lower(s[i + j]) == Lower(kw[j])
    decreases j - k
  {
    if k < j {
      MatchesFromChar(s, i, kw, k + 1, j);
    }
  }

  /** One character of a keyword found at i. */
  lemma {:induction false} KeywordCharAt(s: string, i: nat, kw: string, j: nat)
    requires KeywordAt(s, i, kw) && j < |kw|
    ensures i + j < |s| && Lower(s[i + j]) == Lower(kw[j])
  {
    MatchesFromChar(s, i, kw, 0, j);
  }

  /** No character of `t` is matched by `\s`. */
  function HasNoSpace(t: string): (r: bool)
    ensures r <==> forall i :: 0 <= i < |t| ==> !IsSpace(t[i])
  {
    t == [] || (!IsSpace(t[0]) && HasNoSpace(t[1..]))
  }

  /** A run that `\S+` can match as a whole. */
  predicate IsToken(t: string)
  {
    |t| > 0 && HasNoSpace(t)
  }

  /** The position where `$` (multi-line) first matches at or after `i`:
      the next LF, or the end of the subject. */
  function LineEnd(s: string, i: nat): (e: nat)
    requires i <= |s|
    decreases |s| - i
    ensures i <= e <= |s|
    ensures e == |s| || s[e] == '\n'
  {
    if i == |s| || s[i] == '\n' then i else LineEnd(s, i + 1)
  }

  /** No LF lies between i and the end of its line. */
  lemma {:induction false} LineEndFirst(s: string, i: nat)
    requires i <= |s|
    ensures forall k :: i <= k < LineEnd(s, i) ==> s[k] != '\n'
    decreases |s| - i
  {
    if i < |s| && s[i] != '\n' {
      LineEndFirst(s, i + 1);
    }
  }

  /** LineEnd finds the LF that closes a line, or the end of the subject. */
  lemma {:induction false} LineEndAt(s: string, i: nat, b: nat)
    requires i <= b <= |s| && (b == |s| || s[b] == '\n')
    requires forall k :: i <= k < b ==> s[k] != '\n'
    ensures LineEnd(s, i) == b
    decreases b - i
  {
    if i < b {
      LineEndAt(s, i + 1, b);
    }
  }

  /** Lines joined with LF, the way a heredoc or a configuration file holds them. */
  function JoinLines(lines: seq<string>): (s: string)
    ensures |lines| == 1 ==> s == lines[0]
  {
    if |lines| == 0 then ""
    else if |lines| == 1 then lines[0]
    else lines[0] + "\n" + JoinLines(lines[1..])
  }

  /** What follows the first of several joined lines: nothing, or a LF and
      the remaining lines. */
  function AfterFirstLine(rest: seq<string>): string
  {
    if rest == [] then "" else "\n" + JoinLines(rest)
  }

  lemma {:induction false} JoinLinesFirst(lines: seq<string>)
    requires |lines| > 0
    ensures JoinLines(lines) == lines[0] + AfterFirstLine(lines[1..])
  {
  }

  /** Joined lines split at any line break into the lines before and after it. */
  lemma {:induction false} JoinLinesSplit(lines: seq<string>, j: nat)
    requires 0 < j < |lines|
    ensures JoinLines(lines) == JoinLines(lines[..j]) + "\n" + JoinLines(lines[j..])
    decreases j
  {
    if j == 1 {
      assert lines[..1] == [lines[0]];
      assert lines[1..] == lines[j..];
    } else {
      JoinLinesSplit(lines[1..], j - 1);
      assert lines[1..][..j - 1] == lines[..j][1..];
      assert lines[1..][j - 1..] == lines[j..];
      calc {
        JoinLines(lines);
        lines[0] + "\n" + JoinLines(lines[1..]);
        lines[0] + "\n" + (JoinLines(lines[..j][1..]) + "\n" + JoinLines(lines[j..]));
        (lines[..j][0] + "\n" + JoinLines(lines[..j][1..])) + "\n" + JoinLines(lines[j..]);
        JoinLines(lines[..j]) + "\n" + JoinLines(lines[j..]);
      }
    }
  }

  /** Where the two parts of a suffix of s sit in s. */
  lemma {:induction false} SplitAt(s: string, o: nat, p: string, q: string)
    requires o <= |s| && s[o..] == p + q
    ensures o + |p| <= |s| && s[o..o + |p|] == p && s[o + |p|..] == q
  {
    assert s[o..o + |p|] == s[o..][..|p|];
    assert s[o + |p|..] == s[o..][|p|..];
  }

  /** The keyword written out verbatim matches. */
  lemma {:induction false} MatchesFromVerbatim(s: string, i: nat, kw: string, k: nat)
    requires k <= |kw| && i + |kw| <= |s| && s[i..i + |kw|] == kw
    ensures MatchesFrom(s, i, kw, k)
    decreases |kw| - k
  {
    if k < |kw| {
      assert s[i + k] == s[i..i + |kw|][k];
      MatchesFromVerbatim(s, i, kw, k + 1);
    }
  }

  /** Whatever matches a keyword matches each of its prefixes. */
  lemma {:induction false} MatchesFromPrefix(s: string, i: nat, kw: string, n: nat, k: nat)
    requires k <= n <= |kw| && MatchesFrom(s, i, kw, k)
    ensures MatchesFrom(s, i, kw[..n], k)
    decreases n - k
  {
    if k < n {
      assert kw[..n][k] == kw[k];
      MatchesFromPrefix(s, i, kw, n, k + 1);
    }
  }

  /** A keyword that contains no LF cannot be read across a line break. */
  lemma {:induction false} KeywordWithinLine(s: string, i: nat, kw: string, k: nat)
    requires KeywordAt(s, i, kw) && '\n' !in kw
    requires i <= k < i + |kw|
    ensures s[k] != '\n'
  {
    KeywordCharAt(s, i, kw, k - i);
    assert kw[k - i] in kw;
  }

  /** Matching inside a slice is matching at the same place in the whole string. */
  lemma {:induction false} MatchesFromInSlice(s: string, a: nat, e: nat, i: nat, kw: string, k: nat)
    requires a <= i && a <= e <= |s| && i + |kw| <= e
    ensures MatchesFrom(s[a..e], i - a, kw, k) <==> MatchesFrom(s, i, kw, k)
    decreases |kw| - k
  {
    if k < |kw| {
      assert s[a..e][i - a + k] == s[i + k];
      MatchesFromInSlice(s, a, e, i, kw, k + 1);
    }
  }

  /** A keyword found inside a slice is found at the same place in the whole string, and back. */
  lemma {:induction false} KeywordInSlice(s: string, a: nat, e: nat, i: nat, kw: string)
    requires a <= i && e <= |s| && a <= e && i + |kw| <= e
    ensures KeywordAt(s[a..e], i - a, kw) <==> KeywordAt(s, i, kw)
  {
    MatchesFromInSlice(s, a, e, i, kw, 0);
  }
}
