# ApacheRedirectParser core in Dafny

This project models the two parsing steps of `ApacheRedirectParser`. Both are pure functions over strings:

- `extractRewriteRules` cuts an Apache configuration into blocks. A block is zero or more `RewriteCond` directives followed by one `RewriteRule`, up to the end of that rule's line. It does this with one `preg_match_all` of `/((?:RewriteCond(?:.|\s)+?)*RewriteRule.+)$/im`.
- `parseRewrite` reads one block into a path, a target and a status code. It uses `/RewriteRule (\S+) (\S+)(?:\s\[(.+?)\])?/i`, then `parse_str` on the bracketed flag list, then `intval` on a truthy `R` flag. The status code is 302 unless the flags say otherwise.

The model has these modules:

- `Text`: characters, keywords and lines as PCRE sees them without Unicode mode. Each byte is one `char`. The `i` flag folds ASCII letters only. `\s` is HT, LF, VT, FF, CR and space. `.` is anything but LF.
- `RuleExtraction`: the extraction pattern, matched in the order PCRE's backtracking matcher tries it.
  - `MatchAt` models one attempt at a position.
  - `FindMatch` models the leftmost-start search.
  - `Blocks` models `preg_match_all`'s resumption after each match.
  - `ExtractRewriteRules` returns the whole-match strings.
- `ConfigLines`: the same function seen line by line, for a configuration written one directive per line.
- `PhpBuiltins`: the PHP built-ins `parseRewrite` relies on.
  - `parse_str`: splitting at `&`, URL decoding, name mangling, last value wins.
  - PHP string truthiness.
  - `intval` of a string.
- `RewriteParsing`: the rule pattern, `parseRewrite`, its round trip with a written-out rule, and the comma-separated reading of the flags (see Findings).
- `SourceExamples`: the repository's PHPUnit cases, derived from the general lemmas, and the flag-order examples.

Behaviour of the code that differs from a plain reading of Apache syntax. The model follows the code in each case:

- The flag list is handed to `parse_str`, so flags are separated by `&`. Apache writes them separated by commas, so `[L,R=301]` sets no `R` (see Findings).
- Path and target must each be preceded by exactly one space. `RewriteRule  /a /b` with two spaces does not match, and parses to a null path and target with status 302.
- Keywords are found anywhere, not only at the start of a line. A block starts at its first keyword, so indentation or a comment sign before it is not part of the block. A commented-out rule still counts.
- A `RewriteRule` written directly after a `RewriteCond` keyword (`RewriteCondRewriteRule …`) is stepped over when a later `RewriteRule` with text after it follows, because the lazy `(?:.|\s)+?` must consume at least one character; the block then runs on to that later rule (`RuleExtraction.Glued`). When no later rule follows, the attempt at the `RewriteCond` fails, and the glued rule is a block of its own that starts at its keyword, without the condition.
- `R` alone, `R=` and `R=0` keep 302, because the value is falsy. A non-numeric truthy value such as `R=permanent` gives 0.

## Model

| member | source | states |
|---|---|---|
| RuleExtraction.MatchAt | src/ApacheRedirectParser/ApacheRedirectParser.php:106 | an attempt at p succeeds only where a RewriteCond or RewriteRule keyword starts; it settles on a RewriteRule at or after p; at a RewriteRule with text after it, it takes that rule |
| RuleExtraction.FindMatch | src/ApacheRedirectParser/ApacheRedirectParser.php:108 | the search from q finds a match whose rule is a RewriteRule at or after its start, or there is no RewriteRule with text after it from q on |
| RuleExtraction.CondMatchesIffRuleAhead | src/ApacheRedirectParser/ApacheRedirectParser.php:106 | an attempt at a RewriteCond succeeds if and only if some RewriteRule with text after it starts at least 12 characters later |
| RuleExtraction.FindMatchSkipsOnlyGlued | src/ApacheRedirectParser/ApacheRedirectParser.php:106-108 | every RewriteRule the search passes over before the one it settles on is glued to a RewriteCond keyword |
| RuleExtraction.BlocksAreMatches | src/ApacheRedirectParser/ApacheRedirectParser.php:106-108 | every block is a whole match: it starts at a keyword, its rule is a RewriteRule with text after it, and it ends at the end of that rule's line |
| RuleExtraction.BlocksWithin | src/ApacheRedirectParser/ApacheRedirectParser.php:106-108 | every block lies within the content, at or after the offset, and holds its rule keyword and at least one character after it |
| RuleExtraction.BlocksInOrder | src/ApacheRedirectParser/ApacheRedirectParser.php:108 | the matches do not overlap and come in order of position |
| RuleExtraction.BlocksLeftmost | src/ApacheRedirectParser/ApacheRedirectParser.php:108 | no match can start between the end of one block and the start of the next, so each block is the leftmost match |
| RuleExtraction.BlocksExhaustive | src/ApacheRedirectParser/ApacheRedirectParser.php:108 | after the last block no match can start anywhere |
| RuleExtraction.BlocksEmptyIff | src/ApacheRedirectParser/ApacheRedirectParser.php:108-110 | there are no blocks if and only if the content holds no RewriteRule with text after it |
| RuleExtraction.BlocksCoverEveryRule | src/ApacheRedirectParser/ApacheRedirectParser.php:106-108 | every RewriteRule with text after it lies inside some block |
| RuleExtraction.BlocksRunPastOnlyGluedRules | src/ApacheRedirectParser/ApacheRedirectParser.php:106 | a block reaches past a RewriteRule before its own only when that rule is glued to a RewriteCond keyword |
| RuleExtraction.Blocks | src/ApacheRedirectParser/ApacheRedirectParser.php:108 | every match found from offset o starts at or after o, and its rule is a RewriteRule with text after it; no match is found only when no such rule follows o |
| RuleExtraction.BlocksFrom | src/ApacheRedirectParser/ApacheRedirectParser.php:108 | after a found match, the first block is that match and every later one starts no earlier; with no match there are no blocks |
| RuleExtraction.ExtractRewriteRules | src/ApacheRedirectParser/ApacheRedirectParser.php:104-111 | the strings returned are the texts of the matches preg_match_all finds from the start of the content, one per match, in order, each within the content |
| ConfigLines.BlocksOfLines | src/ApacheRedirectParser/ApacheRedirectParser.php:104-111 | for lines joined by LF, where a RewriteRule appears only as a line's first keyword, the blocks are given line by line: each rule line alone; each condition line with every line up to and including the next rule line |
| ConfigLines.CollectCountsRuleLines | src/ApacheRedirectParser/ApacheRedirectParser.php:108 | such a configuration holds one block per rule line |
| ConfigLines.ExtractLines | src/ApacheRedirectParser/ApacheRedirectParser.php:104-111 | on such a configuration, extractRewriteRules returns exactly the line-by-line blocks, as many as there are rule lines |
| PhpBuiltins.SplitJoin | src/ApacheRedirectParser/ApacheRedirectParser.php:138 | splitting at a separator and joining back with it gives the original string |
| PhpBuiltins.JoinSplit | src/ApacheRedirectParser/ApacheRedirectParser.php:138 | joining pieces that do not contain the separator and splitting again gives the pieces |
| PhpBuiltins.BeforeNul | src/ApacheRedirectParser/ApacheRedirectParser.php:138 | parse_str sees its argument only up to the first NUL byte |
| PhpBuiltins.Tokens | src/ApacheRedirectParser/ApacheRedirectParser.php:138 | the tokens parse_str reads are non-empty, hold no `&`, and are each one of the `&`-separated pieces of the text before the first NUL |
| PhpBuiltins.TokensOfJoin | src/ApacheRedirectParser/ApacheRedirectParser.php:138 | non-empty pieces without `&` or NUL, joined by `&`, are read back as exactly those tokens |
| PhpBuiltins.KeyValueRoundTrip | src/ApacheRedirectParser/ApacheRedirectParser.php:138 | a token splits at its first `=`: the name part holds no `=`, and name, `=` and value give the token back; with no `=` the value is empty |
| PhpBuiltins.UrlDecode | src/ApacheRedirectParser/ApacheRedirectParser.php:138 | decoding never lengthens a string; UrlRoundTrip shows it undoes UrlEncode |
| PhpBuiltins.UrlDecodePlain | src/ApacheRedirectParser/ApacheRedirectParser.php:138 | URL decoding leaves a string without `%` or `+` unchanged |
| PhpBuiltins.UrlRoundTrip | src/ApacheRedirectParser/ApacheRedirectParser.php:138 | URL decoding undoes URL encoding for every byte string |
| PhpBuiltins.Mangle | src/ApacheRedirectParser/ApacheRedirectParser.php:138 | a name keeps its length; each space or dot becomes `_` and every other character stays, so no space or dot remains |
| PhpBuiltins.MangleExact | src/ApacheRedirectParser/ApacheRedirectParser.php:138 | a name mangles to a given name without `_` if and only if it is that name and holds no space or `.` |
| PhpBuiltins.NameOf | src/ApacheRedirectParser/ApacheRedirectParser.php:138 | the name a token registers is no longer than the token and holds no space or dot |
| PhpBuiltins.ValueOf | src/ApacheRedirectParser/ApacheRedirectParser.php:138 | the value a token gives is no longer than the token, and is empty when the token has no `=` |
| PhpBuiltins.NameOfPlain | src/ApacheRedirectParser/ApacheRedirectParser.php:138 | a plain name before `=` is the variable's name and the decoded rest is its value; a token without `=` names a variable with the empty value |
| PhpBuiltins.Register | src/ApacheRedirectParser/ApacheRedirectParser.php:138 | a token with a non-empty name sets that variable to its value; no other variable is added or changed |
| PhpBuiltins.RegisterAll | src/ApacheRedirectParser/ApacheRedirectParser.php:138 | registering tokens keeps every earlier variable and adds only names that some token gives |
| PhpBuiltins.ParseStr | src/ApacheRedirectParser/ApacheRedirectParser.php:138 | parse_str never sets the empty name, and every variable it sets is named by one of the tokens |
| PhpBuiltins.RegisterLookup | src/ApacheRedirectParser/ApacheRedirectParser.php:138 | registering one token sets the variable it names to its value and leaves every other variable as it was |
| PhpBuiltins.RegisterAllLookup | src/ApacheRedirectParser/ApacheRedirectParser.php:138 | after registering tokens in order, each variable holds the value of the last token naming it, or its earlier value if none does |
| PhpBuiltins.RegisterAllNoEmptyName | src/ApacheRedirectParser/ApacheRedirectParser.php:138 | a token whose name is empty registers nothing |
| PhpBuiltins.ParseStrLookup | src/ApacheRedirectParser/ApacheRedirectParser.php:138-140 | the variable parse_str sets for a name is the value of the last token naming it; no token sets the empty name |
| PhpBuiltins.IsTruthy | src/ApacheRedirectParser/ApacheRedirectParser.php:140 | only a non-empty string is true, and every string of two or more bytes, `00` included, is true |
| PhpBuiltins.IntVal | src/ApacheRedirectParser/ApacheRedirectParser.php:141 | a string without any digit gives 0; the IntVal lemmas below give its value on digits |
| PhpBuiltins.IntValDigits | src/ApacheRedirectParser/ApacheRedirectParser.php:141 | intval of a digit run followed by a character that is not a digit and does not start a fraction or exponent is the value of the digits |
| PhpBuiltins.IntValNegDigits | src/ApacheRedirectParser/ApacheRedirectParser.php:141 | intval of `-` and a digit run followed by a character that is not a digit and does not start a fraction or exponent is the negated value |
| PhpBuiltins.IntValDecimal | src/ApacheRedirectParser/ApacheRedirectParser.php:141 | intval reads back every integer written in decimal when the text that follows does not start with a digit, a fraction or an exponent |
| PhpBuiltins.IntValNoDigits | src/ApacheRedirectParser/ApacheRedirectParser.php:141 | a string with no digit after its blanks and optional sign, and no fraction with an exponent there, gives 0 |
| RewriteParsing.TokenEndAt | src/ApacheRedirectParser/ApacheRedirectParser.php:132 | a greedy `\S+` run ends exactly at the first whitespace character or at the end of the subject |
| RewriteParsing.CloseFrom | src/ApacheRedirectParser/ApacheRedirectParser.php:132 | the lazy `(.+?)\]` closes at the first `]` with no LF before it; it fails when the line has no `]` |
| RewriteParsing.FlagsAt | src/ApacheRedirectParser/ApacheRedirectParser.php:132 | the optional flag group holds only when a whitespace character, `[`, a non-empty text without LF and a `]` follow the target; it is the text up to the first `]` after its first character |
| RewriteParsing.FlagsAtShape | src/ApacheRedirectParser/ApacheRedirectParser.php:132 | conversely, any bracketed text of that shape after the target is the flag group |
| RewriteParsing.PartsAt | src/ApacheRedirectParser/ApacheRedirectParser.php:132-135 | a match at p starts with `RewriteRule ` in any case; path and target are maximal runs of non-whitespace separated by one space, and the flags are the group after the target |
| RewriteParsing.PartsAtShape | src/ApacheRedirectParser/ApacheRedirectParser.php:132-135 | conversely, text laid out that way at p matches with exactly that path, target and flag group |
| RewriteParsing.FindRule | src/ApacheRedirectParser/ApacheRedirectParser.php:133 | preg_match reports the leftmost position where the pattern matches, or there is none |
| RewriteParsing.ParseRewrite | src/ApacheRedirectParser/ApacheRedirectParser.php:120-147 | path and target are both null exactly when the pattern matches nowhere, and the status is then 302; otherwise both are non-empty runs without whitespace |
| RewriteParsing.ParseRewriteLeftmost | src/ApacheRedirectParser/ApacheRedirectParser.php:132-141 | path, target and status come from the leftmost match, the status from its flag group |
| RewriteParsing.PrefixIsRule | src/ApacheRedirectParser/ApacheRedirectParser.php:132 | wherever parseRewrite's pattern can match, extractRewriteRules sees a RewriteRule that can end a block |
| RewriteParsing.FormattedParts | src/ApacheRedirectParser/ApacheRedirectParser.php:132-135 | a rule written out from a path, a target and a flag list matches with exactly those three |
| RewriteParsing.ParseFormatted | src/ApacheRedirectParser/ApacheRedirectParser.php:132-141 | a rule written out after text without a RewriteRule parses back to its path, its target and the status code of its flags |
| RewriteParsing.StatusCode | src/ApacheRedirectParser/ApacheRedirectParser.php:137-142 | no flag list, or a flag list where no token names `R`, keeps 302 |
| RewriteParsing.StatusCodeOfR | src/ApacheRedirectParser/ApacheRedirectParser.php:137-142 | the status is intval of the last value the flag list gives `R` when that value is truthy, and 302 when it is falsy or no token names `R` |
| RewriteParsing.CommasOfJoin | src/ApacheRedirectParser/ApacheRedirectParser.php:138 | reading commas as separators turns a comma-joined flag list into the `&`-joined list parse_str expects |
| RewriteParsing.IntendedStatusFindsR | src/ApacheRedirectParser/ApacheRedirectParser.php:138-141 | in a comma-separated flag list where exactly one flag names `R`, the intended status is that flag's code, at any position |
| RewriteParsing.IntendedParseRewrite | src/ApacheRedirectParser/ApacheRedirectParser.php:120-147 | the intended reading gives the same path and target as parseRewrite, and 302 when there is no match |
| RewriteParsing.IntendedParseFormatted | src/ApacheRedirectParser/ApacheRedirectParser.php:132-141 | under the intended reading, a written-out rule parses back to its path, its target and the status of its comma-separated flags |
| SourceExamples.TwoRulesTwoBlocks | tests/PHPUnit/ApacheRedirectParser/ApacheRedirectParserTest.php:15-26 | two rule lines give two blocks |
| SourceExamples.CondsAndRuleOneBlock | tests/PHPUnit/ApacheRedirectParser/ApacheRedirectParserTest.php:28-40 | two RewriteCond lines and the rule after them are one block, equal to the whole content |
| SourceExamples.SurroundedCondsThreeBlocks | tests/PHPUnit/ApacheRedirectParser/ApacheRedirectParserTest.php:42-56 | a rule, a condition group with its rule, and one more rule give three blocks |
| SourceExamples.BasicRewrite | tests/PHPUnit/ApacheRedirectParser/ApacheRedirectParserTest.php:67-80 | `RewriteRule /foo /bar` gives path `/foo`, target `/bar` and status 302 |
| SourceExamples.RewriteWithModifier | tests/PHPUnit/ApacheRedirectParser/ApacheRedirectParserTest.php:82-87 | `RewriteRule /foo /bar [R=301]` gives status 301 |
| SourceExamples.CondBlockRewrite | src/ApacheRedirectParser/ApacheRedirectParser.php:132-141 | the condition block of the second extraction test parses to `/foo`, `/bar` and 301 |
| SourceExamples.FlagEdgeCases | src/ApacheRedirectParser/ApacheRedirectParser.php:140-141 | `R` alone and `R=0` keep 302; `R=permanent` gives 0 |
| SourceExamples.FlagOrderAsWritten | src/ApacheRedirectParser/ApacheRedirectParser.php:138-141 | as written, `[L,R=301]` keeps 302 while `[R=301,L]` gives 301 |
| SourceExamples.FlagOrderIntended | src/ApacheRedirectParser/ApacheRedirectParser.php:138-141 | read with commas as separators, both orders give 301 |

## Left out

- `configure`, `execute` and `readFile`: the console command definition, the file read and the table output are I/O. The per-block mapping of `parseRewrite` over the extracted blocks is not restated.
- The error path of `preg_match_all` and `preg_match`. They fail only when PCRE's backtracking or recursion limit is hit, and `(?:.|\s)+?` can hit it on a long RewriteCond with no later rule. The limits are runtime settings, so the model matches as if unlimited.
- Multibyte text: strings are byte strings, one `char` per byte, as PCRE sees them without the `u` flag.
- `parse_str` array syntax: a name with `[` (`a[]=1`, `a[b]=1`) builds nested arrays. The model treats `[` as an ordinary name character.
- The `max_input_vars` cap on the number of variables `parse_str` registers. It is a runtime setting, so the model registers every token.
- PhpBuiltins.IntVal: does not model the numeric-string forms with an exponent. In PHP 7.1 and later `intval("3e2")` is 300 and `intval("3.01e2")` is 301, while the model reads only the leading digits and gives 3, so `[R=3e2]` gives 3 here and 300 in PHP. Apache's `R` flag writes a status code as plain digits, which both read alike. Saturation at the platform's integer bounds is not modelled either; it needs values of 19 or more digits.
- PhpBuiltins.IntValDigits: holds in the model for any text after the digits; in PHP it also needs that text not to start an exponent (`e2`, `.5e1`), for the reason given under PhpBuiltins.IntVal.
- PhpBuiltins.IntValNegDigits: the same exponent gap as PhpBuiltins.IntValDigits; `-3e2` reads -300 in PHP and -3 here.
- PhpBuiltins.IntValDecimal: the same exponent gap as PhpBuiltins.IntValDigits.
- PhpBuiltins.IntValNoDigits: the same exponent gap; `.5e3` reads 500 in PHP and 0 here.
- ConfigLines.ExtractLines: covers configurations where a RewriteRule appears only as the first keyword of a line. General text is covered by the `RuleExtraction.Blocks…` lemmas.

## Findings

| source | as written | input that shows it | evidently intended | confidence | as-written member | corrected member |
|---|---|---|---|---|---|---|
| src/ApacheRedirectParser/ApacheRedirectParser.php:138 | the flag list is read with `parse_str`, which separates variables at `&` | `RewriteRule /foo /bar [L,R=301]`: the only variable is named `L,R`, so the status stays 302; `[R=301,L]` gives 301 only because intval stops at the comma | Apache's comma-separated flags, with `R` found at any position, so both give 301 | not executed | SourceExamples.FlagOrderAsWritten | RewriteParsing.IntendedStatusFindsR |
