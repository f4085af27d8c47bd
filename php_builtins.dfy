/** The PHP built-ins that parseRewrite relies on: parse_str with the
    default argument separator `&`, the truthiness of a string, and intval
    of a string. Strings are byte strings, one `char` per byte. */
module PhpBuiltins {
  import opened Wrappers
  import opened Text

  /** The position of the first `c` in s, if any. */
  function FirstIndex(s: string, c: char): (r: Option<nat>)
    ensures r.None? <==> c !in s
    ensures r.Some? ==> r.value < |s| && s[r.value] == c && c !in s[..r.value]
  {
    if s == [] then None
    else if s[0] == c then Some(0)
    else
      match FirstIndex(s[1..], c)
      case None => None
      case Some(i) => Some(i + 1)
  }

  /** The pieces of s between the occurrences of sep, empty ones included. */
  function Split(s: string, sep: char): (pieces: seq<string>)
    ensures |pieces| > 0
    ensures forall i :: 0 <= i < |pieces| ==> sep !in pieces[i]
    decreases |s|
  {
    match FirstIndex(s, sep)
    case None => [s]
    case Some(i) => [s[..i]] + Split(s[i + 1..], sep)
  }

  /** Pieces joined with sep between each two of them. */
  function JoinWith(pieces: seq<string>, sep: char): string
    requires |pieces| > 0
  {
    if |pieces| == 1 then pieces[0] else pieces[0] + [sep] + JoinWith(pieces[1..], sep)
  }

  /** Splitting loses nothing: the pieces joined again give back s. */
  lemma {:induction false} SplitJoin(s: string, sep: char)
    ensures JoinWith(Split(s, sep), sep) == s
    decreases |s|
  {
    match FirstIndex(s, sep)
    case None =>
    case Some(i) =>
      var rest := Split(s[i + 1..], sep);
      SplitJoin(s[i + 1..], sep);
      assert Split(s, sep)[1..] == rest;
      assert s == s[..i] + [sep] + s[i + 1..];
  }

  /** Joining pieces that hold no separator and splitting again gives the pieces back. */
  lemma {:induction false} JoinSplit(pieces: seq<string>, sep: char)
    requires |pieces| > 0
    requires forall i :: 0 <= i < |pieces| ==> sep !in pieces[i]
    ensures Split(JoinWith(pieces, sep), sep) == pieces
    decreases |pieces|
  {
    var s := JoinWith(pieces, sep);
    if |pieces| == 1 {
      assert FirstIndex(s, sep).None?;
    } else {
      var p := pieces[0];
      var rest := JoinWith(pieces[1..], sep);
      assert s == p + ([sep] + rest);
      assert s[|p|] == sep;
      assert s[..|p|] == p;
      assert FirstIndex(s, sep) == Some(|p|);
      assert s[|p| + 1..] == rest;
      JoinSplit(pieces[1..], sep);
    }
  }

  /** The non-empty pieces, in order. */
  function NonEmpty(pieces: seq<string>): (r: seq<string>)
    ensures |r| <= |pieces|
    ensures forall i :: 0 <= i < |r| ==> r[i] != [] && r[i] in pieces
  {
    if pieces == [] then []
    else if pieces[0] == [] then NonEmpty(pieces[1..])
    else [pieces[0]] + NonEmpty(pieces[1..])
  }

  /** What a C string function sees of s: everything before its first NUL. */
  function BeforeNul(s: string): (r: string)
    ensures |r| <= |s| && r == s[..|r|]
    ensures '\0' !in r
    ensures |r| < |s| ==> s[|r|] == '\0'
  {
    match FirstIndex(s, '\0')
    case None => s
    case Some(i) => s[..i]
  }

  /** The tokens php_strtok_r yields for parse_str: the pieces between the
      `&` separators, with empty pieces (from `&&`, or a separator at
      either end) skipped. php_strtok_r works on a C string, so a NUL ends
      the query string. */
  function Tokens(s: string): (tokens: seq<string>)
    ensures forall i :: 0 <= i < |tokens| ==>
      tokens[i] != [] && '&' !in tokens[i] && tokens[i] in Split(BeforeNul(s), '&')
  {
    NonEmpty(Split(BeforeNul(s), '&'))
  }

  lemma {:induction false} NonEmptyKeeps(pieces: seq<string>)
    requires forall i :: 0 <= i < |pieces| ==> pieces[i] != []
    ensures NonEmpty(pieces) == pieces
    decreases |pieces|
  {
    if pieces != [] {
      NonEmptyKeeps(pieces[1..]);
    }
  }

  /** A character in no piece, and not the separator, is not in the joined string. */
  lemma {:induction false} JoinWithAvoids(pieces: seq<string>, sep: char, c: char)
    requires |pieces| > 0 && c != sep
    requires forall i :: 0 <= i < |pieces| ==> c !in pieces[i]
    ensures c !in JoinWith(pieces, sep)
    decreases |pieces|
  {
    if |pieces| > 1 {
      JoinWithAvoids(pieces[1..], sep, c);
    }
  }

  /** Non-empty pieces without `&` or NUL joined with `&` tokenize back
      into those pieces. */
  lemma {:induction false} TokensOfJoin(pieces: seq<string>)
    requires |pieces| > 0
    requires forall i :: 0 <= i < |pieces| ==> pieces[i] != [] && '&' !in pieces[i] && '\0' !in pieces[i]
    ensures Tokens(JoinWith(pieces, '&')) == pieces
  {
    var s := JoinWith(pieces, '&');
    JoinWithAvoids(pieces, '&', '\0');
    assert BeforeNul(s) == s;
    JoinSplit(pieces, '&');
    NonEmptyKeeps(pieces);
  }

  /** A token cut at its first `=`: the name as written and the value;
      without `=`, the whole token is the name and the value is empty. */
  function KeyValue(token: string): (kv: (string, string))
  {
    match FirstIndex(token, '=')
    case None => (token, "")
    case Some(i) => (token[..i], token[i + 1..])
  }

  /** Cutting at the first `=` loses nothing, and the name holds no `=`. */
  lemma {:induction false} KeyValueRoundTrip(token: string)
    ensures '=' !in KeyValue(token).0
    ensures '=' in token ==> KeyValue(token).0 + "=" + KeyValue(token).1 == token
    ensures '=' !in token ==> KeyValue(token) == (token, "")
  {
    match FirstIndex(token, '=')
    case None =>
    case Some(i) =>
      assert token == token[..i] + "=" + token[i + 1..];
  }

  predicate IsHex(c: char)
  {
    IsDigit(c) || 'a' <= c <= 'f' || 'A' <= c <= 'F'
  }

  function HexValue(c: char): (n: nat)
    requires IsHex(c)
    ensures n < 16
  {
    if IsDigit(c) then c as int - '0' as int
    else if 'a' <= c <= 'f' then c as int - 'a' as int + 10
    else c as int - 'A' as int + 10
  }

  /** php_url_decode: `+` becomes a space, and `%` followed by two hex
      digits the byte they spell; every other byte, a `%` without two hex
      digits after it included, stays as it is. */
  function UrlDecode(s: string): (r: string)
    ensures |r| <= |s|
    decreases |s|
  {
    if s == [] then []
    else if s[0] == '+' then [' '] + UrlDecode(s[1..])
    else if s[0] == '%' && |s| >= 3 && IsHex(s[1]) && IsHex(s[2]) then
      [(16 * HexValue(s[1]) + HexValue(s[2])) as char] + UrlDecode(s[3..])
    else [s[0]] + UrlDecode(s[1..])
  }

  /** A string without `%` and `+` decodes to itself. */
  lemma {:induction false} UrlDecodePlain(s: string)
    requires '%' !in s && '+' !in s
    ensures UrlDecode(s) == s
  {
    if s != [] {
      assert s[0] in s;
      assert forall c :: c in s[1..] ==> c in s;
      UrlDecodePlain(s[1..]);
    }
  }

  /** The uppercase hex digit of n, as PHP's urlencode writes it. */
  function HexDigit(n: nat): (c: char)
    requires n < 16
    ensures IsHex(c) && HexValue(c) == n
  {
    if n < 10 then ('0' as int + n) as char else ('A' as int + n - 10) as char
  }

  predicate IsUnreserved(c: char)
  {
    IsDigit(c) || 'a' <= c <= 'z' || 'A' <= c <= 'Z' || c == '-' || c == '_' || c == '.'
  }

  /** PHP's urlencode of one byte: letters, digits and `-_.` stay, a space
      becomes `+`, any other byte `%` and two hex digits. */
  function EncodeByte(c: char): string
    requires c as int < 256
  {
    if IsUnreserved(c) then [c]
    else if c == ' ' then "+"
    else ['%', HexDigit(c as int / 16), HexDigit(c as int % 16)]
  }

  /** PHP's urlencode, the inverse that decoding is checked against. */
  function UrlEncode(s: string): string
    requires forall i :: 0 <= i < |s| ==> s[i] as int < 256
  {
    if s == [] then [] else EncodeByte(s[0]) + UrlEncode(s[1..])
  }

  /** Decoding an encoded byte gives the byte back and goes on after it. */
  lemma {:induction false} DecodeEncodedByte(c: char, rest: string)
    requires c as int < 256
    ensures UrlDecode(EncodeByte(c) + rest) == [c] + UrlDecode(rest)
  {
    var e := EncodeByte(c);
    var s := e + rest;
    if IsUnreserved(c) {
      assert s[0] == c && s[1..] == rest;
    } else if c == ' ' {
      assert s[0] == '+' && s[1..] == rest;
    } else {
      assert s[0] == '%' && s[1] == e[1] && s[2] == e[2] && s[3..] == rest;
      assert 16 * HexValue(e[1]) + HexValue(e[2]) == c as int;
    }
  }

  /** Decoding undoes encoding. */
  lemma {:induction false} UrlRoundTrip(s: string)
    requires forall i :: 0 <= i < |s| ==> s[i] as int < 256
    ensures UrlDecode(UrlEncode(s)) == s
  {
    if s != [] {
      UrlRoundTrip(s[1..]);
      DecodeEncodedByte(s[0], UrlEncode(s[1..]));
      assert s == [s[0]] + s[1..];
    }
  }

  /** The number of spaces a name starts with. */
  function BlankCount(k: string): (n: nat)
    ensures n <= |k|
    ensures forall i :: 0 <= i < n ==> k[i] == ' '
    ensures n == |k| || k[n] != ' '
  {
    if k != [] && k[0] == ' ' then 1 + BlankCount(k[1..]) else 0
  }

  /** A space or a dot in a variable name becomes an underscore. */
  function Mangle(k: string): (r: string)
    ensures |r| == |k|
    ensures forall i :: 0 <= i < |k| ==> r[i] == (if k[i] == ' ' || k[i] == '.' then '_' else k[i])
    ensures ' ' !in r && '.' !in r
  {
    if k == [] then []
    else [if k[0] == ' ' || k[0] == '.' then '_' else k[0]] + Mangle(k[1..])
  }

  /** Only a name without spaces and dots comes out of Mangle as itself,
      and a name without underscores comes from nothing else. */
  lemma {:induction false} MangleExact(k: string, n: string)
    requires '_' !in n
    ensures Mangle(k) == n <==> k == n && ' ' !in n && '.' !in n
  {
    if Mangle(k) == n {
      forall i | 0 <= i < |k|
        ensures k[i] == n[i] && n[i] != ' ' && n[i] != '.'
      {
        assert n[i] in n;
      }
      assert k == n;
    }
  }

  /** The variable a token of parse_str registers: the name url-decoded,
      cut at a NUL it decodes to (php_register_variable_ex reads it as a C
      string), leading spaces ignored, then spaces and dots made
      underscores. An empty name registers nothing. */
  function NameOf(token: string): (name: string)
    ensures |name| <= |token|
    ensures ' ' !in name && '.' !in name
  {
    KeyValueRoundTrip(token);
    var name := BeforeNul(UrlDecode(KeyValue(token).0));
    Mangle(name[BlankCount(name)..])
  }

  /** The value a token gives its variable, url-decoded. */
  function ValueOf(token: string): (value: string)
    ensures |value| <= |token|
    ensures '=' !in token ==> value == ""
  {
    KeyValueRoundTrip(token);
    UrlDecode(KeyValue(token).1)
  }

  /** A plain name, with no character that decoding, cutting or mangling
      touches, names itself; its value is decoded. */
  lemma {:induction false} NameOfPlain(key: string, value: string)
    requires key != [] && ' ' !in key && '.' !in key && '%' !in key && '+' !in key && '=' !in key && '\0' !in key
    ensures NameOf(key + "=" + value) == key && ValueOf(key + "=" + value) == UrlDecode(value)
    ensures NameOf(key) == key && ValueOf(key) == ""
  {
    var token := key + "=" + value;
    assert token[|key|] == '=' && token[..|key|] == key && token[|key| + 1..] == value;
    assert FirstIndex(token, '=') == Some(|key|);
    UrlDecodePlain(key);
    assert BeforeNul(key) == key;
    assert key[0] != ' ';
    assert BlankCount(key) == 0;
    assert key[0..] == key;
    assert Mangle(key) == key;
    assert FirstIndex(key, '=') == None;
    assert UrlDecode("") == "";
  }

  /** One token registered into the variables parse_str has built so far:
      a later token overwrites an earlier one of the same name. */
  function Register(vars: map<string, string>, token: string): (r: map<string, string>)
    ensures NameOf(token) != "" ==> NameOf(token) in r && r[NameOf(token)] == ValueOf(token)
    ensures forall n :: n in r <==> n in vars || (n == NameOf(token) && n != "")
    ensures forall n :: n in vars && n != NameOf(token) ==> r[n] == vars[n]
  {
    if NameOf(token) == "" then vars else vars[NameOf(token) := ValueOf(token)]
  }

  function RegisterAll(vars: map<string, string>, tokens: seq<string>): (r: map<string, string>)
    decreases |tokens|
    ensures forall n :: n in vars ==> n in r
    ensures forall n :: n in r && n !in vars ==> n in Names(tokens)
  {
    if tokens == [] then vars
    else
      NamesTail(tokens);
      RegisterAll(Register(vars, tokens[0]), tokens[1..])
  }

  /** parse_str(s, $result): the variables the query string s declares. */
  function ParseStr(s: string): (vars: map<string, string>)
    ensures "" !in vars
    ensures forall n :: n in vars ==> n in Names(Tokens(s))
  {
    RegisterAllNoEmptyName(map[], Tokens(s));
    RegisterAll(map[], Tokens(s))
  }

  /** The names the tokens give, in order. */
  function Names(tokens: seq<string>): (names: seq<string>)
    ensures |names| == |tokens|
    ensures forall i :: 0 <= i < |tokens| ==> names[i] == NameOf(tokens[i])
  {
    seq(|tokens|, i requires 0 <= i < |tokens| => NameOf(tokens[i]))
  }

  /** The reference reading of "last duplicate wins": the index of the last
      occurrence of `name` among the names, found by looking from the end. */
  function LastIndex(names: seq<string>, name: string): (r: Option<nat>)
    ensures r.None? ==> forall i :: 0 <= i < |names| ==> names[i] != name
    ensures r.Some? ==> r.value < |names| && names[r.value] == name
    ensures r.Some? ==> forall k :: r.value < k < |names| ==> names[k] != name
    decreases |names|
  {
    if names == [] then None
    else if names[|names| - 1] == name then Some(|names| - 1)
    else LastIndex(names[..|names| - 1], name)
  }

  /** The value the last token naming `name` gives it. */
  function LastValue(tokens: seq<string>, name: string): Option<string>
  {
    match LastIndex(Names(tokens), name)
    case None => None
    case Some(i) => Some(ValueOf(tokens[i]))
  }

  /** LastIndex read from the front: an occurrence after the first name wins over it. */
  lemma {:induction false} LastIndexFront(names: seq<string>, name: string)
    requires names != []
    ensures LastIndex(names, name) ==
      match LastIndex(names[1..], name)
      case Some(i) => Some(i + 1)
      case None => if names[0] == name then Some(0) else None
    decreases |names|
  {
    var n := |names|;
    if n > 1 {
      var init := names[..n - 1];
      assert names[1..][..n - 2] == init[1..];
      assert names[1..][n - 2] == names[n - 1];
      if names[n - 1] != name {
        LastIndexFront(init, name);
        assert init[0] == names[0];
      }
    }
  }

  function Lookup(vars: map<string, string>, name: string): Option<string>
  {
    if name in vars then Some(vars[name]) else None
  }

  lemma {:induction false} NamesTail(tokens: seq<string>)
    requires tokens != []
    ensures Names(tokens)[1..] == Names(tokens[1..])
  {
  }

  /** LastValue read from the front: a value given after the first token wins over it. */
  lemma {:induction false} LastValueFront(tokens: seq<string>, name: string)
    requires tokens != []
    ensures LastValue(tokens, name) ==
      if LastValue(tokens[1..], name).Some? then LastValue(tokens[1..], name)
      else if NameOf(tokens[0]) == name then Some(ValueOf(tokens[0])) else None
  {
    var names := Names(tokens);
    var rest := tokens[1..];
    NamesTail(tokens);
    LastIndexFront(names, name);
    match LastIndex(names[1..], name)
    case Some(i) =>
      assert LastValue(rest, name) == Some(ValueOf(rest[i]));
      assert rest[i] == tokens[i + 1];
    case None =>
      assert LastValue(rest, name).None?;
      assert names[0] == NameOf(tokens[0]);
  }

  /** Registering one token sets its name, and no other. */
  lemma {:induction false} RegisterLookup(vars: map<string, string>, token: string, name: string)
    requires name != ""
    ensures Lookup(Register(vars, token), name) ==
      if NameOf(token) == name then Some(ValueOf(token)) else Lookup(vars, name)
  {
  }

  /** The variables RegisterAll leaves: for a non-empty name, the value of
      the last token naming it, else whatever was registered before. */
  lemma {:induction false} RegisterAllLookup(vars: map<string, string>, tokens: seq<string>, name: string)
    requires name != ""
    ensures Lookup(RegisterAll(vars, tokens), name) ==
      if LastValue(tokens, name).Some? then LastValue(tokens, name) else Lookup(vars, name)
    decreases |tokens|
  {
    if tokens != [] {
      var next := Register(vars, tokens[0]);
      assert RegisterAll(vars, tokens) == RegisterAll(next, tokens[1..]);
      RegisterAllLookup(next, tokens[1..], name);
      RegisterLookup(vars, tokens[0], name);
      LastValueFront(tokens, name);
    }
  }

  /** No variable has an empty name. */
  lemma {:induction false} RegisterAllNoEmptyName(vars: map<string, string>, tokens: seq<string>)
    requires "" !in vars
    ensures "" !in RegisterAll(vars, tokens)
    decreases |tokens|
  {
    if tokens != [] {
      RegisterAllNoEmptyName(Register(vars, tokens[0]), tokens[1..]);
    }
  }

  /** What parse_str declares: a variable for each non-empty name some token
      gives, holding the value of the last token that gives it. */
  lemma {:induction false} ParseStrLookup(s: string, name: string)
    ensures Lookup(ParseStr(s), name) == if name == "" then None else LastValue(Tokens(s), name)
  {
    RegisterAllNoEmptyName(map[], Tokens(s));
    if name != "" {
      RegisterAllLookup(map[], Tokens(s), name);
    }
  }

  /** PHP's boolean reading of a string: only "" and "0" are false. */
  predicate IsTruthy(v: string)
    ensures IsTruthy(v) ==> v != []
    ensures |v| >= 2 ==> IsTruthy(v)
  {
    v != "" && v != "0"
  }

  /** The number of whitespace characters v starts with, which
      is_numeric_string skips. */
  function SpaceCount(v: string): (n: nat)
    ensures n <= |v|
    ensures forall i :: 0 <= i < n ==> IsSpace(v[i])
    ensures n == |v| || !IsSpace(v[n])
  {
    if v != [] && IsSpace(v[0]) then 1 + SpaceCount(v[1..]) else 0
  }

  /** The number of decimal digits v starts with. */
  function DigitCount(v: string): (n: nat)
    ensures n <= |v|
    ensures forall i :: 0 <= i < n ==> IsDigit(v[i])
    ensures n == |v| || !IsDigit(v[n])
  {
    if v != [] && IsDigit(v[0]) then 1 + DigitCount(v[1..]) else 0
  }

  /** The number a string of decimal digits denotes, most significant digit first. */
  function DigitsValue(d: string): nat
    requires forall i :: 0 <= i < |d| ==> IsDigit(d[i])
  {
    if d == [] then 0
    else
      var c := d[|d| - 1];
      assert IsDigit(c);
      10 * DigitsValue(d[..|d| - 1]) + (c as int - '0' as int)
  }

  /** The value of the decimal digits u starts with; 0 when there are none. */
  function LeadingNumber(u: string): nat
  {
    DigitsValue(u[..DigitCount(u)])
  }

  /** The number at the start of a string that does not start with
      whitespace: an optional sign, then the leading decimal digits. */
  function SignedDigits(t: string): int
  {
    if t != [] && t[0] == '-' then -(LeadingNumber(t[1..]) as int)
    else if t != [] && t[0] == '+' then LeadingNumber(t[1..])
    else LeadingNumber(t)
  }

  /** intval($v) for a string: leading whitespace skipped, an optional sign,
      then the leading decimal digits; 0 when there are none. */
  function IntVal(v: string): (n: int)
    ensures (forall i :: 0 <= i < |v| ==> !IsDigit(v[i])) ==> n == 0
  {
    SignedDigits(v[SpaceCount(v)..])
  }

  function DigitChar(n: nat): char
    requires n < 10
  {
    ('0' as int + n) as char
  }

  /** The decimal numeral of n, without leading zeros. */
  function Decimal(n: nat): (d: string)
    ensures |d| > 0
    ensures forall i :: 0 <= i < |d| ==> IsDigit(d[i])
  {
    if n < 10 then [DigitChar(n)] else Decimal(n / 10) + [DigitChar(n % 10)]
  }

  /** The numeral reads back as the number. */
  lemma {:induction false} DecimalValue(n: nat)
    ensures DigitsValue(Decimal(n)) == n
  {
    if n >= 10 {
      DecimalValue(n / 10);
      var d := Decimal(n);
      assert d[..|d| - 1] == Decimal(n / 10);
    }
  }

  /** Digits followed by a non-digit: all of the digits are read. */
  lemma {:induction false} LeadingNumberOf(d: string, rest: string)
    requires forall i :: 0 <= i < |d| ==> IsDigit(d[i])
    requires rest == [] || !IsDigit(rest[0])
    ensures LeadingNumber(d + rest) == DigitsValue(d)
  {
    var v := d + rest;
    assert forall i :: 0 <= i < |d| ==> v[i] == d[i];
    assert |d| == |v| || v[|d|] == rest[0];
    assert DigitCount(v) == |d|;
    assert v[..|d|] == d;
  }

  /** intval reads leading digits followed by anything but a digit. */
  lemma {:induction false} IntValDigits(d: string, rest: string)
    requires d != [] && forall i :: 0 <= i < |d| ==> IsDigit(d[i])
    requires rest == [] || !IsDigit(rest[0])
    ensures IntVal(d + rest) == DigitsValue(d)
  {
    var v := d + rest;
    var c := d[0];
    assert IsDigit(c);
    assert v[0] == c;
    assert !IsSpace(c) && c != '-' && c != '+';
    assert SpaceCount(v) == 0;
    assert v[0..] == v;
    LeadingNumberOf(d, rest);
  }

  /** The same digits after a minus sign read as the negative number. */
  lemma {:induction false} IntValNegDigits(d: string, rest: string)
    requires d != [] && forall i :: 0 <= i < |d| ==> IsDigit(d[i])
    requires rest == [] || !IsDigit(rest[0])
    ensures IntVal("-" + d + rest) == -(DigitsValue(d) as int)
  {
    var v := "-" + d + rest;
    assert v[0] == '-';
    assert SpaceCount(v) == 0;
    assert v[0..] == v;
    assert v[1..] == d + rest;
    LeadingNumberOf(d, rest);
  }

  /** intval reads back a numeral followed by anything but a digit, and
      its negation. */
  lemma {:induction false} IntValDecimal(n: nat, rest: string)
    requires rest == [] || !IsDigit(rest[0])
    ensures IntVal(Decimal(n) + rest) == n
    ensures IntVal("-" + Decimal(n) + rest) == -(n as int)
  {
    DecimalValue(n);
    IntValDigits(Decimal(n), rest);
    IntValNegDigits(Decimal(n), rest);
  }

  /** A value with no digit after its whitespace and sign reads as 0. */
  lemma {:induction false} IntValNoDigits(v: string)
    requires var t := v[SpaceCount(v)..];
      var u := if t != [] && (t[0] == '-' || t[0] == '+') then t[1..] else t;
      u == [] || !IsDigit(u[0])
    ensures IntVal(v) == 0
  {
  }
}
