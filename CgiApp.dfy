/**
 * The CGI form decoder: the query is cut into tokens at '&' and newline,
 * every token `name=value` has its '+' turned into spaces and its `%XY`
 * escapes decoded, and the pair is stored in a table, a later pair
 * overwriting an earlier one with the same name.
 *
 * An escape decodes to the single byte `(byte) Integer.parseInt(XY, 16)`,
 * or to byte 0 when XY does not parse; bytes become characters of the same
 * code (an 8-bit charset). A '%' with fewer than two characters after it
 * makes `substring` throw, which is modelled as a failed decoding (`None`).
 */
module CgiApp {
  import opened Wrappers
  import opened Strings

  // ---------------------------------------------------------------------
  // Escapes.
  // ---------------------------------------------------------------------

  /** `Character.digit(c, 16)` on ASCII characters. */
  function HexDigit(c: char): (d: Option<int>)
    ensures d.Some? ==> 0 <= d.value < 16
  {
    if '0' <= c <= '9' then Some(c as int - '0' as int)
    else if 'a' <= c <= 'f' then Some(c as int - 'a' as int + 10)
    else if 'A' <= c <= 'F' then Some(c as int - 'A' as int + 10)
    else None
  }

  /**
   * `Integer.parseInt(e, 16)` on the two characters of an escape: a sign
   * followed by one hex digit, or two hex digits. None stands for the
   * NumberFormatException.
   */
  function ParseHex(e: string): (n: Option<int>)
    requires |e| == 2
    ensures n.Some? ==> -15 <= n.value <= 255
  {
    if e[0] == '-' then
      match HexDigit(e[1])
      case None => None
      case Some(d) => Some(-d)
    else if e[0] == '+' then HexDigit(e[1])
    else
      match (HexDigit(e[0]), HexDigit(e[1]))
      case (Some(h), Some(l)) => Some(16 * h + l)
      case _ => None
  }

  /**
   * The character an escape decodes to: the parsed value cast to a byte
   * (its low eight bits), or byte 0 when the parse failed.
   */
  function EscapeChar(e: string): (c: char)
    requires |e| == 2
    ensures (c as int) < 256
  {
    match ParseHex(e)
    case None => 0 as char
    case Some(n) => (n % 256) as char
  }

  /** t with `prefix` in front, passing a failure on. */
  function Prefix(prefix: string, t: Option<string>): (r: Option<string>)
    ensures r.Some? <==> t.Some?
    ensures r.Some? ==> r.value == prefix + t.value
  {
    match t
    case None => None
    case Some(u) => Some(prefix + u)
  }

  lemma PrefixNothing(t: Option<string>)
    ensures Prefix([], t) == t
  {
    if t.Some? {
      assert [] + t.value == t.value;
    }
  }

  lemma PrefixPrefix(a: string, b: string, t: Option<string>)
    ensures Prefix(a, Prefix(b, t)) == Prefix(a + b, t)
  {
    if t.Some? {
      assert a + (b + t.value) == a + b + t.value;
    }
  }

  /**
   * What `unescape` returns: the text up to the first '%', the character its
   * escape stands for, and the rest decoded likewise; None when a '%' has
   * fewer than two characters after it.
   */
  function Unescaped(s: string): Option<string>
    decreases |s|
  {
    var i := IndexOf(s, '%');
    if i == -1 then Some(s)
    else if i + 3 > |s| then None
    else Prefix(s[..i] + [EscapeChar(s[i + 1..i + 3])], Unescaped(s[i + 3..]))
  }

  /**
   * `unescape`: the do-while loop that cuts the text at each '%', appends
   * the header and the decoded escape to the target, and goes on with the
   * trailer.
   */
  method Unescape(s: string) returns (r: Option<string>)
    ensures r == Unescaped(s)
  {
    var target := "";
    var source := s;
    PrefixNothing(Unescaped(s));
    var nextEscape := 0;
    while nextEscape != -1
      invariant nextEscape != -1 ==> Unescaped(s) == Prefix(target, Unescaped(source))
      invariant nextEscape == -1 ==> Unescaped(s) == Some(target)
      decreases |source| + 1, if nextEscape == -1 then 0 else 1
    {
      nextEscape := IndexOf(source, '%');
      if nextEscape != -1 {
        if nextEscape + 3 > |source| {
          // `substring` throws before anything is appended
          return None;
        }
        var header := source[..nextEscape];
        var trailer := source[nextEscape + 3..];
        var escape := source[nextEscape + 1..nextEscape + 3];
        var unescaped := EscapeChar(escape);
        UnfoldAt(source, nextEscape);
        PrefixPrefix(target, header + [unescaped], Unescaped(trailer));
        target := target + (header + [unescaped]);
        source := trailer;
      } else {
        target := target + source;
      }
    }
    r := Some(target);
  }

  // ---------------------------------------------------------------------
  // What decoding does, stated without reference to the loop.
  // ---------------------------------------------------------------------

  /** One step of the decoding, at the first '%'. */
  lemma UnfoldAt(s: string, i: int)
    requires 0 <= i && IndexOf(s, '%') == i && i + 3 <= |s|
    ensures Unescaped(s) == Prefix(s[..i] + [EscapeChar(s[i + 1..i + 3])], Unescaped(s[i + 3..]))
  {
  }

  /** Text without '%' is copied verbatim, in front of whatever follows it. */
  lemma UnescapedPlain(a: string, b: string)
    requires forall k :: 0 <= k < |a| ==> a[k] != '%'
    ensures Unescaped(a + b) == Prefix(a, Unescaped(b))
  {
    IndexOfAppend(a, b, '%');
    var j := IndexOf(b, '%');
    if j != -1 && j + 3 <= |b| {
      PlainBeforeEscape(a, b, j);
    }
  }

  /** UnescapedPlain when the second part holds a complete escape. */
  lemma PlainBeforeEscape(a: string, b: string, j: int)
    requires 0 <= j && IndexOf(b, '%') == j && j + 3 <= |b| && IndexOf(a + b, '%') == |a| + j
    ensures Unescaped(a + b) == Prefix(a, Unescaped(b))
  {
    var e := [EscapeChar(b[j + 1..j + 3])];
    UnfoldAt(a + b, |a| + j);
    UnfoldAt(b, j);
    SlicesOfAppend(a, b, j);
    PrefixPrefix(a, b[..j] + e, Unescaped(b[j + 3..]));
    assert a + (b[..j] + e) == a + b[..j] + e;
  }

  /** An escape `%XY` decodes to one character, in front of the decoded rest. */
  lemma UnescapedEscape(x: char, y: char, rest: string)
    ensures Unescaped(['%', x, y] + rest) == Prefix([EscapeChar([x, y])], Unescaped(rest))
  {
    var s := ['%', x, y] + rest;
    assert IndexOf(s, '%') == 0;
    assert s[..0] + [EscapeChar(s[1..3])] == [EscapeChar([x, y])];
    assert s[3..] == rest;
  }

  /** A '%' with fewer than two characters after it makes the decoding fail. */
  lemma UnescapedShort(a: string, b: string)
    requires '%' !in a && |b| < 2
    ensures Unescaped(a + ['%'] + b) == None
  {
    UnescapedPlain(a, ['%'] + b);
    assert a + ['%'] + b == a + (['%'] + b);
    assert (['%'] + b)[0] == '%';
  }

  /** An escape whose characters are not a signed hex number decodes to the character 0. */
  lemma BadEscapeIsZero(x: char, y: char)
    requires HexDigit(y).None? || (x != '+' && x != '-' && HexDigit(x).None?)
    ensures EscapeChar([x, y]) == 0 as char
  {
  }

  // ---------------------------------------------------------------------
  // Form encoding, the inverse of what `put` does to names and values.
  // ---------------------------------------------------------------------

  /** The upper-case hex digit for 0 <= d < 16. */
  function HexChar(d: int): (c: char)
    requires 0 <= d < 16
    ensures HexDigit(c) == Some(d)
  {
    if d < 10 then ('0' as int + d) as char else ('A' as int + d - 10) as char
  }

  /** Characters form encoding leaves as they are. */
  predicate Unreserved(c: char) {
    'a' <= c <= 'z' || 'A' <= c <= 'Z' || '0' <= c <= '9' || c == '.' || c == '-' || c == '*' || c == '_'
  }

  predicate IsAscii(s: string) {
    forall i :: 0 <= i < |s| ==> (s[i] as int) < 128
  }

  /** One character in `application/x-www-form-urlencoded` form: kept, '+' for space, else `%XY`. */
  function EncodeChar(c: char): (e: string)
    requires (c as int) < 128
  {
    if Unreserved(c) then [c]
    else if c == ' ' then "+"
    else ['%', HexChar(c as int / 16), HexChar(c as int % 16)]
  }

  /** `URLEncoder.encode` on ASCII text. */
  function FormEncode(s: string): (e: string)
    requires IsAscii(s)
    ensures forall k :: 0 <= k < |e| ==> !IsDelimiter(e[k]) && e[k] != '='
  {
    if s == [] then []
    else EncodeChar(s[0]) + FormEncode(s[1..])
  }

  /** What `put` does to a name or a value: '+' to space, then `unescape`. */
  function FormDecode(s: string): Option<string> {
    Unescaped(Replace(s, '+', ' '))
  }

  /** Text of unreserved characters is its own form encoding. */
  lemma {:induction false} EncodeUnreserved(s: string)
    requires forall k :: 0 <= k < |s| ==> Unreserved(s[k])
    ensures IsAscii(s) && FormEncode(s) == s
  {
    if s != [] {
      EncodeUnreserved(s[1..]);
      assert [s[0]] + s[1..] == s;
    }
  }

  /** Text without '%' decodes to itself with '+' turned into spaces. */
  lemma RawDecode(s: string)
    requires forall k :: 0 <= k < |s| ==> s[k] != '%'
    ensures FormDecode(s) == Some(Replace(s, '+', ' '))
  {
    var r := Replace(s, '+', ' ');
    UnescapedPlain(r, []);
    assert r + [] == r;
  }

  /** Replacing characters commutes with concatenation. */
  lemma ReplaceAppend(a: string, b: string, x: char, y: char)
    ensures Replace(a + b, x, y) == Replace(a, x, y) + Replace(b, x, y)
  {
  }

  /** An escape made of the two hex digits of an ASCII code decodes to that character. */
  lemma EscapeOfHex(c: char)
    requires (c as int) < 128
    ensures EscapeChar([HexChar(c as int / 16), HexChar(c as int % 16)]) == c
  {
    var h, l := c as int / 16, c as int % 16;
    assert ParseHex([HexChar(h), HexChar(l)]) == Some(16 * h + l);
  }

  /** Decoding the encoding of an ASCII character gives the character back, in front of the rest. */
  lemma DecodeChar(c: char, rest: string)
    requires (c as int) < 128
    ensures Unescaped(Replace(EncodeChar(c), '+', ' ') + rest) == Prefix([c], Unescaped(rest))
  {
    var e := Replace(EncodeChar(c), '+', ' ');
    if Unreserved(c) || c == ' ' {
      assert e == [c];
      UnescapedPlain([c], rest);
    } else {
      var x, y := HexChar(c as int / 16), HexChar(c as int % 16);
      assert e == ['%', x, y];
      UnescapedEscape(x, y, rest);
      EscapeOfHex(c);
    }
  }

  /** Form decoding undoes form encoding: names and values arrive as the client meant them. */
  lemma {:induction false} FormRoundTrip(s: string)
    requires IsAscii(s)
    ensures FormDecode(FormEncode(s)) == Some(s)
  {
    if s != [] {
      FormRoundTrip(s[1..]);
      ReplaceAppend(EncodeChar(s[0]), FormEncode(s[1..]), '+', ' ');
      DecodeChar(s[0], Replace(FormEncode(s[1..]), '+', ' '));
      assert [s[0]] + s[1..] == s;
    }
  }

  // ---------------------------------------------------------------------
  // Tokens and the form table.
  // ---------------------------------------------------------------------

  predicate IsDelimiter(c: char) {
    c == '&' || c == '\n'
  }

  /** A token: non-empty, without a delimiter. */
  predicate IsToken(t: string) {
    t != [] && forall k :: 0 <= k < |t| ==> !IsDelimiter(t[k])
  }

  /** The position of the first delimiter in s, or |s| if there is none. */
  function DelimiterAt(s: string): (i: nat)
    ensures i <= |s| && (i < |s| ==> IsDelimiter(s[i]))
    ensures forall k :: 0 <= k < i ==> !IsDelimiter(s[k])
    ensures (forall k :: 0 <= k < |s| ==> !IsDelimiter(s[k])) ==> i == |s|
  {
    if s == [] || IsDelimiter(s[0]) then 0 else 1 + DelimiterAt(s[1..])
  }

  /** `new StringTokenizer(s, "&\n")`: the maximal non-empty runs without a delimiter, in order. */
  function Tokens(s: string): (ts: seq<string>)
    decreases |s|
  {
    var i := DelimiterAt(s);
    var first := if i == 0 then [] else [s[..i]];
    if i == |s| then first else first + Tokens(s[i + 1..])
  }

  /** A position before which there is no delimiter and at which there is one (or the end) is the first delimiter. */
  lemma DelimiterAtIs(s: string, i: nat)
    requires i <= |s| && (i < |s| ==> IsDelimiter(s[i]))
    requires forall k :: 0 <= k < i ==> !IsDelimiter(s[k])
    ensures DelimiterAt(s) == i
  {
  }

  /** Appending a delimiter and more text leaves the first delimiter of a where it was, or puts it at |a|. */
  lemma DelimiterBeforeCut(a: string, d: char, b: string)
    requires IsDelimiter(d)
    ensures DelimiterAt(a + [d] + b) == DelimiterAt(a)
  {
    var s := a + [d] + b;
    var i := DelimiterAt(a);
    forall k | 0 <= k < i ensures !IsDelimiter(s[k]) {
      assert s[k] == a[k];
    }
    assert IsDelimiter(s[i]) by {
      if i < |a| { assert s[i] == a[i]; }
    }
    DelimiterAtIs(s, i);
  }

  /** The tokens of a text whose first delimiter is at i: the run before it, if any, then the tokens after it. */
  lemma TokensAt(s: string, i: nat)
    requires i < |s| && DelimiterAt(s) == i
    ensures Tokens(s) == (if i == 0 then [] else [s[..i]]) + Tokens(s[i + 1..])
  {
  }

  /** Every token is non-empty and free of delimiters. */
  lemma {:induction false} TokensAreTokens(s: string)
    ensures forall t :: t in Tokens(s) ==> IsToken(t)
    decreases |s|
  {
    var i := DelimiterAt(s);
    var first := if i == 0 then [] else [s[..i]];
    if i > 0 {
      forall k | 0 <= k < i ensures !IsDelimiter(s[..i][k]) {
        assert s[..i][k] == s[k];
      }
      assert IsToken(s[..i]);
    }
    if i < |s| {
      var rest := Tokens(s[i + 1..]);
      assert Tokens(s) == first + rest;
      TokensAreTokens(s[i + 1..]);
      forall t | t in Tokens(s) ensures IsToken(t) {
        if t !in first {
          assert t in rest;
        }
      }
    }
  }

  /** A delimiter-free non-empty text is one token. */
  lemma TokensOfWord(a: string)
    requires IsToken(a)
    ensures Tokens(a) == [a]
  {
    assert DelimiterAt(a) == |a|;
    assert a[..|a|] == a;
  }

  /** A delimiter between two delimiter-free, non-empty texts separates two tokens. */
  lemma TokensOfPair(a: string, d: char, b: string)
    requires IsToken(a) && IsToken(b) && IsDelimiter(d)
    ensures Tokens(a + [d] + b) == [a, b]
  {
    var s := a + [d] + b;
    assert DelimiterAt(s) == |a| by {
      assert IsDelimiter(s[|a|]);
      forall k | 0 <= k < |a| ensures !IsDelimiter(s[k]) {
        assert s[k] == a[k];
      }
    }
    assert s[..|a|] == a && s[|a| + 1..] == b;
    TokensOfWord(b);
  }

  /**
   * Cutting at any delimiter: the tokens of the text before it, then those of
   * the text after it. Empty runs (a leading or trailing delimiter, or two in
   * a row) contribute no token.
   */
  lemma {:induction false} TokensSplit(a: string, d: char, b: string)
    requires IsDelimiter(d)
    ensures Tokens(a + [d] + b) == Tokens(a) + Tokens(b)
    decreases |a|
  {
    var i := DelimiterAt(a);
    if i < |a| {
      TokensSplit(a[i + 1..], d, b);
      TokensSplitStep(a, d, b, i);
    } else {
      TokensSplitLast(a, d, b);
    }
  }

  /** TokensSplit when a holds a delimiter at i, given the split of the text after it. */
  lemma TokensSplitStep(a: string, d: char, b: string, i: nat)
    requires IsDelimiter(d) && i < |a| && DelimiterAt(a) == i
    requires Tokens(a[i + 1..] + [d] + b) == Tokens(a[i + 1..]) + Tokens(b)
    ensures Tokens(a + [d] + b) == Tokens(a) + Tokens(b)
  {
    var s := a + [d] + b;
    var first := if i == 0 then [] else [a[..i]];
    DelimiterBeforeCut(a, d, b);
    CutInside(a, d, b, i);
    TokensAt(s, i);
    TokensAt(a, i);
    Regrouped(first, Tokens(a[i + 1..]), Tokens(b));
  }

  /** Cutting a + [d] + b at a position i inside a. */
  lemma CutInside(a: string, d: char, b: string, i: nat)
    requires i < |a|
    ensures (a + [d] + b)[..i] == a[..i]
    ensures (a + [d] + b)[i + 1..] == a[i + 1..] + [d] + b
  {
  }

  /** Token lists concatenate associatively. */
  lemma Regrouped(p: seq<string>, q: seq<string>, r: seq<string>)
    ensures p + (q + r) == (p + q) + r
  {
  }

  /** TokensSplit when a holds no delimiter: a's run, if any, then the tokens of b. */
  lemma TokensSplitLast(a: string, d: char, b: string)
    requires IsDelimiter(d) && DelimiterAt(a) == |a|
    ensures Tokens(a + [d] + b) == Tokens(a) + Tokens(b)
  {
    var s := a + [d] + b;
    var i := |a|;
    DelimiterBeforeCut(a, d, b);
    assert s[..i] == a[..i] == a;
    assert s[i + 1..] == b;
    TokensAt(s, i);
  }

  /** "&&t\n": the empty runs around and between delimiters are skipped. */
  lemma EmptyTokensSkipped(d1: char, d2: char, t: string)
    requires IsDelimiter(d1) && IsDelimiter(d2) && IsToken(t)
    ensures Tokens([d1, d1] + t + [d2]) == [t]
  {
    TokensSplit([], d1, [d1] + t + [d2]);
    TokensSplit([], d1, t + [d2]);
    TokensSplit(t, d2, []);
    TokensOfWord(t);
    assert [d1, d1] + t + [d2] == [] + [d1] + ([d1] + t + [d2]);
    assert [d1] + t + [d2] == [] + [d1] + (t + [d2]);
    assert t + [d2] == t + [d2] + [];
  }

  /**
   * What `put` makes of the table m for one token: unchanged when the first
   * '=' is missing or leads the token, None when a name or value fails to
   * decode, and otherwise m with the decoded name mapped to the decoded
   * value.
   */
  function Stored(m: map<string, string>, s: string): Option<map<string, string>> {
    var t := Replace(s, '+', ' ');
    var eq := IndexOf(t, '=');
    if eq <= 0 then Some(m)
    else
      match (Unescaped(t[..eq]), Unescaped(t[eq + 1..]))
      case (Some(key), Some(value)) => Some(m[key := value])
      case _ => None
  }

  /** The table after `put` on each token in turn, or None if one of them throws. */
  function Parsed(m: map<string, string>, tokens: seq<string>): Option<map<string, string>>
    decreases |tokens|
  {
    if tokens == [] then Some(m)
    else
      match Stored(m, tokens[0])
      case None => None
      case Some(m') => Parsed(m', tokens[1..])
  }

  /** What `parseQuery` makes of m: a null input makes the tokenizer throw. */
  function ParsedQuery(m: map<string, string>, input: Option<string>): Option<map<string, string>> {
    match input
    case None => None
    case Some(s) => Parsed(m, Tokens(s))
  }

  /** `put` on the tokens of t1 and then on those of t2 is `put` on all of them in order; a throw stops the rest. */
  lemma {:induction false} ParsedAppend(m: map<string, string>, t1: seq<string>, t2: seq<string>)
    ensures Parsed(m, t1 + t2) == match Parsed(m, t1) case None => None case Some(m1) => Parsed(m1, t2)
    decreases |t1|
  {
    if t1 == [] {
      assert t1 + t2 == t2;
    } else {
      assert (t1 + t2)[0] == t1[0] && (t1 + t2)[1..] == t1[1..] + t2;
      match Stored(m, t1[0])
      case None =>
      case Some(m') => ParsedAppend(m', t1[1..], t2);
    }
  }

  /**
   * `parseQuery` on text cut at any delimiter: the pairs before it are put
   * first, then those after it, into the resulting table.
   */
  lemma ParsedQuerySplit(m: map<string, string>, a: string, d: char, b: string)
    requires IsDelimiter(d)
    ensures ParsedQuery(m, Some(a + [d] + b))
         == match ParsedQuery(m, Some(a)) case None => None case Some(m1) => ParsedQuery(m1, Some(b))
  {
    TokensSplit(a, d, b);
    ParsedAppend(m, Tokens(a), Tokens(b));
  }

  /** A token `name=value` with a non-empty name free of '=' stores the decoded pair, whatever the value holds. */
  lemma StoredPair(m: map<string, string>, name: string, value: string)
    requires name != [] && '=' !in name
    ensures FormDecode(name).Some? && FormDecode(value).Some? ==>
      Stored(m, name + "=" + value) == Some(m[FormDecode(name).value := FormDecode(value).value])
    ensures FormDecode(name).None? || FormDecode(value).None? ==> Stored(m, name + "=" + value) == None
  {
    var s := name + "=" + value;
    ReplaceAppend(name + "=", value, '+', ' ');
    ReplaceAppend(name, "=", '+', ' ');
    var t := Replace(s, '+', ' ');
    var rn := Replace(name, '+', ' ');
    assert t == rn + "=" + Replace(value, '+', ' ');
    assert IndexOf(t, '=') == |name| by {
      assert t[|name|] == '=';
      forall k | 0 <= k < |name| ensures t[k] != '=' {
        assert t[k] == rn[k];
        assert name[k] != '=';
      }
    }
    assert t[..|name|] == rn && t[|name| + 1..] == Replace(value, '+', ' ');
  }

  /** A token whose first '=' is missing or leads it leaves the table as it was. */
  lemma StoredNothing(m: map<string, string>, s: string)
    requires IndexOf(Replace(s, '+', ' '), '=') <= 0
    ensures Stored(m, s) == Some(m)
  {
  }

  /** '+' turns into a space before escapes are decoded. */
  lemma PlusIsSpace()
    ensures FormDecode("+") == Some(" ")
  {
    assert Replace("+", '+', ' ') == " ";
    UnescapedPlain(" ", []);
    assert " " + [] == " ";
  }

  /** "%2B" decodes to '+' itself, so an escaped '+' survives. */
  lemma EscapedPlus()
    ensures FormDecode("%2B") == Some("+")
  {
    assert Replace("%2B", '+', ' ') == ['%', '2', 'B'] + [];
    UnescapedEscape('2', 'B', []);
    assert HexDigit('2') == Some(2) && HexDigit('B') == Some(11);
    assert ParseHex("2B") == Some(43);
    assert EscapeChar("2B") == '+';
    assert [EscapeChar("2B")] + [] == "+";
  }

  /**
   * Two tokens `name=value` in a row, each with a non-empty name free of
   * '=': the table gains both decoded pairs, the second winning when the
   * names decode alike.
   */
  lemma ParsedPairs(m: map<string, string>, n1: string, x1: string, n2: string, x2: string)
    requires n1 != [] && '=' !in n1 && n2 != [] && '=' !in n2
    requires FormDecode(n1).Some? && FormDecode(x1).Some? && FormDecode(n2).Some? && FormDecode(x2).Some?
    ensures Parsed(m, [n1 + "=" + x1, n2 + "=" + x2])
         == Some(m[FormDecode(n1).value := FormDecode(x1).value][FormDecode(n2).value := FormDecode(x2).value])
  {
    StoredPair(m, n1, x1);
    var m1 := m[FormDecode(n1).value := FormDecode(x1).value];
    StoredPair(m1, n2, x2);
    var m2 := m1[FormDecode(n2).value := FormDecode(x2).value];
    assert Parsed(m1, [n2 + "=" + x2]) == Some(m2) by {
      assert [n2 + "=" + x2][1..] == [];
    }
    assert [n1 + "=" + x1, n2 + "=" + x2][1..] == [n2 + "=" + x2];
  }

  /** A later pair with the same name overwrites the earlier one. */
  lemma Overwrites(m: map<string, string>, name: string, v1: string, v2: string)
    requires name != [] && '=' !in name
    requires FormDecode(name).Some? && FormDecode(v1).Some? && FormDecode(v2).Some?
    ensures Parsed(m, [name + "=" + v1, name + "=" + v2]) == Some(m[FormDecode(name).value := FormDecode(v2).value])
  {
    ParsedPairs(m, name, v1, name, v2);
    var k := FormDecode(name).value;
    assert m[k := FormDecode(v1).value][k := FormDecode(v2).value] == m[k := FormDecode(v2).value];
  }

  /** Text of delimiter-free characters other than '=' with a name in front is one token. */
  lemma PairIsToken(name: string, value: string)
    requires name != [] && forall k :: 0 <= k < |name| ==> !IsDelimiter(name[k])
    requires forall k :: 0 <= k < |value| ==> !IsDelimiter(value[k])
    ensures IsToken(name + "=" + value)
  {
    var t := name + "=" + value;
    forall k | 0 <= k < |t| ensures !IsDelimiter(t[k]) {
      if k < |name| { assert t[k] == name[k]; }
      else if k > |name| { assert t[k] == value[k - |name| - 1]; }
    }
  }

  /** Two pairs joined by '&' are two tokens. */
  lemma TokensOfTwoPairs(e1: string, x1: string, e2: string, x2: string)
    requires e1 != [] && e2 != []
    requires forall k :: 0 <= k < |e1| ==> !IsDelimiter(e1[k])
    requires forall k :: 0 <= k < |x1| ==> !IsDelimiter(x1[k])
    requires forall k :: 0 <= k < |e2| ==> !IsDelimiter(e2[k])
    requires forall k :: 0 <= k < |x2| ==> !IsDelimiter(x2[k])
    ensures Tokens(e1 + "=" + x1 + "&" + e2 + "=" + x2) == [e1 + "=" + x1, e2 + "=" + x2]
  {
    PairIsToken(e1, x1);
    PairIsToken(e2, x2);
    assert e1 + "=" + x1 + "&" + e2 + "=" + x2 == (e1 + "=" + x1) + ['&'] + (e2 + "=" + x2);
    TokensOfPair(e1 + "=" + x1, '&', e2 + "=" + x2);
  }

  /** Form encoding of non-empty text is non-empty and never holds '='. */
  lemma EncodedName(n: string)
    requires IsAscii(n) && n != []
    ensures FormEncode(n) != [] && '=' !in FormEncode(n)
  {
    assert EncodeChar(n[0]) != [];
    var e := FormEncode(n);
    assert forall k :: 0 <= k < |e| ==> e[k] != '=';
  }

  /**
   * A query of two form-encoded pairs joined by '&' fills an empty table
   * with exactly the two pairs, as the client meant them.
   */
  lemma ParsedTwoPairs(n1: string, v1: string, n2: string, v2: string)
    requires IsAscii(n1) && IsAscii(v1) && IsAscii(n2) && IsAscii(v2) && n1 != [] && n2 != []
    ensures ParsedQuery(map[], Some(FormEncode(n1) + "=" + FormEncode(v1) + "&" + FormEncode(n2) + "=" + FormEncode(v2)))
         == Some(map[n1 := v1, n2 := v2])
  {
    EncodedName(n1);
    EncodedName(n2);
    TokensOfTwoPairs(FormEncode(n1), FormEncode(v1), FormEncode(n2), FormEncode(v2));
    FormRoundTrip(n1);
    FormRoundTrip(v1);
    FormRoundTrip(n2);
    FormRoundTrip(v2);
    ParsedPairs(map[], FormEncode(n1), FormEncode(v1), FormEncode(n2), FormEncode(v2));
  }

  /** A field name a form sends as it is: non-empty, of unreserved characters only. */
  predicate PlainName(n: string) {
    n != [] && forall k :: 0 <= k < |n| ==> Unreserved(n[k])
  }

  /** A plain name decodes to itself and holds neither '=' nor a delimiter. */
  lemma PlainNameDecodes(n: string)
    requires PlainName(n)
    ensures FormDecode(n) == Some(n)
    ensures '=' !in n && forall k :: 0 <= k < |n| ==> !IsDelimiter(n[k])
  {
    EncodeUnreserved(n);
    FormRoundTrip(n);
    assert forall k :: 0 <= k < |n| ==> n[k] != '=';
  }

  /** Two plain names with form-encoded values fill an empty table with exactly the two pairs. */
  lemma ParsedTwoFields(n1: string, v1: string, n2: string, v2: string)
    requires PlainName(n1) && PlainName(n2) && IsAscii(v1) && IsAscii(v2)
    ensures ParsedQuery(map[], Some(n1 + "=" + FormEncode(v1) + "&" + n2 + "=" + FormEncode(v2)))
         == Some(map[n1 := v1, n2 := v2])
  {
    EncodeUnreserved(n1);
    EncodeUnreserved(n2);
    ParsedTwoPairs(n1, v1, n2, v2);
  }

  /**
   * Two plain names with values sent as they are: values without '%' or a
   * delimiter arrive with each '+' turned into a space.
   */
  lemma RawTwoFields(n1: string, x1: string, n2: string, x2: string)
    requires PlainName(n1) && PlainName(n2)
    requires forall k :: 0 <= k < |x1| ==> x1[k] != '%' && !IsDelimiter(x1[k])
    requires forall k :: 0 <= k < |x2| ==> x2[k] != '%' && !IsDelimiter(x2[k])
    ensures ParsedQuery(map[], Some(n1 + "=" + x1 + "&" + n2 + "=" + x2))
         == Some(map[n1 := Replace(x1, '+', ' '), n2 := Replace(x2, '+', ' ')])
  {
    PlainNameDecodes(n1);
    PlainNameDecodes(n2);
    TokensOfTwoPairs(n1, x1, n2, x2);
    RawDecode(x1);
    RawDecode(x2);
    ParsedPairs(map[], n1, x1, n2, x2);
  }

  /** `Hashtable.get` on a table: the value stored for key, or None. */
  function Lookup(m: map<string, string>, key: string): (r: Option<string>)
    ensures r.Some? <==> key in m
    ensures r.Some? ==> r.value == m[key]
  {
    if key in m then Some(m[key]) else None
  }

  /** The form table of the CGI program. */
  class CgiApp {
    var formInput: map<string, string>

    /** The table starts empty; `parseQuery` fills it. */
    constructor ()
      ensures formInput == map[]
    {
      formInput := map[];
    }

    /**
     * `put`: store the pair of one token. `ok` is false when decoding throws,
     * in which case the table is as it was.
     */
    method Put(s: string) returns (ok: bool)
      modifies this
      ensures Stored(old(formInput), s) == if ok then Some(formInput) else None
      ensures !ok ==> formInput == old(formInput)
    {
      var t := Replace(s, '+', ' ');
      var equalSignPos := IndexOf(t, '=');
      if equalSignPos > 0 {
        var key := Unescape(t[..equalSignPos]);
        if key.None? {
          return false;
        }
        var value := Unescape(t[equalSignPos + 1..]);
        if value.None? {
          return false;
        }
        formInput := formInput[key.value := value.value];
      }
      return true;
    }

    /**
     * The tokenizing loop of `parseQuery`: `put` on every token of the input
     * in order. `ok` is false when the input is null or one of the tokens
     * throws; the tokens after it are never stored.
     */
    method ParseQuery(input: Option<string>) returns (ok: bool)
      modifies this
      ensures ParsedQuery(old(formInput), input) == if ok then Some(formInput) else None
    {
      if input.None? {
        return false;
      }
      var tokens := Tokens(input.value);
      var i := 0;
      while i < |tokens|
        invariant 0 <= i <= |tokens|
        invariant Parsed(old(formInput), tokens) == Parsed(formInput, tokens[i..])
      {
        assert tokens[i..][1..] == tokens[i + 1..];
        ok := Put(tokens[i]);
        if !ok {
          return;
        }
        i := i + 1;
      }
      ok := true;
    }

    /** `get`: the value stored for key, or null (None) when there is none. */
    function Get(key: string): (r: Option<string>)
      reads this
      ensures r.Some? <==> key in formInput
      ensures r.Some? ==> r.value == formInput[key]
    {
      Lookup(formInput, key)
    }

    /** `getCheckbox`: whether a value was stored for key. */
    function GetCheckbox(key: string): (r: bool)
      reads this
      ensures r <==> Get(key).Some?
    {
      Get(key) != None
    }
  }
}
