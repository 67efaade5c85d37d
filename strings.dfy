/** String operations the three renderers share, each one a Python built-in:
    str.replace for a single character, str.rstrip for a single character,
    "".join and " ".join, str() of an integer, and html.escape(s, quote=False)
    followed by the double-quote substitution used for attribute values. */
module Strings {

  /** A Result in the style of the source's exceptions: either a value or the error raised. */
  datatype Result<+T, +E> = Ok(value: T) | Err(error: E)

  datatype Option<+T> = None | Some(value: T)

  // ---------------------------------------------------------------------------
  // Characters

  predicate IsAsciiChar(c: char) {
    c as int < 128
  }

  /** str.isascii(): every character is below code point 128 (true of ""). */
  predicate IsAscii(s: string) {
    forall i :: 0 <= i < |s| ==> IsAsciiChar(s[i])
  }

  /** An ASCII letter or digit: what str.isalnum() accepts among ASCII characters. */
  predicate IsAsciiAlnum(c: char) {
    ('a' <= c <= 'z') || ('A' <= c <= 'Z') || ('0' <= c <= '9')
  }

  predicate IsDigit(c: char) {
    '0' <= c <= '9'
  }

  // ---------------------------------------------------------------------------
  // str.replace, str.rstrip, str.join

  /** s.replace(c, r) where c is one character. */
  function ReplaceChar(s: string, c: char, r: string): (t: string)
    ensures c !in s ==> t == s
    ensures c !in r ==> c !in t
    ensures forall x :: x in t ==> x in s || x in r
    ensures |r| == 1 ==> |t| == |s| && forall i :: 0 <= i < |s| ==> t[i] == (if s[i] == c then r[0] else s[i])
  {
    if s == [] then [] else (if s[0] == c then r else [s[0]]) + ReplaceChar(s[1..], c, r)
  }

  lemma {:induction false} ReplaceCharAppend(a: string, b: string, c: char, r: string)
    ensures ReplaceChar(a + b, c, r) == ReplaceChar(a, c, r) + ReplaceChar(b, c, r)
  {
    if a != [] {
      assert (a + b)[1..] == a[1..] + b;
      ReplaceCharAppend(a[1..], b, c, r);
    } else {
      assert a + b == b;
    }
  }

  /** s.rstrip(c) where c is one character: every trailing c removed. */
  function RStrip(s: string, c: char): (t: string)
    ensures t <= s
    ensures t == [] || t[|t| - 1] != c
    ensures forall i :: |t| <= i < |s| ==> s[i] == c
  {
    if s != [] && s[|s| - 1] == c then RStrip(s[..|s| - 1], c) else s
  }

  /** Regrouping a concatenation, stated once so that long chains of appends
      can be rebracketed one step at a time. */
  lemma AppendAssociative(a: string, b: string, c: string)
    ensures (a + b) + c == a + (b + c)
  {
  }

  /** "".join(parts) */
  function Concat(parts: seq<string>): (r: string)
    ensures parts != [] ==> StartsWith(r, parts[0])
    ensures forall i :: 0 <= i < |parts| ==> |parts[i]| <= |r|
  {
    if parts == [] then "" else parts[0] + Concat(parts[1..])
  }

  lemma {:induction false} ConcatAppend(a: seq<string>, b: seq<string>)
    ensures Concat(a + b) == Concat(a) + Concat(b)
  {
    if a == [] {
      assert a + b == b;
    } else {
      assert (a + b)[1..] == a[1..] + b;
      ConcatAppend(a[1..], b);
    }
  }

  /** sep.join(parts) */
  function Join(sep: string, parts: seq<string>): (r: string)
    ensures parts != [] ==> StartsWith(r, parts[0])
    ensures |parts| > 1 ==> |r| >= |parts[0]| + |sep|
  {
    if |parts| == 0 then ""
    else if |parts| == 1 then parts[0]
    else parts[0] + sep + Join(sep, parts[1..])
  }

  /** Joining a non-empty list with a separator is the same as writing the
      first item and then the separator before every further item. */
  lemma {:induction false} JoinAsPrefixed(sep: string, parts: seq<string>)
    requires parts != []
    ensures Join(sep, parts) == parts[0] + Concat(seq(|parts| - 1, i requires 0 <= i < |parts| - 1 => sep + parts[i + 1]))
  {
    var rest := seq(|parts| - 1, i requires 0 <= i < |parts| - 1 => sep + parts[i + 1]);
    if |parts| == 1 {
      assert rest == [];
    } else {
      JoinAsPrefixed(sep, parts[1..]);
      var rest' := seq(|parts| - 2, i requires 0 <= i < |parts| - 2 => sep + parts[1..][i + 1]);
      assert rest == [sep + parts[1]] + rest';
      assert rest[1..] == rest';
    }
  }

  // ---------------------------------------------------------------------------
  // str() of an integer and its inverse

  function DigitChar(d: nat): (c: char)
    requires d < 10
    ensures IsDigit(c)
  {
    ('0' as int + d) as char
  }

  function DigitValue(c: char): nat
    requires IsDigit(c)
  {
    c as int - '0' as int
  }

  /** str(n) for n >= 0: decimal digits, no leading zero. */
  function NatToDecimal(n: nat): (t: string)
    ensures t != []
    ensures forall i :: 0 <= i < |t| ==> IsDigit(t[i])
    ensures t[0] == '0' ==> n == 0
  {
    if n < 10 then [DigitChar(n)] else NatToDecimal(n / 10) + [DigitChar(n % 10)]
  }

  /** str(i): a minus sign before the digits of a negative number. */
  function IntToDecimal(i: int): (t: string)
    ensures t != []
    ensures (i < 0) == (t[0] == '-')
    ensures forall k :: 0 <= k < |t| ==> IsDigit(t[k]) || (k == 0 && t[k] == '-')
  {
    if i < 0 then "-" + NatToDecimal(-i) else NatToDecimal(i)
  }

  /** int(s) for a string of decimal digits. */
  function ParseNat(s: string): nat
    requires forall i :: 0 <= i < |s| ==> IsDigit(s[i])
  {
    if s == [] then 0 else ParseNat(s[..|s| - 1]) * 10 + DigitValue(s[|s| - 1])
  }

  /** int(s) for an optionally signed string of decimal digits. */
  function ParseInt(s: string): int
    requires s != []
    requires s[0] == '-' ==> |s| > 1 && forall i :: 1 <= i < |s| ==> IsDigit(s[i])
    requires s[0] != '-' ==> forall i :: 0 <= i < |s| ==> IsDigit(s[i])
  {
    if s[0] == '-' then 0 - ParseNat(s[1..]) as int else ParseNat(s)
  }

  lemma {:induction false} ParseNatToDecimal(n: nat)
    ensures ParseNat(NatToDecimal(n)) == n
  {
    if n >= 10 {
      var t := NatToDecimal(n);
      assert t[..|t| - 1] == NatToDecimal(n / 10);
      ParseNatToDecimal(n / 10);
    }
  }

  /** The decimal text of an integer reads back as that integer. */
  lemma ParseIntToDecimal(i: int)
    ensures ParseInt(IntToDecimal(i)) == i
  {
    if i < 0 {
      assert IntToDecimal(i)[1..] == NatToDecimal(-i);
      ParseNatToDecimal(-i);
    } else {
      ParseNatToDecimal(i);
    }
  }

  /** Two integers have the same decimal text only if they are equal. */
  lemma IntToDecimalInjective(i: int, j: int)
    requires IntToDecimal(i) == IntToDecimal(j)
    ensures i == j
  {
    ParseIntToDecimal(i);
    ParseIntToDecimal(j);
  }

  // ---------------------------------------------------------------------------
  // html.escape(s, quote=False), and the attribute-value quoting of main.py

  /** html.escape(s, quote=False): "&" is replaced first, then "<", then ">". */
  function EscapeText(s: string): (t: string)
    ensures '<' !in t && '>' !in t
  {
    ReplaceChar(ReplaceChar(ReplaceChar(s, '&', "&amp;"), '<', "&lt;"), '>', "&gt;")
  }

  /** The escaped text with every double quote replaced by "&quot;" afterwards. */
  function EscapeAttributeValue(s: string): (t: string)
    ensures '"' !in t && '<' !in t && '>' !in t
  {
    ReplaceChar(EscapeText(s), '"', "&quot;")
  }

  /** What each character becomes under EscapeText. */
  function EscapeChar(c: char): string {
    if c == '&' then "&amp;"
    else if c == '<' then "&lt;"
    else if c == '>' then "&gt;"
    else [c]
  }

  /** What each character becomes under EscapeAttributeValue. */
  function EscapeAttributeChar(c: char): string {
    if c == '"' then "&quot;" else EscapeChar(c)
  }

  function EscapeEach(s: string): string {
    if s == [] then "" else EscapeChar(s[0]) + EscapeEach(s[1..])
  }

  function EscapeAttributeEach(s: string): string {
    if s == [] then "" else EscapeAttributeChar(s[0]) + EscapeAttributeEach(s[1..])
  }

  /** Because "&" is replaced before "<" and ">", the entities inserted by the
      later replacements are never escaped a second time: the three passes act
      as one character-by-character substitution. */
  lemma {:induction false} EscapeTextPerChar(s: string)
    ensures EscapeText(s) == EscapeEach(s)
  {
    if s != [] {
      assert s == [s[0]] + s[1..];
      EscapeTextAppend([s[0]], s[1..]);
      EscapeTextChar(s[0]);
      EscapeTextPerChar(s[1..]);
    }
  }

  lemma EscapeTextAppend(a: string, b: string)
    ensures EscapeText(a + b) == EscapeText(a) + EscapeText(b)
  {
    ReplaceCharAppend(a, b, '&', "&amp;");
    var a1, b1 := ReplaceChar(a, '&', "&amp;"), ReplaceChar(b, '&', "&amp;");
    ReplaceCharAppend(a1, b1, '<', "&lt;");
    ReplaceCharAppend(ReplaceChar(a1, '<', "&lt;"), ReplaceChar(b1, '<', "&lt;"), '>', "&gt;");
  }

  lemma EscapeTextChar(c: char)
    ensures EscapeText([c]) == EscapeChar(c)
  {
    var a := ReplaceChar([c], '&', "&amp;");
    if c == '&' {
      assert a == "&amp;";
    } else {
      assert a == [c];
      var b := ReplaceChar(a, '<', "&lt;");
      if c == '<' {
        assert b == "&lt;";
      } else {
        assert b == [c];
      }
    }
  }

  /** Because the quote substitution runs after html.escape, "&quot;" is never
      escaped again: the two steps act as one character-by-character substitution. */
  lemma {:induction false} EscapeAttributeValuePerChar(s: string)
    ensures EscapeAttributeValue(s) == EscapeAttributeEach(s)
  {
    EscapeTextPerChar(s);
    EscapeEachQuote(s);
  }

  lemma {:induction false} EscapeEachQuote(s: string)
    ensures ReplaceChar(EscapeEach(s), '"', "&quot;") == EscapeAttributeEach(s)
  {
    if s != [] {
      var c := s[0];
      ReplaceCharAppend(EscapeChar(c), EscapeEach(s[1..]), '"', "&quot;");
      assert ReplaceChar(EscapeChar(c), '"', "&quot;") == EscapeAttributeChar(c) by {
        if c == '"' {
          assert EscapeChar(c) == [c];
        } else {
          assert '"' !in EscapeChar(c);
        }
      }
      EscapeEachQuote(s[1..]);
    }
  }

  /** The decimal text of an integer holds no character that escaping changes. */
  lemma EscapeDecimal(i: int)
    ensures EscapeAttributeValue(IntToDecimal(i)) == IntToDecimal(i)
    ensures EscapeText(IntToDecimal(i)) == IntToDecimal(i)
  {
    var t := IntToDecimal(i);
    assert '&' !in t && '<' !in t && '>' !in t && '"' !in t by {
      forall k | 0 <= k < |t| ensures t[k] != '&' && t[k] != '<' && t[k] != '>' && t[k] != '"' {
        assert IsDigit(t[k]) || t[k] == '-';
      }
    }
  }

  /** An HTML reader's decoding of the four entities the escaping produces. */
  function Unescape(t: string): string
    decreases |t|
  {
    if t == [] then ""
    else if t[0] != '&' then [t[0]] + Unescape(t[1..])
    else if StartsWith(t, "&amp;") then "&" + Unescape(t[5..])
    else if StartsWith(t, "&lt;") then "<" + Unescape(t[4..])
    else if StartsWith(t, "&gt;") then ">" + Unescape(t[4..])
    else if StartsWith(t, "&quot;") then "\"" + Unescape(t[6..])
    else "&" + Unescape(t[1..])
  }

  predicate StartsWith(t: string, p: string) {
    |p| <= |t| && t[..|p|] == p
  }

  /** The three pieces of a + b + c can be sliced back out of it. */
  lemma ThreeParts(a: string, b: string, c: string)
    ensures var r := a + b + c;
      && |r| == |a| + |b| + |c|
      && r[..|a|] == a && r[|a|..|r| - |c|] == b && r[|r| - |c|..] == c
  {
    var r := a + b + c;
    assert r[..|a|] == a;
    assert r[|a|..|r| - |c|] == b;
    assert r[|r| - |c|..] == c;
  }

  /** A prefix of a string is a prefix of anything appended to it. */
  lemma StartsWithAppend(t: string, u: string, p: string)
    requires StartsWith(t, p)
    ensures StartsWith(t + u, p)
  {
    assert (t + u)[..|p|] == t[..|p|];
  }

  predicate EndsWith(t: string, p: string) {
    |p| <= |t| && t[|t| - |p|..] == p
  }

  /** str(True) and str(False). */
  function BoolText(b: bool): string {
    if b then "True" else "False"
  }

  lemma UnescapeCons(c: char, rest: string)
    ensures Unescape(EscapeAttributeChar(c) + rest) == [c] + Unescape(rest)
  {
    var e := EscapeAttributeChar(c);
    var t := e + rest;
    assert t[..|e|] == e && t[|e|..] == rest;
    if c == '&' {
      assert StartsWith(t, "&amp;");
    } else if c == '<' {
      assert t[1] == 'l';
      assert !StartsWith(t, "&amp;") by { assert |t| >= 5 ==> t[..5][1] == t[1]; }
      assert StartsWith(t, "&lt;");
    } else if c == '>' {
      assert t[1] == 'g';
      assert !StartsWith(t, "&amp;") by { assert |t| >= 5 ==> t[..5][1] == t[1]; }
      assert !StartsWith(t, "&lt;") by { assert |t| >= 4 ==> t[..4][1] == t[1]; }
      assert StartsWith(t, "&gt;");
    } else if c == '"' {
      assert t[1] == 'q';
      assert !StartsWith(t, "&amp;") by { assert |t| >= 5 ==> t[..5][1] == t[1]; }
      assert !StartsWith(t, "&lt;") by { assert |t| >= 4 ==> t[..4][1] == t[1]; }
      assert !StartsWith(t, "&gt;") by { assert |t| >= 4 ==> t[..4][1] == t[1]; }
      assert StartsWith(t, "&quot;");
    } else {
      assert t[0] == c;
    }
  }

  lemma {:induction false} UnescapeAttributeEach(s: string)
    ensures Unescape(EscapeAttributeEach(s)) == s
  {
    if s != [] {
      UnescapeCons(s[0], EscapeAttributeEach(s[1..]));
      UnescapeAttributeEach(s[1..]);
    }
  }

  lemma {:induction false} UnescapeEach(s: string)
    ensures Unescape(EscapeEach(s)) == s
  {
    if s != [] {
      if s[0] == '"' {
        var t := EscapeChar(s[0]) + EscapeEach(s[1..]);
        assert t[0] == '"' && t[1..] == EscapeEach(s[1..]);
      } else {
        UnescapeCons(s[0], EscapeEach(s[1..]));
      }
      UnescapeEach(s[1..]);
    }
  }

  /** Escaped text decodes back to exactly the original text. */
  lemma EscapeTextRoundTrip(s: string)
    ensures Unescape(EscapeText(s)) == s
  {
    EscapeTextPerChar(s);
    UnescapeEach(s);
  }

  /** An escaped attribute value decodes back to exactly the original value. */
  lemma EscapeAttributeValueRoundTrip(s: string)
    ensures Unescape(EscapeAttributeValue(s)) == s
  {
    EscapeAttributeValuePerChar(s);
    UnescapeAttributeEach(s);
  }
}
