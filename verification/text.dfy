/**
  Text helpers used by the issuance workflow: Python's `str.strip()`, the
  subset of `int()` the program relies on (an optional sign followed by ASCII
  digits) and `str()` of an integer.
 */
module Text {

  import opened Results

  /** The characters Python's `str.isspace` accepts, which `str.strip()` removes. */
  predicate IsWhitespace(c: char) {
    || ('\t' <= c <= '\r')
    || ('\U{1C}' <= c <= '\U{1F}')
    || c == ' ' || c == '\U{85}' || c == '\U{A0}' || c == '\U{1680}'
    || ('\U{2000}' <= c <= '\U{200A}')
    || c == '\U{2028}' || c == '\U{2029}' || c == '\U{202F}' || c == '\U{205F}' || c == '\U{3000}'
  }

  predicate AllWhitespace(s: string) {
    forall k :: 0 <= k < |s| ==> IsWhitespace(s[k])
  }

  /** Drops leading whitespace: the result is the suffix of `s` that starts at
      its first non-whitespace character. */
  function TrimLeft(s: string): (r: string)
    ensures |r| <= |s| && r == s[|s| - |r|..]
    ensures AllWhitespace(s[..|s| - |r|])
    ensures r != [] ==> !IsWhitespace(r[0])
  {
    if s != [] && IsWhitespace(s[0]) then TrimLeft(s[1..]) else s
  }

  /** Drops trailing whitespace: the result is the prefix of `s` that ends at
      its last non-whitespace character. */
  function TrimRight(s: string): (r: string)
    ensures |r| <= |s| && r == s[..|r|]
    ensures AllWhitespace(s[|r|..])
    ensures r != [] ==> !IsWhitespace(r[|r| - 1])
  {
    if s != [] && IsWhitespace(s[|s| - 1]) then
      var r := TrimRight(s[..|s| - 1]);
      assert s[|r|..] == s[..|s| - 1][|r|..] + [s[|s| - 1]];
      r
    else s
  }

  /** Python's `s.strip()`. */
  function Strip(s: string): (r: string)
    ensures |r| <= |s|
    ensures r != [] ==> !IsWhitespace(r[0]) && !IsWhitespace(r[|r| - 1])
    ensures r == [] <==> AllWhitespace(s)
  {
    var l := TrimLeft(s);
    var r := TrimRight(l);
    assert r == [] ==> AllWhitespace(s) by {
      if r == [] {
        assert s == s[..|s| - |l|] + l;
        assert l == l[|r|..];
      }
    }
    r
  }

  /** Stripping text that has no whitespace at either end gives it back. */
  lemma {:induction false} StripPadded(pre: string, t: string, post: string)
    requires AllWhitespace(pre) && AllWhitespace(post)
    requires t != [] && !IsWhitespace(t[0]) && !IsWhitespace(t[|t| - 1])
    ensures Strip(pre + t + post) == t
  {
    assert pre + t + post == pre + (t + post);
    TrimLeftPadded(pre, t + post);
    TrimRightPadded(t, post);
  }

  lemma {:induction false} TrimLeftPadded(pre: string, t: string)
    requires AllWhitespace(pre)
    requires t != [] && !IsWhitespace(t[0])
    ensures TrimLeft(pre + t) == t
  {
    if pre != [] {
      assert (pre + t)[1..] == pre[1..] + t;
      TrimLeftPadded(pre[1..], t);
    } else {
      assert pre + t == t;
    }
  }

  lemma {:induction false} TrimRightPadded(t: string, post: string)
    requires AllWhitespace(post)
    requires t != [] && !IsWhitespace(t[|t| - 1])
    ensures TrimRight(t + post) == t
  {
    if post != [] {
      var s := t + post;
      assert s[..|s| - 1] == t + post[..|post| - 1];
      TrimRightPadded(t, post[..|post| - 1]);
    } else {
      assert t + post == t;
    }
  }

  predicate IsDigit(c: char) {
    '0' <= c <= '9'
  }

  predicate AllDigits(s: string) {
    forall k :: 0 <= k < |s| ==> IsDigit(s[k])
  }

  function DigitValue(c: char): (d: nat)
    requires IsDigit(c)
    ensures d < 10
  {
    (c as int) - ('0' as int)
  }

  function DigitChar(d: nat): (c: char)
    requires d < 10
    ensures IsDigit(c) && DigitValue(c) == d
  {
    ('0' as int + d) as char
  }

  /** The value of a string of decimal digits, most significant first. */
  function DecimalValue(s: string): nat
    requires AllDigits(s)
  {
    if s == [] then 0 else 10 * DecimalValue(s[..|s| - 1]) + DigitValue(s[|s| - 1])
  }

  /** The grammar accepted by `ParseInt`: an optional `+` or `-` sign followed by
      at least one ASCII digit, with nothing else. */
  predicate IsIntegerLiteral(s: string) {
    if s != [] && (s[0] == '+' || s[0] == '-') then s[1..] != [] && AllDigits(s[1..])
    else s != [] && AllDigits(s)
  }

  /** Python's `int(s)` on text that has already been stripped: `None` stands
      for the `ValueError` it raises. */
  function ParseInt(s: string): (r: Option<int>)
    ensures r.Some? <==> IsIntegerLiteral(s)
    ensures r.Some? && r.value < 0 ==> s[0] == '-'
  {
    if s != [] && (s[0] == '+' || s[0] == '-') then
      var digits := s[1..];
      if digits != [] && AllDigits(digits) then
        var m: int := DecimalValue(digits);
        var v: int := if s[0] == '-' then -m else m;
        Some(v)
      else None
    else if s != [] && AllDigits(s) then Some(DecimalValue(s) as int)
    else None
  }

  /** Python's `str(n)` for a natural number: its shortest decimal spelling. */
  function NatToString(n: nat): (s: string)
    ensures s != [] && AllDigits(s)
    ensures DecimalValue(s) == n
    ensures |s| > 1 ==> s[0] != '0'
    decreases n
  {
    if n < 10 then [DigitChar(n)]
    else
      var prefix := NatToString(n / 10);
      var s := prefix + [DigitChar(n % 10)];
      assert s[..|s| - 1] == prefix;
      s
  }

  /** Python's `str(i)` for any integer. */
  function IntToString(i: int): string {
    if i < 0 then "-" + NatToString(-i) else NatToString(i)
  }

  /** `int(str(i)) == i`: the decimal spelling of an integer parses back to it. */
  lemma IntToStringRoundTrip(i: int)
    ensures ParseInt(IntToString(i)) == Some(i)
  {
    var s := IntToString(i);
    if i < 0 {
      assert s[1..] == NatToString(-i);
    }
  }

  predicate AllZeros(z: string) {
    forall k :: 0 <= k < |z| ==> z[k] == '0'
  }

  /** A run of zeros is worth nothing. */
  lemma {:induction false} ZerosValue(z: string)
    requires AllZeros(z)
    ensures AllDigits(z) && DecimalValue(z) == 0
    decreases |z|
  {
    if z != [] {
      ZerosValue(z[..|z| - 1]);
    }
  }

  /** Leading zeros do not change the value of a string of digits. */
  lemma {:induction false} ZeroPrefixKeepsValue(z: string, d: string)
    requires AllZeros(z) && AllDigits(d)
    ensures AllDigits(z + d) && DecimalValue(z + d) == DecimalValue(d)
    decreases |d|
  {
    ZerosValue(z);
    if d == [] {
      assert z + d == z;
    } else {
      var s := z + d;
      assert s[..|s| - 1] == z + d[..|d| - 1];
      ZeroPrefixKeepsValue(z, d[..|d| - 1]);
    }
  }

  /** Every spelling `int()` accepts reads as its value: an optional sign,
      any number of leading zeros and the shortest spelling of a natural
      number, as in `int("007") == 7`, `int("+3") == 3` and `int("-0") == 0`. */
  lemma PaddedLiteralsRead(z: string, n: nat)
    requires AllZeros(z)
    ensures ParseInt(z + NatToString(n)) == Some(n)
    ensures ParseInt("+" + z + NatToString(n)) == Some(n)
    ensures ParseInt("-" + z + NatToString(n)) == Some(-(n as int))
  {
    var d := z + NatToString(n);
    ZeroPrefixKeepsValue(z, NatToString(n));
    assert d != [] && d[|d| - 1] == NatToString(n)[|NatToString(n)| - 1];
    assert IsDigit(d[0]);
    assert ("+" + z + NatToString(n))[1..] == d;
    assert ("-" + z + NatToString(n))[1..] == d;
  }

  /** The codes "5" and "05" read as the same integer. */
  lemma LeadingZeroExample()
    ensures ParseInt("05") == ParseInt("5") == Some(5)
  {
    PaddedLiteralsRead("0", 5);
    PaddedLiteralsRead("", 5);
    assert NatToString(5) == "5";
    assert "0" + "5" == "05" && "" + "5" == "5";
  }

  /** `int("0") == 0`. */
  lemma ZeroReadsAsZero()
    ensures ParseInt("0") == Some(0)
  {
    assert IntToString(0) == "0";
    IntToStringRoundTrip(0);
  }

  /** The spelling of an integer has no whitespace at either end, so padding
      it and stripping gives it back. */
  lemma IntToStringUnpadded(i: int)
    ensures var s := IntToString(i); s != [] && !IsWhitespace(s[0]) && !IsWhitespace(s[|s| - 1])
  {
    var s := IntToString(i);
    if i < 0 {
      var d := NatToString(-i);
      assert s[|s| - 1] == d[|d| - 1];
    }
  }
}
