/**
 * The pieces of Python's string semantics that the cart and the query
 * loader rely on: `str.isspace`, `str.strip`, `int(str)` for base ten,
 * `str(int)`, `str.startswith` and ASCII lower-casing.
 */
module PyText {
  import opened Wrappers

  /** `str.isspace()` for one character; `str.strip()`, `int()` and the
      regular-expression class `\s` all use this set. */
  predicate IsSpace(c: char) {
    || ('\t' <= c <= '\r')               // \t \n \x0b \x0c \r
    || ('\U{1C}' <= c <= ' ')            // \x1c .. \x1f and the space
    || c == '\U{85}' || c == '\U{A0}' || c == '\U{1680}'
    || ('\U{2000}' <= c <= '\U{200A}')
    || c == '\U{2028}' || c == '\U{2029}' || c == '\U{202F}'
    || c == '\U{205F}' || c == '\U{3000}'
  }

  predicate AllSpace(s: string) {
    forall q :: 0 <= q < |s| ==> IsSpace(s[q])
  }

  /** `str.strip()`: `r` is `s` without its leading and trailing
      whitespace, removed one character at a time. */
  function Strip(s: string): (r: string)
    ensures |r| <= |s|
    ensures r == [] <==> AllSpace(s)
    ensures r != [] ==> !IsSpace(r[0]) && !IsSpace(r[|r| - 1])
    decreases |s|
  {
    if s != [] && IsSpace(s[0]) then
      assert forall q :: 0 < q < |s| ==> s[q] == s[1..][q - 1];
      Strip(s[1..])
    else if s != [] && IsSpace(s[|s| - 1]) then
      assert forall q :: 0 <= q < |s| - 1 ==> s[q] == s[..|s| - 1][q];
      Strip(s[..|s| - 1])
    else
      s
  }

  /** `r` sits in `s` at position `i`, with only whitespace around it. */
  predicate TrimmedAt(s: string, r: string, i: nat) {
    && i + |r| <= |s| && s[i..i + |r|] == r
    && AllSpace(s[..i]) && AllSpace(s[i + |r|..])
  }

  /** What `Strip` leaves is a slice of `s` with only whitespace around it. */
  lemma {:induction false} StripIsTrimmed(s: string)
    ensures exists i: nat :: TrimmedAt(s, Strip(s), i)
    decreases |s|
  {
    var r := Strip(s);
    if s != [] && IsSpace(s[0]) {
      var t := s[1..];
      StripIsTrimmed(t);
      var i: nat :| TrimmedAt(t, r, i);
      LeadingSpaceStep(s, r, i);
    } else if s != [] && IsSpace(s[|s| - 1]) {
      var t := s[..|s| - 1];
      StripIsTrimmed(t);
      var i: nat :| TrimmedAt(t, r, i);
      TrailingSpaceStep(s, r, i);
    } else {
      assert s[0..|s|] == s && s[..0] == [] && s[|s|..] == [];
      assert TrimmedAt(s, r, 0);
    }
  }

  /** A whitespace character in front keeps a trimmed slice trimmed. */
  lemma LeadingSpaceStep(s: string, r: string, i: nat)
    requires s != [] && IsSpace(s[0]) && TrimmedAt(s[1..], r, i)
    ensures TrimmedAt(s, r, i + 1)
  {
    var t := s[1..];
    assert s[i + 1..i + 1 + |r|] == t[i..i + |r|];
    assert s[i + 1 + |r|..] == t[i + |r|..];
    var pre := s[..i + 1];
    forall q | 0 <= q < |pre|
      ensures IsSpace(pre[q])
    {
      if q > 0 { assert pre[q] == t[..i][q - 1]; }
    }
  }

  /** A whitespace character at the back keeps a trimmed slice trimmed. */
  lemma TrailingSpaceStep(s: string, r: string, i: nat)
    requires s != [] && IsSpace(s[|s| - 1]) && TrimmedAt(s[..|s| - 1], r, i)
    ensures TrimmedAt(s, r, i)
  {
    var t := s[..|s| - 1];
    assert s[i..i + |r|] == t[i..i + |r|] && s[..i] == t[..i];
    var post := s[i + |r|..];
    forall q | 0 <= q < |post|
      ensures IsSpace(post[q])
    {
      if q < |post| - 1 { assert post[q] == t[i + |r|..][q]; }
    }
  }

  /** An ASCII decimal digit. */
  predicate IsDigit(c: char) {
    '0' <= c <= '9'
  }

  /** A non-empty run of ASCII decimal digits. */
  predicate IsDigits(d: string) {
    |d| > 0 && forall q :: 0 <= q < |d| ==> IsDigit(d[q])
  }

  /** The value of a string of decimal digits, most significant first. */
  function DigitsValue(d: string): (v: nat)
    requires forall q :: 0 <= q < |d| ==> IsDigit(d[q])
  {
    if d == [] then 0
    else
      assert IsDigit(d[|d| - 1]);
      DigitsValue(d[..|d| - 1]) * 10 + (d[|d| - 1] as int - '0' as int)
  }

  /**
   * `int(s)` with base ten: surrounding whitespace is ignored, then an
   * optional sign and at least one digit; anything else is the
   * `ValueError` that Python raises, here `None`.
   */
  function ParseInt(s: string): (r: Option<int>)
    decreases |s|
  {
    if s != [] && IsSpace(s[0]) then ParseInt(s[1..])
    else if s != [] && IsSpace(s[|s| - 1]) then ParseInt(s[..|s| - 1])
    else ParseNumeral(s)
  }

  /** `int()` strips its argument before reading the numeral. */
  lemma {:induction false} ParseIntStrips(s: string)
    ensures ParseInt(s) == ParseNumeral(Strip(s))
    decreases |s|
  {
    if s != [] && IsSpace(s[0]) {
      ParseIntStrips(s[1..]);
    } else if s != [] && IsSpace(s[|s| - 1]) {
      ParseIntStrips(s[..|s| - 1]);
    }
  }

  /** An optional sign and at least one digit, with nothing around them. */
  function ParseNumeral(t: string): (r: Option<int>)
    ensures r.Some? ==> |t| > 0 && IsDigit(t[|t| - 1])
  {
    if |t| > 0 && (t[0] == '-' || t[0] == '+') then
      if IsDigits(t[1..]) then
        var magnitude: int := DigitsValue(t[1..]);
        Some(if t[0] == '-' then -magnitude else magnitude)
      else None
    else if IsDigits(t) then Some(DigitsValue(t))
    else None
  }

  function DigitChar(n: nat): (c: char)
    requires n < 10
    ensures IsDigit(c) && c as int - '0' as int == n
  {
    (n + '0' as int) as char
  }

  /** `str(n)` of a non-negative integer: decimal, no leading zeros. */
  function NatToString(n: nat): (s: string)
    ensures IsDigits(s)
    ensures |s| > 1 ==> s[0] != '0'
    decreases n
  {
    if n < 10 then [DigitChar(n)]
    else
      var s := NatToString(n / 10) + [DigitChar(n % 10)];
      assert forall q :: 0 <= q < |s| - 1 ==> s[q] == NatToString(n / 10)[q];
      assert s[0] == NatToString(n / 10)[0];
      s
  }

  /** `str(n)` of an integer. */
  function IntToString(n: int): (s: string)
    ensures |s| > 0 && s[0] != '+' && IsDigit(s[|s| - 1])
    ensures s[0] == '-' <==> n < 0
  {
    if n < 0 then "-" + NatToString(-n) else NatToString(n)
  }

  /** After an optional `-`, `str(n)` is decimal digits with no leading
      zero: the canonical spelling of `n`. */
  lemma IntToStringCanonical(n: int)
    ensures var s := IntToString(n);
            var d := if n < 0 then s[1..] else s;
            IsDigits(d) && (|d| > 1 ==> d[0] != '0')
  {
  }

  lemma {:induction false} NatToStringValue(n: nat)
    ensures DigitsValue(NatToString(n)) == n
    decreases n
  {
    var s := NatToString(n);
    if n >= 10 {
      NatToStringValue(n / 10);
      assert s[..|s| - 1] == NatToString(n / 10);
    }
  }

  /** `int(str(n)) == n`: the decimal rendering parses back to the number. */
  lemma ParseIntToString(n: int)
    ensures ParseInt(IntToString(n)) == Some(n)
  {
    var s := IntToString(n);
    assert !IsSpace(s[0]) && !IsSpace(s[|s| - 1]);
    StripUnspaced(s);
    if n < 0 {
      assert s[1..] == NatToString(-n);
      NatToStringValue(-n);
    } else {
      NatToStringValue(n);
    }
  }

  /** `str` of an integer is one-to-one, since `int` undoes it. */
  lemma IntToStringInjective()
    ensures forall a: int, b: int :: IntToString(a) == IntToString(b) ==> a == b
  {
    forall a: int, b: int | IntToString(a) == IntToString(b)
      ensures a == b
    {
      ParseIntToString(a);
      ParseIntToString(b);
    }
  }

  /** A string that neither starts nor ends with whitespace is its own strip. */
  lemma StripUnspaced(s: string)
    requires s != [] && !IsSpace(s[0]) && !IsSpace(s[|s| - 1])
    ensures Strip(s) == s
  {
  }

  /** `s.startswith(prefix)`. */
  predicate StartsWith(s: string, prefix: string) {
    |prefix| <= |s| && s[..|prefix|] == prefix
  }

  /** `c.lower()` for an ASCII letter; other characters are kept. */
  function LowerChar(c: char): (l: char) {
    if 'A' <= c <= 'Z' then (c as int + 32) as char else c
  }

  /** `s.lower()`, ASCII letters only. */
  function Lower(s: string): (r: string)
    ensures |r| == |s|
    ensures forall q :: 0 <= q < |s| ==> r[q] == LowerChar(s[q])
  {
    seq(|s|, q requires 0 <= q < |s| => LowerChar(s[q]))
  }
}
