/** The pieces of Rust's standard string handling the TaskQuest input forms rely on:
    `str::trim`, `i32::to_string` (and `format!("{}")`) and `str::parse::<i32>`. */
module RustText {
  import opened Models
  import Strings

  const I32Min: int := -0x8000_0000
  const I32Max: int := 0x7FFF_FFFF

  /** `char::is_whitespace`: the Unicode White_Space property. */
  predicate IsWhitespace(c: char) {
    Strings.InClass(c, Strings.UnicodeWhiteSpace)
  }

  /** `str::trim`. */
  function Trim(s: string): (r: string)
    ensures r == [] || (!IsWhitespace(r[0]) && !IsWhitespace(r[|r| - 1]))
    ensures |r| <= |s|
    ensures (forall i :: 0 <= i < |s| ==> IsWhitespace(s[i])) <==> r == []
  {
    EmptyTrimIsBlank(s);
    Strings.TrimBy(s, Strings.UnicodeWhiteSpace)
  }

  lemma EmptyTrimIsBlank(s: string)
    ensures Strings.TrimBy(s, Strings.UnicodeWhiteSpace) == [] ==> forall i :: 0 <= i < |s| ==> IsWhitespace(s[i])
  {
    var t := Strings.TrimStartBy(s, Strings.UnicodeWhiteSpace);
    if Strings.TrimEndBy(t, Strings.UnicodeWhiteSpace) == [] {
      assert t == [];
    }
  }

  predicate IsDigit(c: char) {
    '0' <= c <= '9'
  }

  function DigitChar(d: int): (c: char)
    requires 0 <= d < 10
    ensures IsDigit(c)
  {
    ('0' as int + d) as char
  }

  function DigitValue(c: char): (d: int)
    requires IsDigit(c)
    ensures 0 <= d < 10 && DigitChar(d) == c
  {
    (c as int) - ('0' as int)
  }

  predicate AllDigits(s: string) {
    forall i :: 0 <= i < |s| ==> IsDigit(s[i])
  }

  /** The value of a string of decimal digits, most significant first. */
  function DigitsValue(s: string): (n: nat)
    requires AllDigits(s)
  {
    if s == [] then 0 else 10 * DigitsValue(s[..|s| - 1]) + DigitValue(s[|s| - 1])
  }

  /** The decimal digits of a natural number, without leading zeros. */
  function NatDigits(n: nat): (s: string)
    ensures |s| > 0 && AllDigits(s)
    ensures |s| > 1 ==> s[0] != '0'
    ensures n < 10 <==> |s| == 1
    decreases n
  {
    if n < 10 then [DigitChar(n)] else NatDigits(n / 10) + [DigitChar(n % 10)]
  }

  /** `to_string()` / `format!("{}")` on an integer. */
  function DecimalString(n: int): (s: string)
    ensures |s| > 0
    ensures n >= 0 ==> AllDigits(s)
  {
    if n < 0 then "-" + NatDigits(-n) else NatDigits(n)
  }

  /** `str::parse::<i32>()`: an optional sign, then at least one decimal digit, and the value
      must fit in 32 bits; anything else is an error (None). */
  function ParseI32(s: string): (r: Option<int>)
    ensures r.Some? ==> I32Min <= r.value <= I32Max
    ensures s == [] ==> r == None
    ensures AllDigits(s) && s != [] && DigitsValue(s) <= I32Max ==> r == Some(DigitsValue(s))
  {
    if s == [] then None
    else
      var negative := s[0] == '-';
      var body := if s[0] == '-' || s[0] == '+' then s[1..] else s;
      if body == [] || !AllDigits(body) then None
      else
        var v: int := if negative then -(DigitsValue(body) as int) else DigitsValue(body);
        if I32Min <= v <= I32Max then Some(v) else None
  }

  /** Reading back the digits of a number gives the number. */
  lemma {:induction false} NatDigitsRoundTrip(n: nat)
    ensures DigitsValue(NatDigits(n)) == n
    decreases n
  {
    if n >= 10 {
      var s := NatDigits(n);
      assert s[..|s| - 1] == NatDigits(n / 10);
      assert DigitValue(s[|s| - 1]) == n % 10;
      NatDigitsRoundTrip(n / 10);
    }
  }

  /** Parsing what `to_string` printed gives back every 32-bit integer. */
  lemma ParseDecimalRoundTrip(n: int)
    requires I32Min <= n <= I32Max
    ensures ParseI32(DecimalString(n)) == Some(n)
  {
    var s := DecimalString(n);
    if n < 0 {
      var digits := NatDigits(-n);
      NatDigitsRoundTrip(-n);
      assert s[0] == '-' && s[1..] == digits;
    } else {
      NatDigitsRoundTrip(n);
      assert IsDigit(s[0]);
    }
  }
}
