/** Trimming a class of characters off the ends of a string. Rust's `trim`, Python's
    `strip()` and Python's `rstrip(chars)` differ only in the class they remove. */
module Strings {

  /** The classes of characters the trims remove. */
  datatype CharClass =
    | UnicodeWhiteSpace  // Rust's `char::is_whitespace`, the Unicode White_Space property
    | PythonSpace        // Python's `str.isspace`: White_Space plus the separators U+001C..U+001F
    | StripPunct         // the characters of `rstrip('.,!?')`

  /** Whether `c` belongs to the class. */
  predicate InClass(c: char, cls: CharClass) {
    match cls
    case UnicodeWhiteSpace =>
      if c <= ' ' then ('\t' <= c <= '\r') || c == ' '
      else if c < '\U{85}' then false
      else OtherWhiteSpace(c)
    case PythonSpace =>
      if c <= ' ' then ('\t' <= c <= '\r') || ('\U{1C}' <= c)
      else if c < '\U{85}' then false
      else OtherWhiteSpace(c)
    case StripPunct => c == '.' || c == ',' || c == '!' || c == '?'
  }

  /** The White_Space characters above U+0080. */
  predicate OtherWhiteSpace(c: char) {
    || c == '\U{85}' || c == '\U{A0}' || c == '\U{1680}' || ('\U{2000}' <= c <= '\U{200A}')
    || c == '\U{2028}' || c == '\U{2029}' || c == '\U{202F}' || c == '\U{205F}' || c == '\U{3000}'
  }

  /** How many characters at the start of `s` belong to `cls`. */
  function LeadingCount(s: string, cls: CharClass): (n: nat)
    ensures n <= |s|
    ensures forall i :: 0 <= i < n ==> InClass(s[i], cls)
    ensures n == |s| || !InClass(s[n], cls)
    decreases |s|
  {
    if s != [] && InClass(s[0], cls) then 1 + LeadingCount(s[1..], cls) else 0
  }

  /** How many characters at the end of `s` belong to `cls`. */
  function TrailingCount(s: string, cls: CharClass): (n: nat)
    ensures n <= |s|
    ensures forall i :: |s| - n <= i < |s| ==> InClass(s[i], cls)
    ensures n == |s| || !InClass(s[|s| - n - 1], cls)
    decreases |s|
  {
    if s != [] && InClass(s[|s| - 1], cls) then 1 + TrailingCount(s[..|s| - 1], cls) else 0
  }

  /** Drops the longest prefix whose characters all belong to `cls`. */
  function TrimStartBy(s: string, cls: CharClass): (r: string)
    ensures r == [] || !InClass(r[0], cls)
    ensures |r| <= |s| && r == s[|s| - |r|..]
  {
    s[LeadingCount(s, cls)..]
  }

  /** Drops the longest suffix whose characters all belong to `cls`. */
  function TrimEndBy(s: string, cls: CharClass): (r: string)
    ensures r == [] || !InClass(r[|r| - 1], cls)
    ensures |r| <= |s| && r == s[..|r|]
    ensures forall i :: |r| <= i < |s| ==> InClass(s[i], cls)
  {
    s[..|s| - TrailingCount(s, cls)]
  }

  /** Drops both: what is left neither starts nor ends with a character of the class. */
  function TrimBy(s: string, cls: CharClass): (r: string)
    ensures r == [] || (!InClass(r[0], cls) && !InClass(r[|r| - 1], cls))
    ensures |r| <= |s|
  {
    TrimEndBy(TrimStartBy(s, cls), cls)
  }

  /** What the trim keeps is the contiguous piece of `s` that starts after the leading run. */
  lemma TrimByWindow(s: string, cls: CharClass)
    ensures LeadingCount(s, cls) + |TrimBy(s, cls)| <= |s|
    ensures TrimBy(s, cls) == s[LeadingCount(s, cls)..LeadingCount(s, cls) + |TrimBy(s, cls)|]
  {
  }

  /** A string that starts and ends with a kept character is its own trim. */
  lemma TrimByFixed(s: string, cls: CharClass)
    requires s == [] || (!InClass(s[0], cls) && !InClass(s[|s| - 1], cls))
    ensures TrimBy(s, cls) == s
  {
  }

  /** Trimming twice is trimming once. */
  lemma TrimByIdempotent(s: string, cls: CharClass)
    ensures TrimBy(TrimBy(s, cls), cls) == TrimBy(s, cls)
  {
    TrimByFixed(TrimBy(s, cls), cls);
  }

  /** A character outside the class survives the trim: its index lies inside the kept window. */
  lemma KeptWithinTrim(s: string, cls: CharClass, i: int)
    requires 0 <= i < |s| && !InClass(s[i], cls)
    ensures LeadingCount(s, cls) <= i < LeadingCount(s, cls) + |TrimBy(s, cls)|
  {
    var a := LeadingCount(s, cls);
    var t := TrimStartBy(s, cls);
    assert t[i - a] == s[i];
  }

  /** `LeadingCount` is pinned down by where the first kept character is. */
  lemma {:induction false} LeadingCountIs(s: string, cls: CharClass, a: int)
    requires 0 <= a <= |s| && forall i :: 0 <= i < a ==> InClass(s[i], cls)
    requires a == |s| || !InClass(s[a], cls)
    ensures LeadingCount(s, cls) == a
    decreases a
  {
    if a > 0 {
      LeadingCountIs(s[1..], cls, a - 1);
    }
  }

  /** `TrailingCount` is pinned down by where the last kept character is. */
  lemma {:induction false} TrailingCountIs(s: string, cls: CharClass, m: int)
    requires 0 <= m <= |s| && forall i :: |s| - m <= i < |s| ==> InClass(s[i], cls)
    requires m == |s| || !InClass(s[|s| - m - 1], cls)
    ensures TrailingCount(s, cls) == m
    decreases m
  {
    if m > 0 {
      var t := s[..|s| - 1];
      assert forall i :: |t| - (m - 1) <= i < |t| ==> t[i] == s[i];
      TrailingCountIs(t, cls, m - 1);
    }
  }
}
