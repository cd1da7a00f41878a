/** The pieces of Python's `str` the Whisper transcription code relies on: `strip()`,
    `rstrip(chars)`, `lower()`, `endswith`, `startswith`, prefix slicing `s[:n]`, `split(sep)`
    and `sep.join(parts)`. */
module PyText {
  import Strings

  /** `str.isspace` on one character: the characters `strip()` removes by default. */
  predicate PyIsSpace(c: char) {
    Strings.InClass(c, Strings.PythonSpace)
  }

  /** No visible ASCII character is whitespace. */
  lemma VisibleIsNotSpace(c: char)
    requires '!' <= c <= '~'
    ensures !PyIsSpace(c)
  {
  }

  /** `s` neither starts nor ends with whitespace. */
  predicate Stripped(s: string) {
    s == [] || (!PyIsSpace(s[0]) && !PyIsSpace(s[|s| - 1]))
  }

  /** `str.strip()`: what is left neither starts nor ends with whitespace. */
  function Strip(s: string): (r: string)
    ensures Stripped(r)
    ensures |r| <= |s|
  {
    Strings.TrimBy(s, Strings.PythonSpace)
  }

  /** Every character the strip keeps comes from `s`. */
  lemma StripCharsFrom(s: string)
    ensures forall j :: 0 <= j < |Strip(s)| ==> Strip(s)[j] in s
  {
    var r := Strip(s);
    var a := Strings.LeadingCount(s, Strings.PythonSpace);
    forall j | 0 <= j < |r|
      ensures r[j] in s
    {
      assert r[j] == s[a + j];
    }
  }

  /** Every non-whitespace character of `s` survives the strip. */
  lemma StripKeepsNonSpace(s: string, i: int)
    requires 0 <= i < |s| && !PyIsSpace(s[i])
    ensures s[i] in Strip(s)
  {
    Strings.KeptWithinTrim(s, Strings.PythonSpace, i);
    var r := Strip(s);
    assert r[i - Strings.LeadingCount(s, Strings.PythonSpace)] == s[i];
  }

  /** A string with no whitespace at either end is its own strip. */
  lemma StripFixed(s: string)
    requires Stripped(s)
    ensures Strip(s) == s
  {
    Strings.TrimByFixed(s, Strings.PythonSpace);
  }

  /** The strip of `s` is the piece `s[a..b]` when that piece starts and ends with
      non-whitespace and only whitespace lies outside it. */
  lemma StripWindow(s: string, a: int, b: int)
    requires 0 <= a < b <= |s| && !PyIsSpace(s[a]) && !PyIsSpace(s[b - 1])
    requires forall i :: 0 <= i < a ==> PyIsSpace(s[i])
    requires forall i :: b <= i < |s| ==> PyIsSpace(s[i])
    ensures Strip(s) == s[a..b]
  {
    Strings.LeadingCountIs(s, Strings.PythonSpace, a);
    var t := Strings.TrimStartBy(s, Strings.PythonSpace);
    assert t == s[a..];
    Strings.TrailingCountIs(t, Strings.PythonSpace, |s| - b);
  }

  /** One whitespace character in front of a stripped, non-empty string is stripped off. */
  lemma StripAfterSpace(c: char, t: string)
    requires PyIsSpace(c) && t != [] && Stripped(t)
    ensures Strip([c] + t) == t
  {
    var s := [c] + t;
    assert s[1..] == t;
    StripWindow(s, 1, |s|);
  }

  /** When `s` does not start with whitespace, its strip is a prefix of it and only
      whitespace follows that prefix. */
  lemma StripOfLeftStripped(s: string)
    requires s == [] || !PyIsSpace(s[0])
    ensures |Strip(s)| <= |s| && Strip(s) == s[..|Strip(s)|]
    ensures forall i :: |Strip(s)| <= i < |s| ==> PyIsSpace(s[i])
  {
    Strings.LeadingCountIs(s, Strings.PythonSpace, 0);
    assert Strings.TrimStartBy(s, Strings.PythonSpace) == s;
  }

  /** The characters `rstrip('.,!?')` removes. */
  predicate IsStripPunct(c: char) {
    Strings.InClass(c, Strings.StripPunct)
  }

  /** `str.rstrip('.,!?')`: a prefix of `s` not ending in that punctuation, and everything
      after it is that punctuation. */
  function RStripPunct(s: string): (r: string)
    ensures r == [] || !IsStripPunct(r[|r| - 1])
    ensures |r| <= |s| && r == s[..|r|]
    ensures forall i :: |r| <= i < |s| ==> IsStripPunct(s[i])
  {
    Strings.TrimEndBy(s, Strings.StripPunct)
  }

  /** The `rstrip('.,!?')` of `s` is `s[..b]` when `s[b - 1]` is not that punctuation and
      everything after it is. */
  lemma RStripPunctWindow(s: string, b: int)
    requires 0 < b <= |s| && !IsStripPunct(s[b - 1])
    requires forall i :: b <= i < |s| ==> IsStripPunct(s[i])
    ensures RStripPunct(s) == s[..b]
  {
    Strings.TrailingCountIs(s, Strings.StripPunct, |s| - b);
  }

  /** `str.lower()` on one character, for ASCII letters. */
  function LowerChar(c: char): (l: char)
    ensures 'A' <= c <= 'Z' ==> 'a' <= l <= 'z'
    ensures !('A' <= c <= 'Z') ==> l == c
    ensures PyIsSpace(l) <==> PyIsSpace(c)
  {
    if 'A' <= c <= 'Z' then (c as int + 32) as char else c
  }

  /** `str.lower()`, for ASCII letters: same length, lower-cased letter by letter. */
  function Lower(s: string): (r: string)
    ensures |r| == |s|
    ensures forall i :: 0 <= i < |s| ==> r[i] == LowerChar(s[i])
  {
    seq(|s|, i requires 0 <= i < |s| => LowerChar(s[i]))
  }

  /** Lower-casing twice is lower-casing once. */
  lemma LowerIdempotent(s: string)
    ensures Lower(Lower(s)) == Lower(s)
  {
  }

  /** Lower-casing commutes with slicing. */
  lemma LowerSlice(s: string, lo: int, hi: int)
    requires 0 <= lo <= hi <= |s|
    ensures Lower(s[lo..hi]) == Lower(s)[lo..hi]
  {
    var a := Lower(s[lo..hi]);
    var b := Lower(s)[lo..hi];
    forall i | 0 <= i < |a|
      ensures a[i] == b[i]
    {
      assert s[lo..hi][i] == s[lo + i];
    }
  }

  /** Lower-casing a concatenation lower-cases each part. */
  lemma LowerConcat(a: string, b: string)
    ensures Lower(a + b) == Lower(a) + Lower(b)
  {
    var l := Lower(a + b);
    var r := Lower(a) + Lower(b);
    forall i | 0 <= i < |l|
      ensures l[i] == r[i]
    {
      if i < |a| {
        assert (a + b)[i] == a[i];
      } else {
        assert (a + b)[i] == b[i - |a|];
      }
    }
  }

  /** `s` holds no upper-case ASCII letter. */
  predicate NoUpper(s: string) {
    forall i :: 0 <= i < |s| ==> !('A' <= s[i] <= 'Z')
  }

  /** Lower-casing leaves a string without upper-case ASCII letters as it is. */
  lemma LowerOfLowerCase(s: string)
    requires NoUpper(s)
    ensures Lower(s) == s
  {
  }

  /** `s.endswith(suffix)`. */
  predicate EndsWith(s: string, suffix: string) {
    |suffix| <= |s| && s[|s| - |suffix|..] == suffix
  }

  /** `s.startswith(prefix)`. */
  predicate StartsWith(s: string, prefix: string) {
    |prefix| <= |s| && s[..|prefix|] == prefix
  }

  /** `s[:stop]`: a negative `stop` counts from the end, and either kind is clipped to the
      string. */
  function SlicePrefix(s: string, stop: int): (r: string)
    ensures |r| <= |s| && r == s[..|r|]
    ensures 0 <= stop <= |s| ==> |r| == stop
    ensures stop > |s| ==> r == s
    ensures -|s| <= stop < 0 ==> |r| == |s| + stop
    ensures stop < -|s| ==> r == []
  {
    var end := if stop < 0 then (if |s| + stop < 0 then 0 else |s| + stop)
               else (if stop > |s| then |s| else stop);
    s[..end]
  }

  /** `s.split(sep)`: the pieces between occurrences of `sep`, always at least one. */
  function Split(s: string, sep: char): (parts: seq<string>)
    ensures |parts| >= 1
    ensures forall p <- parts :: sep !in p
    decreases |s|
  {
    if s == [] then [[]]
    else
      var rest := Split(s[1..], sep);
      if s[0] == sep then [[]] + rest else [[s[0]] + rest[0]] + rest[1..]
  }

  /** `sep.join(parts)`. */
  function Join(parts: seq<string>, sep: string): (r: string)
    ensures parts == [] ==> r == []
    ensures |parts| == 1 ==> r == parts[0]
    decreases |parts|
  {
    if parts == [] then []
    else if |parts| == 1 then parts[0]
    else parts[0] + sep + Join(parts[1..], sep)
  }

  /** Joining a first part in front of at least one more puts the separator after it. */
  lemma JoinCons(p: string, rest: seq<string>, sep: string)
    requires rest != []
    ensures Join([p] + rest, sep) == p + sep + Join(rest, sep)
  {
    assert ([p] + rest)[1..] == rest;
  }

  /** A character in front of the first part ends up in front of the join. */
  lemma JoinFront(c: char, first: string, rest: seq<string>, sep: string)
    ensures Join([[c] + first] + rest, sep) == [c] + Join([first] + rest, sep)
  {
    if rest != [] {
      JoinCons([c] + first, rest, sep);
      JoinCons(first, rest, sep);
    }
  }

  /** Joining the pieces of a split with the separator gives back the string. */
  lemma {:induction false} JoinSplit(s: string, sep: char)
    ensures Join(Split(s, sep), [sep]) == s
    decreases |s|
  {
    if s != [] {
      var rest := Split(s[1..], sep);
      JoinSplit(s[1..], sep);
      if s[0] == sep {
        JoinCons([], rest, [sep]);
      } else {
        assert rest == [rest[0]] + rest[1..];
        JoinFront(s[0], rest[0], rest[1..], [sep]);
      }
    }
  }
}
