/** The text handling of whisper-voice-to-text/whisper-hotkey.py: pulling the spoken text out
    of whisper-cli's timestamped output, and `_filter_hallucinations`, which drops the stock
    phrases the model tends to invent on silence. */
module Whisper {
  import opened PyText

  // ---------------------------------------------------------------------------------------
  // Transcript extraction (the `result.returncode == 0` branch of `_do_transcription`)
  // ---------------------------------------------------------------------------------------

  /** `line.split(']', 1)[1]`: what follows the first `c` of the line. */
  function AfterFirst(line: string, c: char): (r: string)
    requires c in line
    ensures |r| < |line|
    ensures line[|line| - |r| - 1] == c && c !in line[..|line| - |r| - 1]
    ensures r == line[|line| - |r|..]
  {
    if line[0] == c then line[1..]
    else
      var r := AfterFirst(line[1..], c);
      assert line[1..][..|line| - |r| - 2] == line[1..|line| - |r| - 1];
      r
  }

  /** Splitting at the first `c` of `a + b`, when `a` ends with the only `c` it holds. */
  lemma {:induction false} AfterFirstAt(a: string, b: string, c: char)
    requires a != [] && a[|a| - 1] == c && c !in a[..|a| - 1]
    ensures c in a + b && AfterFirst(a + b, c) == b
    decreases |a|
  {
    var line := a + b;
    assert line[|a| - 1] == c;
    if |a| == 1 {
      assert line[1..] == b;
    } else {
      assert a[0] in a[..|a| - 1];
      assert line[1..] == a[1..] + b;
      assert a[1..][..|a| - 2] == a[1..|a| - 1];
      AfterFirstAt(a[1..], b, c);
    }
  }

  /** The text one output line contributes: for a line `[timestamps] text`, the stripped
      text, unless it is empty or a parenthesised note such as `(music)`; `[]` otherwise. */
  function LineText(line: string): (text: string)
    ensures text == [] || Clean(text)
    ensures text != [] ==> StartsWith(line, "[") && ']' in line
  {
    if ']' in line && StartsWith(line, "[") then
      var text := Strip(AfterFirst(line, ']'));
      if text != [] && !StartsWith(text, "(") then text else []
    else []
  }

  /** A line contributes text only when it starts with `[` and holds a `]`; the text is what
      follows the first `]`, stripped, and it does not start with `(`. */
  lemma LineTextShape(line: string)
    ensures var text := LineText(line);
      text != [] ==>
        && StartsWith(line, "[") && ']' in line
        && text == Strip(AfterFirst(line, ']'))
        && Clean(text)
  {
    var text := LineText(line);
    if text != [] {
      assert text[..1] != "(";
    }
  }

  /** A piece of transcript that was kept: non-empty, stripped, and not a note. */
  predicate Clean(p: string) {
    p != [] && p[0] != '(' && Stripped(p)
  }

  /** The texts of the lines, in order, skipping lines that contribute nothing. */
  function Segments(lines: seq<string>): (parts: seq<string>)
    ensures |parts| <= |lines|
    decreases |lines|
  {
    if lines == [] then []
    else
      var text := LineText(lines[|lines| - 1]);
      Segments(lines[..|lines| - 1]) + (if text == [] then [] else [text])
  }

  /** Every kept segment is clean. */
  lemma {:induction false} SegmentsAreClean(lines: seq<string>)
    ensures forall p <- Segments(lines) :: Clean(p)
    decreases |lines|
  {
    if lines != [] {
      SegmentsAreClean(lines[..|lines| - 1]);
      LineTextShape(lines[|lines| - 1]);
    }
  }

  /** `' '.join(text_parts).strip()` over the lines of `result.stdout.strip()`. */
  function TranscriptText(stdout: string): string {
    Strip(Join(Segments(Split(Strip(stdout), '\n')), " "))
  }

  lemma SegmentsStep(lines: seq<string>, i: int)
    requires 0 <= i < |lines|
    ensures Segments(lines[..i + 1])
         == Segments(lines[..i]) + (if LineText(lines[i]) == [] then [] else [LineText(lines[i])])
  {
    assert lines[..i + 1][..i] == lines[..i];
  }

  /** The body of the loop of `_do_transcription` for one line: the text it appends, or
      `[]` when it appends nothing. */
  method TimestampedText(line: string) returns (text: string)
    ensures text == LineText(line)
  {
    text := [];
    if ']' in line && StartsWith(line, "[") {
      var after := Strip(AfterFirst(line, ']'));
      if after != [] && !StartsWith(after, "(") {
        text := after;
      }
    }
  }

  /** The loop of `_do_transcription` that collects the text parts of the output lines. */
  method CollectTextParts(lines: seq<string>) returns (textParts: seq<string>)
    ensures textParts == Segments(lines)
  {
    textParts := [];
    var i := 0;
    while i < |lines|
      invariant 0 <= i <= |lines|
      invariant textParts == Segments(lines[..i])
    {
      var text := TimestampedText(lines[i]);
      SegmentsStep(lines, i);
      if text != [] {
        textParts := textParts + [text];
      }
      i := i + 1;
    }
    assert lines[..|lines|] == lines;
  }

  /** The transcription text: the output split into lines, their text parts collected and
      joined with single spaces. */
  method ExtractTranscript(stdout: string) returns (transcribed: string)
    ensures transcribed == TranscriptText(stdout)
  {
    var lines := Split(Strip(stdout), '\n');
    var textParts := CollectTextParts(lines);
    transcribed := Strip(Join(textParts, " "));
  }

  /** Joining clean parts with single spaces gives a string without whitespace at its ends. */
  lemma {:induction false} JoinOfCleanIsStripped(parts: seq<string>)
    requires forall p <- parts :: Clean(p)
    ensures Stripped(Join(parts, " "))
    ensures parts != [] ==> Join(parts, " ") != []
    decreases |parts|
  {
    if |parts| > 1 {
      assert parts[0] in parts;
      assert forall p <- parts[1..] :: p in parts;
      JoinOfCleanIsStripped(parts[1..]);
      var tail := Join(parts[1..], " ");
      var r := parts[0] + " " + tail;
      assert r[0] == parts[0][0];
      assert r[|r| - 1] == tail[|tail| - 1];
    } else if |parts| == 1 {
      assert parts[0] in parts;
    }
  }

  /** The closing `.strip()` of the extraction changes nothing: the joined segments already
      neither start nor end with whitespace. */
  lemma TranscriptNeedsNoFinalStrip(stdout: string)
    ensures TranscriptText(stdout) == Join(Segments(Split(Strip(stdout), '\n')), " ")
  {
    var lines := Split(Strip(stdout), '\n');
    var parts := Segments(lines);
    SegmentsAreClean(lines);
    JoinOfCleanIsStripped(parts);
    StripFixed(Join(parts, " "));
  }

  /** `t.startswith(c)` for a one-character `c` looks at the first character only. */
  lemma StartsWithChar(t: string, c: char)
    ensures StartsWith(t, [c]) <==> t != [] && t[0] == c
  {
    if t != [] {
      assert t[..1] == [t[0]];
    }
  }

  /** A line made of a bracketed timestamp and a body contributes the stripped body, unless
      that is empty or a parenthesised note. */
  lemma LineTextOfStamped(stamp: string, body: string)
    requires |stamp| >= 2 && stamp[0] == '[' && stamp[|stamp| - 1] == ']'
    requires ']' !in stamp[..|stamp| - 1]
    ensures var text := Strip(body);
      LineText(stamp + body) == if text != [] && text[0] != '(' then text else []
  {
    AfterFirstAt(stamp, body, ']');
    assert (stamp + body)[0] == '[';
    StartsWithChar(stamp + body, '[');
    StartsWithChar(Strip(body), '(');
  }

  /** The body ` (music)` strips to `(music)`. */
  lemma MusicNoteStrip()
    ensures Strip(" (music)") == "(music)"
  {
    var note := "(music)";
    VisibleIsNotSpace(note[0]);
    VisibleIsNotSpace(note[6]);
    assert " (music)" == [' '] + note;
    StripAfterSpace(' ', note);
  }

  /** A `(music)` note after the timestamp is skipped. */
  lemma NoteLineIsSkipped()
    ensures LineText("[0:03]" + " (music)") == []
  {
    var stamp := "[0:03]";
    assert stamp[..5] == ['[', '0', ':', '0', '3'];
    LineTextOfStamped(stamp, " (music)");
    MusicNoteStrip();
  }

  // ---------------------------------------------------------------------------------------
  // `_filter_hallucinations`
  // ---------------------------------------------------------------------------------------

  /** The blacklist, in the order the loop tries it. */
  const Hallucinations: seq<string> := [
    "thank you for watching", "thanks for watching", "please subscribe", "like and subscribe",
    "don't forget to subscribe", "hit the bell icon", "see you next time",
    "see you in the next video", "catch you later", "until next time", "stay tuned",
    "coming up next", "that's it for today", "that's all for now", "thanks for listening",
    "thank you for listening", "bye for now", "see you soon", "take care", "peace out",
    "outro music", "background music", "upbeat music", "soft music playing", "music fades",
    "you", ".", "..."
  ]

  /** The last character of each phrase, in blacklist order. */
  const PhraseEnds: string := "ggeeeneoredtywggwnetcccgsu.."

  /** `ends` lists the last characters of `phrases`, none of which is empty. */
  predicate LastChars(phrases: seq<string>, ends: string) {
    && |ends| == |phrases|
    && forall k :: 0 <= k < |phrases| ==> phrases[k] != [] && phrases[k][|phrases[k]| - 1] == ends[k]
  }

  /** `PhraseEnds` lists the blacklist's last characters. */
  lemma PhraseLast()
    ensures LastChars(Hallucinations, PhraseEnds)
  {
  }

  /** `text.lower().strip()`, the string every blacklist test looks at. */
  function Lowered(text: string): string
  {
    Strip(Lower(text))
  }

  /** The lowered text is stripped, no longer than the text and free of upper-case ASCII letters. */
  lemma LoweredIsCanonical(text: string)
    ensures Stripped(Lowered(text)) && |Lowered(text)| <= |text|
    ensures NoUpper(Lowered(text))
  {
    StripCharsFrom(Lower(text));
  }

  /** Outcome of the suffix loop: the whole text was a hallucination, or the text kept. */
  datatype Cut = Dropped | Kept(text: string)

  /** One pass of the loop, for the phrase `h` (already lower case, so `h.lower()` is `h`):
      the test is made on `lowered`, which the loop never updates, while the cut is made on
      the current `text`. */
  function CutOnce(text: string, lowered: string, h: string): (c: Cut)
    ensures !EndsWith(lowered, h) ==> c == Kept(text)
    ensures c == Dropped ==> EndsWith(lowered, h)
    ensures c.Kept? ==> |c.text| <= |text|
  {
    if !EndsWith(lowered, h) then Kept(text)
    else if Strip(SlicePrefix(lowered, -|h|)) == [] then Dropped
    else Kept(RStripPunct(Strip(SlicePrefix(text, |text| - |h|))))
  }

  /** The loop over the phrases, as written. */
  function CutSuffixes(text: string, lowered: string, phrases: seq<string>): (c: Cut)
    ensures phrases == [] ==> c == Kept(text)
    ensures c.Kept? ==> |c.text| <= |text|
    decreases |phrases|
  {
    if phrases == [] then Kept(text)
    else
      match CutOnce(text, lowered, phrases[0])
      case Dropped => Dropped
      case Kept(t) => CutSuffixes(t, lowered, phrases[1..])
  }

  /** The characters of `s` other than the plain space: `set(text.replace(' ', ''))`. */
  function NonSpaceChars(s: string): set<char> {
    set i | 0 <= i < |s| && s[i] != ' ' :: s[i]
  }

  /** The two closing tests: too short once stripped, or two distinct characters or fewer;
      what passes is returned stripped. */
  function KeepIfMeaningful(t: string): (r: string)
    ensures r == [] || (|r| > 2 && Stripped(r))
  {
    if |Strip(t)| <= 2 then []
    else if |NonSpaceChars(t)| <= 2 then []
    else Strip(t)
  }

  /** `_filter_hallucinations` as written, for the blacklist `phrases` (the source's own is
      `Hallucinations`). The empty string comes back as it is; an exact blacklist match gives
      ""; otherwise whatever survives is stripped and longer than two characters. */
  function FilterAsWritten(text: string, phrases: seq<string>): (r: string)
    ensures text == [] ==> r == []
    ensures Lowered(text) in phrases ==> r == []
    ensures r != [] ==> |r| > 2 && Stripped(r)
  {
    if text == [] then text
    else if Lowered(text) in phrases then []
    else
      match CutSuffixes(text, Lowered(text), phrases)
      case Dropped => []
      case Kept(t) => KeepIfMeaningful(t)
  }

  /** Running the loop from phrase `k` on is one pass with phrase `k`, then the rest. */
  lemma CutStep(text: string, lowered: string, phrases: seq<string>, k: int)
    requires 0 <= k < |phrases|
    ensures CutSuffixes(text, lowered, phrases[k..])
         == match CutOnce(text, lowered, phrases[k])
            case Dropped => Dropped
            case Kept(t) => CutSuffixes(t, lowered, phrases[k + 1..])
  {
    assert phrases[k..][1..] == phrases[k + 1..];
  }

  /** When the last two phrases both keep something, the loop over them keeps what the
      second one leaves. */
  lemma LastTwoPhrases(text: string, lowered: string, phrases: seq<string>, mid: string, last: string)
    requires |phrases| >= 2
    requires CutOnce(text, lowered, phrases[|phrases| - 2]) == Kept(mid)
    requires CutOnce(mid, lowered, phrases[|phrases| - 1]) == Kept(last)
    ensures CutSuffixes(text, lowered, phrases[|phrases| - 2..]) == Kept(last)
  {
    var k := |phrases| - 2;
    CutStep(text, lowered, phrases, k);
    CutStep(mid, lowered, phrases, k + 1);
    assert phrases[k + 2..] == [];
  }

  /** One iteration of the loop below, for the phrase `halluc`. */
  method CutOnePhrase(current: string, textLower: string, halluc: string) returns (cut: Cut)
    ensures cut == CutOnce(current, textLower, halluc)
  {
    if EndsWith(textLower, halluc) {
      var remaining := Strip(SlicePrefix(textLower, -|halluc|));
      if remaining != [] {
        var originalLength := |current| - |halluc|;
        var next := Strip(SlicePrefix(current, originalLength));
        next := RStripPunct(next);
        return Kept(next);
      } else {
        return Dropped;
      }
    }
    return Kept(current);
  }

  /** The `for halluc in hallucinations` loop of `_filter_hallucinations`, which reassigns
      `text` step by step and may return "" from inside (here `Dropped`). */
  method CutPhrases(text: string, textLower: string, hallucinations: seq<string>) returns (cut: Cut)
    ensures cut == CutSuffixes(text, textLower, hallucinations)
  {
    var current := text;
    var i := 0;
    while i < |hallucinations|
      invariant 0 <= i <= |hallucinations|
      invariant CutSuffixes(current, textLower, hallucinations[i..])
             == CutSuffixes(text, textLower, hallucinations)
    {
      CutStep(current, textLower, hallucinations, i);
      var step := CutOnePhrase(current, textLower, hallucinations[i]);
      if step.Dropped? {
        return Dropped;
      }
      current := step.text;
      i := i + 1;
    }
    assert hallucinations[i..] == [];
    return Kept(current);
  }

  /** The body of `_filter_hallucinations` for a given blacklist: the early exits, the
      suffix loop, then the closing tests. */
  method FilterWith(text: string, hallucinations: seq<string>) returns (r: string)
    ensures r == FilterAsWritten(text, hallucinations)
  {
    if text == [] {
      return text;
    }
    var textLower := Strip(Lower(text));
    if textLower in hallucinations {
      return [];
    }
    var cut := CutPhrases(text, textLower, hallucinations);
    if cut.Dropped? {
      return [];
    }
    var current := cut.text;
    if |Strip(current)| <= 2 {
      return [];
    }
    if |NonSpaceChars(current)| <= 2 {
      return [];
    }
    return Strip(current);
  }

  /** `_filter_hallucinations`, with its own blacklist. */
  method FilterHallucinations(text: string) returns (r: string)
    ensures r == FilterAsWritten(text, Hallucinations)
  {
    r := FilterWith(text, Hallucinations);
  }

  /** If the lower-cased text ends with a blacklisted phrase and has nothing but whitespace
      before it, the loop drops it, whatever the other phrases do. */
  lemma {:induction false} BareSuffixIsDropped(text: string, lowered: string, phrases: seq<string>, h: string)
    requires h in phrases && EndsWith(lowered, h) && Strip(SlicePrefix(lowered, -|h|)) == []
    ensures CutSuffixes(text, lowered, phrases) == Dropped
    decreases |phrases|
  {
    if phrases[0] != h {
      assert h in phrases[1..];
      match CutOnce(text, lowered, phrases[0])
      case Dropped =>
      case Kept(t) => BareSuffixIsDropped(t, lowered, phrases[1..], h);
    }
  }

  /** A text that is only a blacklisted phrase, possibly after whitespace and in any case,
      is filtered to "". */
  lemma OnlySuffixIsDropped(text: string, h: string)
    requires h in Hallucinations && EndsWith(Lowered(text), h)
    requires Strip(SlicePrefix(Lowered(text), -|h|)) == []
    ensures FilterAsWritten(text, Hallucinations) == []
  {
    if text != [] && Lowered(text) !in Hallucinations {
      BareSuffixIsDropped(text, Lowered(text), Hallucinations, h);
    }
  }

  /** `s` has no whitespace other than the plain space (no tabs, no newlines). */
  predicate PlainSpacesOnly(s: string) {
    forall i :: 0 <= i < |s| && PyIsSpace(s[i]) ==> s[i] == ' '
  }

  /** Every character of `t` occurs in `s`. */
  predicate CharsFrom(t: string, s: string) {
    forall j :: 0 <= j < |t| ==> t[j] in s
  }

  /** One pass only ever keeps characters of the text it cut. */
  lemma CutOnceKeepsChars(text: string, lowered: string, h: string)
    requires CutOnce(text, lowered, h).Kept?
    ensures CharsFrom(CutOnce(text, lowered, h).text, text)
  {
    if EndsWith(lowered, h) {
      var sliced := SlicePrefix(text, |text| - |h|);
      var stripped := Strip(sliced);
      var r := RStripPunct(stripped);
      StripCharsFrom(sliced);
      forall j | 0 <= j < |r|
        ensures r[j] in text
      {
        assert r[j] == stripped[j];
        var k :| 0 <= k < |sliced| && sliced[k] == r[j];
        assert text[k] == sliced[k];
      }
    }
  }

  /** The whole loop only ever keeps characters of the text it started from. */
  lemma {:induction false} CutSuffixesKeepsChars(text: string, lowered: string, phrases: seq<string>)
    requires CutSuffixes(text, lowered, phrases).Kept?
    ensures CharsFrom(CutSuffixes(text, lowered, phrases).text, text)
    decreases |phrases|
  {
    if phrases != [] {
      var once := CutOnce(text, lowered, phrases[0]);
      CutOnceKeepsChars(text, lowered, phrases[0]);
      CutSuffixesKeepsChars(once.text, lowered, phrases[1..]);
      CharsFromTransitive(CutSuffixes(text, lowered, phrases).text, once.text, text);
    }
  }

  lemma CharsFromTransitive(t: string, u: string, s: string)
    requires CharsFrom(t, u) && CharsFrom(u, s)
    ensures CharsFrom(t, s)
  {
    forall j | 0 <= j < |t|
      ensures t[j] in s
    {
      var k :| 0 <= k < |u| && u[k] == t[j];
    }
  }

  /** When the only whitespace is the plain space, stripping keeps every non-space character. */
  lemma StripKeepsNonSpaceChars(t: string)
    requires PlainSpacesOnly(t)
    ensures NonSpaceChars(Strip(t)) == NonSpaceChars(t)
  {
    var r := Strip(t);
    StripCharsFrom(t);
    forall c | c in NonSpaceChars(r)
      ensures c in NonSpaceChars(t)
    {
      var j :| 0 <= j < |r| && r[j] != ' ' && r[j] == c;
      var k :| 0 <= k < |t| && t[k] == c;
    }
    forall c | c in NonSpaceChars(t)
      ensures c in NonSpaceChars(r)
    {
      var i :| 0 <= i < |t| && t[i] != ' ' && t[i] == c;
      StripKeepsNonSpace(t, i);
      var k :| 0 <= k < |r| && r[k] == c;
    }
  }

  /** For a text whose only whitespace is the plain space, a non-empty result has at least
      three distinct non-space characters, whatever the blacklist. (With tabs or newlines it need not; see
      `TabCountsAsDistinct`.) */
  lemma PlainTextResultHasThreeDistinct(text: string, phrases: seq<string>)
    requires PlainSpacesOnly(text)
    ensures var r := FilterAsWritten(text, phrases); r != [] ==> |NonSpaceChars(r)| > 2
  {
    if text != [] && Lowered(text) !in phrases {
      var lowered := Lowered(text);
      var cut := CutSuffixes(text, lowered, phrases);
      if cut.Kept? {
        var t := cut.text;
        assert FilterAsWritten(text, phrases) == KeepIfMeaningful(t);
        CutSuffixesKeepsChars(text, lowered, phrases);
        forall i | 0 <= i < |t| && PyIsSpace(t[i])
          ensures t[i] == ' '
        {
          var k :| 0 <= k < |text| && text[k] == t[i];
        }
        StripKeepsNonSpaceChars(t);
      }
    }
  }

  /** The distinct-character test looks at the text before its final strip, so a tab counts
      as a character: "aab\t" passes and "aab", with two distinct characters, is returned. */
  lemma TabCountsAsDistinct()
    ensures KeepIfMeaningful("aab\t") == "aab"
    ensures |NonSpaceChars("aab")| == 2
  {
    var t := "aab\t";
    assert PyIsSpace(t[3]);
    VisibleIsNotSpace(t[0]);
    VisibleIsNotSpace(t[2]);
    StripWindow(t, 0, 3);
    assert t[..3] == "aab";
    assert NonSpaceChars(t) == {'a', 'b', '\t'} by {
      assert t[0] == 'a' && t[1] == 'a' && t[2] == 'b' && t[3] == '\t';
    }
    assert NonSpaceChars("aab") == {'a', 'b'} by {
      assert "aab"[0] == 'a' && "aab"[1] == 'a' && "aab"[2] == 'b';
    }
  }

  // ---------------------------------------------------------------------------------------
  // The stale lowered text, and the loop as intended
  // ---------------------------------------------------------------------------------------

  /** A string whose last character differs from a phrase's last character does not end
      with that phrase. */
  lemma LastDiffers(s: string, h: string)
    requires s != [] && h != [] && s[|s| - 1] != h[|h| - 1]
    ensures !EndsWith(s, h)
  {
    if |h| <= |s| {
      assert s[|s| - |h|..][|h| - 1] == s[|s| - 1];
    }
  }

  /** Phrases `lo` to `hi` cannot match a lowered text ending in a character none of them
      ends with, so the loop passes over them unchanged. */
  lemma {:induction false} SkipPhrases(text: string, lowered: string, phrases: seq<string>, ends: string, lo: int, hi: int)
    requires LastChars(phrases, ends) && 0 <= lo <= hi <= |phrases| && lowered != []
    requires lowered[|lowered| - 1] !in ends[lo..hi]
    ensures CutSuffixes(text, lowered, phrases[lo..]) == CutSuffixes(text, lowered, phrases[hi..])
    decreases hi - lo
  {
    if lo < hi {
      assert ends[lo] == ends[lo..hi][0];
      LastDiffers(lowered, phrases[lo]);
      CutStep(text, lowered, phrases, lo);
      assert ends[lo + 1..hi] == ends[lo..hi][1..];
      SkipPhrases(text, lowered, phrases, ends, lo + 1, hi);
    }
  }

  /** "yes..." has no upper-case letter and no whitespace at its ends: it is its own
      lowered form. */
  lemma YesLowered()
    ensures Lowered("yes...") == "yes..."
  {
    var t := "yes...";
    assert NoUpper(t);
    LowerOfLowerCase(t);
    VisibleIsNotSpace(t[0]);
    VisibleIsNotSpace(t[5]);
    StripFixed(t);
  }

  /** The first matching phrase, ".", cuts "yes..." to "yes": the two dots left after the
      cut are stripped as punctuation. */
  lemma DotCutsToYes()
    ensures CutOnce("yes...", "yes...", ".") == Kept("yes")
  {
    var t := "yes...";
    assert EndsWith(t, ".");
    var before := SlicePrefix(t, -1);
    assert before == "yes..";
    VisibleIsNotSpace(before[0]);
    VisibleIsNotSpace(before[4]);
    StripFixed(before);
    assert SlicePrefix(t, |t| - 1) == before;
    RStripPunctWindow(before, 3);
    assert before[..3] == "yes";
  }

  /** As written, the phrase "..." is still tested against the lowered text computed before
      the first cut: the current text "yes" does not end with "...", yet its last three
      characters are cut and nothing is left. */
  lemma StaleLoweredCutsYes()
    ensures !EndsWith("yes", "...")
    ensures CutOnce("yes", "yes...", "...") == Kept([])
  {
    assert "yes"[0] != '.';
    LastDiffers("yes", "...");
    var before := SlicePrefix("yes...", -3);
    assert before == "yes";
    VisibleIsNotSpace(before[0]);
    VisibleIsNotSpace(before[2]);
    StripFixed(before);
    assert SlicePrefix("yes", 0) == [];
  }

  /** "yes..." is not itself a blacklisted phrase. */
  lemma YesIsNoPhrase()
    ensures "yes..." !in Hallucinations
  {
  }

  /** A blacklist that ends with "." and "...", none of whose other phrases ends in a dot. */
  predicate DotsLast(phrases: seq<string>, ends: string) {
    && LastChars(phrases, ends) && |phrases| >= 2
    && phrases[|phrases| - 2] == "." && phrases[|phrases| - 1] == "..."
    && '.' !in ends[0..|phrases| - 2]
  }

  /** The source's blacklist is such a list. */
  lemma BlacklistDotsLast()
    ensures DotsLast(Hallucinations, PhraseEnds)
  {
    PhraseLast();
    NoEarlyPhraseEndsInDot();
  }

  /** None of the first 26 phrases ends in a dot. */
  lemma NoEarlyPhraseEndsInDot()
    ensures '.' !in PhraseEnds[0..26]
  {
    assert PhraseEnds[0..26] == "ggeeeneoredtywggwnetcccgsu";
  }

  /** As written, the loop over such a list turns "yes..." into "": after "." leaves "yes",
      the stale test lets "..." cut it to nothing. */
  lemma StaleLoopEmptiesYes(phrases: seq<string>, ends: string)
    requires DotsLast(phrases, ends)
    ensures CutSuffixes("yes...", "yes...", phrases) == Kept([])
  {
    var t := "yes...";
    SkipPhrases(t, t, phrases, ends, 0, |phrases| - 2);
    assert phrases[0..] == phrases;
    DotCutsToYes();
    StaleLoweredCutsYes();
    LastTwoPhrases(t, t, phrases, "yes", []);
  }

  /** As written, the loop turns "yes..." into "". */
  lemma AsWrittenLoopEmptiesYes()
    ensures CutSuffixes("yes...", "yes...", Hallucinations) == Kept([])
  {
    BlacklistDotsLast();
    StaleLoopEmptiesYes(Hallucinations, PhraseEnds);
  }

  /** As written, the reply "yes..." is filtered to "". */
  lemma AsWrittenDropsYes()
    ensures FilterAsWritten("yes...", Hallucinations) == []
  {
    YesLowered();
    YesIsNoPhrase();
    AsWrittenLoopEmptiesYes();
    EmptiedIsDropped("yes...", Hallucinations);
  }

  /** A text the loop cuts down to nothing is filtered to "". */
  lemma EmptiedIsDropped(text: string, phrases: seq<string>)
    requires text != [] && Lowered(text) !in phrases
    requires CutSuffixes(text, Lowered(text), phrases) == Kept([])
    ensures FilterAsWritten(text, phrases) == []
  {
  }

  /** One pass with the phrase `h`, as intended: the phrase is looked for at the end of the
      current text, stripped and lower-cased, and the cut is measured on that same stripped
      text. */
  function CutOnceFixed(text: string, h: string): (c: Cut)
    ensures !EndsWith(Lower(Strip(text)), h) ==> c == Kept(text)
    ensures c == Dropped ==> EndsWith(Lower(Strip(text)), h)
    ensures c.Kept? ==> |c.text| <= |text|
  {
    var s := Strip(text);
    if !EndsWith(Lower(s), h) then Kept(text) else CutOnce(s, Lower(s), h)
  }

  /** The loop over the phrases, as intended. */
  function CutSuffixesFixed(text: string, phrases: seq<string>): (c: Cut)
    ensures phrases == [] ==> c == Kept(text)
    ensures c.Kept? ==> |c.text| <= |text|
    decreases |phrases|
  {
    if phrases == [] then Kept(text)
    else
      match CutOnceFixed(text, phrases[0])
      case Dropped => Dropped
      case Kept(t) => CutSuffixesFixed(t, phrases[1..])
  }

  /** `_filter_hallucinations` with the loop as intended; the early exits and the closing
      tests are those of the source. */
  function FilterCorrected(text: string, phrases: seq<string>): (r: string)
    ensures text == [] ==> r == []
    ensures Lowered(text) in phrases ==> r == []
    ensures r != [] ==> |r| > 2 && Stripped(r)
  {
    if text == [] then text
    else if Lowered(text) in phrases then []
    else
      match CutSuffixesFixed(text, phrases)
      case Dropped => []
      case Kept(t) => KeepIfMeaningful(t)
  }

  /** Lower-casing the last `|h|` characters of `s` gives `h` when the lower case of `s`
      ends with `h`. */
  lemma LowerTail(s: string, h: string)
    requires EndsWith(Lower(s), h)
    ensures Lower(s[|s| - |h|..]) == h
  {
    var n := |s| - |h|;
    var l := Lower(s);
    var t := Lower(s[n..]);
    forall k | 0 <= k < |h|
      ensures t[k] == h[k]
    {
      assert s[n..][k] == s[n + k];
      assert l[n..][k] == l[n + k];
    }
  }

  /** `u` is `v` with only whitespace and `.,!?` removed from its end. */
  predicate EndTrimmedOf(u: string, v: string) {
    && |u| <= |v| && u == v[..|u|]
    && forall i :: |u| <= i < |v| ==> PyIsSpace(v[i]) || IsStripPunct(v[i])
  }

  /** Removing such an end twice removes such an end. */
  lemma EndTrimmedTrans(u: string, w: string, v: string)
    requires EndTrimmedOf(u, w) && EndTrimmedOf(w, v)
    ensures EndTrimmedOf(u, v)
  {
    forall i | |u| <= i < |w|
      ensures v[i] == w[i]
    {
    }
  }

  /** Stripping a string that does not start with whitespace only removes an end. */
  lemma StripIsEndTrim(v: string)
    requires v == [] || !PyIsSpace(v[0])
    ensures EndTrimmedOf(Strip(v), v)
  {
    StripOfLeftStripped(v);
  }

  /** `rstrip('.,!?')` only removes an end. */
  lemma RStripPunctIsEndTrim(w: string)
    ensures EndTrimmedOf(RStripPunct(w), w)
  {
  }

  /** Cutting a stripped text `|h|` characters before its end, stripping and removing
      trailing `.,!?` only removes whitespace and that punctuation from the end of the
      part before the cut. */
  lemma CutKeepsPrefix(s: string, h: string)
    requires Stripped(s) && |h| <= |s|
    ensures EndTrimmedOf(RStripPunct(Strip(SlicePrefix(s, |s| - |h|))), SlicePrefix(s, |s| - |h|))
  {
    var v := SlicePrefix(s, |s| - |h|);
    if v != [] {
      assert v[0] == s[0];
    }
    StripIsEndTrim(v);
    RStripPunctIsEndTrim(Strip(v));
    EndTrimmedTrans(RStripPunct(Strip(v)), Strip(v), v);
  }

  /** On a stripped text that ends with `h` (once lower-cased), a pass that keeps something
      only removes whitespace and `.,!?` from the end of the part before the last `|h|`
      characters. */
  lemma CutOnceKeepsPrefix(s: string, h: string)
    requires Stripped(s) && EndsWith(Lower(s), h) && CutOnce(s, Lower(s), h).Kept?
    ensures EndTrimmedOf(CutOnce(s, Lower(s), h).text, s[..|s| - |h|])
  {
    CutKeepsPrefix(s, h);
    assert SlicePrefix(s, |s| - |h|) == s[..|s| - |h|];
  }

  /** A corrected pass that cuts the phrase `h` off removes exactly a stretch of text that
      lower-cases to `h`, plus whitespace and trailing punctuation before it: what it keeps
      is a prefix of the stripped text, and everything between that prefix and the phrase
      is whitespace or `.,!?`. */
  lemma CorrectedCutRemovesPhrase(text: string, h: string)
    requires EndsWith(Lower(Strip(text)), h) && CutOnceFixed(text, h).Kept?
    ensures |h| <= |Strip(text)| && Lower(Strip(text)[|Strip(text)| - |h|..]) == h
    ensures EndTrimmedOf(CutOnceFixed(text, h).text, Strip(text)[..|Strip(text)| - |h|])
  {
    CutOnceKeepsPrefix(Strip(text), h);
    LowerTail(Strip(text), h);
  }

  /** A pass on `s` keeps something when a non-whitespace character comes before the
      phrase. */
  lemma ContentBeforePhraseIsKept(s: string, h: string, i: int)
    requires h != [] && EndsWith(Lower(s), h) && 0 <= i < |s| - |h| && !PyIsSpace(s[i])
    ensures CutOnce(s, Lower(s), h).Kept?
  {
    var before := SlicePrefix(Lower(s), -|h|);
    assert before == Lower(s)[..|s| - |h|];
    assert before[i] == Lower(s)[i];
    StripKeepsNonSpace(before, i);
  }

  /** A corrected pass never cuts into content: a character before the phrase that is
      neither whitespace nor `.,!?` is kept. */
  lemma CorrectedCutKeepsContent(text: string, h: string, i: int)
    requires h != [] && EndsWith(Lower(Strip(text)), h)
    requires 0 <= i < |Strip(text)| - |h|
    requires !PyIsSpace(Strip(text)[i]) && !IsStripPunct(Strip(text)[i])
    ensures CutOnceFixed(text, h).Kept?
    ensures i < |CutOnceFixed(text, h).text| && CutOnceFixed(text, h).text[i] == Strip(text)[i]
  {
    ContentBeforePhraseIsKept(Strip(text), h, i);
    CorrectedCutRemovesPhrase(text, h);
    assert Strip(text)[..|Strip(text)| - |h|][i] == Strip(text)[i];
  }

  /** A corrected pass leaves the text alone when the text, stripped and lower-cased, ends
      in a different character from the phrase. */
  lemma FixedPassSkips(text: string, h: string)
    requires Lower(Strip(text)) != [] && h != []
    requires Lower(Strip(text))[|Lower(Strip(text))| - 1] != h[|h| - 1]
    ensures CutOnceFixed(text, h) == Kept(text)
  {
    LastDiffers(Lower(Strip(text)), h);
  }

  /** The corrected loop passes over phrases `lo` to `hi` when the current text, stripped and
      lower-cased, ends in a character none of them ends with. */
  lemma {:induction false} SkipPhrasesFixed(text: string, phrases: seq<string>, ends: string, lo: int, hi: int)
    requires LastChars(phrases, ends) && 0 <= lo <= hi <= |phrases| && Lower(Strip(text)) != []
    requires Lower(Strip(text))[|Lower(Strip(text))| - 1] !in ends[lo..hi]
    ensures CutSuffixesFixed(text, phrases[lo..]) == CutSuffixesFixed(text, phrases[hi..])
    decreases hi - lo
  {
    if lo < hi {
      assert ends[lo] == ends[lo..hi][0];
      FixedPassSkips(text, phrases[lo]);
      CutStepFixed(text, phrases, lo);
      assert ends[lo + 1..hi] == ends[lo..hi][1..];
      SkipPhrasesFixed(text, phrases, ends, lo + 1, hi);
    }
  }

  /** "yes" has no upper-case letter and no whitespace at its ends. */
  lemma YesIsPlain()
    ensures Strip("yes") == "yes" && Lower("yes") == "yes"
  {
    var t := "yes";
    assert NoUpper(t);
    LowerOfLowerCase(t);
    VisibleIsNotSpace(t[0]);
    VisibleIsNotSpace(t[2]);
    StripFixed(t);
  }

  /** "yes..." is its own strip and its own lower case. */
  lemma YesDotsArePlain()
    ensures Strip("yes...") == "yes..." && Lower("yes...") == "yes..."
  {
    var t := "yes...";
    assert NoUpper(t);
    LowerOfLowerCase(t);
    VisibleIsNotSpace(t[0]);
    VisibleIsNotSpace(t[5]);
    StripFixed(t);
  }

  /** Running the corrected loop from phrase `k` on is one corrected pass, then the rest. */
  lemma CutStepFixed(text: string, phrases: seq<string>, k: int)
    requires 0 <= k < |phrases|
    ensures CutSuffixesFixed(text, phrases[k..])
         == match CutOnceFixed(text, phrases[k])
            case Dropped => Dropped
            case Kept(t) => CutSuffixesFixed(t, phrases[k + 1..])
  {
    assert phrases[k..][1..] == phrases[k + 1..];
  }

  /** When the last two phrases both keep something, the corrected loop over them keeps what
      the second one leaves. */
  lemma LastTwoPhrasesFixed(text: string, phrases: seq<string>, mid: string, last: string)
    requires |phrases| >= 2
    requires CutOnceFixed(text, phrases[|phrases| - 2]) == Kept(mid)
    requires CutOnceFixed(mid, phrases[|phrases| - 1]) == Kept(last)
    ensures CutSuffixesFixed(text, phrases[|phrases| - 2..]) == Kept(last)
  {
    var k := |phrases| - 2;
    CutStepFixed(text, phrases, k);
    CutStepFixed(mid, phrases, k + 1);
    assert phrases[k + 2..] == [];
  }

  /** The corrected pass with "." cuts "yes..." to "yes", as the stale one does. */
  lemma FixedDotCutsToYes()
    ensures CutOnceFixed("yes...", ".") == Kept("yes")
  {
    YesDotsArePlain();
    DotCutsToYes();
  }

  /** The corrected pass with "..." leaves "yes" alone: it does not end with "...". */
  lemma FixedDotsKeepYes()
    ensures CutOnceFixed("yes", "...") == Kept("yes")
  {
    YesIsPlain();
    StaleLoweredCutsYes();
  }

  /** The corrected loop over such a list cuts "yes..." to "yes" and stops there. */
  lemma FixedLoopKeepsYes(phrases: seq<string>, ends: string)
    requires DotsLast(phrases, ends)
    ensures CutSuffixesFixed("yes...", phrases) == Kept("yes")
  {
    var t := "yes...";
    YesDotsArePlain();
    SkipPhrasesFixed(t, phrases, ends, 0, |phrases| - 2);
    assert phrases[0..] == phrases;
    FixedDotCutsToYes();
    FixedDotsKeepYes();
    LastTwoPhrasesFixed(t, phrases, "yes", "yes");
  }

  /** The corrected loop cuts "yes..." to "yes". */
  lemma CorrectedLoopKeepsYes()
    ensures CutSuffixesFixed("yes...", Hallucinations) == Kept("yes")
  {
    BlacklistDotsLast();
    FixedLoopKeepsYes(Hallucinations, PhraseEnds);
  }

  /** "yes" passes the closing tests: three characters, three distinct. */
  lemma YesIsMeaningful()
    ensures KeepIfMeaningful("yes") == "yes"
  {
    YesIsPlain();
    var t := "yes";
    assert NonSpaceChars(t) == {'y', 'e', 's'} by {
      assert t[0] == 'y' && t[1] == 'e' && t[2] == 's';
    }
  }

  /** With the loop corrected, the reply "yes..." is kept as "yes". */
  lemma CorrectedKeepsYes()
    ensures FilterCorrected("yes...", Hallucinations) == "yes"
  {
    YesLowered();
    YesIsNoPhrase();
    CorrectedLoopKeepsYes();
    YesIsMeaningful();
  }

  // ---------------------------------------------------------------------------------------
  // The examples of the docstring
  // ---------------------------------------------------------------------------------------

  /** A string whose `k`-th character from the end differs from the phrase's does not end
      with the phrase. */
  lemma DiffersAt(s: string, h: string, k: int)
    requires 0 <= k < |h| && k < |s| && s[|s| - 1 - k] != h[|h| - 1 - k]
    ensures !EndsWith(s, h)
  {
    if |h| <= |s| {
      assert s[|s| - |h|..][|h| - 1 - k] == s[|s| - 1 - k];
    }
  }

  /** A phrase the lowered text does not end with leaves the loop's text as it is. */
  lemma PassOver(text: string, lowered: string, phrases: seq<string>, k: int)
    requires 0 <= k < |phrases| && !EndsWith(lowered, phrases[k])
    ensures CutSuffixes(text, lowered, phrases[k..]) == CutSuffixes(text, lowered, phrases[k + 1..])
  {
    CutStep(text, lowered, phrases, k);
  }

  /** Three distinct characters other than the plain space make three distinct non-space
      characters. */
  lemma ThreeDistinct(s: string, i: int, j: int, k: int)
    requires 0 <= i < |s| && 0 <= j < |s| && 0 <= k < |s|
    requires s[i] != ' ' && s[j] != ' ' && s[k] != ' '
    requires s[i] != s[j] && s[j] != s[k] && s[i] != s[k]
    ensures |NonSpaceChars(s)| > 2
  {
    var three := {s[i], s[j], s[k]};
    var all := NonSpaceChars(s);
    assert three <= all;
    assert all * three == three;
    assert |all - three| == |all| - |three|;
  }

  /** No blacklisted phrase is longer than 25 characters. */
  lemma LongTextIsNoPhrase(s: string)
    requires |s| > 25
    ensures s !in Hallucinations
  {
  }

  /** A text with no whitespace at its ends lowers to its own lower case. */
  lemma LoweredOfStripped(t: string)
    requires t != [] && !PyIsSpace(t[0]) && !PyIsSpace(t[|t| - 1])
    ensures Lowered(t) == Lower(t)
  {
    StripFixed(Lower(t));
  }

  /** Content `w`, a space and a lower-case phrase `h` lower to the lower case of `w`, the
      space and `h`. */
  lemma LoweredWithPhrase(w: string, h: string)
    requires w != [] && !PyIsSpace(w[0])
    requires h != [] && NoUpper(h) && !PyIsSpace(h[|h| - 1])
    ensures Lowered(w + " " + h) == Lower(w) + " " + h
  {
    var t := w + " " + h;
    LowerConcat(w + " ", h);
    LowerConcat(w, " ");
    LowerOfLowerCase(h);
    assert Lower(" ") == " ";
    assert t[0] == w[0] && t[|t| - 1] == h[|h| - 1];
    LoweredOfStripped(t);
  }

  /** One space after a string with no whitespace at its ends is stripped off. */
  lemma StripTrailingSpace(w: string)
    requires w != [] && !PyIsSpace(w[0]) && !PyIsSpace(w[|w| - 1])
    ensures Strip(w + " ") == w
  {
    var kept := w + " ";
    assert kept[|w|] == ' ';
    StripWindow(kept, 0, |w|);
    assert kept[0..|w|] == w;
  }

  /** Content `w`, a space and a lower-case phrase `h`: the pass with `h` cuts the text back
      to `w`. */
  lemma CutAfterContent(w: string, h: string)
    requires w != [] && !PyIsSpace(w[0]) && !PyIsSpace(w[|w| - 1]) && !IsStripPunct(w[|w| - 1])
    requires h != [] && NoUpper(h) && !PyIsSpace(h[|h| - 1])
    ensures CutOnce(w + " " + h, Lower(w) + " " + h, h) == Kept(w)
  {
    var t := w + " " + h;
    var l := Lower(w) + " " + h;
    assert l[|l| - |h|..] == h;
    var before := SlicePrefix(l, -|h|);
    assert before == Lower(w) + " ";
    assert before[0] == LowerChar(w[0]);
    StripKeepsNonSpace(before, 0);
    assert SlicePrefix(t, |t| - |h|) == w + " ";
    StripTrailingSpace(w);
    RStripPunctWindow(w, |w|);
    assert w[..|w|] == w;
  }

  /** A text whose `j`-th character from the end, counted within its last part `b`, differs
      from the phrase's does not end with the phrase. */
  lemma SuffixDiffersAt(a: string, b: string, h: string, j: int)
    requires 0 <= j < |b| && j < |h| && b[|b| - 1 - j] != h[|h| - 1 - j]
    ensures !EndsWith(a + b, h)
  {
    assert (a + b)[|a + b| - 1 - j] == b[|b| - 1 - j];
    DiffersAt(a + b, h, j);
  }

  // The walk of the first example over the 28 phrases is split into the small lemmas below,
  // a few phrases each, so that no single proof has to unfold the whole blacklist.

  /** Phrase 1 ("thanks for watching") is not a suffix of the first example. */
  lemma HelloPassesPhrase1(l: string)
    requires l == Lower("Hello world") + " " + "thank you for watching"
    ensures CutSuffixes("Hello world", l, Hallucinations[1..]) == CutSuffixes("Hello world", l, Hallucinations[2..])
  {
    SuffixDiffersAt(Lower("Hello world") + " ", "thank you for watching", Hallucinations[1], 13);
    PassOver("Hello world", l, Hallucinations, 1);
  }

  /** Only phrases 0, 1, 14, 15 and 23 end in `g`. */
  lemma NoPhraseEndsInG()
    ensures 'g' !in PhraseEnds[2..14] && 'g' !in PhraseEnds[16..23] && 'g' !in PhraseEnds[24..28]
  {
    assert PhraseEnds[..14] == "ggeeeneoredtyw";
    assert PhraseEnds[2..14] == PhraseEnds[..14][2..];
    assert PhraseEnds[..23] == "ggeeeneoredtywggwnetccc";
    assert PhraseEnds[16..23] == PhraseEnds[..23][16..];
    assert PhraseEnds[24..28] == PhraseEnds[..28][24..];
  }

  /** No phrase ends in `l`. */
  lemma NoPhraseEndsInL()
    ensures 'l' !in PhraseEnds[0..28]
  {
    assert PhraseEnds[0..28] == PhraseEnds;
  }

  /** Phrases 2 to 13 end in another character than the first example. */
  lemma HelloSkipsTo14(l: string)
    requires l == Lower("Hello world") + " " + "thank you for watching"
    ensures CutSuffixes("Hello world", l, Hallucinations[2..]) == CutSuffixes("Hello world", l, Hallucinations[14..])
  {
    PhraseLast();
    assert l[|l| - 1] == 'g';
    NoPhraseEndsInG();
    SkipPhrases("Hello world", l, Hallucinations, PhraseEnds, 2, 14);
  }

  /** Phrase 14 ("thanks for listening") is not a suffix of the first example. */
  lemma HelloPassesPhrase14(l: string)
    requires l == Lower("Hello world") + " " + "thank you for watching"
    ensures CutSuffixes("Hello world", l, Hallucinations[14..]) == CutSuffixes("Hello world", l, Hallucinations[15..])
  {
    SuffixDiffersAt(Lower("Hello world") + " ", "thank you for watching", Hallucinations[14], 3);
    PassOver("Hello world", l, Hallucinations, 14);
  }

  /** Phrase 15 ("thank you for listening") is not a suffix of the first example. */
  lemma HelloPassesPhrase15(l: string)
    requires l == Lower("Hello world") + " " + "thank you for watching"
    ensures CutSuffixes("Hello world", l, Hallucinations[15..]) == CutSuffixes("Hello world", l, Hallucinations[16..])
  {
    SuffixDiffersAt(Lower("Hello world") + " ", "thank you for watching", Hallucinations[15], 3);
    PassOver("Hello world", l, Hallucinations, 15);
  }

  /** Phrases 16 to 22 end in another character than the first example. */
  lemma HelloSkipsTo23(l: string)
    requires l == Lower("Hello world") + " " + "thank you for watching"
    ensures CutSuffixes("Hello world", l, Hallucinations[16..]) == CutSuffixes("Hello world", l, Hallucinations[23..])
  {
    PhraseLast();
    assert l[|l| - 1] == 'g';
    NoPhraseEndsInG();
    SkipPhrases("Hello world", l, Hallucinations, PhraseEnds, 16, 23);
  }

  /** Phrase 23 ("soft music playing") is not a suffix of the first example, and the last
      four end in another character. */
  lemma HelloPassesTheRest(l: string)
    requires l == Lower("Hello world") + " " + "thank you for watching"
    ensures CutSuffixes("Hello world", l, Hallucinations[23..]) == Kept("Hello world")
  {
    SuffixDiffersAt(Lower("Hello world") + " ", "thank you for watching", Hallucinations[23], 3);
    PassOver("Hello world", l, Hallucinations, 23);
    PhraseLast();
    assert l[|l| - 1] == 'g';
    NoPhraseEndsInG();
    SkipPhrases("Hello world", l, Hallucinations, PhraseEnds, 24, 28);
    assert Hallucinations[28..] == [];
  }

  /** After the first cut, no other phrase changes the first example. */
  lemma HelloLaterPhrasesPass(l: string)
    requires l == Lower("Hello world") + " " + "thank you for watching"
    ensures CutSuffixes("Hello world", l, Hallucinations[1..]) == Kept("Hello world")
  {
    HelloPassesPhrase1(l);
    HelloSkipsTo14(l);
    HelloPassesPhrase14(l);
    HelloPassesPhrase15(l);
    HelloSkipsTo23(l);
    HelloPassesTheRest(l);
  }

  /** A text of more than two characters, without whitespace at its ends and with three
      distinct characters other than the space, passes the closing tests unchanged. */
  lemma MeaningfulWhole(t: string, i: int, j: int, k: int)
    requires |t| > 2 && !PyIsSpace(t[0]) && !PyIsSpace(t[|t| - 1])
    requires 0 <= i < |t| && 0 <= j < |t| && 0 <= k < |t|
    requires t[i] != ' ' && t[j] != ' ' && t[k] != ' '
    requires t[i] != t[j] && t[j] != t[k] && t[i] != t[k]
    ensures KeepIfMeaningful(t) == t
  {
    StripFixed(t);
    ThreeDistinct(t, i, j, k);
  }

  /** A text the loop cuts to `r`, which passes the closing tests unchanged, is filtered to
      `r`. */
  lemma CutToMeaningful(text: string, phrases: seq<string>, r: string)
    requires text != [] && Lowered(text) !in phrases
    requires CutSuffixes(text, Lowered(text), phrases) == Kept(r) && KeepIfMeaningful(r) == r
    ensures FilterAsWritten(text, phrases) == r
  {
  }

  /** A first pass that keeps `mid` hands `mid` to the rest of the loop. */
  lemma FirstPassThenRest(text: string, lowered: string, phrases: seq<string>, mid: string)
    requires phrases != [] && CutOnce(text, lowered, phrases[0]) == Kept(mid)
    ensures CutSuffixes(text, lowered, phrases) == CutSuffixes(mid, lowered, phrases[1..])
  {
  }

  /** Content `w`, a space and the first phrase `h` of the blacklist: when the rest of the
      loop leaves `w` alone and `w` passes the closing tests, the filter returns `w`. */
  lemma FilterContentThenPhrase(w: string, h: string, phrases: seq<string>)
    requires w != [] && !PyIsSpace(w[0]) && !PyIsSpace(w[|w| - 1]) && !IsStripPunct(w[|w| - 1])
    requires h != [] && NoUpper(h) && !PyIsSpace(h[|h| - 1])
    requires phrases != [] && phrases[0] == h && Lower(w) + " " + h !in phrases
    requires CutSuffixes(w, Lower(w) + " " + h, phrases[1..]) == Kept(w)
    requires KeepIfMeaningful(w) == w
    ensures FilterAsWritten(w + " " + h, phrases) == w
  {
    var text, l := w + " " + h, Lower(w) + " " + h;
    assert Lowered(text) == l by { LoweredWithPhrase(w, h); }
    assert CutOnce(text, l, phrases[0]) == Kept(w) by { CutAfterContent(w, h); }
    assert CutSuffixes(text, l, phrases) == Kept(w) by { FirstPassThenRest(text, l, phrases, w); }
    CutToMeaningful(text, phrases, w);
  }

  /** The docstring's first example holds: "Hello world thank you for watching" (written here
      as its content, a space and the phrase) becomes "Hello world". */
  lemma DocExampleHelloWorld(text: string)
    requires text == "Hello world" + " " + "thank you for watching"
    ensures FilterAsWritten(text, Hallucinations) == "Hello world"
  {
    var w, h := "Hello world", "thank you for watching";
    HelloContentShape(w);
    HelloPhraseShape(h);
    HelloAgainstBlacklist(w, h);
    FilterContentThenPhrase(w, h, Hallucinations);
  }

  /** The content of the first example has the shape the cut needs and passes the closing
      tests. */
  lemma HelloContentShape(w: string)
    requires w == "Hello world"
    ensures w != [] && !PyIsSpace(w[0]) && !PyIsSpace(w[|w| - 1]) && !IsStripPunct(w[|w| - 1])
    ensures KeepIfMeaningful(w) == w
  {
    VisibleIsNotSpace(w[0]);
    VisibleIsNotSpace(w[10]);
    MeaningfulWhole(w, 0, 1, 2);
  }

  /** The phrase of the first example is lower case and ends in a visible character. */
  lemma HelloPhraseShape(h: string)
    requires h == "thank you for watching"
    ensures h != [] && NoUpper(h) && !PyIsSpace(h[|h| - 1])
  {
    VisibleIsNotSpace(h[21]);
    assert NoUpper(h);
  }

  /** The first example's phrase heads the blacklist, its lowered form is no phrase, and the
      later phrases leave "Hello world" alone. */
  lemma HelloAgainstBlacklist(w: string, h: string)
    requires w == "Hello world" && h == "thank you for watching"
    ensures Hallucinations != [] && Hallucinations[0] == h
    ensures Lower(w) + " " + h !in Hallucinations
    ensures CutSuffixes(w, Lower(w) + " " + h, Hallucinations[1..]) == Kept(w)
  {
    assert Hallucinations[0] == h;
    LongTextIsNoPhrase(Lower(w) + " " + h);
    HelloLaterPhrasesPass(Lower(w) + " " + h);
  }

  /** A phrase of the blacklist given as the whole text is filtered to "". */
  lemma ExactPhraseIsDropped(k: int)
    requires 0 <= k < |Hallucinations| && NoUpper(Hallucinations[k])
    requires !PyIsSpace(Hallucinations[k][0]) && !PyIsSpace(Hallucinations[k][|Hallucinations[k]| - 1])
    ensures FilterAsWritten(Hallucinations[k], Hallucinations) == []
  {
    LowerOfLowerCase(Hallucinations[k]);
    LoweredOfStripped(Hallucinations[k]);
  }

  /** The docstring's example "thanks for watching" holds: it becomes "". */
  lemma DocExampleThanks()
    ensures FilterAsWritten("thanks for watching", Hallucinations) == []
  {
    var w := Hallucinations[1];
    assert NoUpper(w);
    VisibleIsNotSpace(w[0]);
    VisibleIsNotSpace(w[18]);
    ExactPhraseIsDropped(1);
  }

  /** The docstring's example "you" holds: it becomes "". */
  lemma DocExampleYou()
    ensures FilterAsWritten("you", Hallucinations) == []
  {
    var w := Hallucinations[25];
    assert NoUpper(w);
    VisibleIsNotSpace(w[0]);
    VisibleIsNotSpace(w[2]);
    ExactPhraseIsDropped(25);
  }

  /** The third docstring example passes the closing tests whole. */
  lemma BellIsMeaningful(text: string)
    requires text == "Please subscribe and hit the bell"
    ensures KeepIfMeaningful(text) == text
  {
    VisibleIsNotSpace(text[0]);
    VisibleIsNotSpace(text[32]);
    MeaningfulWhole(text, 0, 1, 2);
  }

  /** The loop leaves the third docstring example untouched. */
  lemma BellPassesLoop(text: string)
    requires text == "Please subscribe and hit the bell"
    ensures Lowered(text) !in Hallucinations
    ensures CutSuffixes(text, Lowered(text), Hallucinations) == Kept(text)
  {
    VisibleIsNotSpace(text[0]);
    VisibleIsNotSpace(text[32]);
    LoweredOfStripped(text);
    assert Lower(text)[32] == 'l';
    LongTextIsNoPhrase(Lower(text));
    BellSkipsAll(text, Lower(text));
  }

  /** The docstring's third example does not hold for the code: no phrase ends in `l`, so
      "Please subscribe and hit the bell" passes the loop untouched and comes back whole. */
  lemma DocExampleBellIsKept(text: string)
    requires text == "Please subscribe and hit the bell"
    ensures FilterAsWritten(text, Hallucinations) == text
  {
    BellPassesLoop(text);
    BellIsMeaningful(text);
    CutToMeaningful(text, Hallucinations, text);
  }

  /** No phrase ends in `l`, so the loop leaves a text whose lowered form ends in `l` alone. */
  lemma BellSkipsAll(t: string, l: string)
    requires l != [] && l[|l| - 1] == 'l'
    ensures CutSuffixes(t, l, Hallucinations) == Kept(t)
  {
    PhraseLast();
    NoPhraseEndsInL();
    SkipPhrases(t, l, Hallucinations, PhraseEnds, 0, 28);
    assert Hallucinations[0..] == Hallucinations && Hallucinations[28..] == [];
  }
}
