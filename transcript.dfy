// `strip_vtt_timestamps`: five `re.sub` passes over the text, then `strip()`.
//
// Each pass is `Sub(p, text, true)`: `re.sub` scans left to right, tries the
// pattern at the current position, and on a match emits the replacement and
// resumes right after the match; otherwise it copies one character. None of
// the five patterns can match the empty string, so Python's rules for empty
// matches never come into play.
module Transcript {
  import opened Strings
  import opened Patterns

  /** The five patterns, in the order the cleaner applies them. */
  datatype Pattern =
    | Header      // WEBVTT\n.*?\n\n with DOTALL
    | Timing      // two timestamps joined by " --> ", then .*?\n
    | Tag         // <[^>]*>
    | NumberLine  // ^\d+\s*$ with MULTILINE
    | NewlineRun  // \n+

  /** What `re.sub` puts in place of each match. */
  function Replacement(p: Pattern): string {
    if p == NewlineRun then "\n" else ""
  }

  /** The match of `p` at the current position: `t` is the rest of the text and
      `bol` tells whether the position starts a line (where `^` holds in MULTILINE mode). */
  function MatchAt(p: Pattern, t: string, bol: bool): (r: Option<nat>)
    ensures r.Some? ==> 0 < r.value <= |t|
    ensures r.Some? ==> IsSubseq(Replacement(p), t[..r.value])
  {
    match p
    case Header => HeaderMatch(t)
    case Timing => TimingMatch(t)
    case Tag => TagMatch(t)
    case NumberLine => if bol then NumberLineMatch(t) else None
    case NewlineRun =>
      var r := NewlineRunMatch(t);
      if r.Some? then
        assert t[..r.value][0] == '\n';
        assert IsSubseq([], t[..r.value][1..]);
        r
      else r
  }

  /** `re.sub(p, Replacement(p), t)`; `bol` tells whether `t` starts a line. */
  function Sub(p: Pattern, t: string, bol: bool): string
    decreases |t|
  {
    if t == [] then []
    else match MatchAt(p, t, bol)
      case Some(n) => Replacement(p) + Sub(p, t[n..], t[n - 1] == '\n')
      case None => [t[0]] + Sub(p, t[1..], t[0] == '\n')
  }

  /** At a match, `re.sub` emits the replacement and resumes after the match. */
  lemma SubAtMatch(p: Pattern, t: string, bol: bool, n: nat)
    requires t != [] && MatchAt(p, t, bol) == Some(n)
    ensures Sub(p, t, bol) == Replacement(p) + Sub(p, t[n..], t[n - 1] == '\n')
  {
  }

  /** At a timing match the matched text is deleted. */
  lemma TimingSubAtMatch(t: string, bol: bool, n: nat)
    requires TimingMatch(t) == Some(n)
    ensures Sub(Timing, t, bol) == Sub(Timing, t[n..], t[n - 1] == '\n')
  {
    SubAtMatch(Timing, t, bol, n);
  }

  /** Where no match starts, `re.sub` copies one character. */
  lemma SubAtCopy(p: Pattern, t: string, bol: bool)
    requires t != [] && MatchAt(p, t, bol).None?
    ensures Sub(p, t, bol) == [t[0]] + Sub(p, t[1..], t[0] == '\n')
  {
  }

  function RemoveHeader(text: string): string { Sub(Header, text, true) }
  function RemoveTimings(text: string): string { Sub(Timing, text, true) }
  function RemoveTags(text: string): string { Sub(Tag, text, true) }
  function RemoveNumberLines(text: string): string { Sub(NumberLine, text, true) }
  function CollapseNewlines(text: string): string { Sub(NewlineRun, text, true) }

  predicate IsBlank(s: string) { forall k | 0 <= k < |s| :: IsSpace(s[k]) }

  /** No whitespace at either end of the text. */
  predicate NoOuterSpace(s: string) {
    s == [] || (!IsSpace(s[0]) && !IsSpace(s[|s| - 1]))
  }

  /** Number of whitespace characters at the end of `s`. */
  function TrailingSpace(s: string): (n: nat)
    ensures n <= |s|
    ensures forall k | |s| - n <= k < |s| :: IsSpace(s[k])
    ensures n < |s| ==> !IsSpace(s[|s| - n - 1])
  {
    if s == [] || !IsSpace(s[|s| - 1]) then 0 else 1 + TrailingSpace(s[..|s| - 1])
  }

  /** Where the text `strip()` keeps begins: after the leading whitespace. */
  function StripStart(s: string): (i: nat)
    ensures i <= |s|
  {
    LeadingRun(s, IsSpace)
  }

  /** Where it ends: before the whitespace that trails what `lstrip()` leaves. */
  function StripEnd(s: string): (j: nat)
    ensures StripStart(s) <= j <= |s|
  {
    |s| - TrailingSpace(s[StripStart(s)..])
  }

  /** `str.strip()`, that is `lstrip()` followed by `rstrip()`. */
  function Strip(s: string): (r: string)
    ensures NoOuterSpace(r) && |r| <= |s|
  {
    var i, j := StripStart(s), StripEnd(s);
    assert i < j ==> s[i..][|s| - i - TrailingSpace(s[i..]) - 1] == s[j - 1];
    s[i..j]
  }

  /** `strip()` removes whitespace at the two ends and nothing else. */
  lemma StripIsTrim(s: string)
    ensures exists i, j | 0 <= i <= j <= |s| :: Strip(s) == s[i..j] && IsBlank(s[..i]) && IsBlank(s[j..])
  {
    StripBounds(s);
  }

  lemma StripBounds(s: string)
    ensures Strip(s) == s[StripStart(s)..StripEnd(s)]
    ensures IsBlank(s[..StripStart(s)]) && IsBlank(s[StripEnd(s)..])
  {
    var i, j := StripStart(s), StripEnd(s);
    assert forall k | 0 <= k < i :: s[..i][k] == s[k];
    assert forall k | 0 <= k < |s| - j :: s[j..][k] == s[i..][k + j - i];
  }

  /** `strip_vtt_timestamps`. */
  function StripVttTimestamps(vttText: string): string {
    Strip(CollapseNewlines(RemoveNumberLines(RemoveTags(RemoveTimings(RemoveHeader(vttText))))))
  }

  // =====================================================================
  // Every pass only deletes (or, for newline runs, contracts)

  lemma {:induction false} SubIsSubseq(p: Pattern, t: string, bol: bool)
    ensures IsSubseq(Sub(p, t, bol), t)
    decreases |t|
  {
    if t != [] {
      match MatchAt(p, t, bol)
      case Some(n) =>
        SubIsSubseq(p, t[n..], t[n - 1] == '\n');
        SubAtMatch(p, t, bol, n);
        SubseqSplit(Replacement(p), Sub(p, t[n..], t[n - 1] == '\n'), Sub(p, t, bol), t, n);
      case None =>
        SubIsSubseq(p, t[1..], t[0] == '\n');
        SubAtCopy(p, t, bol);
        SubseqRefl([t[0]]);
        SubseqSplit([t[0]], Sub(p, t[1..], t[0] == '\n'), Sub(p, t, bol), t, 1);
    }
  }

  /** Pieces taken from the two parts of a split text make a subsequence of it. */
  lemma SubseqSplit(a1: string, a2: string, a: string, t: string, n: nat)
    requires n <= |t| && a == a1 + a2
    requires IsSubseq(a1, t[..n]) && IsSubseq(a2, t[n..])
    ensures IsSubseq(a, t)
  {
    SubseqConcat(a1, t[..n], a2, t[n..]);
    assert t[..n] + t[n..] == t;
  }

  /** No `<` in the text has a `>` anywhere after it. */
  predicate NoTagSpan(s: string) {
    forall i, j | 0 <= i < j < |s| :: s[i] == '<' ==> s[j] != '>'
  }

  lemma NoTagSpanCons(c: char, s: string)
    requires NoTagSpan(s) && (c == '<' ==> '>' !in s)
    ensures NoTagSpan([c] + s)
  {
    var t := [c] + s;
    forall i, j | 0 <= i < j < |t| ensures t[i] == '<' ==> t[j] != '>' {
      assert t[j] == s[j - 1];
      if i > 0 { assert t[i] == s[i - 1]; }
    }
  }

  /** Deleting characters cannot create a `<` ... `>` pair. */
  lemma {:induction false} NoTagSpanSubseq(a: string, b: string)
    requires IsSubseq(a, b) && NoTagSpan(b)
    ensures NoTagSpan(a)
    decreases |b|
  {
    if a != [] {
      assert NoTagSpan(b[1..]) by {
        forall i, j | 0 <= i < j < |b[1..]| ensures b[1..][i] == '<' ==> b[1..][j] != '>' {
          assert b[1..][i] == b[i + 1] && b[1..][j] == b[j + 1];
        }
      }
      if a[0] == b[0] && IsSubseq(a[1..], b[1..]) {
        NoTagSpanSubseq(a[1..], b[1..]);
        if a[0] == '<' {
          assert '>' !in b[1..] by {
            forall j | 0 <= j < |b[1..]| ensures b[1..][j] != '>' { assert b[1..][j] == b[j + 1]; }
          }
          if '>' in a[1..] { SubseqChars(a[1..], b[1..], '>'); }
        }
        NoTagSpanCons(a[0], a[1..]);
        assert [a[0]] + a[1..] == a;
      } else {
        NoTagSpanSubseq(a, b[1..]);
      }
    }
  }

  /** After the tag pass no `<` has a `>` after it. */
  lemma {:induction false} RemoveTagsLeavesNoTag(t: string, bol: bool)
    ensures NoTagSpan(Sub(Tag, t, bol))
    decreases |t|
  {
    if t != [] {
      match TagMatch(t)
      case Some(n) =>
        RemoveTagsLeavesNoTag(t[n..], t[n - 1] == '\n');
        assert Sub(Tag, t, bol) == Sub(Tag, t[n..], t[n - 1] == '\n');
      case None =>
        var rest := Sub(Tag, t[1..], t[0] == '\n');
        RemoveTagsLeavesNoTag(t[1..], t[0] == '\n');
        if t[0] == '<' {
          // the `<` is kept only because no `>` follows it
          SubIsSubseq(Tag, t[1..], t[0] == '\n');
          if '>' in rest { SubseqChars(rest, t[1..], '>'); }
        }
        NoTagSpanCons(t[0], rest);
    }
  }

  /** After the newline pass no two newlines are adjacent. */
  lemma {:induction false} CollapseLeavesNoBlankPair(t: string, bol: bool)
    ensures NoBlankPair(Sub(NewlineRun, t, bol))
    decreases |t|
  {
    if t != [] {
      match NewlineRunMatch(t)
      case Some(n) =>
        var rest := Sub(NewlineRun, t[n..], t[n - 1] == '\n');
        CollapseLeavesNoBlankPair(t[n..], t[n - 1] == '\n');
        if t[n..] != [] {
          CollapseStartsWith(t[n..], t[n - 1] == '\n');
        }
        NoBlankPairCons('\n', rest);
      case None =>
        var rest := Sub(NewlineRun, t[1..], t[0] == '\n');
        CollapseLeavesNoBlankPair(t[1..], t[0] == '\n');
        NoBlankPairCons(t[0], rest);
    }
  }

  /** A text that does not start with a newline keeps its first character through the newline pass. */
  lemma CollapseStartsWith(t: string, bol: bool)
    requires t != [] && t[0] != '\n'
    ensures Sub(NewlineRun, t, bol) != [] && Sub(NewlineRun, t, bol)[0] == t[0]
  {
  }

  lemma NoBlankPairCons(c: char, s: string)
    requires NoBlankPair(s) && (c == '\n' && s != [] ==> s[0] != '\n')
    ensures NoBlankPair([c] + s)
  {
    var t := [c] + s;
    forall k | 0 <= k < |t| - 1 ensures !(t[k] == '\n' && t[k + 1] == '\n') {
      assert t[k + 1] == s[k];
      if k > 0 { assert t[k] == s[k - 1]; }
    }
  }

  // =====================================================================
  // Properties of the whole cleaner

  lemma StripIsSubseq(s: string)
    ensures IsSubseq(Strip(s), s)
    ensures NoBlankPair(s) ==> NoBlankPair(Strip(s))
  {
    StripBounds(s);
    var i, j := StripStart(s), StripEnd(s);
    SubseqSlice(s, i, j);
    if NoBlankPair(s) { NoBlankPairSlice(s, i, j); }
  }

  /** The cleaned transcript has no blank line, no outer whitespace and no tag,
      and it is obtained from the input by deleting characters, so it is never longer. */
  lemma StripVttTimestampsProperties(vttText: string)
    ensures var r := StripVttTimestamps(vttText);
      NoBlankPair(r) && NoOuterSpace(r) && NoTagSpan(r) && IsSubseq(r, vttText) && |r| <= |vttText|
  {
    var t1 := RemoveHeader(vttText);
    var t2 := RemoveTimings(t1);
    var t3 := RemoveTags(t2);
    var t4 := RemoveNumberLines(t3);
    var t5 := CollapseNewlines(t4);
    var r := Strip(t5);
    SubIsSubseq(Header, vttText, true);
    SubIsSubseq(Timing, t1, true);
    SubIsSubseq(Tag, t2, true);
    SubIsSubseq(NumberLine, t3, true);
    SubIsSubseq(NewlineRun, t4, true);
    StripIsSubseq(t5);
    SubseqTrans(r, t5, t4);
    SubseqTrans(r, t4, t3);
    // the tag property holds from the third pass on
    RemoveTagsLeavesNoTag(t2, true);
    NoTagSpanSubseq(r, t3);
    CollapseLeavesNoBlankPair(t4, true);
    SubseqTrans(r, t3, t2);
    SubseqTrans(r, t2, t1);
    SubseqTrans(r, t1, vttText);
    SubseqLength(r, vttText);
  }

  // =====================================================================
  // Text already free of artefacts

  /** `p` matches nowhere in `t`; `bol` tells whether `t` starts a line. */
  predicate NoMatchFrom(p: Pattern, t: string, bol: bool)
    decreases |t|
  {
    t == [] || (MatchAt(p, t, bol).None? && NoMatchFrom(p, t[1..], t[0] == '\n'))
  }

  lemma {:induction false} SubNoMatch(p: Pattern, t: string, bol: bool)
    requires NoMatchFrom(p, t, bol)
    ensures Sub(p, t, bol) == t
    decreases |t|
  {
    if t != [] {
      SubNoMatch(p, t[1..], t[0] == '\n');
      assert [t[0]] + t[1..] == t;
    }
  }

  /** Without a blank pair the header pattern, which ends in one, matches nowhere. */
  lemma {:induction false} HeaderNeedsBlankPair(t: string, bol: bool)
    requires NoBlankPair(t)
    ensures NoMatchFrom(Header, t, bol)
    decreases |t|
  {
    if t != [] {
      NoBlankPairSlice(t, 1, |t|);
      HeaderNeedsBlankPair(t[1..], t[0] == '\n');
    }
  }

  /** Every `timestamp --> timestamp` shape of the text sits on its last line. */
  ghost predicate NoTimingLine(s: string) {
    forall i | 0 <= i < |s| :: TimingHead(s[i..]) ==> '\n' !in s[i..]
  }

  lemma {:induction false} TimingNeedsTimingLine(t: string, bol: bool)
    requires NoTimingLine(t)
    ensures NoMatchFrom(Timing, t, bol)
    decreases |t|
  {
    if t != [] {
      TimingMatchIsTimingLine(t);
      assert t[0..] == t;
      assert NoTimingLine(t[1..]) by {
        forall i | 0 <= i < |t[1..]| ensures TimingHead(t[1..][i..]) ==> '\n' !in t[1..][i..] {
          assert t[1..][i..] == t[i + 1..];
        }
      }
      TimingNeedsTimingLine(t[1..], t[0] == '\n');
    }
  }

  lemma {:induction false} TagNeedsTagSpan(t: string, bol: bool)
    requires NoTagSpan(t)
    ensures NoMatchFrom(Tag, t, bol)
    decreases |t|
  {
    if t != [] {
      NoTagSpanSubseq(t[1..], t) by { SubseqSlice(t, 1, |t|); assert t[1..|t|] == t[1..]; }
      TagNeedsTagSpan(t[1..], t[0] == '\n');
    }
  }

  /** No line of `t` is a number line; `bol` tells whether `t` starts a line. */
  predicate NoNumberLineFrom(t: string, bol: bool)
    decreases |t|
  {
    t == [] || ((bol ==> !IsNumberLine(Line(t))) && NoNumberLineFrom(t[1..], t[0] == '\n'))
  }

  /** No line of the text consists of digits followed only by whitespace. */
  predicate NoNumberLine(s: string) { NoNumberLineFrom(s, true) }

  lemma {:induction false} NumberLineNeedsNumberLine(t: string, bol: bool)
    requires NoNumberLineFrom(t, bol)
    ensures NoMatchFrom(NumberLine, t, bol)
    decreases |t|
  {
    if t != [] {
      NumberLineMatchIsNumberLine(t);
      NumberLineNeedsNumberLine(t[1..], t[0] == '\n');
    }
  }

  /** Without two adjacent newlines every newline run is a single newline, replaced by itself. */
  lemma {:induction false} CollapseKeepsSingleNewlines(t: string, bol: bool)
    requires NoBlankPair(t)
    ensures Sub(NewlineRun, t, bol) == t
    decreases |t|
  {
    if t != [] {
      NoBlankPairSlice(t, 1, |t|);
      CollapseKeepsSingleNewlines(t[1..], t[0] == '\n');
      if t[0] == '\n' {
        assert |t| > 1 ==> t[1] != '\n';
        assert NewlineRunMatch(t) == Some(1);
      }
      assert [t[0]] + t[1..] == t;
    }
  }

  lemma StripKeepsTrimmed(s: string)
    requires NoOuterSpace(s)
    ensures Strip(s) == s
  {
    assert s[0..] == s;
  }

  /** A text with none of the artefacts the cleaner targets. */
  ghost predicate ArtefactFree(s: string) {
    NoBlankPair(s) && NoTimingLine(s) && NoTagSpan(s) && NoNumberLine(s) && NoOuterSpace(s)
  }

  /** Already clean text is returned unchanged. (The `WEBVTT` header needs a blank pair
      to match, so a text without one needs no condition on the keyword.) */
  lemma StripVttTimestampsKeepsCleanText(s: string)
    requires ArtefactFree(s)
    ensures StripVttTimestamps(s) == s
  {
    HeaderNeedsBlankPair(s, true);
    SubNoMatch(Header, s, true);
    TimingNeedsTimingLine(s, true);
    SubNoMatch(Timing, s, true);
    TagNeedsTagSpan(s, true);
    SubNoMatch(Tag, s, true);
    NumberLineNeedsNumberLine(s, true);
    SubNoMatch(NumberLine, s, true);
    CollapseKeepsSingleNewlines(s, true);
    StripKeepsTrimmed(s);
  }

  // =====================================================================
  // What each pass does to particular lines

  /** Only the number-line pattern looks at the start-of-line flag. */
  lemma {:induction false} SubIgnoresBol(p: Pattern, t: string, b1: bool, b2: bool)
    requires p != NumberLine
    ensures Sub(p, t, b1) == Sub(p, t, b2)
  {
    if t != [] {
      MatchIgnoresBol(p, t, b1, b2);
    }
  }

  lemma MatchIgnoresBol(p: Pattern, t: string, b1: bool, b2: bool)
    requires p != NumberLine
    ensures MatchAt(p, t, b1) == MatchAt(p, t, b2)
  {
  }

  /** The pattern matches at none of the first `|pre|` positions of `pre + t`. */
  predicate NoMatchIn(p: Pattern, pre: string, t: string)
    decreases |pre|
  {
    pre == [] || (MatchAt(p, pre + t, false).None? && NoMatchIn(p, pre[1..], t))
  }

  lemma {:induction false} NoMatchInFromAll(p: Pattern, pre: string, t: string)
    requires forall i | 0 <= i < |pre| :: MatchAt(p, (pre + t)[i..], false).None?
    ensures NoMatchIn(p, pre, t)
    decreases |pre|
  {
    if pre != [] {
      assert (pre + t)[0..] == pre + t;
      NoMatchInShorterPrefix(p, pre, t);
      NoMatchInFromAll(p, pre[1..], t);
    }
  }

  /** For a pattern without `^`, characters at which it does not match are copied,
      and the rest is processed as on its own. */
  lemma {:induction false} SubKeepsPrefix(p: Pattern, pre: string, t: string, bol: bool)
    requires p != NumberLine && NoMatchIn(p, pre, t)
    ensures Sub(p, pre + t, bol) == pre + Sub(p, t, bol)
    decreases |pre|
  {
    if pre == [] {
      assert pre + t == t;
    } else {
      SubKeepsPrefix(p, pre[1..], t, pre[0] == '\n');
      SubKeepsFirst(p, pre, t, bol);
    }
  }

  /** One step of the induction: the first character is copied, the rest as before. */
  lemma SubKeepsFirst(p: Pattern, pre: string, t: string, bol: bool)
    requires p != NumberLine && pre != [] && MatchAt(p, pre + t, false).None?
    requires Sub(p, pre[1..] + t, pre[0] == '\n') == pre[1..] + Sub(p, t, pre[0] == '\n')
    ensures Sub(p, pre + t, bol) == pre + Sub(p, t, bol)
  {
    SubCopiesFirst(p, pre, t, bol);
    SubIgnoresBol(p, t, pre[0] == '\n', bol);
    ConsConcat(pre, Sub(p, t, bol));
  }

  lemma ConsConcat(pre: string, s: string)
    requires pre != []
    ensures [pre[0]] + (pre[1..] + s) == pre + s
  {
  }

  /** Where the pattern does not match, `re.sub` copies one character. */
  lemma SubCopiesFirst(p: Pattern, pre: string, t: string, bol: bool)
    requires p != NumberLine && pre != [] && MatchAt(p, pre + t, false).None?
    ensures Sub(p, pre + t, bol) == [pre[0]] + Sub(p, pre[1..] + t, pre[0] == '\n')
  {
    var u := pre + t;
    assert u[0] == pre[0] && u[1..] == pre[1..] + t;
    MatchIgnoresBol(p, u, false, bol);
    SubAtCopy(p, u, bol);
  }

  lemma NoMatchInShorterPrefix(p: Pattern, pre: string, t: string)
    requires pre != []
    requires forall i | 0 <= i < |pre| :: MatchAt(p, (pre + t)[i..], false).None?
    ensures forall i | 0 <= i < |pre[1..]| :: MatchAt(p, (pre[1..] + t)[i..], false).None?
  {
    forall i | 0 <= i < |pre[1..]| ensures MatchAt(p, (pre[1..] + t)[i..], false).None? {
      assert (pre[1..] + t)[i..] == (pre + t)[i + 1..];
    }
  }

  /** A timestamp starts with a digit. */
  lemma NoTimingWithoutDigit(u: string)
    requires u != [] && !IsDigit(u[0])
    ensures TimingMatch(u).None?
  {
    if |u| >= 11 { assert u[..11][0] == u[0]; }
    if |u| >= 12 { assert u[..12][0] == u[0]; }
  }

  /** Text without digits passes through the timing pass untouched, whatever comes after it. */
  lemma RemoveTimingsKeepsDigitFree(pre: string, t: string)
    requires forall k | 0 <= k < |pre| :: !IsDigit(pre[k])
    ensures RemoveTimings(pre + t) == pre + RemoveTimings(t)
  {
    forall i | 0 <= i < |pre| ensures MatchAt(Timing, (pre + t)[i..], false).None? {
      assert (pre + t)[i..][0] == pre[i];
      NoTimingWithoutDigit((pre + t)[i..]);
    }
    NoMatchInFromAll(Timing, pre, t);
    SubKeepsPrefix(Timing, pre, t, true);
  }

  /** Text before a timing match on its line is kept; the match and the rest of the line go. */
  lemma RemoveTimingsKeepsTextBefore(pre: string, line: string, rest: string)
    requires forall k | 0 <= k < |pre| :: !IsDigit(pre[k])
    requires TimingHead(line) && '\n' !in line
    ensures RemoveTimings(pre + line + "\n" + rest) == pre + RemoveTimings(rest)
  {
    var s := line + "\n" + rest;
    assert pre + line + "\n" + rest == pre + s;
    RemoveTimingsKeepsDigitFree(pre, s);
    RemoveTimingsDeletesLine(line, rest);
  }

  /** The timing pattern's `.*?` cannot cross a line, so a text without a newline is kept. */
  lemma RemoveTimingsNeedsNewline(s: string)
    requires '\n' !in s
    ensures RemoveTimings(s) == s
  {
    assert NoTimingLine(s) by {
      forall i | 0 <= i < |s| ensures '\n' !in s[i..] {
        assert forall k | 0 <= k < |s[i..]| :: s[i..][k] == s[i + k];
      }
    }
    TimingNeedsTimingLine(s, true);
    SubNoMatch(Timing, s, true);
  }

  /** A line that starts with `timestamp --> timestamp` is deleted together with its newline. */
  lemma RemoveTimingsDeletesLine(line: string, rest: string)
    requires TimingHead(line) && '\n' !in line
    ensures RemoveTimings(line + "\n" + rest) == RemoveTimings(rest)
  {
    var t := line + "\n" + rest;
    var a: nat, b: nat :| TimingHeadAt(line, a, b);
    assert t[..|line|] == line;
    TimingHeadPrefix(line, t, a, b);
    TimingLineDeleted(t, a, b, |line|);
    assert t[|line| + 1..] == rest;
  }

  /** The timing pass deletes a timing line with its newline and goes on after it. */
  lemma TimingLineDeleted(t: string, a: nat, b: nat, k: nat)
    requires TimingHeadAt(t, a, b) && k < |t| && t[k] == '\n' && '\n' !in t[..k]
    ensures Sub(Timing, t, true) == Sub(Timing, t[k + 1..], true)
  {
    TimingLineMatch(t, a, b, k);
    TimingSubAtMatch(t, true, k + 1);
  }

  /** A timing head matches up to and including the first newline. */
  lemma TimingLineMatch(t: string, a: nat, b: nat, k: nat)
    requires TimingHeadAt(t, a, b) && k < |t| && t[k] == '\n' && '\n' !in t[..k]
    ensures TimingMatch(t) == Some(k + 1)
  {
    assert forall j | 0 <= j < k :: t[..k][j] == t[j];
    LineEndAt(t, k);
    TimingHeadMatches(t, a, b);
  }

  /** A timing head stays one when more text follows. */
  lemma TimingHeadPrefix(line: string, t: string, a: nat, b: nat)
    requires TimingHeadAt(line, a, b) && line <= t
    ensures TimingHeadAt(t, a, b)
  {
    var n := a + |Arrow| + b;
    assert t[..n] == line[..n];
    assert t[..a] == line[..a];
    assert t[a..a + |Arrow|] == line[a..a + |Arrow|];
    assert t[a + |Arrow|..n] == line[a + |Arrow|..n];
  }

  /** No two colons three apart: every timestamp has such a pair (`H:MM:`), so no stamp starts in `s`. */
  predicate NoColonPair(s: string) {
    forall k | 0 <= k && k + 3 < |s| :: !(s[k] == ':' && s[k + 3] == ':')
  }

  /** `MM:SS.mmm --> MM:SS.mmm` has colons only at 2 and 16, so a tail without a colon pair adds none. */
  lemma ShortLineColons(s1: string, s2: string, tail: string)
    requires IsShortStamp(s1) && IsShortStamp(s2) && NoColonPair(tail)
    ensures NoColonPair(s1 + Arrow + s2 + tail)
  {
    var x := s1 + Arrow + s2 + tail;
    forall k | 0 <= k && k + 3 < |x| ensures !(x[k] == ':' && x[k + 3] == ':') {
      if k < 9 {
        assert x[k] == s1[k];
        if k == 2 { assert x[5] == s1[5]; }
      } else if k < 14 {
        assert x[k] == Arrow[k - 9];
      } else if k < 23 {
        assert x[k] == s2[k - 14];
        if k == 16 { assert x[19] == s2[5]; }
      } else {
        assert x[k] == tail[k - 23] && x[k + 3] == tail[k + 3 - 23];
      }
    }
  }

  /** An `H:MM:SS.mmm` stamp needs two colons three apart on one line. */
  lemma NoStampInLine(x: string, w: string, j: nat)
    requires x < w && w[|x|] == '\n' && j <= |x| && j + 11 <= |w|
    requires NoColonPair(x)
    ensures !IsOneDigitHourStamp(w[j..][..11])
  {
    var v := w[j..][..11];
    if j + 4 < |x| {
      assert v[1] == x[j + 1] && v[4] == x[j + 4];
    } else {
      assert v[|x| - j] == '\n';
    }
  }

  /** `MM:SS.mmm --> MM:SS.mmm` lines are not timing lines: the pattern wants an hour field.
      The tail may hold WebVTT cue settings such as ` align:start position:10%`. */
  lemma RemoveTimingsKeepsShortLine(s1: string, s2: string, tail: string, rest: string)
    requires IsShortStamp(s1) && IsShortStamp(s2) && NoColonPair(tail) && '\n' !in tail
    ensures var x := s1 + Arrow + s2 + tail;
      RemoveTimings(x + "\n" + rest) == x + "\n" + RemoveTimings(rest)
  {
    var x := s1 + Arrow + s2 + tail;
    var w := x + "\n" + rest;
    ShortLineColons(s1, s2, tail);
    assert x < w && w[|x|] == '\n';
    forall i | 0 <= i < |x + "\n"| ensures MatchAt(Timing, ((x + "\n") + rest)[i..], false).None? {
      assert (x + "\n") + rest == w;
      var u := w[i..];
      if i == |x| {
        NoTimingWithoutDigit(u);
      } else {
        if |u| >= 11 {
          NoStampInLine(x, w, i);
        }
        if |u| >= 12 {
          NoStampInLine(x, w, i + 1);
          assert u[..12][1..] == w[i + 1..][..11];
        }
      }
    }
    NoMatchInFromAll(Timing, x + "\n", rest);
    SubKeepsPrefix(Timing, x + "\n", rest, true);
  }

  /** A tag is deleted and the text before it, which opens no tag, is kept. */
  lemma RemoveTagsDeletesTag(pre: string, body: string, rest: string)
    requires '<' !in pre && '>' !in body
    ensures RemoveTags(pre + "<" + body + ">" + rest) == pre + RemoveTags(rest)
  {
    var t := "<" + body + ">" + rest;
    assert pre + "<" + body + ">" + rest == pre + t;
    NoTagIn(pre, t);
    SubKeepsPrefix(Tag, pre, t, true);
    SubAtTag(body, rest);
  }

  /** No tag starts inside text without `<`. */
  lemma NoTagIn(pre: string, t: string)
    requires '<' !in pre
    ensures NoMatchIn(Tag, pre, t)
  {
    forall i | 0 <= i < |pre| ensures MatchAt(Tag, (pre + t)[i..], false).None? {
      assert (pre + t)[i..][0] == pre[i];
    }
    NoMatchInFromAll(Tag, pre, t);
  }

  /** The tag pass deletes a tag and goes on after it. */
  lemma SubAtTag(body: string, rest: string)
    requires '>' !in body
    ensures Sub(Tag, "<" + body + ">" + rest, true) == Sub(Tag, rest, true)
  {
    var t := "<" + body + ">" + rest;
    var n := |body| + 2;
    assert t[1..] == body + ">" + rest;
    assert t[1..][..|body|] == body && t[1..][|body|] == '>';
    assert TagMatch(t) == Some(n);
    SubAtMatch(Tag, t, true, n);
    assert t[n..] == rest;
    SubIgnoresBol(Tag, rest, t[n - 1] == '\n', true);
  }

  /** A run of newlines becomes one newline, and the text before it, which holds none, is kept. */
  lemma CollapseNewlinesRun(pre: string, nl: string, rest: string)
    requires '\n' !in pre
    requires nl != [] && forall k | 0 <= k < |nl| :: nl[k] == '\n'
    requires rest == [] || rest[0] != '\n'
    ensures CollapseNewlines(pre + nl + rest) == pre + "\n" + CollapseNewlines(rest)
  {
    var t := nl + rest;
    assert pre + nl + rest == pre + t;
    NoNewlineRunIn(pre, t);
    SubKeepsPrefix(NewlineRun, pre, t, true);
    SubAtNewlineRun(nl, rest);
  }

  /** No newline run starts inside text without a newline. */
  lemma NoNewlineRunIn(pre: string, t: string)
    requires '\n' !in pre
    ensures NoMatchIn(NewlineRun, pre, t)
  {
    forall i | 0 <= i < |pre| ensures MatchAt(NewlineRun, (pre + t)[i..], false).None? {
      assert (pre + t)[i..][0] == pre[i];
    }
    NoMatchInFromAll(NewlineRun, pre, t);
  }

  /** The newline pass puts one newline for the whole run and goes on after it. */
  lemma SubAtNewlineRun(nl: string, rest: string)
    requires nl != [] && forall k | 0 <= k < |nl| :: nl[k] == '\n'
    requires rest == [] || rest[0] != '\n'
    ensures Sub(NewlineRun, nl + rest, true) == "\n" + Sub(NewlineRun, rest, true)
  {
    var t := nl + rest;
    assert forall k | 0 <= k < |nl| :: t[k] == '\n';
    assert rest != [] ==> t[|nl|] == rest[0];
    LeadingRunIs(t, IsNewline, |nl|);
    SubAtMatch(NewlineRun, t, true, |nl|);
    assert t[|nl|..] == rest;
    SubIgnoresBol(NewlineRun, rest, t[|nl| - 1] == '\n', true);
  }

  /** The header's `.*?` runs to the first blank pair after the keyword line. */
  lemma RemoveHeaderDropsBlock(meta: string, rest: string)
    requires NoBlankPair(meta + "\n")
    ensures RemoveHeader(HeaderKeyword + meta + "\n\n" + rest) == RemoveHeader(rest)
  {
    var t := HeaderKeyword + meta + "\n\n" + rest;
    HeaderEndsAtFirstBlankLine(meta, rest);
    assert t[|HeaderKeyword| + |meta| + 2..] == rest;
    SubIgnoresBol(Header, rest, true, true);
  }

  /** When the keyword line is followed by an empty line, the first cue goes with the header. */
  lemma RemoveHeaderSwallowsFirstCue(cue: string, rest: string)
    requires NoBlankPair("\n" + cue + "\n")
    ensures RemoveHeader("WEBVTT\n\n" + cue + "\n\n" + rest) == RemoveHeader(rest)
  {
    assert "\n" + cue + "\n" == ("\n" + cue) + "\n";
    RemoveHeaderDropsBlock("\n" + cue, rest);
    assert HeaderKeyword + ("\n" + cue) + "\n\n" + rest == "WEBVTT\n\n" + cue + "\n\n" + rest;
  }

  lemma LineOfCons(c: char, w: string)
    ensures Line([c] + w) == if c == '\n' then [] else [c] + Line(w)
  {
    var t := [c] + w;
    assert t[1..] == w;
    if c != '\n' {
      LineEndAt(t, LineEnd(w) + 1);
      assert t[..LineEnd(w) + 1] == [c] + w[..LineEnd(w)];
    }
  }

  /** A text starting with a non-digit starts no number line, so the flag does not matter. */
  lemma NoNumberLineFlag(t: string, b1: bool, b2: bool)
    requires t == [] || !IsDigit(t[0])
    ensures NoNumberLineFrom(t, b1) == NoNumberLineFrom(t, b2)
  {
    if t != [] {
      if t[0] == '\n' {
        assert LineEnd(t) == 0;
      } else {
        assert Line(t)[0] == t[0];
      }
    }
  }

  /** Away from a line start the number-line pass copies the current line unchanged. */
  lemma {:induction false} RemoveNumberLinesKeepsLine(t: string)
    ensures Line(Sub(NumberLine, t, false)) == Line(t)
    decreases |t|
  {
    if t != [] {
      var rest := Sub(NumberLine, t[1..], t[0] == '\n');
      LineOfCons(t[0], rest);
      LineOfCons(t[0], t[1..]);
      assert [t[0]] + t[1..] == t;
      if t[0] != '\n' {
        RemoveNumberLinesKeepsLine(t[1..]);
      }
    }
  }

  /** A line that is not a number line is kept with its newline, and the pass goes on with the next line. */
  lemma RemoveNumberLinesKeepsOtherLine(line: string, rest: string)
    requires '\n' !in line && !IsNumberLine(line)
    ensures RemoveNumberLines(line + "\n" + rest) == line + "\n" + RemoveNumberLines(rest)
  {
    if line == [] {
      assert line + "\n" + rest == "\n" + rest;
      NumberLinesKeepEmptyLine(rest);
    } else {
      NumberLinesKeepTextLine(line, rest);
    }
  }

  lemma NumberLinesKeepEmptyLine(rest: string)
    ensures Sub(NumberLine, "\n" + rest, true) == "\n" + Sub(NumberLine, rest, true)
  {
    var t := "\n" + rest;
    assert t[1..] == rest;
    NumberLinesKeepNewline(t, true);
  }

  lemma NumberLinesKeepTextLine(line: string, rest: string)
    requires line != [] && '\n' !in line && !IsNumberLine(line)
    ensures Sub(NumberLine, line + "\n" + rest, true) == line + "\n" + Sub(NumberLine, rest, true)
  {
    NoMatchAtOtherLine(line, rest);
    NumberLinesCopyFirst(line, rest);
    NumberLinesCopyLineTail(line[1..], rest);
    ConsLine(line, Sub(NumberLine, rest, true));
  }

  lemma ConsLine(line: string, x: string)
    requires line != []
    ensures [line[0]] + (line[1..] + "\n" + x) == line + "\n" + x
  {
    assert [line[0]] + line[1..] == line;
  }

  /** The number-line pattern does not match at the start of a line that is not a number line. */
  lemma NoMatchAtOtherLine(line: string, rest: string)
    requires '\n' !in line && !IsNumberLine(line)
    ensures NumberLineMatch(line + "\n" + rest).None?
  {
    var t := line + "\n" + rest;
    assert forall j | 0 <= j < |line| :: t[j] == line[j];
    assert t[|line|] == '\n';
    LineEndAt(t, |line|);
    assert Line(t) == line;
    NumberLineMatchIsNumberLine(t);
  }

  /** Where the number-line pattern does not match, the first character of the line is copied. */
  lemma NumberLinesCopyFirst(line: string, rest: string)
    requires line != [] && line[0] != '\n' && NumberLineMatch(line + "\n" + rest).None?
    ensures Sub(NumberLine, line + "\n" + rest, true)
      == [line[0]] + Sub(NumberLine, line[1..] + "\n" + rest, false)
  {
    var t := line + "\n" + rest;
    assert t[0] == line[0] && t[1..] == line[1..] + "\n" + rest;
    SubAtCopy(NumberLine, t, true);
  }

  /** Away from a line start `^` fails, so the rest of a line and its newline are copied. */
  lemma {:induction false} NumberLinesCopyLineTail(s: string, rest: string)
    requires '\n' !in s
    ensures Sub(NumberLine, s + "\n" + rest, false) == s + "\n" + Sub(NumberLine, rest, true)
    decreases |s|
  {
    var t := s + "\n" + rest;
    if s == [] {
      assert t == "\n" + rest && t[1..] == rest;
      NumberLinesKeepNewline(t, false);
    } else {
      assert t[0] == s[0] && s[0] != '\n';
      assert t[1..] == s[1..] + "\n" + rest;
      assert '\n' !in s[1..];
      SubAtCopy(NumberLine, t, false);
      NumberLinesCopyLineTail(s[1..], rest);
      assert [s[0]] + s[1..] == s;
    }
  }

  /** A newline is never the start of a number-line match, so the pass keeps it. */
  lemma RemoveNumberLinesKeepsNewline(t: string, bol: bool)
    requires t != [] && t[0] == '\n'
    ensures Sub(NumberLine, t, bol) != [] && Sub(NumberLine, t, bol)[0] == '\n'
  {
    NumberLineMatchIsNumberLine(t);
    assert LineEnd(t) == 0;
  }

  /** After the number-line pass no line consists of digits and trailing whitespace. */
  lemma {:induction false} RemoveNumberLinesLeavesNone(t: string, bol: bool)
    ensures NoNumberLineFrom(Sub(NumberLine, t, bol), bol)
    decreases |t|
  {
    if t != [] {
      match MatchAt(NumberLine, t, bol)
      case Some(n) =>
        var out := Sub(NumberLine, t[n..], t[n - 1] == '\n');
        RemoveNumberLinesLeavesNone(t[n..], t[n - 1] == '\n');
        if t[n..] != [] {
          RemoveNumberLinesKeepsNewline(t[n..], t[n - 1] == '\n');
        }
        NoNumberLineFlag(out, t[n - 1] == '\n', bol);
      case None =>
        var rest := Sub(NumberLine, t[1..], t[0] == '\n');
        var out := [t[0]] + rest;
        RemoveNumberLinesLeavesNone(t[1..], t[0] == '\n');
        assert out[1..] == rest;
        if bol {
          NumberLineMatchIsNumberLine(t);
          LineOfCons(t[0], rest);
          LineOfCons(t[0], t[1..]);
          assert [t[0]] + t[1..] == t;
          if t[0] != '\n' {
            RemoveNumberLinesKeepsLine(t[1..]);
          }
          assert Line(out) == Line(t);
        }
    }
  }

  /** A number line in front of a line that starts with visible text is deleted; its
      newline stays, because the pattern backs off to just before it. `\s*` crosses
      newlines, so whitespace-only lines between the two go with the number line. */
  lemma RemoveNumberLinesDeletesLine(digits: string, ws: string, rest: string)
    requires digits != [] && forall k | 0 <= k < |digits| :: IsDigit(digits[k])
    requires IsBlank(ws)
    requires !IsBlank(Line(rest))
    ensures RemoveNumberLines(digits + ws + "\n" + rest) == "\n" + RemoveNumberLines(rest)
  {
    var t := digits + ws + "\n" + rest;
    var e := |digits| + |ws|;
    NumberLineMatchAtNewline(t, e, digits, ws, rest);
    SubAtMatch(NumberLine, t, true, e);
    var u := t[e..];
    assert u[0] == '\n' && u[1..] == rest;
    NumberLinesKeepNewline(u, t[e - 1] == '\n');
  }

  /** The whitespace-only second line of `"12\n  \nHi"` is swallowed with the number line. */
  lemma RemoveNumberLinesSwallowsBlankLine(digits: string, ws1: string, ws2: string, rest: string)
    requires digits != [] && forall k | 0 <= k < |digits| :: IsDigit(digits[k])
    requires IsBlank(ws1) && IsBlank(ws2)
    requires !IsBlank(Line(rest))
    ensures RemoveNumberLines(digits + ws1 + "\n" + ws2 + "\n" + rest) == "\n" + RemoveNumberLines(rest)
  {
    var ws := ws1 + "\n" + ws2;
    assert forall k | 0 <= k < |ws| :: IsSpace(ws[k]) by {
      forall k | 0 <= k < |ws| ensures IsSpace(ws[k]) {
        if k < |ws1| { assert ws[k] == ws1[k]; }
        else if k > |ws1| { assert ws[k] == ws2[k - |ws1| - 1]; }
      }
    }
    RemoveNumberLinesDeletesLine(digits, ws, rest);
    assert digits + ws1 + "\n" + ws2 + "\n" + rest == digits + ws + "\n" + rest;
  }

  /** The number-line pass copies a newline and goes on at a line start. */
  lemma NumberLinesKeepNewline(u: string, bol: bool)
    requires u != [] && u[0] == '\n'
    ensures Sub(NumberLine, u, bol) == "\n" + Sub(NumberLine, u[1..], true)
  {
    if bol { assert LeadingRun(u, IsDigit) == 0; }
    SubAtCopy(NumberLine, u, bol);
  }

  lemma NumberLineMatchAtNewline(t: string, e: nat, digits: string, ws: string, rest: string)
    requires digits != [] && forall k | 0 <= k < |digits| :: IsDigit(digits[k])
    requires IsBlank(ws)
    requires !IsBlank(Line(rest))
    requires t == digits + ws + "\n" + rest && e == |digits| + |ws|
    ensures NumberLineMatch(t) == Some(e)
  {
    var d := |digits|;
    var u := ws + "\n" + rest;
    assert t == digits + u && t[d..] == u;
    DigitsBeforeBlank(digits, u);
    IndentOfVisibleLine(rest);
    SpaceRunThroughNewline(ws, rest);
    var w := |ws| + 1 + LeadingRun(rest, IsSpace);
    NumberLineMatchUnfold(t, d, w);
    assert forall p | e < p < d + w :: t[p] == rest[p - e - 1];
    LastNewlineOfRun(t, d, w, e);
  }

  /** The digit run ends where whitespace or a newline begins. */
  lemma DigitsBeforeBlank(digits: string, u: string)
    requires forall k | 0 <= k < |digits| :: IsDigit(digits[k])
    requires u != [] && IsSpace(u[0])
    ensures LeadingRun(digits + u, IsDigit) == |digits|
  {
    var t := digits + u;
    assert forall k | 0 <= k < |digits| :: t[k] == digits[k];
    assert t[|digits|] == u[0];
    LeadingRunIs(t, IsDigit, |digits|);
  }

  /** The whitespace run of `ws + "\n" + rest` crosses the newline and goes on through the indent of `rest`. */
  lemma SpaceRunThroughNewline(ws: string, rest: string)
    requires IsBlank(ws)
    ensures LeadingRun(ws + "\n" + rest, IsSpace) == |ws| + 1 + LeadingRun(rest, IsSpace)
  {
    var v := ws + "\n";
    forall k | 0 <= k < |v| ensures IsSpace(v[k]) {
      if k < |ws| { assert v[k] == ws[k]; }
    }
    LeadingRunAfter(v, rest, IsSpace);
  }

  /** A first line that is not blank starts with a newline-free indent and then a visible character. */
  lemma IndentOfVisibleLine(rest: string)
    requires !IsBlank(Line(rest))
    ensures LeadingRun(rest, IsSpace) < |rest|
    ensures forall k | 0 <= k < LeadingRun(rest, IsSpace) :: rest[k] != '\n'
  {
    var k :| 0 <= k < |Line(rest)| && !IsSpace(Line(rest)[k]);
    assert Line(rest)[k] == rest[k];
  }

  /** A newline in the whitespace run with none after it is where the match ends. */
  lemma LastNewlineOfRun(t: string, d: nat, w: nat, e: nat)
    requires 0 < d && d <= e < d + w < |t| && t[e] == '\n'
    requires forall p | e < p < d + w :: t[p] != '\n'
    ensures NumberLineEnd(t, d, w) == Some(e)
  {
    var run := t[d..d + w];
    assert run[e - d] == t[e];
    assert forall p | e - d < p < w :: run[p] == t[d + p];
    LastIndexOfIs(run, '\n', e - d);
  }

  /** Text that starts with a visible character has a first line that is not blank. */
  lemma VisibleStart(rest: string)
    requires rest != [] && !IsSpace(rest[0])
    ensures !IsBlank(Line(rest))
  {
    assert LineEnd(rest) > 0;
    assert Line(rest)[0] == rest[0];
  }

  // =====================================================================
  // Number lines in the final text

  /** Dropping characters from the front keeps the property for the line starts that remain. */
  lemma {:induction false} NoNumberLineFromSkip(t: string, bol: bool, k: nat)
    requires NoNumberLineFrom(t, bol) && 0 < k <= |t|
    ensures NoNumberLineFrom(t[k..], t[k - 1] == '\n')
    decreases k
  {
    if k > 1 {
      NoNumberLineFromSkip(t[1..], t[0] == '\n', k - 1);
      assert t[1..][k - 1..] == t[k..];
    }
  }

  lemma {:induction false} CollapseKeepsLine(u: string, b: bool)
    ensures Line(Sub(NewlineRun, u, b)) == Line(u)
    decreases |u|
  {
    if u != [] {
      LineOfCons(u[0], u[1..]);
      assert [u[0]] + u[1..] == u;
      if u[0] == '\n' {
        var n := NewlineRunMatch(u).value;
        LineOfCons('\n', Sub(NewlineRun, u[n..], u[n - 1] == '\n'));
      } else {
        LineOfCons(u[0], Sub(NewlineRun, u[1..], false));
        CollapseKeepsLine(u[1..], false);
      }
    }
  }

  /** Collapsing newline runs only removes empty lines, so it creates no number line. */
  lemma {:induction false} CollapseKeepsNoNumberLine(t: string, bol: bool)
    requires NoNumberLineFrom(t, bol)
    ensures NoNumberLineFrom(Sub(NewlineRun, t, bol), bol)
    decreases |t|
  {
    if t != [] {
      if t[0] == '\n' {
        var n := NewlineRunMatch(t).value;
        var rest := Sub(NewlineRun, t[n..], true);
        NoNumberLineFromSkip(t, bol, n);
        CollapseKeepsNoNumberLine(t[n..], true);
        LineOfCons('\n', rest);
        assert ("\n" + rest)[1..] == rest;
      } else {
        var rest := Sub(NewlineRun, t[1..], false);
        CollapseKeepsNoNumberLine(t[1..], false);
        LineOfCons(t[0], rest);
        LineOfCons(t[0], t[1..]);
        CollapseKeepsLine(t[1..], false);
        assert [t[0]] + t[1..] == t;
        assert ([t[0]] + rest)[1..] == rest;
      }
    }
  }

  /** A number line followed by whitespace up to its newline is still a number line. */
  lemma NumberLineTruncated(s: string, j: nat)
    requires j <= |s| && IsBlank(s[j..]) && IsNumberLine(Line(s[..j]))
    ensures IsNumberLine(Line(s))
  {
    var e0 := LineEnd(s[..j]);
    if e0 < j {
      assert s[..j][e0] == s[e0];
      assert forall k | 0 <= k < e0 :: s[..j][k] == s[k];
      LineEndAt(s, e0);
      assert Line(s) == Line(s[..j]);
    } else {
      var line := s[..j];
      var e := LineEnd(s);
      assert forall k | 0 <= k < j :: line[k] == s[k];
      assert e >= j;
      var d := LeadingRun(line, IsDigit);
      assert forall k | j <= k < |s| :: IsSpace(s[k]) by {
        forall k | j <= k < |s| ensures IsSpace(s[k]) { assert s[j..][k - j] == s[k]; }
      }
      LeadingRunIs(s[..e], IsDigit, d);
    }
  }

  /** Trailing whitespace can be cut without creating a number line. */
  lemma {:induction false} NoNumberLineFromPrefix(s: string, bol: bool, j: nat)
    requires NoNumberLineFrom(s, bol) && j <= |s| && IsBlank(s[j..])
    ensures NoNumberLineFrom(s[..j], bol)
    decreases j
  {
    if j > 0 {
      assert s[1..][j - 1..] == s[j..];
      NoNumberLineFromPrefix(s[1..], s[0] == '\n', j - 1);
      assert s[..j][1..] == s[1..][..j - 1];
      if bol && IsNumberLine(Line(s[..j])) {
        NumberLineTruncated(s, j);
      }
    }
  }

  lemma NoNumberLineFromWeaken(t: string)
    requires NoNumberLineFrom(t, true)
    ensures NoNumberLineFrom(t, false)
  {
  }

  /** In the cleaned transcript no line after the first is a number line. (The first can be:
      `strip()` runs last, so `"  12\nhello"` keeps its indented `12` and then loses the indent.) */
  lemma StripVttTimestampsNumberLines(vttText: string)
    ensures NoNumberLineFrom(StripVttTimestamps(vttText), false)
  {
    var t3 := RemoveTags(RemoveTimings(RemoveHeader(vttText)));
    var t4 := RemoveNumberLines(t3);
    RemoveNumberLinesLeavesNone(t3, true);
    CollapseKeepsNoNumberLine(t4, true);
    StripKeepsNoNumberLine(CollapseNewlines(t4));
  }

  /** `strip()` creates no number line after the first line. */
  lemma StripKeepsNoNumberLine(t: string)
    requires NoNumberLineFrom(t, true)
    ensures NoNumberLineFrom(Strip(t), false)
  {
    StripBounds(t);
    NoNumberLineTrim(t, StripStart(t), StripEnd(t));
  }

  /** Cutting whitespace off both ends creates no number line after the first line. */
  lemma NoNumberLineTrim(t: string, i: nat, j: nat)
    requires NoNumberLineFrom(t, true)
    requires i <= j <= |t| && IsBlank(t[..i]) && IsBlank(t[j..])
    ensures NoNumberLineFrom(t[i..j], false)
  {
    NoNumberLineFromPrefix(t, true, j);
    var u := t[..j];
    assert u[i..] == t[i..j];
    if i > 0 {
      NoNumberLineFromSkip(u, true, i);
      if u[i - 1] == '\n' { NoNumberLineFromWeaken(u[i..]); }
    } else {
      assert u[0..] == u;
      NoNumberLineFromWeaken(u);
    }
  }

  // =====================================================================
  // Re-cleaning: an indented number line on the first line

  /** Every timestamp has a colon at index 1 or 2, so text without a colon holds no timing match. */
  lemma {:induction false} NoTimingWithoutColon(t: string, bol: bool)
    requires ':' !in t
    ensures NoMatchFrom(Timing, t, bol)
    decreases |t|
  {
    if t != [] {
      if |t| >= 11 { assert t[..11][1] == t[1]; }
      if |t| >= 12 { assert t[..12][1..][1] == t[2]; }
      assert ':' !in t[1..];
      NoTimingWithoutColon(t[1..], t[0] == '\n');
    }
  }

  /** A text without digits holds no number line. */
  lemma {:induction false} NoNumberLineWithoutDigit(t: string, bol: bool)
    requires forall k | 0 <= k < |t| :: !IsDigit(t[k])
    ensures NoNumberLineFrom(t, bol)
    decreases |t|
  {
    if t != [] {
      NoNumberLineWithoutDigit(t[1..], t[0] == '\n');
      assert Line(t) == [] || Line(t)[0] == t[0];
    }
  }

  /** Positions inside a newline-free prefix start no line, apart from the first. */
  lemma {:induction false} NoNumberLineAfterPrefix(pre: string, rest: string, bol: bool)
    requires '\n' !in pre
    requires pre != [] && bol ==> !IsNumberLine(Line(pre + rest))
    requires NoNumberLineFrom(rest, if pre == [] then bol else false)
    ensures NoNumberLineFrom(pre + rest, bol)
    decreases |pre|
  {
    if pre == [] {
      assert pre + rest == rest;
    } else {
      assert (pre + rest)[1..] == pre[1..] + rest;
      assert (pre + rest)[0] == pre[0];
      NoNumberLineAfterPrefix(pre[1..], rest, false);
    }
  }

  /** Text made of characters that none of the five patterns can start with or end on. */
  predicate PlainWord(h: string) {
    h != [] && forall k | 0 <= k < |h| :: !IsSpace(h[k]) && !IsDigit(h[k]) && h[k] != '<' && h[k] != ':'
  }

  /** The header, timing and tag passes keep a text without a blank pair, a colon or a `<`. */
  lemma FirstPassesKeep(t: string)
    requires NoBlankPair(t) && ':' !in t && '<' !in t
    ensures RemoveTags(RemoveTimings(RemoveHeader(t))) == t
  {
    HeaderNeedsBlankPair(t, true);
    SubNoMatch(Header, t, true);
    NoTimingWithoutColon(t, true);
    SubNoMatch(Timing, t, true);
    TagNeedsTagSpan(t, true);
    SubNoMatch(Tag, t, true);
  }

  /** Facts about `ind + digits + "\n" + h` that the passes need. */
  lemma IndentedShape(ind: string, digits: string, h: string)
    requires forall k | 0 <= k < |ind| :: ind[k] == ' '
    requires digits != [] && forall k | 0 <= k < |digits| :: IsDigit(digits[k])
    requires PlainWord(h)
    ensures var s := ind + digits + "\n" + h;
      NoBlankPair(s) && ':' !in s && '<' !in s && s[|s| - 1] == h[|h| - 1]
  {
    var s := ind + digits + "\n" + h;
    var n := |ind| + |digits|;
    forall k | 0 <= k < |s|
      ensures s[k] != ':' && s[k] != '<' && (s[k] == '\n' ==> k == n)
    {
      if k < |ind| { assert s[k] == ind[k]; }
      else if k < n { assert s[k] == digits[k - |ind|]; }
      else if k > n { assert s[k] == h[k - n - 1]; }
    }
    assert s[n + 1] == h[0];
  }

  /** A number line followed by a plain word: the number-line pass deletes the digits,
      and `strip()` then deletes the newline that is left. */
  lemma NumberLineFirstCleaned(digits: string, h: string)
    requires digits != [] && forall k | 0 <= k < |digits| :: IsDigit(digits[k])
    requires PlainWord(h)
    ensures StripVttTimestamps(digits + "\n" + h) == h
  {
    var t := digits + "\n" + h;
    IndentedShape([], digits, h);
    assert [] + digits + "\n" + h == t;
    FirstPassesKeep(t);
    assert t == digits + [] + "\n" + h;
    VisibleStart(h);
    RemoveNumberLinesDeletesLine(digits, [], h);
    NoNumberLineWithoutDigit(h, true);
    NumberLineNeedsNumberLine(h, true);
    SubNoMatch(NumberLine, h, true);
    NewlineThenWord(h);
  }

  /** `"\n" + h` survives the newline pass and loses its newline to `strip()`. */
  lemma NewlineThenWord(h: string)
    requires PlainWord(h)
    ensures Strip(CollapseNewlines("\n" + h)) == h
  {
    var u := "\n" + h;
    forall k | 0 <= k < |u| - 1 ensures !(u[k] == '\n' && u[k + 1] == '\n') {
      assert u[k + 1] == h[k];
    }
    CollapseKeepsSingleNewlines(u, true);
    assert u[1] == h[0];
    LeadingRunIs(u, IsSpace, 1);
    assert u[1..] == h;
    assert u[1..][|u| - 2] == h[|h| - 1];
  }

  /** An indented number line on the first line survives the cleaner: the number-line
      pass sees the indent, and `strip()`, which runs last, then removes it. */
  lemma IndentedNumberLineSurvives(ind: string, digits: string, h: string)
    requires ind != [] && forall k | 0 <= k < |ind| :: ind[k] == ' '
    requires digits != [] && forall k | 0 <= k < |digits| :: IsDigit(digits[k])
    requires PlainWord(h)
    ensures StripVttTimestamps(ind + digits + "\n" + h) == digits + "\n" + h
  {
    var s := ind + digits + "\n" + h;
    IndentedShape(ind, digits, h);
    FirstPassesKeep(s);
    IndentedNoNumberLine(ind, digits, h);
    NumberLineNeedsNumberLine(s, true);
    SubNoMatch(NumberLine, s, true);
    CollapseKeepsSingleNewlines(s, true);
    IndentStripped(ind, digits, h);
  }

  lemma IndentedNoNumberLine(ind: string, digits: string, h: string)
    requires ind != [] && forall k | 0 <= k < |ind| :: ind[k] == ' '
    requires digits != [] && forall k | 0 <= k < |digits| :: IsDigit(digits[k])
    requires PlainWord(h)
    ensures NoNumberLine(ind + digits + "\n" + h)
  {
    var pre := ind + digits;
    var rest := "\n" + h;
    assert forall k | 0 <= k < |h| :: !IsDigit(h[k]);
    NoNumberLineWithoutDigit(h, true);
    assert rest[1..] == h;
    assert NoNumberLineFrom(rest, false);
    assert '\n' !in pre by {
      forall k | 0 <= k < |pre| ensures pre[k] != '\n' {
        if k < |ind| { assert pre[k] == ind[k]; } else { assert pre[k] == digits[k - |ind|]; }
      }
    }
    var s := pre + rest;
    assert s[0] == ' ';
    assert Line(s) == [] || Line(s)[0] == s[0];
    NoNumberLineAfterPrefix(pre, rest, true);
    assert ind + digits + "\n" + h == s;
  }

  lemma IndentStripped(ind: string, digits: string, h: string)
    requires ind != [] && forall k | 0 <= k < |ind| :: ind[k] == ' '
    requires digits != [] && forall k | 0 <= k < |digits| :: IsDigit(digits[k])
    requires PlainWord(h)
    ensures Strip(ind + digits + "\n" + h) == digits + "\n" + h
  {
    var s := ind + digits + "\n" + h;
    assert forall k | 0 <= k < |ind| :: s[k] == ind[k];
    assert s[|ind|] == digits[0];
    LeadingRunIs(s, IsSpace, |ind|);
    var r := s[|ind|..];
    assert r == digits + "\n" + h;
    assert r[|r| - 1] == h[|h| - 1];
  }

  /** The cleaner is not idempotent: `"  12\nhello"` cleans to `"12\nhello"`, which cleans
      to `"hello"`. */
  lemma CleanerNotIdempotent(ind: string, digits: string, h: string)
    requires ind != [] && forall k | 0 <= k < |ind| :: ind[k] == ' '
    requires digits != [] && forall k | 0 <= k < |digits| :: IsDigit(digits[k])
    requires PlainWord(h)
    ensures var s := ind + digits + "\n" + h;
      StripVttTimestamps(StripVttTimestamps(s)) == h != StripVttTimestamps(s)
  {
    IndentedNumberLineSurvives(ind, digits, h);
    NumberLineFirstCleaned(digits, h);
  }
}
