// The five regular expressions of `strip_vtt_timestamps`, each as a matcher:
// given the text from the current scan position on, the length of the match
// Python's `re` finds there, or None.  Backtracking is resolved by hand: each
// matcher returns the one match the leftmost-first regex semantics picks.
module Patterns {
  import opened Strings

  // ---------------------------------------------------------------------
  // Blank line pairs ("\n\n")

  /** The text holds no two consecutive newlines. */
  predicate NoBlankPair(s: string) {
    forall k | 0 <= k < |s| - 1 :: !(s[k] == '\n' && s[k + 1] == '\n')
  }

  /** Start of the first "\n\n" in `s`. */
  function FindBlankPair(s: string): (r: Option<nat>)
    ensures r.Some? ==> r.value + 1 < |s| && s[r.value] == '\n' && s[r.value + 1] == '\n'
    ensures r.Some? ==> NoBlankPair(s[..r.value + 1])
    ensures r.None? ==> NoBlankPair(s)
    decreases |s|
  {
    if |s| < 2 then None
    else if s[0] == '\n' && s[1] == '\n' then Some(0)
    else match FindBlankPair(s[1..])
      case None =>
        NoBlankPairExtend(s, |s|);
        None
      case Some(k) =>
        assert s[1..][..k + 1] == s[1..k + 2];
        NoBlankPairExtend(s, k + 2);
        Some(k + 1)
  }

  /** A prefix whose first two characters are not a pair, and whose tail has no pair, has none. */
  lemma NoBlankPairExtend(s: string, n: nat)
    requires 2 <= n <= |s| && !(s[0] == '\n' && s[1] == '\n') && NoBlankPair(s[1..n])
    ensures NoBlankPair(s[..n])
  {
    forall k | 0 <= k < n - 1
      ensures !(s[..n][k] == '\n' && s[..n][k + 1] == '\n')
    {
      if k > 0 {
        assert s[1..n][k - 1] == s[k] && s[1..n][k] == s[k + 1];
      }
    }
  }

  lemma NoBlankPairSlice(s: string, i: nat, j: nat)
    requires NoBlankPair(s) && i <= j <= |s|
    ensures NoBlankPair(s[i..j])
  {
    forall k | 0 <= k < |s[i..j]| - 1
      ensures !(s[i..j][k] == '\n' && s[i..j][k + 1] == '\n')
    {
      assert s[i..j][k] == s[i + k] && s[i..j][k + 1] == s[i + k + 1];
    }
  }

  // ---------------------------------------------------------------------
  // r'WEBVTT\n.*?\n\n' with DOTALL

  const HeaderKeyword: string := "WEBVTT\n"

  /** The header block: the keyword line, then the shortest run of any
      characters (newlines included) that is followed by a blank pair. */
  function HeaderMatch(t: string): (r: Option<nat>)
    ensures r.Some? ==> |HeaderKeyword| + 2 <= r.value <= |t| && StartsWith(t, HeaderKeyword)
    ensures r.Some? ==> t[r.value - 2] == '\n' && t[r.value - 1] == '\n'
    ensures r.Some? ==> NoBlankPair(t[|HeaderKeyword|..r.value - 1])
    ensures r.None? ==> !StartsWith(t, HeaderKeyword) || NoBlankPair(t[|HeaderKeyword|..])
  {
    if !StartsWith(t, HeaderKeyword) then None
    else match FindBlankPair(t[|HeaderKeyword|..])
      case None => None
      case Some(k) =>
        assert t[|HeaderKeyword|..][..k + 1] == t[|HeaderKeyword|..|HeaderKeyword| + k + 1];
        Some(|HeaderKeyword| + k + 2)
  }

  /** The match ends at the first blank pair after the keyword line: a
      metadata block without a blank pair of its own ends at the first one. */
  lemma HeaderEndsAtFirstBlankLine(meta: string, rest: string)
    requires NoBlankPair(meta + "\n")
    ensures HeaderMatch(HeaderKeyword + meta + "\n\n" + rest) == Some(|HeaderKeyword| + |meta| + 2)
  {
    var t := HeaderKeyword + meta + "\n\n" + rest;
    var s := t[|HeaderKeyword|..];
    assert s == meta + "\n\n" + rest;
    assert s[|meta|] == '\n' && s[|meta| + 1] == '\n';
    assert s[..|meta| + 1] == meta + "\n";
    // no pair starts before |meta|, and one starts at |meta|
    forall j | 0 <= j < |meta|
      ensures !(s[j] == '\n' && s[j + 1] == '\n')
    {
      assert s[..|meta| + 1][j] == s[j] && s[..|meta| + 1][j + 1] == s[j + 1];
    }
    var k := FindBlankPair(s).value;
    assert k <= |meta| by {
      if k > |meta| {
        assert false;
      }
    }
  }

  // ---------------------------------------------------------------------
  // r'\d{1,2}:\d{2}:\d{2}[\.,]\d{3} --> \d{1,2}:\d{2}:\d{2}[\.,]\d{3}.*?\n'

  const Arrow: string := " --> "

  /** The fraction separator: both dialects are accepted, `.` (WebVTT) and `,` (SRT). */
  predicate IsFractionSep(c: char) { c == '.' || c == ',' }

  /** `H:MM:SS.mmm` with a one-digit hour. */
  predicate IsOneDigitHourStamp(u: string) {
    |u| == 11 && IsDigit(u[0]) && u[1] == ':' && IsDigit(u[2]) && IsDigit(u[3]) && u[4] == ':'
    && IsDigit(u[5]) && IsDigit(u[6]) && IsFractionSep(u[7]) && IsDigit(u[8]) && IsDigit(u[9]) && IsDigit(u[10])
  }

  /** A timestamp of the pattern: one or two hour digits, then `:MM:SS`, a separator and three digits. */
  predicate IsTimestamp(u: string) {
    IsOneDigitHourStamp(u) || (|u| == 12 && IsDigit(u[0]) && IsOneDigitHourStamp(u[1..]))
  }

  /** Length of the timestamp at the start of `t`. `\d{1,2}` tries two digits first. */
  function TimestampLength(t: string): (r: Option<nat>)
    ensures r.Some? ==> r.value <= |t| && IsTimestamp(t[..r.value])
  {
    if |t| >= 12 && IsTimestamp(t[..12]) then Some(12)
    else if |t| >= 11 && IsTimestamp(t[..11]) then Some(11)
    else None
  }

  /** Whatever timestamp starts the text is the one found: at most one of the two lengths fits. */
  lemma TimestampLengthOf(t: string, a: nat)
    requires a <= |t| && IsTimestamp(t[..a])
    ensures TimestampLength(t) == Some(a)
  {
    if a == 11 && |t| >= 12 {
      assert t[..12][1..][1] == t[2] == t[..a][2];
    }
  }

  lemma TimestampHasNoNewline(u: string)
    requires IsTimestamp(u)
    ensures '\n' !in u
  {
    if IsOneDigitHourStamp(u) {
      assert forall k | 0 <= k < 11 :: u[k] != '\n';
    } else {
      assert forall k | 1 <= k < 12 :: u[k] == u[1..][k - 1] && u[k] != '\n';
    }
  }

  /** `t` starts with a timestamp of length `a`, the arrow, and a timestamp of length `b`. */
  predicate TimingHeadAt(t: string, a: nat, b: nat) {
    a + |Arrow| + b <= |t|
    && IsTimestamp(t[..a]) && t[a..a + |Arrow|] == Arrow && IsTimestamp(t[a + |Arrow|..a + |Arrow| + b])
  }

  /** The line starts with `timestamp --> timestamp`. */
  ghost predicate TimingHead(t: string) {
    exists a: nat, b: nat :: TimingHeadAt(t, a, b)
  }

  /** The timing pattern at the start of `t`; its `.*?\n` (no DOTALL) takes the
      rest of the line and its newline. */
  function TimingMatch(t: string): (r: Option<nat>)
    ensures r.Some? ==> 0 < r.value <= |t|
  {
    match TimestampLength(t)
    case None => None
    case Some(a) =>
      if !StartsWith(t[a..], Arrow) then None
      else match TimestampLength(t[a + |Arrow|..])
        case None => None
        case Some(b) =>
          match IndexOf(t[a + |Arrow| + b..], '\n')
          case None => None
          case Some(k) => Some(a + |Arrow| + b + k + 1)
  }

  /** A timing match exists exactly when the line starts with two timestamps joined
      by the arrow and a newline follows; it then spans the whole first line and its newline. */
  lemma TimingMatchIsTimingLine(t: string)
    ensures TimingMatch(t).Some? <==> TimingHead(t) && '\n' in t
    ensures TimingMatch(t).Some? ==> TimingMatch(t).value == LineEnd(t) + 1
  {
    if TimingHead(t) {
      var a: nat, b: nat :| TimingHeadAt(t, a, b);
      TimingHeadMatches(t, a, b);
    }
    if TimingMatch(t).Some? {
      TimingMatchHasHead(t);
    }
  }

  lemma TimingHeadMatches(t: string, a: nat, b: nat)
    requires TimingHeadAt(t, a, b)
    ensures TimingMatch(t).Some? <==> '\n' in t
    ensures TimingMatch(t).Some? ==> TimingMatch(t).value == LineEnd(t) + 1
  {
    var n := a + |Arrow| + b;
    TimingHeadLengths(t, a, b);
    TimingMatchUnfold(t, a, b);
    TimingHeadNoNewline(t, a, b);
    NewlineAfterPrefix(t, n);
  }

  /** The two stamps of a timing head are the ones the matcher measures. */
  lemma TimingHeadLengths(t: string, a: nat, b: nat)
    requires TimingHeadAt(t, a, b)
    ensures TimestampLength(t) == Some(a) && StartsWith(t[a..], Arrow)
    ensures TimestampLength(t[a + |Arrow|..]) == Some(b)
  {
    var u := t[a + |Arrow|..];
    assert u[..b] == t[a + |Arrow|..a + |Arrow| + b];
    TimestampLengthOf(t, a);
    assert t[a..][..|Arrow|] == t[a..a + |Arrow|];
    TimestampLengthOf(u, b);
  }

  /** Once both stamps and the arrow are found, the match runs to the next newline. */
  lemma TimingMatchUnfold(t: string, a: nat, b: nat)
    requires a + |Arrow| + b <= |t|
    requires TimestampLength(t) == Some(a) && StartsWith(t[a..], Arrow)
    requires TimestampLength(t[a + |Arrow|..]) == Some(b)
    ensures TimingMatch(t).Some? <==> IndexOf(t[a + |Arrow| + b..], '\n').Some?
    ensures TimingMatch(t).Some? ==>
      TimingMatch(t).value == a + |Arrow| + b + IndexOf(t[a + |Arrow| + b..], '\n').value + 1
  {
  }

  lemma TimingHeadNoNewline(t: string, a: nat, b: nat)
    requires TimingHeadAt(t, a, b)
    ensures '\n' !in t[..a + |Arrow| + b]
  {
    var n := a + |Arrow| + b;
    var u := t[a + |Arrow|..];
    assert u[..b] == t[a + |Arrow|..n];
    TimestampHasNoNewline(t[..a]);
    TimestampHasNoNewline(u[..b]);
    forall j | 0 <= j < n ensures t[..n][j] != '\n' {
      if j < a {
        assert t[..n][j] == t[..a][j];
      } else if j < a + |Arrow| {
        assert t[..n][j] == t[a..a + |Arrow|][j - a];
      } else {
        assert t[..n][j] == u[..b][j - a - |Arrow|];
      }
    }
  }

  /** After a newline-free prefix, the first newline of the rest ends the first line. */
  lemma NewlineAfterPrefix(t: string, n: nat)
    requires n <= |t| && '\n' !in t[..n]
    ensures IndexOf(t[n..], '\n').Some? <==> '\n' in t
    ensures IndexOf(t[n..], '\n').Some? ==> LineEnd(t) == n + IndexOf(t[n..], '\n').value
  {
    assert t == t[..n] + t[n..];
    match IndexOf(t[n..], '\n')
    case None =>
    case Some(k) =>
      assert t[n + k] == t[n..][k];
      assert t[..n + k] == t[..n] + t[n..][..k];
      assert forall j | 0 <= j < n + k :: t[..n + k][j] == t[j];
      LineEndAt(t, n + k);
  }

  lemma TimingMatchHasHead(t: string)
    requires TimingMatch(t).Some?
    ensures TimingHead(t) && '\n' in t
  {
    var a := TimestampLength(t).value;
    assert IsTimestamp(t[..a]);
    assert Arrow <= t[a..];
    assert t[a..a + |Arrow|] == t[a..][..|Arrow|] == Arrow;
    var u := t[a + |Arrow|..];
    var b := TimestampLength(u).value;
    assert IsTimestamp(u[..b]);
    assert u[..b] == t[a + |Arrow|..a + |Arrow| + b];
    assert TimingHeadAt(t, a, b);
    var k := IndexOf(u[b..], '\n').value;
    assert u[b..] == t[a + |Arrow| + b..];
    assert t[a + |Arrow| + b + k] == '\n';
  }

  /** `MM:SS.mmm`: the WebVTT short form without an hour field. */
  predicate IsShortStamp(u: string) {
    |u| == 9 && IsDigit(u[0]) && IsDigit(u[1]) && u[2] == ':' && IsDigit(u[3]) && IsDigit(u[4])
    && IsFractionSep(u[5]) && IsDigit(u[6]) && IsDigit(u[7]) && IsDigit(u[8])
  }

  // ---------------------------------------------------------------------
  // r'<[^>]*>'

  /** A tag: `<`, then everything up to the first `>` (newlines included). */
  function TagMatch(t: string): (r: Option<nat>)
    ensures r.Some? <==> t != [] && t[0] == '<' && '>' in t[1..]
    ensures r.Some? ==> 2 <= r.value <= |t| && t[r.value - 1] == '>' && '>' !in t[1..r.value - 1]
  {
    if t == [] || t[0] != '<' then None
    else match IndexOf(t[1..], '>')
      case None => None
      case Some(k) =>
        assert t[1..][..k] == t[1..k + 1];
        Some(k + 2)
  }

  // ---------------------------------------------------------------------
  // r'^\d+\s*$' with MULTILINE

  /** A line made of one or more digits followed only by whitespace. */
  predicate IsNumberLine(line: string) {
    var d := LeadingRun(line, IsDigit);
    0 < d && forall k | d <= k < |line| :: IsSpace(line[k])
  }

  /** The pattern at a position where `^` holds. `\d+` takes all the digits;
      `\s*` takes all the whitespace after them, newlines included, and backs
      off to the last place where `$` holds: the end of the text, or just
      before a newline. */
  function NumberLineMatch(t: string): (r: Option<nat>)
    ensures r.Some? ==> 0 < r.value <= |t|
    ensures r.Some? ==> r.value == |t| || t[r.value] == '\n'
  {
    var d := LeadingRun(t, IsDigit);
    if d == 0 then None else NumberLineEnd(t, d, LeadingRun(t[d..], IsSpace))
  }

  /** Where `$` holds last inside the `w` whitespace characters after the `d` digits. */
  function NumberLineEnd(t: string, d: nat, w: nat): (r: Option<nat>)
    requires 0 < d && d + w <= |t|
    ensures r.Some? ==> d <= r.value <= |t|
    ensures r.Some? ==> r.value == |t| || t[r.value] == '\n'
  {
    if d + w == |t| then Some(|t|)
    else match LastIndexOf(t[d..d + w], '\n')
      case None => None
      case Some(k) =>
        assert t[d..d + w][k] == t[d + k];
        Some(d + k)
  }

  /** Where `\s*$` stops: at the end of the text when the whitespace run reaches it;
      otherwise, backing off, at the last newline inside the run; and nowhere when the
      run holds no newline. */
  lemma NumberLineEndIsLastNewline(t: string, d: nat, w: nat)
    requires 0 < d && d + w <= |t|
    ensures d + w == |t| ==> NumberLineEnd(t, d, w) == Some(|t|)
    ensures d + w < |t| ==> (NumberLineEnd(t, d, w).None? <==> '\n' !in t[d..d + w])
    ensures d + w < |t| && NumberLineEnd(t, d, w).Some? ==>
      var e := NumberLineEnd(t, d, w).value;
      e < d + w && t[e] == '\n' && forall p | e < p < d + w :: t[p] != '\n'
  {
    if d + w < |t| {
      var run := t[d..d + w];
      match LastIndexOf(run, '\n')
      case None =>
      case Some(k) =>
        assert run[k] == t[d + k];
        forall p | d + k < p < d + w ensures t[p] != '\n' {
          assert run[k + 1..][p - d - k - 1] == t[p];
        }
    }
  }

  /** The matcher succeeds exactly on a number line; the match then covers that line at least. */
  lemma NumberLineMatchIsNumberLine(t: string)
    ensures NumberLineMatch(t).Some? <==> IsNumberLine(Line(t))
    ensures NumberLineMatch(t).Some? ==> LineEnd(t) <= NumberLineMatch(t).value
  {
    var d := LeadingRun(t, IsDigit);
    DigitsInFirstLine(t);
    if d > 0 {
      var w := LeadingRun(t[d..], IsSpace);
      SpaceRunAfter(t, d, w);
      NumberLineMatchUnfold(t, d, w);
      if d + w == |t| {
        NumberLineToEnd(t, d, w);
      } else {
        match LastIndexOf(t[d..d + w], '\n')
        case None =>
          NumberLineEndNone(t, d, w);
          SpacesRunPastLine(t, d, w);
        case Some(k) =>
          NumberLineEndSome(t, d, w, k);
          SpacesReachLineEnd(t, d, w, k);
      }
    }
  }

  /** The digits at the front lie inside the first line. */
  lemma DigitsInFirstLine(t: string)
    ensures LeadingRun(t, IsDigit) <= LineEnd(t)
    ensures LeadingRun(Line(t), IsDigit) == LeadingRun(t, IsDigit)
  {
    LeadingRunPrefix(t, LineEnd(t), IsDigit);
  }

  lemma NumberLineMatchUnfold(t: string, d: nat, w: nat)
    requires 0 < d == LeadingRun(t, IsDigit) && w == LeadingRun(t[d..], IsSpace)
    ensures NumberLineMatch(t) == NumberLineEnd(t, d, w)
  {
  }

  lemma NumberLineToEnd(t: string, d: nat, w: nat)
    requires 0 < d && d + w == |t| && d <= LineEnd(t)
    requires LeadingRun(Line(t), IsDigit) == d
    requires forall k | d <= k < d + w :: IsSpace(t[k])
    ensures NumberLineEnd(t, d, w) == Some(|t|) && IsNumberLine(Line(t))
  {
    assert forall k | d <= k < LineEnd(t) :: Line(t)[k] == t[k];
    NumberLineOf(Line(t), d);
  }

  lemma NumberLineEndNone(t: string, d: nat, w: nat)
    requires 0 < d && d + w < |t| && LastIndexOf(t[d..d + w], '\n').None?
    ensures NumberLineEnd(t, d, w).None?
    ensures forall j | d <= j < d + w :: t[j] != '\n'
  {
    var ws := t[d..d + w];
    assert forall j | d <= j < d + w :: t[j] == ws[j - d];
  }

  lemma NumberLineEndSome(t: string, d: nat, w: nat, k: nat)
    requires 0 < d && d + w < |t| && LastIndexOf(t[d..d + w], '\n') == Some(k)
    ensures NumberLineEnd(t, d, w) == Some(d + k) && k < w && t[d + k] == '\n'
  {
    assert t[d..d + w][k] == t[d + k];
  }

  /** The whitespace run after the digits, read back in `t`. */
  lemma SpaceRunAfter(t: string, d: nat, w: nat)
    requires d <= |t| && w == LeadingRun(t[d..], IsSpace)
    ensures d + w <= |t| && forall k | d <= k < d + w :: IsSpace(t[k])
    ensures d + w < |t| ==> !IsSpace(t[d + w])
  {
    assert forall k | d <= k < d + w :: t[d..][k - d] == t[k];
    if d + w < |t| { assert t[d..][w] == t[d + w]; }
  }

  /** No newline in the whitespace run: the line goes on past it, to a non-space. */
  lemma SpacesRunPastLine(t: string, d: nat, w: nat)
    requires d <= LineEnd(t) && d + w < |t| && !IsSpace(t[d + w])
    requires LeadingRun(Line(t), IsDigit) == d
    requires forall j | d <= j < d + w :: t[j] != '\n'
    ensures !IsNumberLine(Line(t))
  {
    LineEndAfter(t, d, d + w);
    NotNumberLineAt(Line(t), d, d + w);
  }

  /** A newline in the whitespace run: the line ends inside it. */
  lemma SpacesReachLineEnd(t: string, d: nat, w: nat, k: nat)
    requires 0 < d && d <= LineEnd(t) && k < w && d + w <= |t| && t[d + k] == '\n'
    requires LeadingRun(Line(t), IsDigit) == d
    requires forall j | d <= j < d + w :: IsSpace(t[j])
    ensures LineEnd(t) <= d + k && IsNumberLine(Line(t))
  {
    var e := LineEnd(t);
    assert e <= d + k;
    assert forall j | d <= j < e :: Line(t)[j] == t[j];
    NumberLineOf(Line(t), d);
  }

  lemma NotNumberLineAt(line: string, d: nat, k: nat)
    requires LeadingRun(line, IsDigit) == d <= k < |line| && !IsSpace(line[k])
    ensures !IsNumberLine(line)
  {
  }

  lemma NumberLineOf(line: string, d: nat)
    requires 0 < d == LeadingRun(line, IsDigit)
    requires forall k | d <= k < |line| :: IsSpace(line[k])
    ensures IsNumberLine(line)
  {
  }

  /** A line that has no newline in positions `lo..hi` ends after them. */
  lemma LineEndAfter(t: string, lo: nat, hi: nat)
    requires lo <= LineEnd(t) && hi < |t|
    requires forall j | lo <= j <= hi :: t[j] != '\n'
    ensures LineEnd(t) > hi
  {
  }

  /** Cutting a string after its first `n` characters keeps the leading run if it ended before. */
  lemma LeadingRunPrefix(t: string, n: nat, p: char -> bool)
    requires n <= |t| && LeadingRun(t, p) <= n
    ensures LeadingRun(t[..n], p) == LeadingRun(t, p)
  {
    assert forall j | 0 <= j < n :: t[..n][j] == t[j];
  }

  // ---------------------------------------------------------------------
  // r'\n+'

  /** A run of newlines, taken whole. */
  function NewlineRunMatch(t: string): (r: Option<nat>)
    ensures r.Some? <==> t != [] && t[0] == '\n'
    ensures r.Some? ==> 0 < r.value <= |t| && (forall k | 0 <= k < r.value :: t[k] == '\n')
    ensures r.Some? ==> r.value < |t| ==> t[r.value] != '\n'
  {
    if t == [] || t[0] != '\n' then None else Some(LeadingRun(t, IsNewline))
  }
}
