/**
 * Character classes, searches and the subsequence relation shared by the
 * filename sanitizer, the transcript cleaner and the file selection rule.
 *
 * Python's `\d`, `\s` and `str.strip()` are Unicode-aware; this model keeps
 * the ASCII characters they accept.
 */
module Strings {

  datatype Option<T> = None | Some(value: T)

  /** `\d` in ASCII mode. */
  predicate IsDigit(c: char) { '0' <= c <= '9' }

  /** The ASCII characters that `\s` matches in a text pattern and `str.strip()` removes:
      space, \t, \n, \v, \f, \r and the four separators \x1c to \x1f. */
  predicate IsSpace(c: char) {
    c == ' ' || ('\t' <= c <= '\r') || ('\U{001C}' <= c <= '\U{001F}')
  }

  predicate IsNewline(c: char) { c == '\n' }

  /** Index of the first occurrence of `c` in `s`, like `str.find`. */
  function IndexOf(s: string, c: char): (r: Option<nat>)
    ensures r.Some? ==> r.value < |s| && s[r.value] == c && c !in s[..r.value]
    ensures r.None? ==> c !in s
  {
    if s == [] then None
    else if s[0] == c then Some(0)
    else match IndexOf(s[1..], c)
      case None => None
      case Some(k) =>
        assert s[..k + 1] == [s[0]] + s[1..][..k];
        Some(k + 1)
  }

  /** Index of the last occurrence of `c` in `s`, like `str.rfind`. */
  function LastIndexOf(s: string, c: char): (r: Option<nat>)
    ensures r.Some? ==> r.value < |s| && s[r.value] == c && c !in s[r.value + 1..]
    ensures r.None? ==> c !in s
  {
    if s == [] then None
    else if s[|s| - 1] == c then Some(|s| - 1)
    else
      assert s == s[..|s| - 1] + [s[|s| - 1]];
      match LastIndexOf(s[..|s| - 1], c)
      case None => None
      case Some(k) =>
        assert s[k + 1..] == s[..|s| - 1][k + 1..] + [s[|s| - 1]];
        Some(k)
  }

  /** The last occurrence is the one with no further occurrence after it. */
  lemma {:induction false} LastIndexOfIs(s: string, c: char, k: nat)
    requires k < |s| && s[k] == c && c !in s[k + 1..]
    ensures LastIndexOf(s, c) == Some(k)
    decreases |s|
  {
    if k < |s| - 1 {
      assert s[k + 1..][|s| - k - 2] == s[|s| - 1];
      assert s[..|s| - 1][k + 1..] == s[k + 1..|s| - 1];
      LastIndexOfIs(s[..|s| - 1], c, k);
    }
  }

  /** Length of the longest prefix of `s` whose characters all satisfy `p`
      (what a greedy `[class]*` consumes). */
  function LeadingRun(s: string, p: char -> bool): (r: nat)
    ensures r <= |s|
    ensures forall k | 0 <= k < r :: p(s[k])
    ensures r < |s| ==> !p(s[r])
  {
    if s == [] || !p(s[0]) then 0 else 1 + LeadingRun(s[1..], p)
  }

  /** End of the first line of `s`: the index of its first newline, or `|s|`. */
  function LineEnd(s: string): (r: nat)
    ensures r <= |s| && '\n' !in s[..r]
    ensures forall j | 0 <= j < r :: s[j] != '\n'
    ensures r < |s| ==> s[r] == '\n'
  {
    match IndexOf(s, '\n')
    case Some(k) => k
    case None => |s|
  }

  /** A position before which there is no newline, and which is a newline or the end, ends the first line. */
  lemma LineEndAt(s: string, k: nat)
    requires k <= |s| && (forall j | 0 <= j < k :: s[j] != '\n') && (k < |s| ==> s[k] == '\n')
    ensures LineEnd(s) == k
  {
  }

  /** The run of a text made of `d` characters satisfying `p` and then one that does not (or nothing). */
  lemma LeadingRunIs(s: string, p: char -> bool, d: nat)
    requires d <= |s| && (forall k | 0 <= k < d :: p(s[k])) && (d < |s| ==> !p(s[d]))
    ensures LeadingRun(s, p) == d
  {
  }

  /** A run that covers all of `a` goes on into `b`. */
  lemma {:induction false} LeadingRunAfter(a: string, b: string, p: char -> bool)
    requires forall k | 0 <= k < |a| :: p(a[k])
    ensures LeadingRun(a + b, p) == |a| + LeadingRun(b, p)
  {
    if a != [] {
      assert (a + b)[0] == a[0];
      assert (a + b)[1..] == a[1..] + b;
      LeadingRunAfter(a[1..], b, p);
    } else {
      assert a + b == b;
    }
  }

  /** The first line of `s`, without its newline. */
  function Line(s: string): string { s[..LineEnd(s)] }

  predicate StartsWith(s: string, prefix: string) { prefix <= s }

  predicate EndsWith(s: string, suffix: string) {
    |suffix| <= |s| && s[|s| - |suffix|..] == suffix
  }

  /** `a` is obtained from `b` by deleting characters (order kept). */
  predicate IsSubseq(a: string, b: string)
    decreases |b|
  {
    if a == [] then true
    else if b == [] then false
    else (a[0] == b[0] && IsSubseq(a[1..], b[1..])) || IsSubseq(a, b[1..])
  }

  lemma {:induction false} SubseqRefl(a: string)
    ensures IsSubseq(a, a)
  {
    if a != [] { SubseqRefl(a[1..]); }
  }

  lemma {:induction false} SubseqEmpty(b: string)
    ensures IsSubseq([], b)
  {
  }

  lemma {:induction false} SubseqLength(a: string, b: string)
    requires IsSubseq(a, b)
    ensures |a| <= |b|
  {
    if a != [] {
      if a[0] == b[0] && IsSubseq(a[1..], b[1..]) {
        SubseqLength(a[1..], b[1..]);
      } else {
        SubseqLength(a, b[1..]);
      }
    }
  }

  /** Nothing is invented: every character of a subsequence occurs in the original. */
  lemma {:induction false} SubseqChars(a: string, b: string, c: char)
    requires IsSubseq(a, b) && c in a
    ensures c in b
  {
    if a[0] == b[0] && IsSubseq(a[1..], b[1..]) {
      if c != a[0] {
        assert a == [a[0]] + a[1..];
        SubseqChars(a[1..], b[1..], c);
      }
    } else {
      SubseqChars(a, b[1..], c);
    }
  }

  lemma {:induction false} SubseqConcat(a1: string, b1: string, a2: string, b2: string)
    requires IsSubseq(a1, b1) && IsSubseq(a2, b2)
    ensures IsSubseq(a1 + a2, b1 + b2)
    decreases |b1|
  {
    if b1 == [] {
      assert a1 == [];
      assert a1 + a2 == a2 && b1 + b2 == b2;
    } else if a1 == [] {
      assert (b1 + b2)[1..] == b1[1..] + b2;
      SubseqEmpty(b1[1..]);
      SubseqConcat(a1, b1[1..], a2, b2);
    } else if a1[0] == b1[0] && IsSubseq(a1[1..], b1[1..]) {
      assert (a1 + a2)[1..] == a1[1..] + a2;
      assert (b1 + b2)[1..] == b1[1..] + b2;
      SubseqConcat(a1[1..], b1[1..], a2, b2);
    } else {
      assert (b1 + b2)[1..] == b1[1..] + b2;
      SubseqConcat(a1, b1[1..], a2, b2);
    }
  }

  lemma {:induction false} SubseqTrans(a: string, b: string, c: string)
    requires IsSubseq(a, b) && IsSubseq(b, c)
    ensures IsSubseq(a, c)
    decreases |c|
  {
    if a == [] {
    } else if a[0] == b[0] && IsSubseq(a[1..], b[1..]) {
      // b is non-empty; see how b[0] is found in c
      if b[0] == c[0] && IsSubseq(b[1..], c[1..]) {
        SubseqTrans(a[1..], b[1..], c[1..]);
      } else {
        SubseqTrans(a, b, c[1..]);
      }
    } else {
      // a is a subsequence of b[1..]
      if b[0] == c[0] && IsSubseq(b[1..], c[1..]) {
        SubseqTrans(a, b[1..], c[1..]);
      } else {
        SubseqTrans(a, b, c[1..]);
      }
    }
  }

  /** A contiguous slice is a subsequence. */
  lemma SubseqSlice(s: string, i: nat, j: nat)
    requires i <= j <= |s|
    ensures IsSubseq(s[i..j], s)
  {
    SubseqEmpty(s[..i]);
    SubseqRefl(s[i..j]);
    SubseqEmpty(s[j..]);
    SubseqConcat([], s[..i], s[i..j], s[i..j]);
    assert s[..i] + s[i..j] == s[..j];
    assert [] + s[i..j] == s[i..j];
    SubseqConcat(s[i..j], s[..j], [], s[j..]);
    assert s[..j] + s[j..] == s;
    assert s[i..j] + [] == s[i..j];
  }
}
