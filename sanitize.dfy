// `sanitize_filename`: one `re.sub` over a character class of nine characters
// with an empty replacement, i.e. every occurrence of backslash, slash, star,
// question mark, colon, double quote, less-than, greater-than and bar is
// deleted and everything else is kept in order.
module Sanitize {
  import opened Strings

  /** The nine characters the filename sanitizer deletes. */
  predicate IsForbidden(c: char) {
    c == '\\' || c == '/' || c == '*' || c == '?' || c == ':' || c == '"' || c == '<' || c == '>' || c == '|'
  }

  predicate NoForbidden(s: string) {
    forall k | 0 <= k < |s| :: !IsForbidden(s[k])
  }

  /** One left-to-right pass of the substitution; each match is one character. */
  function SanitizeFilename(name: string): string
  {
    if name == [] then []
    else if IsForbidden(name[0]) then SanitizeFilename(name[1..])
    else [name[0]] + SanitizeFilename(name[1..])
  }

  /** The result holds none of the nine characters and is never longer than the name. */
  lemma {:induction false} SanitizeRemovesForbidden(name: string)
    ensures NoForbidden(SanitizeFilename(name))
    ensures |SanitizeFilename(name)| <= |name|
  {
    if name != [] {
      SanitizeRemovesForbidden(name[1..]);
    }
  }

  /** The sanitizer distributes over concatenation: it acts character by character. */
  lemma {:induction false} SanitizeConcat(a: string, b: string)
    ensures SanitizeFilename(a + b) == SanitizeFilename(a) + SanitizeFilename(b)
  {
    if a != [] {
      var c := a[0];
      assert (a + b)[0] == c;
      assert (a + b)[1..] == a[1..] + b;
      SanitizeConcat(a[1..], b);
      if IsForbidden(c) {
        assert SanitizeFilename(a + b) == SanitizeFilename(a[1..] + b);
      } else {
        assert SanitizeFilename(a + b) == [c] + SanitizeFilename(a[1..] + b);
        assert [c] + (SanitizeFilename(a[1..]) + SanitizeFilename(b))
            == ([c] + SanitizeFilename(a[1..])) + SanitizeFilename(b);
      }
    } else {
      assert a + b == b;
    }
  }

  /** On a single character: deleted exactly when it is one of the nine. */
  lemma SanitizeChar(c: char)
    ensures SanitizeFilename([c]) == if IsForbidden(c) then [] else [c]
  {
    assert [c][1..] == [];
  }

  /** A name without forbidden characters is returned unchanged. */
  lemma {:induction false} SanitizeKeepsSafe(name: string)
    requires NoForbidden(name)
    ensures SanitizeFilename(name) == name
  {
    if name != [] {
      assert NoForbidden(name[1..]) by {
        forall k | 0 <= k < |name[1..]| ensures !IsForbidden(name[1..][k]) {
          assert name[1..][k] == name[k + 1];
        }
      }
      SanitizeKeepsSafe(name[1..]);
    }
  }

  lemma SanitizeIdempotent(name: string)
    ensures SanitizeFilename(SanitizeFilename(name)) == SanitizeFilename(name)
  {
    SanitizeRemovesForbidden(name);
    SanitizeKeepsSafe(SanitizeFilename(name));
  }

  /** Order is kept: the result is a subsequence of the input. */
  lemma {:induction false} SanitizeSubseq(name: string)
    ensures IsSubseq(SanitizeFilename(name), name)
  {
    if name != [] {
      SanitizeSubseq(name[1..]);
      if IsForbidden(name[0]) {
        SubseqConcat([], [name[0]], SanitizeFilename(name[1..]), name[1..]);
        assert [name[0]] + name[1..] == name;
      } else {
        SubseqRefl([name[0]]);
        SubseqConcat([name[0]], [name[0]], SanitizeFilename(name[1..]), name[1..]);
        assert [name[0]] + name[1..] == name;
      }
    }
  }

  /** Only the nine characters are removed: every other character keeps its count. */
  lemma {:induction false} SanitizeCounts(name: string, c: char)
    ensures multiset(SanitizeFilename(name))[c] == if IsForbidden(c) then 0 else multiset(name)[c]
  {
    if name != [] {
      SanitizeCounts(name[1..], c);
      assert name == [name[0]] + name[1..];
      assert multiset(name) == multiset([name[0]]) + multiset(name[1..]);
      if !IsForbidden(name[0]) {
        assert multiset([name[0]] + SanitizeFilename(name[1..]))
            == multiset([name[0]]) + multiset(SanitizeFilename(name[1..]));
      }
    }
  }

  /** An illustrative example, `Bad:Name/Test?"` becoming `BadNameTest`, stated for
      any three pieces free of the nine characters. */
  lemma SanitizeExample(a: string, b: string, c: string)
    requires NoForbidden(a) && NoForbidden(b) && NoForbidden(c)
    ensures SanitizeFilename(a + ":" + b + "/" + c + "?\"") == a + b + c
  {
    SanitizeKeepsSafe(a);
    SanitizeKeepsSafe(b);
    SanitizeKeepsSafe(c);
    SanitizeChar(':');
    SanitizeChar('/');
    SanitizeChar('?');
    SanitizeChar('"');
    SanitizeConcat(a, ":");
    assert SanitizeFilename(a + ":") == a;
    SanitizeConcat(a + ":", b);
    assert SanitizeFilename(a + ":" + b) == a + b;
    SanitizeConcat(a + ":" + b, "/");
    assert SanitizeFilename(a + ":" + b + "/") == a + b;
    SanitizeConcat(a + ":" + b + "/", c);
    assert SanitizeFilename(a + ":" + b + "/" + c) == a + b + c;
    SanitizeConcat(a + ":" + b + "/" + c, "?");
    assert SanitizeFilename(a + ":" + b + "/" + c + "?") == a + b + c;
    SanitizeConcat(a + ":" + b + "/" + c + "?", "\"");
    assert SanitizeFilename("\"") == [];
    assert a + b + c + [] == a + b + c;
    assert a + ":" + b + "/" + c + "?" + "\"" == a + ":" + b + "/" + c + "?\"";
  }
}
