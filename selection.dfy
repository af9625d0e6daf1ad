// The file-selection and naming rule of `process_subtitles`: after the
// extractor has written its files, pick one subtitle file, read it, and
// return its content (raw, or cleaned for "Clean TXT") together with the
// name offered for download.
//
// The directory listing is an input sequence (in listing order), the
// directory's files are a map from name to decoded text (a name without an
// entry is a file that cannot be read), and the extractor's `title` field is
// an input.
module Selection {
  import opened Strings
  import opened Sanitize
  import opened Transcript

  /** The extensions of the fallback search, in the order of the tuple. */
  const KnownExtensions: seq<string> := [".srt", ".vtt", ".ttml", ".json3"]

  /** The extension searched for first: `.srt` for the formats converted to SRT, else `.vtt`. */
  function TargetExtension(format: string): (r: string)
    ensures r == ".srt" <==> format == "SRT" || format == "Clean TXT"
    ensures r == KnownExtensions[0] || r == KnownExtensions[1]
  {
    if format == "SRT" || format == "Clean TXT" then ".srt" else ".vtt"
  }

  /** `f.endswith(tuple(exts))`. */
  predicate EndsWithAny(f: string, exts: seq<string>) {
    exists k | 0 <= k < |exts| :: EndsWith(f, exts[k])
  }

  /** Index of the first file, in listing order, that ends with one of `exts`. */
  function FirstEndingWith(files: seq<string>, exts: seq<string>): (r: Option<nat>)
    ensures r.Some? ==> r.value < |files| && EndsWithAny(files[r.value], exts)
    ensures r.Some? ==> forall j | 0 <= j < r.value :: !EndsWithAny(files[j], exts)
    ensures r.None? ==> forall j | 0 <= j < |files| :: !EndsWithAny(files[j], exts)
  {
    if files == [] then None
    else if EndsWithAny(files[0], exts) then Some(0)
    else match FirstEndingWith(files[1..], exts)
      case None => None
      case Some(i) => Some(i + 1)
  }

  /** The file `process_subtitles` uses: the first with the target extension, else the
      first with any known subtitle extension. */
  function ChosenFile(files: seq<string>, format: string): Option<nat> {
    match FirstEndingWith(files, [TargetExtension(format)])
    case Some(i) => Some(i)
    case None => FirstEndingWith(files, KnownExtensions)
  }

  /** The file with the target extension exists exactly when the first search succeeds,
      and then it wins; otherwise the first file with any known extension is taken. */
  lemma ChosenFileIsFirst(files: seq<string>, format: string)
    ensures var r := ChosenFile(files, format); var target := TargetExtension(format);
      (r.Some? ==> r.value < |files| && EndsWithAny(files[r.value], KnownExtensions))
      && ((exists j | 0 <= j < |files| :: EndsWith(files[j], target)) ==>
            r.Some? && EndsWith(files[r.value], target)
            && forall j | 0 <= j < r.value :: !EndsWith(files[j], target))
      && ((forall j | 0 <= j < |files| :: !EndsWith(files[j], target)) ==>
            r == FirstEndingWith(files, KnownExtensions))
  {
    var target := TargetExtension(format);
    forall j | 0 <= j < |files| ensures EndsWithAny(files[j], [target]) <==> EndsWith(files[j], target) {
      EndsWithOne(files[j], target);
    }
    match FirstEndingWith(files, [target])
    case Some(i) =>
      assert EndsWith(files[i], KnownExtensions[if target == ".srt" then 0 else 1]);
    case None =>
  }

  /** No file is chosen exactly when no file has a known subtitle extension. */
  lemma ChosenFileNone(files: seq<string>, format: string)
    ensures ChosenFile(files, format).None?
      <==> forall j | 0 <= j < |files| :: !EndsWithAny(files[j], KnownExtensions)
  {
    ChosenFileIsFirst(files, format);
    var target := TargetExtension(format);
    forall j | 0 <= j < |files| && EndsWith(files[j], target)
      ensures EndsWithAny(files[j], KnownExtensions)
    {
      assert EndsWith(files[j], KnownExtensions[if target == ".srt" then 0 else 1]);
    }
  }

  /** `os.path.splitext(p)[1]` with POSIX separators: the text from the last dot, provided
      that dot lies after the last slash and something other than a dot precedes it there. */
  function Extension(p: string): (r: string)
    ensures EndsWith(p, r)
    ensures r == [] || (r[0] == '.' && '.' !in r[1..] && '/' !in r)
  {
    match LastIndexOf(p, '.')
    case None => []
    case Some(d) =>
      var start := match LastIndexOf(p, '/') case None => 0 case Some(s) => s + 1;
      if start <= d && exists k | start <= k < d :: p[k] != '.' then
        assert p[d..][1..] == p[d + 1..];
        SlashFreeTail(p, d);
        p[d..]
      else []
  }

  lemma SlashFreeTail(p: string, d: nat)
    requires d < |p|
    requires match LastIndexOf(p, '/') case None => true case Some(s) => s < d
    ensures '/' !in p[d..]
  {
    match LastIndexOf(p, '/')
    case None =>
      forall k | 0 <= k < |p[d..]| ensures p[d..][k] != '/' { assert p[d..][k] == p[d + k]; }
    case Some(s) =>
      forall k | 0 <= k < |p[d..]| ensures p[d..][k] != '/' {
        assert p[d..][k] == p[s + 1..][d + k - s - 1];
      }
  }

  /** `d` is the last dot of `p` and `start` the first position after its last slash. */
  predicate LastComponentDot(p: string, start: nat, d: nat) {
    start <= d < |p| && p[d] == '.' && '.' !in p[d + 1..]
    && '/' !in p[start..] && (start == 0 || p[start - 1] == '/')
  }

  /** Where the last component of `p` begins. */
  lemma LastSlash(p: string, start: nat)
    requires start <= |p| && '/' !in p[start..] && (start == 0 || p[start - 1] == '/')
    ensures (match LastIndexOf(p, '/') case None => 0 case Some(s) => s + 1) == start
  {
    if start == 0 {
      assert p[0..] == p;
    } else {
      LastIndexOfIs(p, '/', start - 1);
    }
  }

  /** splitext with a dot in the last component: the text from the last dot when a
      non-dot character precedes that dot in the component, otherwise nothing
      (leading dots, as in `.srt` or `..vtt`, mark a hidden file, not an extension). */
  lemma ExtensionAtLastDot(p: string, start: nat, d: nat)
    requires LastComponentDot(p, start, d)
    ensures Extension(p) == if exists k | start <= k < d :: p[k] != '.' then p[d..] else []
  {
    LastIndexOfIs(p, '.', d);
    LastSlash(p, start);
  }

  /** splitext with no dot in the last component: no extension. */
  lemma ExtensionWithoutDot(p: string, start: nat)
    requires start <= |p| && '/' !in p[start..] && (start == 0 || p[start - 1] == '/')
    requires '.' !in p[start..]
    ensures Extension(p) == []
  {
    LastSlash(p, start);
    forall k | start <= k < |p| ensures p[k] != '.' {
      assert p[start..][k - start] == p[k];
    }
  }

  /** A file named only by dots and a known extension (such as `.srt`) has no extension,
      so its download name is the bare sanitized title. */
  lemma ExtensionOfDotStem(stem: string, i: nat)
    requires i < |KnownExtensions|
    requires forall k | 0 <= k < |stem| :: stem[k] == '.'
    ensures Extension(stem + KnownExtensions[i]) == []
  {
    var e := KnownExtensions[i];
    var f := stem + e;
    assert e[0] == '.' && '.' !in e[1..] && '/' !in e;
    assert f[|stem|..] == e && f[|stem| + 1..] == e[1..];
    assert '/' !in f by {
      forall k | 0 <= k < |f| ensures f[k] != '/' {
        if k < |stem| { assert f[k] == stem[k]; } else { assert f[k] == e[k - |stem|]; }
      }
    }
    assert f[0..] == f;
    ExtensionAtLastDot(f, 0, |stem|);
    assert forall k | 0 <= k < |stem| :: f[k] == stem[k];
  }

  /** The extension of a file ending with a known extension is that extension or nothing
      (nothing when only dots precede it, as in `.srt`). */
  lemma ExtensionOfSubtitleFile(f: string, i: nat)
    requires i < |KnownExtensions| && EndsWith(f, KnownExtensions[i])
    ensures Extension(f) == KnownExtensions[i] || Extension(f) == []
  {
    var e := KnownExtensions[i];
    var d := |f| - |e|;
    assert e[0] == '.' && '.' !in e[1..];
    assert f[d..] == e && f[d + 1..] == e[1..];
    LastIndexOfIs(f, '.', d);
  }

  /** For a plain file name such as `sub_file.en.srt` the extension is the known one. */
  lemma ExtensionOfPlainName(stem: string, i: nat)
    requires i < |KnownExtensions| && '/' !in stem
    requires exists k | 0 <= k < |stem| :: stem[k] != '.'
    ensures Extension(stem + KnownExtensions[i]) == KnownExtensions[i]
  {
    var e := KnownExtensions[i];
    var f := stem + e;
    assert e[0] == '.' && '.' !in e[1..] && '/' !in e;
    assert f[|stem|..] == e && f[|stem| + 1..] == e[1..];
    LastIndexOfIs(f, '.', |stem|);
    assert '/' !in f by {
      forall k | 0 <= k < |f| ensures f[k] != '/' {
        if k < |stem| { assert f[k] == stem[k]; } else { assert f[k] == e[k - |stem|]; }
      }
    }
    var k :| 0 <= k < |stem| && stem[k] != '.';
    assert f[k] == stem[k];
  }

  /** The extractor's `title` field: absent, present but null, or a string. */
  datatype TitleField = Missing | Null | Given(text: string)

  /** `info.get('title', 'subtitles')`, where a null title later makes
      `sanitize_filename` raise. */
  function VideoTitle(title: TitleField): (r: Option<string>)
    ensures title.Missing? ==> r == Some("subtitles")
    ensures title.Null? <==> r.None?
    ensures title.Given? ==> r == Some(title.text)
  {
    match title
    case Missing => Some("subtitles")
    case Null => None
    case Given(t) => Some(t)
  }

  lemma KnownExtensionsAreSafe(i: nat)
    requires i < |KnownExtensions|
    ensures NoForbidden(KnownExtensions[i])
  {
  }

  /** The offered download name never holds one of the nine characters the sanitizer deletes. */
  lemma DownloadNameIsSafe(title: string, f: string, i: nat)
    requires i < |KnownExtensions| && EndsWith(f, KnownExtensions[i])
    ensures NoForbidden(SanitizeFilename(title) + ".txt")
    ensures NoForbidden(SanitizeFilename(title) + Extension(f))
  {
    SanitizeRemovesForbidden(title);
    ExtensionOfSubtitleFile(f, i);
    KnownExtensionsAreSafe(i);
    SafeSuffix(SanitizeFilename(title), Extension(f), KnownExtensions[i]);
    TxtIsSafe();
    NoForbiddenConcat(SanitizeFilename(title), ".txt");
  }

  lemma TxtIsSafe()
    ensures NoForbidden(".txt")
  {
    var t := ".txt";
    assert t[0] == '.' && t[1] == 't' && t[2] == 'x' && t[3] == 't';
  }

  lemma SafeSuffix(a: string, e: string, known: string)
    requires NoForbidden(a) && NoForbidden(known) && (e == known || e == [])
    ensures NoForbidden(a + e)
  {
    NoForbiddenConcat(a, e);
  }

  lemma NoForbiddenConcat(a: string, b: string)
    requires NoForbidden(a) && NoForbidden(b)
    ensures NoForbidden(a + b)
  {
    forall k | 0 <= k < |a + b| ensures !IsForbidden((a + b)[k]) {
      if k < |a| { assert (a + b)[k] == a[k]; } else { assert (a + b)[k] == b[k - |a|]; }
    }
  }

  lemma EndsWithOne(f: string, e: string)
    ensures EndsWithAny(f, [e]) <==> EndsWith(f, e)
  {
    if EndsWith(f, e) { assert EndsWith(f, [e][0]); }
  }

  /** `process_subtitles` after extraction: returns the content to offer and its file name,
      or `(None, "")` when there is no file, no subtitle file, the file cannot be read or the
      title is null. */
  method ProcessSubtitles(files: seq<string>, contents: map<string, string>, title: TitleField, format: string)
    returns (data: Option<string>, name: string)
    ensures ChosenFile(files, format).None? ==> data == None && name == ""
    ensures ChosenFile(files, format).Some? ==>
      var f := files[ChosenFile(files, format).value];
      if f !in contents || VideoTitle(title).None? then data == None && name == ""
      else if format == "Clean TXT" then
        data == Some(StripVttTimestamps(contents[f])) && name == SanitizeFilename(VideoTitle(title).value) + ".txt"
      else
        data == Some(contents[f]) && name == SanitizeFilename(VideoTitle(title).value) + Extension(f)
    ensures NoForbidden(name)
  {
    if files == [] {
      return None, "";
    }
    var subFile: Option<string> := None;
    ghost var chosen: nat := 0;
    var target := TargetExtension(format);

    var i := 0;
    while i < |files|
      invariant 0 <= i <= |files|
      invariant forall j | 0 <= j < i :: !EndsWith(files[j], target)
    {
      if EndsWith(files[i], target) {
        subFile, chosen := Some(files[i]), i;
        break;
      }
      i := i + 1;
    }
    forall j | 0 <= j < |files| ensures EndsWithAny(files[j], [target]) <==> EndsWith(files[j], target) {
      EndsWithOne(files[j], target);
    }
    if subFile.Some? {
      FirstIs(files, [target], chosen);
    } else {
      FirstNone(files, [target]);
      i := 0;
      while i < |files|
        invariant 0 <= i <= |files|
        invariant forall j | 0 <= j < i :: !EndsWithAny(files[j], KnownExtensions)
      {
        if EndsWithAny(files[i], KnownExtensions) {
          subFile, chosen := Some(files[i]), i;
          break;
        }
        i := i + 1;
      }
      if subFile.Some? {
        FirstIs(files, KnownExtensions, chosen);
      }
    }
    if subFile.None? {
      return None, "";
    }
    assert ChosenFile(files, format) == Some(chosen) && subFile.value == files[chosen];
    ChosenFileIsFirst(files, format);
    var f := subFile.value;
    var k :| 0 <= k < |KnownExtensions| && EndsWith(f, KnownExtensions[k]);
    if f !in contents {
      return None, "";
    }
    var content := contents[f];
    var videoTitle := VideoTitle(title);
    if videoTitle.None? {
      return None, "";
    }
    DownloadNameIsSafe(videoTitle.value, f, k);
    if format == "Clean TXT" {
      content := StripVttTimestamps(content);
      return Some(content), SanitizeFilename(videoTitle.value) + ".txt";
    } else {
      var actualExt := Extension(f);
      return Some(content), SanitizeFilename(videoTitle.value) + actualExt;
    }
  }

  lemma FirstIs(files: seq<string>, exts: seq<string>, i: nat)
    requires i < |files| && EndsWithAny(files[i], exts)
    requires forall j | 0 <= j < i :: !EndsWithAny(files[j], exts)
    ensures FirstEndingWith(files, exts) == Some(i)
  {
  }

  lemma FirstNone(files: seq<string>, exts: seq<string>)
    requires FirstEndingWith(files, exts).None?
    ensures forall j | 0 <= j < |files| :: !EndsWithAny(files[j], exts)
  {
  }
}
