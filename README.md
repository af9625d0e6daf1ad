# Subtitle downloader core in Dafny

This project models the three pieces of logic in `streamlit_app.py`, a Streamlit front end to yt-dlp that downloads a video's subtitles. Everything else in that file is user interface or calls into yt-dlp and FFmpeg.

- **`sanitize_filename`** deletes the nine characters `\ / * ? : " < > |` from a title.
  It is a single `re.sub` (module `Sanitize`).
- **`strip_vtt_timestamps`** turns a WebVTT or SRT file into a clean transcript (modules `Patterns` and `Transcript`).
  It makes five `re.sub` passes and then calls `strip()`.
  The passes remove, in order:
  - the `WEBVTT` header block;
  - timing lines;
  - `<...>` tags;
  - lines made only of digits;
  - newline runs, which are collapsed to one newline.

  Each pattern is a matcher function that gives the length of the match at a position. `Transcript.Sub` is Python's `re.sub` scan over such a matcher. It goes left to right; at a match it emits the replacement and resumes after the match, otherwise it copies one character. A flag tracks whether the position starts a line, because `^` under `MULTILINE` needs it.
- **The selection and naming rule of `process_subtitles`** (module `Selection`).
  It takes the files the extractor wrote, their contents, the video title and the chosen format. It picks one subtitle file, with the two search loops of the source. It returns the raw or cleaned content, plus the file name offered for download.

The module `Strings` holds shared definitions:
- character classes;
- `str.find`-style searches;
- the subsequence relation, used to state "only deletes characters".

## Model

| member | source | states |
|---|---|---|
| Sanitize.SanitizeFilename | streamlit_app.py:128 | the `re.sub` over the nine-character class, one character at a time; what it computes is stated by SanitizeCounts, SanitizeSubseq and SanitizeRemovesForbidden below |
| Sanitize.SanitizeRemovesForbidden | streamlit_app.py:126-128 | the result contains none of the nine characters and is never longer than the name |
| Sanitize.SanitizeCounts | streamlit_app.py:128 | each of the nine characters occurs 0 times in the result; every other character keeps its exact count |
| Sanitize.SanitizeSubseq | streamlit_app.py:128 | the result is the name with characters deleted, order kept |
| Sanitize.SanitizeKeepsSafe | streamlit_app.py:128 | a name without the nine characters is returned unchanged |
| Sanitize.SanitizeIdempotent | streamlit_app.py:128 | sanitizing twice equals sanitizing once |
| Sanitize.SanitizeConcat | streamlit_app.py:128 | the sanitizer acts character by character: it distributes over concatenation |
| Sanitize.SanitizeChar | streamlit_app.py:128 | a single character is deleted exactly when it is one of the nine |
| Sanitize.SanitizeExample | streamlit_app.py:126-128 | `a:b/c?"` becomes `abc` for any pieces a, b, c free of the nine characters |
| Patterns.FindBlankPair | streamlit_app.py:133 | the index of the first `\n\n`: a found index starts a blank pair with none before it; none found means the text holds no blank pair |
| Patterns.HeaderMatch | streamlit_app.py:133 | a match starts with `WEBVTT\n` and ends at a blank pair, with no blank pair in between; no match means no keyword or no later blank pair |
| Patterns.HeaderEndsAtFirstBlankLine | streamlit_app.py:133 | the non-greedy DOTALL `.*?` ends exactly at the first `\n\n` after the keyword line |
| Patterns.TimestampLength | streamlit_app.py:135 | a found length delimits a `\d{1,2}:\d{2}:\d{2}[.,]\d{3}` stamp at the front of the text |
| Patterns.TimestampLengthOf | streamlit_app.py:135 | whenever a stamp starts the text, its length is the one found (two hour digits are tried first, and at most one length fits) |
| Patterns.TimingMatch | streamlit_app.py:135 | the matcher of `\d{1,2}:\d{2}:\d{2}[.,]\d{3} --> \d{1,2}:\d{2}:\d{2}[.,]\d{3}.*?\n`: a match is non-empty and within the text; TimingMatchIsTimingLine says exactly when it matches and where it ends |
| Patterns.TimingMatchIsTimingLine | streamlit_app.py:135 | the timing pattern matches exactly when the text starts with `stamp --> stamp` and a newline follows somewhere; the match then ends just after the first newline |
| Patterns.TagMatch | streamlit_app.py:137 | a match exists iff the text starts with `<` and a `>` follows; it ends at the first `>` |
| Patterns.NumberLineMatch | streamlit_app.py:139 | the match ends at the end of the text or just before a newline (where `$` holds); NumberLineEndIsLastNewline says at which one |
| Patterns.NumberLineEndIsLastNewline | streamlit_app.py:139 | after the digits, the greedy `\s*` takes the whole whitespace run, across newlines; if the run reaches the end of the text the match ends there, otherwise it backs off to the last newline in the run, and there is no match exactly when the run holds no newline |
| Patterns.NumberLineMatchIsNumberLine | streamlit_app.py:139 | the pattern matches at a line start exactly when the line is digits followed only by whitespace, and the match covers at least that line |
| Patterns.NewlineRunMatch | streamlit_app.py:141 | a match exists iff the text starts with a newline; it takes the whole run of newlines |
| Transcript.Sub | streamlit_app.py:133-141 | Python's `re.sub` scan; SubIsSubseq, SubNoMatch and the per-pass lemmas below state what it computes |
| Transcript.MatchAt | streamlit_app.py:133-141 | every match is non-empty and its replacement is a subsequence of the matched text |
| Transcript.Strip | streamlit_app.py:142 | the result has no whitespace at either end and is never longer than the input |
| Transcript.StripIsTrim | streamlit_app.py:142 | the result is a slice of the input with only whitespace outside it |
| Transcript.SubIsSubseq | streamlit_app.py:133-141 | each of the five passes only deletes characters: its output is a subsequence of its input |
| Transcript.StripVttTimestamps | streamlit_app.py:130-142 | the five passes in the source's order, then `strip()`; specified by StripVttTimestampsProperties, StripVttTimestampsKeepsCleanText and StripVttTimestampsNumberLines |
| Transcript.StripVttTimestampsProperties | streamlit_app.py:130-142 | the transcript has no `\n\n`, no outer whitespace and no `<` followed by a `>`; it is a subsequence of the input and never longer |
| Transcript.StripVttTimestampsKeepsCleanText | streamlit_app.py:130-142 | text with no blank pair, no timing line, no tag, no number line and no outer whitespace is returned unchanged |
| Transcript.StripVttTimestampsNumberLines | streamlit_app.py:139-142 | in the transcript, no line after the first consists of digits followed only by whitespace |
| Transcript.RemoveHeader | streamlit_app.py:133 | the header pass; specified by RemoveHeaderDropsBlock, RemoveHeaderSwallowsFirstCue and HeaderNeedsBlankPair |
| Transcript.RemoveHeaderDropsBlock | streamlit_app.py:133 | `WEBVTT\n` + metadata + `\n\n` is deleted when the metadata holds no blank pair |
| Transcript.RemoveHeaderSwallowsFirstCue | streamlit_app.py:133 | when `WEBVTT\n` is followed by an empty line, the first cue is deleted with the header |
| Transcript.HeaderNeedsBlankPair | streamlit_app.py:133 | without a `\n\n` the header pattern matches nowhere |
| Transcript.RemoveTimings | streamlit_app.py:135 | the timing pass; specified by the RemoveTimings lemmas and TimingNeedsTimingLine |
| Transcript.RemoveTimingsDeletesLine | streamlit_app.py:135 | a line starting with `stamp --> stamp` is deleted with its newline |
| Transcript.RemoveTimingsKeepsTextBefore | streamlit_app.py:135 | digit-free text before a timing match on its line is kept; the match and the rest of the line go |
| Transcript.RemoveTimingsKeepsDigitFree | streamlit_app.py:135 | a digit-free prefix passes through the timing pass unchanged |
| Transcript.RemoveTimingsNeedsNewline | streamlit_app.py:135 | a text without a newline, including a timing line at the end of the input, is kept |
| Transcript.RemoveTimingsKeepsShortLine | streamlit_app.py:135 | an `MM:SS.mmm --> MM:SS.mmm` line is not a timing line and is kept, with any tail in which no two colons are three apart; cue settings such as ` align:start position:10%` are such tails, and every timestamp has such a pair |
| Transcript.TimingNeedsTimingLine | streamlit_app.py:135 | if every `stamp --> stamp` sits on the last line, the timing pattern matches nowhere |
| Transcript.RemoveTags | streamlit_app.py:137 | the tag pass; specified by RemoveTagsDeletesTag, RemoveTagsLeavesNoTag and TagNeedsTagSpan |
| Transcript.RemoveTagsDeletesTag | streamlit_app.py:137 | a `<`...`>` span with no `>` inside is deleted, the text before it (which has no `<`) is kept, and the pass goes on after it: `a<b>c` becomes `ac` |
| Transcript.RemoveTagsLeavesNoTag | streamlit_app.py:137 | after the tag pass no `<` has a `>` anywhere after it |
| Transcript.NoTagSpanSubseq | streamlit_app.py:139-142 | deleting characters keeps that property, so the later passes keep it |
| Transcript.TagNeedsTagSpan | streamlit_app.py:137 | text with no `<` before a `>` has no tag match |
| Transcript.RemoveNumberLinesLeavesNone | streamlit_app.py:139 | after the number-line pass no line consists of digits followed only by whitespace |
| Transcript.RemoveNumberLines | streamlit_app.py:139 | the number-line pass; specified by RemoveNumberLinesKeepsOtherLine, RemoveNumberLinesDeletesLine, RemoveNumberLinesLeavesNone and NumberLineNeedsNumberLine |
| Transcript.RemoveNumberLinesKeepsOtherLine | streamlit_app.py:139 | a line that is not a number line is kept with its newline, and the pass goes on at the next line start: `Hello\n12\nWorld` keeps `Hello\n` |
| Transcript.RemoveNumberLinesDeletesLine | streamlit_app.py:139 | digits followed by whitespace (which may span lines), then a newline and a line that is not blank (indented or not): everything up to that last newline is deleted, and the newline stays; `12\n  hi` becomes `\n  hi` |
| Transcript.RemoveNumberLinesSwallowsBlankLine | streamlit_app.py:139 | a number line followed by a whitespace-only line is deleted together with that line: `\s*` crosses the first newline, and only the second one stays |
| Transcript.NumberLineNeedsNumberLine | streamlit_app.py:139 | text without a number line has no match of `^\d+\s*$` |
| Transcript.CollapseNewlines | streamlit_app.py:141 | the newline pass; specified by CollapseNewlinesRun, CollapseLeavesNoBlankPair, CollapseKeepsSingleNewlines and CollapseKeepsNoNumberLine |
| Transcript.CollapseNewlinesRun | streamlit_app.py:141 | a whole run of one or more newlines becomes exactly one newline; the newline-free text before it is kept, and the pass goes on after the run |
| Transcript.CollapseLeavesNoBlankPair | streamlit_app.py:141 | after the newline pass no two newlines are adjacent |
| Transcript.CollapseKeepsSingleNewlines | streamlit_app.py:141 | text without `\n\n` is unchanged by the newline pass |
| Transcript.CollapseKeepsNoNumberLine | streamlit_app.py:141 | collapsing newlines creates no number line |
| Transcript.StripKeepsTrimmed | streamlit_app.py:142 | text without outer whitespace is unchanged by `strip()` |
| Transcript.SubKeepsPrefix | streamlit_app.py:133-141 | for the four patterns without `^`, text at whose positions the pattern does not match is copied unchanged, and the rest of the text is processed as on its own |
| Transcript.SubNoMatch | streamlit_app.py:133-141 | a pass whose pattern matches nowhere returns the text unchanged |
| Transcript.NumberLineFirstCleaned | streamlit_app.py:130-142 | a transcript that starts with a digits-only line followed by one plain word is cleaned to that word |
| Transcript.IndentedNumberLineSurvives | streamlit_app.py:139-142 | an indented digits line at the very start survives the number-line pass (`^\d` fails on the space) and then loses only its indent to `strip()`: `  12\nhello` becomes `12\nhello` |
| Transcript.CleanerNotIdempotent | streamlit_app.py:130-142 | for those inputs, cleaning twice differs from cleaning once: the second pass removes the exposed number line |
| Selection.TargetExtension | streamlit_app.py:193 | the target is `.srt` exactly for `SRT` and `Clean TXT`, otherwise `.vtt` |
| Selection.FirstEndingWith | streamlit_app.py:196-206 | the index of the first file in listing order ending with one of the extensions; none means no file does |
| Selection.EndsWithAny | streamlit_app.py:196-206 | the `any(f.endswith(ext) ...)` test; FirstEndingWith is stated in its terms |
| Selection.ChosenFile | streamlit_app.py:192-206 | the selection rule as a function; ChosenFileIsFirst and ChosenFileNone state it, and ProcessSubtitles' loops are proved equal to it |
| Selection.ChosenFileIsFirst | streamlit_app.py:192-206 | the chosen file is the first with the target extension if there is one, else the first with `.srt`, `.vtt`, `.ttml` or `.json3` |
| Selection.ChosenFileNone | streamlit_app.py:202-209 | no file is chosen exactly when no file has one of the four known extensions |
| Selection.VideoTitle | streamlit_app.py:184 | a missing title defaults to `subtitles`; a null title yields no name |
| Selection.Extension | streamlit_app.py:221 | `os.path.splitext(p)[1]` is a suffix of the name that is empty or is a dot followed by no dot and no slash; ExtensionAtLastDot and ExtensionWithoutDot give its exact value |
| Selection.ExtensionAtLastDot | streamlit_app.py:221 | with `d` the last dot of the last path component, the extension is `p[d..]` when some character before it in that component is not a dot, and empty otherwise (leading dots do not start an extension) |
| Selection.ExtensionWithoutDot | streamlit_app.py:221 | a last path component without a dot has no extension |
| Selection.ExtensionOfDotStem | streamlit_app.py:221 | a name made of dots (or nothing) plus a known extension, such as `.srt`, has no extension, so the download is named by the bare title |
| Selection.ExtensionOfSubtitleFile | streamlit_app.py:221 | the extension of a file ending with a known extension is that extension or empty |
| Selection.ExtensionOfPlainName | streamlit_app.py:221 | for a slash-free name with something other than dots before the known extension, the extension is the known one |
| Selection.DownloadNameIsSafe | streamlit_app.py:216-223 | both download names (`title.txt` and title plus extension) hold none of the nine characters |
| Selection.ProcessSubtitles | streamlit_app.py:184-227 | with no file, no subtitle file, an unreadable file or a null title the result is `(None, "")`; `Clean TXT` gives the cleaned content named sanitized title + `.txt`; the other formats give the raw content named sanitized title + the file's extension; the name never holds a forbidden character |

## Left out

- `get_info` and the extractor calls (`yt_dlp.YoutubeDL.extract_info`). They are network code in a third-party library. Their results, the `title` field and the list of written files, are inputs to `Selection.ProcessSubtitles`.
- The FFmpeg conversion to SRT. yt-dlp runs it as a postprocessor; this program holds no converter logic.
- The temporary directory, `os.listdir`, `open`/`read` and the cookie temp file.
  - The listing is an input sequence in listing order.
  - The files are a map from name to decoded text. A name without a map entry is a file that cannot be read; it ends in the catch-all `(None, "")`.
  - Decoding with `errors='ignore'` is not modelled.
  - Newline translation is not modelled either. `open(..., 'r')` reads in universal-newlines mode, so `\r\n` and `\r` reach the program as `\n`. The map values are the text `f.read()` returns, after that translation. The raw SRT/VTT downloads therefore carry the translated text, not the file's bytes.
- Selection.ProcessSubtitles: returns the content as text, not as its UTF-8 encoding.
- The remaining exception paths. If `extract_info` returns nothing, reading `.get` on it raises and the result is `(None, "")`; the model takes the extractor's result as present.
- All Streamlit user interface, the duration formatting and the MIME map: presentation only.
- Strings.IsDigit and Strings.IsSpace stand for Python's Unicode `\d` and `\s` (and the set `str.strip()` removes). They keep only the ASCII members of those classes: digits `0-9`, and space, `\t`, `\n`, `\v`, `\f`, `\r` and the separators `\x1c`, `\x1d`, `\x1e`, `\x1f`. Non-ASCII digits and whitespace (such as `\x85` or `\xa0`) are not modelled.
- Sanitize.SanitizeExample: states an illustrative example, `Bad:Name/Test?"` becoming `BadNameTest`, for any three pieces rather than for that literal.

## Notes on the code's behaviour

These follow from the code as written. The model keeps them, and the lemmas make them explicit.
- A file that starts `WEBVTT\n\n` followed by a cue loses that first cue to the header pattern (`Transcript.RemoveHeaderSwallowsFirstCue`). The non-greedy `.*?` starting after the keyword line runs to the next blank pair.
- Timings in the short `MM:SS.mmm` form are not removed (`Transcript.RemoveTimingsKeepsShortLine`). Neither is a timing line at the very end of the input: the pattern needs a newline after the stamps (`Patterns.TimingMatchIsTimingLine`), so a last line without one is kept, and a text without any newline is kept whole (`Transcript.RemoveTimingsNeedsNewline`).
- `Transcript.StripVttTimestampsNumberLines` excludes the first line of the transcript on purpose. `strip()` runs last, so an indented first line such as `  12` survives the number-line pass (it starts with a space) and then loses its indent (`Transcript.IndentedNumberLineSurvives`).
- The cleaner is not idempotent in general, because a later pass can expose what an earlier pass would have removed. `  12\nhello` is cleaned to `12\nhello`, and that is cleaned to `hello` (`Transcript.CleanerNotIdempotent`). `Transcript.StripVttTimestampsKeepsCleanText` states the cases in which it does return its input.
- A number line followed by a whitespace-only line takes that line with it, because `\s*` matches newlines too (`Transcript.RemoveNumberLinesSwallowsBlankLine`).
