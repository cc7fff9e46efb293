# Shader source splitter of the OpenGL demo, in Dafny

The OpenGL demo keeps its vertex shader and its fragment shader in one text
file. `ParseShader` (`OpenGl/src/main.cpp`, and a byte-identical copy in
`enc_temp_folder/b3c96e43cd1c2a4b121fb9669b1e0/main.cpp`) reads that file line
by line and splits it into the two sources it hands to the shader compiler:

- a line containing `#shader` is a marker. It sets the mode to VERTEX if it
  also contains `vertex`, and to FRAGMENT if it contains `fragment`. Both tests
  run, in that order, so `fragment` wins when both occur. A marker with
  neither keyword leaves the mode as it was. A marker is never copied.
- every other line, followed by `'\n'`, goes to the buffer `sstring[(int)stype]`,
  where `stype` is the current mode. The modes are NONE = -1, VERTEX = 0 and
  FRAGMENT = 1.
- the result is the pair (`sstring[0]`, `sstring[1]`).

The project has three modules:

- `Text` (`text.dfy`) models the two standard-library operations the routine
  relies on. `FindFrom`/`Contains` model `std::string::find`. `GetLine`/`SplitLines`
  model repeated `std::getline`. `JoinLines`, the inverse of `SplitLines` on
  lines without `'\n'`, is what `stream << line << '\n'` accumulates.
- `ShaderParse` (`shader_parse.dfy`) holds the mode enum (`ShaderType`), the
  result struct (`ShaderProgramSource`, `OpenGl/src/main.cpp:14-18`) and the
  scan. `Step` is one iteration and `Scan` is the pass over all lines, as a
  fold. `ParseShader` is the imperative loop. It keeps the mode in a variable
  and the two buffers in a two-element array indexed by the mode's integer
  value, and it is proved to compute `ParseFile`.
- `ShaderProps` (`shader_props.dfy`) gives independent reference definitions
  that look at each line on its own. `ModeAfter` is the mode in force when a
  line is read. `Assigned` is the list of content lines read in a given mode.
  The module proves the scan equal to these definitions, along with the
  properties below.

A content line that comes before any mode-setting marker is read while the
mode is NONE. The C++ code then writes to `sstring[-1]`, which is outside the
array. The model does not drop that line: it returns
`Err(UnmarkedContent(i))`, where `i` is the 0-based index of the first such
line. When the file cannot be opened, the code reads nothing and returns two
empty strings, and `ParseFile(None)` does the same.

## Model

| member | source | states |
|---|---|---|
| `ShaderParse.ParseShader` | OpenGl/src/main.cpp:20-56 | The loop (mode variable, two-element buffer array indexed by the mode's value, early error on index -1) returns exactly `ParseFile(file)` |
| `ShaderParse.NextMode` | OpenGl/src/main.cpp:38-48 | A non-marker line keeps the mode. A marker with `fragment` gives FRAGMENT, whether or not `vertex` is also present. A marker with only `vertex` gives VERTEX. A marker with neither keeps the mode. The result is NONE only if the mode was already NONE |
| `ShaderParse.ShaderType.Value` | OpenGl/src/main.cpp:24-29 | NONE is -1, the one mode whose value is not an index of the two-element buffer array; VERTEX is index 0 and FRAGMENT index 1, the buffers returned first and second |
| `ShaderParse.IsMarker` | OpenGl/src/main.cpp:38 | A line is a marker exactly when `#shader` occurs somewhere in it |
| `ShaderParse.Step` | OpenGl/src/main.cpp:38-52 | One iteration fails exactly on a content line read in mode NONE, with that line's index. Otherwise the mode becomes `NextMode`, the buffers only grow, and together they grow by the line and its `'\n'` on a content line and not at all on a marker. `ShaderProps.StepMatchesReference` states its full effect |
| `ShaderParse.Scan` | OpenGl/src/main.cpp:34-53 | The loop over all lines, as a fold of `Step`; an error names a content line of the input. `ShaderProps.ScanMatchesReference` states its full result |
| `ShaderParse.ParseLines` | OpenGl/src/main.cpp:34-55 | An empty line sequence yields two empty sources |
| `ShaderParse.ParseFile` | OpenGl/src/main.cpp:22-36 | A file that cannot be opened (no text) yields two empty sources, as `getline` fails at once |
| `ShaderParse.ReadLines` | OpenGl/src/main.cpp:36 | A file that cannot be opened delivers no lines, and no delivered line holds a `'\n'` |
| `ShaderParse.ScanErrorPersists` | OpenGl/src/main.cpp:36-53 | After the first out-of-range line, more input never changes the reported error |
| `ShaderParse.UnmarkedLineFails` | OpenGl/src/main.cpp:34-51 | A content line read in mode NONE makes the whole parse fail with that line's index, whatever follows |
| `ShaderProps.ScanMatchesReference` | OpenGl/src/main.cpp:34-53 | The loop state after any prefix equals the reference: the mode is `ModeAfter`, and each buffer is the joined `Assigned` lines of its mode. The scan fails exactly when some line is `Unmarked`, and then it names the first such line |
| `ShaderProps.StepMatchesReference` | OpenGl/src/main.cpp:38-52 | One iteration preserves agreement with the reference definitions |
| `ShaderProps.ParseLinesMatchesReference` | OpenGl/src/main.cpp:49-55 | The result is Ok exactly when no content line precedes the first mode-setting marker. Then the vertex and fragment outputs are the in-order concatenation of `line + "\n"` over exactly the content lines read in that mode. Otherwise the error names the first offending line |
| `ShaderProps.ModeNeverReturnsToNone` | OpenGl/src/main.cpp:34-48 | Once the mode has left NONE, it is not NONE after any longer prefix |
| `ShaderProps.ModeChangesOnlyOnMarkers` | OpenGl/src/main.cpp:38-48 | If the mode differs before and after a line, that line is a marker |
| `ShaderProps.AssignedAreContentLines` | OpenGl/src/main.cpp:38-52 | Every line that lands in a buffer is an input line and is not a marker |
| `ShaderProps.LinesPartitioned` | enc_temp_folder/b3c96e43cd1c2a4b121fb9669b1e0/main.cpp:36-53 | In well-formed input, each line is a marker or lands in exactly one buffer: vertex count + fragment count + marker count = line count |
| `ShaderProps.BufferShape` | OpenGl/src/main.cpp:49-55 | Each output is empty or ends in `'\n'`. Its length is the total length of its assigned lines plus one per line. When the lines hold no `'\n'`, its newline count equals its number of assigned lines |
| `ShaderProps.NoMarkersIsError` | enc_temp_folder/b3c96e43cd1c2a4b121fb9669b1e0/main.cpp:24-51 | Non-empty input without any marker fails at line 0, the index -1 write |
| `ShaderProps.StandardMarkers` | OpenGl/src/main.cpp:38-47 | `#shader vertex` and `#shader fragment` are markers that select VERTEX and FRAGMENT from any mode |
| `ShaderProps.ScanContentBlock` | OpenGl/src/main.cpp:49-52 | A run of content lines read in a set mode appends their joined text to that mode's buffer only |
| `ShaderProps.MarkedSection` | OpenGl/src/main.cpp:38-52 | After any successfully scanned prefix, a marker that selects VERTEX or FRAGMENT followed by content lines switches to that mode and appends the lines' joined text to that mode's buffer only |
| `ShaderProps.TwoSections` | OpenGl/src/main.cpp:36-55 | A vertex marker with its lines, then a fragment marker with its lines, splits into exactly those two joined sections |
| `ShaderProps.ResplitReproduces` | OpenGl/src/main.cpp:36-55 | Writing both outputs back behind their marker lines and splitting again reproduces the same outputs |
| `ShaderProps.TwoSectionsExample` | OpenGl/src/main.cpp:36-55 | `["#shader vertex","A","#shader fragment","B","C"]` gives `"A\n"` and `"B\nC\n"` |
| `ShaderProps.BothKeywordsFragmentWins` | enc_temp_folder/b3c96e43cd1c2a4b121fb9669b1e0/main.cpp:40-51 | After any successfully scanned prefix, in any mode, a marker naming both keywords followed by content lines appends their joined text to the fragment buffer and leaves the vertex buffer as it was (the single-line fact is `NextMode`'s second ensures) |
| `ShaderProps.BothKeywordsExample` | enc_temp_folder/b3c96e43cd1c2a4b121fb9669b1e0/main.cpp:40-47 | `["#shader vertex fragment","A"]` gives `""` and `"A\n"` |
| `ShaderProps.LeadingContentIndexesMinusOne` | OpenGl/src/main.cpp:24-51 | For `["X","#shader vertex","Y"]`, line 0 is content read in mode NONE, whose value is -1. The model reports `UnmarkedContent(0)` |
| `Text.FindFrom` | OpenGl/src/main.cpp:38 | A found position is at or after the start and the pattern occurs there; `Text.FindFromFirst` adds that it is the first and that `npos` means none |
| `Text.Contains` | OpenGl/src/main.cpp:38-44 | `find(...) != npos`; `Text.ContainsIff` states that it holds exactly when the pattern occurs somewhere |
| `Text.FindFromFirst` | OpenGl/src/main.cpp:38 | `find` returns the first occurrence at or after the start position, and `npos` only when there is none |
| `Text.ContainsIff` | OpenGl/src/main.cpp:38 | `find(...) != npos` holds exactly when the pattern occurs somewhere |
| `Text.NotContainedWithoutFirstChar` | OpenGl/src/main.cpp:40-44 | A pattern whose first character does not occur in the line is not found |
| `Text.LineLength` | OpenGl/src/main.cpp:36 | The line ends at the first `'\n'`, or at the end of the text |
| `Text.GetLine` | OpenGl/src/main.cpp:36 | One `getline` consumes the line and its `'\n'` (not stored), or the whole unterminated rest |
| `Text.SplitLines` | OpenGl/src/main.cpp:36 | No delivered line contains `'\n'` |
| `Text.JoinLines` | OpenGl/src/main.cpp:51 | The accumulated text is empty only for no lines, otherwise ends in `'\n'`, and has length total-line-length + line count |
| `Text.JoinLinesAppend` | OpenGl/src/main.cpp:51 | Appending one more line extends the accumulated text by that line and `'\n'` |
| `Text.JoinLinesNewlines` | OpenGl/src/main.cpp:51 | For lines without `'\n'`, the accumulated text has exactly one `'\n'` per line |
| `Text.SplitFirstLine` | OpenGl/src/main.cpp:36 | A line without `'\n'` followed by `'\n'` is delivered whole as the first line, and reading goes on right after the `'\n'` |
| `Text.SplitJoin` | OpenGl/src/main.cpp:36-51 | Splitting joined lines (none holding `'\n'`) gives them back |
| `Text.JoinSplit` | OpenGl/src/main.cpp:36 | Joining what `getline` delivers restores the text, with a `'\n'` added after an unterminated last line |
| `Text.SplitLinesCount` | OpenGl/src/main.cpp:36 | `getline` delivers one line per `'\n'`, plus one for an unterminated last line; a trailing `'\n'` gives no extra empty line |
| `Text.TrailingNewlineIgnored` | OpenGl/src/main.cpp:36 | Adding a final `'\n'` after an unterminated last line does not change the delivered lines |

## Findings

| source | as written | input that shows it | evidently intended | confidence | as-written member | corrected member |
|---|---|---|---|---|---|---|
| OpenGl/src/main.cpp:51 | `sstring[(int)stype] << line << '\n'` runs with `stype == NONE`, so it indexes `sstring[-1]` of a two-element array | lines `["X", "#shader vertex", "Y"]` (any content line before the first marker) | a content line before any marker should go to no buffer and should not be written outside the array; the model reports it as `UnmarkedContent` | high; not executed | `ShaderProps.LeadingContentIndexesMinusOne` | `ShaderProps.ParseLinesMatchesReference` |

## Left out

- `CompileShader`, `CreateShader`, `main` and the global vertex, colour and
  toggle data are OpenGL, GLFW and ImGui calls and UI state. They are not part
  of this model.
- Opening the file (`std::ifstream`) is I/O. The file is given as its text,
  or as `None` when it cannot be opened.
- `ShaderParse.ParseShader`: the lines `getline` would deliver are computed
  once (`ReadLines`) before the loop, instead of one `getline` call per
  iteration. So the interleaving of reading and appending is not modelled.
  Only the sequence of lines seen by the loop is.
- `ShaderParse.ParseShader`: the C++ code's undefined behaviour after writing to
  `sstring[-1]` is not modelled. The model stops at the first such line and
  reports it.
- Text-mode newline translation by the C++ stream (for example `"\r\n"` on
  Windows) is not modelled. Lines are cut at `'\n'` only, and a `'\r'` stays
  in the line.
- Idempotence of a parse holds because `ParseLines` and `ParseFile` are
  functions, so it has no lemma of its own.
