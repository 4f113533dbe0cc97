# slashdiff in Dafny

slashdiff prepares two versions of a LaTeX document for a word diff and
colours the result. It has two parts, and each appears twice: once in the
library module `src/manipulation.py` and once, nearly verbatim, in the
script `src/texdiff.py`.

- **The paragraph flattener** (`flatten_paragraphs`) reads the lines of a
  document and keeps only its body:
  - a line holding `\begin{document}` throws away everything read so far;
  - a line holding `\end{document}` closes the open paragraph, without the
    marker line itself, and stops;
  - every blank line closes the open paragraph, even an empty one;
  - each paragraph is its stripped lines joined by single spaces;
  - the paragraphs are written with a blank line between two.
- **The highlight translator** turns the delimiters of
  `git diff --word-diff` into LaTeX colour commands:
  - `{+ … +}` becomes `\textcolor{green}{ … }`;
  - `[- … -]` becomes `\textcolor{red}{\st{ … }}`.

  Every pattern is a fixed string, and each delimiter is replaced on its
  own, with no pairing. The library runs deletions first and then
  additions; the script runs additions first and then deletions.

The model has four modules:

- `Text` (`text.dfy`) holds the Python string operations the code relies
  on, as functions with their properties proved:
  - the `^\s*$` test (`IsBlank`) and `str.strip` (`Strip`), both over the
    characters for which Python's `str.isspace` holds (`IsSpace`), the
    separators U+001C to U+001F and the Unicode spaces included;
  - `str.join` (`Join`), with `Split` as its read-back partner: the code
    never splits, but `FlattenedReadsBack` uses `Split` to state that the
    paragraphs can be recovered from the written text;
  - `re.search` of a literal (`Contains`);
  - `re.sub` of a literal (`ReplaceAll`): leftmost, non-overlapping, and
    the replacement text is not scanned again.
- `Manipulation` (`manipulation.dfy`) models `src/manipulation.py`.
  - `FlattenParagraphs` is the loop of `flatten_paragraphs` as written: two
    lists updated in place and a `break`. It is proved to return
    `Flattened(lines)`, a left fold (`Scan`) over the lines.
  - The highlight functions are pure functions.
  - The lemmas state what the flattener and the highlight passes do on
    every input.
- `ManipulationExamples` (`manipulation_examples.dfy`) proves the concrete
  inputs and outputs of the library.
- `TexDiff` (`texdiff.dfy`) models `src/texdiff.py`:
  - its own copy of the flattener loop, proved to compute the library's
    `Flattened`;
  - its own highlight functions, proved equal to the library's;
  - the loop that colours each line of the diff, proved to write the
    transformed lines concatenated, keeping every line's newlines.

Two properties one might expect of the program do not hold of its code,
and the model follows the code:

- The order of the two highlight passes is observable: `[-+x-]` gives
  `\textcolor{red}{\st\textcolor{green}{x}}` in the library and
  `\textcolor{red}{\st{+x}}` in the script (see `TexDiff.OrderExample`).
- A paragraph still open at the end of the input is dropped rather than
  ended, so flattening already flattened text loses its last paragraph
  (see `ManipulationExamples.NotAFixpoint`).

## Model

| member | source | states |
|---|---|---|
| Manipulation.Resets | src/manipulation.py:23-38 | a line that is not blank and holds `\begin{document}` anywhere: the first branch of the `if`/`elif` |
| Manipulation.Stops | src/manipulation.py:24-41 | a line that is not blank, holds no `\begin{document}` and holds `\end{document}` anywhere: the `elif` branch, reached only when the begin marker is absent |
| Manipulation.Ordinary | src/manipulation.py:30-39 | a line that is not blank and holds neither marker: it only joins the open paragraph |
| Manipulation.Scan | src/manipulation.py:29-45 | the left fold over the lines that defines the paragraphs: a blank line closes the open paragraph, a begin-marker line forgets everything, an end-marker line closes the open paragraph without its own text and ends the scan, any other line joins the open paragraph stripped, and the paragraph still open at the end is dropped |
| Manipulation.Paragraphs | src/manipulation.py:27-45 | the `paragraphs` list left after the loop: `Scan` started with no paragraph and an empty open paragraph |
| Manipulation.Flattened | src/manipulation.py:50 | the written text: the paragraphs of `Scan` joined with a blank line between two |
| Manipulation.FlattenParagraphs | src/manipulation.py:22-50 | the loop over the lines returns the paragraphs found by `Scan` joined by blank lines (`Flattened`) |
| Manipulation.BeginResets | src/manipulation.py:36-38 | a line that is exactly `\begin{document}` is a reset line |
| Manipulation.EndStops | src/manipulation.py:39-41 | a line that is exactly `\end{document}` is a stop line: not blank, without the begin marker, with the end marker |
| Manipulation.PlainLine | src/manipulation.py:30-39 | a non-blank line without a backslash holds neither marker, so it only joins the open paragraph |
| Manipulation.ResetDiscardsPrefix | src/manipulation.py:36-38 | flattening `before + [b] + after`, with `b` a reset line and no stop line in `before`, is flattening `after` alone |
| Manipulation.BothMarkersOnlyReset | src/manipulation.py:36-39 | the begin marker is looked for first, so a line holding both markers resets the scan, does not stop it, and discards everything before it |
| Manipulation.EndIgnoresRest | src/manipulation.py:39-41 | the lines after a stop line never change the flattened text |
| Manipulation.EndMarkerAfter | src/manipulation.py:39-41 | a line with `\end{document}` after other text, and no `\begin{document}`, is a stop line: the marker is searched for anywhere in the line |
| Manipulation.StopLineTextExcluded | src/manipulation.py:32-41 | with one ordinary line followed by a stop line, the output is the stripped ordinary line, and the stop line's own text is not part of it |
| Manipulation.OpenParagraphDropped | src/manipulation.py:29-47 | an ordinary last line changes nothing: the paragraph still open at the end of the input is dropped |
| Manipulation.UnclosedTailDropped | src/manipulation.py:29-47 | any run of ordinary lines at the end of the input leaves the flattened text unchanged |
| Manipulation.ParagraphOfBlock | src/manipulation.py:30-45 | a block of ordinary lines, ended by a blank line or a stop line, adds one paragraph: its stripped lines joined by single spaces; a stop line also ends the scan |
| Manipulation.ParagraphCount | src/manipulation.py:40-45 | after the last reset, the number of paragraphs is the number of blank lines, plus one when a stop line is reached |
| Manipulation.FlattenedReadsBack | src/manipulation.py:50 | for lines without inner newlines, splitting the flattened text at blank lines gives back exactly the paragraphs, so no paragraph holds a newline |
| Manipulation.SubAndEncloseSpan | src/manipulation.py:85-88 | one start delimiter, text, one end delimiter become the start replacement, the same text, the end replacement; the rest is unchanged |
| Manipulation.AdditionSpan | src/manipulation.py:61-72 | `pre {+mid+} post` becomes `pre \textcolor{c}{mid} post` when `pre` and `mid` hold no `{` or `+`, and `post` and the colour hold no `+` |
| Manipulation.DeletionSpan | src/manipulation.py:75-82 | `pre [-mid-] post` becomes `pre \textcolor{c}{\st{mid}} post` when `pre` and `mid` hold no `[` or `-`, and `post` and the colour hold no `-` |
| Manipulation.LoneAdditionStart | src/manipulation.py:85-88 | there is no pairing: a start delimiter without an end delimiter is still replaced |
| Manipulation.HighlightChanges | src/manipulation.py:54-58 | deletions then additions; a line holding none of `{+`, `+}`, `[-`, `-]` is returned unchanged |
| Manipulation.TextColour | src/manipulation.py:64 | the text (also at line 78) of `\textcolor{` + colour + `}{` that the replacement template yields, the colour taken as plain text |
| Manipulation.HighlightAdditions | src/manipulation.py:61-72 | `{+` becomes `\textcolor{colour}{` and `+}` becomes `}`; a line holding neither delimiter is returned unchanged |
| Manipulation.HighlightDeletions | src/manipulation.py:75-82 | `[-` becomes `\textcolor{colour}{\st{` and `-]` becomes `}}`; a line holding neither delimiter is returned unchanged |
| Manipulation.SubAndEnclose | src/manipulation.py:85-88 | every start delimiter is replaced, then every end delimiter; a string holding neither delimiter is returned unchanged |
| Manipulation.ChangesOfSeparateSpans | src/manipulation.py:54-58 | an addition span followed by a deletion span, with text and colour names free of delimiter characters, become the two colour commands |
| Manipulation.DeletedAdditionStart | src/manipulation.py:54-58 | deletions run first, so in `[-+x-]` the `{` that `\st{` leaves before the `+` is taken as an addition start: the result is `\textcolor{red}{\st\textcolor{green}{x}}` |
| ManipulationExamples.TwoParagraphs | src/manipulation.py:22-50 | lines before the body, two one-line paragraphs separated by a blank line, then the end marker and any lines after it, flatten to the two stripped lines separated by a blank line |
| ManipulationExamples.MarkerExample | src/manipulation.py:22-50 | preamble, begin marker, `Hello world.`, blank, `Goodbye.`, end marker, trailer flatten to `Hello world.`, a blank line, `Goodbye.` |
| ManipulationExamples.EndLineExcluded | src/manipulation.py:39-41 | `["x", "foo \end{document}"]` flattens to `x` |
| ManipulationExamples.LastParagraphDropped | src/manipulation.py:42-47 | a paragraph, a blank line, then one ordinary line flatten to the first paragraph alone |
| ManipulationExamples.UnclosedExamples | src/manipulation.py:29-47 | `["a", "b"]` flattens to the empty text and `["a", "", "b"]` to `a` |
| ManipulationExamples.NotAFixpoint | src/manipulation.py:29-50 | `a`, `b` between the markers flatten to `a`, a blank line, `b`; the lines of that text read back (`"a\n"`, `"\n"`, `"b"`) flatten to `a` only |
| ManipulationExamples.EmptyParagraphKept | src/manipulation.py:42-45 | two blank lines in a row close an empty paragraph between them |
| ManipulationExamples.EmptyParagraphs | src/manipulation.py:42-45 | `["a", "", "", "b", "\end{document}"]` flattens to `a`, an empty paragraph and `b`: `"a\n\n\n\nb"` |
| ManipulationExamples.TwoLineParagraph | src/manipulation.py:44 | a paragraph of two lines is the two stripped lines with one space between |
| ManipulationExamples.TwoLinePairs | src/manipulation.py:32-44 | two two-line paragraphs in the body become two paragraphs, each its stripped lines joined by one space |
| ManipulationExamples.JoinedLines | src/manipulation.py:32-50 | begin marker, `"  a  "`, `b`, blank, `c`, `d`, end marker flatten to `"a b\n\nc d"` |
| ManipulationExamples.AdditionExample | src/manipulation.py:61-72 | `a {+new+} word` becomes `a \textcolor{green}{new} word` |
| ManipulationExamples.AdditionInBlue | src/manipulation.py:61-72 | with colour `blue`, `{+x+}` becomes `\textcolor{blue}{x}` |
| ManipulationExamples.DeletionExample | src/manipulation.py:75-82 | `a [-old-] word` becomes `a \textcolor{red}{\st{old}} word` |
| ManipulationExamples.ChangesExample | src/manipulation.py:54-58 | `{+x+} and [-y-]` becomes `\textcolor{green}{x} and \textcolor{red}{\st{y}}` |
| ManipulationExamples.LibraryOrderExample | src/manipulation.py:54-58 | `[-+x-]` becomes `\textcolor{red}{\st\textcolor{green}{x}}` |
| ManipulationExamples.LoneStartExample | src/manipulation.py:85-88 | `{+abc` becomes `\textcolor{green}{abc` |
| Text.IsSpace | src/manipulation.py:22-32 | a character matched by `\s` and removed by `strip`: the characters for which `str.isspace` holds, U+0009 to U+000D, U+001C to U+0020, U+0085, U+00A0, U+1680, U+2000 to U+200A, U+2028, U+2029, U+202F, U+205F and U+3000 |
| Text.IsBlank | src/manipulation.py:22-30 | `^\s*$` finds a match: the line is empty or its first character is whitespace and the rest is blank |
| Text.Strip | src/manipulation.py:32 | `line.strip()`: leading whitespace removed, then trailing whitespace |
| Text.Contains | src/manipulation.py:23-39 | a search for a literal pattern succeeds: the pattern starts at some position of the line, the end included |
| Text.ReplaceAll | src/manipulation.py:86-87 | `re.sub` of a literal, non-empty pattern: scanning from the left, an occurrence at the current position is replaced and the scan resumes after it, so occurrences never overlap and the replacement text is not scanned again; otherwise one character is kept and the scan moves on |
| Text.Join | src/manipulation.py:40-50 | `sep.join(parts)`: the parts with the separator between two neighbours, the empty text for no parts; also the `''.join` of src/texdiff.py:84 |
| Text.BlankIffAllSpace | src/manipulation.py:22-30 | a line is blank exactly when every character is whitespace |
| Text.BlankIffStripsEmpty | src/manipulation.py:30-32 | a line is blank exactly when it strips to the empty string |
| Text.StripIsTrimmedSlice | src/manipulation.py:32 | `strip` returns the slice of the line between leading and trailing whitespace, and that slice neither starts nor ends with whitespace |
| Text.StripIdempotent | src/manipulation.py:32 | stripping twice is stripping once |
| Text.ReplaceUnchangedIff | src/manipulation.py:86-88 | a literal substitution leaves a string unchanged exactly when the pattern does not occur in it or the replacement is the pattern |
| Text.ReplaceIsJoinOfSplit | src/manipulation.py:86-88 | a literal substitution is splitting at the pattern and joining with the replacement |
| Text.SplitJoin | src/manipulation.py:50 | splitting a join at its separator gives back the parts when no part holds the separator's first character |
| Text.ReplaceKeepsCount | src/texdiff.py:64-65 | a substitution whose pattern and replacement lack a character keeps the number of times it occurs |
| TexDiff.FlattenParagraphs | src/texdiff.py:12-39 | the script's copy of the loop returns the library's `Flattened(lines)`, so both copies agree on every input |
| TexDiff.SubAndEnclose | src/texdiff.py:64-65 | `sub_and_enclose` gives the library's `_sub_and_enclose` result |
| TexDiff.HighlightAdditions | src/texdiff.py:42-53 | the script's `highlight_additions` gives the library's result, green by default |
| TexDiff.HighlightDeletions | src/texdiff.py:55-62 | the script's `highlight_deletions` gives the library's result, red by default |
| TexDiff.ColouredLines | src/texdiff.py:79-81 | one transformed line per diff line, the `i`-th being additions then deletions applied to the `i`-th diff line |
| TexDiff.ColourDiff | src/texdiff.py:79-84 | the loop over the diff lines returns the transformed lines concatenated |
| TexDiff.HighlightLine | src/texdiff.py:81 | the per-line transform, additions then deletions in the default colours, keeps the number of newlines of the line |
| TexDiff.ColouredDiff | src/texdiff.py:84 | the written text: the transformed lines concatenated |
| TexDiff.ColouredDiffKeepsNewlines | src/texdiff.py:79-84 | the coloured diff holds as many newlines as the diff |
| TexDiff.UnmarkedLineKept | src/texdiff.py:80-81 | a line without delimiters is written as it was read |
| TexDiff.UnmarkedDiffKept | src/texdiff.py:79-84 | a diff none of whose lines holds a delimiter is written unchanged |
| TexDiff.AdditionsFirstKeepPlus | src/texdiff.py:80-81 | additions run first, so `[-+x-]` becomes `\textcolor{red}{\st{+x}}`, the `+` kept as text |
| TexDiff.OrderExample | src/texdiff.py:80-81 | `[-+x-]` becomes `\textcolor{red}{\st{+x}}`, which differs from the library's `highlight_changes` result |
| TexDiff.StartBeforeEndExample | src/texdiff.py:64-65 | all start delimiters are replaced before any end delimiter, so `{+}` becomes `\textcolor{green}{}` |
| TexDiff.OrdersAgreeOnSeparateSpans | src/texdiff.py:80-81 | for an addition span followed by a separate deletion span, the script's order gives the library's result |

## Left out

- Reading and writing files (src/manipulation.py:26, 47-51; src/texdiff.py:17, 35-39, 76-77, 83-85): the lines read are a parameter and the text written is the result.
- Argument parsing (src/texdiff.py:6-10): command-line glue.
- The temporary directory and the `git diff --word-diff … | tail -n +6` shell command (src/texdiff.py:67-74): an external process. The diff lines are taken as arbitrary input.
- The general regular-expression engine: every pattern used is a fixed string, so `re.search` is `Contains` and `re.sub` is `ReplaceAll`. `ReplaceAll` requires a non-empty pattern, which every call site meets.
- Escapes in replacement templates: a colour name is used as plain text. The colour lemmas assume colour names made of letters only (`IsColourName`), which keeps every delimiter character and the backslash out of them; the code itself accepts other names, such as `red!50`.
