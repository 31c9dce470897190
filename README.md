# preview-beamer-slide, modelled in Dafny

preview-beamer-slide is an editor package for LaTeX Beamer presentations. It has three parts, and each one is a module here:

- **`PreviewFrame`** (`previewframe.dfy`) models the excerpt script. The script decides which preamble to use: the target file's own, when one of its first 20 lines declares a document class, or else the first eligible `.tex` file in the same directory. It then cuts out the frame around the cursor line, widened by `nbefore` frames before it and `nafter` frames after it. The boundary lines are rewritten so the excerpt opens and closes cleanly. Finally it assembles `preamble + \begin{document} + frame + \end{document}`, which is written to `beamerprevframe.tex`. The back scan and the forward scan work in place on the line list, so they are methods over an `array<string>`. Each is proved equal to a recursive specification (`OpenBack`, `FrameStop`, `BoundaryRewrite`).
- **`Rewrapping`** (`rewrapping.dfy`) models the paragraph rewrapper.
  - The line classifiers decide which rows are "empty" (blank, structure commands, comments, `\pause`, math delimiters) and which start an item.
  - The paragraph search works from the cursor or the selection.
  - The wrap loop cuts text at whitespace near the wrap column. It has a cap of 150 passes. The source computes the column as `80 - indent`. The model clamps it at 0, because the unclamped column loses text for indents over 80 characters (see Findings). So the top-level rewrap follows the source only for indents of at most 80 characters.
  - The editor object is a class with its rows and cursor. Its `remove_line`, `insert_line` and `remove_many_lines` change the rows in place.
  - `domyrewrap` is a module-level method that takes the editor. It is proved to leave the rows equal to `Rewrapped`, a function of the old rows.
- **`BeamerSlide`** (`navigation.dfy`) models the package's own editor logic:
  - `navFrame`, with its cursor-moving loop;
  - the 1-based line number handed from the editor to the script, and the proof that the script then looks at the cursor's own row.

`Strings` holds the sequence and string vocabulary that the modules share: prefixes, `Concat`, `Join`, `Split` and Python's `readlines`. `Wrappers` holds `Option` and `Result`.

## Model

| member | source | states |
|---|---|---|
| PreviewFrame.LeadingSpace | lib/previewframe.py:25 | the length of the whitespace run that starts a line: every character before it is space, and the one at it is not |
| PreviewFrame.MatchesAfterSpaceExact | lib/previewframe.py:25 | for a pattern starting with a non-space, "skip the whole whitespace run, then match" holds exactly when some run of whitespace followed by the pattern begins the line (the backtracking semantics of `\s*pat`) |
| PreviewFrame.OpenIsNotClose | lib/previewframe.py:77-88 | no line is both a frame-open and a frame-close line, so the scans' two tests never both fire |
| PreviewFrame.DeclaresClassIgnoresTail | lib/previewframe.py:31-39 | whether a file has a preamble depends only on its first 20 lines |
| PreviewFrame.HasPreamble | lib/previewframe.py:31-39 | the counting loop returns true exactly when one of the first 20 lines declares a document class |
| PreviewFrame.BodyStart | lib/previewframe.py:22-28 | the index of the first `\begin{document}` line, or the line count when there is none |
| PreviewFrame.ExtractPreamble | lib/previewframe.py:22-28 | the accumulated text is the concatenation of every line before the first `\begin{document}` line |
| PreviewFrame.Preamble | lib/previewframe.py:22-28 | definition of extract_pramble's result, the lines before `BodyStart` joined; `ExtractPreamble` returns it and `PreambleIsPrefix` shows it is a prefix of the file's text |
| PreviewFrame.PreambleIsPrefix | lib/previewframe.py:22-28 | the preamble is a prefix of the file's text, and is the whole text when the file has no body start |
| PreviewFrame.Basename | lib/previewframe.py:52 | the basename is a slash-free suffix of the path, preceded by a slash when it is shorter than the path |
| PreviewFrame.FirstEligible | lib/previewframe.py:47-54 | the first candidate that is not the target, has a preamble and is not named `beamerprevframe.tex`; every one before it fails one of those tests |
| PreviewFrame.Eligible | lib/previewframe.py:48-53 | definition of the three tests a candidate must pass; `FirstEligible` gives the first candidate that passes them, and `ChoosePreamble` uses it |
| PreviewFrame.ChoosePreamble | lib/previewframe.py:42-55 | the target's own preamble when it declares a class; otherwise the preamble of the first eligible candidate; "No preamble found" exactly when neither exists |
| PreviewFrame.FindPreamble | lib/previewframe.py:42-55 | the loop over the candidates returns the result `ChoosePreamble` specifies |
| PreviewFrame.CountOpen | lib/previewframe.py:60-88 | the number of frame-open lines in a range, never more than the range's length |
| PreviewFrame.CountPositive | lib/previewframe.py:60-73 | a range that holds a frame-open line counts at least one |
| PreviewFrame.CountZero | lib/previewframe.py:60-73 | a range without frame-open lines counts zero |
| PreviewFrame.CountPassesThrough | lib/previewframe.py:60-73 | a range with more than k opens has an open line with exactly k opens before it |
| PreviewFrame.OpenBack | lib/previewframe.py:60-73 | the backward scan finds nothing exactly when there are at most k opens up to the line; otherwise it finds an open line with exactly k opens after it |
| PreviewFrame.FrameStop | lib/previewframe.py:75-88 | the first line where the forward scan stops (an open after at least nafter opens, or a close after exactly nafter), or the end of the file; no line before it stops |
| PreviewFrame.FrameBounds | lib/previewframe.py:58-90 | the no-frame error exactly when the line index is negative or too few frames open up to it; otherwise begin <= line < end <= length |
| PreviewFrame.EndLineMonotone | lib/previewframe.py:75-88 | asking for one more frame after the cursor never moves the end line up |
| PreviewFrame.NegativeAfterNotMonotone | lib/previewframe.py:75-88 | for `nafter` -1 the property fails: a close line just after the cursor ends the excerpt at `nafter` 0, but at -1 the scan runs on to the next frame's open line |
| PreviewFrame.SingleFrameBounds | lib/previewframe.py:58-90 | with no extra frames, a cursor inside `\begin{frame}` ... `\end{frame}` with no markers between gets exactly that frame's two lines |
| PreviewFrame.LineEnd | lib/previewframe.py:66 | where a line's text ends, before its line terminator |
| PreviewFrame.LastOpen | lib/previewframe.py:80 | the last position up to j where a frame opens, with none after it |
| PreviewFrame.TrimBegin | lib/previewframe.py:66 | the rewritten first line is a suffix of the line that still opens a frame, and it starts at the last marker before the first line feed (it drops exactly `LastOpen(l, FirstNewline(l))` characters), which is where the greedy `^.*` stops |
| PreviewFrame.TrimEndOpen | lib/previewframe.py:80 | an end line that opens the next frame is unchanged when a line feed comes before its end, where the pattern cannot match; otherwise the result is the line's text before its last marker (a prefix of exactly `LastOpen(l, LineEnd(l))` characters) followed by the line's terminator |
| PreviewFrame.TrimEndClose | lib/previewframe.py:86 | an end line that closes the frame is unchanged when a line feed comes before its end; otherwise the result is the line's prefix through its last `\end{frame}` (its length is that marker's column plus the marker's length), followed by the line's terminator |
| PreviewFrame.BoundaryRewrite | lib/previewframe.py:66-86 | the begin line becomes `TrimBegin` of itself (line 70), the end line, when inside the file, becomes the line-80 or line-86 rewrite (`EndRewrite`), and every other line is unchanged |
| PreviewFrame.ExcerptText | lib/previewframe.py:66-90 | the excerpt is the rewritten begin line, then every line strictly between begin and end verbatim, then the rewritten end line when the end is inside the file |
| PreviewFrame.Excerpt | lib/previewframe.py:90 | definition of line 90's join of the rewritten range; `ExcerptText` says it is the rewritten begin line, the interior verbatim and the rewritten end line, and `ExcerptOpensFrame` that it opens a frame |
| PreviewFrame.ExcerptOpensFrame | lib/previewframe.py:66 | the excerpt starts by opening a frame |
| PreviewFrame.IsClassLine | lib/previewframe.py:37 | definition of the `\s*\\documentclass` test; `MatchesAfterSpaceExact` gives it the pattern's meaning |
| PreviewFrame.IsBodyStart | lib/previewframe.py:25 | definition of the `\s*\\begin\{document\}` test; `MatchesAfterSpaceExact` gives it the pattern's meaning, and `BodyStart` finds the first such line |
| PreviewFrame.IsFrameOpen | lib/previewframe.py:64 | definition of the column-0 open-marker test; `OpenIsNotClose` and `MarkersIgnoreNewline` are about it |
| PreviewFrame.IsFrameClose | lib/previewframe.py:85 | definition of the column-0 close-marker test; `OpenIsNotClose` and `MarkersIgnoreNewline` are about it |
| PreviewFrame.DeclaresClass | lib/previewframe.py:31-39 | definition: a class line among the first 20; `HasPreamble` is proved equal to it and `DeclaresClassIgnoresTail` gives its window |
| PreviewFrame.Stops | lib/previewframe.py:77-88 | definition of where the forward loop breaks; `FrameStop` finds the first such line and `EndLineMonotone` relates two values of `nafter` |
| PreviewFrame.EndRewrite | lib/previewframe.py:78-86 | definition: the end-line rewrite for an open line and for a close line; `TrimEndOpen` and `TrimEndClose` state what each keeps |
| PreviewFrame.FrameText | lib/previewframe.py:58-90 | definition of extract_frame's result; `ExtractFrame` is proved to return it, and `FrameBounds`, `ExcerptText` and `ExcerptOpensFrame` give its meaning |
| PreviewFrame.FrameRewrite | lib/previewframe.py:66-86 | definition of the list extract_frame leaves behind; `ExtractFrame` is proved to leave it, and `BoundaryRewrite` says only two lines change |
| PreviewFrame.Assemble | lib/previewframe.py:106-109 | definition of the written document; `AssembleLayout` states its layout |
| PreviewFrame.PreambleSource | lib/previewframe.py:98-103 | definition: the main file when one is named, else the target; `Prevfile` uses it |
| PreviewFrame.ScanBack | lib/previewframe.py:60-73 | the in-place backward loop finds a line exactly when `OpenBack` does; that line is the one found, and it is the only line rewritten |
| PreviewFrame.ScanForward | lib/previewframe.py:75-88 | the in-place forward loop stops at `FrameStop`, and the array ends as `BoundaryRewrite` of the original lines |
| PreviewFrame.ExtractFrame | lib/previewframe.py:58-90 | the returned excerpt or error and the final contents of the array are those the frame specification gives |
| PreviewFrame.Prevfile | lib/previewframe.py:93-109 | "No preamble found" exactly when the preamble search fails; the no-frame error exactly when the search succeeds and the frame search fails |
| PreviewFrame.AssembleLayout | lib/previewframe.py:106-109 | the document starts with the preamble and `\begin{document}`, and ends with the frame and `\end{document}` |
| PreviewFrame.PrevfileLayout | lib/previewframe.py:93-109 | a successful run's document starts with the chosen preamble and ends with the extracted frame and the body end |
| PreviewFrame.CreatePrevfile | lib/previewframe.py:93-109 | the method returns the document or the error `Prevfile` specifies |
| Rewrapping.LeadingSpace | lib/rewrapping.js:79-83 | the whitespace run starting a row is blank, and a non-space follows it |
| Rewrapping.IsBlank | lib/rewrapping.js:6 | definition of `/^\s*$/` as every character being JavaScript whitespace; `LeadingSpace` and `TrimSlice` use it for the runs they strip, and `NonSpaceBlank` shows a blank string carries no text |
| Rewrapping.TrailingStart | lib/rewrapping.js:98 | where a row's trailing whitespace begins, with a non-space just before it |
| Rewrapping.TrimStartDrops | lib/rewrapping.js:98 | trimming the start drops exactly the leading whitespace run |
| Rewrapping.TrimEndDrops | lib/rewrapping.js:98 | trimming the end drops exactly the trailing whitespace run |
| Rewrapping.TrimSlice | lib/rewrapping.js:98 | a trimmed row is a slice of the row, with blank parts outside it and non-space characters at its two ends |
| Rewrapping.Trim | lib/rewrapping.js:98 | definition of JavaScript's `trim`; `TrimSlice`, `TrimStartDrops`, `TrimEndDrops` and `TrimKeepsText` give its meaning |
| Rewrapping.TrimNoNewline | lib/rewrapping.js:98 | trimming a row without line feeds yields none |
| Rewrapping.NonSpaceAppend | lib/rewrapping.js:99 | the non-space text of a concatenation is the concatenation of the parts' non-space texts |
| Rewrapping.NonSpaceBlank | lib/rewrapping.js:98 | a blank string carries no text |
| Rewrapping.TrimKeepsText | lib/rewrapping.js:98 | trimming keeps every non-space character, in order |
| Rewrapping.LeadingSpaceAt | lib/rewrapping.js:12-14 | the leading whitespace run ends at the first non-space |
| Rewrapping.PaddedAtIsPadded | lib/rewrapping.js:12-14 | the computed test (skip the whitespace, match, nothing after but space) implies the regex meaning `^\s*x\s*$` |
| Rewrapping.PaddedIsPaddedAt | lib/rewrapping.js:12-14 | for x starting with a non-space, the regex meaning implies the computed test |
| Rewrapping.PaddedAtMatches | lib/rewrapping.js:12-14 | the computed test and the regex meaning agree in both directions |
| Rewrapping.PauseLineMatches | lib/rewrapping.js:12 | a row counts as a `\pause` row exactly when it is `\pause` padded by whitespace |
| Rewrapping.IsPauseLine | lib/rewrapping.js:12 | definition of the `\pause` row test; `PauseLineMatches` ties it to its pattern in both directions |
| Rewrapping.MathDelimiterLineMatches | lib/rewrapping.js:14 | a row counts as a delimiter row exactly when it is `$`, `$$`, `\[` or `\]` padded by whitespace |
| Rewrapping.IsMathDelimiterLine | lib/rewrapping.js:14 | definition of the delimiter row test; `MathDelimiterLineMatches` ties it to its four patterns in both directions |
| Rewrapping.HasStructureCommand | lib/rewrapping.js:8 | definition of the search for a `begin`, `end`, `section`, `subsection`, `chapter` or `paragraph` command: the command and its opening brace at some position, and a closing brace later |
| Rewrapping.HasUnescapedPercent | lib/rewrapping.js:10 | definition of the comment search: a percent sign at the start of the line or after a character other than a backslash |
| Rewrapping.IsEmptyLine | lib/rewrapping.js:5-17 | definition of `empty_line_for_latex` as the disjunction of its five tests; `PauseLineMatches` and `MathDelimiterLineMatches` tie two of them to their patterns, and `Paragraph` returns nothing exactly on such a cursor row |
| Rewrapping.IsItemLine | lib/rewrapping.js:19-23 | definition of `line_begins_with_item`; `ItemLineMatches` ties it to its pattern in both directions |
| Rewrapping.StartIndent | lib/rewrapping.js:79-83 | the indent is a blank prefix of the first row, followed by a non-space; a blank row has no indent |
| Rewrapping.ItemLineIsItem | lib/rewrapping.js:19-23 | the computed item test implies the regular expression's reading: some blank run, a backslash, `item`, `exerc` or `subexe`, then whitespace or `[` |
| Rewrapping.ItemIsItemLine | lib/rewrapping.js:19-23 | the regular expression's reading implies the computed item test, whatever the length of the blank run |
| Rewrapping.ItemLineMatches | lib/rewrapping.js:19-23 | `line_begins_with_item` agrees with its pattern in both directions |
| Rewrapping.ParagraphStart | lib/rewrapping.js:59-61 | the upward search stops at a row that does not continue the paragraph, and every row between it and the cursor does |
| Rewrapping.Continues | lib/rewrapping.js:59-61 | definition of the upward loop's guard; `ParagraphStart` stops at the first row where it fails, and every row passed satisfies it |
| Rewrapping.RunEnd | lib/rewrapping.js:63-65 | the end of a run of marked positions stays within the sequence |
| Rewrapping.RunEndIs | lib/rewrapping.js:63-65 | the run ends at t when every position up to t is marked and the next one is not |
| Rewrapping.RunEndBounds | lib/rewrapping.js:63-65 | every position in the run is marked, and the run ends at the last position or before an unmarked one |
| Rewrapping.ParagraphEnd | lib/rewrapping.js:63-65 | the downward search ends at or below the cursor, inside the buffer |
| Rewrapping.ParagraphEndIs | lib/rewrapping.js:63-65 | the search ends at t when every row up to t extends the paragraph and the row after it does not |
| Rewrapping.ParagraphEndStops | lib/rewrapping.js:63-65 | the search stops at the last row or before a row that does not extend the paragraph |
| Rewrapping.ParagraphEndExtends | lib/rewrapping.js:63-65 | every row the search passes extends the paragraph, stopping before the next item in an item paragraph |
| Rewrapping.Extends | lib/rewrapping.js:63-65 | definition of the downward loop's guard; `ParagraphEndExtends` and `ParagraphEndStops` say that every row passed satisfies it and the next row does not |
| Rewrapping.Paragraph | lib/rewrapping.js:38-66 | with a selection, its two rows in order; without one, nothing exactly when the cursor row is empty, and otherwise a range around the cursor |
| Rewrapping.NonSpaceConcatStep | lib/rewrapping.js:99 | the text of a concatenation is the first part's text followed by the rest's |
| Rewrapping.NonSpaceJoinStep | lib/rewrapping.js:99 | a separating space adds no text |
| Rewrapping.JoinTrimmedKeepsText | lib/rewrapping.js:96-99 | joining the trimmed rows with spaces keeps every non-space character of the rows, in order |
| Rewrapping.ParagraphText | lib/rewrapping.js:96-99 | definition of the trimmed rows joined by spaces; `JoinTrimmedKeepsText` shows it keeps every non-space character, and `ParagraphTextNoNewline` that it holds no line feed |
| Rewrapping.BackBreak | lib/rewrapping.js:115-117 | the backward search stops at the last whitespace at or before the column, or at 0 with none between |
| Rewrapping.ForwardBreak | lib/rewrapping.js:120-123 | the forward search stops at the first whitespace from the column on, or at the text's end |
| Rewrapping.BreakStart | lib/rewrapping.js:130-131 | moving back over the run of whitespace ends at column 1 or just after a non-space |
| Rewrapping.Substr | lib/rewrapping.js:134-135 | definition of JavaScript's `substr`, a negative start counting from the end; `BreakPointInText` and `NegativeColumnStep` state what it gives |
| Rewrapping.BreakPoint | lib/rewrapping.js:114-131 | definition of the break point one pass finds, or none; `FindBreak` is proved to compute it and `HeadChunk` bounds the chunk before it |
| Rewrapping.WrapChunks | lib/rewrapping.js:109-139 | definition of the chunks the wrap loop cuts; `WrapLines` is proved to build them, `WrapKeepsText`, `WrapChunkCount` and `WrapChunkWidth` give their meaning |
| Rewrapping.BreakPointInText | lib/rewrapping.js:134-135 | the break point lies in the text, so the two `substr` calls are plain slices |
| Rewrapping.WrapKeepsText | lib/rewrapping.js:109-139 | for a column that is not negative, the wrapped chunks keep every non-space character of the text, in order |
| Rewrapping.WrapChunkCount | lib/rewrapping.js:111 | the loop makes at most 150 chunks plus the residue |
| Rewrapping.WrapChunksStep | lib/rewrapping.js:134-135 | a pass cuts off the text before the break point and continues on the trimmed rest |
| Rewrapping.WellWrappedCons | lib/rewrapping.js:134 | a good chunk in front of well-wrapped chunks keeps them well wrapped |
| Rewrapping.HeadChunk | lib/rewrapping.js:115-134 | the chunk a pass cuts off is not empty, and is no wider than the column unless it is one word |
| Rewrapping.LastChunk | lib/rewrapping.js:138-139 | the residue is not empty, and is within the column, a single word, or what is left when the cap is hit |
| Rewrapping.Residue | lib/rewrapping.js:138-139 | definition of the final push of whatever text is left; `LastChunk` and `WrapLoopEnd` give its meaning |
| Rewrapping.WrapChunkWidth | lib/rewrapping.js:109-139 | for a positive column, every chunk is non-empty and no wider than the column unless it is a single word or the capped residue |
| Rewrapping.WrapChunkWidthStep | lib/rewrapping.js:134-135 | one pass keeps the chunks well wrapped |
| Rewrapping.Indented | lib/rewrapping.js:134-139 | one output line per chunk |
| Rewrapping.IndentedAt | lib/rewrapping.js:134-139 | output line i is the indent followed by chunk i |
| Rewrapping.IndentedAppend | lib/rewrapping.js:134-139 | pushing one more chunk pushes one more indented line |
| Rewrapping.WrapColumn | lib/rewrapping.js:75-85 | the corrected column: `80 - indent` as written for indents up to 80 characters, and 0 beyond |
| Rewrapping.WrapColumnAsWritten | lib/rewrapping.js:75-85 | definition of the uncorrected `80 - startIndent.length`, negative past 80; `AsWrittenColumnLosesText` shows that wrapping at it loses text |
| Rewrapping.NegativeColumnKeepsLastCharacter | lib/rewrapping.js:115-135 | with column -1, a single non-space character survives every remaining pass |
| Rewrapping.NegativeColumnPass | lib/rewrapping.js:115-135 | with column -1, a one-character text is kept by one more pass |
| Rewrapping.NegativeColumnStep | lib/rewrapping.js:115-135 | with column -1, the first pass emits an empty chunk and leaves only the text's last character |
| Rewrapping.NegativeColumnKeepsLast | lib/rewrapping.js:115-139 | with column -1, the chunks spell only the text's last character |
| Rewrapping.LastCharacterLosesText | lib/rewrapping.js:135 | keeping only the last character of a text of two non-space ends loses text |
| Rewrapping.AsWrittenColumnLosesText | lib/rewrapping.js:75-139 | with an 81-character indent the column is -1, and wrapping keeps only the paragraph's last character |
| Rewrapping.WrappedLineWidth | lib/rewrapping.js:109-139 | every output line is the indent followed by a non-empty chunk, and is at most 80 wide unless that chunk is one word or the capped residue |
| Rewrapping.RewrapKeepsText | lib/rewrapping.js:75-139 | with the corrected column, the wrapped paragraph keeps every non-space character of its rows, in order, whatever the indent |
| Rewrapping.SearchBack | lib/rewrapping.js:115-117 | the backward loop returns `BackBreak` |
| Rewrapping.SearchForward | lib/rewrapping.js:121-123 | the forward loop returns `ForwardBreak` |
| Rewrapping.BackOverSpace | lib/rewrapping.js:130-131 | the loop over whitespace returns `BreakStart` |
| Rewrapping.WrapLoopStep | lib/rewrapping.js:134-135 | one pass keeps the loop invariant: the lines are the indented chunks so far, and those chunks plus the chunks of the rest are the whole result |
| Rewrapping.WrapLoopEnd | lib/rewrapping.js:111-139 | when the loop exits, the residue completes the chunks |
| Rewrapping.FindBreak | lib/rewrapping.js:114-131 | the three searches give the break point, or none when there is no whitespace anywhere after column 0 |
| Rewrapping.WrapLines | lib/rewrapping.js:109-139 | the lines the loop builds are the indented chunks of the text |
| Rewrapping.RowsWithout | lib/rewrapping.js:186-189 | deleting a row from a buffer with more than one row leaves one row fewer |
| Rewrapping.RemovedStep | lib/rewrapping.js:196-204 | deleting row f once more after i deletions takes out row f+i, and after the last deletion the whole range is gone |
| Rewrapping.RowsInsertingValid | lib/rewrapping.js:191-194 | inserting text keeps the buffer a non-empty list of rows without line feeds |
| Rewrapping.RemovedValid | lib/rewrapping.js:196-204 | removing a range of rows keeps the buffer valid |
| Rewrapping.RowsRemoved | lib/rewrapping.js:196-204 | definition of the buffer after deleting rows from..to; `RemovedStep` proves that deleting row `from` repeatedly reaches it, and `RemovedValid` that it stays a buffer |
| Rewrapping.RowsInserting | lib/rewrapping.js:191-194 | definition of the buffer after inserting a text at the start of a row; `RowsInsertingValid` keeps it a buffer and the `EditReplaces` lemmas give its effect |
| Rewrapping.SplitBefore | lib/rewrapping.js:142 | text followed by a newline, inserted before row x, splits into the text's lines and then x |
| Rewrapping.SplitAfter | lib/rewrapping.js:142 | a leading newline, inserted after the last row, starts the text on its own row |
| Rewrapping.EditReplacesInside | lib/rewrapping.js:96-142 | removing a paragraph that is not at the end and inserting the new text puts its lines in the paragraph's place |
| Rewrapping.EditReplacesLast | lib/rewrapping.js:91-142 | for a paragraph at the end of the buffer, the extra leading newline puts the new lines in its place, followed by an empty row |
| Rewrapping.EditReplacesAll | lib/rewrapping.js:91-142 | the same holds when the paragraph is the whole buffer |
| Rewrapping.EditReplaces | lib/rewrapping.js:91-142 | removing the paragraph and inserting `beginLine + text` re-splits into the buffer with the paragraph's rows replaced by the lines of the text |
| Rewrapping.Replace | lib/rewrapping.js:91-142 | definition of the buffer that the remove-then-insert leaves, in its three cases (interior paragraph, paragraph at the end, whole buffer); `EditReplaces` proves the editor operations produce it |
| Rewrapping.Editor.constructor | lib/rewrapping.js:1-3 | the editor starts with the given rows, cursor and selection |
| Rewrapping.Editor.RemoveLine | lib/rewrapping.js:186-189 | the rows become the old rows without row n |
| Rewrapping.Editor.InsertLine | lib/rewrapping.js:191-194 | the rows become the old rows with the text and a newline inserted at the start of row n |
| Rewrapping.Editor.RemoveManyLines | lib/rewrapping.js:196-204 | returns exactly the old rows from..to, and the rows become the old rows without them |
| Rewrapping.Rewrapped | lib/rewrapping.js:33-145 | no change when the cursor row is empty without a selection, or when a one-row paragraph is to be joined |
| Rewrapping.NewText | lib/rewrapping.js:96-142 | definition of the text put back: the indent and the joined rows, or the indented wrapped lines joined by newlines; `RejoinMakesOneRow` and `RewrapMakesWrappedRows` give the rows it becomes |
| Rewrapping.ParagraphTextNoNewline | lib/rewrapping.js:96-99 | the joined text and the indent hold no line feed |
| Rewrapping.RejoinMakesOneRow | lib/rewrapping.js:99-106 | joining a paragraph of several rows replaces it by one row: the indent, then the trimmed rows joined by spaces |
| Rewrapping.RewrapMakesWrappedRows | lib/rewrapping.js:109-142 | rewrapping replaces the paragraph by the indented wrapped lines, or by one empty row when there are none |
| Rewrapping.ChunksNoNewline | lib/rewrapping.js:134-139 | chunks of a text without line feeds hold none |
| Rewrapping.SubstrNoNewline | lib/rewrapping.js:134-135 | `substr` of a string without line feeds holds none |
| Rewrapping.IndentedNoNewlines | lib/rewrapping.js:134-139 | the indented lines hold no line feed, so joining and re-splitting them gives them back |
| Rewrapping.FindParagraph | lib/rewrapping.js:38-66 | the selection handling and the two searches return `Paragraph` |
| Rewrapping.ScanUp | lib/rewrapping.js:59-61 | the upward loop returns `ParagraphStart` |
| Rewrapping.ScanDown | lib/rewrapping.js:62-65 | the downward loop returns `ParagraphEnd` |
| Rewrapping.TrimLines | lib/rewrapping.js:97-98 | the trimming loop returns `TrimAll` |
| Rewrapping.DoMyRewrap | lib/rewrapping.js:33-145 | the editor's rows end as `Rewrapped` of the old rows, and the editor stays valid |
| Rewrapping.ReplaceParagraph | lib/rewrapping.js:87-144 | the remove and insert steps replace the paragraph's rows by the lines of the new text |
| Rewrapping.MyRewrap | lib/rewrapping.js:25-27 | rewrap mode of the same edit |
| Rewrapping.MyRejoin | lib/rewrapping.js:29-31 | join mode of the same edit |
| BeamerSlide.ScanFrom | lib/preview-beamer-slide.js:91-98 | the first row in scan order that mentions a frame and is not just above the start row, with none before it; or none at all |
| BeamerSlide.MentionsFrame | lib/preview-beamer-slide.js:92 | definition of the unanchored search for `\begin{frame}` or `\frame{` anywhere in the row |
| BeamerSlide.Stop | lib/preview-beamer-slide.js:92-93 | definition of the loop's break condition; `ScanFrom` finds the first such row |
| BeamerSlide.Clip | lib/preview-beamer-slide.js:99-101 | the position the editor actually takes: the column clipped to the row, a row past the end clipped to the buffer's end |
| BeamerSlide.Target | lib/preview-beamer-slide.js:83-102 | definition of the cursor after `navFrame`; `NavFrame` is proved to reach it, and `NextFrameLands`, `PreviousFrameLands` and the other navigation lemmas give its meaning |
| BeamerSlide.ScreenEditor.constructor | lib/preview-beamer-slide.js:83-88 | the editor starts at the given cursor |
| BeamerSlide.ScreenEditor.NavFrame | lib/preview-beamer-slide.js:83-102 | the cursor ends after the first stop of the scan, or stays where it was when there is none |
| BeamerSlide.NextFrameLands | lib/preview-beamer-slide.js:83-102 | "next frame" moves to the row after the first frame row at or below the cursor |
| BeamerSlide.NextFrameStays | lib/preview-beamer-slide.js:83-102 | with no frame row at or below the cursor, "next frame" does not move it |
| BeamerSlide.PreviousFrameLands | lib/preview-beamer-slide.js:83-102 | from inside a frame body, "previous frame" skips the frame row just above and lands after the one before it |
| BeamerSlide.PreviousFrameStays | lib/preview-beamer-slide.js:83-102 | with no frame row to stop at above the cursor, "previous frame" does not move it |
| BeamerSlide.OnFrameRowMovesDown | lib/preview-beamer-slide.js:83-102 | on a frame row, both commands move to the row below it |
| BeamerSlide.NextFrameAdvances | lib/preview-beamer-slide.js:83-102 | pressing "next frame" twice from one frame row reaches the row after the next frame row |
| BeamerSlide.PrefixIgnoresNewline | lib/previewframe.py:64-86 | a marker without line feeds starts a row with its terminator exactly when it starts the bare row |
| BeamerSlide.MarkersIgnoreNewline | lib/previewframe.py:64-86 | the script's frame markers are recognised on a row with or without its line feed |
| BeamerSlide.PreviewSeesCursorRow | lib/preview-beamer-slide.js:56 | the script's index for the 1-based line is the cursor's row; the line it reads there is that row, and the frame markers are recognised on it as on the row |
| BeamerSlide.PreviewPastLastLine | lib/previewframe.py:127 | with the cursor on an empty last row, the index falls one past the file's last line |
| BeamerSlide.PreviewLineArgument | lib/preview-beamer-slide.js:56 | definition of the 1-based line argument `row + 1`; `PreviewSeesCursorRow` and `PreviewPastLastLine` give what the script then indexes |
| PreviewFrame.LineIndex | lib/previewframe.py:127 | definition of `args.linenum -= 1`; `PreviewSeesCursorRow` and `PreviewPastLastLine` show that it undoes `PreviewLineArgument` and indexes the cursor's row |
| Strings.ReadLines | lib/previewframe.py:16-19 | the lines concatenate back to the file's text, and no line is empty |
| Strings.ReadLinesCut | lib/previewframe.py:16-19 | each line holds no line feed before its last character, and every line but the last ends with a line feed; with the concatenation this fixes the lines |
| Strings.ReadLinesOfJoin | lib/previewframe.py:16-19 | reading back a saved buffer gives each row with its line feed; an empty last row gives no line |
| Strings.SplitJoin | lib/rewrapping.js:142 | splitting lines joined by newlines gives the lines back when they hold no line feed |

## Left out

- Reading files, writing `beamerprevframe.tex`, argparse, and running the previewer are I/O. Files are given as their lines, and the target's name and directory as strings.
- The `glob` directory listing becomes an input sequence of candidate files, in whatever order the listing has.
- The Atom glue is outside the model: commands, configuration, notifications, saving the buffer, running the script, and the screen/buffer row distinction. A screen row is modelled as a buffer row, which means soft wrap and folds are left out.
- `edit_begin` and `edit_end` are comment-only bodies. An abort leaves the rows unchanged, and that is how it is modelled.
- The cursor position after a rewrap is not modelled, only the rows.
- JavaScript string lengths count UTF-16 code units. Here a `char` is one unit.
- `\s`, `trim` and Python's `isspace` are written out as explicit character sets. General regular-expression semantics are not modelled; each pattern is a predicate.
- PreviewFrame.ExtractFrame: a line index past the file's end raises IndexError in the script. Here it is a precondition instead (`linenum < |lines|`). A negative index is modelled: the backward scan is then empty and the script raises its no-frame error.
- PreviewFrame.Prevfile: carries the same `linenum < |lines|` precondition, so the case where the script reports "No preamble found" before it reaches the IndexError is not covered.
- PreviewFrame.CreatePrevfile: the same precondition as `Prevfile`, for the same reason.
- PreviewFrame.EndLineMonotone: stated for `nafter >= 0` only. A negative `nafter` is accepted by the script and modelled, and there the property is false, as `NegativeAfterNotMonotone` shows.
- Rewrapping.Rewrapped: wraps at the clamped column `WrapColumn`, not line 85's `80 - startIndent.length`, so for a first row indented by more than 80 characters it differs from the source (see Findings). For indents of at most 80 the two columns are equal.
- Rewrapping.NewText: builds the wrapped text at the clamped column, for the same reason.
- Rewrapping.ReplaceParagraph: computes the column with `WrapColumn`, so for indents over 80 it differs from the source, for the same reason.
- Rewrapping.DoMyRewrap: leaves the rows as `Rewrapped`, which uses the clamped column, so for indents over 80 it differs from the source.
- Rewrapping.MyRewrap: inherits the clamped column from `DoMyRewrap`.
- Rewrapping.RewrapMakesWrappedRows: states the result at the clamped column, so for indents over 80 it is not what the source produces.
- Where the source and its description differ, the model follows the code:
  - The script recognises frame markers only at column 0, while `navFrame` finds them anywhere in a row (`BeamerSlide.MentionsFrame`).
  - With the cursor on a `\end{frame}` line, the forward scan does not stop there. The excerpt runs on to the next stop (`FrameStop` starts after the cursor line).
  - The script opens, and so truncates, the output file before it raises either error. That write is I/O and is left out.
  - On a frame row, "previous frame" also moves down, to the row below (`BeamerSlide.OnFrameRowMovesDown`).

## Findings

| source | as written | input that shows it | evidently intended | confidence | as-written member | corrected member |
|---|---|---|---|---|---|---|
| lib/rewrapping.js:75-85 | `wrapColumn = 80 - startIndent.length` goes negative when the indent is longer than 80 characters. The wrap loop's `substr(0, wrapAt)` and `substr(wrapAt)` then see a negative position, and `substr` counts a negative start from the end. | a paragraph `ab` whose first row is indented by 81 spaces: the column is -1, the first pass emits an empty line and keeps only `b`, and the `a` is lost | the column clamped at 0, so rewrapping never drops text | not executed | Rewrapping.AsWrittenColumnLosesText | Rewrapping.RewrapKeepsText |
