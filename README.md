# Nara-AI presentation narrator: text core

Nara-AI turns a PowerPoint deck into a spoken presentation. The Python back end
works in three steps:

- It extracts the text of every slide into a record: number, title, content, notes and all text.
- It summarises the records in batches through a chat model.
- It asks the model for a narration script built from the bulleted summaries.

The React front end stores the script and splits it into `{slideNumber, content}`
records at its `Slide(s) N:` / `Slide(s) N-M:` headers. It lets the user edit
one record at a time and rebuilds the script from the records on save. Before
storing the generator's output, it normalises the text with a chain of regular
expression replacements.

This project models that text core in Dafny and proves what it does.

| file | module | models |
|---|---|---|
| `Text.dfy` | `Text` | character classes (ECMAScript `\s`, Python `str.isspace`), strip/trim, split, join, decimal numerals (`parseInt` / `toString` / `str`) |
| `Segmenter.dfy` | `ScriptSegmenter` | `parseSlides`: the lookahead split, the header match, range expansion (as a method with its loops, proved against a function); the reconstruction in `handleSaveEdit`; the round trip |
| `ScriptFormat.dfy` | `ScriptFormat` | `cleanScriptWithRegex` and `formatScriptWithRegex`, character by character |
| `ScriptPanel.dfy` | `ScriptPanel` | the panel's state as a class: the effect on `script` and the save / edit / cancel / toggle / select / type handlers |
| `SlideExtraction.dfy` | `SlideExtraction` | `extract_text_from_ppt` over abstract slides (loops over slides and shapes) |
| `Summarizer.dfy` | `Summarizer` | `batch_summarize` with the chat model as a function parameter, and the bullet list of `generate_script` |

Several regular expressions and `split` literals in the front end are written
with doubled backslashes. The model follows what they do, not what their
comments say:

- `/\\n\\s*\\n/` matches a backslash, the letter `n`, a backslash followed by zero or more letters `s`, then a backslash and the letter `n`.
- `[ \\t]` is the set {space, backslash, letter `t`}.
- `/^\\s*$/` matches a line that is one backslash followed by letters `s`.
- `/\\n+/` is a backslash followed by one or more letters `n`.
- `split("\\n")` and the prefix `"\\n"` are the two characters backslash and `n`.

Real line breaks are untouched by steps 1 and 4 of the clean-up. The `m`-flag
anchors of steps 2 and 3 see JavaScript line terminators.

## Model

| member | source | states |
|---|---|---|
| Text.Join | backend/agents.py:269 | `sep.join(parts)` (also `join` in JavaScript): no separator for zero or one part; its inverse is stated by Text.JoinSplitOn |
| Text.Strip | src/components/ScriptDisplayPanel.tsx:37 | trimming leaves no strippable character at either end and never lengthens the text (JavaScript `trim`, Python `strip`) |
| Text.SplitOn | backend/agents.py:255 | splitting on a separator yields at least one piece, and no piece contains the separator |
| Text.JoinSplitOn | backend/agents.py:255 | joining the pieces of a split with the same separator gives back the original text |
| Text.NatToString | src/components/ScriptDisplayPanel.tsx:41 | `i.toString()` is a canonical decimal numeral (no leading zero) whose value is `i` |
| Text.NumeralRoundTrip | src/components/ScriptDisplayPanel.tsx:35-41 | `parseInt` then `toString` returns a canonical numeral unchanged |
| ScriptSegmenter.NextMarker | src/components/ScriptDisplayPanel.tsx:28 | the next lookahead position is a marker `Slide(s)\s*\d` and no earlier position from `i` is one |
| ScriptSegmenter.Split | src/components/ScriptDisplayPanel.tsx:28 | `split` with a lookahead always returns at least one part; where it cuts is stated by ScriptSegmenter.SplitCutsAtMarkers and ScriptSegmenter.SplitClean |
| ScriptSegmenter.SplitCutsAtMarkers | src/components/ScriptDisplayPanel.tsx:28 | every part after the first starts with a marker `Slide(s)\s*\d`: the split cuts only at the lookahead |
| ScriptSegmenter.FirstPartMarker | src/components/ScriptDisplayPanel.tsx:28 | a script that starts with a marker keeps it in its first part |
| ScriptSegmenter.SplitCovers | src/components/ScriptDisplayPanel.tsx:28 | the parts of the split concatenate back to the script: the split loses no text |
| ScriptSegmenter.SplitClean | src/components/ScriptDisplayPanel.tsx:28 | no part has a marker anywhere but at its start |
| ScriptSegmenter.MatchHeaderMarker | src/components/ScriptDisplayPanel.tsx:31-34 | a part the header pattern accepts starts with a marker |
| ScriptSegmenter.MatchHeader | src/components/ScriptDisplayPanel.tsx:31-33 | the header pattern `^Slide\(s\)\s*(\d+)(?:-(\d+))?:\s*([\s\S]*)$` on one part; its meaning is stated both ways by ScriptSegmenter.MatchSingle, ScriptSegmenter.MatchRange and ScriptSegmenter.MatchHeaderShape |
| ScriptSegmenter.MatchNumbersShape | src/components/ScriptDisplayPanel.tsx:31-36 | a match of the part after `Slide(s)` and its whitespace is digits `n`, optionally `-` and digits `m`, then `:` and a body, with exactly those numbers and the body after leading whitespace |
| ScriptSegmenter.MatchHeaderShape | src/components/ScriptDisplayPanel.tsx:31-36 | every accepted part has the shape `Slide(s)`, whitespace, `n:` or `n-m:`, body, and the match is that shape's numbers and trimmed-start body: with MatchSingle and MatchRange, acceptance is an if-and-only-if |
| ScriptSegmenter.MatchSingle | src/components/ScriptDisplayPanel.tsx:31-36 | `Slide(s)`, whitespace, digits `n`, `:` and a body match with start = end = the value of `n` and the body after leading whitespace |
| ScriptSegmenter.MatchRange | src/components/ScriptDisplayPanel.tsx:31-36 | `Slide(s)`, whitespace, `n-m:` and a body match with start `n`, end `m` and the body after leading whitespace |
| ScriptSegmenter.ExpandSpec | src/components/ScriptDisplayPanel.tsx:39-44 | the counting loop from `i` to `end` yields `end-i+1` records (none when `end < i`), numbered `i, i+1, ...` in ascending order, all with the same content |
| ScriptSegmenter.RangeExpansion | src/components/ScriptDisplayPanel.tsx:35-44 | a part `Slide(s) N-M: body` yields M-N+1 records numbered N..M with the trimmed body, and none when M < N |
| ScriptSegmenter.SingleExpansion | src/components/ScriptDisplayPanel.tsx:35-44 | a part `Slide(s) N: body` yields exactly one record: the canonical decimal of N (leading zeros lost) and the trimmed body |
| ScriptSegmenter.PieceSlidesOf | src/components/ScriptDisplayPanel.tsx:31-44 | a matched part yields the expansion of its numbers with the trimmed body |
| ScriptSegmenter.PushRange | src/components/ScriptDisplayPanel.tsx:39-44 | the inner `for` loop appends exactly the expansion of `start..end` to the records |
| ScriptSegmenter.ParsePiece | src/components/ScriptDisplayPanel.tsx:31-45 | one turn of the outer loop appends the records of that part, and none when the part does not match |
| ScriptSegmenter.ParseSlides | src/components/ScriptDisplayPanel.tsx:24-49 | `parseSlides` returns exactly the records of the split parts, in document order |
| ScriptSegmenter.ParseParts | src/components/ScriptDisplayPanel.tsx:30-46 | the loop over parts appends the records of each part in turn, so it returns the records of the parts in document order |
| ScriptSegmenter.Parse | src/components/ScriptDisplayPanel.tsx:24-49 | `parseSlides`: the records of the split parts in order; what it yields is stated by ScriptSegmenter.ParseSlides, ScriptSegmenter.ParseSafe and ScriptSegmenter.RoundTrip |
| ScriptSegmenter.ParsePiecesAppend | src/components/ScriptDisplayPanel.tsx:30-46 | the records of two runs of parts are the records of each run, in order |
| ScriptSegmenter.ParseCut | src/components/ScriptDisplayPanel.tsx:28-46 | when the first marker after position 0 is at `k`, the records are those of `s[..k]` followed by those of `s[k..]` |
| ScriptSegmenter.ParseWhole | src/components/ScriptDisplayPanel.tsx:28-46 | a script with no marker after position 0 is one part |
| ScriptSegmenter.ParseEmpty | src/components/ScriptDisplayPanel.tsx:28-46 | the empty script yields no records |
| ScriptSegmenter.PreambleSlides | src/components/ScriptDisplayPanel.tsx:31-34 | a part that does not start with a marker yields no records |
| ScriptSegmenter.DropsPreamble | src/components/ScriptDisplayPanel.tsx:28-34 | text before the first marker is dropped without error |
| ScriptSegmenter.Reconstruct | src/components/ScriptDisplayPanel.tsx:127-129 | the save's rebuild: one `Slide(s) <number>:` block per record joined by blank lines; stated by ScriptSegmenter.BlocksIndex, ScriptSegmenter.ReconstructCons and its inverse ScriptSegmenter.RoundTrip |
| ScriptSegmenter.BlocksIndex | src/components/ScriptDisplayPanel.tsx:127-128 | block `i` of the reconstruction is `Slide(s) <number>:` then a newline then the content of record `i` |
| ScriptSegmenter.ReconstructCons | src/components/ScriptDisplayPanel.tsx:127-129 | the reconstruction is the first block, then `\n\n`, then the reconstruction of the rest, with one header per record |
| ScriptSegmenter.ParseBlock | src/components/ScriptDisplayPanel.tsx:28-129 | one reconstructed block parses back to its record |
| ScriptSegmenter.ParseCons | src/components/ScriptDisplayPanel.tsx:28-129 | a block, a separator and a script that starts with a marker parse as the block's record followed by the records of that script |
| ScriptSegmenter.RoundTrip | src/components/ScriptDisplayPanel.tsx:28-131 | records with canonical numbers, trimmed contents and no marker in any content parse back from their reconstruction unchanged |
| ScriptSegmenter.ExpandSafe | src/components/ScriptDisplayPanel.tsx:37-44 | an expansion of a trimmed, marker-free content meets the round-trip conditions |
| ScriptSegmenter.PieceSafe | src/components/ScriptDisplayPanel.tsx:31-44 | the records of a part with no inner marker meet the round-trip conditions |
| ScriptSegmenter.ParseSafe | src/components/ScriptDisplayPanel.tsx:24-49 | every record parsed from any script has a canonical number, a trimmed content and no marker in its content |
| ScriptSegmenter.ParseStable | src/components/ScriptDisplayPanel.tsx:24-131 | saving unchanged records and parsing the result gives the same records |
| ScriptFormat.CollapseBlankRuns | src/components/ScriptDisplayPanel.tsx:63 | the first replacement never lengthens the text |
| ScriptFormat.CollapseNoMatch | src/components/ScriptDisplayPanel.tsx:63 | text in which the pattern matches nowhere is unchanged |
| ScriptFormat.CollapseShrinks | src/components/ScriptDisplayPanel.tsx:63 | text in which the pattern matches somewhere gets strictly shorter |
| ScriptFormat.CollapseFixed | src/components/ScriptDisplayPanel.tsx:63 | step 1 leaves the text unchanged if and only if the pattern matches nowhere |
| ScriptFormat.Lines | src/components/ScriptDisplayPanel.tsx:65-67 | the lines seen by `^`/`$` under the `m` flag are at least one, with no terminator inside any of them |
| ScriptFormat.EachLineLines | src/components/ScriptDisplayPanel.tsx:65-67 | a line-by-line rewrite that keeps lines free of terminators keeps the number of lines, and line `i` of the result is the rewrite of line `i` |
| ScriptFormat.TrimLinesSpec | src/components/ScriptDisplayPanel.tsx:65 | step 2 keeps the number of lines and strips space, backslash and `t` from both ends of every line |
| ScriptFormat.ClearLinesSpec | src/components/ScriptDisplayPanel.tsx:67 | step 3 keeps the number of lines, empties exactly the lines that are one backslash and letters `s`, and leaves none of those |
| ScriptFormat.SquashEscapes | src/components/ScriptDisplayPanel.tsx:69 | step 4 never lengthens the text and keeps its first character |
| ScriptFormat.SquashEscapesSquashed | src/components/ScriptDisplayPanel.tsx:69 | after step 4 no backslash is followed by two letters `n` |
| ScriptFormat.SquashEscapesKeeps | src/components/ScriptDisplayPanel.tsx:69 | text with no backslash followed by two letters `n` comes through step 4 unchanged |
| ScriptFormat.SquashEscapesFixed | src/components/ScriptDisplayPanel.tsx:69 | step 4 is idempotent, and leaves a text unchanged exactly when no backslash in it is followed by two letters `n` |
| ScriptFormat.StripSquashed | src/components/ScriptDisplayPanel.tsx:69-70 | the final trim keeps the step 4 guarantee |
| ScriptFormat.Clean | src/components/ScriptDisplayPanel.tsx:59-72 | the cleaned text has no leading or trailing whitespace, and no backslash in it is followed by two letters `n` |
| ScriptFormat.CleanPlain | src/components/ScriptDisplayPanel.tsx:59-72 | on one line without backslashes, steps 1, 3 and 4 change nothing and cleaning is the two trims |
| ScriptFormat.NormaliseNotIdempotent | src/components/ScriptDisplayPanel.tsx:59-114 | cleaning and formatting are not idempotent: for every plain trimmed `u`, `"\tt" + u` cleans to `"t" + u`, which cleans again to `u`; the same holds for formatting |
| ScriptFormat.MarkPiecesLength | src/components/ScriptDisplayPanel.tsx:104-113 | the reflowed text is longer by exactly one backslash-`n` pair per later piece that starts with `Slide(s)` |
| ScriptFormat.MarkPiecesKeep | src/components/ScriptDisplayPanel.tsx:104-112 | with no later piece starting with `Slide(s)`, the mapping changes nothing |
| ScriptFormat.MarkPiecesAt | src/components/ScriptDisplayPanel.tsx:104-112 | piece `k` of the mapping gets backslash-`n` in front exactly when it starts with `Slide(s)` and is not the first piece; every other piece is unchanged |
| ScriptFormat.ReflowSpec | src/components/ScriptDisplayPanel.tsx:100-114 | formatting adds one backslash-`n` pair per piece after the first that starts with `Slide(s)`, and returns the cleaned text unchanged exactly when there is no such piece |
| ScriptFormat.ReflowNoEscape | src/components/ScriptDisplayPanel.tsx:100-114 | cleaned text with no backslash-`n` pair is returned unchanged |
| ScriptFormat.Reflow | src/components/ScriptDisplayPanel.tsx:100-114 | the split on backslash-`n`, the `Slide(s)` prefix mapping and the join; stated by ScriptFormat.ReflowSpec and ScriptFormat.ReflowNoEscape |
| ScriptFormat.Format | src/components/ScriptDisplayPanel.tsx:100-114 | `formatScriptWithRegex`: the clean-up then the reflow; stated by ScriptFormat.Clean, ScriptFormat.ReflowSpec and ScriptFormat.NormaliseNotIdempotent |
| ScriptPanel.EffectTotal | src/components/ScriptDisplayPanel.tsx:51-55 | the total the effect stores is at most 1, and it is 0 exactly for the empty script |
| ScriptPanel.WithContent | src/components/ScriptDisplayPanel.tsx:118-122 | the updated list has the same length; record `i` keeps its number and takes the new content; every other record is unchanged |
| ScriptPanel.BlocksUpdate | src/components/ScriptDisplayPanel.tsx:118-129 | replacing one record changes exactly one block of the reconstruction |
| ScriptPanel.EditRoundTrip | src/components/ScriptDisplayPanel.tsx:22-131 | after a save of trimmed, marker-free content, re-parsing the saved script gives exactly the edited records, when the other records are safe too (canonical numbers, trimmed and marker-free contents), as every parse yields them (ScriptSegmenter.ParseSafe) |
| ScriptPanel.ArityMismatch | src/components/ScriptDisplayPanel.tsx:50-51 | for a reconstructed two-record script the effect parses two records but stores a total of 1 |
| ScriptPanel.ScriptDisplayPanel.constructor | src/context/AppContext.tsx:37-43 | the initial state (the context's `useState` defaults here, and `isEditing`/`editingContent` of src/components/ScriptDisplayPanel.tsx:7-8) is an empty script, no records, slide 0 selected, a total of 0, not editing and an empty edit box |
| ScriptPanel.ScriptDisplayPanel.SyncScript | src/components/ScriptDisplayPanel.tsx:22-57 | a non-empty script is parsed into the records and the total becomes the arity; the empty script clears the records and resets the selection and the total to 0; the rest is unchanged |
| ScriptPanel.ScriptDisplayPanel.SyncScriptCounted | src/components/ScriptDisplayPanel.tsx:22-124 | the effect with the total counted: the records are the parse of the script and the total matches them; the empty script resets the selection |
| ScriptPanel.ScriptDisplayPanel.SaveEdit | src/components/ScriptDisplayPanel.tsx:116-135 | with a valid selection, only the selected record's content changes; the total matches the records; the script is their reconstruction; editing ends and the edit box is emptied. With an invalid selection nothing changes |
| ScriptPanel.ScriptDisplayPanel.SaveAndSync | src/components/ScriptDisplayPanel.tsx:22-135 | a save followed by the effect it triggers: the script is the reconstruction of the edited records; when it changed, the records are re-parsed from it and the total is the arity 1; when it did not, the effect does not run and the edited records stay as saved, untrimmed content included; when the edit is trimmed and marker-free and the other records are safe too, the records afterwards are exactly the edited ones |
| ScriptPanel.ScriptDisplayPanel.EditClick | src/components/ScriptDisplayPanel.tsx:141-146 | with a valid selection the edit box gets the selected content and editing starts, and nothing else changes; otherwise nothing changes |
| ScriptPanel.ScriptDisplayPanel.CancelEdit | src/components/ScriptDisplayPanel.tsx:136-139 | editing ends and the edit box is emptied; records, script, selection and total are unchanged |
| ScriptPanel.ScriptDisplayPanel.ToggleEdit | src/components/ScriptDisplayPanel.tsx:157 | the Edit/Cancel button flips the editing flag and nothing else |
| ScriptPanel.ScriptDisplayPanel.SelectSlide | src/components/ScriptDisplayPanel.tsx:212-216 | a click on a slide-list entry selects it unless editing, since the buttons are disabled while editing; nothing else changes |
| ScriptPanel.ScriptDisplayPanel.SetEditingContent | src/components/ScriptDisplayPanel.tsx:299 | typing replaces the edit box's text and nothing else |
| SlideExtraction.KeptTexts | backend/agents.py:187-190 | every kept text is non-empty |
| SlideExtraction.KeptStripped | backend/agents.py:188-190 | every kept text is stored stripped of whitespace |
| SlideExtraction.KeptStep | backend/agents.py:187-190 | a shape without text, or whose stripped text is empty, adds nothing; any other shape adds its stripped text at the end |
| SlideExtraction.FirstShort | backend/agents.py:193 | the index of the first kept text shorter than 100 characters, or the count of texts if there is none |
| SlideExtraction.FirstShortAppend | backend/agents.py:193 | the first short text of a longer list is found in its first part when it is there, and otherwise in the second |
| SlideExtraction.TitleStays | backend/agents.py:193-196 | once a title is set, a further text goes to the content, followed by a newline |
| SlideExtraction.TitleFound | backend/agents.py:193-194 | while there is no title, a text under 100 characters becomes the title and the content is unchanged |
| SlideExtraction.TitleStillMissing | backend/agents.py:193-196 | while there is no title, a text of 100 or more characters goes to the content |
| SlideExtraction.TitleStep | backend/agents.py:192-196 | one turn of the shape loop: title and content evolve exactly as the `if`/`else` says |
| SlideExtraction.TitleRule | backend/agents.py:192-196 | the title is empty exactly when every kept text has at least 100 characters; otherwise it is the first kept text under 100 characters |
| SlideExtraction.ContentPartition | backend/agents.py:192-196 | every kept text is either the title or part of the content, in order, so no text is lost or duplicated |
| SlideExtraction.TerminatedAppend | backend/agents.py:196 | the content of two runs of texts is the content of each run, in order |
| SlideExtraction.KeepShape | backend/agents.py:188-196 | one shape updates the kept texts, the title and the content as the specification functions say |
| SlideExtraction.ExtractShapes | backend/agents.py:184-196 | the shape loop yields the kept texts, the title rule's title and the remaining texts as content |
| SlideExtraction.SlideRecord | backend/agents.py:177-205 | the record of one slide, the specification of SlideExtraction.ExtractSlide: title and content by the title rule, stripped notes, and all kept texts plus the notes entry joined by newlines |
| SlideExtraction.ExtractSlide | backend/agents.py:177-205 | a slide becomes its record: number, title, content, stripped notes (or empty) and all text |
| SlideExtraction.RecordsLength | backend/agents.py:176-206 | one record per slide |
| SlideExtraction.RecordAt | backend/agents.py:176-206 | record `i` is the record of slide `i` with number `i+1` |
| SlideExtraction.RecordsStep | backend/agents.py:176-206 | one turn of the slide loop appends the next slide's record |
| SlideExtraction.ExtractText | backend/agents.py:160-207 | the result holds one record per slide, in order, numbered from 1, and the slide count |
| SlideExtraction.AllTextLines | backend/agents.py:199-205 | `all_text` splits on newlines back into the kept texts followed by the notes entry, when no text contains a newline |
| Summarizer.BatchCount | backend/agents.py:226 | the number of batches is ⌈(total - i) / batch size⌉: none past the end |
| Summarizer.BatchAt | backend/agents.py:226-227 | batch `k` is the slice `[i + k*b, i + k*b + b)`, clamped to the list |
| Summarizer.BatchesEndAt | backend/agents.py:226 | the batches reach `i + n*b` for `n` batches |
| Summarizer.BatchesFromCover | backend/agents.py:226-227 | the batches concatenate to the consecutive slice they cover |
| Summarizer.BatchesCover | backend/agents.py:209-227 | the batches cover the first `total` records exactly once and in order, and all of them when `total` is the record count |
| Summarizer.BatchSizes | backend/agents.py:226-227 | every batch but the last is full, and the last is non-empty and no larger than the batch size |
| Summarizer.ExtractedBatches | backend/agents.py:136 | for the extractor's output and the default size 5, the batches cover all records and all but the last hold 5 |
| Summarizer.Listing | backend/agents.py:230 | the batch listing: `Slide <number>: <content>` entries joined by blank lines; stated by Summarizer.ListingAppend |
| Summarizer.ListingAppend | backend/agents.py:230 | the listing of two batches joins their listings with a blank line |
| Summarizer.CleanLineClean | backend/agents.py:257 | a cleaned line has no whitespace at either end and gains no newline |
| Summarizer.NonEmptyAppend | backend/agents.py:256-259 | the filter works line by line: the kept lines of two runs are kept in order |
| Summarizer.NonEmptyKeeps | backend/agents.py:258-259 | kept lines are non-empty lines of the input, never more of them |
| Summarizer.NonEmptyAll | backend/agents.py:258-259 | when no line is empty, all are kept |
| Summarizer.NonEmptyStep | backend/agents.py:256-259 | one turn of the line loop appends the line exactly when it is non-empty |
| Summarizer.ReplyLines | backend/agents.py:253-259 | the summaries taken from one reply: the stripped reply split on newlines, each line cleaned, empty lines dropped; stated by Summarizer.ReplyLinesClean and Summarizer.BulletsRoundTrip |
| Summarizer.ReplyLinesClean | backend/agents.py:253-259 | every summary taken from a reply is non-empty, stripped of whitespace and without a newline |
| Summarizer.ReplyLinesEmpty | backend/agents.py:253-259 | an empty reply contributes no summaries |
| Summarizer.RepliesAppend | backend/agents.py:226-259 | summaries of two runs of batches are in batch order |
| Summarizer.RepliesStep | backend/agents.py:226-259 | one turn of the batch loop adds the cleaned reply to the listing of the slice `[i, i+b)` |
| Summarizer.AppendReplyLines | backend/agents.py:253-259 | the reply's cleaned, non-empty lines are appended in reply order |
| Summarizer.SummarizeBatch | backend/agents.py:226-259 | one batch appends its summaries and advances `i` by the batch size |
| Summarizer.BatchSummarize | backend/agents.py:209-261 | a batch size of 0 fails (the `ValueError` of `range`); a negative size gives no summaries; a positive size gives the replies' cleaned lines over the batches in order |
| Summarizer.Bullets | backend/agents.py:269 | the bullet list of `generate_script`: `- <summary>` lines joined by newlines; its inverse is stated by Summarizer.BulletsRoundTrip |
| Summarizer.BulletLines | backend/agents.py:269 | the bullet list splits on newlines back into its bullet lines |
| Summarizer.CleanBullet | backend/agents.py:257-269 | the reply clean-up removes exactly the `- ` a bullet adds to a clean summary |
| Summarizer.BulletsStripped | backend/agents.py:253-269 | a bullet list whose last summary is clean has no whitespace at either end |
| Summarizer.CleanedBullets | backend/agents.py:257-269 | cleaning the bullet lines of clean summaries gives back the summaries |
| Summarizer.BulletsRoundTrip | backend/agents.py:253-269 | a bullet list of clean summaries, read back as a reply, gives back exactly those summaries |

## Left out

- HTTP and network I/O are not modelled: the `fetch` of `generateScript` (src/components/ScriptDisplayPanel.tsx:74-98) and the other components' requests.
- The chat-model calls are not modelled. In `batch_summarize` the reply is a function `ask` applied to the batch listing; the fixed prompt text around the listing and any nondeterminism of the model are not captured.
- The prompt and the model call of `generate_script` are not modelled; only its bullet list is.
- backend/app.py is not part of this model: its endpoints, file writes, the wait on `script.txt`, the converter subprocesses and text-to-speech are I/O and foreign processes.
- The uAgents handlers and the Bureau are message-passing plumbing. The script file write at backend/agents.py:139-144 is I/O.
- python-pptx parsing is not modelled. A slide is a list of optional shape texts, where no text stands for a shape without a `text` attribute, plus an optional notes text.
- `is_ppt_file` depends on the `mimetypes` table and is not modelled.
- `formatFileSize` uses floating point (`Math.log`, `toFixed`) and is not modelled.
- JSX rendering, the audio flags, `isGenerating` and the media players are not modelled.
- React's asynchronous state updates are not modelled: each handler's `set...` calls take effect together when the handler returns.
- `parseInt` precision is not modelled. Slide numbers are unbounded naturals, so a digit string beyond 2^53 keeps its exact value.
- JavaScript `Function.length` is not modelled as reflection. `parseSlides.length` is the constant 1, the arity of the arrow function at line 24.
- Python's `str.strip` uses the ASCII and Unicode whitespace set of `str.isspace`. JavaScript's `\s` and `trim` use the ECMAScript WhiteSpace and LineTerminator sets. Both are listed explicitly in `Text.dfy`, so characters outside those lists are treated as non-space.
- ScriptFormat.Clean and ScriptFormat.Format are not idempotent as written. The class `[ \\t]` holds the letter `t`, so a `t` behind a tab survives the first pass and is stripped by the second; ScriptFormat.NormaliseNotIdempotent proves it, and no idempotence lemma is stated.
- ScriptPanel.ScriptDisplayPanel.SelectSlide requires the index to be a record index, because the handler is only reachable from a button rendered for each record.

## Findings

| source | as written | input that shows it | evidently intended | confidence | as-written member | corrected member |
|---|---|---|---|---|---|---|
| src/components/ScriptDisplayPanel.tsx:51 | `setTotalSlides(parseSlides.length)` stores the arity of `parseSlides`, which is always 1 | the script reconstructed from records `("1","a")` and `("2","b")` parses into 2 records, while the stored total is 1 | the number of parsed records, as `handleSaveEdit` stores at line 124 | not executed | ScriptPanel.ArityMismatch | ScriptPanel.ScriptDisplayPanel.SyncScriptCounted |

