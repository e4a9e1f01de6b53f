# YouTube summarizer core, modelled in Dafny

The two Streamlit apps `app.py` and `app2.py` turn a video's transcript into a
bullet-point summary. They share one text-processing core, which this project models:

- `chunk_text` splits the transcript into sentence pieces and greedily packs them into chunks.
- `recursive_summarize` summarises each chunk with an external model, joins the results, and runs one more pass when the join is too long.
- `format_summary_pointwise` turns the summary into one bullet line per sentence.

Each app adds one rule after that:

- `app.py` puts "In this video, " in front of the bullet list, or shows a fallback message when the list is empty.
- `app2.py` hands the list to an optional chat-model refinement step. It then picks the refined or the original list, based on the error value the step returns.

Modules, one per concern:

- `Outcomes` (outcomes.dfy): `Option` and `Result`; a `Failure` stands for a Python exception.
- `PyText` (pytext.dfy): Python's `str.strip()` with its exact whitespace set, `sep.join`, and splitting on one character.
- `Sentences` (sentences.dfy): the regular-expression split `(?<=[.!?]) +` as a function over `seq<char>`. It splits after `.`, `!` or `?` at every run of spaces and drops that run.
- `Chunker` (chunker.dfy): the loop of `chunk_text`.
  - The imperative method `ChunkText` is proved equal to a fold `Pack` over the pieces.
  - Each "group" is the list of pieces one buffer held.
  - An independent description, `IsGreedyPartition`, holds of the loop's groups, and no other grouping satisfies it.
- `Reducer` (reducer.dfy): `recursive_summarize`.
  - The summarisation model is a function parameter.
  - The method records the chunks the model was called on and the progress-bar updates as integer pairs `(done, total)`.
  - It is proved equal to the function `Reduce`.
  - `Reduce` is `ReduceWith` applied to the chunker with budget 2000. The lemmas about `ReduceWith` hold for any chunking function, so they hold for that one in particular.
- `Formatter` (formatter.dfy): `format_summary_pointwise`.
- `VideoIntro` (videointro.dfy): the intro rule of `app.py`.
- `Refinement` (refinement.dfy): `refine_with_llm`'s return values and the caller's unpacking, selection and warning in `app2.py`.

The two apps hold the same three core functions; a row below cites one copy or the other.

Four behaviours of the code that a reader might not expect:

- Chunks are not all non-empty. When the first sentence and its space do not fit, the empty starting buffer is emitted as a leading `""` chunk (`Chunker.LeadingEmptyChunk`).
- Empty text gives no chunks only for a budget of at least 1.
- The reducer runs at most two passes. The limit is fixed in the code and cannot be configured.
- Formatting an already formatted summary is not guaranteed to give the same lines: a line break is not a split point. The line count is proved only for summaries without line breaks (`Formatter.FormatLines`).

## Model

| member | source | states |
|---|---|---|
| PyText.Strip | app2.py:76-80 | `strip()` is empty exactly for blank text, never longer than its input, and has no whitespace at either end |
| PyText.StripInfix | app2.py:105 | `strip()` returns one contiguous stretch of its input unchanged, and everything it drops before and after that stretch is whitespace |
| PyText.Join | app2.py:91 | `sep.join(parts)` (also used at app2.py:105) starts with the first part and is as long as all parts plus one separator between each pair of neighbours; no parts give `""` |
| PyText.StripTrailingSpace | app2.py:76-80 | stripping a buffer ignores the space appended after its last piece |
| PyText.SplitOnJoin | app2.py:105 | joining parts that hold no separator with that separator, then splitting on it, gives the parts back |
| Sentences.Split | app2.py:70 | the regex split always yields at least one piece |
| Sentences.SplitRejoin | app2.py:70 | putting back each dropped run of spaces (each of length at least one) between the pieces rebuilds the text exactly |
| Sentences.SplitPieces | app2.py:70 | every piece but the last is non-empty and ends in `.`, `!` or `?`; no piece contains a split point; no later piece starts with a space |
| Sentences.SplitBlank | app.py:129 | all pieces are blank exactly when the text is; blank text is one piece, itself |
| Chunker.Pack | app2.py:71-78 | the loop's buffer is empty exactly before the first piece |
| Chunker.PackShape | app2.py:73-78 | every piece leaves itself at the end of the buffer; each piece closes at most one group; there is at most one chunk more than there are pieces |
| Chunker.Chunks | app2.py:79-81 | no pieces give no chunks |
| Chunker.ChunkText | app2.py:67-81 | the loop returns the chunks of the greedy packing `Pack` of the split pieces: the stripped closed buffers, then the final buffer when not blank |
| Chunker.AppendStep | app2.py:74-75 | a turn through the append branch leaves the emitted chunks alone and extends the buffer by the piece and one space |
| Chunker.FlushStep | app2.py:76-78 | a turn through the flush branch emits the stripped buffer and restarts the buffer as the piece and one space |
| Chunker.GroupsAreGreedy | app2.py:72-78 | the groups keep every piece once, in order; only the first group can be empty; a group that grew by appending fits the budget; a group was closed only because the next piece did not fit |
| Chunker.GreedyPartitionUnique | app2.py:72-78 | any grouping with those properties is the loop's grouping |
| Chunker.ChunksAreGroupTexts | app.py:136-139 | chunk k is the stripped buffer of group k; a blank final buffer is the only group dropped; a chunk from the final flush is non-empty |
| Chunker.ChunkLengths | app.py:132-137 | a chunk of two or more pieces has length at most `max_chunk - 1`; a chunk of length at least `max_chunk` is a single stripped piece or the leading empty chunk |
| Chunker.LeadingEmptyChunk | app.py:131-137 | the first group is empty exactly when the first piece plus one space exceeds the budget, and then the first chunk is `""` |
| Chunker.ChunkEmptyText | app2.py:70-81 | empty text gives `[]` for any budget of at least 1 (and `[""]` otherwise) |
| Chunker.ChunksNotEmpty | app.py:136-139 | every chunk of a text is non-empty, except a leading `""` from an empty starting buffer |
| Chunker.GroupFits | app2.py:73-74 | a group that took a piece through the append branch renders within the budget |
| Reducer.Reports | app2.py:90 | the k-th update of the first pass is `(k+1, n)` |
| Reducer.PassSummaries | app2.py:87-89 | the summaries of a pass are those of a run of leading chunks, in order; the pass is complete exactly when it has one per chunk; an exception comes from the chunk right after them |
| Reducer.PassStopsAtFailure | app2.py:87-89 | after an exception the later chunks are never summarised |
| Reducer.PassFailsAt | app2.py:87-89 | when the first i calls succeed and call i raises, the pass ends with those i summaries and that exception |
| Reducer.PassCompletesIff | app2.py:87-89 | a pass completes exactly when the model succeeds on every chunk |
| Reducer.ReduceWith | app2.py:83-99 | the bar starts at 0 of n; the model is called on the text's chunks first, in order; when a summary is returned it was called on every one of them |
| Reducer.RecursiveSummarize | app2.py:83-99 | the method returns the summary or exception, the chunks sent to the model and the progress updates that `Reduce` describes |
| Reducer.FirstPass | app2.py:85-90 | the first loop collects what the pass `Pass` collects, calls the model on exactly the chunks `Attempted` names, and moves the bar from 0 one chunk at a time; without an exception it has one summary per chunk |
| Reducer.SecondPass | app2.py:95-97 | the second loop collects what `Pass` collects over its chunks and calls the model on exactly the chunks `Attempted` names, with no progress updates |
| Reducer.ReduceFirstPassFails | app2.py:87-90 | an exception at first-pass chunk i ends the call with it, after calls on chunks 0..i and progress up to `(i, n)` |
| Reducer.ReduceShort | app.py:150-157 | when every first-pass call succeeds and the join is at most 3000 characters, that join is returned unchanged, each chunk was sent once in order, and the bar went 0..n |
| Reducer.ReduceLong | app.py:151-157 | over 3000 characters, exactly one more pass runs over the join's chunks; the calls are the first chunks then a prefix of the second ones; the bar stays at n of n |
| Reducer.ResummarizeFails | app.py:152-155 | an exception at second-pass chunk i ends the call, after calls on chunks 0..i |
| Reducer.ReduceSucceedsIff | app2.py:83-99 | a summary is returned exactly when every first-pass call succeeds and, if the join is over 3000 characters, every second-pass call does too |
| Reducer.ReduceProgress | app.py:146-149 | progress updates are `(0, n), (1, n), ...` in order, never past n, ending at `(n, n)` whenever a summary is returned |
| Reducer.ReduceEmptyText | app2.py:84-91 | an empty transcript never calls the model, sets the bar to 0 of 0 and returns `""` |
| Formatter.BulletsAreKeptPieces | app2.py:104-105 | bullet m is `"• "` plus the stripped piece at the m-th increasing position, and every non-blank piece has such a position: one bullet per non-blank piece, in order |
| Formatter.Bullets | app2.py:105 | the comprehension makes no more lines than pieces, and its first line is a bullet line |
| Formatter.BulletIsLine | app2.py:105 | a piece that is not blank once stripped makes `"• "` followed by a non-space |
| Formatter.BulletsAreLines | app.py:162 | each line is `"• "` followed by text that starts with a non-space |
| Formatter.BulletsAppend | app.py:162 | the bullets of two runs of pieces are the bullets of each, in order |
| Formatter.BulletsEmpty | app.py:162 | there are no bullets exactly when every piece is blank |
| Formatter.FormatPointwise | app2.py:101-106 | the output is empty exactly when the summary is blank; otherwise it starts with the bullet sign and is at least three characters long |
| Formatter.FormatLines | app.py:161-163 | for a non-blank summary without line breaks, splitting the output at `"\n"` gives exactly the bullet lines |
| VideoIntro.LowerCharMaps | app.py:194 | lowering maps each ASCII capital to its small letter and leaves other characters alone |
| VideoIntro.FinalSummary | app.py:193-196 | the fallback message appears exactly for an empty list; otherwise the text is `"In this video, "` (15 characters) then the list with its first character lowered, `15 + len` long |
| VideoIntro.FinalSummaryRecovers | app.py:193-194 | two lists giving the same final text are equal except for the case of their first character |
| VideoIntro.FinalOfFormatted | app.py:187-196 | on the formatter's output the rule only prepends the intro; a blank summary gets the fallback message |
| Refinement.ApiKey | app2.py:117-123 | a key is found exactly when the environment or the secrets store holds a non-empty one; a non-empty environment value wins |
| Refinement.RefineAsWritten | app2.py:111-159 | as written, the bare list comes back exactly when there is no key; otherwise a pair whose error is `None` exactly when the call succeeded, and an error comes with the unrefined list and the message after "LLM refine failed: " |
| Refinement.Refine | app2.py:111-159 | the corrected step always returns a pair; an error comes only with a key and a raising call, and then with the unrefined list |
| Refinement.Unpack | app2.py:191 | unpacking succeeds exactly for a pair or a two-character string; a pair unpacks to its own fields; a longer string raises "too many values" |
| Refinement.SelectFinal | app2.py:194 | the refined text or the unrefined list is selected; a reported error always selects the list; a differing refined text is shown exactly when no error is reported |
| Refinement.Present | app2.py:191-202 | the caller fails exactly when the unpacking fails; a warning is only ever shown with the unrefined list; a pair without an error shows its text and no warning |
| Refinement.NoKeyAsWrittenFails | app2.py:125-127 | as written, with no key the unpacking at line 191 raises for every formatted summary |
| Refinement.NoKeyAsWrittenExample | app2.py:191 | the summary "Done." without a key raises "too many values to unpack" |
| Refinement.RefineWithKeyUnchanged | app2.py:129-159 | with a key the corrected step, defined field by field, returns the same value as the step as written |
| Refinement.RefineOutcome | app2.py:117-202 | the corrected step never raises at line 191; no key shows the list, a reply shows its stripped content, an exception shows the list with a warning carrying the message |
| Refinement.RefineShowsListOrReply | app2.py:191-202 | what is shown is the unrefined list or a successful reply, and a warning comes only with the list |

## Left out

- Downloading the audio (`download_audio`), transcription (`transcribe_audio`) and the model loaders: foreign libraries, network and file I/O.
- The summarisation model itself. It is a function parameter, deterministic because sampling is off; an exception from it is a `Failure`.
- The chat-model call in `refine_with_llm`: the prompt text, the transcript hint and the request options. The reply is a parameter.
- Reading the key: the environment variable and the secrets store are parameters. A missing secret is `None`.
- All Streamlit UI: page setup, markup, session state, spinners, balloons, audio-file removal, and the handler that reports an escaped exception. An escaped exception is a `Failure` result.
- Lone surrogates: a Python `str` element is a code point and may be one of U+D800–U+DFFF, which a Dafny `char` cannot hold, so the model covers only text without lone surrogates.
- Progress fractions `(i+1)/n` are floating point; the model records the integer pair `(i+1, n)`.
- VideoIntro.LowerChar: lowers ASCII capitals only, because the model has no Unicode case tables. Python's `lower()` also lowers other letters, and can turn one character into two. The only first character the pipeline feeds it is the bullet sign, which no lowering changes (`VideoIntro.FinalOfFormatted`).
- Refinement.Present: an unpacking `ValueError` is described by its kind (too many values, or how many were found) instead of Python's message text.

## Findings

| source | as written | input that shows it | evidently intended | confidence | as-written member | corrected member |
|---|---|---|---|---|---|---|
| app2.py:127, app2.py:191 | without an API key `refine_with_llm` returns the bare bullet string, and the caller unpacks it into two names | no key in the environment or the secrets store, summary "Done.": the list "• Done." has 7 characters, so the unpacking raises `ValueError` and no summary is shown; a list is never exactly 2 characters long, so this happens for every summary | return the original list with no error, as the function's documentation says, so the unrefined list is shown | high, not executed | Refinement.NoKeyAsWrittenFails | Refinement.RefineOutcome |
