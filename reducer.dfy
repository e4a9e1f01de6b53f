/** The two-pass reducer, `recursive_summarize(text)`: chunk the text, summarise each
  * chunk in order, join the summaries with single spaces, and when the join is longer
  * than the acceptance threshold do exactly one more chunk-and-summarise pass. The
  * summarisation model is a parameter; the progress bar is the list of its updates. */
module Reducer {
  import opened Outcomes
  import opened PyText
  import Sentences
  import Chunker

  const ChunkBudget := 2000
  const AcceptanceThreshold := 3000
  /** The `max_length` and `min_length` passed to the summarisation model. */
  const SummaryMaxLength := 150
  const SummaryMinLength := 50

  /** The summarisation model, `summarizer(chunk, max_length=..., min_length=...,
    * do_sample=False)[0]['summary_text']`, as a function of the chunk and the two
    * lengths. `Failure(e)` is an exception with message `e`. Without sampling the
    * model is deterministic, hence a function. */
  type Summarizer = (string, int, int) -> Result<string, string>

  function Summarize(summarize: Summarizer, chunk: string): Result<string, string>
  {
    summarize(chunk, SummaryMaxLength, SummaryMinLength)
  }

  /** One update of the progress bar: `done` of `total` chunks summarised. */
  datatype Progress = Progress(done: nat, total: nat)

  /** The updates after each of the first `done` chunks: (1, n), (2, n), ... */
  function Reports(done: nat, total: nat): (r: seq<Progress>)
    ensures |r| == done && forall j :: 0 <= j < done ==> r[j] == Progress(j + 1, total)
  {
    if done == 0 then [] else Reports(done - 1, total) + [Progress(done, total)]
  }

  /** The summaries a pass collected and the exception that ended it early, if any. */
  datatype PassOutcome = PassOutcome(summaries: seq<string>, failure: Option<string>)

  /** A pass over the first `n` chunks in order, stopping at the first exception. */
  function PassUpTo(chunks: seq<string>, n: nat, summarize: Summarizer): (o: PassOutcome)
    requires n <= |chunks|
    ensures |o.summaries| + (if o.failure.Some? then 1 else 0) <= n
  {
    if n == 0 then PassOutcome([], None)
    else
      var before := PassUpTo(chunks, n - 1, summarize);
      if before.failure.Some? then before
      else match Summarize(summarize, chunks[n - 1])
        case Success(summary) => PassOutcome(before.summaries + [summary], None)
        case Failure(e) => PassOutcome(before.summaries, Some(e))
  }

  /** One pass over all the chunks. */
  function Pass(chunks: seq<string>, summarize: Summarizer): PassOutcome
  {
    PassUpTo(chunks, |chunks|, summarize)
  }

  /** What a pass collects, stated chunk by chunk: the summaries of a run of leading
    * chunks whose calls succeeded, in chunk order, and the pass is cut short exactly
    * by the first chunk whose call raised, with that exception. */
  lemma {:induction false} PassUpToSummaries(chunks: seq<string>, n: nat, summarize: Summarizer)
    requires n <= |chunks|
    ensures var o := PassUpTo(chunks, n, summarize);
      && (forall j :: 0 <= j < |o.summaries| ==>
            Summarize(summarize, chunks[j]) == Success(o.summaries[j]))
      && (o.failure == None <==> |o.summaries| == n)
      && (o.failure.Some? ==>
            Summarize(summarize, chunks[|o.summaries|]) == Failure(o.failure.value))
  {
    if n > 0 {
      PassUpToSummaries(chunks, n - 1, summarize);
    }
  }

  lemma PassSummaries(chunks: seq<string>, summarize: Summarizer)
    ensures var o := Pass(chunks, summarize);
      && (forall j :: 0 <= j < |o.summaries| ==>
            Summarize(summarize, chunks[j]) == Success(o.summaries[j]))
      && (o.failure == None <==> |o.summaries| == |chunks|)
      && (o.failure.Some? ==>
            Summarize(summarize, chunks[|o.summaries|]) == Failure(o.failure.value))
  {
    PassUpToSummaries(chunks, |chunks|, summarize);
  }

  /** Once a call has raised, later chunks change nothing: the pass is over. */
  lemma {:induction false} PassStopsAtFailure(chunks: seq<string>, i: nat, n: nat, summarize: Summarizer)
    requires i <= n <= |chunks| && PassUpTo(chunks, i, summarize).failure.Some?
    ensures PassUpTo(chunks, n, summarize) == PassUpTo(chunks, i, summarize)
    decreases n
  {
    if n > i {
      PassStopsAtFailure(chunks, i, n - 1, summarize);
    }
  }

  /** A pass whose first `i` calls succeed and whose call on chunk `i` raises ends
    * with the first `i` summaries and that exception. */
  lemma PassFailsAt(chunks: seq<string>, i: nat, summarize: Summarizer, e: string) returns (stopped: PassOutcome)
    requires i < |chunks|
    requires PassUpTo(chunks, i, summarize).failure.None?
    requires Summarize(summarize, chunks[i]) == Failure(e)
    ensures stopped == Pass(chunks, summarize)
    ensures |stopped.summaries| == i && stopped.failure == Some(e)
  {
    var before := PassUpTo(chunks, i, summarize);
    PassUpToSummaries(chunks, i, summarize);
    stopped := PassUpTo(chunks, i + 1, summarize);
    assert stopped == PassOutcome(before.summaries, Some(e));
    PassStopsAtFailure(chunks, i + 1, |chunks|, summarize);
  }

  /** The chunks the model was called on during a pass: all of them, or up to and
    * including the one that raised. */
  function Attempted(chunks: seq<string>, summarize: Summarizer): seq<string>
  {
    var o := Pass(chunks, summarize);
    chunks[..|o.summaries| + if o.failure.Some? then 1 else 0]
  }

  /** The chunks `recursive_summarize` makes of a text. */
  function ChunksOf(text: string): seq<string>
  {
    Chunker.Chunks(Sentences.Split(text), ChunkBudget)
  }

  /** What a call of `recursive_summarize` produces: the summary or the exception that
    * escaped, the chunks the model was called on in call order, and the progress-bar
    * updates (the bar is created at 0 before the first chunk). */
  datatype Reduction = Reduction(summary: Result<string, string>, calls: seq<string>, progress: seq<Progress>)

  function Reduce(text: string, summarize: Summarizer): Reduction
  {
    ReduceWith(ChunksOf, text, summarize)
  }

  /** The reduction for a given way of cutting a text into chunks; the properties
    * below hold whatever that way is, and so for `ChunksOf` in particular. The bar
    * starts at 0 of n; the model is called on the text's chunks first, in order, and on
    * every one of them whenever a summary is returned. */
  function ReduceWith(chunking: string -> seq<string>, text: string, summarize: Summarizer): (r: Reduction)
    ensures |r.progress| >= 1 && r.progress[0] == Progress(0, |chunking(text)|)
    ensures r.calls <= chunking(text) || chunking(text) <= r.calls
    ensures r.summary.Success? ==> chunking(text) <= r.calls
  {
    var chunks := chunking(text);
    var first := Pass(chunks, summarize);
    var progress := [Progress(0, |chunks|)] + Reports(|first.summaries|, |chunks|);
    if first.failure.Some? then
      Reduction(Failure(first.failure.value), Attempted(chunks, summarize), progress)
    else
      var combined := Join(" ", first.summaries);
      if |combined| > AcceptanceThreshold then
        var second := Resummarize(chunking, combined, summarize);
        Reduction(second.summary, chunks + second.calls, progress)
      else
        Reduction(Success(combined), chunks, progress)
  }

  /** The second pass over an over-long join, which reports no progress. */
  function Resummarize(chunking: string -> seq<string>, combined: string, summarize: Summarizer): Reduction
  {
    var chunks := chunking(combined);
    var second := Pass(chunks, summarize);
    var summary := if second.failure.Some? then Failure(second.failure.value)
                   else Success(Join(" ", second.summaries));
    Reduction(summary, Attempted(chunks, summarize), [])
  }

  /** When every chunk yields a summary, the pass collects exactly those summaries. */
  lemma PassAllSucceed(chunks: seq<string>, summarize: Summarizer, outs: seq<string>)
    requires |outs| == |chunks|
    requires forall j :: 0 <= j < |chunks| ==> Summarize(summarize, chunks[j]) == Success(outs[j])
    ensures Pass(chunks, summarize) == PassOutcome(outs, None)
  {
    PassSummaries(chunks, summarize);
    assert Pass(chunks, summarize).summaries == outs;
  }

  /** `recursive_summarize(text)`: chunk with budget 2000, summarise every chunk while
    * updating the progress bar, join, and when the join is longer than 3000
    * characters chunk the join and summarise once more. An exception from the model
    * ends the call. */
  method RecursiveSummarize(text: string, summarize: Summarizer)
    returns (summary: Result<string, string>, calls: seq<string>, progress: seq<Progress>)
    ensures Reduction(summary, calls, progress) == Reduce(text, summarize)
  {
    var chunks := ChunkBy(text);
    var summaries, failure;
    summaries, failure, calls, progress := FirstPass(chunks, summarize);
    if failure.Some? {
      summary := Failure(failure.value);
      return;
    }
    var combined := Join(" ", summaries);
    if |combined| > AcceptanceThreshold {
      var chunks2 := ChunkBy(combined);
      var summaries2, failure2, calls2 := SecondPass(chunks2, summarize);
      // The second pass is the one `Resummarize` describes for the join.
      ReduceLongCase(ChunksOf, text, summarize);
      ghost var second := Resummarize(ChunksOf, combined, summarize);
      assert chunks2 == ChunksOf(combined);
      assert Pass(chunks2, summarize) == PassOutcome(summaries2, failure2);
      assert second.calls == calls2;
      assert second.summary == if failure2.Some? then Failure(failure2.value) else Success(Join(" ", summaries2));
      assert Pass(chunks, summarize).summaries == summaries;
      assert progress == [Progress(0, |chunks|)] + Reports(|summaries|, |chunks|);
      assert ReduceWith(ChunksOf, text, summarize) == Reduction(second.summary, chunks + calls2, progress);
      assert Reduce(text, summarize) == Reduction(second.summary, chunks + calls2, progress);
      assert calls == chunks;
      calls := calls + calls2;
      if failure2.Some? {
        summary := Failure(failure2.value);
        return;
      }
      combined := Join(" ", summaries2);
    }
    summary := Success(combined);
  }

  /** The reduction once the first pass has completed with a join over the threshold. */
  lemma ReduceLongCase(chunking: string -> seq<string>, text: string, summarize: Summarizer)
    requires Pass(chunking(text), summarize).failure.None?
    requires |Join(" ", Pass(chunking(text), summarize).summaries)| > AcceptanceThreshold
    ensures var chunks := chunking(text); var first := Pass(chunks, summarize);
      var second := Resummarize(chunking, Join(" ", first.summaries), summarize);
      ReduceWith(chunking, text, summarize)
        == Reduction(second.summary, chunks + second.calls, [Progress(0, |chunks|)] + Reports(|first.summaries|, |chunks|))
  {
  }

  /** `chunk_text(text, 2000)`. */
  method ChunkBy(text: string) returns (chunks: seq<string>)
    ensures chunks == ChunksOf(text)
  {
    chunks := Chunker.ChunkText(text, ChunkBudget);
  }

  /** The first loop of `recursive_summarize`: the bar is created at 0, then after the
    * i-th chunk's summary it shows i+1 of n. */
  method FirstPass(chunks: seq<string>, summarize: Summarizer)
    returns (summaries: seq<string>, failure: Option<string>, calls: seq<string>, progress: seq<Progress>)
    ensures PassOutcome(summaries, failure) == Pass(chunks, summarize)
    ensures calls == Attempted(chunks, summarize)
    ensures progress == [Progress(0, |chunks|)] + Reports(|summaries|, |chunks|)
    ensures failure.None? ==> |summaries| == |chunks|
  {
    summaries := [];
    calls := [];
    progress := [Progress(0, |chunks|)];
    for i := 0 to |chunks|
      invariant PassUpTo(chunks, i, summarize) == PassOutcome(summaries, None) && |summaries| == i
      invariant calls == chunks[..i]
      invariant progress == [Progress(0, |chunks|)] + Reports(i, |chunks|)
    {
      calls := calls + [chunks[i]];
      assert calls == chunks[..i + 1];
      var result := summarize(chunks[i], SummaryMaxLength, SummaryMinLength);
      if result.Failure? {
        PassStopsAtFailure(chunks, i + 1, |chunks|, summarize);
        failure := Some(result.error);
        return;
      }
      summaries := summaries + [result.value];
      progress := progress + [Progress(i + 1, |chunks|)];
    }
    assert chunks[..|chunks|] == chunks;
    failure := None;
  }

  /** The second loop of `recursive_summarize`, over the chunks of the join: the same
    * calls in the same order, without progress updates. */
  method SecondPass(chunks: seq<string>, summarize: Summarizer)
    returns (summaries: seq<string>, failure: Option<string>, calls: seq<string>)
    ensures PassOutcome(summaries, failure) == Pass(chunks, summarize)
    ensures calls == Attempted(chunks, summarize)
  {
    summaries := [];
    calls := [];
    for i := 0 to |chunks|
      invariant PassUpTo(chunks, i, summarize) == PassOutcome(summaries, None) && |summaries| == i
      invariant calls == chunks[..i]
    {
      calls := calls + [chunks[i]];
      assert calls == chunks[..i + 1];
      var result := summarize(chunks[i], SummaryMaxLength, SummaryMinLength);
      if result.Failure? {
        PassStopsAtFailure(chunks, i + 1, |chunks|, summarize);
        failure := Some(result.error);
        return;
      }
      summaries := summaries + [result.value];
    }
    assert chunks[..|chunks|] == chunks;
    failure := None;
  }

  /** The first pass raising at chunk `i` ends the call with that exception, after
    * calling the model on chunks 0..i and reporting progress for chunks 0..i-1 only. */
  lemma ReduceFirstPassFails(chunking: string -> seq<string>, text: string, summarize: Summarizer, i: nat, e: string)
    requires i < |chunking(text)|
    requires PassUpTo(chunking(text), i, summarize).failure.None?
    requires Summarize(summarize, chunking(text)[i]) == Failure(e)
    ensures var chunks := chunking(text);
      ReduceWith(chunking, text, summarize) == Reduction(Failure(e), chunks[..i + 1],
        [Progress(0, |chunks|)] + Reports(i, |chunks|))
  {
    var chunks := chunking(text);
    var stopped := PassFailsAt(chunks, i, summarize, e);
    assert Attempted(chunks, summarize) == chunks[..i + 1];
  }

  /** The second pass raising at chunk `i` of the re-chunked join: that exception,
    * after calling the model on chunks 0..i. */
  lemma ResummarizeFails(chunking: string -> seq<string>, combined: string, summarize: Summarizer, i: nat, e: string)
    requires i < |chunking(combined)|
    requires PassUpTo(chunking(combined), i, summarize).failure.None?
    requires Summarize(summarize, chunking(combined)[i]) == Failure(e)
    ensures Resummarize(chunking, combined, summarize) == Reduction(Failure(e), chunking(combined)[..i + 1], [])
  {
    var chunks := chunking(combined);
    var stopped := PassFailsAt(chunks, i, summarize, e);
    assert Attempted(chunks, summarize) == chunks[..i + 1];
  }

  /** A pass completes exactly when every chunk's call succeeds. */
  lemma PassCompletesIff(chunks: seq<string>, summarize: Summarizer)
    ensures Pass(chunks, summarize).failure.None? <==>
      forall j :: 0 <= j < |chunks| ==> Summarize(summarize, chunks[j]).Success?
  {
    PassSummaries(chunks, summarize);
  }

  /** When every first-pass call succeeds and their summaries join to at most 3000
    * characters, the result is that join, the model saw each chunk once in order, and
    * the bar went 0, 1, ..., n. */
  lemma ReduceShort(chunking: string -> seq<string>, text: string, summarize: Summarizer, outs: seq<string>)
    requires |outs| == |chunking(text)|
    requires forall j :: 0 <= j < |outs| ==> Summarize(summarize, chunking(text)[j]) == Success(outs[j])
    requires |Join(" ", outs)| <= AcceptanceThreshold
    ensures var n := |chunking(text)|;
      ReduceWith(chunking, text, summarize) == Reduction(Success(Join(" ", outs)), chunking(text),
        [Progress(0, n)] + Reports(n, n))
  {
    PassAllSucceed(chunking(text), summarize, outs);
  }

  /** When every first-pass call succeeds but the join is longer than 3000 characters,
    * the join is chunked again and summarised once more: the answer is the join of the
    * second summaries, or the first exception of the second pass; the calls are the
    * first chunks followed by a prefix of the second chunks; the bar ends at n of n. */
  lemma ReduceLong(chunking: string -> seq<string>, text: string, summarize: Summarizer, outs: seq<string>)
    requires |outs| == |chunking(text)|
    requires forall j :: 0 <= j < |outs| ==> Summarize(summarize, chunking(text)[j]) == Success(outs[j])
    requires |Join(" ", outs)| > AcceptanceThreshold
    ensures var r := ReduceWith(chunking, text, summarize); var chunks := chunking(text);
      var chunks2 := chunking(Join(" ", outs)); var second := Pass(chunks2, summarize);
      && r.summary == (if second.failure.Some? then Failure(second.failure.value)
                       else Success(Join(" ", second.summaries)))
      && |chunks| <= |r.calls| <= |chunks| + |chunks2|
      && r.calls[..|chunks|] == chunks
      && r.calls[|chunks|..] == chunks2[..|r.calls| - |chunks|]
      && r.progress == [Progress(0, |chunks|)] + Reports(|chunks|, |chunks|)
  {
    var chunks := chunking(text);
    PassAllSucceed(chunks, summarize, outs);
    var r := ReduceWith(chunking, text, summarize);
    var second := Resummarize(chunking, Join(" ", outs), summarize);
    assert r == Reduction(second.summary, chunks + second.calls,
      [Progress(0, |chunks|)] + Reports(|chunks|, |chunks|));
    assert r.calls[..|chunks|] == chunks;
    assert r.calls[|chunks|..] == second.calls;
  }

  /** The call returns a summary exactly when no call of the model raises: every
    * first-pass chunk succeeds, and, when their join is too long, every second-pass
    * chunk succeeds too. */
  lemma ReduceSucceedsIff(chunking: string -> seq<string>, text: string, summarize: Summarizer)
    ensures var chunks := chunking(text); var combined := Join(" ", Pass(chunks, summarize).summaries);
      ReduceWith(chunking, text, summarize).summary.Success? <==>
        && (forall j :: 0 <= j < |chunks| ==> Summarize(summarize, chunks[j]).Success?)
        && (|combined| > AcceptanceThreshold ==>
              forall j :: 0 <= j < |chunking(combined)| ==> Summarize(summarize, chunking(combined)[j]).Success?)
  {
    var chunks := chunking(text);
    PassCompletesIff(chunks, summarize);
    PassCompletesIff(chunking(Join(" ", Pass(chunks, summarize).summaries)), summarize);
  }

  /** The progress bar only moves forward one chunk at a time from 0, never past the
    * number of first-pass chunks, and reaches n of n whenever a summary is returned. */
  lemma ReduceProgress(chunking: string -> seq<string>, text: string, summarize: Summarizer)
    ensures var r := ReduceWith(chunking, text, summarize); var n := |chunking(text)|;
      && 1 <= |r.progress| <= n + 1
      && (forall j :: 0 <= j < |r.progress| ==> r.progress[j] == Progress(j, n))
      && (r.summary.Success? ==> r.progress[|r.progress| - 1] == Progress(n, n))
  {
    var chunks := chunking(text);
    var first := Pass(chunks, summarize);
    PassSummaries(chunks, summarize);
    assert ReduceWith(chunking, text, summarize).progress == [Progress(0, |chunks|)] + Reports(|first.summaries|, |chunks|);
    ProgressCounts(|first.summaries|, |chunks|);
  }

  /** The bar created at 0 and then moved after each of `done` chunks shows 0, 1, ...,
    * `done` in turn. */
  lemma ProgressCounts(done: nat, total: nat)
    ensures var bar := [Progress(0, total)] + Reports(done, total);
      |bar| == done + 1 && forall j :: 0 <= j < |bar| ==> bar[j] == Progress(j, total)
  {
    var bar := [Progress(0, total)] + Reports(done, total);
    forall j | 0 <= j < |bar| ensures bar[j] == Progress(j, total) {
      if j > 0 {
        assert bar[j] == Reports(done, total)[j - 1];
      }
    }
  }

  /** An empty transcript makes no chunks: the model is never called, the bar is
    * created at 0 of 0, and the summary is the empty string. */
  lemma ReduceEmptyText(summarize: Summarizer)
    ensures Reduce("", summarize) == Reduction(Success(""), [], [Progress(0, 0)])
  {
    Chunker.ChunkEmptyText(ChunkBudget);
    assert ChunksOf("") == [];
  }
}
