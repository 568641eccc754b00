/** The control skeleton of `summarize_text`: chunk the transcript, make one
    generation call per chunk in order, stop at the first failure, and with
    more than one chunk make one extra call that merges the partial
    summaries.  Each run reports its outcome and the prompts it sent, in the
    order it sent them. */
module Summarizer {
  import opened Results
  import opened PyStr
  import opened Chunker
  import opened Generation

  /** The `max_length` that `summarize_text` passes to the chunker. */
  const MaxChunkLength := 500000

  /** What joins the partial summaries before the merge call. */
  const Separator := "\n\n"

  /** The two exceptions `summarize_text` raises: a failed chunk call, with
      the chunk's 1-based position, and a failed merge call. */
  datatype SummaryError = ChunkError(index: nat, reason: string) | MergeError(reason: string)

  /** An outcome together with the trace of prompts sent to the model. */
  datatype Run<T> = Run(outcome: Result<T, SummaryError>, calls: seq<Prompt>)

  /** The `for i, chunk in enumerate(chunks, 1)` loop, from the chunk at
      0-based position `k` on: the partial summaries of `chunks[k..]`. */
  function SummarizeEach(chunks: seq<string>, title: string, generate: Oracle, k: nat): (r: Run<seq<string>>)
    requires k <= |chunks|
    ensures |r.calls| <= |chunks| - k
    ensures forall j :: 0 <= j < |r.calls| ==> r.calls[j] == ChunkPrompt(chunks[k + j], title)
    ensures r.outcome.Ok? ==> |r.calls| == |chunks| - k && |r.outcome.value| == |chunks| - k
    ensures r.outcome.Err? ==> r.outcome.error.ChunkError? && |r.calls| > 0
    ensures r.outcome.Err? ==> r.outcome.error.index == k + |r.calls|
    ensures r.outcome.Err? ==> generate(r.calls[|r.calls| - 1]) == Failure(r.outcome.error.reason)
    decreases |chunks| - k
  {
    if k == |chunks| then Run(Ok([]), [])
    else
      var prompt := ChunkPrompt(chunks[k], title);
      match generate(prompt)
      case Failure(reason) => Run(Err(ChunkError(k + 1, reason)), [prompt])
      case Reply(text) =>
        var rest := SummarizeEach(chunks, title, generate, k + 1);
        match rest.outcome
        case Ok(texts) => Run(Ok([text] + texts), [prompt] + rest.calls)
        case Err(e) => Run(Err(e), [prompt] + rest.calls)
  }

  /** `summarize_text` after chunking.  Chunk calls come first, in chunk
      order; a merge call is only ever the last call, is only made with more
      than one chunk, and only once every chunk call has succeeded; a failed
      chunk call is the last call made. */
  function Summarize(chunks: seq<string>, title: string, generate: Oracle): (r: Run<string>)
    ensures |r.calls| <= |chunks| + 1
    ensures forall j :: 0 <= j < |r.calls| && j < |chunks| ==> r.calls[j] == ChunkPrompt(chunks[j], title)
    ensures |r.calls| > |chunks| ==> |chunks| > 1 && r.calls[|chunks|].MergePrompt?
    ensures r.outcome.Err? && r.outcome.error.ChunkError? ==>
      1 <= r.outcome.error.index == |r.calls| <= |chunks|
    ensures r.outcome.Err? && r.outcome.error.MergeError? ==> |r.calls| == |chunks| + 1
    ensures r.outcome.Ok? ==> |r.calls| == |chunks| + (if |chunks| > 1 then 1 else 0)
  {
    var each := SummarizeEach(chunks, title, generate, 0);
    match each.outcome
    case Err(e) => Run(Err(e), each.calls)
    case Ok(summaries) =>
      var combined := Join(summaries, Separator);
      if |chunks| > 1 then
        var prompt := MergePrompt(combined, title);
        match generate(prompt)
        case Reply(text) => Run(Ok(text), each.calls + [prompt])
        case Failure(reason) => Run(Err(MergeError(reason)), each.calls + [prompt])
      else Run(Ok(combined), each.calls)
  }

  /** `summarize_text(text, video_title)`: at most one call per word plus the
      merge call, and none at all for text without words, which summarizes
      to the empty string. */
  function SummarizeText(text: string, title: string, generate: Oracle): (r: Run<string>)
    ensures |r.calls| <= |Split(text)| + 1
    ensures AllSpace(text) ==> r == Run(Ok(""), [])
  {
    var chunks := Chunk(text, MaxChunkLength);
    FlattenAtLeastGroups(SplitEach(chunks));
    ChunkNoWords(text, MaxChunkLength);
    Summarize(chunks, title, generate)
  }

  // ---------------------------------------------------------------------------
  // The call trace, case by case

  /** The chunk prompts in chunk order. */
  function ChunkPrompts(chunks: seq<string>, title: string): (prompts: seq<Prompt>)
    ensures |prompts| == |chunks|
    ensures forall j :: 0 <= j < |chunks| ==> prompts[j] == ChunkPrompt(chunks[j], title)
  {
    seq(|chunks|, j requires 0 <= j < |chunks| => ChunkPrompt(chunks[j], title))
  }

  /** The calls for `chunks[k..n]` all succeed. */
  predicate ChunkCallsSucceed(chunks: seq<string>, title: string, generate: Oracle, k: nat, n: nat)
    requires k <= n <= |chunks|
  {
    forall j :: k <= j < n ==> generate(ChunkPrompt(chunks[j], title)).Reply?
  }

  /** The replies to the chunk calls, in chunk order. */
  function Replies(chunks: seq<string>, title: string, generate: Oracle): (texts: seq<string>)
    requires ChunkCallsSucceed(chunks, title, generate, 0, |chunks|)
    ensures |texts| == |chunks|
    ensures forall j :: 0 <= j < |chunks| ==> Reply(texts[j]) == generate(ChunkPrompt(chunks[j], title))
  {
    seq(|chunks|, j requires 0 <= j < |chunks| => generate(ChunkPrompt(chunks[j], title)).text)
  }

  /** When every chunk call from `k` on succeeds, the loop sends exactly the
      remaining chunk prompts and collects their replies in the same order. */
  lemma {:induction false} SummarizeEachSucceeds(chunks: seq<string>, title: string, generate: Oracle, k: nat)
    requires k <= |chunks|
    requires ChunkCallsSucceed(chunks, title, generate, 0, |chunks|)
    ensures SummarizeEach(chunks, title, generate, k)
         == Run(Ok(Replies(chunks, title, generate)[k..]), ChunkPrompts(chunks, title)[k..])
    decreases |chunks| - k
  {
    if k < |chunks| {
      var replies, prompts := Replies(chunks, title, generate), ChunkPrompts(chunks, title);
      assert generate(ChunkPrompt(chunks[k], title)) == Reply(replies[k]);
      SummarizeEachSucceeds(chunks, title, generate, k + 1);
      SummarizeEachStep(chunks, title, generate, k);
      assert replies[k..] == [replies[k]] + replies[k + 1..];
      assert prompts[k..] == [prompts[k]] + prompts[k + 1..];
    } else {
      assert Replies(chunks, title, generate)[k..] == [];
      assert ChunkPrompts(chunks, title)[k..] == [];
    }
  }

  /** When the call for the chunk at 0-based position `i` is the first to
      fail, the loop stops there: its error carries the 1-based index
      `i + 1`, and no later chunk is sent. */
  lemma {:induction false} SummarizeEachFails(chunks: seq<string>, title: string, generate: Oracle, k: nat, i: nat)
    requires k <= i < |chunks|
    requires ChunkCallsSucceed(chunks, title, generate, k, i)
    requires generate(ChunkPrompt(chunks[i], title)).Failure?
    ensures SummarizeEach(chunks, title, generate, k)
         == Run(Err(ChunkError(i + 1, generate(ChunkPrompt(chunks[i], title)).reason)),
                ChunkPrompts(chunks, title)[k..i + 1])
    decreases i - k
  {
    var prompts := ChunkPrompts(chunks, title);
    if k < i {
      SummarizeEachStep(chunks, title, generate, k);
      SummarizeEachFails(chunks, title, generate, k + 1, i);
      assert prompts[k..i + 1] == [prompts[k]] + prompts[k + 1..i + 1];
    } else {
      assert prompts[k..i + 1] == [prompts[k]];
    }
  }

  /** One successful chunk call passes a later error through unchanged and
      puts its own prompt in front of the later calls. */
  lemma SummarizeEachStep(chunks: seq<string>, title: string, generate: Oracle, k: nat)
    requires k < |chunks|
    requires generate(ChunkPrompt(chunks[k], title)).Reply?
    ensures SummarizeEach(chunks, title, generate, k).calls
         == [ChunkPrompt(chunks[k], title)] + SummarizeEach(chunks, title, generate, k + 1).calls
    ensures SummarizeEach(chunks, title, generate, k + 1).outcome.Err? ==>
      SummarizeEach(chunks, title, generate, k).outcome == SummarizeEach(chunks, title, generate, k + 1).outcome
    ensures SummarizeEach(chunks, title, generate, k + 1).outcome.Ok? ==>
      SummarizeEach(chunks, title, generate, k).outcome
        == Ok([generate(ChunkPrompt(chunks[k], title)).text] + SummarizeEach(chunks, title, generate, k + 1).outcome.value)
  {
  }

  /** No chunks: the empty summary, and no call. */
  lemma SummarizeNoChunks(title: string, generate: Oracle)
    ensures Summarize([], title, generate) == Run(Ok(""), [])
  {
  }

  /** One chunk: its reply verbatim, and no merge call. */
  lemma SummarizeOneChunk(chunk: string, title: string, generate: Oracle)
    ensures Summarize([chunk], title, generate)
         == match generate(ChunkPrompt(chunk, title))
            case Reply(text) => Run(Ok(text), [ChunkPrompt(chunk, title)])
            case Failure(reason) => Run(Err(ChunkError(1, reason)), [ChunkPrompt(chunk, title)])
  {
    var prompts := ChunkPrompts([chunk], title);
    assert prompts[0..] == [ChunkPrompt(chunk, title)];
    if generate(ChunkPrompt(chunk, title)).Reply? {
      SummarizeEachSucceeds([chunk], title, generate, 0);
    } else {
      SummarizeEachFails([chunk], title, generate, 0, 0);
      assert prompts[0..1] == prompts;
    }
  }

  /** Several chunks that all succeed: the chunk calls in chunk order, then
      exactly one merge call over the replies joined by blank lines, whose
      reply (or failure) is the outcome. */
  lemma SummarizeManyChunks(chunks: seq<string>, title: string, generate: Oracle)
    requires |chunks| > 1
    requires ChunkCallsSucceed(chunks, title, generate, 0, |chunks|)
    ensures
      var merge := MergePrompt(Join(Replies(chunks, title, generate), Separator), title);
      var outcome := match generate(merge)
        case Reply(text) => Ok(text)
        case Failure(reason) => Err(MergeError(reason));
      Summarize(chunks, title, generate) == Run(outcome, ChunkPrompts(chunks, title) + [merge])
  {
    SummarizeEachSucceeds(chunks, title, generate, 0);
    assert Replies(chunks, title, generate)[0..] == Replies(chunks, title, generate);
    assert ChunkPrompts(chunks, title)[0..] == ChunkPrompts(chunks, title);
  }

  /** Fail-fast: the first failing chunk call, at 0-based position `i`, ends
      the run with `ChunkError(i + 1, …)`; no later chunk is sent and no
      merge call is made. */
  lemma SummarizeFailFast(chunks: seq<string>, title: string, generate: Oracle, i: nat)
    requires i < |chunks|
    requires ChunkCallsSucceed(chunks, title, generate, 0, i)
    requires generate(ChunkPrompt(chunks[i], title)).Failure?
    ensures Summarize(chunks, title, generate)
         == Run(Err(ChunkError(i + 1, generate(ChunkPrompt(chunks[i], title)).reason)),
                ChunkPrompts(chunks, title)[..i + 1])
  {
    SummarizeEachFails(chunks, title, generate, 0, i);
    assert ChunkPrompts(chunks, title)[0..i + 1] == ChunkPrompts(chunks, title)[..i + 1];
  }

  /** A transcript whose words fit under the limit is summarized by exactly
      one call on `" ".join(text.split())`, whose reply is returned
      verbatim; there is no merge call. */
  lemma SummarizeShortTranscript(text: string, title: string, generate: Oracle)
    requires !AllSpace(text)
    requires Cost(Split(text)) < MaxChunkLength
    ensures
      var prompt := ChunkPrompt(Join(Split(text), " "), title);
      SummarizeText(text, title, generate) == match generate(prompt)
        case Reply(summary) => Run(Ok(summary), [prompt])
        case Failure(reason) => Run(Err(ChunkError(1, reason)), [prompt])
  {
    ChunkShortText(text, MaxChunkLength);
    SummarizeOneChunk(Join(Split(text), " "), title, generate);
  }
}
