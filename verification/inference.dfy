/** The language-model client: the blocking call with retry and exponential backoff
    (`model_response`) and the streaming call (`streaming_model_response`). A call to the model is
    not made here: each attempt's outcome is an input. */
module Inference {
  import opened Options

  /** What one attempt of `ollama.chat` came to: an exception (or a reply without
      `message.content`), or the reply's text, which may be empty. */
  datatype Attempt = Failed | Replied(content: string)

  /** The retry count every caller in the assistant uses: neither caller passes `max_retries`,
      so the parameter's default applies and the configured `max_retries` is never read. */
  const DefaultRetries: int := 3

  /** The outcome of attempt `k`; attempts past the end of the supplied outcomes fail. */
  function AttemptAt(outcomes: seq<Attempt>, k: nat): Attempt {
    if k < |outcomes| then outcomes[k] else Failed
  }

  function Pow2(k: nat): (r: nat)
    ensures r >= 1
  {
    if k == 0 then 1 else 2 * Pow2(k - 1)
  }

  /** The sleeps that follow the first `n` failed attempts: 1, 2, 4, ... seconds. */
  function Backoff(n: nat): (r: seq<nat>)
    ensures |r| == n
    ensures forall k :: 0 <= k < n ==> r[k] == Pow2(k)
  {
    if n == 0 then [] else Backoff(n - 1) + [Pow2(n - 1)]
  }

  /** The first attempt at or after `k`, and before `limit`, that got a reply. */
  function FirstReply(outcomes: seq<Attempt>, limit: int, k: nat): (r: Option<nat>)
    ensures r.Some? ==> k <= r.value < limit && AttemptAt(outcomes, r.value).Replied?
    ensures r.Some? ==> forall j :: k <= j < r.value ==> AttemptAt(outcomes, j).Failed?
    ensures r.None? ==> forall j :: k <= j < limit ==> AttemptAt(outcomes, j).Failed?
    decreases limit - k
  {
    if limit <= k then None
    else if AttemptAt(outcomes, k).Replied? then Some(k)
    else FirstReply(outcomes, limit, k + 1)
  }

  /** One call of `model_response`: the reply it returns (`None` after exhausting its attempts),
      the sleeps it made, and how many attempts it made. */
  datatype RetryRun = RetryRun(reply: Option<string>, delays: seq<nat>, attempts: nat)

  /** `model_response(model, message, maxRetries)` as a reference definition: the first reply
      within `maxRetries` attempts, preceded by one backoff sleep per failed attempt except after
      the last allowed attempt. */
  function Retry(outcomes: seq<Attempt>, maxRetries: int): (r: RetryRun)
    ensures r.attempts <= if maxRetries > 0 then maxRetries else 0
    ensures r.reply.Some? <==> exists k :: 0 <= k < maxRetries && AttemptAt(outcomes, k).Replied?
    ensures r.reply.Some? ==>
      && r.attempts >= 1
      && AttemptAt(outcomes, r.attempts - 1) == Replied(r.reply.value)
      && forall j :: 0 <= j < r.attempts - 1 ==> AttemptAt(outcomes, j).Failed?
    ensures r.reply.None? ==> r.attempts == if maxRetries > 0 then maxRetries else 0
    ensures |r.delays| == if r.attempts > 0 then r.attempts - 1 else 0
    ensures forall k :: 0 <= k < |r.delays| ==> r.delays[k] == Pow2(k)
  {
    match FirstReply(outcomes, maxRetries, 0)
    case Some(k) => RetryRun(Some(AttemptAt(outcomes, k).content), Backoff(k), k + 1)
    case None =>
      if maxRetries > 0 then RetryRun(None, Backoff(maxRetries - 1), maxRetries)
      else RetryRun(None, [], 0)
  }

  /** Every attempt before `limit` failed. */
  predicate AllFailed(outcomes: seq<Attempt>, limit: int) {
    forall k :: 0 <= k < limit ==> AttemptAt(outcomes, k).Failed?
  }

  /** Some attempt before `limit` got the reply `c`, and every attempt before it failed. */
  predicate FirstRepliedWith(outcomes: seq<Attempt>, limit: int, c: string) {
    exists k :: 0 <= k < limit && AttemptAt(outcomes, k) == Replied(c) && AllFailed(outcomes, k)
  }

  /** `model_response` as the loop it is written as, with the sleeps collected instead of slept. */
  method ModelResponse(outcomes: seq<Attempt>, maxRetries: int) returns (reply: Option<string>, delays: seq<nat>)
    ensures reply == Retry(outcomes, maxRetries).reply
    ensures delays == Retry(outcomes, maxRetries).delays
  {
    reply := None;
    delays := [];
    var attempt: nat := 0;
    while attempt < maxRetries
      invariant attempt == 0 || attempt < maxRetries
      invariant delays == Backoff(attempt)
      invariant forall j :: 0 <= j < attempt ==> AttemptAt(outcomes, j).Failed?
      decreases maxRetries - attempt
    {
      match AttemptAt(outcomes, attempt)
      case Replied(content) =>
        assert FirstReply(outcomes, maxRetries, 0) == Some(attempt);
        reply := Some(content);
        return;
      case Failed =>
        if attempt < maxRetries - 1 {
          delays := delays + [Pow2(attempt)];
        } else {
          assert FirstReply(outcomes, maxRetries, 0).None?;
          return;
        }
      attempt := attempt + 1;
    }
  }

  /** The backoff never shrinks: each sleep is at least as long as every earlier one. */
  lemma {:induction false} Pow2Monotone(i: nat, j: nat)
    requires i <= j
    ensures Pow2(i) <= Pow2(j)
    decreases j - i
  {
    if i < j {
      Pow2Monotone(i, j - 1);
    }
  }

  lemma BackoffNonDecreasing(outcomes: seq<Attempt>, maxRetries: int)
    ensures var d := Retry(outcomes, maxRetries).delays;
      forall i, j :: 0 <= i <= j < |d| ==> d[i] <= d[j]
  {
    var d := Retry(outcomes, maxRetries).delays;
    forall i, j | 0 <= i <= j < |d|
      ensures d[i] <= d[j]
    {
      Pow2Monotone(i, j);
    }
  }

  /** Two failures and then a reply, with the default three attempts: the reply is returned
      after sleeping 1 and then 2 seconds. */
  lemma FailTwiceThenReply(c: string)
    ensures Retry([Failed, Failed, Replied(c)], DefaultRetries) == RetryRun(Some(c), [1, 2], 3)
  {
    assert FirstReply([Failed, Failed, Replied(c)], DefaultRetries, 0) == Some(2);
  }

  /** Three failures with the default three attempts: no reply, and no sleep after the last one. */
  lemma ThreeFailures()
    ensures Retry([Failed, Failed, Failed], DefaultRetries) == RetryRun(None, [1, 2], 3)
  {
    assert Backoff(2) == [1, 2];
  }

  /** What `ollama.chat(..., stream=True)` produced: the chunks delivered in order, and whether the
      stream raised before finishing. */
  datatype Stream = Stream(chunks: seq<string>, aborted: bool)

  function Concat(chunks: seq<string>): string {
    if chunks == [] then [] else Concat(chunks[..|chunks| - 1]) + chunks[|chunks| - 1]
  }

  /** `streaming_model_response`: appends each chunk to the answer as it arrives; a failure at any
      point throws the partial answer away and returns the empty string. */
  method StreamingResponse(stream: Stream) returns (answer: string)
    ensures answer == StreamedAnswer(stream)
    ensures !stream.aborted ==> |answer| == TotalLength(stream.chunks)
  {
    if stream.aborted {
      return "";
    }
    answer := "";
    var i := 0;
    while i < |stream.chunks|
      invariant i <= |stream.chunks|
      invariant answer == Concat(stream.chunks[..i])
      invariant |answer| == TotalLength(stream.chunks[..i])
    {
      assert stream.chunks[..i + 1][..i] == stream.chunks[..i];
      answer := answer + stream.chunks[i];
      i := i + 1;
    }
    assert stream.chunks[..i] == stream.chunks;
  }

  function TotalLength(chunks: seq<string>): nat {
    if chunks == [] then 0 else TotalLength(chunks[..|chunks| - 1]) + |chunks[|chunks| - 1]|
  }

  /** The answer text `streaming_model_response` returns, as a function: nothing when the stream
      failed, otherwise every character of every chunk. */
  function StreamedAnswer(stream: Stream): (r: string)
    ensures stream.aborted ==> r == ""
    ensures !stream.aborted ==> |r| == TotalLength(stream.chunks)
  {
    if stream.aborted then "" else ConcatLength(stream.chunks); Concat(stream.chunks)
  }

  /** The joined chunks are as long as the chunks together. */
  lemma {:induction false} ConcatLength(chunks: seq<string>)
    ensures |Concat(chunks)| == TotalLength(chunks)
  {
    if chunks != [] {
      ConcatLength(chunks[..|chunks| - 1]);
    }
  }

  /** Streaming preserves the chunk order: the answer of a stream split in two is the first part's
      answer followed by the second's. */
  lemma {:induction false} ConcatAppend(a: seq<string>, b: seq<string>)
    ensures Concat(a + b) == Concat(a) + Concat(b)
    decreases |b|
  {
    if b == [] {
      assert a + b == a;
    } else {
      var b' := b[..|b| - 1];
      var last := b[|b| - 1];
      assert (a + b)[..|a + b| - 1] == a + b';
      assert (a + b)[|a + b| - 1] == last;
      ConcatAppend(a, b');
      assert Concat(a + b) == Concat(a) + Concat(b') + last;
      assert Concat(b) == Concat(b') + last;
    }
  }
}
