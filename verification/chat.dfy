/** The `/chat` request handler of app.py: the empty-message guard, top-K
    selection over the similarity scores, answer extraction and the citation
    list. The two outbound services and the similarity computation are
    inputs: the model is told what they answer and records which of them
    the handler called. */
module ChatPipeline {
  import opened Results
  import opened Text
  import opened Ranking
  import opened Answer
  import opened Sources

  /** How many corpus rows are handed to the generator and cited. */
  const TOP_K: nat := 6

  /** An outbound call made while handling one request. */
  datatype Call =
    | EmbedCall(input: seq<string>)
      // `create_embedding(input)`
    | GenerateCall(matches: seq<Match>, question: string)
      // `inference(prompt)`, the prompt built from these matches and this question

  datatype Body =
    | ErrorBody(error: string)
    | AnswerBody(answer: Value, sources: seq<SourceEntry>)

  /** The HTTP status code and JSON body of the reply. */
  datatype Reply = Reply(status: nat, body: Body)

  /** The reply together with the outbound calls made to produce it, in order. */
  datatype Exchange = Exchange(reply: Reply, calls: seq<Call>)

  /** What the outside world does when asked, for one request. */
  datatype Upstream = Upstream(
    embedding: Result<()>,
      // `create_embedding([message])[0]` yields a vector, or raises
    similarity: Result<seq<real>>,
      // the cosine similarity of every corpus row with that vector, or the error raised
    generation: Result<Value>)
      // the JSON the generator returns, or the error `inference` raises

  /** `payload.get("message", "").strip()`: a missing message reads as empty. */
  function Message(payload: Option<string>): (m: string)
    ensures m == [] <==> AllSpace(payload.GetOr(""), IsPySpace)
  {
    Strip(payload.GetOr(""), IsPySpace)
  }

  /** The positions in the corpus of a list of matches. */
  function IndexList(ms: seq<Match>): (idx: seq<nat>)
    ensures |idx| == |ms| && forall j :: 0 <= j < |ms| ==> idx[j] == ms[j].index
  {
    if ms == [] then [] else [ms[0].index] + IndexList(ms[1..])
  }

  /** `df.iloc[top_idx]` with `score = sims[top_idx]`: the `k` best rows, best
      first, each with its own score. */
  function SelectMatches(corpus: seq<Chunk>, sims: seq<real>, k: nat): (ms: seq<Match>)
    requires |sims| == |corpus|
    ensures |ms| == Min(k, |corpus|)
    ensures IsTopK(sims, k, IndexList(ms))
    ensures forall j :: 0 <= j < |ms| ==>
              ms[j].index < |corpus| && ms[j].chunk == corpus[ms[j].index] && ms[j].score == sims[ms[j].index]
  {
    var idx := TopK(sims, k);
    var ms := seq(|idx|, j requires 0 <= j < |idx| => Match(idx[j], corpus[idx[j]], sims[idx[j]]));
    assert IndexList(ms) == idx;
    ms
  }

  /** The handler. `render` is Python's `str()` on the generator's reply and
      `base` the configured video URL base. */
  function Chat(payload: Option<string>, corpus: seq<Chunk>, up: Upstream,
                render: Value -> string, base: string): (x: Exchange)
    requires up.similarity.Ok? ==> |up.similarity.value| == |corpus|
    // An all-whitespace message is refused before any outbound call, and only it is.
    ensures Message(payload) == [] <==> x.calls == []
    ensures Message(payload) == [] <==> x.reply == Reply(400, ErrorBody("Empty message"))
    // Otherwise the embedding service is asked first, for exactly the stripped message.
    ensures x.calls != [] ==> x.calls[0] == EmbedCall([Message(payload)])
    // The generator is asked at most once, and only after embedding and similarity succeeded.
    ensures |x.calls| <= 2
    ensures |x.calls| == 2 ==> up.embedding.Ok? && up.similarity.Ok? && x.calls[1].GenerateCall?
    // Each upstream failure is reported with its own message and status 500.
    ensures Message(payload) != [] && up.embedding.Err? ==>
              x.reply == Reply(500, ErrorBody("Embedding failed: " + up.embedding.msg)) && |x.calls| == 1
    ensures Message(payload) != [] && up.embedding.Ok? && up.similarity.Err? ==>
              x.reply == Reply(500, ErrorBody("Similarity computation failed: " + up.similarity.msg))
              && |x.calls| == 1
    ensures Message(payload) != [] && up.embedding.Ok? && up.similarity.Ok? && up.generation.Err? ==>
              x.reply == Reply(500, ErrorBody("Inference failed: " + up.generation.msg))
    // Success exactly when the message is not blank and every upstream step succeeded.
    ensures x.reply.status == 200 <==>
              Message(payload) != [] && up.embedding.Ok? && up.similarity.Ok? && up.generation.Ok?
    ensures x.reply.status == 200 ==>
              x.reply.body.AnswerBody? && |x.reply.body.sources| == Min(TOP_K, |corpus|)
    ensures x.reply.status in {200, 400, 500}
  {
    var message := Message(payload);
    if message == [] then
      Exchange(Reply(400, ErrorBody("Empty message")), [])
    else
      var embedded := [EmbedCall([message])];
      match up.embedding
      case Err(e) => Exchange(Reply(500, ErrorBody("Embedding failed: " + e)), embedded)
      case Ok(_) =>
        match up.similarity
        case Err(e) => Exchange(Reply(500, ErrorBody("Similarity computation failed: " + e)), embedded)
        case Ok(sims) => Respond(message, corpus, sims, up.generation, render, base)
  }

  /** The handler once the similarities are known: rank, call the generator,
      and reply with its answer and the citations. */
  function Respond(message: string, corpus: seq<Chunk>, sims: seq<real>, generation: Result<Value>,
                   render: Value -> string, base: string): (x: Exchange)
    requires |sims| == |corpus|
    ensures var matches := SelectMatches(corpus, sims, TOP_K);
      x.calls == [EmbedCall([message]), GenerateCall(matches, message)]
    ensures generation.Err? ==> x.reply == Reply(500, ErrorBody("Inference failed: " + generation.msg))
    ensures generation.Ok? ==> x.reply.status == 200 && x.reply.body.AnswerBody?
    ensures generation.Ok? ==> x.reply.body.answer == ExtractAnswer(generation.value, render)
    ensures generation.Ok? ==>
              x.reply.body.sources == SourcesOf(SelectMatches(corpus, sims, TOP_K), base)
  {
    var matches := SelectMatches(corpus, sims, TOP_K);
    var called := [EmbedCall([message]), GenerateCall(matches, message)];
    match generation
    case Err(e) => Exchange(Reply(500, ErrorBody("Inference failed: " + e)), called)
    case Ok(resp) =>
      Exchange(Reply(200, AnswerBody(ExtractAnswer(resp, render), SourcesOf(matches, base))), called)
  }

  /** When every step succeeds (the status-200 case of `Chat`), the reply
      cites exactly the matches the generator was shown, in order: the
      `TOP_K` best-scoring rows; and its answer is the one extracted from
      the generator's reply. */
  lemma ChatSuccess(payload: Option<string>, corpus: seq<Chunk>, up: Upstream,
                    render: Value -> string, base: string)
    requires up.similarity.Ok? ==> |up.similarity.value| == |corpus|
    requires Message(payload) != [] && up.embedding.Ok? && up.similarity.Ok? && up.generation.Ok?
    ensures var x := Chat(payload, corpus, up, render, base);
      && |x.calls| == 2 && x.calls[1].GenerateCall?
      && var ms := x.calls[1].matches;
      && x.calls[1].question == Message(payload)
      && IsTopK(up.similarity.value, TOP_K, IndexList(ms))
      && x.reply.body.answer == ExtractAnswer(up.generation.value, render)
      && |x.reply.body.sources| == |ms|
      && forall j :: 0 <= j < |ms| ==>
           && ms[j].chunk == corpus[ms[j].index]
           && x.reply.body.sources[j] == SourceOf(ms[j], base)
  {
  }

  /** A message of blanks is refused with no outbound call. */
  lemma BlankMessageRefused(corpus: seq<Chunk>, up: Upstream, render: Value -> string, base: string)
    requires up.similarity.Ok? ==> |up.similarity.value| == |corpus|
    ensures Chat(Some("   "), corpus, up, render, base) == Exchange(Reply(400, ErrorBody("Empty message")), [])
  {
  }

  /** When no two rows tie, the top-K answer is unique. */
  lemma {:induction false} TopKUniqueWithoutTies(sims: seq<real>, k: nat, a: seq<nat>, b: seq<nat>)
    requires forall i, j :: 0 <= i < |sims| && 0 <= j < |sims| && sims[i] == sims[j] ==> i == j
    requires IsTopK(sims, k, a) && IsTopK(sims, k, b)
    ensures a == b
  {
    TopKScoresUnique(sims, k, a, b);
  }

  /** Three rows scored 1.0, 0.0 and 0.994 against the query: the two best are
      the first and the third, in that order, however ties are broken. */
  lemma TwoBestOfThree(idx: seq<nat>)
    requires IsTopK([1.0, 0.0, 0.994], 2, idx)
    ensures idx == [0, 2]
  {
    var sims := [1.0, 0.0, 0.994];
    assert IsTopK(sims, 2, [0, 2]);
    TopKUniqueWithoutTies(sims, 2, idx, [0, 2]);
  }
}
