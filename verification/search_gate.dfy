/**
 * The `/search` endpoint of app.py, without its HTTP framing: the ordered
 * checks on the request body, then the context assembler.
 */
module SearchGate {
  import opened Wrappers
  import opened JsonValue
  import Embedding
  import RagContext

  /** The relevance threshold the endpoint passes to the assembler. */
  const SCORE_THRESHOLD: real := 0.81

  /** `top_k` when the body does not give one. */
  const DEFAULT_TOP_K: nat := 2

  /** Why a request is refused before the index is queried (a 400 answer). */
  datatype Rejection = MissingEmbedding | InvalidEmbedding(reason: Embedding.Verdict) | InvalidTopK

  /** The outcome of the checks: a refusal, or the values the query is issued with. */
  datatype Gate = Reject(why: Rejection) | Proceed(embedding: seq<Json>, topK: nat)

  /** What the endpoint answers: a refusal (400), a raised error (500), or the context (200). */
  datatype Reply = BadRequest(why: Rejection, details: string) | InternalError(cause: RagContext.Error) | Found(context: string)

  /**
   * `data.get('top_k', 2)` followed by `isinstance(top_k, int) and top_k >= 1`.
   * `bool` is a subclass of `int` and `True == 1`, so `true` is accepted as 1
   * and `false` refused as 0; a JSON float such as `2.0` is refused.
   */
  function TopK(body: map<string, Json>): (r: Option<nat>)
    ensures "top_k" !in body ==> r == Some(DEFAULT_TOP_K)
    ensures r.Some? ==> r.value >= 1
    ensures "top_k" in body && body["top_k"].JInt? ==>
              (r.Some? <==> body["top_k"].i >= 1) && (r.Some? ==> r.value == body["top_k"].i)
    ensures "top_k" in body && body["top_k"].JBool? ==> r == (if body["top_k"].b then Some(1) else None)
    ensures "top_k" in body && !body["top_k"].JInt? && !body["top_k"].JBool? ==> r.None?
  {
    if "top_k" !in body then Some(DEFAULT_TOP_K)
    else
      match body["top_k"]
      case JInt(i) => if i >= 1 then Some(i) else None
      case JBool(b) => if b then Some(1) else None
      case _ => None
  }

  /**
   * The checks of `search`, in order: the embedding is present, the embedding
   * is valid, then `top_k` is a positive integer. The first failing check
   * decides the refusal.
   */
  function CheckRequest(body: map<string, Json>): (g: Gate)
    ensures "query_embedding" !in body ==> g == Reject(MissingEmbedding)
    ensures "query_embedding" in body && Embedding.Validate(body["query_embedding"]) != Embedding.Accepted ==>
              g == Reject(InvalidEmbedding(Embedding.Validate(body["query_embedding"])))
    ensures ("query_embedding" in body && Embedding.Validate(body["query_embedding"]) == Embedding.Accepted &&
             TopK(body).None?) ==> g == Reject(InvalidTopK)
    ensures g.Proceed? <==>
              "query_embedding" in body && Embedding.Validate(body["query_embedding"]) == Embedding.Accepted &&
              TopK(body).Some?
    // a request that passes carries a list of 1536 numbers and a positive count
    ensures g.Proceed? ==>
              g.embedding == body["query_embedding"].items &&
              |g.embedding| == Embedding.EMBEDDING_DIMENSION &&
              (forall i :: 0 <= i < |g.embedding| ==> Embedding.IsNumber(g.embedding[i])) &&
              g.topK >= 1
    // and the count it carries is the request's own `top_k`, or 2 when absent
    ensures g.Proceed? ==> g.topK == TopK(body).value
  {
    if "query_embedding" !in body then Reject(MissingEmbedding)
    else
      var verdict := Embedding.Validate(body["query_embedding"]);
      if verdict != Embedding.Accepted then Reject(InvalidEmbedding(verdict))
      else
        match TopK(body)
        case None => Reject(InvalidTopK)
        case Some(k) => Proceed(body["query_embedding"].items, k)
  }

  /**
   * The `details` text of a 400 answer; for an invalid embedding it is the
   * validator's own message.
   */
  function Details(why: Rejection): (d: string)
    requires why.InvalidEmbedding? ==> why.reason != Embedding.Accepted
    ensures why.InvalidEmbedding? ==> Some(d) == Embedding.Report(why.reason).1
    ensures why == MissingEmbedding ==> d == "Must provide an embedding from text-embedding-ada-002 model"
    ensures why == InvalidTopK ==> d == "top_k must be a positive integer"
  {
    match why
    case MissingEmbedding => "Must provide an embedding from text-embedding-ada-002 model"
    case InvalidEmbedding(v) => Embedding.Report(v).1.value
    case InvalidTopK => "top_k must be a positive integer"
  }

  /**
   * The endpoint: the checks, then one query of the index (a parameter here)
   * and the assembler. A refused request never reaches the assembler, and an
   * error raised while assembling becomes the 500 answer.
   */
  method Search(body: map<string, Json>, query: (seq<Json>, nat) -> seq<RagContext.Match>, codec: RagContext.Codec)
    returns (reply: Reply)
    ensures CheckRequest(body).Reject? ==>
              reply == BadRequest(CheckRequest(body).why, Details(CheckRequest(body).why))
    ensures CheckRequest(body).Proceed? ==>
              var g := CheckRequest(body);
              match RagContext.Assembled(query(g.embedding, g.topK), SCORE_THRESHOLD, codec)
              case Failure(e) => reply == InternalError(e)
              case Success(s) => reply == Found(s)
    ensures reply.BadRequest? <==> CheckRequest(body).Reject?
  {
    var gate := CheckRequest(body);
    if gate.Reject? {
      return BadRequest(gate.why, Details(gate.why));
    }
    var matches := query(gate.embedding, gate.topK);
    var context := RagContext.GetRagContext(matches, SCORE_THRESHOLD, codec);
    match context
    case Failure(e) => reply := InternalError(e);
    case Success(s) => reply := Found(s);
  }
}
