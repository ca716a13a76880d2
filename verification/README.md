# EDS context provider — verified model

A Dafny model of the retrieval core of the zebra-Llama EDS context API
(`app.py`): the embedding validator (`validate_embedding`), the context
assembler (`get_rag_context`) and the ordered request checks of the
`/search` endpoint.

- `wrappers.dfy` — `Option` and `Result`.
- `json_value.dfy` — `Json`, the tagged variant for decoded request values and
  match metadata (`JNull`, `JBool`, `JInt`, `JFloat`, `JStr`, `JList`, `JObj`).
- `embedding.dfy` — module `Embedding`: the three checks of the validator in
  their short-circuit order, the `(is_valid, error_message)` pair with the
  source's exact messages, and `EMBEDDING_DIMENSION = 1536`.
- `rag_context.dfy` — module `RagContext`: one index match is a score (a
  `real`) and a metadata map. The primary/fallback extraction is the function
  `Extract`, the whole call is specified by the function `Assembled`, and the
  method `GetRagContext` is the source's loop, proved equal to `Assembled`
  with invariants over the prefix of matches processed so far. Lemmas state
  filtering, ordering, the sentinel, failure propagation and that metadata
  below the threshold is never read.
- `search_gate.dfy` — module `SearchGate`: the checks of `search` as the pure
  function `CheckRequest`, and the method `Search` that runs them, queries the
  index and calls the assembler.

The index query and `json.loads` are parameters: the assembler starts from the
sequence of matches the index returned, and `Codec.loads` stands for
`json.loads` (`None` where it raises). `Codec.show` stands for Python's `str()`
on a metadata value that is not a string; strings are inserted unchanged.

Behaviour of the code that the model keeps:

- A kept match with no `c_document_id`, or with no text on either path, raises
  `KeyError` out of the `except` branch (app.py:31-32). The whole call fails
  and `search` answers 500 (app.py:188-192). No default is substituted.
- The validator's answer carries no offending index and no actual length. It
  is one of three fixed messages (app.py:44-50).
- JSON `true`/`false` pass the numeric element check, since `bool` is a
  subclass of `int` (app.py:49). For the same reason `top_k: true` is accepted
  and `top_k: false` is refused (app.py:171). The model passes the query 1
  where the source passes `True`; the query is a parameter, so this difference
  is lost at its boundary.
- `Assembled` is a function, so equal inputs give equal contexts.

## Model

| member | source | states |
|---|---|---|
| `Embedding.AllNumbers` | app.py:49 | the element scan is true exactly when every element is an int, float or bool |
| `Embedding.Validate` | app.py:41-50 | a non-list is refused as not a list, whatever it holds; a list of length other than 1536 is refused for its dimension, whatever its elements; a 1536-element list is accepted exactly when every element is a number, and otherwise refused as non-numeric |
| `Embedding.Report` | app.py:43-52 | the pair is `(True, None)` exactly on acceptance; every refusal is `False` with a message |
| `Embedding.ValidateEmbedding` | app.py:41-52 | the pair is `(True, None)` exactly for a list of 1536 numbers; a non-list gets the "must be a list" message, a list of the wrong length the dimension message, and a 1536-element list holding a non-number the "only numbers" message |
| `Embedding.MessagesDistinct` | app.py:44-50 | the three refusal messages differ from each other |
| `RagContext.Render` | app.py:34 | a string value is inserted into the block unchanged |
| `RagContext.PrimaryText` | app.py:28 | the primary text exists exactly when `_node_content` is a string that decodes to an object whose `metadata` is an object holding `text`, and it is that `text` |
| `RagContext.Extract` | app.py:27-32 | extraction succeeds exactly when `c_document_id` is present and there is text on the primary or the flat path; provenance is always `c_document_id`; the primary text wins when it exists; a failure reports the missing `text` before a missing `c_document_id` |
| `RagContext.Block` | app.py:34 | every block is non-empty and ends with a newline |
| `RagContext.Kept` | app.py:25-26 | a match is kept exactly when its score is strictly above the threshold; never more matches than given |
| `RagContext.KeptAppend` | app.py:25-26 | filtering keeps the index's order: filtering a concatenation concatenates the filtered parts |
| `RagContext.ExtractAllSpec` | app.py:25-32 | extraction over the kept matches succeeds exactly when each one extracts, yielding one passage per match in order; otherwise the error is the first failing match's |
| `RagContext.BlocksEndWithNewline` | app.py:34 | a non-empty run of blocks ends with a newline |
| `RagContext.GetRagContext` | app.py:17-39 | the loop returns exactly `Assembled`: the blocks of the kept matches in order, the sentinel when there are none, or the first extraction error with no partial context |
| `RagContext.SentinelExactlyWhenNothingKept` | app.py:36-39 | the sentinel is returned exactly when every score is at or below the threshold; any other context ends with a newline and so differs from the sentinel |
| `RagContext.NothingKeptGivesSentinel` | app.py:36-39 | when no score is strictly above the threshold the call succeeds with the sentinel |
| `RagContext.OneBlockPerKeptMatch` | app.py:25-34 | when something clears the threshold, the context is one block per kept match, in order, each from that match's extraction |
| `RagContext.FailsOnBadKeptMatch` | app.py:29-32 | the call fails exactly when some match above the threshold lacks provenance or text on both paths; the error is that of the first such kept match |
| `RagContext.BelowThresholdNotRead` | app.py:26 | the metadata of matches at or below the threshold does not affect the result |
| `RagContext.DroppingBelowThreshold` | app.py:25-26 | removing a match at or below the threshold from anywhere in the sequence changes nothing |
| `RagContext.ScenarioFallbackSingleBlock` | app.py:25-34 | scores 0.95 and 0.70 against 0.81: one block, built from the flat `text` of the first match because it has no `_node_content` |
| `SearchGate.TopK` | app.py:170-171 | an absent `top_k` is 2; an integer is accepted exactly when it is at least 1; `true` is 1, `false` and every non-integer are refused |
| `SearchGate.CheckRequest` | app.py:154-175 | a missing embedding is refused first, then an invalid one with the validator's reason, then a bad `top_k`; a request passes exactly when all three hold, carrying the 1536 numbers and the requested `top_k` (2 when absent) |
| `SearchGate.Details` | app.py:155-175 | the `details` of a 400 answer: for a missing embedding "Must provide an embedding from text-embedding-ada-002 model", for an invalid embedding the validator's own message, for a bad `top_k` "top_k must be a positive integer" |
| `SearchGate.Search` | app.py:148-192 | a refused request gets the 400 refusal with its details; otherwise the reply is the assembled context of the query's matches at threshold 0.81, or the 500 error it raised |

## Left out

- Flask routing, `jsonify`, the HTTP status framing and the documentation served by `home` (app.py:54-145). `Search` returns a `Reply` value in their place.
- Building the Pinecone client from environment variables and the `query` network call (app.py:14-15, app.py:18-22). The query is a total function parameter, so a failing query call (which `search` turns into a 500 answer) is not modelled.
- The internals of `json.loads` (app.py:28). It is the abstract `Codec.loads`.
- Python's `str()` of metadata values that are not strings. It is the abstract `Codec.show`.
- Floating-point scores. Scores and the threshold are `real`, compared with `>` only.
- Request bodies that are not a JSON object, and bodies that fail to parse (app.py:151, app.py:183-187). `Search` takes the decoded object as a map.
- A match whose `metadata` is absent or not a mapping. Metadata is always a map here. In the source such a kept match raises `KeyError('metadata')` or `TypeError`; an empty map in the model also fails, with a different error (`KeyMissing("text")`).
- The development-server entry point (app.py:194-196).
