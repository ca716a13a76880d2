/**
 * The embedding validator (`validate_embedding` in app.py): three checks,
 * applied in a fixed order, the first failing one deciding the answer.
 */
module Embedding {
  import opened Wrappers
  import opened JsonValue

  /** Output dimension of text-embedding-ada-002. */
  const EMBEDDING_DIMENSION: nat := 1536

  /** One constructor per answer the validator can give. */
  datatype Verdict = Accepted | NotAList | WrongDimension | NonNumeric

  /**
   * Python's `isinstance(x, (int, float))`. `bool` is a subclass of `int`,
   * so JSON `true` and `false` count as numbers.
   */
  predicate IsNumber(x: Json)
  {
    x.JInt? || x.JFloat? || x.JBool?
  }

  /** The `all(...)` scan over the elements, stopping at the first non-number. */
  function AllNumbers(xs: seq<Json>): (r: bool)
    ensures r <==> forall i :: 0 <= i < |xs| ==> IsNumber(xs[i])
  {
    if xs == [] then true
    else if !IsNumber(xs[0]) then false
    else AllNumbers(xs[1..])
  }

  function Validate(e: Json): (r: Verdict)
    // first: the value must be a list, whatever it holds
    ensures !e.JList? <==> r == NotAList
    // second: a list of the wrong length is refused, whatever its elements
    ensures e.JList? && |e.items| != EMBEDDING_DIMENSION <==> r == WrongDimension
    // third: a list of the right length passes exactly when every element is a number
    ensures r == Accepted <==>
              e.JList? && |e.items| == EMBEDDING_DIMENSION &&
              forall i :: 0 <= i < |e.items| ==> IsNumber(e.items[i])
    ensures r == NonNumeric <==>
              e.JList? && |e.items| == EMBEDDING_DIMENSION &&
              exists i :: 0 <= i < |e.items| && !IsNumber(e.items[i])
  {
    if !e.JList? then NotAList
    else if |e.items| != EMBEDDING_DIMENSION then WrongDimension
    else if !AllNumbers(e.items) then NonNumeric
    else Accepted
  }

  /**
   * The `(is_valid, error_message)` pair the validator returns: `(True, None)`
   * on acceptance, otherwise `False` with one message per failed check.
   */
  function Report(v: Verdict): (r: (bool, Option<string>))
    ensures r.0 <==> v == Accepted
    ensures r.1.None? <==> r.0
  {
    match v
    case Accepted => (true, None)
    case NotAList => (false, Some(NotAListMessage))
    case WrongDimension => (false, Some(WrongDimensionMessage))
    case NonNumeric => (false, Some(NonNumericMessage))
  }

  /**
   * `validate_embedding` as the caller sees it: `(True, None)` exactly for a
   * list of 1536 numbers, otherwise `False` with the first failed check's message.
   */
  function ValidateEmbedding(e: Json): (r: (bool, Option<string>))
    ensures r.0 <==> e.JList? && |e.items| == EMBEDDING_DIMENSION &&
                     forall i :: 0 <= i < |e.items| ==> IsNumber(e.items[i])
    ensures r.1.None? <==> r.0
    ensures !e.JList? ==> r.1 == Some(NotAListMessage)
    ensures e.JList? && |e.items| != EMBEDDING_DIMENSION ==> r.1 == Some(WrongDimensionMessage)
    ensures (e.JList? && |e.items| == EMBEDDING_DIMENSION &&
             exists i :: 0 <= i < |e.items| && !IsNumber(e.items[i])) ==> r.1 == Some(NonNumericMessage)
  {
    Report(Validate(e))
  }

  /** Each failed check has its own message, so a caller can tell them apart. */
  lemma MessagesDistinct(v: Verdict, w: Verdict)
    requires v != w
    ensures Report(v).1 != Report(w).1
  {
  }

  const NotAListMessage := "query_embedding must be a list of numbers"
  /** The f-string of the dimension check, with EMBEDDING_DIMENSION written out. */
  const WrongDimensionMessage := "query_embedding must have exactly 1536 dimensions (text-embedding-ada-002 format)"
  const NonNumericMessage := "query_embedding must contain only numbers"
}
