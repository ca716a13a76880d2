/**
 * The context assembler (`get_rag_context` in app.py). The index query is
 * outside the model: the assembler starts from the sequence of matches the
 * index returned, each a score and a metadata mapping.
 */
module RagContext {
  import opened Wrappers
  import opened JsonValue

  /** Returned when no match clears the threshold. */
  const Sentinel := "Context not related to EDS"

  /** One match of a similarity query. */
  datatype Match = Match(score: real, metadata: map<string, Json>)

  /**
   * The collaborators the assembler calls but that are not part of the model:
   * `json.loads` (`None` when it raises) and Python's `str()` applied by the
   * f-string to a metadata value that is not already a string.
   */
  datatype Codec = Codec(loads: string -> Option<Json>, show: Json -> string)

  /** The passage text and provenance read from one match. */
  datatype Passage = Passage(text: Json, provenance: Json)

  /** The `KeyError` that escapes the fallback path, naming the missing key. */
  datatype Error = KeyMissing(key: string)

  /** How the f-string renders a value: a string is inserted as it is. */
  function Render(v: Json, c: Codec): (s: string)
    ensures v.JStr? ==> s == v.s
  {
    if v.JStr? then v.s else c.show(v)
  }

  /**
   * The primary path: `json.loads(metadata["_node_content"])["metadata"]["text"]`.
   * Every way it can raise (key absent, not a string, undecodable, not an
   * object at either level) is caught by the `except`, so it yields `None`.
   */
  function PrimaryText(md: map<string, Json>, c: Codec): (r: Option<Json>)
    ensures r.Some? <==>
              "_node_content" in md && md["_node_content"].JStr? &&
              c.loads(md["_node_content"].s).Some? &&
              c.loads(md["_node_content"].s).value.JObj? &&
              "metadata" in c.loads(md["_node_content"].s).value.fields &&
              c.loads(md["_node_content"].s).value.fields["metadata"].JObj? &&
              "text" in c.loads(md["_node_content"].s).value.fields["metadata"].fields
    ensures r.Some? ==> r.value == c.loads(md["_node_content"].s).value.fields["metadata"].fields["text"]
  {
    if "_node_content" !in md || !md["_node_content"].JStr? then None
    else
      match c.loads(md["_node_content"].s)
      case Some(JObj(outer)) =>
        if "metadata" in outer && outer["metadata"].JObj? && "text" in outer["metadata"].fields
        then Some(outer["metadata"].fields["text"])
        else None
      case _ => None
  }

  /**
   * The try/except of one kept match. The primary text is used only when the
   * provenance lookup that follows it also succeeds; otherwise the flat
   * `text` is read, then the provenance again, and a missing key there raises.
   */
  function Extract(md: map<string, Json>, c: Codec): (r: Result<Passage, Error>)
    // the call fails exactly when there is no provenance, or no text on either path
    ensures r.Success? <==> "c_document_id" in md && (PrimaryText(md, c).Some? || "text" in md)
    // provenance is read from the same key on both paths
    ensures r.Success? ==> r.value.provenance == md["c_document_id"]
    // the primary text wins whenever it exists; the flat text is the fallback
    ensures r.Success? && PrimaryText(md, c).Some? ==> r.value.text == PrimaryText(md, c).value
    ensures r.Success? && PrimaryText(md, c).None? ==> r.value.text == md["text"]
    // the fallback reads `text` before `c_document_id`, so a missing text is reported first
    ensures r.Failure? ==> r.error == KeyMissing(if "text" !in md then "text" else "c_document_id")
  {
    var primary := PrimaryText(md, c);
    if primary.Some? && "c_document_id" in md then Success(Passage(primary.value, md["c_document_id"]))
    else if "text" !in md then Failure(KeyMissing("text"))
      else if "c_document_id" !in md then Failure(KeyMissing("c_document_id"))
      else Success(Passage(md["text"], md["c_document_id"]))
  }

  /** The text appended for one kept match: `{text}(Ref: {provenance}.)\n`. */
  function Block(p: Passage, c: Codec): (s: string)
    ensures |s| > 0 && s[|s| - 1] == '\n'
  {
    Render(p.text, c) + "(Ref: " + Render(p.provenance, c) + ".)\n"
  }

  /** The matches whose score is strictly above the threshold, in the order given. */
  function Kept(ms: seq<Match>, t: real): (r: seq<Match>)
    ensures |r| <= |ms|
    ensures forall m :: m in r <==> m in ms && m.score > t
  {
    if ms == [] then []
    else (if ms[0].score > t then [ms[0]] else []) + Kept(ms[1..], t)
  }

  /** Extraction over a run of kept matches, stopping at the first that raises. */
  function ExtractAll(ms: seq<Match>, c: Codec): Result<seq<Passage>, Error>
  {
    if ms == [] then Success([])
    else
      match Extract(ms[0].metadata, c)
      case Failure(e) => Failure(e)
      case Success(p) =>
        match ExtractAll(ms[1..], c)
        case Failure(e) => Failure(e)
        case Success(ps) => Success([p] + ps)
  }

  /** The concatenated blocks. */
  function Blocks(ps: seq<Passage>, c: Codec): string
  {
    if ps == [] then "" else Block(ps[0], c) + Blocks(ps[1..], c)
  }

  /** What `get_rag_context` returns, or the error it raises, for the given matches. */
  function Assembled(ms: seq<Match>, t: real, c: Codec): Result<string, Error>
  {
    match ExtractAll(Kept(ms, t), c)
    case Failure(e) => Failure(e)
    case Success(ps) => Success(if ps == [] then Sentinel else Blocks(ps, c))
  }

  /** The loop of `get_rag_context`, accumulating the context one match at a time. */
  method GetRagContext(matches: seq<Match>, scoreThresh: real, codec: Codec)
    returns (r: Result<string, Error>)
    ensures r == Assembled(matches, scoreThresh, codec)
  {
    var context := "";
    ghost var done: seq<Passage> := [];
    assert matches[..0] == [];
    for i := 0 to |matches|
      invariant ExtractAll(Kept(matches[..i], scoreThresh), codec) == Success(done)
      invariant context == Blocks(done, codec)
    {
      var doc := matches[i];
      StepKept(matches, i, scoreThresh);
      if doc.score > scoreThresh {
        var extracted := Extract(doc.metadata, codec);
        StepExtract(Kept(matches[..i], scoreThresh), doc, done, codec);
        if extracted.Failure? {
          FailureIsFinal(matches, i + 1, scoreThresh, codec);
          return Failure(extracted.error);
        }
        assert Kept(matches[..i + 1], scoreThresh) == Kept(matches[..i], scoreThresh) + [doc];
        assert ExtractAll(Kept(matches[..i + 1], scoreThresh), codec) == Success(done + [extracted.value]);
        BlocksAppend(done, [extracted.value], codec);
        context := context + Block(extracted.value, codec);
        done := done + [extracted.value];
      } else {
        assert Kept(matches[..i + 1], scoreThresh) == Kept(matches[..i], scoreThresh);
      }
    }
    assert matches[..|matches|] == matches;
    if context != "" {
      r := Success(context);
    } else {
      if done != [] {
        BlocksEndWithNewline(done, codec);
      }
      r := Success(Sentinel);
    }
  }

  // ---------------------------------------------------------------------
  // Composition lemmas

  /** Filtering keeps the relative order: the filter of a concatenation is the concatenation of the filters. */
  lemma {:induction false} KeptAppend(a: seq<Match>, b: seq<Match>, t: real)
    ensures Kept(a + b, t) == Kept(a, t) + Kept(b, t)
  {
    if a == [] {
      assert a + b == b;
    } else {
      assert (a + b)[1..] == a[1..] + b;
      KeptAppend(a[1..], b, t);
    }
  }

  /** One more match: kept or skipped according to its score alone. */
  lemma StepKept(ms: seq<Match>, i: nat, t: real)
    requires i < |ms|
    ensures Kept(ms[..i + 1], t) == Kept(ms[..i], t) + (if ms[i].score > t then [ms[i]] else [])
  {
    assert ms[..i + 1] == ms[..i] + [ms[i]];
    KeptAppend(ms[..i], [ms[i]], t);
  }

  /** One more kept match: its extraction either extends the passages or is the error. */
  lemma StepExtract(kept: seq<Match>, m: Match, done: seq<Passage>, c: Codec)
    requires ExtractAll(kept, c) == Success(done)
    ensures ExtractAll(kept + [m], c) ==
              match Extract(m.metadata, c)
              case Failure(e) => Failure(e)
              case Success(p) => Success(done + [p])
  {
    ExtractAllAppend(kept, [m], c);
    assert [m][1..] == [];
    match Extract(m.metadata, c)
    case Failure(e) =>
    case Success(p) =>
      assert ExtractAll([m][1..], c) == Success([]);
      assert [p] + [] == [p];
      assert ExtractAll([m], c) == Success([p]);
  }

  /** Once a prefix of the matches fails, the whole call fails with that error. */
  lemma FailureIsFinal(ms: seq<Match>, i: nat, t: real, c: Codec)
    requires i <= |ms|
    requires ExtractAll(Kept(ms[..i], t), c).Failure?
    ensures ExtractAll(Kept(ms, t), c) == ExtractAll(Kept(ms[..i], t), c)
  {
    assert ms == ms[..i] + ms[i..];
    KeptAppend(ms[..i], ms[i..], t);
    ExtractAllAppend(Kept(ms[..i], t), Kept(ms[i..], t), c);
  }

  lemma {:induction false} ExtractAllAppend(a: seq<Match>, b: seq<Match>, c: Codec)
    ensures ExtractAll(a + b, c) ==
              match ExtractAll(a, c)
              case Failure(e) => Failure(e)
              case Success(ps) =>
                match ExtractAll(b, c)
                case Failure(e) => Failure(e)
                case Success(qs) => Success(ps + qs)
  {
    if a == [] {
      assert a + b == b;
      match ExtractAll(b, c)
      case Failure(e) =>
      case Success(qs) => assert [] + qs == qs;
    } else {
      assert (a + b)[1..] == a[1..] + b;
      ExtractAllAppend(a[1..], b, c);
      match ExtractAll(a, c)
      case Failure(e) =>
      case Success(ps) =>
        match ExtractAll(b, c)
        case Failure(e) =>
        case Success(qs) => assert [ps[0]] + (ps[1..] + qs) == ps + qs;
    }
  }

  lemma {:induction false} BlocksAppend(ps: seq<Passage>, qs: seq<Passage>, c: Codec)
    ensures Blocks(ps + qs, c) == Blocks(ps, c) + Blocks(qs, c)
  {
    if ps == [] {
      assert ps + qs == qs;
    } else {
      assert (ps + qs)[1..] == ps[1..] + qs;
      BlocksAppend(ps[1..], qs, c);
    }
  }

  /** Every block ends with a newline, so a non-empty run of blocks does too. */
  lemma {:induction false} BlocksEndWithNewline(ps: seq<Passage>, c: Codec)
    requires ps != []
    ensures var s := Blocks(ps, c); |s| > 0 && s[|s| - 1] == '\n'
  {
    if ps[1..] != [] {
      BlocksEndWithNewline(ps[1..], c);
    }
  }

  // ---------------------------------------------------------------------
  // Properties of the assembled context

  /**
   * Extraction over a run of matches, stated without recursion: it succeeds
   * exactly when every match extracts, yielding one passage per match in
   * order; otherwise its error is that of the first match that fails.
   */
  lemma {:induction false} ExtractAllSpec(ms: seq<Match>, c: Codec)
    ensures ExtractAll(ms, c).Success? <==>
              forall k :: 0 <= k < |ms| ==> Extract(ms[k].metadata, c).Success?
    ensures ExtractAll(ms, c).Success? ==>
              |ExtractAll(ms, c).value| == |ms| &&
              forall k :: 0 <= k < |ms| ==> Extract(ms[k].metadata, c) == Success(ExtractAll(ms, c).value[k])
    ensures ExtractAll(ms, c).Failure? ==>
              exists k :: 0 <= k < |ms| && Extract(ms[k].metadata, c) == Failure(ExtractAll(ms, c).error) &&
                forall j :: 0 <= j < k ==> Extract(ms[j].metadata, c).Success?
  {
    if ms != [] {
      ExtractAllSpec(ms[1..], c);
      assert forall k :: 1 <= k < |ms| ==> ms[k] == ms[1..][k - 1];
      match Extract(ms[0].metadata, c)
      case Failure(e) =>
        assert Extract(ms[0].metadata, c) == Failure(ExtractAll(ms, c).error);
      case Success(p) =>
        match ExtractAll(ms[1..], c)
        case Failure(e) =>
          var k :| 0 <= k < |ms[1..]| && Extract(ms[1..][k].metadata, c) == Failure(e) &&
                   forall j :: 0 <= j < k ==> Extract(ms[1..][j].metadata, c).Success?;
          assert Extract(ms[k + 1].metadata, c) == Failure(ExtractAll(ms, c).error);
          assert forall j :: 0 <= j < k + 1 ==> Extract(ms[j].metadata, c).Success? by {
            forall j | 0 <= j < k + 1 ensures Extract(ms[j].metadata, c).Success? {
              if j > 0 { assert ms[j] == ms[1..][j - 1]; }
            }
          }
        case Success(ps) =>
          assert ExtractAll(ms, c).value == [p] + ps;
    }
  }

  /** No kept match exactly when no score is strictly above the threshold. */
  lemma NothingKept(ms: seq<Match>, t: real)
    ensures Kept(ms, t) == [] <==> forall k :: 0 <= k < |ms| ==> ms[k].score <= t
  {
  }

  /**
   * The sentinel is returned exactly when no match clears the threshold;
   * any other context ends with a newline, so it is never the sentinel.
   */
  lemma SentinelExactlyWhenNothingKept(ms: seq<Match>, t: real, c: Codec)
    requires Assembled(ms, t, c).Success?
    ensures Assembled(ms, t, c).value == Sentinel <==>
              forall k :: 0 <= k < |ms| ==> ms[k].score <= t
    ensures var s := Assembled(ms, t, c).value;
            s != Sentinel ==> |s| > 0 && s[|s| - 1] == '\n'
  {
    NothingKept(ms, t);
    ExtractAllSpec(Kept(ms, t), c);
    var ps := ExtractAll(Kept(ms, t), c).value;
    if ps != [] {
      BlocksEndWithNewline(ps, c);
      assert Sentinel[|Sentinel| - 1] == 'S';
    }
  }

  /** When no score is strictly above the threshold, the call returns the sentinel. */
  lemma NothingKeptGivesSentinel(ms: seq<Match>, t: real, c: Codec)
    requires forall k :: 0 <= k < |ms| ==> ms[k].score <= t
    ensures Assembled(ms, t, c) == Success(Sentinel)
  {
    NothingKept(ms, t);
  }

  /**
   * When some match clears the threshold and the call succeeds, the context is
   * one block per kept match, in the order the index returned them, each built
   * from what that match's metadata extracts to.
   */
  lemma OneBlockPerKeptMatch(ms: seq<Match>, t: real, c: Codec)
    requires Assembled(ms, t, c).Success?
    requires exists k :: 0 <= k < |ms| && ms[k].score > t
    ensures exists ps: seq<Passage> ::
              |ps| == |Kept(ms, t)| &&
              (forall k :: 0 <= k < |ps| ==> Extract(Kept(ms, t)[k].metadata, c) == Success(ps[k])) &&
              Assembled(ms, t, c).value == Blocks(ps, c)
  {
    NothingKept(ms, t);
    ExtractAllSpec(Kept(ms, t), c);
    var ps := ExtractAll(Kept(ms, t), c).value;
    assert |ps| == |Kept(ms, t)|;
  }

  /**
   * The call fails, returning no partial context, exactly when some match
   * above the threshold has no provenance or no text on either path; the
   * error is that of the first such match among the kept ones.
   */
  lemma FailsOnBadKeptMatch(ms: seq<Match>, t: real, c: Codec)
    ensures Assembled(ms, t, c).Failure? <==>
              exists k :: 0 <= k < |ms| && ms[k].score > t && Extract(ms[k].metadata, c).Failure?
    ensures Assembled(ms, t, c).Failure? ==>
              exists k :: 0 <= k < |Kept(ms, t)| &&
                Extract(Kept(ms, t)[k].metadata, c) == Failure(Assembled(ms, t, c).error) &&
                forall j :: 0 <= j < k ==> Extract(Kept(ms, t)[j].metadata, c).Success?
  {
    var kept := Kept(ms, t);
    ExtractAllSpec(kept, c);
    if ExtractAll(kept, c).Failure? {
      var e := ExtractAll(kept, c).error;
      assert Assembled(ms, t, c) == Failure(e);
      var k :| 0 <= k < |kept| && Extract(kept[k].metadata, c) == Failure(e) &&
               forall j :: 0 <= j < k ==> Extract(kept[j].metadata, c).Success?;
      assert kept[k] in kept;
      var i :| 0 <= i < |ms| && ms[i] == kept[k];
    }
    if exists k :: 0 <= k < |ms| && ms[k].score > t && Extract(ms[k].metadata, c).Failure? {
      var k :| 0 <= k < |ms| && ms[k].score > t && Extract(ms[k].metadata, c).Failure?;
      assert ms[k] in kept;
    }
  }

  /** Kept depends only on scores and on the matches above the threshold. */
  lemma {:induction false} KeptIgnoresBelow(ms: seq<Match>, ns: seq<Match>, t: real)
    requires |ms| == |ns|
    requires forall k :: 0 <= k < |ms| ==> ms[k].score == ns[k].score
    requires forall k :: 0 <= k < |ms| && ms[k].score > t ==> ms[k] == ns[k]
    ensures Kept(ms, t) == Kept(ns, t)
  {
    if ms != [] {
      KeptIgnoresBelow(ms[1..], ns[1..], t);
    }
  }

  /**
   * The metadata of a match at or below the threshold is never read: matches
   * that differ only there give the same result, error or context.
   */
  lemma BelowThresholdNotRead(ms: seq<Match>, ns: seq<Match>, t: real, c: Codec)
    requires |ms| == |ns|
    requires forall k :: 0 <= k < |ms| ==> ms[k].score == ns[k].score
    requires forall k :: 0 <= k < |ms| && ms[k].score > t ==> ms[k].metadata == ns[k].metadata
    ensures Assembled(ms, t, c) == Assembled(ns, t, c)
  {
    KeptIgnoresBelow(ms, ns, t);
  }

  /** A match at or below the threshold contributes nothing, wherever it stands. */
  lemma DroppingBelowThreshold(a: seq<Match>, m: Match, b: seq<Match>, t: real, c: Codec)
    requires m.score <= t
    ensures Assembled(a + [m] + b, t, c) == Assembled(a + b, t, c)
  {
    KeptAppend(a + [m], b, t);
    KeptAppend(a, [m], t);
    KeptAppend(a, b, t);
    assert [m][1..] == [];
    assert Kept([m], t) == [];
    assert Kept(a + [m], t) == Kept(a, t);
    assert Kept(a + [m] + b, t) == Kept(a + b, t);
  }

  /**
   * Two matches scoring 0.95 and 0.70 against the threshold 0.81: only the
   * first is kept; it has no `_node_content`, so its flat `text` is used.
   */
  lemma ScenarioFallbackSingleBlock(c: Codec)
    ensures Assembled(ScenarioMatches, 0.81, c) == Success("Joint hypermobility.(Ref: PMID1.)\n")
  {
    var first := ScenarioMatches[0];
    var second := ScenarioMatches[1];
    assert ScenarioMatches[1..] == [second];
    assert [second][1..] == [];
    assert Kept([second], 0.81) == [];
    assert Kept(ScenarioMatches, 0.81) == [first];
    var p := Passage(JStr("Joint hypermobility."), JStr("PMID1"));
    assert Extract(first.metadata, c) == Success(p);
    assert ExtractAll([first][1..], c) == Success([]);
    assert [p] + [] == [p];
    assert ExtractAll([first], c) == Success([p]);
    assert Blocks([p][1..], c) == "";
    assert Blocks([p], c) == Block(p, c) + "";
    assert Block(p, c) == "Joint hypermobility.(Ref: PMID1.)\n";
    assert ExtractAll(Kept(ScenarioMatches, 0.81), c) == Success([p]);
    assert Assembled(ScenarioMatches, 0.81, c) == Success(Blocks([p], c));
    assert Blocks([p], c) == "Joint hypermobility.(Ref: PMID1.)\n";
  }

  /** Two matches scoring 0.95 and 0.70; the first has no `_node_content`. */
  const ScenarioMatches := [
    Match(0.95, map["text" := JStr("Joint hypermobility."), "c_document_id" := JStr("PMID1")]),
    Match(0.70, map["text" := JStr("Unrelated."), "c_document_id" := JStr("PMID2")])
  ]
}
