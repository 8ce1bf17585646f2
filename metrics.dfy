/**
  The heuristic quality scores the chatbot attaches to every answer:
  relevance and faithfulness on a 0-10 scale, context precision on 0-1.
  Python's floats are modelled as exact reals.
*/
module Metrics {
  import opened Text
  import opened Tokens
  import opened Retrieval
  import Ratio

  /** The top of the 0-10 scale. */
  const MaxScore: real := 10.0
  /** How much of a sentence, lower-cased, must appear in the context. */
  const PrefixLength: nat := 30
  /** A sentence mentioning this word counts as faithful whatever the context. */
  const ServiceWord: String := "servicio"

  /** `max(0.0, min(10.0, score))`. */
  function Clamp(score: real): (r: real)
    ensures 0.0 <= r <= MaxScore
    ensures 0.0 <= score <= MaxScore ==> r == score
  {
    var capped := if score < MaxScore then score else MaxScore;
    if capped > 0.0 then capped else 0.0
  }

  // ---------------------------------------------------------------------
  // evaluate_relevance

  /** `evaluate_relevance`: the share of the query's tokens the response repeats, out of 10. */
  function Relevance(query: String, response: String): (score: real)
    ensures 0.0 <= score <= MaxScore
    ensures WordSet(query) == {} ==> score == 0.0
    ensures WordSet(query) != {} ==>
      score == (|WordSet(query) * WordSet(response)| as real / |WordSet(query)| as real) * MaxScore
  {
    var q := WordSet(query);
    var r := WordSet(response);
    if q == {} then 0.0
    else
      Ratio.OverlapSize(q, r);
      Ratio.RatioBounds(|q * r|, |q|);
      Clamp((|q * r| as real / |q| as real) * MaxScore)
  }

  /** A response scores full relevance exactly when it repeats every query token. */
  lemma RelevanceFull(query: String, response: String)
    requires WordSet(query) != {}
    ensures Relevance(query, response) == MaxScore <==> WordSet(query) <= WordSet(response)
  {
    var q, r := WordSet(query), WordSet(response);
    Ratio.OverlapSize(q, r);
    Ratio.RatioBounds(|q * r|, |q|);
  }

  /** A response scores zero relevance exactly when it shares no token with the query. */
  lemma RelevanceZero(query: String, response: String)
    ensures Relevance(query, response) == 0.0 <==> WordSet(query) * WordSet(response) == {}
  {
    var q, r := WordSet(query), WordSet(response);
    if q != {} {
      Ratio.OverlapSize(q, r);
      Ratio.RatioBounds(|q * r|, |q|);
    }
  }

  /** Relevance is the search's lexical score put on the 0-10 scale. */
  lemma RelevanceIsScaledLexical(query: String, response: String)
    ensures Relevance(query, response) == Lexical(SearchWordSet(query), SearchWordSet(response)) * MaxScore
  {
    LexicalUsesScorerTokens(query, response);
  }

  // ---------------------------------------------------------------------
  // evaluate_faithfulness

  /** `[s.strip() for s in pieces if s.strip()]`. */
  function StrippedSentences(pieces: seq<String>): (ss: seq<String>)
    ensures |ss| <= |pieces|
    ensures forall k | 0 <= k < |ss| :: ss[k] != []
  {
    if pieces == [] then []
    else
      var t := Strip(pieces[0]);
      (if t != [] then [t] else []) + StrippedSentences(pieces[1..])
  }

  /** The non-empty, stripped `.`-separated sentences of `text`. */
  function Sentences(text: String): seq<String> {
    StrippedSentences(Split(text, '.'))
  }

  /**
    The faithfulness test for one sentence against the lower-cased context:
    its first 30 lower-cased characters occur in the context, or it
    mentions "servicio".
  */
  predicate Grounded(context: String, sentence: String) {
    var low := Lower(sentence);
    Contains(context, Prefix(low, PrefixLength)) || Contains(low, ServiceWord)
  }

  function GroundedCount(context: String, sentences: seq<String>): (n: nat)
    ensures n <= |sentences|
  {
    if sentences == [] then 0
    else (if Grounded(context, sentences[0]) then 1 else 0) + GroundedCount(context, sentences[1..])
  }

  /** `evaluate_faithfulness`: the share of the response's sentences grounded in the context, out of 10. */
  function Faithfulness(context: String, response: String): (score: real)
    ensures 0.0 <= score <= MaxScore
    ensures Sentences(response) == [] ==> score == 0.0
    ensures Sentences(response) != [] ==>
      score == (GroundedCount(Lower(context), Sentences(response)) as real / |Sentences(response)| as real) * MaxScore
  {
    var ctx := Lower(context);
    var sentences := Sentences(response);
    if sentences == [] then 0.0
    else
      var overlap := GroundedCount(ctx, sentences);
      Ratio.RatioBounds(overlap, |sentences|);
      Clamp((overlap as real / |sentences| as real) * MaxScore)
  }

  /** All sentences are grounded exactly when the count is full; none exactly when it is zero. */
  lemma {:induction false} GroundedCountExtremes(context: String, sentences: seq<String>)
    ensures GroundedCount(context, sentences) == |sentences| <==>
      forall k | 0 <= k < |sentences| :: Grounded(context, sentences[k])
    ensures GroundedCount(context, sentences) == 0 <==>
      forall k | 0 <= k < |sentences| :: !Grounded(context, sentences[k])
  {
    if sentences != [] {
      GroundedCountExtremes(context, sentences[1..]);
      assert forall k | 1 <= k < |sentences| :: sentences[k] == sentences[1..][k - 1];
    }
  }

  lemma {:induction false} StrippedSentencesInText(text: String, pieces: seq<String>)
    requires forall j | 0 <= j < |pieces| :: Contains(text, pieces[j])
    ensures forall k | 0 <= k < |StrippedSentences(pieces)| :: Contains(text, StrippedSentences(pieces)[k])
  {
    if pieces != [] {
      StrippedSentencesInText(text, pieces[1..]);
      StripCharsInText(pieces[0], Whitespace);
      ContainsTransitive(text, pieces[0], Strip(pieces[0]));
    }
  }

  /** Every sentence of a text is a substring of it. */
  lemma SentencesInText(text: String)
    ensures forall k | 0 <= k < |Sentences(text)| :: Contains(text, Sentences(text)[k])
  {
    forall j | 0 <= j < |Split(text, '.')| ensures Contains(text, Split(text, '.')[j]) {
      SplitPieceInText(text, '.', j);
    }
    StrippedSentencesInText(text, Split(text, '.'));
  }

  /** A response copied from the context, with at least one sentence, is fully faithful. */
  lemma FaithfulnessOfQuotedResponse(context: String, response: String)
    requires Contains(context, response) && Sentences(response) != []
    ensures Faithfulness(context, response) == MaxScore
  {
    var ss := Sentences(response);
    SentencesInText(response);
    forall k | 0 <= k < |ss| ensures Grounded(Lower(context), ss[k]) {
      QuotedSentenceGrounded(context, response, ss[k]);
    }
    GroundedCountExtremes(Lower(context), ss);
    Ratio.RatioBounds(|ss|, |ss|);
  }

  /** A sentence of a response copied from the context passes the prefix test against it. */
  lemma QuotedSentenceGrounded(context: String, response: String, sentence: String)
    requires Contains(context, response) && Contains(response, sentence)
    ensures Contains(Lower(context), Prefix(Lower(sentence), PrefixLength))
    ensures Grounded(Lower(context), sentence)
  {
    var low := Lower(sentence);
    ContainsTransitive(context, response, sentence);
    ContainsLower(context, sentence);
    ContainsPrefix(low, PrefixLength);
    ContainsTransitive(Lower(context), low, Prefix(low, PrefixLength));
  }

  /**
    Without retrieved context, as on the direct-answer path, a response
    scores zero faithfulness exactly when none of its sentences mentions
    "servicio".
  */
  lemma FaithfulnessWithoutContext(response: String)
    ensures Faithfulness("", response) == 0.0 <==>
      forall k | 0 <= k < |Sentences(response)| :: !Contains(Lower(Sentences(response)[k]), ServiceWord)
  {
    var ss := Sentences(response);
    assert Lower("") == "";
    forall k | 0 <= k < |ss| ensures Grounded("", ss[k]) <==> Contains(Lower(ss[k]), ServiceWord) {
      NothingInEmpty(Prefix(Lower(ss[k]), PrefixLength));
    }
    GroundedCountExtremes("", ss);
    if ss != [] {
      Ratio.RatioBounds(GroundedCount("", ss), |ss|);
    }
  }

  // ---------------------------------------------------------------------
  // evaluate_context_precision

  /** The token set of every retrieved document, in order. */
  function DocumentTokens(results: seq<Ranked>): (ts: seq<set<String>>)
    ensures |ts| == |results|
  {
    seq(|results|, k requires 0 <= k < |results| => WordSet(results[k].document))
  }

  /** How many of the token sets `ts` share a token with the query tokens `q`. */
  function SharingCount(q: set<String>, ts: seq<set<String>>): (n: nat)
    ensures n <= |ts|
  {
    if ts == [] then 0
    else SharingCount(q, ts[..|ts| - 1]) + (if q * ts[|ts| - 1] != {} then 1 else 0)
  }

  /** All sets share a token exactly when the count is full; none exactly when it is zero. */
  lemma {:induction false} SharingCountExtremes(q: set<String>, ts: seq<set<String>>)
    ensures SharingCount(q, ts) == |ts| <==> forall k | 0 <= k < |ts| :: q * ts[k] != {}
    ensures SharingCount(q, ts) == 0 <==> forall k | 0 <= k < |ts| :: q * ts[k] == {}
  {
    if ts != [] {
      SharingCountExtremes(q, ts[..|ts| - 1]);
    }
  }

  /**
    The sharing count is full exactly when every retrieved document shares
    a token with the query, and zero exactly when none does.
  */
  lemma ContextPrecisionExtremes(query: String, results: seq<Ranked>)
    ensures SharingCount(WordSet(query), DocumentTokens(results)) == |results| <==>
      forall k | 0 <= k < |results| :: WordSet(query) * WordSet(results[k].document) != {}
    ensures SharingCount(WordSet(query), DocumentTokens(results)) == 0 <==>
      forall k | 0 <= k < |results| :: WordSet(query) * WordSet(results[k].document) == {}
  {
    var ts := DocumentTokens(results);
    assert forall k | 0 <= k < |results| :: ts[k] == WordSet(results[k].document);
    SharingCountExtremes(WordSet(query), ts);
  }

  /**
    `evaluate_context_precision`: the share of the retrieved documents that
    have at least one query token.
  */
  method ContextPrecision(query: String, results: seq<Ranked>) returns (precision: real)
    ensures 0.0 <= precision <= 1.0
    ensures WordSet(query) == {} || results == [] ==> precision == 0.0
    ensures WordSet(query) != {} && results != [] ==>
      precision == SharingCount(WordSet(query), DocumentTokens(results)) as real / |results| as real
  {
    var q := WordSet(query);
    if q == {} || results == [] {
      return 0.0;
    }
    var count := 0;
    for i := 0 to |results|
      invariant count == SharingCount(q, DocumentTokens(results)[..i])
    {
      var contentWords := WordSet(results[i].document);
      if q * contentWords != {} {
        count := count + 1;
      }
      assert DocumentTokens(results)[..i + 1][..i] == DocumentTokens(results)[..i];
    }
    assert DocumentTokens(results)[..|results|] == DocumentTokens(results);
    Ratio.RatioBounds(count, |results|);
    return count as real / |results| as real;
  }
}
