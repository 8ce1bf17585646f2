/**
  The hybrid ranking of `hybrid_search_with_metrics`: each document gets a
  lexical score (the share of the query's tokens it contains) and a
  semantic score (its cosine similarity to the query, computed outside
  this model and passed in), the two are blended 70/30, and the documents
  are ranked by the blend, best first, and cut to `top_k`.
*/
module Retrieval {
  import opened Wrappers
  import opened Text
  import opened Tokens
  import Ratio

  /** One ranked document: a result entry of the search. */
  datatype Ranked = Ranked(id: nat, document: String, semantic: real, lexical: real, combined: real)

  const SemanticWeight: real := 0.7
  const LexicalWeight: real := 0.3

  /** `|q ∩ d| / max(1, |q|)`, and 0 for an empty query token set. */
  function Lexical(q: set<String>, d: set<String>): (score: real)
    ensures 0.0 <= score <= 1.0
    ensures score == 0.0 <==> q * d == {}
    ensures score == 1.0 <==> q != {} && q <= d
  {
    if q == {} then 0.0
    else
      Ratio.OverlapSize(q, d);
      Ratio.RatioBounds(|q * d|, |q|);
      (|q * d| as real) / (if |q| < 1 then 1 else |q|) as real
  }

  function Combined(semantic: real, lexical: real): real {
    SemanticWeight * semantic + LexicalWeight * lexical
  }

  /** The entry the search builds for document `i`. */
  function Entry(documents: seq<String>, sims: seq<real>, q: set<String>, i: nat): (e: Ranked)
    requires i < |documents| && i < |sims|
  {
    var lexical := Lexical(q, SearchWordSet(documents[i]));
    Ranked(i, documents[i], sims[i], lexical, Combined(sims[i], lexical))
  }

  /** The rank order: higher blend first; on a tie, the earlier document first. */
  predicate Before(a: Ranked, b: Ranked) {
    a.combined > b.combined || (a.combined == b.combined && a.id < b.id)
  }

  predicate Ranking(rs: seq<Ranked>) {
    forall i, j | 0 <= i < j < |rs| :: Before(rs[i], rs[j])
  }

  /** The length of `xs[:k]` for a list of length `n`, negative `k` included. */
  function SliceLen(k: int, n: nat): (m: nat)
    ensures m <= n
    ensures k >= 0 ==> m == if k < n then k else n
  {
    if k >= 0 then (if k < n then k else n)
    else if n + k > 0 then n + k
    else 0
  }

  ghost function Ids(rs: seq<Ranked>): set<nat> {
    set e | e in rs :: e.id
  }

  /** Puts `x`, which comes after every entry of `sorted` in document order, at its rank. */
  method Insert(sorted: seq<Ranked>, x: Ranked) returns (r: seq<Ranked>)
    requires Ranking(sorted)
    requires forall e | e in sorted :: e.id < x.id
    ensures multiset(r) == multiset(sorted) + multiset{x}
    ensures Ranking(r)
  {
    var p := 0;
    while p < |sorted| && sorted[p].combined >= x.combined
      invariant 0 <= p <= |sorted|
      invariant forall k | 0 <= k < p :: sorted[k].combined >= x.combined
    {
      p := p + 1;
    }
    forall k | 0 <= k < p ensures Before(sorted[k], x) {
      assert sorted[k] in sorted;
    }
    forall k | p <= k < |sorted| ensures Before(x, sorted[k]) {
      assert k == p || Before(sorted[p], sorted[k]);
    }
    InsertKeepsRanking(sorted, p, x);
    assert sorted == sorted[..p] + sorted[p..];
    r := sorted[..p] + [x] + sorted[p..];
  }

  /** An entry placed between the entries it follows and those it precedes keeps the rank order. */
  lemma InsertKeepsRanking(sorted: seq<Ranked>, p: nat, x: Ranked)
    requires Ranking(sorted) && p <= |sorted|
    requires forall k | 0 <= k < p :: Before(sorted[k], x)
    requires forall k | p <= k < |sorted| :: Before(x, sorted[k])
    ensures Ranking(sorted[..p] + [x] + sorted[p..])
  {
    var r := sorted[..p] + [x] + sorted[p..];
    assert forall i | 0 <= i < |r| :: r[i] == if i < p then sorted[i] else if i == p then x else sorted[i - 1];
  }

  /**
    `sorted(rs, key=combined, reverse=True)`: a stable sort by descending
    blend. The entries arrive in document order, so stability is the
    tie-break on `id` that `Before` states.
  */
  method SortByCombined(rs: seq<Ranked>) returns (sorted: seq<Ranked>)
    requires forall i, j | 0 <= i < j < |rs| :: rs[i].id < rs[j].id
    ensures multiset(sorted) == multiset(rs) && |sorted| == |rs|
    ensures Ranking(sorted)
  {
    sorted := [];
    for i := 0 to |rs|
      invariant multiset(sorted) == multiset(rs[..i])
      invariant Ranking(sorted)
    {
      forall e | e in sorted ensures e.id < rs[i].id {
        assert e in multiset(rs[..i]);
      }
      sorted := Insert(sorted, rs[i]);
      assert rs[..i + 1] == rs[..i] + [rs[i]];
    }
    assert rs[..|rs|] == rs;
    assert |multiset(sorted)| == |sorted|;
  }

  /** Whatever a ranking's first `n` entries leave out comes after each of them in rank order. */
  lemma TopPrefix(sorted: seq<Ranked>, n: nat, e: Ranked, k: nat)
    requires Ranking(sorted) && n <= |sorted|
    requires e in sorted && e !in sorted[..n] && k < n
    ensures Before(sorted[k], e)
  {
    var m :| 0 <= m < |sorted| && sorted[m] == e;
    assert forall i | 0 <= i < n :: sorted[..n][i] == sorted[i];
    assert k < n <= m;
  }

  /**
    `hybrid_search_with_metrics(query, top_k)` over the knowledge base
    `documents`. `sims` holds the cosine similarity of each embedding
    matrix row to the query, or is `None` when there is no embedding
    matrix, the query embedding failed or the similarity computation
    failed.
  */
  method HybridSearch(documents: seq<String>, sims: Option<seq<real>>, query: String, topK: int)
    returns (results: seq<Ranked>)
    ensures documents == [] || sims.None? ==> results == []
    ensures sims.Some? && |sims.value| < |documents| ==> results == []
    ensures sims.Some? && |sims.value| >= |documents| ==>
      var q := SearchWordSet(query);
      && |results| == SliceLen(topK, |documents|)
      && Ranking(results)
      && (forall k | 0 <= k < |results| ::
            results[k].id < |documents| && results[k] == Entry(documents, sims.value, q, results[k].id)
            && 0.0 <= results[k].lexical <= 1.0)
      && (forall j, k | 0 <= j < |documents| && j !in Ids(results) && 0 <= k < |results| ::
            Before(results[k], Entry(documents, sims.value, q, j)))
  {
    if documents == [] || sims.None? {
      return [];
    }
    var s := sims.value;
    var q := SearchWordSet(query);
    var all: seq<Ranked> := [];
    for idx := 0 to |documents|
      invariant |all| == idx <= |s|
      invariant forall k | 0 <= k < idx :: all[k] == Entry(documents, s, q, k)
    {
      if idx >= |s| {
        // sims[idx] raises IndexError, which the search reports as no results
        return [];
      }
      var entry := ScoreDocument(documents, s, q, idx);
      all := all + [entry];
    }
    assert forall i | 0 <= i < |all| :: all[i].id == i;
    var sorted := SortByCombined(all);
    var n := SliceLen(topK, |sorted|);
    results := sorted[..n];
    TopEntries(documents, s, q, all, sorted, n);
    assert Ranking(results);
  }

  /** The loop body of the search: the scored entry of document `idx`. */
  method ScoreDocument(documents: seq<String>, s: seq<real>, q: set<String>, idx: nat) returns (e: Ranked)
    requires idx < |documents| && idx < |s|
    ensures e == Entry(documents, s, q, idx)
    ensures e.id == idx && e.document == documents[idx] && e.semantic == s[idx]
    ensures 0.0 <= e.lexical <= 1.0 && e.combined == SemanticWeight * s[idx] + LexicalWeight * e.lexical
  {
    var doc := documents[idx];
    var lexical := 0.0;
    if q != {} {
      lexical := Lexical(q, SearchWordSet(doc));
    }
    var semantic := s[idx];
    e := Ranked(idx, doc, semantic, lexical, Combined(semantic, lexical));
  }

  /**
    The first `n` entries of a ranking of every document's entry are entries
    of their own documents, and every document left out scores no higher.
  */
  lemma TopEntries(documents: seq<String>, s: seq<real>, q: set<String>, all: seq<Ranked>, sorted: seq<Ranked>, n: nat)
    requires |documents| <= |s| && |all| == |documents|
    requires forall k | 0 <= k < |all| :: all[k] == Entry(documents, s, q, k)
    requires multiset(sorted) == multiset(all) && Ranking(sorted) && n <= |sorted|
    ensures forall k | 0 <= k < n ::
      sorted[..n][k].id < |documents| && sorted[..n][k] == Entry(documents, s, q, sorted[..n][k].id)
    ensures forall j, k | 0 <= j < |documents| && j !in Ids(sorted[..n]) && 0 <= k < n ::
      Before(sorted[..n][k], Entry(documents, s, q, j))
  {
    var results := sorted[..n];
    forall k | 0 <= k < n
      ensures results[k].id < |documents| && results[k] == Entry(documents, s, q, results[k].id)
    {
      assert results[k] in multiset(all);
    }
    forall j, k | 0 <= j < |documents| && j !in Ids(results) && 0 <= k < n
      ensures Before(results[k], Entry(documents, s, q, j))
    {
      assert all[j] in multiset(sorted);
      TopPrefix(sorted, n, all[j], k);
    }
  }

  /** The search's lexical score is the same when computed from the scorers' token sets. */
  lemma LexicalUsesScorerTokens(query: String, doc: String)
    ensures Lexical(SearchWordSet(query), SearchWordSet(doc)) == Lexical(WordSet(query), WordSet(doc))
  {
    SearchWordSetIsWordSet(query);
    SearchWordSetIsWordSet(doc);
  }
}
