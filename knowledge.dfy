/**
  The chatbot's document store and the removal of placeholder documents
  from it. Dropping a document invalidates the embeddings computed for
  the old list, so they are discarded with it.
*/
module Knowledge {
  import opened Wrappers
  import opened Text

  /** The shortest stripped text that counts as content. */
  const MinContentLength: nat := 10

  /** A document that `clean_placeholder_documents` keeps: not empty, not a
      placeholder or test text, and at least ten characters once stripped. */
  predicate IsContent(doc: String) {
    doc != []
    && !Contains(Lower(doc), "placeholder")
    && !Contains(Lower(doc), "test")
    && |Strip(doc)| >= MinContentLength
  }

  /** The content documents of `docs`, in their order. */
  function Cleaned(docs: seq<String>): (r: seq<String>)
    ensures |r| <= |docs|
  {
    if docs == [] then []
    else Cleaned(docs[..|docs| - 1]) + (if IsContent(docs[|docs| - 1]) then [docs[|docs| - 1]] else [])
  }

  /** A document survives the cleaning exactly when it is content. */
  lemma {:induction false} CleanedMembers(docs: seq<String>, doc: String)
    ensures doc in Cleaned(docs) <==> doc in docs && IsContent(doc)
  {
    if docs != [] {
      var init := docs[..|docs| - 1];
      CleanedMembers(init, doc);
      assert docs == init + [docs[|docs| - 1]];
    }
  }

  /** Cleaning works list piece by list piece. */
  lemma {:induction false} CleanedAppend(a: seq<String>, b: seq<String>)
    ensures Cleaned(a + b) == Cleaned(a) + Cleaned(b)
    decreases |b|
  {
    if b == [] {
      assert a + b == a;
    } else {
      var init := b[..|b| - 1];
      assert (a + b)[..|a + b| - 1] == a + init;
      CleanedAppend(a, init);
    }
  }

  /** A cleaning that keeps as many documents as it was given found only content. */
  lemma {:induction false} CleanedLengthKept(docs: seq<String>)
    requires |Cleaned(docs)| == |docs|
    ensures forall k | 0 <= k < |docs| :: IsContent(docs[k])
  {
    if docs != [] {
      var init := docs[..|docs| - 1];
      CleanedLengthKept(init);
      assert forall k | 0 <= k < |init| :: docs[k] == init[k];
    }
  }

  /** A list of content documents is cleaned to itself. */
  lemma {:induction false} CleanedKeepsContent(docs: seq<String>)
    requires forall k | 0 <= k < |docs| :: IsContent(docs[k])
    ensures Cleaned(docs) == docs
  {
    if docs != [] {
      var init := docs[..|docs| - 1];
      assert forall k | 0 <= k < |init| :: init[k] == docs[k];
      CleanedKeepsContent(init);
      assert docs == init + [docs[|docs| - 1]];
    }
  }

  /** Nothing is dropped exactly when every document is content. */
  lemma CleanedUnchanged(docs: seq<String>)
    ensures Cleaned(docs) == docs <==> forall k | 0 <= k < |docs| :: IsContent(docs[k])
  {
    if Cleaned(docs) == docs {
      CleanedLengthKept(docs);
    }
    if forall k | 0 <= k < |docs| :: IsContent(docs[k]) {
      CleanedKeepsContent(docs);
    }
  }

  /** Cleaning a cleaned list changes nothing. */
  lemma CleanedIdempotent(docs: seq<String>)
    ensures Cleaned(Cleaned(docs)) == Cleaned(docs)
  {
    var r := Cleaned(docs);
    forall k | 0 <= k < |r| ensures IsContent(r[k]) {
      CleanedMembers(docs, r[k]);
    }
    CleanedUnchanged(r);
  }

  /** The part of `ChatbotMedicoRAG` that holds the knowledge base. */
  class Chatbot {
    var documents: seq<String>
    var embeddings: Option<seq<seq<real>>>
    var embeddingMatrix: Option<seq<seq<real>>>

    /** An empty knowledge base, with no embeddings yet. */
    constructor ()
      ensures documents == [] && embeddings == None && embeddingMatrix == None
    {
      documents := [];
      embeddings := None;
      embeddingMatrix := None;
    }

    /**
      `clean_placeholder_documents`: keep only the content documents and,
      when something was removed, drop the embeddings that belonged to
      the old list.
    */
    method CleanPlaceholderDocuments() returns (ok: bool)
      modifies this
      ensures ok
      ensures documents == Cleaned(old(documents))
      ensures |documents| < |old(documents)| ==> embeddings == None && embeddingMatrix == None
      ensures (exists k | 0 <= k < |old(documents)| :: !IsContent(old(documents)[k])) ==>
        embeddings == None && embeddingMatrix == None
      ensures |documents| == |old(documents)| ==>
        documents == old(documents) && embeddings == old(embeddings) && embeddingMatrix == old(embeddingMatrix)
    {
      if documents == [] {
        return true;
      }
      var cleaned: seq<String> := [];
      var removed := 0;
      for i := 0 to |documents|
        invariant cleaned == Cleaned(documents[..i])
        invariant removed == i - |cleaned|
      {
        var doc := documents[i];
        assert documents[..i + 1] == documents[..i] + [doc];
        if doc == [] || Contains(Lower(doc), "placeholder") || Contains(Lower(doc), "test") || |Strip(doc)| < MinContentLength {
          removed := removed + 1;
          continue;
        }
        cleaned := cleaned + [doc];
      }
      assert documents[..|documents|] == documents;
      if removed != 0 {
        CleanedUnchanged(documents);
        documents := cleaned;
        embeddings := None;
        embeddingMatrix := None;
      } else {
        CleanedLengthKept(documents);
        CleanedKeepsContent(documents);
      }
      return true;
    }
  }
}
