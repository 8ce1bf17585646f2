/**
  The chatbot's security and ethics gate: the deletion of dangerous
  characters from a query, the keyword filter that refuses harmful
  requests and neutralises sensitive ones, and the keyword test that
  decides whether a query is answered from the hospital's documents.
*/
module Safety {
  import opened Wrappers
  import opened Text

  // ---------------------------------------------------------------------
  // sanitize_input: character deletion

  /** The characters `sanitize_input` deletes: `[<>{}\[\]\&|;`\$]`. */
  const UnsafeChars: set<char> := {'<', '>', '{', '}', '[', ']', '&', '|', ';', '`', '$'}

  /** `re.sub(r'[<>{}\[\]\&|;`\$]', '', s)`: every unsafe character removed,
      the other characters kept in order. */
  function DeleteUnsafe(s: String): (r: String)
    ensures |r| <= |s|
    ensures forall c | c in r :: c !in UnsafeChars
  {
    if s == [] then []
    else if s[0] in UnsafeChars then DeleteUnsafe(s[1..])
    else [s[0]] + DeleteUnsafe(s[1..])
  }

  /** Every safe character occurs as often after the deletion as before. */
  lemma {:induction false} DeleteUnsafeCounts(s: String)
    ensures forall c | c !in UnsafeChars :: multiset(DeleteUnsafe(s))[c] == multiset(s)[c]
    decreases |s|
  {
    if s != [] {
      DeleteUnsafeCounts(s[1..]);
      assert s == [s[0]] + s[1..];
    }
  }

  /** Deleting characters works piece by piece. */
  lemma {:induction false} DeleteUnsafeAppend(a: String, b: String)
    ensures DeleteUnsafe(a + b) == DeleteUnsafe(a) + DeleteUnsafe(b)
    decreases |a|
  {
    if a != [] {
      assert (a + b)[1..] == a[1..] + b;
      DeleteUnsafeAppend(a[1..], b);
    } else {
      assert a + b == b;
    }
  }

  /** A string with no unsafe character goes through unchanged. */
  lemma {:induction false} DeleteUnsafeKeepsSafe(s: String)
    requires forall i | 0 <= i < |s| :: s[i] !in UnsafeChars
    ensures DeleteUnsafe(s) == s
    decreases |s|
  {
    if s != [] {
      assert forall i | 0 <= i < |s| - 1 :: s[1..][i] == s[i + 1];
      DeleteUnsafeKeepsSafe(s[1..]);
    }
  }

  /** Sanitising twice is sanitising once. */
  lemma DeleteUnsafeIdempotent(s: String)
    ensures DeleteUnsafe(DeleteUnsafe(s)) == DeleteUnsafe(s)
  {
    var r := DeleteUnsafe(s);
    assert forall i | 0 <= i < |r| :: r[i] in r;
    DeleteUnsafeKeepsSafe(r);
  }

  // ---------------------------------------------------------------------
  // ethical_check

  const Prohibited: seq<String> := ["hackear", "suicidio", "violencia", "terrorismo", "drogas ilegales"]
  const Sensitive: seq<String> := ["inversión", "abogado", "ley", "demanda"]

  const Refusal: String :=
    "Lo siento, no puedo ayudar con solicitudes relacionadas con ese tema. Por favor, realiza una consulta sobre los servicios médicos del Hospital Barros Luco."
  const NeutralTopic: String := "Consulta sobre el Hospital Barros Luco"

  /** Some keyword of `keys` occurs in `text`. */
  predicate Mentions(keys: seq<String>, text: String) {
    exists k | k in keys :: Contains(text, k)
  }

  /** The pair `ethical_check` returns. */
  datatype Verdict = Verdict(allowed: bool, message: Option<String>)

  /**
    What `ethical_check` answers for a query: refused when a prohibited
    keyword occurs in the lower-cased query, allowed with a neutral topic
    when only a sensitive one does, allowed without a message otherwise.
  */
  function Ethics(query: String): Verdict {
    if Mentions(Prohibited, Lower(query)) then Verdict(false, Some(Refusal))
    else if Mentions(Sensitive, Lower(query)) then Verdict(true, Some(NeutralTopic))
    else Verdict(true, None)
  }

  /** `ethical_check`: the two keyword scans, in order, with early returns. */
  method EthicalCheck(query: String) returns (allowed: bool, message: Option<String>)
    ensures Verdict(allowed, message) == Ethics(query)
    ensures !allowed <==> message == Some(Refusal)
  {
    var low := Lower(query);
    for i := 0 to |Prohibited|
      invariant !Mentions(Prohibited[..i], low)
    {
      if Contains(low, Prohibited[i]) {
        assert Prohibited[i] in Prohibited;
        return false, Some(Refusal);
      }
      assert Prohibited[..i + 1] == Prohibited[..i] + [Prohibited[i]];
    }
    assert Prohibited[..|Prohibited|] == Prohibited;
    for i := 0 to |Sensitive|
      invariant !Mentions(Sensitive[..i], low)
    {
      if Contains(low, Sensitive[i]) {
        assert Sensitive[i] in Sensitive;
        return true, Some(NeutralTopic);
      }
      assert Sensitive[..i + 1] == Sensitive[..i] + [Sensitive[i]];
    }
    assert Sensitive[..|Sensitive|] == Sensitive;
    return true, None;
  }

  /** Keywords found in a text are found in any text containing it. */
  lemma MentionsMonotone(keys: seq<String>, small: String, big: String)
    requires Contains(big, small) && Mentions(keys, small)
    ensures Mentions(keys, big)
  {
    var k :| k in keys && Contains(small, k);
    ContainsTransitive(big, small, k);
  }

  /** The filter does not depend on the case of ASCII letters. */
  lemma EthicsIgnoresCase(query: String)
    ensures Ethics(Lower(query)) == Ethics(query)
  {
    LowerIdempotent(query);
  }

  /** A refused query stays refused whatever text is put around it. */
  lemma EthicsRefusalPersists(query: String, longer: String)
    requires Contains(longer, query)
    requires !Ethics(query).allowed
    ensures Ethics(longer) == Verdict(false, Some(Refusal))
  {
    ContainsLower(longer, query);
    MentionsMonotone(Prohibited, Lower(query), Lower(longer));
  }

  // ---------------------------------------------------------------------
  // run_agent_logic: the choice between retrieval and a direct answer

  const RagKeywords: seq<String> :=
    ["horari", "protocolo", "servicio", "emerg", "urgenc", "hospital", "teléfono", "telefono", "direcci", "ubicac", "consulta", "cita"]

  /** `use_rag`: some hospital keyword occurs in the lower-cased cleaned query. */
  predicate UseRag(cleanedQuery: String) {
    Mentions(RagKeywords, Lower(cleanedQuery))
  }

  /** Whether a query uses the documents does not depend on ASCII case. */
  lemma UseRagIgnoresCase(cleanedQuery: String)
    ensures UseRag(Lower(cleanedQuery)) == UseRag(cleanedQuery)
  {
    LowerIdempotent(cleanedQuery);
  }

  /** A query that uses the documents still does with more text around it. */
  lemma UseRagPersists(cleanedQuery: String, longer: String)
    requires Contains(longer, cleanedQuery) && UseRag(cleanedQuery)
    ensures UseRag(longer)
  {
    ContainsLower(longer, cleanedQuery);
    MentionsMonotone(RagKeywords, Lower(cleanedQuery), Lower(longer));
  }

  /** How `run_agent_logic` goes on with a query. */
  datatype Route =
    | Refuse(message: String)
    | Retrieve(query: String)
    | Direct(query: String)

  /**
    The first steps of `run_agent_logic`: sanitise, run the ethics filter
    on the sanitised query, refuse with its message, and otherwise search
    the documents when a hospital keyword occurs and embeddings are loaded.
    `rewritten` is the query after the prompt-injection rewrite.
  */
  function Decide(rewritten: String, embeddingsLoaded: bool): (r: Route) {
    var cleaned := DeleteUnsafe(rewritten);
    var verdict := Ethics(cleaned);
    if !verdict.allowed then Refuse(verdict.message.value)
    else if UseRag(cleaned) && embeddingsLoaded then Retrieve(cleaned)
    else Direct(cleaned)
  }

  /** Lower-casing a character never makes it unsafe or safe: no unsafe character is a letter. */
  lemma LowerCharKeepsSafety(c: char)
    ensures (LowerChar(c) in UnsafeChars) == (c in UnsafeChars)
  {
  }

  /** Sanitising and lower-casing can be done in either order. */
  lemma {:induction false} DeleteUnsafeLowerCommute(s: String)
    ensures DeleteUnsafe(Lower(s)) == Lower(DeleteUnsafe(s))
    decreases |s|
  {
    if s != [] {
      var low := Lower(s);
      LowerSlice(s, 1, |s|);
      assert s[1..|s|] == s[1..] && low[1..|s|] == low[1..];
      LowerCharKeepsSafety(s[0]);
      DeleteUnsafeLowerCommute(s[1..]);
      var rest := DeleteUnsafe(s[1..]);
      if s[0] !in UnsafeChars {
        assert Lower([s[0]] + rest) == [LowerChar(s[0])] + Lower(rest) by {
          LowerSlice([s[0]] + rest, 1, |rest| + 1);
          assert ([s[0]] + rest)[1..|rest| + 1] == rest;
        }
      }
    }
  }

  /**
    The route depends on the query only through its sanitised form, and a
    query that is not refused goes on without any unsafe character.
  */
  lemma DecideSanitised(rewritten: String, embeddingsLoaded: bool)
    ensures Decide(DeleteUnsafe(rewritten), embeddingsLoaded) == Decide(rewritten, embeddingsLoaded)
    ensures !Decide(rewritten, embeddingsLoaded).Refuse? ==>
      forall c | c in Decide(rewritten, embeddingsLoaded).query :: c !in UnsafeChars
  {
    DeleteUnsafeIdempotent(rewritten);
  }

  /** Which route a query takes does not depend on the case of its ASCII letters. */
  lemma DecideIgnoresCase(rewritten: String, embeddingsLoaded: bool)
    ensures Decide(Lower(rewritten), embeddingsLoaded).Refuse? == Decide(rewritten, embeddingsLoaded).Refuse?
    ensures Decide(Lower(rewritten), embeddingsLoaded).Retrieve? == Decide(rewritten, embeddingsLoaded).Retrieve?
    ensures Decide(Lower(rewritten), embeddingsLoaded).Direct? == Decide(rewritten, embeddingsLoaded).Direct?
  {
    var cleaned := DeleteUnsafe(rewritten);
    DeleteUnsafeLowerCommute(rewritten);
    EthicsIgnoresCase(cleaned);
    UseRagIgnoresCase(cleaned);
  }

  /** An unsafe character between two safe texts disappears and joins them. */
  lemma DeleteUnsafeJoins(a: String, u: char, b: String)
    requires forall i | 0 <= i < |a| :: a[i] !in UnsafeChars
    requires forall i | 0 <= i < |b| :: b[i] !in UnsafeChars
    requires u in UnsafeChars
    ensures DeleteUnsafe(a + [u] + b) == a + b
  {
    assert DeleteUnsafe([u]) == [] by {
      assert [u][1..] == [];
    }
    DeleteUnsafeKeepsSafe(a);
    DeleteUnsafeAppend(a, [u]);
    assert DeleteUnsafe(a + [u]) == a;
    DeleteUnsafeKeepsSafe(b);
    DeleteUnsafeAppend(a + [u], b);
  }

  /**
    The filter runs on the sanitised query, so a prohibited request cannot
    slip through by an unsafe character put inside a keyword.
  */
  lemma UnsafeCharDoesNotEvadeFilter(a: String, u: char, b: String, embeddingsLoaded: bool)
    requires forall i | 0 <= i < |a| :: a[i] !in UnsafeChars
    requires forall i | 0 <= i < |b| :: b[i] !in UnsafeChars
    requires u in UnsafeChars
    requires Mentions(Prohibited, Lower(a + b))
    ensures Decide(a + [u] + b, embeddingsLoaded) == Refuse(Refusal)
  {
    DeleteUnsafeJoins(a, u, b);
  }
}
