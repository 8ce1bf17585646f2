/**
  The word-set tokeniser shared by the relevance, context-precision and
  lexical-overlap heuristics: split on whitespace, keep the words whose raw
  length is above 2, strip the punctuation `.,?¡!():;"'` from both ends and
  lower-case.
*/
module Tokens {
  import opened Text

  /** The characters stripped from both ends of every word. */
  const Punctuation: set<char> := {'.', ',', '?', '¡', '!', '(', ')', ':', ';', '"', '\''}

  /** Only words longer than this, before stripping, become tokens. */
  const MinRawLength: nat := 2

  /** The scorers' order: lower-case, then strip. */
  function Normalize(w: String): String {
    StripChars(Lower(w), Punctuation)
  }

  /** `set(normalize(w) for w in ws if len(w) > 2)`, as the quality scorers write it. */
  function ScorerTokens(ws: seq<String>): set<String> {
    if ws == [] then {}
    else (if |ws[0]| > MinRawLength then {Normalize(ws[0])} else {}) + ScorerTokens(ws[1..])
  }

  /** The same set as the hybrid search writes it: strip first, then lower-case. */
  function SearchTokens(ws: seq<String>): set<String> {
    if ws == [] then {}
    else (if |ws[0]| > MinRawLength then {Lower(StripChars(ws[0], Punctuation))} else {}) + SearchTokens(ws[1..])
  }

  /** The token set of `s` in the quality scorers. */
  function WordSet(s: String): set<String> {
    ScorerTokens(Words(s))
  }

  /** The token set of `s` in the hybrid search. */
  function SearchWordSet(s: String): set<String> {
    SearchTokens(Words(s))
  }

  /** A token is the normalised form of some word longer than two characters. */
  lemma {:induction false} ScorerTokensMembers(ws: seq<String>, t: String)
    ensures t in ScorerTokens(ws) <==> exists k | 0 <= k < |ws| :: |ws[k]| > MinRawLength && Normalize(ws[k]) == t
  {
    if ws != [] {
      ScorerTokensMembers(ws[1..], t);
      if exists k | 0 <= k < |ws| :: |ws[k]| > MinRawLength && Normalize(ws[k]) == t {
        var k :| 0 <= k < |ws| && |ws[k]| > MinRawLength && Normalize(ws[k]) == t;
        if k > 0 {
          assert ws[1..][k - 1] == ws[k];
        }
      }
      if exists k | 0 <= k < |ws| - 1 :: |ws[1..][k]| > MinRawLength && Normalize(ws[1..][k]) == t {
        var k :| 0 <= k < |ws| - 1 && |ws[1..][k]| > MinRawLength && Normalize(ws[1..][k]) == t;
        assert ws[k + 1] == ws[1..][k];
      }
    }
  }

  lemma PunctuationClosedUnderLower()
    ensures forall c: char :: (LowerChar(c) in Punctuation) == (c in Punctuation)
  {
    forall c: char ensures (LowerChar(c) in Punctuation) == (c in Punctuation) {
      LowerCharIsLower(c);
    }
  }

  lemma {:induction false} SearchTokensAreScorerTokens(ws: seq<String>)
    ensures SearchTokens(ws) == ScorerTokens(ws)
  {
    if ws != [] {
      PunctuationClosedUnderLower();
      StripLowerCommute(ws[0], Punctuation);
      SearchTokensAreScorerTokens(ws[1..]);
    }
  }

  /** The search's tokeniser and the scorers' tokeniser give the same token set. */
  lemma SearchWordSetIsWordSet(s: String)
    ensures SearchWordSet(s) == WordSet(s)
  {
    SearchTokensAreScorerTokens(Words(s));
  }

  /** A string has no token exactly when none of its words is longer than two characters. */
  lemma WordSetEmpty(s: String)
    ensures WordSet(s) == {} <==> forall k | 0 <= k < |Words(s)| :: |Words(s)[k]| <= MinRawLength
  {
    var ws := Words(s);
    if exists k | 0 <= k < |ws| :: |ws[k]| > MinRawLength {
      var k :| 0 <= k < |ws| && |ws[k]| > MinRawLength;
      ScorerTokensMembers(ws, Normalize(ws[k]));
    } else if WordSet(s) != {} {
      var t :| t in WordSet(s);
      ScorerTokensMembers(ws, t);
    }
  }

  lemma WordHasNoSpace(s: String, k: nat)
    requires k < |Words(s)|
    ensures forall c | c in Words(s)[k] :: !IsSpace(c)
  {
    WordsCover(s);
    var w := Words(s)[k];
    forall c | c in w ensures !IsSpace(c) {
      var m :| 0 <= m < |w| && w[m] == c;
      assert !IsSpace(Words(s)[k][m]);
    }
  }

  /** Tokens hold no upper-case ASCII letter and no whitespace. */
  lemma TokensAreLowerCase(s: String, t: String)
    requires t in WordSet(s)
    ensures forall c | c in t :: !IsUpper(c) && !IsSpace(c)
  {
    ScorerTokensMembers(Words(s), t);
    var k :| 0 <= k < |Words(s)| && |Words(s)[k]| > MinRawLength && Normalize(Words(s)[k]) == t;
    var w := Words(s)[k];
    WordHasNoSpace(s, k);
    StripCharsInText(Lower(w), Punctuation);
    ContainsMembers(Lower(w), t);
    forall c | c in t ensures !IsUpper(c) && !IsSpace(c) {
      var m :| 0 <= m < |w| && Lower(w)[m] == c;
      LowerCharIsLower(w[m]);
      assert c == LowerChar(w[m]) && w[m] in w;
    }
  }
}
