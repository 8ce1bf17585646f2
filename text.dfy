/**
  The few string operations of Python's `str` that the chatbot's heuristics
  rely on: `lower`, `in`, `strip`, `split()` and `split(sep)`.

  Lower-casing is restricted to the ASCII letters and whitespace to the
  ASCII whitespace characters Python recognises; the rest of Unicode is
  left as it is.
*/
module Text {

  type String = seq<char>

  /** The ASCII characters for which Python's `str.isspace` holds. */
  const Whitespace: set<char> :=
    {' ', '\t', '\n', '\r', '\U{B}', '\U{C}', '\U{1C}', '\U{1D}', '\U{1E}', '\U{1F}'}

  predicate IsSpace(c: char) {
    c in Whitespace
  }

  predicate IsUpper(c: char) {
    'A' <= c <= 'Z'
  }

  function LowerChar(c: char): char {
    if IsUpper(c) then (c as int + 32) as char else c
  }

  lemma LowerCharIsLower(c: char)
    ensures !IsUpper(LowerChar(c))
    ensures IsUpper(c) ==> 'a' <= LowerChar(c) <= 'z'
    ensures IsSpace(LowerChar(c)) == IsSpace(c)
  {
  }

  /** `s.lower()`, on ASCII letters. */
  function Lower(s: String): String {
    seq(|s|, i requires 0 <= i < |s| => LowerChar(s[i]))
  }

  /** Python's `needle in hay` on strings. */
  predicate Contains(hay: String, needle: String) {
    exists i | 0 <= i <= |hay| :: needle <= hay[i..]
  }

  /** `s[..n]` with Python's forgiving slice bound: `s[:n]`. */
  function Prefix(s: String, n: nat): (p: String)
    ensures |p| <= n && p <= s
    ensures |s| >= n ==> |p| == n
  {
    if |s| <= n then s else s[..n]
  }

  // ---------------------------------------------------------------------
  // Lower-casing

  lemma LowerIdempotent(s: String)
    ensures Lower(Lower(s)) == Lower(s)
  {
    assert forall i | 0 <= i < |s| :: Lower(Lower(s))[i] == Lower(s)[i];
  }

  /** A string without upper-case letters is its own lower-casing. */
  lemma LowerKeepsLower(s: String)
    requires forall i | 0 <= i < |s| :: !IsUpper(s[i])
    ensures Lower(s) == s
  {
    assert forall i | 0 <= i < |s| :: Lower(s)[i] == s[i];
  }

  lemma LowerSlice(s: String, i: nat, j: nat)
    requires i <= j <= |s|
    ensures Lower(s)[i..j] == Lower(s[i..j])
  {
  }

  lemma LowerPrefix(s: String, n: nat)
    ensures Prefix(Lower(s), n) == Lower(Prefix(s, n))
  {
    if |s| > n {
      LowerSlice(s, 0, n);
    }
  }

  // ---------------------------------------------------------------------
  // Substrings

  lemma ContainsSlice(s: String, i: nat, j: nat)
    requires i <= j <= |s|
    ensures Contains(s, s[i..j])
  {
    assert s[i..j] <= s[i..];
  }

  lemma ContainsPrefix(s: String, n: nat)
    ensures Contains(s, Prefix(s, n))
  {
    assert Prefix(s, n) <= s[0..];
  }

  /** Being a substring is transitive. */
  lemma ContainsTransitive(a: String, b: String, c: String)
    requires Contains(a, b) && Contains(b, c)
    ensures Contains(a, c)
  {
    var i :| 0 <= i <= |a| && b <= a[i..];
    var j :| 0 <= j <= |b| && c <= b[j..];
    assert c <= a[i + j..];
  }

  /** Lower-casing both sides keeps a substring a substring. */
  lemma ContainsLower(hay: String, needle: String)
    requires Contains(hay, needle)
    ensures Contains(Lower(hay), Lower(needle))
  {
    var i :| 0 <= i <= |hay| && needle <= hay[i..];
    assert Lower(needle) <= Lower(hay)[i..];
  }

  /** Every character of a substring occurs in the string. */
  lemma ContainsMembers(hay: String, needle: String)
    requires Contains(hay, needle)
    ensures forall c | c in needle :: c in hay
  {
    var i :| 0 <= i <= |hay| && needle <= hay[i..];
    forall c | c in needle ensures c in hay {
      var j :| 0 <= j < |needle| && needle[j] == c;
      assert hay[i + j] == c;
    }
  }

  lemma NothingInEmpty(needle: String)
    requires needle != []
    ensures !Contains([], needle)
  {
  }

  // ---------------------------------------------------------------------
  // strip

  /** `s.strip(cs)`: `s` without its leading and trailing characters from `cs`. */
  function StripChars(s: String, cs: set<char>): (r: String)
    ensures |r| <= |s|
    ensures r == [] || (r[0] !in cs && r[|r| - 1] !in cs)
  {
    if s != [] && s[0] in cs then StripChars(s[1..], cs)
    else if s != [] && s[|s| - 1] in cs then StripChars(s[..|s| - 1], cs)
    else s
  }

  /** `s.strip()`. */
  function Strip(s: String): String {
    StripChars(s, Whitespace)
  }

  /** What `strip` keeps is a substring of the original. */
  lemma {:induction false} StripCharsInText(s: String, cs: set<char>)
    ensures Contains(s, StripChars(s, cs))
    decreases |s|
  {
    var r := StripChars(s, cs);
    if s != [] && s[0] in cs {
      StripCharsInText(s[1..], cs);
      ContainsSlice(s, 1, |s|);
      assert s[1..|s|] == s[1..];
      ContainsTransitive(s, s[1..], r);
    } else if s != [] && s[|s| - 1] in cs {
      StripCharsInText(s[..|s| - 1], cs);
      ContainsSlice(s, 0, |s| - 1);
      assert s[0..|s| - 1] == s[..|s| - 1];
      ContainsTransitive(s, s[..|s| - 1], r);
    } else {
      ContainsSlice(s, 0, |s|);
      assert s[0..|s|] == s;
    }
  }

  /** Stripping a set closed under lower-casing commutes with lower-casing. */
  lemma {:induction false} StripLowerCommute(s: String, cs: set<char>)
    requires forall c: char :: (LowerChar(c) in cs) == (c in cs)
    ensures StripChars(Lower(s), cs) == Lower(StripChars(s, cs))
    decreases |s|
  {
    var low := Lower(s);
    if s != [] && s[0] in cs {
      assert low[0] in cs && low[1..] == Lower(s[1..]);
      StripLowerCommute(s[1..], cs);
    } else if s != [] && s[|s| - 1] in cs {
      assert low[0] !in cs && low[|s| - 1] in cs;
      assert low[..|s| - 1] == Lower(s[..|s| - 1]);
      StripLowerCommute(s[..|s| - 1], cs);
    } else if s != [] {
      assert low[0] !in cs && low[|s| - 1] !in cs;
    }
  }

  // ---------------------------------------------------------------------
  // split()

  /** The length of the run of non-whitespace characters at the start of `s`. */
  function WordLen(s: String): (n: nat)
    ensures n <= |s|
    ensures forall k | 0 <= k < n :: !IsSpace(s[k])
    ensures n < |s| ==> IsSpace(s[n])
  {
    if s == [] || IsSpace(s[0]) then 0 else 1 + WordLen(s[1..])
  }

  /** `s.split()`: the maximal runs of non-whitespace characters of `s`, in order. */
  function Words(s: String): (ws: seq<String>)
    ensures forall k | 0 <= k < |ws| :: ws[k] != []
    decreases |s|
  {
    if s == [] then []
    else if IsSpace(s[0]) then Words(s[1..])
    else
      var n := WordLen(s);
      [s[..n]] + Words(s[n..])
  }

  /** `s` with every whitespace character removed. */
  function NonSpace(s: String): String {
    if s == [] then []
    else if IsSpace(s[0]) then NonSpace(s[1..])
    else [s[0]] + NonSpace(s[1..])
  }

  function Concat(ws: seq<String>): String {
    if ws == [] then [] else ws[0] + Concat(ws[1..])
  }

  lemma {:induction false} NonSpaceOfWord(s: String, n: nat)
    requires n <= |s| && forall k | 0 <= k < n :: !IsSpace(s[k])
    ensures NonSpace(s) == s[..n] + NonSpace(s[n..])
  {
    if n > 0 {
      NonSpaceOfWord(s[1..], n - 1);
      assert s[1..][n - 1..] == s[n..];
      assert s[..n] == [s[0]] + s[1..][..n - 1];
    }
  }

  /**
    The words of `s` are free of whitespace and, put back together, give
    every non-whitespace character of `s` in its original order.
  */
  lemma {:induction false} WordsCover(s: String)
    ensures Concat(Words(s)) == NonSpace(s)
    ensures forall k, j | 0 <= k < |Words(s)| && 0 <= j < |Words(s)[k]| :: !IsSpace(Words(s)[k][j])
    decreases |s|
  {
    if s == [] {
    } else if IsSpace(s[0]) {
      WordsCover(s[1..]);
    } else {
      var n := WordLen(s);
      WordsCover(s[n..]);
      NonSpaceOfWord(s, n);
      var ws := Words(s);
      assert ws == [s[..n]] + Words(s[n..]);
      assert ws[1..] == Words(s[n..]);
    }
  }

  // ---------------------------------------------------------------------
  // split(sep)

  /** `s.split(sep)`: the pieces of `s` between occurrences of `sep`, empty pieces included. */
  function Split(s: String, sep: char): (ps: seq<String>)
    ensures |ps| >= 1
    ensures forall k | 0 <= k < |ps| :: sep !in ps[k]
  {
    if s == [] then [[]]
    else
      var rest := Split(s[1..], sep);
      if s[0] == sep then [[]] + rest else [[s[0]] + rest[0]] + rest[1..]
  }

  /** `sep.join(ps)`. */
  function Join(ps: seq<String>, sep: char): String
    requires |ps| >= 1
  {
    if |ps| == 1 then ps[0] else ps[0] + [sep] + Join(ps[1..], sep)
  }

  /** Joining the pieces with the separator gives back the string. */
  lemma {:induction false} JoinSplit(s: String, sep: char)
    ensures Join(Split(s, sep), sep) == s
  {
    if s != [] {
      var rest := Split(s[1..], sep);
      JoinSplit(s[1..], sep);
      if s[0] != sep {
        var ps := Split(s, sep);
        assert ps[1..] == rest[1..];
        if |rest| > 1 {
          assert rest == [rest[0]] + rest[1..];
        }
      }
    }
  }

  lemma {:induction false} SplitNoSep(a: String, sep: char)
    requires sep !in a
    ensures Split(a, sep) == [a]
  {
    if a != [] {
      SplitNoSep(a[1..], sep);
      assert a == [a[0]] + a[1..];
    }
  }

  lemma {:induction false} SplitAfterPiece(a: String, b: String, sep: char)
    requires sep !in a
    ensures Split(a + [sep] + b, sep) == [a] + Split(b, sep)
  {
    if a == [] {
      assert ([sep] + b)[1..] == b;
    } else {
      var s := a + [sep] + b;
      SplitAfterPiece(a[1..], b, sep);
      assert s[0] == a[0] && s[1..] == a[1..] + [sep] + b;
      var rest := Split(s[1..], sep);
      assert rest[0] == a[1..] && rest[1..] == Split(b, sep);
      assert a == [a[0]] + a[1..];
    }
  }

  /** Splitting a join of separator-free pieces gives back the pieces. */
  lemma {:induction false} SplitJoin(ps: seq<String>, sep: char)
    requires |ps| >= 1 && forall k | 0 <= k < |ps| :: sep !in ps[k]
    ensures Split(Join(ps, sep), sep) == ps
  {
    if |ps| == 1 {
      SplitNoSep(ps[0], sep);
    } else {
      SplitJoin(ps[1..], sep);
      SplitAfterPiece(ps[0], Join(ps[1..], sep), sep);
    }
  }

  lemma {:induction false} JoinContainsPiece(ps: seq<String>, sep: char, k: nat)
    requires k < |ps|
    ensures Contains(Join(ps, sep), ps[k])
  {
    var j := Join(ps, sep);
    if |ps| == 1 {
      ContainsSlice(j, 0, |j|);
      assert j[0..|j|] == j;
    } else if k == 0 {
      ContainsSlice(j, 0, |ps[0]|);
      assert j[0..|ps[0]|] == ps[0];
    } else {
      JoinContainsPiece(ps[1..], sep, k - 1);
      var rest := Join(ps[1..], sep);
      ContainsSlice(j, |ps[0]| + 1, |j|);
      assert j[|ps[0]| + 1..|j|] == rest;
      ContainsTransitive(j, rest, ps[k]);
    }
  }

  /** Every piece of `s.split(sep)` is a substring of `s`. */
  lemma SplitPieceInText(s: String, sep: char, k: nat)
    requires k < |Split(s, sep)|
    ensures Contains(s, Split(s, sep)[k])
  {
    JoinContainsPiece(Split(s, sep), sep, k);
    JoinSplit(s, sep);
  }
}
