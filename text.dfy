/** Substring predicates used to state regular-expression searches and
    string-library lookups explicitly. */
module Text {

  /** `w` occurs in `s` starting at position `p`. */
  predicate OccursAt(s: string, w: string, p: int)
  {
    0 <= p && p + |w| <= |s| && s[p..p + |w|] == w
  }

  /** `w` is a substring of `s`: what a regex search for the literal `w` reports. */
  predicate Contains(s: string, w: string)
  {
    exists p | 0 <= p <= |s| :: OccursAt(s, w, p)
  }

  /** `k` consecutive copies of `w` (the regex `(w){k}`). */
  function Repeat(w: string, k: nat): (r: string)
    ensures |r| == k * |w|
  {
    if k == 0 then [] else w + Repeat(w, k - 1)
  }

  /** Regex `(w){lo,hi}` searched anywhere in `s`. */
  predicate ContainsRepeatBetween(s: string, w: string, lo: nat, hi: nat)
  {
    exists k :: lo <= k <= hi && Contains(s, Repeat(w, k))
  }

  lemma {:induction false} RepeatSplit(w: string, j: nat, k: nat)
    requires j <= k
    ensures Repeat(w, k) == Repeat(w, j) + Repeat(w, k - j)
  {
    if j > 0 {
      RepeatSplit(w, j - 1, k - 1);
    }
  }

  /** A substring of a prefix of `s` at p is also a substring of `s` at p. */
  lemma ContainsPrefixOf(s: string, u: string, v: string)
    requires Contains(s, u + v)
    ensures Contains(s, u)
  {
    var p :| 0 <= p <= |s| && OccursAt(s, u + v, p);
    assert s[p..p + |u|] == (u + v)[..|u|];
    assert OccursAt(s, u, p);
  }

  /** The upper bound of a searched repetition `(w){lo,hi}` never matters:
      a search succeeds exactly when `lo` copies occur. */
  lemma BoundedRepeatSearch(s: string, w: string, lo: nat, hi: nat)
    requires lo <= hi
    ensures ContainsRepeatBetween(s, w, lo, hi) <==> Contains(s, Repeat(w, lo))
  {
    if ContainsRepeatBetween(s, w, lo, hi) {
      var k :| lo <= k <= hi && Contains(s, Repeat(w, k));
      RepeatSplit(w, lo, k);
      ContainsPrefixOf(s, Repeat(w, lo), Repeat(w, k - lo));
    }
  }

  /** Some letter of `alphabet` occurs `n` times in a row in `s`. */
  predicate HasRun(s: string, alphabet: string, n: nat)
  {
    exists b | b in alphabet :: Contains(s, Repeat([b], n))
  }

  /** Some unit of two different letters of `alphabet` occurs `n` times in a
      row in `s`. */
  predicate HasDinucleotideRepeat(s: string, alphabet: string, n: nat)
  {
    exists x, y | x in alphabet && y in alphabet && x != y :: Contains(s, Repeat([x, y], n))
  }

  /** One alternative `(unit){lo,hi}` of a regular-expression alternation. */
  datatype RepeatTerm = RepeatTerm(unit: string, lo: nat, hi: nat)

  /** A regex search for `.*(t1|t2|...).*` succeeds: some alternative occurs
      somewhere (the `.*` on either side may match nothing). */
  predicate MatchesAlternation(s: string, terms: seq<RepeatTerm>)
    ensures MatchesAlternation(s, terms) ==>
      exists i | 0 <= i < |terms| :: Contains(s, Repeat(terms[i].unit, terms[i].lo))
  {
    AlternationNeedsLowerBound(s, terms);
    exists i | 0 <= i < |terms| :: ContainsRepeatBetween(s, terms[i].unit, terms[i].lo, terms[i].hi)
  }

  /** A match of an alternative `(w){lo,hi}` holds at least `lo` copies of `w`. */
  lemma AlternationNeedsLowerBound(s: string, terms: seq<RepeatTerm>)
    ensures (exists i | 0 <= i < |terms| :: ContainsRepeatBetween(s, terms[i].unit, terms[i].lo, terms[i].hi)) ==>
      exists i | 0 <= i < |terms| :: Contains(s, Repeat(terms[i].unit, terms[i].lo))
  {
    if exists i | 0 <= i < |terms| :: ContainsRepeatBetween(s, terms[i].unit, terms[i].lo, terms[i].hi) {
      var i :| 0 <= i < |terms| && ContainsRepeatBetween(s, terms[i].unit, terms[i].lo, terms[i].hi);
      var w, lo := terms[i].unit, terms[i].lo;
      var k :| lo <= k <= terms[i].hi && Contains(s, Repeat(w, k));
      RepeatSplit(w, lo, k);
      ContainsPrefixOf(s, Repeat(w, lo), Repeat(w, k - lo));
    }
  }

  /** Position `p` starts `n` consecutive copies of the letter `b`. */
  predicate RunAt(s: string, b: char, p: int, n: nat)
  {
    0 <= p && p + n <= |s| && forall j :: p <= j < p + n ==> s[j] == b
  }

  /** Every letter of `n` copies of `[b]` is `b`. */
  lemma {:induction false} RepeatLetter(b: char, n: nat, j: nat)
    requires j < n
    ensures Repeat([b], n)[j] == b
  {
    if j > 0 {
      RepeatLetter(b, n - 1, j - 1);
    }
  }

  /** Searching for `n` copies of one letter finds exactly a run of that letter. */
  lemma ContainsRunMeaning(s: string, b: char, n: nat)
    ensures Contains(s, Repeat([b], n)) <==> exists p | 0 <= p <= |s| :: RunAt(s, b, p, n)
  {
    var w := Repeat([b], n);
    if Contains(s, w) {
      var p :| 0 <= p <= |s| && OccursAt(s, w, p);
      forall j | p <= j < p + n
        ensures s[j] == b
      {
        assert s[j] == w[j - p];
        RepeatLetter(b, n, j - p);
      }
      assert RunAt(s, b, p, n);
    }
    if exists p | 0 <= p <= |s| :: RunAt(s, b, p, n) {
      var p :| 0 <= p <= |s| && RunAt(s, b, p, n);
      forall j | 0 <= j < n
        ensures s[p..p + n][j] == w[j]
      {
        RepeatLetter(b, n, j);
      }
      assert s[p..p + n] == w;
      assert OccursAt(s, w, p);
    }
  }
}
