/** Overlapping motif counting (`count_motif_overlap` in sirna_scores.py)
    together with the string search it is built on (Python's `str.find`). */
module MotifOverlap {
  import opened Text

  /** Python's `text.find(motif, start)`: the lowest position p >= start where
      `motif` occurs, or -1. A start past the end of the text finds nothing. */
  function Find(text: string, motif: string, start: nat): (p: int)
    decreases |text| - start
    ensures p == -1 || (start <= p && OccursAt(text, motif, p))
    ensures p == -1 ==> forall q :: start <= q ==> !OccursAt(text, motif, q)
    ensures p != -1 ==> forall q :: start <= q < p ==> !OccursAt(text, motif, q)
  {
    if start + |motif| > |text| then -1
    else if text[start..start + |motif|] == motif then start
    else Find(text, motif, start + 1)
  }

  /** Every start position of `motif` in `text`, overlapping ones included. */
  function MatchPositions(text: string, motif: string): set<nat>
  {
    set p: nat | p <= |text| && OccursAt(text, motif, p)
  }

  /** The start positions of `motif` below `bound`. */
  ghost function MatchesBelow(text: string, motif: string, bound: nat): set<nat>
  {
    set p: nat | p < bound && OccursAt(text, motif, p)
  }

  /** The number of (possibly overlapping) occurrences of `motif` in `text`. */
  function OverlapCount(text: string, motif: string): (n: nat)
    ensures n == 0 <==> !Contains(text, motif)
  {
    NoPositionsIffAbsent(text, motif);
    |MatchPositions(text, motif)|
  }

  /** There is no start position exactly when the motif does not occur. */
  lemma NoPositionsIffAbsent(text: string, motif: string)
    ensures |MatchPositions(text, motif)| == 0 <==> !Contains(text, motif)
  {
    if Contains(text, motif) {
      var p :| 0 <= p <= |text| && OccursAt(text, motif, p);
      assert p in MatchPositions(text, motif);
    } else {
      assert MatchPositions(text, motif) == {};
    }
  }

  /** `count_motif_overlap`: repeatedly search one position past the previous
      match start, counting the hits, until the search fails. */
  method CountMotifOverlap(text: string, motif: string) returns (count: nat)
    ensures count == OverlapCount(text, motif)
  {
    count := 0;
    var start: nat := 0;
    while true
      invariant start <= |text| + 1
      invariant count == |MatchesBelow(text, motif, start)|
      decreases |text| + 1 - start
    {
      var pos := Find(text, motif, start);
      if pos == -1 {
        NoMatchesFrom(text, motif, start);
        break;
      }
      MatchStep(text, motif, start, pos);
      count := count + 1;
      start := pos + 1;
    }
  }

  /** One iteration of the search loop adds exactly the position found. */
  lemma MatchStep(text: string, motif: string, start: nat, pos: nat)
    requires start <= pos && OccursAt(text, motif, pos)
    requires forall q :: start <= q < pos ==> !OccursAt(text, motif, q)
    ensures |MatchesBelow(text, motif, pos + 1)| == |MatchesBelow(text, motif, start)| + 1
  {
    var before := MatchesBelow(text, motif, start);
    assert MatchesBelow(text, motif, pos + 1) == before + {pos};
    assert pos !in before;
  }

  /** When the search from `start` fails, the matches seen so far are all of them. */
  lemma NoMatchesFrom(text: string, motif: string, start: nat)
    requires forall q :: start <= q ==> !OccursAt(text, motif, q)
    ensures MatchesBelow(text, motif, start) == MatchPositions(text, motif)
  {
  }

  /** The positions 0 .. n-1. */
  function Range(n: nat): (r: set<nat>)
    ensures forall p: nat :: p in r <==> p < n
    ensures |r| == n
  {
    if n == 0 then {} else Range(n - 1) + {n - 1}
  }

  /** A motif longer than the text is never found; otherwise there are at most
      |text| - |motif| + 1 start positions to find it at. */
  lemma OverlapCountBound(text: string, motif: string)
    ensures |motif| > |text| ==> OverlapCount(text, motif) == 0
    ensures |motif| <= |text| ==> OverlapCount(text, motif) <= |text| - |motif| + 1
  {
    var n := |text| - |motif| + 1;
    if |motif| > |text| {
      assert MatchPositions(text, motif) == {};
    } else {
      assert MatchPositions(text, motif) <= Range(n);
      SubsetCardinality(MatchPositions(text, motif), Range(n));
    }
  }

  /** A subset is no larger than the set that holds it. */
  lemma SubsetCardinality<T>(a: set<T>, b: set<T>)
    requires a <= b
    ensures |a| <= |b|
  {
    assert b == a + (b - a);
  }

  /** The empty motif is found at every position including the end, as
      `str.find("", start)` succeeds for every start <= |text|. */
  lemma EmptyMotifCount(text: string)
    ensures OverlapCount(text, "") == |text| + 1
  {
    assert MatchPositions(text, "") == Range(|text| + 1);
  }

  /** The worked examples: overlaps count ("AAAA" holds "AA" three times),
      disjoint hits count once each, and a too-long motif counts zero. */
  lemma OverlapCountExamples()
    ensures OverlapCount("AAAA", "AA") == 3
    ensures OverlapCount("ABAB", "AB") == 2
    ensures OverlapCount("AAAA", "AAAAA") == 0
  {
    assert OccursAt("AAAA", "AA", 0) && OccursAt("AAAA", "AA", 1) && OccursAt("AAAA", "AA", 2);
    assert MatchPositions("AAAA", "AA") == {0, 1, 2};
    assert OccursAt("ABAB", "AB", 0) && OccursAt("ABAB", "AB", 2);
    assert "ABAB"[1..3] == "BA";
    assert MatchPositions("ABAB", "AB") == {0, 2};
    OverlapCountBound("AAAA", "AAAAA");
  }
}
