/** The siRNA candidate filters of sirna_filters.py: order-preserving
    selections of the rows of a DataFrame, by a pattern searched in a
    sequence column or by a melting temperature window. */
module SirnaFilters {
  import opened Text
  import opened Frames

  /** The alternatives of the low-complexity pattern: a letter of A, C, G, U
      repeated 5 to 16 times. */
  const SirnaRepeatTerms: seq<RepeatTerm> :=
    [RepeatTerm("A", 5, 16), RepeatTerm("C", 5, 16), RepeatTerm("G", 5, 16), RepeatTerm("U", 5, 16)]

  /** Each alternative is a single letter of A, C, G, U from 5 to 16 times. */
  lemma SirnaRepeatTermShape(i: nat)
    requires i < |SirnaRepeatTerms|
    ensures SirnaRepeatTerms[i] == RepeatTerm([SirnaRepeatTerms[i].unit[0]], 5, 16)
    ensures SirnaRepeatTerms[i].unit[0] in "ACGU"
  {
  }

  /** The alternative for the letter `b`. */
  lemma SirnaRepeatTermFor(b: char) returns (i: nat)
    requires b in "ACGU"
    ensures i < |SirnaRepeatTerms| && SirnaRepeatTerms[i] == RepeatTerm([b], 5, 16)
  {
    i := if b == 'A' then 0 else if b == 'C' then 1 else if b == 'G' then 2 else 3;
  }

  /** The pattern matches exactly the sequences with a run of five equal
      letters of A, C, G, U; runs of four pass. */
  lemma SirnaRepeatPatternMeaning(s: string)
    ensures MatchesAlternation(s, SirnaRepeatTerms) <==> HasRun(s, "ACGU", 5)
  {
    if MatchesAlternation(s, SirnaRepeatTerms) {
      var i :| 0 <= i < |SirnaRepeatTerms| && ContainsRepeatBetween(s, SirnaRepeatTerms[i].unit, SirnaRepeatTerms[i].lo, SirnaRepeatTerms[i].hi);
      SirnaRepeatTermShape(i);
      var b := SirnaRepeatTerms[i].unit[0];
      BoundedRepeatSearch(s, [b], 5, 16);
    }
    if HasRun(s, "ACGU", 5) {
      var b :| b in "ACGU" && Contains(s, Repeat([b], 5));
      var i := SirnaRepeatTermFor(b);
      BoundedRepeatSearch(s, [b], 5, 16);
    }
  }

  /** `AUCGAU` at `p`, then one or more letters of A, C, G, U, then `GGGG` at
      `q`: a match of `AUCGAU[ACGU]+GGGG`. */
  predicate GapMotifAt(s: string, p: int, q: int)
  {
    && OccursAt(s, "AUCGAU", p)
    && p + 6 < q
    && OccursAt(s, "GGGG", q)
    && (forall j :: p + 6 <= j < q ==> s[j] in "ACGU")
  }

  /** A search for `AUCGAU[ACGU]+GGGG` succeeds. */
  predicate HasGapMotif(s: string)
    ensures HasGapMotif(s) ==> Contains(s, "AUCGAU") && Contains(s, "GGGG") && 11 <= |s|
  {
    exists p, q | 0 <= p <= q <= |s| :: GapMotifAt(s, p, q)
  }

  /** A search for `.*UGUGU.*|.*GUCCUUCAA.*|.*AUCGAU[ACGU]+GGGG.*` succeeds. */
  predicate HasImmuneMotif(s: string)
    ensures HasImmuneMotif(s) ==> 5 <= |s|
  {
    Contains(s, "UGUGU") || Contains(s, "GUCCUUCAA") || HasGapMotif(s)
  }

  /** On an RNA sequence the gap motif is AUCGAU and a later GGGG with at
      least one base between them. */
  lemma GapMotifOnRna(s: string)
    requires forall j :: 0 <= j < |s| ==> s[j] in "ACGU"
    ensures HasGapMotif(s) <==>
      exists p, q | 0 <= p <= q <= |s| :: OccursAt(s, "AUCGAU", p) && p + 7 <= q && OccursAt(s, "GGGG", q)
  {
    if exists p, q | 0 <= p <= q <= |s| :: OccursAt(s, "AUCGAU", p) && p + 7 <= q && OccursAt(s, "GGGG", q) {
      var p, q :| 0 <= p <= q <= |s| && OccursAt(s, "AUCGAU", p) && p + 7 <= q && OccursAt(s, "GGGG", q);
      assert GapMotifAt(s, p, q);
    }
  }

  /** `+` needs a base: AUCGAU directly followed by GGGG is no match. */
  lemma GapMotifNeedsABase(s: string)
    requires s == "AUCGAUGGGG"
    ensures !HasGapMotif(s)
  {
  }

  /** One base between the two halves is enough. */
  lemma GapMotifOneBase(s: string)
    requires s == "AUCGAUAGGGG"
    ensures HasGapMotif(s)
  {
    assert s[0..6] == "AUCGAU" && s[7..11] == "GGGG";
    assert GapMotifAt(s, 0, 7);
  }

  /** `filter_out_repeats`: drop the rows whose sequence has a run of five
      equal bases. */
  function FilterOutRepeats<T(!new)>(df: seq<T>, column: T -> string): (r: seq<T>)
    ensures ExactSelection(r, df, row => !HasRun(column(row), "ACGU", 5))
  {
    var keep := row => !MatchesAlternation(column(row), SirnaRepeatTerms);
    assert forall row :: keep(row) == !HasRun(column(row), "ACGU", 5) by {
      forall row ensures keep(row) == !HasRun(column(row), "ACGU", 5) {
        SirnaRepeatPatternMeaning(column(row));
      }
    }
    SelectExactBy(df, keep, row => !HasRun(column(row), "ACGU", 5));
    Select(df, keep)
  }

  /** `filter_out_motifs`: drop the rows whose sequence holds an
      immune-stimulating motif. */
  function FilterOutMotifs<T(!new)>(df: seq<T>, column: T -> string): (r: seq<T>)
    ensures ExactSelection(r, df, row => !Contains(column(row), "UGUGU") && !Contains(column(row), "GUCCUUCAA")
                                         && !HasGapMotif(column(row)))
  {
    var keep := row => !HasImmuneMotif(column(row));
    SelectExactBy(df, keep, row => !Contains(column(row), "UGUGU") && !Contains(column(row), "GUCCUUCAA")
                                   && !HasGapMotif(column(row)));
    Select(df, keep)
  }

  /** `filter_out_tm`: keep the rows whose melting temperature lies in
      [tmStart, tmEnd]. */
  function FilterOutTm<T(!new)>(df: seq<T>, tm: T -> real, tmStart: real, tmEnd: real): (r: seq<T>)
    ensures ExactSelection(r, df, row => tmStart <= tm(row) <= tmEnd)
  {
    var keep := row => Between(tm(row), tmStart, tmEnd);
    SelectExactBy(df, keep, row => tmStart <= tm(row) <= tmEnd);
    Select(df, keep)
  }

  /** Each filter applied twice is the filter applied once. */
  lemma SirnaFiltersIdempotent<T(!new)>(df: seq<T>, column: T -> string, tm: T -> real, tmStart: real, tmEnd: real)
    ensures FilterOutRepeats(FilterOutRepeats(df, column), column) == FilterOutRepeats(df, column)
    ensures FilterOutMotifs(FilterOutMotifs(df, column), column) == FilterOutMotifs(df, column)
    ensures FilterOutTm(FilterOutTm(df, tm, tmStart, tmEnd), tm, tmStart, tmEnd) == FilterOutTm(df, tm, tmStart, tmEnd)
  {
    SelectIdempotent(df, row => !MatchesAlternation(column(row), SirnaRepeatTerms));
    SelectIdempotent(df, row => !HasImmuneMotif(column(row)));
    SelectIdempotent(df, row => Between(tm(row), tmStart, tmEnd));
  }

  /** The three filters can be applied in any order. */
  lemma SirnaFiltersCommute<T(!new)>(df: seq<T>, column: T -> string, tm: T -> real, tmStart: real, tmEnd: real)
    ensures FilterOutMotifs(FilterOutRepeats(df, column), column) == FilterOutRepeats(FilterOutMotifs(df, column), column)
    ensures FilterOutTm(FilterOutRepeats(df, column), tm, tmStart, tmEnd)
            == FilterOutRepeats(FilterOutTm(df, tm, tmStart, tmEnd), column)
    ensures FilterOutTm(FilterOutMotifs(df, column), tm, tmStart, tmEnd)
            == FilterOutMotifs(FilterOutTm(df, tm, tmStart, tmEnd), column)
  {
    var repeats := row => !MatchesAlternation(column(row), SirnaRepeatTerms);
    var motifs := row => !HasImmuneMotif(column(row));
    var window := row => Between(tm(row), tmStart, tmEnd);
    SelectCommute(df, repeats, motifs);
    SelectCommute(df, repeats, window);
    SelectCommute(df, motifs, window);
  }
}
