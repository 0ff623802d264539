/** The ASO candidate filters of aso_filters.py: each keeps, in order, the
    rows of a DataFrame whose cell in one column passes a test. A DataFrame is
    the sequence of its rows; the column is an accessor from a row to its cell. */
module AsoFilters {
  import opened Text
  import opened Frames

  /** The alternatives of the low-complexity pattern, in the pattern's order;
      the unit AC is listed twice, as in the pattern. */
  const AsoRepeatTerms: seq<RepeatTerm> := [
    RepeatTerm("A", 5, 16), RepeatTerm("C", 5, 16), RepeatTerm("G", 5, 16), RepeatTerm("T", 5, 16),
    RepeatTerm("AC", 3, 8), RepeatTerm("AC", 3, 8), RepeatTerm("AG", 3, 8), RepeatTerm("AT", 3, 8),
    RepeatTerm("CA", 3, 8), RepeatTerm("CG", 3, 8), RepeatTerm("CT", 3, 8), RepeatTerm("GA", 3, 8),
    RepeatTerm("GC", 3, 8), RepeatTerm("GT", 3, 8), RepeatTerm("TA", 3, 8), RepeatTerm("TC", 3, 8),
    RepeatTerm("TG", 3, 8)]

  /** The reference meaning of the pattern: a run of five equal letters of
      A, C, G, T, or three copies in a row of a unit of two different letters. */
  predicate LowComplexity(s: string)
  {
    HasRun(s, "ACGT", 5) || HasDinucleotideRepeat(s, "ACGT", 3)
  }

  /** Each alternative is a single letter of A, C, G, T from 5 to 16 times or
      a unit of two different such letters from 3 to 8 times. */
  lemma AsoRepeatTermShapes(i: nat)
    requires i < |AsoRepeatTerms|
    ensures var t := AsoRepeatTerms[i];
      || (|t.unit| == 1 && t.unit[0] in "ACGT" && t.lo == 5 && t.hi == 16)
      || (|t.unit| == 2 && t.unit[0] in "ACGT" && t.unit[1] in "ACGT" && t.unit[0] != t.unit[1]
          && t.lo == 3 && t.hi == 8)
  {
  }

  /** Every unit of two different letters of A, C, G, T is an alternative
      repeated 3 to 8 times. */
  lemma AsoRepeatTermsCoverUnits(x: char, y: char) returns (i: nat)
    requires x in "ACGT" && y in "ACGT" && x != y
    ensures i < |AsoRepeatTerms| && AsoRepeatTerms[i] == RepeatTerm([x, y], 3, 8)
  {
    if x == 'A' {
      i := if y == 'C' then 4 else if y == 'G' then 6 else 7;
    } else if x == 'C' {
      i := if y == 'A' then 8 else if y == 'G' then 9 else 10;
    } else if x == 'G' {
      i := if y == 'A' then 11 else if y == 'C' then 12 else 13;
    } else {
      i := if y == 'A' then 14 else if y == 'C' then 15 else 16;
    }
  }

  /** A match of one alternative is a low-complexity stretch. */
  lemma AlternativeIsLowComplexity(s: string, i: nat)
    requires i < |AsoRepeatTerms|
    requires ContainsRepeatBetween(s, AsoRepeatTerms[i].unit, AsoRepeatTerms[i].lo, AsoRepeatTerms[i].hi)
    ensures LowComplexity(s)
  {
    var t := AsoRepeatTerms[i];
    AsoRepeatTermShapes(i);
    BoundedRepeatSearch(s, t.unit, t.lo, t.hi);
    if |t.unit| == 1 {
      assert t.unit == [t.unit[0]];
      assert HasRun(s, "ACGT", 5);
    } else {
      assert t.unit == [t.unit[0], t.unit[1]];
      assert HasDinucleotideRepeat(s, "ACGT", 3);
    }
  }

  /** A match of alternative `i` is a match of the alternation. */
  lemma AlternativeMatches(s: string, i: nat, k: nat)
    requires i < |AsoRepeatTerms|
    requires AsoRepeatTerms[i].lo <= k <= AsoRepeatTerms[i].hi
    requires Contains(s, Repeat(AsoRepeatTerms[i].unit, k))
    ensures MatchesAlternation(s, AsoRepeatTerms)
  {
    assert ContainsRepeatBetween(s, AsoRepeatTerms[i].unit, AsoRepeatTerms[i].lo, AsoRepeatTerms[i].hi);
  }

  /** Every letter of A, C, G, T is an alternative repeated 5 to 16 times. */
  lemma AsoRepeatTermsCoverRuns(b: char) returns (i: nat)
    requires b in "ACGT"
    ensures i < |AsoRepeatTerms| && AsoRepeatTerms[i] == RepeatTerm([b], 5, 16)
  {
    i := if b == 'A' then 0 else if b == 'C' then 1 else if b == 'G' then 2 else 3;
  }

  /** A low-complexity stretch matches some alternative. */
  lemma LowComplexityMatches(s: string)
    requires LowComplexity(s)
    ensures MatchesAlternation(s, AsoRepeatTerms)
  {
    if HasRun(s, "ACGT", 5) {
      var b :| b in "ACGT" && Contains(s, Repeat([b], 5));
      var i := AsoRepeatTermsCoverRuns(b);
      AlternativeMatches(s, i, 5);
    } else {
      var x, y :| x in "ACGT" && y in "ACGT" && x != y && Contains(s, Repeat([x, y], 3));
      var i := AsoRepeatTermsCoverUnits(x, y);
      AlternativeMatches(s, i, 3);
    }
  }

  /** The pattern matches exactly the low-complexity sequences: its upper
      bounds 16 and 8 and its duplicated alternative change nothing. */
  lemma AsoRepeatPatternMeaning(s: string)
    ensures MatchesAlternation(s, AsoRepeatTerms) <==> LowComplexity(s)
  {
    if MatchesAlternation(s, AsoRepeatTerms) {
      var i :| 0 <= i < |AsoRepeatTerms| && ContainsRepeatBetween(s, AsoRepeatTerms[i].unit, AsoRepeatTerms[i].lo, AsoRepeatTerms[i].hi);
      AlternativeIsLowComplexity(s, i);
    }
    if LowComplexity(s) {
      LowComplexityMatches(s);
    }
  }

  /** `filter_out_repeats`: drop the rows whose sequence matches the
      low-complexity pattern. */
  function FilterOutRepeats<T(!new)>(df: seq<T>, column: T -> string): (r: seq<T>)
    ensures ExactSelection(r, df, row => !LowComplexity(column(row)))
  {
    var keep := row => !MatchesAlternation(column(row), AsoRepeatTerms);
    assert forall row :: keep(row) == !LowComplexity(column(row)) by {
      forall row ensures keep(row) == !LowComplexity(column(row)) {
        AsoRepeatPatternMeaning(column(row));
      }
    }
    SelectExactBy(df, keep, row => !LowComplexity(column(row)));
    Select(df, keep)
  }

  /** `filter_gc_content`: keep the rows whose GC content lies in
      [minGc, maxGc]. */
  function FilterGcContent<T(!new)>(df: seq<T>, gc: T -> real, minGc: real, maxGc: real): (r: seq<T>)
    ensures ExactSelection(r, df, row => minGc <= gc(row) <= maxGc)
  {
    var keep := row => Between(gc(row), minGc, maxGc);
    SelectExactBy(df, keep, row => minGc <= gc(row) <= maxGc);
    Select(df, keep)
  }

  /** `filter_pLfold`: keep the rows whose accessibility is at least the threshold. */
  function FilterPLfold<T(!new)>(df: seq<T>, pLfold: T -> real, threshold: real): (r: seq<T>)
    ensures ExactSelection(r, df, row => pLfold(row) >= threshold)
  {
    SelectExact(df, row => pLfold(row) >= threshold);
    Select(df, row => pLfold(row) >= threshold)
  }

  /** `filter_ASO_ASO_freeenergy`: keep the rows whose ASO-ASO free energy is
      at least the threshold. */
  function FilterAsoAsoFreeEnergy<T(!new)>(df: seq<T>, energy: T -> real, threshold: real): (r: seq<T>)
    ensures ExactSelection(r, df, row => energy(row) >= threshold)
  {
    SelectExact(df, row => energy(row) >= threshold);
    Select(df, row => energy(row) >= threshold)
  }

  /** `filter_ASO_transcriptfreeenergy`: keep the rows whose ASO-transcript
      free energy lies in [minTfe, maxTfe]. */
  function FilterAsoTranscriptFreeEnergy<T(!new)>(df: seq<T>, energy: T -> real, minTfe: real, maxTfe: real): (r: seq<T>)
    ensures ExactSelection(r, df, row => minTfe <= energy(row) <= maxTfe)
  {
    var keep := row => Between(energy(row), minTfe, maxTfe);
    SelectExactBy(df, keep, row => minTfe <= energy(row) <= maxTfe);
    Select(df, keep)
  }

  /** An empty GC window keeps nothing. */
  lemma FilterGcContentEmptyWindow<T(!new)>(df: seq<T>, gc: T -> real, minGc: real, maxGc: real)
    requires minGc > maxGc
    ensures FilterGcContent(df, gc, minGc, maxGc) == []
  {
    SelectNone(df, row => Between(gc(row), minGc, maxGc));
  }

  /** An empty free-energy window keeps nothing. */
  lemma FilterAsoTranscriptFreeEnergyEmptyWindow<T(!new)>(df: seq<T>, energy: T -> real, minTfe: real, maxTfe: real)
    requires minTfe > maxTfe
    ensures FilterAsoTranscriptFreeEnergy(df, energy, minTfe, maxTfe) == []
  {
    SelectNone(df, row => Between(energy(row), minTfe, maxTfe));
  }

  /** Each filter applied twice is the filter applied once. */
  lemma AsoFiltersIdempotent<T(!new)>(df: seq<T>, column: T -> string, value: T -> real, lo: real, hi: real, threshold: real)
    ensures FilterOutRepeats(FilterOutRepeats(df, column), column) == FilterOutRepeats(df, column)
    ensures FilterGcContent(FilterGcContent(df, value, lo, hi), value, lo, hi) == FilterGcContent(df, value, lo, hi)
    ensures FilterPLfold(FilterPLfold(df, value, threshold), value, threshold) == FilterPLfold(df, value, threshold)
    ensures FilterAsoAsoFreeEnergy(FilterAsoAsoFreeEnergy(df, value, threshold), value, threshold)
            == FilterAsoAsoFreeEnergy(df, value, threshold)
    ensures FilterAsoTranscriptFreeEnergy(FilterAsoTranscriptFreeEnergy(df, value, lo, hi), value, lo, hi)
            == FilterAsoTranscriptFreeEnergy(df, value, lo, hi)
  {
    SelectIdempotent(df, row => !MatchesAlternation(column(row), AsoRepeatTerms));
    SelectIdempotent(df, row => Between(value(row), lo, hi));
    SelectIdempotent(df, row => value(row) >= threshold);
  }
}
