# siRNA / ASO scoring and filtering, modelled in Dafny

This project models the candidate-design helpers of a siRNA and antisense
oligonucleotide (ASO) design toolkit and proves properties about them:

- `sirna_scores.py`. It one-hot encodes an RNA guide over A, C, G, U. It scores
  the guide with a position weight matrix (PWM). It counts a motif's
  overlapping occurrences. It combines these into five published efficacy
  scorers: DSIR, Katoh, sBiopredsi, iScore and Dharmacon.
- `aso_filters.py` and `sirna_filters.py`. These filter a table of candidates
  by a regular-expression search in a sequence column, or by a numeric
  window or threshold.
- `dna_encoders.py`. This gives the one-hot encoding of DNA over A, C, G, T,
  and of eight modified-nucleotide tokens.

How the model is set up:

- Weights and scores are exact `real`s.
- The published tables are constants in `SirnaTables`. Every scorer also
  takes its table as a parameter.
- A DataFrame is the sequence of its rows. A column is an accessor from a row
  to its cell. Indexing by a boolean mask is an order-preserving selection
  (`Frames.Select`).
- A `KeyError` from a dictionary lookup is an `Err` value of `Outcomes.Result`.
- numpy's refusal to broadcast two shapes is also an `Err` value.

The modules, one file each:

- `Outcomes`: results and errors.
- `Vectors`: identity-matrix rows and decoding the position of the 1.0 in a row.
- `Text`: substring, repetition and run predicates for the regular expressions.
- `MotifOverlap`: `str.find` and the counting loop.
- `SirnaTables`: the published constants.
- `SirnaScores`: the encoder, the PWM score and the five scorers.
- `Frames`: mask selection and what it means.
- `AsoFilters`, `SirnaFilters`, `DnaEncoders`.

Two imperative parts of `sirna_scores.py` stay imperative:

- `one_hot_encode` fills a zeroed matrix in a loop. Here it is the method
  `OneHotEncode`, which fills an `array2<real>`.
- `count_motif_overlap` is a `while True` loop around `str.find`. Here it is
  the method `CountMotifOverlap`.

Each method is proved against a pure specification: `OneHot` for the first,
`OverlapCount` for the second.

Where the code and its documentation differ, the model follows the code.
The docstring of the siRNA `filter_out_repeats` names runs of four letters.
The pattern requires five, so a run of four passes the filter.

The logistic step of `sBiopredsi_score` (sirna_scores.py:190) computes
1 / (1 + exp(-raw - 0.204977962358907)), where `raw` is the PWM score. That is
the logistic function of `raw + 0.204977962358907`, and it increases with the
PWM score.

## Model

| member | source | states |
|---|---|---|
| SirnaScores.OneHot | sirna_scores.py:144-149 | Success exactly when every symbol is A, C, G or U. Then there is one row per symbol, and row i is the unit row at column A→0, C→1, G→2, U→3 of symbol i. Otherwise the error is the first symbol outside the alphabet, never a zero row. |
| SirnaScores.OneHotEncode | sirna_scores.py:144-149 | The loop over a zero-initialised \|s\|×4 array ends with exactly the cells of `OneHot(s)`. It returns the same error at the first invalid symbol. |
| SirnaScores.OneHotRoundTrip | sirna_scores.py:144-149 | Reading each row's 1.0 back through A, C, G, U gives back the sequence. |
| SirnaScores.OneHotInjective | sirna_scores.py:144-149 | Two RNA sequences with the same encoding are equal. |
| SirnaScores.ScorePwm | sirna_scores.py:151-152 | The elementwise product of one-hot matrix and PWM, summed, with numpy broadcasting of a single row. It succeeds exactly when the sequence is RNA and the row counts can broadcast. The invalid-symbol error comes first, then the shape error. |
| SirnaScores.ScorePwmLookup | sirna_scores.py:151-152 | For an RNA sequence as long as the PWM, the score is the sum over positions of the weight of the observed base. |
| SirnaScores.ScorePwmScale | sirna_scores.py:151-152 | Multiplying every PWM weight by k multiplies the score by k. |
| SirnaScores.ScorePwmAdd | sirna_scores.py:151-152 | The score for the sum of two PWMs is the sum of their scores. |
| SirnaScores.ScorePwmSingleBase | sirna_scores.py:151-152 | A one-base sequence is broadcast against every PWM row. It scores as that base repeated once per row. |
| SirnaScores.SumScale | sirna_scores.py:152 | A sum of terms each scaled by k is k times the sum (the step behind `ScorePwmScale`). |
| SirnaScores.SumAdd | sirna_scores.py:152 | The sum of termwise sums is the sum of the two sums (the step behind `ScorePwmAdd`). |
| MotifOverlap.Find | sirna_scores.py:158 | `str.find` from `start`. The result is -1 exactly when the motif occurs at no position at or after `start`. Otherwise it is the first such position. |
| MotifOverlap.CountMotifOverlap | sirna_scores.py:154-163 | The find / `start = pos + 1` loop terminates. It returns the number of positions where the motif occurs, overlapping occurrences included. |
| MotifOverlap.OverlapCount | sirna_scores.py:154-163 | The count of occurrence positions. It is 0 exactly when the motif does not occur in the text. |
| MotifOverlap.OverlapCountBound | sirna_scores.py:154-163 | A motif longer than the text occurs 0 times. Otherwise it occurs at most \|text\| − \|motif\| + 1 times. |
| MotifOverlap.EmptyMotifCount | sirna_scores.py:154-163 | The empty motif is found at every one of the \|text\| + 1 positions. |
| MotifOverlap.OverlapCountExamples | sirna_scores.py:154-163 | "AA" occurs 3 times in "AAAA", "AB" twice in "ABAB", and "AAAAA" never in "AAAA". |
| SirnaScores.Duplex | sirna_scores.py:173 | `s[:19]`: the first min(\|s\|, 19) symbols. |
| SirnaScores.DsirScoreWith | sirna_scores.py:171-174 | For any sparse and spectrum tables: success exactly when the sequence is RNA and its row count broadcasts against the sparse table. Otherwise the one-hot error of the first invalid symbol, and for RNA the shape error of the two row counts. |
| SirnaScores.DsirScore | sirna_scores.py:171-174 | With the published 21-row sparse table: success exactly on RNA of length 21, or of length 1, which numpy broadcasts. An invalid symbol gives the one-hot error. RNA of any other length gives the shape error (length, 21). |
| SirnaScores.DsirDecomposition | sirna_scores.py:171-174 | The DSIR score is (PWM sum + spectrum term over the first 19 bases + 0.6938215) × 100. A symbol outside A, C, G, U gives the one-hot error. |
| SirnaScores.DsirZeroSparse | sirna_scores.py:171-174 | With an all-zero sparse PWM, only the spectrum term and the offset remain. |
| SirnaScores.LookupSumOverhang | sirna_scores.py:172 | Two 21-mers that agree on their first 19 bases differ in the PWM sum only by the weights at positions 19 and 20. |
| SirnaScores.DsirOverhangOnlySparse | sirna_scores.py:171-174 | Changing only the 3' overhang (positions 19 and 20) leaves the spectrum term unchanged. It moves the score by 100 × the change of the sparse weights at those positions. |
| SirnaScores.DsirScoreOverhang | sirna_scores.py:171-174 | The same overhang property for the published sparse-21 and spectrum-21 tables. |
| SirnaScores.CountBounds | sirna_scores.py:180 | `s.count(c)` is at most \|s\|. It is 0 exactly when c does not occur in s. |
| SirnaScores.BaseCountsSum | sirna_scores.py:180 | For an RNA sequence the counts of A, C, G and U add up to its length. |
| SirnaScores.MacroStep | sirna_scores.py:180-181 | Appending a base adds that base's macro weight to the macro component. |
| SirnaScores.MacroAsLookup | sirna_scores.py:180-181 | The contract for `MacroScore`: the macro component (the base counts dotted with the macro weights) equals the PWM sum of the PWM that repeats the macro row at every position. |
| SirnaScores.MacroAsScore | sirna_scores.py:180-181 | On RNA, the macro component is the successful PWM score of the PWM that repeats the macro row at every position. |
| SirnaScores.KatohScoreWith | sirna_scores.py:179-183 | For any macro row: success exactly when the micro PWM score succeeds (RNA, and row counts that broadcast). The errors are the micro score's: the one-hot error first, then the shape error. |
| SirnaScores.KatohScore | sirna_scores.py:179-183 | The same success condition and errors with the published macro row and micro PWM. |
| SirnaScores.KatohAsSum | sirna_scores.py:179-183 | If some PWM q scores exactly the macro component, then the Katoh score is the PWM score of q + micro PWM. |
| SirnaScores.KatohWithAsSinglePwm | sirna_scores.py:179-183 | For any macro row, macro component + micro PWM score equals the PWM score of micro PWM + macro row at every position. |
| SirnaScores.KatohAsSinglePwm | sirna_scores.py:179-183 | The Katoh score fails exactly when the micro PWM score fails. For RNA of the PWM's length it equals the PWM score of micro PWM + macro row at every position. |
| SirnaScores.RescaleStrictlyIncreasing | sirna_scores.py:191 | The published affine rescaling is strictly increasing. |
| SirnaScores.RescaleBounds | sirna_scores.py:191 | The rescaling maps [0, 1] into [Rescale(0), Rescale(1)]. |
| SirnaScores.Logistic | sirna_scores.py:190 | For a non-negative exponential value the logistic step lies in (0, 1], and it is 1 exactly when that value is 0. |
| SirnaScores.SBiopredsiScore | sirna_scores.py:188-192 | Success exactly when the sequence is RNA and its row count broadcasts against the PWM. The errors are the PWM score's: the one-hot error first, then the shape error. For any non-negative `exp`, a result lies in (Rescale(0), Rescale(1)]. |
| SirnaScores.IScore | sirna_scores.py:197-198 | Success exactly when the sequence is RNA and its row count broadcasts against the PWM. The errors are the PWM score's: the one-hot error first, then the shape error. |
| SirnaScores.IScoreClosedForm | sirna_scores.py:197-198 | iScore is the PWM sum itself, with no adjustment, and it is linear in the PWM. |
| SirnaScores.MatchesArePresent | sirna_scores.py:205-206 | The contract for `HomopolymerMatches`: every match of the left-to-right scan is one of AAAA, CCCC, UUUU, GGGG and occurs in the sequence. The matches do not overlap: from position `from`, at most (\|s\| − from) / 4 of them. |
| SirnaScores.ScanFindsOccurrence | sirna_scores.py:205-206 | An occurrence of a homopolymer word that the scan steps over lies inside a match of the same word, so the scan misses no value. |
| SirnaScores.DistinctHomopolymersArePresent | sirna_scores.py:205-207 | The contract for `DistinctHomopolymers`: the set of matched values is exactly the set of words bbbb (b in A, C, G, U) that occur anywhere. |
| SirnaScores.HomopolymersAtMostFour | sirna_scores.py:207 | At most four distinct values. |
| SirnaScores.DharmaconScore | sirna_scores.py:203-210 | Success exactly when the PWM score succeeds (RNA, and row counts that broadcast). The errors are the PWM score's: the one-hot error first, then the shape error. |
| SirnaScores.DharmaconClosedForm | sirna_scores.py:203-210 | On RNA as long as the PWM, the PWM score succeeds and Dharmacon = PWM score − 8.5 × \|{b : bbbb occurs}\|. The penalty is 0, 8.5, 17, 25.5 or 34. |
| SirnaScores.DharmaconTwoPresent | sirna_scores.py:203-210 | When exactly two of AAAA, CCCC, GGGG, UUUU occur, Dharmacon is the PWM score minus 17, however often each run occurs. |
| SirnaScores.DharmaconRepeatedRunCountsOnce | sirna_scores.py:206-207 | In AAAAGAAAAGCCCCGUGAU the matches are AAAA, AAAA, CCCC, and the distinct values are {AAAA, CCCC}. |
| SirnaScores.DharmaconRepeatedRunPenalty | sirna_scores.py:203-210 | On that sequence the PWM score succeeds and Dharmacon is that score minus 17, not minus 25.5. |
| SirnaScores.PublishedScorersAcceptedLengths | sirna_scores.py:179-210 | With the published tables, sBiopredsi succeeds exactly on RNA of length 21 or 1. Katoh, iScore and Dharmacon succeed exactly on RNA of length 19 or 1. |
| Frames.Select | aso_filters.py:8 | Boolean-mask indexing keeps at most the input rows, and every kept row passes. |
| Frames.SelectExact | aso_filters.py:8 | The selection is a subsequence of the input. Every kept row passes, and every passing row keeps all its occurrences. |
| Frames.ExactSelectionUnique | aso_filters.py:8 | Any sequence meeting that description is the selection, so the description is complete. |
| Frames.SubsequenceMultiset | aso_filters.py:8 | A subsequence holds no row more often than the input. |
| Frames.SelectSelect | sirna_filters.py:5 | Selecting by p, then by q, is selecting by p and q together. |
| Frames.SelectIdempotent | sirna_filters.py:5 | Selecting twice by one mask is selecting once. |
| Frames.SelectCommute | sirna_filters.py:5 | Two selections commute. |
| Frames.Between | aso_filters.py:16 | `Series.between(lo, hi)`, both ends inclusive. It can hold only when lo ≤ hi. |
| Frames.SelectNone | aso_filters.py:16 | A mask that no row passes selects nothing. |
| Text.MatchesAlternation | aso_filters.py:7 | A search for `.*(t1\|t2\|...).*` succeeds only if some alternative's unit occurs at least its lower-bound number of times in a row. |
| Text.BoundedRepeatSearch | aso_filters.py:7 | A search for `(w){lo,hi}` succeeds exactly when lo copies of w occur, so the upper bound never matters. |
| Text.ContainsRunMeaning | sirna_filters.py:4 | A search for n copies of a letter succeeds exactly when the sequence has a run of n of that letter. |
| AsoFilters.AsoRepeatPatternMeaning | aso_filters.py:7 | The ASO low-complexity pattern matches exactly when the sequence has a run of five equal letters of A, C, G, T, or three copies in a row of a unit of two different such letters. The upper bounds and the duplicated AC term change nothing. |
| AsoFilters.AsoRepeatTermShapes | aso_filters.py:7 | Each of the 17 alternatives is one such letter from 5 to 16 times, or a unit of two different letters from 3 to 8 times. |
| AsoFilters.AsoRepeatTermsCoverUnits | aso_filters.py:7 | Every one of the 12 units of two different letters is an alternative. |
| AsoFilters.FilterOutRepeats | aso_filters.py:1-8 | Keeps, in order, exactly the rows without a low-complexity stretch. |
| AsoFilters.FilterGcContent | aso_filters.py:11-16 | Keeps, in order, exactly the rows with minGc ≤ GC ≤ maxGc, both ends inclusive. |
| AsoFilters.FilterPLfold | aso_filters.py:19-24 | Keeps, in order, exactly the rows with pLfold ≥ threshold. |
| AsoFilters.FilterAsoAsoFreeEnergy | aso_filters.py:27-32 | Keeps, in order, exactly the rows with ASO-ASO free energy ≥ threshold. |
| AsoFilters.FilterAsoTranscriptFreeEnergy | aso_filters.py:35-40 | Keeps, in order, exactly the rows with minTfe ≤ energy ≤ maxTfe, both ends inclusive. |
| AsoFilters.FilterGcContentEmptyWindow | aso_filters.py:16 | With minGc > maxGc nothing is kept. |
| AsoFilters.FilterAsoTranscriptFreeEnergyEmptyWindow | aso_filters.py:40 | With minTfe > maxTfe nothing is kept. |
| AsoFilters.AsoFiltersIdempotent | aso_filters.py:8-40 | Each of the five filters applied twice equals the filter applied once. |
| SirnaFilters.SirnaRepeatTermFor | sirna_filters.py:4 | Each of A, C, G, U has its alternative in the pattern: that letter from 5 to 16 times. |
| SirnaFilters.SirnaRepeatPatternMeaning | sirna_filters.py:4 | The siRNA low-complexity pattern matches exactly the sequences with a run of five equal letters of A, C, G, U. A run of four does not match. |
| SirnaFilters.HasGapMotif | sirna_filters.py:14 | A match of `AUCGAU[ACGU]+GGGG` contains AUCGAU and GGGG, and the sequence is at least 11 long. |
| SirnaFilters.HasImmuneMotif | sirna_filters.py:14 | A match of any of the three avoided motifs needs a sequence at least 5 long (UGUGU is the shortest). |
| SirnaFilters.GapMotifOnRna | sirna_filters.py:14 | On an RNA sequence, `AUCGAU[ACGU]+GGGG` matches exactly when AUCGAU is followed, at least one base later, by GGGG. |
| SirnaFilters.GapMotifNeedsABase | sirna_filters.py:14 | AUCGAUGGGG alone does not match: `+` needs a base between the halves. |
| SirnaFilters.GapMotifOneBase | sirna_filters.py:14 | AUCGAUAGGGG matches. |
| SirnaFilters.FilterOutRepeats | sirna_filters.py:1-5 | Keeps, in order, exactly the rows without a run of five equal bases. |
| SirnaFilters.FilterOutMotifs | sirna_filters.py:8-15 | Keeps, in order, exactly the rows containing none of UGUGU, GUCCUUCAA and the gap motif. |
| SirnaFilters.FilterOutTm | sirna_filters.py:18-20 | Keeps, in order, exactly the rows with tmStart ≤ tm ≤ tmEnd, both ends inclusive. |
| SirnaFilters.SirnaFiltersIdempotent | sirna_filters.py:5-20 | Each of the three filters applied twice equals the filter applied once. |
| SirnaFilters.SirnaFiltersCommute | sirna_filters.py:5-20 | Any two of the three filters can be applied in either order. |
| Vectors.UnitVector | dna_encoders.py:12 | Row k of the identity matrix: 1.0 at k, 0.0 elsewhere. |
| Vectors.DecodeUnitRows | dna_encoders.py:9-12 | Decoding unit rows gives back the alphabet symbols at their positions. |
| DnaEncoders.Onehot | dna_encoders.py:4-12 | Success exactly when every character is A, C, G or T. Then row i is the identity row at mapping[s[i]]. Otherwise the error is the first character outside the mapping. |
| DnaEncoders.OnehotRoundTrip | dna_encoders.py:9-12 | Reading each row's 1.0 back through A, C, G, T gives back the sequence. |
| DnaEncoders.OnehotInjective | dna_encoders.py:9-12 | Two DNA sequences with the same encoding are equal. |
| DnaEncoders.OnehotRejectsUAndLowerCase | dna_encoders.py:10 | A U or a lower-case base anywhere is an error. |
| DnaEncoders.NucDIsIdentity | dna_encoders.py:20-27 | The token table is the 8 × 8 identity matrix. Row k belongs to the k-th token dA, dCm, dG, dT, cEtA, cEtCm, cEtG, cEtT. |
| DnaEncoders.NucDKeys | dna_encoders.py:20-27 | The table's keys are exactly those eight tokens. |
| DnaEncoders.OneHotEncodeSequence | dna_encoders.py:15-29 | Success exactly when every token is in the table. Then row i is the table row of token i. Otherwise the error is the first unknown token. |
| DnaEncoders.OneHotEncodeSequenceRoundTrip | dna_encoders.py:20-29 | Reading each row's 1.0 back through the token order gives back the tokens. |
| DnaEncoders.OneHotEncodeSequenceInjective | dna_encoders.py:20-29 | Two token sequences with the same encoding are equal. |
| DnaEncoders.CharactersAreNotTokens | dna_encoders.py:29 | A non-empty plain string, iterated character by character, is rejected at its first character. |

## Left out

- Floating point. Weights and scores are exact reals, so double rounding, overflow and NaN are not modelled.
- `np.exp`. In `SBiopredsiScore` it is a function parameter. The only fact used about it is that it is never negative.
- `SirnaScores.SBiopredsiScore`: says nothing about where in the output interval a score falls, because that depends on `np.exp`.
- numpy broadcasting beyond what `score_pwm` can meet. The model covers equal row counts and a single row on either side. Every other pair of shapes is the shape error. Wrong column counts and one-dimensional PWMs cannot be expressed: a PWM row always has four weights.
- The regular-expression engine. Each pattern is written as an explicit substring, repetition or gap predicate with the meaning of a search.
- pandas. NaN or non-string cells, dtype coercion, and the index carried by a filtered DataFrame are not modelled. Rows are plain values, and a column is an accessor function.
- torch tensors. The encoders return sequences of rows. The shape of `torch.tensor([])` for an empty token list is not modelled.
- The commented-out import at dna_encoders.py:33 is not modelled: it does nothing.
- `wrangling`, callers and tests of these files are not part of this model.
