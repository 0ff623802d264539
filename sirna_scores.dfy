/** The scoring primitives and the five published siRNA efficacy scorers of
    sirna_scores.py. Weights and scores are exact reals. */
module SirnaScores {
  import opened Outcomes
  import opened Vectors
  import opened Text
  import opened MotifOverlap
  import opened SirnaTables

  // ---------------------------------------------------------------------
  // One-hot encoding over A, C, G, U
  // ---------------------------------------------------------------------

  /** A column of the one-hot matrix and of a PWM. */
  type Column = k: nat | k < 4

  /** `base_to_idx` of `one_hot_encode`. */
  const BaseToIdx: map<char, Column> := map['A' := 0, 'C' := 1, 'G' := 2, 'U' := 3]

  /** The RNA alphabet in column order. */
  const RnaBases: string := "ACGU"

  /** Every symbol of `s` is a key of `BaseToIdx`. */
  predicate IsRna(s: string)
  {
    forall i :: 0 <= i < |s| ==> s[i] in BaseToIdx
  }

  /** Position `i` holds the first symbol of `s` that `BaseToIdx` lacks. */
  predicate FirstInvalid(s: string, i: int)
  {
    0 <= i < |s| && s[i] !in BaseToIdx && forall j :: 0 <= j < i ==> s[j] in BaseToIdx
  }

  /** Column `BaseToIdx[c]` is the column of `c` in the alphabet A, C, G, U. */
  lemma BaseToIdxIsAlphabetOrder(c: char)
    ensures c in BaseToIdx <==> c in RnaBases
    ensures c in BaseToIdx ==> BaseToIdx[c] < 4 && RnaBases[BaseToIdx[c]] == c
  {
  }

  /** The indicator row of one base. */
  function OneHotRow(c: char): Row
    requires c in BaseToIdx
  {
    UnitVector(4, BaseToIdx[c])
  }

  /** The matrix `one_hot_encode` returns, or the KeyError it raises at the
      first symbol outside A, C, G, U (an invalid symbol is never a zero row). */
  function OneHot(s: string): (r: Result<seq<Row>>)
    ensures r.Ok? <==> IsRna(s)
    ensures r.Ok? ==> |r.value| == |s|
    ensures r.Ok? ==> forall i :: 0 <= i < |s| ==> r.value[i] == OneHotRow(s[i])
    ensures r.Err? ==> exists i :: FirstInvalid(s, i) && r.error == InvalidSymbol(s[i])
  {
    if s == [] then Ok([])
    else if s[0] !in BaseToIdx then
      assert FirstInvalid(s, 0);
      Err(InvalidSymbol(s[0]))
    else
      match OneHot(s[1..])
      case Err(e) =>
        var i :| FirstInvalid(s[1..], i) && e == InvalidSymbol(s[1..][i]);
        assert FirstInvalid(s, i + 1);
        Err(e)
      case Ok(rows) => Ok([OneHotRow(s[0])] + rows)
  }

  /** `one_hot_encode`: allocate a zero matrix of |s| rows and 4 columns and set
      one cell per row, failing at the first symbol without a column. */
  method OneHotEncode(s: string) returns (r: Result<array2<real>>)
    ensures r.Err? <==> OneHot(s).Err?
    ensures r.Err? ==> r.error == OneHot(s).error
    ensures r.Ok? ==> fresh(r.value)
    ensures r.Ok? ==> r.value.Length0 == |s| && r.value.Length1 == 4
    ensures r.Ok? ==> forall i, j :: 0 <= i < |s| && 0 <= j < 4 ==> r.value[i, j] == OneHot(s).value[i][j]
  {
    var oh := new real[|s|, 4]((i, j) => 0.0);
    for i := 0 to |s|
      invariant forall k :: 0 <= k < i ==> s[k] in BaseToIdx
      invariant forall k, j :: 0 <= k < i && 0 <= j < 4 ==> oh[k, j] == OneHotRow(s[k])[j]
      invariant forall k, j :: i <= k < |s| && 0 <= j < 4 ==> oh[k, j] == 0.0
    {
      if s[i] !in BaseToIdx {
        assert FirstInvalid(s, i);
        return Err(InvalidSymbol(s[i]));
      }
      oh[i, BaseToIdx[s[i]]] := 1.0;
    }
    return Ok(oh);
  }

  /** Round trip: reading each row's 1.0 back through the alphabet A, C, G, U
      gives back the sequence. */
  lemma OneHotRoundTrip(s: string)
    requires IsRna(s)
    ensures DecodeRows(OneHot(s).value, RnaBases) == Some(s)
  {
    DecodeUnitRows(OneHot(s).value, 4, Columns(s), RnaBases);
    forall i | 0 <= i < |s|
      ensures Lookup(RnaBases, Columns(s))[i] == s[i]
    {
      BaseToIdxIsAlphabetOrder(s[i]);
    }
    assert Lookup(RnaBases, Columns(s)) == s;
  }

  /** The encoding is injective on RNA sequences. */
  lemma OneHotInjective(s: string, t: string)
    requires IsRna(s) && IsRna(t)
    requires OneHot(s) == OneHot(t)
    ensures s == t
  {
    OneHotRoundTrip(s);
    OneHotRoundTrip(t);
  }

  // ---------------------------------------------------------------------
  // PWM score
  // ---------------------------------------------------------------------

  /** The sum of a sequence of reals (exact real addition, so the order of the
      terms does not matter). */
  function Sum(xs: seq<real>): real
  {
    if xs == [] then 0.0 else Sum(xs[..|xs| - 1]) + xs[|xs| - 1]
  }

  /** Sum of the elementwise products of two rows. */
  function Dot(a: Row, b: Row): real
  {
    a[0] * b[0] + a[1] * b[1] + a[2] * b[2] + a[3] * b[3]
  }

  /** `np.sum(a * b)` for two matrices of the same shape: the row products, summed. */
  function ProductSum(a: seq<Row>, b: seq<Row>): real
    requires |a| == |b|
  {
    Sum(seq(|a|, i requires 0 <= i < |a| => Dot(a[i], b[i])))
  }

  /** numpy can broadcast an (n, 4) array against an (m, 4) array. */
  predicate Broadcastable(n: nat, m: nat)
  {
    n == m || n == 1 || m == 1
  }

  /** The rows of `a` broadcast to `n` rows (`a` has n rows or a single one). */
  function Broadcast(a: seq<Row>, n: nat): (b: seq<Row>)
    requires |a| == n || |a| == 1
    ensures |b| == n
  {
    if |a| == n then a else seq(n, _ => a[0])
  }

  /** `score_pwm`: the elementwise product of the one-hot matrix with the PWM,
      summed, with numpy's broadcasting of a single row; a symbol outside the
      alphabet is reported first, then a shape numpy cannot broadcast. */
  function ScorePwm(s: string, pwm: seq<Row>): (r: Result<real>)
    ensures r.Ok? <==> IsRna(s) && Broadcastable(|s|, |pwm|)
    ensures !IsRna(s) ==> r == Err(OneHot(s).error)
    ensures IsRna(s) && !Broadcastable(|s|, |pwm|) ==> r == Err(ShapeMismatch(|s|, |pwm|))
  {
    match OneHot(s)
    case Err(e) => Err(e)
    case Ok(oh) =>
      if Broadcastable(|oh|, |pwm|) then
        var n := if |oh| == 1 then |pwm| else |oh|;
        Ok(ProductSum(Broadcast(oh, n), Broadcast(pwm, n)))
      else Err(ShapeMismatch(|oh|, |pwm|))
  }

  /** The column of every symbol of an RNA sequence. */
  function Columns(s: string): (cols: seq<Column>)
    requires IsRna(s)
    ensures |cols| == |s|
    ensures forall i :: 0 <= i < |s| ==> cols[i] == BaseToIdx[s[i]]
  {
    seq(|s|, i requires 0 <= i < |s| => BaseToIdx[s[i]])
  }

  /** Row by row, the weight of the PWM in the observed column. */
  function Picked(cols: seq<Column>, pwm: seq<Row>): (w: seq<real>)
    requires |cols| == |pwm|
    ensures |w| == |cols|
    ensures forall i :: 0 <= i < |cols| ==> w[i] == pwm[i][cols[i]]
  {
    seq(|cols|, i requires 0 <= i < |cols| => pwm[i][cols[i]])
  }

  /** The reference closed form: the weight of the observed base at each
      position, summed over the positions. */
  function LookupSum(s: string, pwm: seq<Row>): real
    requires IsRna(s) && |s| == |pwm|
  {
    Sum(Picked(Columns(s), pwm))
  }

  lemma DotUnit(k: nat, row: Row)
    requires k < 4
    ensures Dot(UnitVector(4, k), row) == row[k]
  {
    var u := UnitVector(4, k);
    assert k == 0 || u[0] == 0.0;
    assert k == 1 || u[1] == 0.0;
    assert k == 2 || u[2] == 0.0;
    assert k == 3 || u[3] == 0.0;
  }

  lemma ProductSumOneHot(s: string, pwm: seq<Row>)
    requires IsRna(s) && |s| == |pwm|
    ensures ProductSum(OneHot(s).value, pwm) == LookupSum(s, pwm)
  {
    var oh := OneHot(s).value;
    var products := seq(|oh|, i requires 0 <= i < |oh| => Dot(oh[i], pwm[i]));
    forall i | 0 <= i < |s|
      ensures products[i] == Picked(Columns(s), pwm)[i]
    {
      DotUnit(BaseToIdx[s[i]], pwm[i]);
    }
    assert products == Picked(Columns(s), pwm);
  }

  /** For an RNA sequence as long as the PWM, the score is the sum over
      positions of the weight of the observed base. */
  lemma ScorePwmLookup(s: string, pwm: seq<Row>)
    requires IsRna(s) && |s| == |pwm|
    ensures ScorePwm(s, pwm) == Ok(LookupSum(s, pwm))
  {
    ProductSumOneHot(s, pwm);
  }

  /** Every weight of a row multiplied by `k`. */
  function ScaleRow(k: real, row: Row): (r: Row)
    ensures forall j :: 0 <= j < 4 ==> r[j] == k * row[j]
  {
    seq(4, j requires 0 <= j < 4 => k * row[j])
  }

  /** Two rows added weight by weight. */
  function AddRow(a: Row, b: Row): (r: Row)
    ensures forall j :: 0 <= j < 4 ==> r[j] == a[j] + b[j]
  {
    seq(4, j requires 0 <= j < 4 => a[j] + b[j])
  }

  /** Every weight of a PWM multiplied by `k`. */
  function ScalePwm(k: real, pwm: seq<Row>): (q: seq<Row>)
    ensures |q| == |pwm|
    ensures forall i :: 0 <= i < |pwm| ==> q[i] == ScaleRow(k, pwm[i])
  {
    seq(|pwm|, i requires 0 <= i < |pwm| => ScaleRow(k, pwm[i]))
  }

  /** Two PWMs of the same shape added weight by weight. */
  function AddPwm(p: seq<Row>, q: seq<Row>): (r: seq<Row>)
    requires |p| == |q|
    ensures |r| == |p|
    ensures forall i :: 0 <= i < |p| ==> r[i] == AddRow(p[i], q[i])
  {
    seq(|p|, i requires 0 <= i < |p| => AddRow(p[i], q[i]))
  }

  /** Every term of a sequence multiplied by `k`. */
  function ScaleAll(k: real, xs: seq<real>): (r: seq<real>)
    ensures |r| == |xs|
    ensures forall i :: 0 <= i < |xs| ==> r[i] == k * xs[i]
  {
    seq(|xs|, i requires 0 <= i < |xs| => k * xs[i])
  }

  /** Two sequences of the same length added term by term. */
  function AddAll(xs: seq<real>, ys: seq<real>): (r: seq<real>)
    requires |xs| == |ys|
    ensures |r| == |xs|
    ensures forall i :: 0 <= i < |xs| ==> r[i] == xs[i] + ys[i]
  {
    seq(|xs|, i requires 0 <= i < |xs| => xs[i] + ys[i])
  }

  lemma {:induction false} SumScale(xs: seq<real>, k: real)
    ensures Sum(ScaleAll(k, xs)) == k * Sum(xs)
  {
    if xs != [] {
      var n := |xs|;
      var init := xs[..n - 1];
      var a, b := ScaleAll(k, xs)[..n - 1], ScaleAll(k, init);
      forall i | 0 <= i < n - 1
        ensures a[i] == b[i]
      {
        assert init[i] == xs[i];
      }
      assert a == b;
      SumScale(xs[..n - 1], k);
      Distribute(k, Sum(xs[..n - 1]), xs[n - 1]);
    }
  }

  /** Multiplication distributes over addition. */
  lemma Distribute(k: real, a: real, b: real)
    ensures k * (a + b) == k * a + k * b
  {
  }

  lemma {:induction false} SumAdd(xs: seq<real>, ys: seq<real>)
    requires |xs| == |ys|
    ensures Sum(AddAll(xs, ys)) == Sum(xs) + Sum(ys)
  {
    if xs != [] {
      var n := |xs|;
      assert AddAll(xs, ys)[..n - 1] == AddAll(xs[..n - 1], ys[..n - 1]);
      SumAdd(xs[..n - 1], ys[..n - 1]);
    }
  }

  /** Scaling the PWM scales each picked weight. */
  lemma PickedScale(s: string, pwm: seq<Row>, k: real)
    requires IsRna(s) && |s| == |pwm|
    ensures LookupSum(s, ScalePwm(k, pwm)) == k * LookupSum(s, pwm)
  {
    var w := Picked(Columns(s), pwm);
    PickedOfScaled(Columns(s), pwm, k);
    SumScale(w, k);
  }

  /** The weights picked from a scaled PWM are the scaled picked weights. */
  lemma PickedOfScaled(cols: seq<Column>, pwm: seq<Row>, k: real)
    requires |cols| == |pwm|
    ensures Picked(cols, ScalePwm(k, pwm)) == ScaleAll(k, Picked(cols, pwm))
  {
    var w := Picked(cols, pwm);
    forall i | 0 <= i < |cols|
      ensures Picked(cols, ScalePwm(k, pwm))[i] == ScaleAll(k, w)[i]
    {
      assert ScalePwm(k, pwm)[i] == ScaleRow(k, pwm[i]);
    }
  }

  /** Adding two PWMs adds the picked weights. */
  lemma PickedAdd(s: string, p: seq<Row>, q: seq<Row>)
    requires IsRna(s) && |s| == |p| == |q|
    ensures LookupSum(s, AddPwm(p, q)) == LookupSum(s, p) + LookupSum(s, q)
  {
    var wp, wq := Picked(Columns(s), p), Picked(Columns(s), q);
    assert Picked(Columns(s), AddPwm(p, q)) == AddAll(wp, wq);
    SumAdd(wp, wq);
  }

  /** The PWM score is linear in the PWM: scaling every weight by `k` scales
      the score by `k`. */
  lemma ScorePwmScale(s: string, pwm: seq<Row>, k: real)
    requires IsRna(s) && |s| == |pwm|
    ensures ScorePwm(s, ScalePwm(k, pwm)) == Ok(k * LookupSum(s, pwm))
  {
    ScorePwmLookup(s, ScalePwm(k, pwm));
    PickedScale(s, pwm, k);
  }

  /** The PWM score is additive in the PWM. */
  lemma ScorePwmAdd(s: string, p: seq<Row>, q: seq<Row>)
    requires IsRna(s) && |s| == |p| == |q|
    ensures ScorePwm(s, p).Ok? && ScorePwm(s, q).Ok?
    ensures ScorePwm(s, AddPwm(p, q)) == Ok(ScorePwm(s, p).value + ScorePwm(s, q).value)
  {
    ScorePwmLookup(s, p);
    ScorePwmLookup(s, q);
    ScorePwmLookup(s, AddPwm(p, q));
    PickedAdd(s, p, q);
  }

  /** A one-base sequence is broadcast against every row of the PWM. */
  lemma ScorePwmSingleBase(c: char, pwm: seq<Row>)
    requires c in BaseToIdx
    ensures ScorePwm([c], pwm) == Ok(LookupSum(seq(|pwm|, _ => c), pwm))
  {
    var t := seq(|pwm|, _ => c);
    assert IsRna(t);
    assert |OneHot([c]).value| == 1;
    assert OneHot(t).value == Broadcast(OneHot([c]).value, |pwm|);
    ProductSumOneHot(t, pwm);
  }

  // ---------------------------------------------------------------------
  // DSIR (antisense 21-mer: 19-mer duplex + 2-nt 3' overhang)
  // ---------------------------------------------------------------------

  /** The published DSIR offset. */
  const DsirOffset: real := 0.6938215

  /** Python's `s[:19]`: the duplex part scanned by the spectrum term. */
  function Duplex(s: string): (d: string)
    ensures |d| == if |s| < 19 then |s| else 19
    ensures d == s[..|d|]
  {
    if |s| <= 19 then s else s[..19]
  }

  /** The spectrum term: each motif's overlapping count times its weight. */
  function SpectrumSum(s: string, spectrum: seq<SpectrumEntry>): real
  {
    if spectrum == [] then 0.0
    else SpectrumSum(s, spectrum[..|spectrum| - 1])
         + (OverlapCount(s, spectrum[|spectrum| - 1].motif) as real) * spectrum[|spectrum| - 1].weight
  }

  /** The DSIR formula over given tables. */
  function DsirScoreWith(antiSeq21: string, sparse: seq<Row>, spectrum: seq<SpectrumEntry>): (r: Result<real>)
    ensures r.Ok? <==> IsRna(antiSeq21) && Broadcastable(|antiSeq21|, |sparse|)
    ensures !IsRna(antiSeq21) ==> r == Err(OneHot(antiSeq21).error)
    ensures IsRna(antiSeq21) && !Broadcastable(|antiSeq21|, |sparse|) ==> r == Err(ShapeMismatch(|antiSeq21|, |sparse|))
  {
    match ScorePwm(antiSeq21, sparse)
    case Err(e) => Err(e)
    case Ok(sparseScore) => Ok((sparseScore + SpectrumSum(Duplex(antiSeq21), spectrum) + DsirOffset) * 100.0)
  }

  /** `DSIR_score` with the published sparse-21 PWM and spectrum-21 weights. */
  function DsirScore(antiSeq21: string): (r: Result<real>)
    ensures r.Ok? <==> IsRna(antiSeq21) && (|antiSeq21| == 21 || |antiSeq21| == 1)
    ensures !IsRna(antiSeq21) ==> r == Err(OneHot(antiSeq21).error)
    ensures IsRna(antiSeq21) && |antiSeq21| != 21 && |antiSeq21| != 1 ==> r == Err(ShapeMismatch(|antiSeq21|, 21))
  {
    DsirScoreWith(antiSeq21, DsirSparse21, DsirSpectrum21)
  }

  /** The DSIR score decomposes into the sparse PWM term, the spectrum term
      over the first 19 bases and the offset, all scaled by 100; a symbol
      outside A, C, G, U is an error. */
  lemma DsirDecomposition(s: string, sparse: seq<Row>, spectrum: seq<SpectrumEntry>)
    ensures !IsRna(s) ==> DsirScoreWith(s, sparse, spectrum) == Err(OneHot(s).error)
    ensures IsRna(s) && |s| == |sparse| ==>
      DsirScoreWith(s, sparse, spectrum) == Ok((LookupSum(s, sparse) + SpectrumSum(Duplex(s), spectrum) + DsirOffset) * 100.0)
  {
    if IsRna(s) && |s| == |sparse| {
      ScorePwmLookup(s, sparse);
    }
  }

  /** The all-zero PWM of `n` rows. */
  function ZeroPwm(n: nat): (z: seq<Row>)
    ensures |z| == n
  {
    seq(n, _ => [0.0, 0.0, 0.0, 0.0])
  }

  lemma {:induction false} SumZeros(n: nat)
    ensures Sum(seq(n, _ => 0.0)) == 0.0
  {
    if n > 0 {
      assert seq(n, _ => 0.0)[..n - 1] == seq(n - 1, _ => 0.0);
      SumZeros(n - 1);
    }
  }

  /** With a sparse PWM of zero weights the sparse term vanishes: the score is
      the offset plus the spectrum term, times 100. */
  lemma DsirZeroSparse(s: string, spectrum: seq<SpectrumEntry>)
    requires IsRna(s)
    ensures DsirScoreWith(s, ZeroPwm(|s|), spectrum) == Ok((SpectrumSum(Duplex(s), spectrum) + DsirOffset) * 100.0)
  {
    DsirDecomposition(s, ZeroPwm(|s|), spectrum);
    LookupSumZero(s);
  }

  lemma LookupSumZero(s: string)
    requires IsRna(s)
    ensures LookupSum(s, ZeroPwm(|s|)) == 0.0
  {
    assert Picked(Columns(s), ZeroPwm(|s|)) == seq(|s|, _ => 0.0);
    SumZeros(|s|);
  }

  /** Peeling the last two terms off a sum. */
  lemma SumLastTwo(xs: seq<real>)
    requires |xs| >= 2
    ensures Sum(xs) == Sum(xs[..|xs| - 2]) + xs[|xs| - 2] + xs[|xs| - 1]
  {
    assert xs[..|xs| - 1][..|xs| - 2] == xs[..|xs| - 2];
  }

  /** Two 21-mers that agree on their first 19 bases differ in the PWM sum
      only by the weights at positions 19 and 20. */
  lemma LookupSumOverhang(s: string, t: string, pwm: seq<Row>)
    requires |s| == |t| == |pwm| == 21 && IsRna(s) && IsRna(t)
    requires s[..19] == t[..19]
    ensures LookupSum(s, pwm) - LookupSum(t, pwm) ==
      (pwm[19][BaseToIdx[s[19]]] - pwm[19][BaseToIdx[t[19]]]) + (pwm[20][BaseToIdx[s[20]]] - pwm[20][BaseToIdx[t[20]]])
  {
    var ws, wt := Picked(Columns(s), pwm), Picked(Columns(t), pwm);
    SumLastTwo(ws);
    SumLastTwo(wt);
    assert ws[..19] == wt[..19];
  }

  /** Changing only the 2-nt overhang (positions 19 and 20 of a 21-mer) leaves
      the spectrum term unchanged and moves the DSIR score by 100 times the
      change of the sparse weights at those two positions. */
  lemma DsirOverhangOnlySparse(s: string, t: string, sparse: seq<Row>, spectrum: seq<SpectrumEntry>)
    requires |s| == |t| == |sparse| == 21 && IsRna(s) && IsRna(t)
    requires s[..19] == t[..19]
    ensures SpectrumSum(Duplex(s), spectrum) == SpectrumSum(Duplex(t), spectrum)
    ensures DsirScoreWith(s, sparse, spectrum).Ok? && DsirScoreWith(t, sparse, spectrum).Ok?
    ensures DsirScoreWith(s, sparse, spectrum).value - DsirScoreWith(t, sparse, spectrum).value ==
      100.0 * ((sparse[19][BaseToIdx[s[19]]] - sparse[19][BaseToIdx[t[19]]])
             + (sparse[20][BaseToIdx[s[20]]] - sparse[20][BaseToIdx[t[20]]]))
  {
    assert Duplex(s) == Duplex(t);
    DsirDecomposition(s, sparse, spectrum);
    DsirDecomposition(t, sparse, spectrum);
    LookupSumOverhang(s, t, sparse);
  }

  /** The overhang property for the published DSIR tables. */
  lemma DsirScoreOverhang(s: string, t: string)
    requires |s| == |t| == 21 && IsRna(s) && IsRna(t)
    requires s[..19] == t[..19]
    ensures DsirScore(s).Ok? && DsirScore(t).Ok?
    ensures DsirScore(s).value - DsirScore(t).value ==
      100.0 * ((DsirSparse21[19][BaseToIdx[s[19]]] - DsirSparse21[19][BaseToIdx[t[19]]])
             + (DsirSparse21[20][BaseToIdx[s[20]]] - DsirSparse21[20][BaseToIdx[t[20]]]))
  {
    assert |DsirSparse21| == 21;
    DsirOverhangOnlySparse(s, t, DsirSparse21, DsirSpectrum21);
    SameDifference(DsirScore(s), DsirScore(t), DsirScoreWith(s, DsirSparse21, DsirSpectrum21),
                   DsirScoreWith(t, DsirSparse21, DsirSpectrum21),
                   100.0 * ((DsirSparse21[19][BaseToIdx[s[19]]] - DsirSparse21[19][BaseToIdx[t[19]]])
                          + (DsirSparse21[20][BaseToIdx[s[20]]] - DsirSparse21[20][BaseToIdx[t[20]]])));
  }

  /** Equal results have equal differences. */
  lemma SameDifference(a: Result<real>, b: Result<real>, a': Result<real>, b': Result<real>, d: real)
    requires a == a' && b == b' && a'.Ok? && b'.Ok? && a'.value - b'.value == d
    ensures a.Ok? && b.Ok? && a.value - b.value == d
  {
  }

  // ---------------------------------------------------------------------
  // Katoh macro + micro (sense 19-mer)
  // ---------------------------------------------------------------------

  /** `s.count(c)` for a one-character pattern: the occurrences of `c`. */
  function Count(s: string, c: char): nat
  {
    if s == [] then 0 else Count(s[..|s| - 1], c) + (if s[|s| - 1] == c then 1 else 0)
  }

  /** The count is at most the length, and it is 0 exactly when `c` does not
      occur. */
  lemma {:induction false} CountBounds(s: string, c: char)
    ensures Count(s, c) <= |s|
    ensures Count(s, c) == 0 <==> c !in s
  {
    if s != [] {
      var init := s[..|s| - 1];
      CountBounds(init, c);
      assert s == init + [s[|s| - 1]];
    }
  }

  /** The macro component: the base counts of A, C, G, U dotted with the macro weights. */
  function MacroScore(s: string, macro: Row): real
  {
    (Count(s, 'A') as real) * macro[0] + (Count(s, 'C') as real) * macro[1]
      + (Count(s, 'G') as real) * macro[2] + (Count(s, 'U') as real) * macro[3]
  }

  /** `katoh_score`: macro component plus the micro PWM score. */
  function KatohScore(senseSeq19: string, pwm: seq<Row> := MicroKatoh): (r: Result<real>)
    ensures r.Ok? <==> IsRna(senseSeq19) && Broadcastable(|senseSeq19|, |pwm|)
    ensures !IsRna(senseSeq19) ==> r == Err(OneHot(senseSeq19).error)
    ensures IsRna(senseSeq19) && !Broadcastable(|senseSeq19|, |pwm|) ==> r == Err(ShapeMismatch(|senseSeq19|, |pwm|))
  {
    KatohScoreWith(senseSeq19, pwm, MacroKatoh)
  }

  /** The Katoh score for any macro row. */
  function KatohScoreWith(senseSeq19: string, pwm: seq<Row>, macro: Row): (r: Result<real>)
    ensures r.Ok? <==> IsRna(senseSeq19) && Broadcastable(|senseSeq19|, |pwm|)
    ensures !IsRna(senseSeq19) ==> r == Err(OneHot(senseSeq19).error)
    ensures IsRna(senseSeq19) && !Broadcastable(|senseSeq19|, |pwm|) ==> r == Err(ShapeMismatch(|senseSeq19|, |pwm|))
  {
    WithMacro(MacroScore(senseSeq19, macro), ScorePwm(senseSeq19, pwm))
  }

  /** The macro component added to a successful micro score. */
  function WithMacro(macroScore: real, micro: Result<real>): Result<real>
  {
    match micro
    case Err(e) => Err(e)
    case Ok(v) => Ok(macroScore + v)
  }

  /** For a sequence over A, C, G, U the four base counts add up to its length. */
  lemma {:induction false} BaseCountsSum(s: string)
    requires IsRna(s)
    ensures Count(s, 'A') + Count(s, 'C') + Count(s, 'G') + Count(s, 'U') == |s|
  {
    if s != [] {
      assert IsRna(s[..|s| - 1]);
      BaseCountsSum(s[..|s| - 1]);
    }
  }

  /** The PWM whose every row is `row`. */
  function ConstantPwm(row: Row, n: nat): (p: seq<Row>)
    ensures |p| == n
  {
    seq(n, _ => row)
  }

  /** One more base adds its macro weight to the macro component. */
  lemma MacroStep(s: string, macro: Row)
    requires s != [] && IsRna(s)
    ensures MacroScore(s, macro) == MacroScore(s[..|s| - 1], macro) + macro[BaseToIdx[s[|s| - 1]]]
  {
    var init, c := s[..|s| - 1], s[|s| - 1];
    var k: Column := if c == 'A' then 0 else if c == 'C' then 1 else if c == 'G' then 2 else 3;
    assert BaseToIdx[c] == k;
    MacroOfCounts(MacroScore(s, macro), MacroScore(init, macro),
                  Count(s, 'A') as real, Count(s, 'C') as real, Count(s, 'G') as real, Count(s, 'U') as real,
                  Count(init, 'A') as real, Count(init, 'C') as real, Count(init, 'G') as real, Count(init, 'U') as real,
                  macro, k);
  }

  /** Counts that grow by one in column `k` grow the dotted weights by `m[k]`. */
  lemma MacroOfCounts(x: real, x0: real, a: real, c: real, g: real, u: real, a0: real, c0: real, g0: real, u0: real,
                      m: Row, k: Column)
    requires x == a * m[0] + c * m[1] + g * m[2] + u * m[3]
    requires x0 == a0 * m[0] + c0 * m[1] + g0 * m[2] + u0 * m[3]
    requires a == a0 + (if k == 0 then 1.0 else 0.0) && c == c0 + (if k == 1 then 1.0 else 0.0)
    requires g == g0 + (if k == 2 then 1.0 else 0.0) && u == u0 + (if k == 3 then 1.0 else 0.0)
    ensures x == x0 + m[k]
  {
    if k == 0 {
      AddOneTimes(a0, m[0]);
    } else if k == 1 {
      AddOneTimes(c0, m[1]);
    } else if k == 2 {
      AddOneTimes(g0, m[2]);
    } else {
      AddOneTimes(u0, m[3]);
    }
  }

  lemma AddOneTimes(a: real, m: real)
    ensures (a + 1.0) * m == a * m + m
  {
  }

  /** The macro component is itself a PWM score: the PWM repeating the macro
      weights at every position. */
  lemma {:induction false} MacroAsLookup(s: string, macro: Row)
    requires IsRna(s)
    ensures MacroScore(s, macro) == LookupSum(s, ConstantPwm(macro, |s|))
  {
    if s != [] {
      var n := |s|;
      var init := s[..n - 1];
      var w := Picked(Columns(s), ConstantPwm(macro, n));
      assert w[..n - 1] == Picked(Columns(init), ConstantPwm(macro, n - 1));
      MacroAsLookup(init, macro);
      MacroStep(s, macro);
    }
  }

  /** The Katoh score equals the PWM score of the micro PWM with the macro
      weights added to every row; errors are those of the PWM score. */
  lemma KatohAsSinglePwm(s: string, pwm: seq<Row>)
    ensures KatohScore(s, pwm).Err? <==> ScorePwm(s, pwm).Err?
    ensures IsRna(s) && |s| == |pwm| ==>
      KatohScore(s, pwm) == ScorePwm(s, AddPwm(ConstantPwm(MacroKatoh, |s|), pwm))
  {
    if IsRna(s) && |s| == |pwm| {
      KatohWithAsSinglePwm(s, pwm, MacroKatoh);
    }
  }

  /** The same for any macro row. */
  lemma KatohWithAsSinglePwm(s: string, pwm: seq<Row>, macro: Row)
    requires IsRna(s) && |s| == |pwm|
    ensures KatohScoreWith(s, pwm, macro) == ScorePwm(s, AddPwm(ConstantPwm(macro, |s|), pwm))
  {
    MacroAsScore(s, macro);
    KatohAsSum(s, pwm, macro, ConstantPwm(macro, |s|));
  }

  /** Adding to the micro PWM any PWM whose score is the macro component gives
      the Katoh score. */
  lemma KatohAsSum(s: string, pwm: seq<Row>, macro: Row, q: seq<Row>)
    requires IsRna(s) && |s| == |pwm| == |q|
    requires ScorePwm(s, q) == Ok(MacroScore(s, macro))
    ensures KatohScoreWith(s, pwm, macro) == ScorePwm(s, AddPwm(q, pwm))
  {
    ScorePwmAdd(s, q, pwm);
    KatohAsScoreOf(s, pwm, macro, q, AddPwm(q, pwm));
  }

  /** Any PWM `t` that scores the macro component plus the micro score gives
      the Katoh score. */
  lemma KatohAsScoreOf(s: string, pwm: seq<Row>, macro: Row, q: seq<Row>, t: seq<Row>)
    requires IsRna(s) && |s| == |pwm| == |q|
    requires ScorePwm(s, q) == Ok(MacroScore(s, macro))
    requires ScorePwm(s, t) == Ok(ScorePwm(s, q).value + ScorePwm(s, pwm).value)
    ensures KatohScoreWith(s, pwm, macro) == ScorePwm(s, t)
  {
    MacroPlusMicro(MacroScore(s, macro), ScorePwm(s, pwm), ScorePwm(s, q), ScorePwm(s, t));
  }

  /** A macro component that is itself a PWM score `q`, added to a micro
      score `p`, gives any result `t` that is the sum of the two. */
  lemma MacroPlusMicro(m: real, p: Result<real>, q: Result<real>, t: Result<real>)
    requires p.Ok? && q == Ok(m) && t == Ok(q.value + p.value)
    ensures WithMacro(m, p) == t
  {
  }

  /** The macro component is the PWM score of the constant macro PWM. */
  lemma MacroAsScore(s: string, macro: Row)
    requires IsRna(s)
    ensures ScorePwm(s, ConstantPwm(macro, |s|)) == Ok(MacroScore(s, macro))
  {
    MacroAsLookup(s, macro);
    ScorePwmLookup(s, ConstantPwm(macro, |s|));
  }

  // ---------------------------------------------------------------------
  // sBiopredsi (sense 21-mer)
  // ---------------------------------------------------------------------

  /** The offset added to the PWM score inside the logistic function. */
  const SigmoidOffset: real := 0.204977962358907

  /** The published affine rescaling of the logistic value. */
  function Rescale(x: real): real
  {
    (-2.27627506037018 + 4.14301528286201 * x) * 0.168285137478663 + 0.581913382218149
  }

  /** The rescaling is strictly increasing. */
  lemma RescaleStrictlyIncreasing(x: real, y: real)
    requires x < y
    ensures Rescale(x) < Rescale(y)
  {
  }

  /** The rescaling maps [0, 1] into [Rescale(0), Rescale(1)]. */
  lemma RescaleBounds(x: real)
    requires 0.0 <= x <= 1.0
    ensures Rescale(0.0) <= Rescale(x) <= Rescale(1.0)
  {
  }

  /** 1 / (1 + e) for a non-negative `e`: the logistic function once `e` is
      the exponential of the negated argument. */
  function Logistic(e: real): (y: real)
    requires 0.0 <= e
    ensures 0.0 < y <= 1.0
    ensures e == 0.0 <==> y == 1.0
  {
    1.0 / (1.0 + e)
  }

  /** `sBiopredsi_score`: the logistic value 1 / (1 + exp(-score - offset)) of
      the PWM score, rescaled. `exp` stands for `np.exp`; the only fact used
      about it is that it is never negative. The result lies strictly above
      Rescale(0) and at most at Rescale(1). */
  function SBiopredsiScore(senseSeq21: string, exp: real -> real, pwm: seq<Row> := SBiopredsiPwm): (r: Result<real>)
    requires forall x :: 0.0 <= exp(x)
    ensures r.Ok? <==> IsRna(senseSeq21) && Broadcastable(|senseSeq21|, |pwm|)
    ensures !IsRna(senseSeq21) ==> r == Err(OneHot(senseSeq21).error)
    ensures IsRna(senseSeq21) && !Broadcastable(|senseSeq21|, |pwm|) ==> r == Err(ShapeMismatch(|senseSeq21|, |pwm|))
    ensures r.Ok? ==> Rescale(0.0) < r.value <= Rescale(1.0)
  {
    match ScorePwm(senseSeq21, pwm)
    case Err(e) => Err(e)
    case Ok(raw) =>
      var sigmoid := Logistic(exp(-raw - SigmoidOffset));
      RescaleStrictlyIncreasing(0.0, sigmoid);
      RescaleBounds(sigmoid);
      Ok(Rescale(sigmoid))
  }

  // ---------------------------------------------------------------------
  // iScore (antisense 19-mer)
  // ---------------------------------------------------------------------

  /** `iScore_score`: the PWM score itself. */
  function IScore(antiSeq19: string, pwm: seq<Row> := IScorePwm): (r: Result<real>)
    ensures r.Ok? <==> IsRna(antiSeq19) && Broadcastable(|antiSeq19|, |pwm|)
    ensures !IsRna(antiSeq19) ==> r == Err(OneHot(antiSeq19).error)
    ensures IsRna(antiSeq19) && !Broadcastable(|antiSeq19|, |pwm|) ==> r == Err(ShapeMismatch(|antiSeq19|, |pwm|))
  {
    ScorePwm(antiSeq19, pwm)
  }

  /** iScore applies no adjustment: it is the summed weight of the observed
      bases, and it is linear in the PWM. */
  lemma IScoreClosedForm(s: string, pwm: seq<Row>, k: real)
    requires IsRna(s) && |s| == |pwm|
    ensures IScore(s, pwm) == Ok(LookupSum(s, pwm))
    ensures IScore(s, ScalePwm(k, pwm)) == Ok(k * LookupSum(s, pwm))
  {
    ScorePwmLookup(s, pwm);
    ScorePwmScale(s, pwm, k);
  }

  // ---------------------------------------------------------------------
  // Dharmacon (antisense 19-mer)
  // ---------------------------------------------------------------------

  /** The alternatives of the regex `(AAAA|CCCC|UUUU|GGGG)`, in its order. */
  const HomopolymerWords: seq<string> := ["AAAA", "CCCC", "UUUU", "GGGG"]

  /** The penalty per distinct homopolymer found. */
  const HomopolymerPenalty: real := 8.5

  /** `re.finditer` of the homopolymer regex from position `from`: scanning left
      to right, a match consumes its four characters and the scan resumes
      after it; elsewhere the scan moves on by one. */
  function HomopolymerMatches(s: string, from: nat): seq<string>
    decreases |s| - from
  {
    if from + 4 > |s| then []
    else if s[from..from + 4] in HomopolymerWords then [s[from..from + 4]] + HomopolymerMatches(s, from + 4)
    else HomopolymerMatches(s, from + 1)
  }

  /** Every match is one of the words and occurs in the sequence, and the
      matches do not overlap: each takes four of the remaining characters. */
  lemma {:induction false} MatchesArePresent(s: string, from: nat)
    ensures forall m :: m in HomopolymerMatches(s, from) ==> m in HomopolymerWords && Contains(s, m)
    ensures from <= |s| ==> 4 * |HomopolymerMatches(s, from)| <= |s| - from
    decreases |s| - from
  {
    if from + 4 <= |s| {
      if s[from..from + 4] in HomopolymerWords {
        assert OccursAt(s, s[from..from + 4], from);
        MatchesArePresent(s, from + 4);
      } else {
        MatchesArePresent(s, from + 1);
      }
    }
  }

  /** The set of matched values (`{match.group(0) for match in matches}`). */
  function DistinctHomopolymers(s: string): set<string>
  {
    set m | m in HomopolymerMatches(s, 0)
  }

  /** `dharmacon_score`: the PWM score minus 8.5 per distinct homopolymer value. */
  function DharmaconScore(antiSeq19: string, pwm: seq<Row> := DharmPwm): (r: Result<real>)
    ensures r.Ok? <==> IsRna(antiSeq19) && Broadcastable(|antiSeq19|, |pwm|)
    ensures !IsRna(antiSeq19) ==> r == Err(OneHot(antiSeq19).error)
    ensures IsRna(antiSeq19) && !Broadcastable(|antiSeq19|, |pwm|) ==> r == Err(ShapeMismatch(|antiSeq19|, |pwm|))
  {
    Penalised(ScorePwm(antiSeq19, pwm), antiSeq19)
  }

  /** A PWM score less the penalty for each distinct run letter of `s`. */
  function Penalised(score: Result<real>, s: string): Result<real>
  {
    match score
    case Err(e) => Err(e)
    case Ok(pwmScore) => Ok(pwmScore - HomopolymerPenalty * (|DistinctHomopolymers(s)| as real))
  }

  /** The reference: the words bbbb, b in A, C, G, U, that occur in `s` anywhere. */
  function HomopolymersPresent(s: string): set<string>
  {
    set w | w in HomopolymerWords && Contains(s, w)
  }

  /** A word of the regex is four copies of its first letter. */
  lemma HomopolymerWordShape(w: string)
    requires w in HomopolymerWords
    ensures |w| == 4 && w == [w[0], w[0], w[0], w[0]]
  {
  }

  /** The scan misses no homopolymer value: an occurrence at q >= from that it
      steps over lies inside a match of the same letter. */
  lemma {:induction false} ScanFindsOccurrence(s: string, from: nat, q: nat, w: string)
    requires w in HomopolymerWords && OccursAt(s, w, q) && from <= q
    ensures w in HomopolymerMatches(s, from)
    decreases |s| - from
  {
    HomopolymerWordShape(w);
    if from + 4 > |s| {
      assert false;
    } else if s[from..from + 4] in HomopolymerWords {
      var v := s[from..from + 4];
      HomopolymerWordShape(v);
      if q < from + 4 {
        assert s[q] == w[0];
        assert s[q] == v[q - from];
        assert w == v;
      } else {
        ScanFindsOccurrence(s, from + 4, q, w);
      }
    } else {
      assert q != from;
      ScanFindsOccurrence(s, from + 1, q, w);
    }
  }

  /** Deduplicating the non-overlapping regex matches by value gives exactly
      the homopolymer words present anywhere in the sequence: two separate
      AAAA runs count once, AAAA and CCCC count twice. */
  lemma DistinctHomopolymersArePresent(s: string)
    ensures DistinctHomopolymers(s) == HomopolymersPresent(s)
  {
    MatchesArePresent(s, 0);
    forall w | w in HomopolymersPresent(s)
      ensures w in DistinctHomopolymers(s)
    {
      var q :| 0 <= q <= |s| && OccursAt(s, w, q);
      ScanFindsOccurrence(s, 0, q, w);
    }
  }

  /** At most the four homopolymers can be found. */
  lemma HomopolymersAtMostFour(s: string)
    ensures |HomopolymersPresent(s)| <= 4
  {
    var all := set w | w in HomopolymerWords;
    assert all == {"AAAA", "CCCC", "UUUU", "GGGG"};
    assert HomopolymersPresent(s) <= all;
    SubsetCardinality(HomopolymersPresent(s), all);
  }

  /** The Dharmacon score is the PWM score minus 8.5 times the number of bases
      b for which bbbb occurs; the penalty is 0, 8.5, 17, 25.5 or 34. */
  lemma DharmaconClosedForm(s: string, pwm: seq<Row>)
    requires IsRna(s) && |s| == |pwm|
    ensures ScorePwm(s, pwm).Ok?
    ensures DharmaconScore(s, pwm) == Ok(ScorePwm(s, pwm).value - 8.5 * (|HomopolymersPresent(s)| as real))
    ensures ScorePwm(s, pwm).value - DharmaconScore(s, pwm).value in {0.0, 8.5, 17.0, 25.5, 34.0}
  {
    var k := |HomopolymersPresent(s)|;
    DharmaconAsPenalty(s, pwm);
    assert k == 0 || k == 1 || k == 2 || k == 3 || k == 4 by {
      HomopolymersAtMostFour(s);
    }
  }

  /** A successful Dharmacon score is the PWM score less 8.5 per run letter present. */
  lemma DharmaconAsPenalty(s: string, pwm: seq<Row>)
    requires ScorePwm(s, pwm).Ok?
    ensures DharmaconScore(s, pwm) == Ok(ScorePwm(s, pwm).value - 8.5 * (|HomopolymersPresent(s)| as real))
  {
    DistinctHomopolymersArePresent(s);
    PenalisedPresent(ScorePwm(s, pwm), s, HomopolymersPresent(s));
  }

  /** A successful score less 8.5 for each run letter of the given set. */
  lemma PenalisedPresent(score: Result<real>, s: string, present: set<string>)
    requires score.Ok? && DistinctHomopolymers(s) == present
    ensures Penalised(score, s) == Ok(score.value - 8.5 * (|present| as real))
  {
  }

  /** Two AAAA runs and one CCCC run cost 2 x 8.5, not 3 x 8.5. */
  lemma DharmaconRepeatedRunCountsOnce(s: string)
    requires s == "AAAAGAAAAGCCCCGUGAU"
    ensures DistinctHomopolymers(s) == {"AAAA", "CCCC"}
  {
    assert s[0..4] == "AAAA";
    assert HomopolymerMatches(s, 0) == ["AAAA"] + HomopolymerMatches(s, 4);
    assert s[4..8] == "GAAA";
    assert HomopolymerMatches(s, 4) == HomopolymerMatches(s, 5);
    assert s[5..9] == "AAAA";
    assert HomopolymerMatches(s, 5) == ["AAAA"] + HomopolymerMatches(s, 9);
    assert s[9..13] == "GCCC";
    assert HomopolymerMatches(s, 9) == HomopolymerMatches(s, 10);
    assert s[10..14] == "CCCC";
    assert HomopolymerMatches(s, 10) == ["CCCC"] + HomopolymerMatches(s, 14);
    assert s[14..18] == "GUGA";
    assert HomopolymerMatches(s, 14) == HomopolymerMatches(s, 15);
    assert s[15..19] == "UGAU";
    assert HomopolymerMatches(s, 15) == HomopolymerMatches(s, 16);
    assert HomopolymerMatches(s, 16) == [];
    assert HomopolymerMatches(s, 0) == ["AAAA", "AAAA", "CCCC"];
  }

  /** On that sequence the Dharmacon penalty is 17, not 25.5. */
  lemma DharmaconRepeatedRunPenalty(s: string, pwm: seq<Row>)
    requires s == "AAAAGAAAAGCCCCGUGAU" && |pwm| == 19
    ensures ScorePwm(s, pwm).Ok? && DharmaconScore(s, pwm) == Ok(ScorePwm(s, pwm).value - 17.0)
  {
    assert IsRna(s);
    assert HomopolymersPresent(s) == {"AAAA", "CCCC"} by {
      DharmaconRepeatedRunCountsOnce(s);
      DistinctHomopolymersArePresent(s);
    }
    DharmaconTwoPresent(s, pwm);
  }

  /** When exactly two of the four homopolymers occur, Dharmacon is the PWM
      score minus 17. */
  lemma DharmaconTwoPresent(s: string, pwm: seq<Row>)
    requires IsRna(s) && |s| == |pwm| && |HomopolymersPresent(s)| == 2
    ensures ScorePwm(s, pwm).Ok? && DharmaconScore(s, pwm) == Ok(ScorePwm(s, pwm).value - 17.0)
  {
    DharmaconAsPenalty(s, pwm);
  }

  // ---------------------------------------------------------------------
  // The published tables and the lengths they accept
  // ---------------------------------------------------------------------

  /** With their published tables, the 21-mer scorers accept exactly RNA of
      length 21 and the 19-mer scorers exactly RNA of length 19; in both
      cases a single base is also accepted, because numpy broadcasts a
      one-row one-hot matrix over the PWM. */
  lemma PublishedScorersAcceptedLengths(s: string, exp: real -> real)
    requires forall x :: 0.0 <= exp(x)
    ensures SBiopredsiScore(s, exp).Ok? <==> IsRna(s) && (|s| == 21 || |s| == 1)
    ensures KatohScore(s).Ok? <==> IsRna(s) && (|s| == 19 || |s| == 1)
    ensures IScore(s).Ok? <==> IsRna(s) && (|s| == 19 || |s| == 1)
    ensures DharmaconScore(s).Ok? <==> IsRna(s) && (|s| == 19 || |s| == 1)
  {
  }
}
