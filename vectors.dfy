/** Indicator rows: the rows of an identity matrix and the inverse lookup
    (the position of the 1.0 in a row) used to decode one-hot matrices. */
module Vectors {
  import opened Outcomes

  /** Row `k` of the `width` x `width` identity matrix. */
  function UnitVector(width: nat, k: nat): (v: seq<real>)
    requires k < width
    ensures |v| == width
    ensures v[k] == 1.0
    ensures forall j :: 0 <= j < width && j != k ==> v[j] == 0.0
  {
    seq(width, j => if j == k then 1.0 else 0.0)
  }

  /** The first position holding 1.0, searching from `from`. */
  function IndexOfOneFrom(row: seq<real>, from: nat): (r: Option<nat>)
    decreases |row| - from
    ensures r.Some? ==> from <= r.value < |row| && row[r.value] == 1.0
    ensures r.Some? ==> forall j :: from <= j < r.value ==> row[j] != 1.0
    ensures r.None? ==> forall j :: from <= j < |row| ==> row[j] != 1.0
  {
    if from >= |row| then None
    else if row[from] == 1.0 then Some(from)
    else IndexOfOneFrom(row, from + 1)
  }

  /** The position of the first 1.0 in a row (argmax of an indicator row). */
  function IndexOfOne(row: seq<real>): Option<nat>
  {
    IndexOfOneFrom(row, 0)
  }

  /** Decoding a unit row gives back its index. */
  lemma IndexOfUnitVector(width: nat, k: nat)
    requires k < width
    ensures IndexOfOne(UnitVector(width, k)) == Some(k)
  {
  }

  /** Reads every row back as the symbol of `alphabet` at the position of its
      1.0; a row without a 1.0 or pointing past the alphabet has no symbol. */
  function DecodeRows<T>(rows: seq<seq<real>>, alphabet: seq<T>): (r: Option<seq<T>>)
    ensures r.Some? ==> |r.value| == |rows|
  {
    if rows == [] then Some([])
    else
      match IndexOfOne(rows[0])
      case None => None
      case Some(k) =>
        if k >= |alphabet| then None
        else
          match DecodeRows(rows[1..], alphabet)
          case None => None
          case Some(rest) => Some([alphabet[k]] + rest)
  }

  /** The symbols of `alphabet` at positions `ks`. */
  function Lookup<T>(alphabet: seq<T>, ks: seq<nat>): (r: seq<T>)
    requires forall i :: 0 <= i < |ks| ==> ks[i] < |alphabet|
    ensures |r| == |ks|
    ensures forall i :: 0 <= i < |ks| ==> r[i] == alphabet[ks[i]]
  {
    seq(|ks|, i requires 0 <= i < |ks| => alphabet[ks[i]])
  }

  /** Decoding the unit rows at positions `ks` gives the symbols at `ks`. */
  lemma {:induction false} DecodeUnitRows<T>(rows: seq<seq<real>>, width: nat, ks: seq<nat>, alphabet: seq<T>)
    requires |rows| == |ks|
    requires forall i :: 0 <= i < |ks| ==> ks[i] < width && ks[i] < |alphabet| && rows[i] == UnitVector(width, ks[i])
    ensures DecodeRows(rows, alphabet) == Some(Lookup(alphabet, ks))
  {
    if rows != [] {
      IndexOfUnitVector(width, ks[0]);
      DecodeUnitRows(rows[1..], width, ks[1..], alphabet);
      assert Lookup(alphabet, ks) == [alphabet[ks[0]]] + Lookup(alphabet, ks[1..]);
    }
  }
}
