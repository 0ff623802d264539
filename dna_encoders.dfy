/** The two one-hot encoders of dna_encoders.py: character-level DNA
    (A, C, G, T as the rows of a 4 x 4 identity matrix) and token-level
    modified nucleotides (eight tokens as the rows of an 8 x 8 identity). */
module DnaEncoders {
  import opened Outcomes
  import opened Vectors

  // ---------------------------------------------------------------------
  // `onehot`: characters A, C, G, T
  // ---------------------------------------------------------------------

  /** `mapping` of `onehot`. */
  const DnaMapping: map<char, nat> := map['A' := 0, 'C' := 1, 'G' := 2, 'T' := 3]

  /** The DNA alphabet in index order. */
  const DnaBases: string := "ACGT"

  /** Every character of `s` is a key of `DnaMapping`. */
  predicate IsDna(s: string)
  {
    forall i :: 0 <= i < |s| ==> s[i] in DnaMapping
  }

  /** `mapping[c]` is the position of `c` in A, C, G, T. */
  lemma DnaMappingIsAlphabetOrder(c: char)
    ensures c in DnaMapping <==> c in DnaBases
    ensures c in DnaMapping ==> DnaMapping[c] < 4 && DnaBases[DnaMapping[c]] == c
  {
  }

  /** The identity-matrix rows `onehot` returns, or the KeyError the lookup
      list raises at the first character outside A, C, G, T. */
  function Onehot(s: string): (r: Result<seq<seq<real>>>)
    ensures r.Ok? <==> IsDna(s)
    ensures r.Ok? ==> |r.value| == |s|
    ensures r.Ok? ==> forall i :: 0 <= i < |s| ==> DnaMapping[s[i]] < 4 && r.value[i] == UnitVector(4, DnaMapping[s[i]])
    ensures r.Err? ==> exists i :: 0 <= i < |s| && s[i] !in DnaMapping && IsDna(s[..i]) && r.error == InvalidSymbol(s[i])
  {
    if s == [] then Ok([])
    else if s[0] !in DnaMapping then
      assert IsDna(s[..0]);
      Err(InvalidSymbol(s[0]))
    else
      match Onehot(s[1..])
      case Err(e) =>
        var i :| 0 <= i < |s[1..]| && s[1..][i] !in DnaMapping && IsDna(s[1..][..i]) && e == InvalidSymbol(s[1..][i]);
        assert s[..i + 1] == [s[0]] + s[1..][..i];
        Err(e)
      case Ok(rows) => Ok([UnitVector(4, DnaMapping[s[0]])] + rows)
  }

  /** The DNA index of every character of a DNA sequence. */
  function DnaIndices(s: string): (ks: seq<nat>)
    requires IsDna(s)
    ensures |ks| == |s|
    ensures forall i :: 0 <= i < |s| ==> ks[i] == DnaMapping[s[i]]
  {
    seq(|s|, i requires 0 <= i < |s| => DnaMapping[s[i]])
  }

  /** Round trip: the position of the 1.0 in each row, read through A, C, G,
      T, gives back the sequence. */
  lemma OnehotRoundTrip(s: string)
    requires IsDna(s)
    ensures DecodeRows(Onehot(s).value, DnaBases) == Some(s)
  {
    DecodeUnitRows(Onehot(s).value, 4, DnaIndices(s), DnaBases);
    forall i | 0 <= i < |s|
      ensures Lookup(DnaBases, DnaIndices(s))[i] == s[i]
    {
      DnaMappingIsAlphabetOrder(s[i]);
    }
    assert Lookup(DnaBases, DnaIndices(s)) == s;
  }

  /** Different DNA sequences have different encodings. */
  lemma OnehotInjective(s: string, t: string)
    requires IsDna(s) && IsDna(t)
    requires Onehot(s) == Onehot(t)
    ensures s == t
  {
    OnehotRoundTrip(s);
    OnehotRoundTrip(t);
  }

  /** RNA's U and lower-case bases are rejected, wherever they occur. */
  lemma OnehotRejectsUAndLowerCase(s: string, i: nat)
    requires i < |s| && s[i] in "Uacgtu"
    ensures Onehot(s).Err?
  {
    assert s[i] !in DnaMapping;
    assert !IsDna(s);
  }

  // ---------------------------------------------------------------------
  // `one_hot_encode_sequence`: eight modified-nucleotide tokens
  // ---------------------------------------------------------------------

  /** `nuc_d`: DNA and cEt (constrained ethyl) nucleotides, with methyl-C. */
  const NucD: map<string, seq<real>> := map[
    "dA" := [1.0, 0.0, 0.0, 0.0, 0.0, 0.0, 0.0, 0.0],
    "dCm" := [0.0, 1.0, 0.0, 0.0, 0.0, 0.0, 0.0, 0.0],
    "dG" := [0.0, 0.0, 1.0, 0.0, 0.0, 0.0, 0.0, 0.0],
    "dT" := [0.0, 0.0, 0.0, 1.0, 0.0, 0.0, 0.0, 0.0],
    "cEtA" := [0.0, 0.0, 0.0, 0.0, 1.0, 0.0, 0.0, 0.0],
    "cEtCm" := [0.0, 0.0, 0.0, 0.0, 0.0, 1.0, 0.0, 0.0],
    "cEtG" := [0.0, 0.0, 0.0, 0.0, 0.0, 0.0, 1.0, 0.0],
    "cEtT" := [0.0, 0.0, 0.0, 0.0, 0.0, 0.0, 0.0, 1.0]]

  /** The tokens in the order of their 1.0. */
  const Tokens: seq<string> := ["dA", "dCm", "dG", "dT", "cEtA", "cEtCm", "cEtG", "cEtT"]

  /** The table is the 8 x 8 identity matrix, row `k` belonging to `Tokens[k]`. */
  lemma NucDIsIdentity(k: nat)
    requires k < 8
    ensures Tokens[k] in NucD && NucD[Tokens[k]] == UnitVector(8, k)
  {
    var u := UnitVector(8, k);
    assert u == seq(8, j => if j == k then 1.0 else 0.0);
    if k == 0 {
      assert NucD["dA"] == u;
    } else if k == 1 {
      assert NucD["dCm"] == u;
    } else if k == 2 {
      assert NucD["dG"] == u;
    } else if k == 3 {
      assert NucD["dT"] == u;
    } else if k == 4 {
      assert NucD["cEtA"] == u;
    } else if k == 5 {
      assert NucD["cEtCm"] == u;
    } else if k == 6 {
      assert NucD["cEtG"] == u;
    } else {
      assert NucD["cEtT"] == u;
    }
  }

  /** The table's keys are exactly the eight tokens. */
  lemma NucDKeys(t: string)
    ensures t in NucD <==> t in Tokens
  {
  }

  /** Every unknown token is rejected, including every single character. */
  lemma NoSingleCharacterToken(c: char)
    ensures [c] !in NucD
  {
  }

  /** The position of a token in `Tokens`. */
  lemma TokenIndex(t: string) returns (k: nat)
    requires t in NucD
    ensures k < 8 && Tokens[k] == t && NucD[t] == UnitVector(8, k)
  {
    NucDKeys(t);
    k :| 0 <= k < 8 && Tokens[k] == t;
    NucDIsIdentity(k);
  }

  /** Every token of `tokens` is a key of the table. */
  predicate AllKnown(tokens: seq<string>)
  {
    forall i :: 0 <= i < |tokens| ==> tokens[i] in NucD
  }

  /** `one_hot_encode_sequence`: the table row of every token, or the
      KeyError the lookup list raises at the first unknown token. */
  function OneHotEncodeSequence(tokens: seq<string>): (r: Result<seq<seq<real>>>)
    ensures r.Ok? <==> AllKnown(tokens)
    ensures r.Ok? ==> |r.value| == |tokens|
    ensures r.Ok? ==> forall i :: 0 <= i < |tokens| ==> r.value[i] == NucD[tokens[i]]
    ensures r.Err? ==> exists i :: 0 <= i < |tokens| && tokens[i] !in NucD && AllKnown(tokens[..i])
                                   && r.error == UnknownToken(tokens[i])
  {
    if tokens == [] then Ok([])
    else if tokens[0] !in NucD then
      assert AllKnown(tokens[..0]);
      Err(UnknownToken(tokens[0]))
    else
      match OneHotEncodeSequence(tokens[1..])
      case Err(e) =>
        var i :| 0 <= i < |tokens[1..]| && tokens[1..][i] !in NucD && AllKnown(tokens[1..][..i])
                 && e == UnknownToken(tokens[1..][i]);
        assert tokens[..i + 1] == [tokens[0]] + tokens[1..][..i];
        Err(e)
      case Ok(rows) => Ok([NucD[tokens[0]]] + rows)
  }

  /** Round trip: the position of the 1.0 in each row, read through `Tokens`,
      gives back the token sequence. */
  lemma OneHotEncodeSequenceRoundTrip(tokens: seq<string>)
    requires AllKnown(tokens)
    ensures DecodeRows(OneHotEncodeSequence(tokens).value, Tokens) == Some(tokens)
  {
    var ks := TokenIndices(tokens);
    DecodeUnitRows(OneHotEncodeSequence(tokens).value, 8, ks, Tokens);
    assert Lookup(Tokens, ks) == tokens;
  }

  /** The table index of every token of a known token sequence. */
  lemma {:induction false} TokenIndices(tokens: seq<string>) returns (ks: seq<nat>)
    requires AllKnown(tokens)
    ensures |ks| == |tokens|
    ensures forall i :: 0 <= i < |ks| ==> ks[i] < 8 && Tokens[ks[i]] == tokens[i] && NucD[tokens[i]] == UnitVector(8, ks[i])
  {
    if tokens == [] {
      ks := [];
    } else {
      var k := TokenIndex(tokens[0]);
      var rest := TokenIndices(tokens[1..]);
      ks := [k] + rest;
    }
  }

  /** Different known token sequences have different encodings. */
  lemma OneHotEncodeSequenceInjective(s: seq<string>, t: seq<string>)
    requires AllKnown(s) && AllKnown(t)
    requires OneHotEncodeSequence(s) == OneHotEncodeSequence(t)
    ensures s == t
  {
    OneHotEncodeSequenceRoundTrip(s);
    OneHotEncodeSequenceRoundTrip(t);
  }

  /** A plain string iterated character by character is no token sequence:
      any non-empty one is rejected at its first character. */
  lemma CharactersAreNotTokens(s: string)
    requires s != []
    ensures OneHotEncodeSequence(seq(|s|, i requires 0 <= i < |s| => [s[i]])) == Err(UnknownToken([s[0]]))
  {
    NoSingleCharacterToken(s[0]);
  }
}
