/** `galois_key_generation` without its polynomial generator: the input is
    converted, reduced into the field, normalized to the target length and
    mixed with the supplied polynomial coefficients (highest degree first,
    as the polynomial reports them). */
module KeyGeneration {
  import opened Results
  import opened Conversion
  import Field
  import Normalizer
  import Mixer

  /** The sequence the mixer reads: the converted input reduced into the
      field and padded to the target length. */
  function FieldSequence(input: Input, m: int, t: nat): (r: Result<seq<int>>)
    requires m >= 1
    ensures r.Ok? ==> |r.value| >= t
  {
    match ToSequence(input)
    case Err(e) => Err(e)
    case Ok(raw) => Normalizer.Normalize(Field.Reduce(raw, m), t)
  }

  /** The key `galois_key_generation` returns for `input`, or the exception it raises. */
  function GaloisKeyGeneration(input: Input, m: int, degree: nat, t: nat, coeffs: seq<int>): (r: Result<seq<int>>)
    requires m >= 1
    requires degree <= |coeffs|
    ensures r == Err(NegativeNumber) <==> input.Numeric? && input.number < 0
    ensures r == Err(EmptySequence) <==>
              t > 0 && (input == Text("") || input == Items([]))
    ensures r.Ok? ==> |r.value| == t
    ensures r.Ok? ==> forall i :: 0 <= i < t ==> 0 <= r.value[i] < m
  {
    match FieldSequence(input, m, t)
    case Err(e) => Err(e)
    case Ok(g) => Ok(Mixer.Mix(coeffs, g, m, degree, t))
  }

  /** Every element of the normalized sequence is a field element or a
      padding value below 7. */
  lemma FieldSequenceBounded(input: Input, m: int, t: nat)
    requires m >= 1
    requires FieldSequence(input, m, t).Ok?
    ensures forall i :: 0 <= i < |FieldSequence(input, m, t).value| ==>
              0 <= FieldSequence(input, m, t).value[i] < Normalizer.Max(m, Normalizer.PadModulus)
  {
  }

  /** Key element i is the scaled wrap-around dot product of the first
      `degree` coefficients with the field sequence, reduced modulo m. */
  lemma KeyElementFormula(input: Input, m: int, degree: nat, t: nat, coeffs: seq<int>, i: nat)
    requires m >= 1 && degree <= |coeffs|
    requires GaloisKeyGeneration(input, m, degree, t, coeffs).Ok?
    requires i < t
    ensures var g := FieldSequence(input, m, t).value;
            GaloisKeyGeneration(input, m, degree, t, coeffs).value[i] ==
              (Mixer.Window(coeffs, g, i, degree) * (i + 1)) % m
  {
  }

  /** The key is the same whether the polynomial's coefficients are reported
      as symmetric residues or as residues in [0, m-1], and coefficients past
      the first `degree` never matter. */
  lemma KeyDependsOnCoefficientsModulo(input: Input, m: int, degree: nat, t: nat, coeffs: seq<int>, coeffs': seq<int>)
    requires m >= 1 && degree <= |coeffs| && degree <= |coeffs'|
    requires forall j :: 0 <= j < degree ==> coeffs[j] % m == coeffs'[j] % m
    ensures GaloisKeyGeneration(input, m, degree, t, coeffs) ==
            GaloisKeyGeneration(input, m, degree, t, coeffs')
  {
    var fs := FieldSequence(input, m, t);
    if fs.Ok? {
      Mixer.MixCoefficientsModulo(coeffs, coeffs', fs.value, m, degree, t);
    }
  }

  /** A number and the list of its decimal digits produce the same key. */
  lemma NumericIsDigits(n: nat, m: int, degree: nat, t: nat, coeffs: seq<int>)
    requires m >= 1 && degree <= |coeffs|
    ensures GaloisKeyGeneration(Numeric(n), m, degree, t, coeffs) ==
            GaloisKeyGeneration(Items(Digits(n)), m, degree, t, coeffs)
  {
  }

  /** The example run of the script: "123456789" over GF(7) with 32 key
      elements. The digits' codes 49..57 reduce to 0..6, 0, 1, and the 23
      padding elements continue from the last one, 1, counting modulo 7. */
  lemma ScenarioFieldSequence()
    ensures FieldSequence(Text("123456789"), 7, 32) ==
            Ok([0, 1, 2, 3, 4, 5, 6, 0, 1] +
               [1, 2, 3, 4, 5, 6, 0, 1, 2, 3, 4, 5, 6, 0, 1, 2, 3, 4, 5, 6, 0, 1, 2])
  {
    ScenarioReduced();
    ScenarioPadded();
  }

  /** The character codes of "123456789" reduced into GF(7). */
  lemma ScenarioReduced()
    ensures Field.Reduce(CharCodes("123456789"), 7) == [0, 1, 2, 3, 4, 5, 6, 0, 1]
  {
  }

  /** The reduced example padded to 32 elements. */
  lemma ScenarioPadded()
    ensures Normalizer.Normalize([0, 1, 2, 3, 4, 5, 6, 0, 1], 32) ==
            Ok([0, 1, 2, 3, 4, 5, 6, 0, 1] +
               [1, 2, 3, 4, 5, 6, 0, 1, 2, 3, 4, 5, 6, 0, 1, 2, 3, 4, 5, 6, 0, 1, 2])
  {
    var pad := Normalizer.Padding(1, 23);
    assert pad[0] == 1;
    assert pad[1] == 2;
    assert pad[2] == 3;
    assert pad[3] == 4;
    assert pad[4] == 5;
    assert pad[5] == 6;
    assert pad[6] == 0;
    assert pad[7] == 1;
    assert pad[8] == 2;
    assert pad[9] == 3;
    assert pad[10] == 4;
    assert pad[11] == 5;
    assert pad[12] == 6;
    assert pad[13] == 0;
    assert pad[14] == 1;
    assert pad[15] == 2;
    assert pad[16] == 3;
    assert pad[17] == 4;
    assert pad[18] == 5;
    assert pad[19] == 6;
    assert pad[20] == 0;
    assert pad[21] == 1;
    assert pad[22] == 2;
    assert pad == [1, 2, 3, 4, 5, 6, 0, 1, 2, 3, 4, 5, 6, 0, 1, 2, 3, 4, 5, 6, 0, 1, 2];
  }
}
