/** The key mixer: output element i is the wrap-around dot product of the
    first `degree` polynomial coefficients with the sequence starting at
    position i, scaled by i + 1 and reduced modulo the field size. */
module Mixer {
  import Field

  /** The window sum at start position i: for each j < d, coefficient j
      multiplied by the sequence element j positions on from i (wrapping
      around the end of g), added up from the first coefficient to the last. */
  function Window(coeffs: seq<int>, g: seq<int>, i: nat, d: nat): int
    requires d <= |coeffs|
    requires d == 0 || |g| > 0
  {
    if d == 0 then 0 else Window(coeffs, g, i, d - 1) + coeffs[d - 1] * g[(i + d - 1) % |g|]
  }

  /** Preconditions shared by the mixer's members: a usable modulus, enough
      coefficients, and a non-empty sequence whenever it is indexed. */
  predicate Mixable(coeffs: seq<int>, g: seq<int>, m: int, degree: nat) {
    m >= 1 && degree <= |coeffs| && (degree == 0 || |g| > 0)
  }

  /** Preconditions of a whole key of length t: the sequence may be empty
      only when the loop never reads it. */
  predicate KeyInputs(coeffs: seq<int>, g: seq<int>, m: int, degree: nat, t: nat) {
    m >= 1 && degree <= |coeffs| && (t == 0 || degree == 0 || |g| > 0)
  }

  /** Key element i: a field element that vanishes when m divides i + 1
      and when no coefficient takes part. */
  function KeyElement(coeffs: seq<int>, g: seq<int>, m: int, degree: nat, i: nat): (e: int)
    requires Mixable(coeffs, g, m, degree)
    ensures 0 <= e < m
    ensures (i + 1) % m == 0 ==> e == 0
    ensures degree == 0 ==> e == 0
  {
    var w := Window(coeffs, g, i, degree);
    assert (i + 1) % m == 0 ==> (w * (i + 1)) % m == 0 by {
      if (i + 1) % m == 0 {
        Field.ModMulZero(w, i + 1, m);
      }
    }
    (w * (i + 1)) % m
  }

  /** The key of length t. */
  function Mix(coeffs: seq<int>, g: seq<int>, m: int, degree: nat, t: nat): (key: seq<int>)
    requires KeyInputs(coeffs, g, m, degree, t)
    ensures |key| == t
    ensures forall i :: 0 <= i < t ==> 0 <= key[i] < m
    ensures forall i :: 0 <= i < t && (i + 1) % m == 0 ==> key[i] == 0
    ensures degree == 0 ==> forall i :: 0 <= i < t ==> key[i] == 0
  {
    seq(t, i requires 0 <= i < t => KeyElement(coeffs, g, m, degree, i))
  }

  /** The mixing loop of `galois_key_generation`: an outer loop appending one
      element per index and an inner loop summing the window. */
  method MixByLoop(coeffs: seq<int>, g: seq<int>, m: int, degree: nat, t: nat) returns (key: seq<int>)
    requires KeyInputs(coeffs, g, m, degree, t)
    ensures |key| == t
    ensures forall i :: 0 <= i < t ==>
              key[i] == (Window(coeffs, g, i, degree) * (i + 1)) % m
    ensures key == Mix(coeffs, g, m, degree, t)
  {
    key := [];
    var i := 0;
    while i < t
      invariant 0 <= i <= t
      invariant |key| == i
      invariant forall k :: 0 <= k < i ==> key[k] == KeyElement(coeffs, g, m, degree, k)
    {
      var element := 0;
      var j := 0;
      while j < degree
        invariant 0 <= j <= degree
        invariant element == Window(coeffs, g, i, j)
      {
        element := element + coeffs[j] * g[(i + j) % |g|];
        j := j + 1;
      }
      element := (element * (i + 1)) % m;
      assert element == KeyElement(coeffs, g, m, degree, i);
      key := key + [element];
      i := i + 1;
    }
    assert key == Mix(coeffs, g, m, degree, t);
  }

  /** Coefficients beyond the first d take no part in the window. */
  lemma {:induction false} WindowUsesPrefix(coeffs: seq<int>, coeffs': seq<int>, g: seq<int>, i: nat, d: nat)
    requires d <= |coeffs| && d <= |coeffs'|
    requires coeffs[..d] == coeffs'[..d]
    requires d == 0 || |g| > 0
    ensures Window(coeffs, g, i, d) == Window(coeffs', g, i, d)
  {
    if d > 0 {
      assert coeffs[..d - 1] == coeffs'[..d - 1];
      assert coeffs[d - 1] == coeffs[..d][d - 1];
      WindowUsesPrefix(coeffs, coeffs', g, i, d - 1);
    }
  }

  /** Only the first `degree` coefficients of the polynomial reach the key. */
  lemma MixUsesFirstCoefficients(coeffs: seq<int>, g: seq<int>, m: int, degree: nat, t: nat)
    requires KeyInputs(coeffs, g, m, degree, t)
    ensures Mix(coeffs, g, m, degree, t) == Mix(coeffs[..degree], g, m, degree, t)
  {
    forall i | 0 <= i < t
      ensures Window(coeffs, g, i, degree) == Window(coeffs[..degree], g, i, degree)
    {
      WindowUsesPrefix(coeffs, coeffs[..degree], g, i, degree);
    }
  }

  /** Coefficients that agree modulo m give windows that agree modulo m. */
  lemma {:induction false} WindowCongruent(coeffs: seq<int>, coeffs': seq<int>, g: seq<int>, m: int, i: nat, d: nat)
    requires m >= 1
    requires d <= |coeffs| && d <= |coeffs'|
    requires forall j :: 0 <= j < d ==> coeffs[j] % m == coeffs'[j] % m
    requires d == 0 || |g| > 0
    ensures Window(coeffs, g, i, d) % m == Window(coeffs', g, i, d) % m
  {
    if d > 0 {
      WindowCongruent(coeffs, coeffs', g, m, i, d - 1);
      var x := g[(i + d - 1) % |g|];
      var w, w' := Window(coeffs, g, i, d - 1), Window(coeffs', g, i, d - 1);
      var c, c' := coeffs[d - 1], coeffs'[d - 1];
      Field.ModAdd(w, c * x, m);
      Field.ModAdd(w', c' * x, m);
      Field.ModMulLeft(c, x, m);
      Field.ModMulLeft(c', x, m);
    }
  }

  /** The key depends on the coefficients only modulo m, so a polynomial
      reported with symmetric (possibly negative) residues gives the same key
      as the same polynomial reported with residues in [0, m-1]. */
  lemma MixCoefficientsModulo(coeffs: seq<int>, coeffs': seq<int>, g: seq<int>, m: int, degree: nat, t: nat)
    requires KeyInputs(coeffs, g, m, degree, t) && KeyInputs(coeffs', g, m, degree, t)
    requires forall j :: 0 <= j < degree ==> coeffs[j] % m == coeffs'[j] % m
    ensures Mix(coeffs, g, m, degree, t) == Mix(coeffs', g, m, degree, t)
  {
    forall i | 0 <= i < t
      ensures KeyElement(coeffs, g, m, degree, i) == KeyElement(coeffs', g, m, degree, i)
    {
      var w, w' := Window(coeffs, g, i, degree), Window(coeffs', g, i, degree);
      WindowCongruent(coeffs, coeffs', g, m, i, degree);
      Field.ModMulLeft(w, i + 1, m);
      Field.ModMulLeft(w', i + 1, m);
    }
  }

  /** Shifting the start by a whole turn of the sequence leaves the window alone. */
  lemma {:induction false} WindowPeriodic(coeffs: seq<int>, g: seq<int>, i: nat, d: nat)
    requires d <= |coeffs| && |g| > 0
    ensures Window(coeffs, g, i + |g|, d) == Window(coeffs, g, i, d)
  {
    if d > 0 {
      WindowPeriodic(coeffs, g, i, d - 1);
      Field.ModAddMultiple(i + d - 1, |g|, 1);
      assert i + |g| + d - 1 == (i + d - 1) + |g| * 1;
    }
  }

  /** Shifting the start by any number of whole turns leaves the window alone. */
  lemma {:induction false} WindowPeriodicTurns(coeffs: seq<int>, g: seq<int>, i: nat, d: nat, k: nat)
    requires d <= |coeffs| && |g| > 0
    ensures Window(coeffs, g, i + k * |g|, d) == Window(coeffs, g, i, d)
  {
    if k > 0 {
      WindowPeriodicTurns(coeffs, g, i, d, k - 1);
      WindowPeriodic(coeffs, g, i + (k - 1) * |g|, d);
      assert i + (k - 1) * |g| + |g| == i + k * |g|;
    }
  }

  /** The key repeats with period m * |g|: element i and element i + m * |g|
      see the same window and scale factors that agree modulo m. */
  lemma MixPeriodic(coeffs: seq<int>, g: seq<int>, m: int, degree: nat, t: nat, i: nat)
    requires KeyInputs(coeffs, g, m, degree, t) && |g| > 0
    requires i + m * |g| < t
    ensures Mix(coeffs, g, m, degree, t)[i + m * |g|] == Mix(coeffs, g, m, degree, t)[i]
  {
    var n := |g|;
    var w := Window(coeffs, g, i, degree);
    WindowPeriodicTurns(coeffs, g, i, degree, m);
    assert w * (i + m * n + 1) == w * (i + 1) + m * (w * n);
    Field.ModAddMultiple(w * (i + 1), m, w * n);
  }
}
