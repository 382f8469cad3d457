/** Reduction of integers into the field GF(m) = [0, m-1], and the modular
    arithmetic facts the rest of the model relies on. Python's `%` is the
    remainder of floor division `//`, which rounds toward minus infinity, so
    the remainder takes the sign of the divisor. For m > 0 it agrees with
    Dafny's Euclidean `%`: both give a remainder in [0, m-1]. */
module Field {

  /** Every element of an integer sequence reduced modulo the field size,
      one result per element and in the same order. */
  function Reduce(xs: seq<int>, m: int): (r: seq<int>)
    requires m >= 1
    ensures |r| == |xs|
    ensures forall i :: 0 <= i < |r| ==> 0 <= r[i] < m
    ensures forall i :: 0 <= i < |r| ==> (xs[i] - r[i]) % m == 0
  {
    var r := seq(|xs|, i requires 0 <= i < |xs| => xs[i] % m);
    assert forall i :: 0 <= i < |r| ==> (xs[i] - r[i]) % m == 0 by {
      forall i | 0 <= i < |r|
        ensures (xs[i] - r[i]) % m == 0
      {
        assert xs[i] - r[i] == m * (xs[i] / m);
        ModOfMultiple(m, xs[i] / m);
      }
    }
    r
  }

  /** True when every element already lies in [0, m-1]. */
  predicate InField(xs: seq<int>, m: int) {
    forall i :: 0 <= i < |xs| ==> 0 <= xs[i] < m
  }

  /** Elements that are already field elements are left alone. */
  lemma ReduceFixesFieldElements(xs: seq<int>, m: int)
    requires m >= 1
    requires InField(xs, m)
    ensures Reduce(xs, m) == xs
  {
  }

  /** Reducing twice is the same as reducing once. */
  lemma ReduceIdempotent(xs: seq<int>, m: int)
    requires m >= 1
    ensures Reduce(Reduce(xs, m), m) == Reduce(xs, m)
  {
  }

  /** Quotient and remainder are unique: a = m*q + r with 0 <= r < m fixes both. */
  lemma DivModUnique(a: int, m: int, q: int, r: int)
    requires m > 0 && 0 <= r < m && a == m * q + r
    ensures a / m == q && a % m == r
  {
    var q', r' := a / m, a % m;
    assert m * q' + r' == m * q + r;
    assert m * (q - q') == r' - r;
    MulMagnitude(m, q - q');
  }

  /** A non-zero multiple of m is at least m away from zero. */
  lemma MulMagnitude(m: int, x: int)
    requires m > 0
    ensures x >= 1 ==> m * x >= m
    ensures x <= -1 ==> m * x <= -m
  {
  }

  /** Adding a multiple of the modulus does not change the remainder. */
  lemma ModAddMultiple(a: int, m: int, k: int)
    requires m > 0
    ensures (a + m * k) % m == a % m
  {
    DivModUnique(a + m * k, m, a / m + k, a % m);
  }

  /** A multiple of the modulus has remainder 0. */
  lemma ModOfMultiple(m: int, k: int)
    requires m > 0
    ensures (m * k) % m == 0
  {
    DivModUnique(m * k, m, k, 0);
  }

  /** The remainder of a sum depends only on the remainders of its terms. */
  lemma ModAdd(a: int, b: int, m: int)
    requires m > 0
    ensures (a + b) % m == (a % m + b % m) % m
  {
    assert a + b == (a % m + b % m) + m * (a / m + b / m);
    ModAddMultiple(a % m + b % m, m, a / m + b / m);
  }

  /** The remainder of a product depends only on the remainder of its left factor. */
  lemma ModMulLeft(a: int, b: int, m: int)
    requires m > 0
    ensures (a * b) % m == ((a % m) * b) % m
  {
    assert a * b == (a % m) * b + m * ((a / m) * b) by {
      assert a == a % m + m * (a / m);
    }
    ModAddMultiple((a % m) * b, m, (a / m) * b);
  }

  /** A product with a factor divisible by m is divisible by m. */
  lemma ModMulZero(a: int, b: int, m: int)
    requires m > 0
    requires b % m == 0
    ensures (a * b) % m == 0
  {
    assert a * b == m * (a * (b / m)) by {
      assert b == m * (b / m);
    }
    ModOfMultiple(m, a * (b / m));
  }
}
