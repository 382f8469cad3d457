/** Turning the caller's input into a sequence of integers: a string becomes
    its character codes, a non-negative integer its decimal digits (most
    significant first), and a list of integers is taken as it is. */
module Conversion {
  import opened Results

  /** The kinds of input the key generator dispatches on. */
  datatype Input =
    | Text(text: string)     // a str: one code per character
    | Numeric(number: int)   // an int: one entry per decimal digit of str(number)
    | Items(items: seq<int>) // any other sequence reaches the field reduction unchanged

  /** Code point of every character, in order, as `ord` gives it. */
  function CharCodes(s: string): (codes: seq<int>)
    ensures |codes| == |s|
    ensures forall i :: 0 <= i < |codes| ==> 0 <= codes[i] < 0x11_0000
  {
    seq(|s|, i requires 0 <= i < |s| => s[i] as int)
  }

  /** Two strings with the same codes are the same string: no character is lost. */
  lemma CharCodesInjective(s: string, s': string)
    requires CharCodes(s) == CharCodes(s')
    ensures s == s'
  {
    assert |s| == |s'|;
    forall i | 0 <= i < |s|
      ensures s[i] == s'[i]
    {
      assert CharCodes(s)[i] == CharCodes(s')[i];
    }
  }

  /** Decimal digits of n, most significant first, without leading zeros:
      the characters of `str(n)`, each turned back into an integer. */
  function Digits(n: nat): (ds: seq<int>)
    ensures |ds| >= 1
    ensures forall i :: 0 <= i < |ds| ==> 0 <= ds[i] <= 9
    ensures ds[0] == 0 <==> n == 0
    decreases n
  {
    if n < 10 then [n] else Digits(n / 10) + [n % 10]
  }

  /** Folds digits back into a number with `acc * 10 + d`, left to right. */
  function FromDigits(ds: seq<int>): int
  {
    if |ds| == 0 then 0 else FromDigits(ds[..|ds| - 1]) * 10 + ds[|ds| - 1]
  }

  /** Decimal digits (0..9) with no leading zero, as `str` writes a natural number. */
  predicate IsDecimal(ds: seq<int>) {
    && |ds| >= 1
    && (forall i :: 0 <= i < |ds| ==> 0 <= ds[i] <= 9)
    && (|ds| == 1 || ds[0] != 0)
  }

  /** Folding the digits of n gives n back. */
  lemma {:induction false} DigitsRoundTrip(n: nat)
    ensures IsDecimal(Digits(n))
    ensures FromDigits(Digits(n)) == n
    decreases n
  {
    if n >= 10 {
      DigitsRoundTrip(n / 10);
      var ds := Digits(n);
      assert ds[..|ds| - 1] == Digits(n / 10);
    }
  }

  /** A decimal numeral that does not start with 0 stands for at least 1. */
  lemma {:induction false} FromDigitsPositive(ds: seq<int>)
    requires |ds| >= 1
    requires forall i :: 0 <= i < |ds| ==> 0 <= ds[i] <= 9
    requires ds[0] != 0
    ensures FromDigits(ds) >= 1
    decreases |ds|
  {
    if |ds| > 1 {
      var p := ds[..|ds| - 1];
      FromDigitsPositive(p);
    } else {
      assert ds[..0] == [];
    }
  }

  /** Every decimal numeral is the digit string of the number it denotes. */
  lemma {:induction false} FromDigitsRoundTrip(ds: seq<int>)
    requires IsDecimal(ds)
    ensures FromDigits(ds) >= 0
    ensures Digits(FromDigits(ds)) == ds
    decreases |ds|
  {
    if |ds| == 1 {
      assert ds[..0] == [];
    } else {
      var p := ds[..|ds| - 1];
      assert IsDecimal(p);
      FromDigitsRoundTrip(p);
      FromDigitsPositive(p);
      var n := FromDigits(ds);
      assert n == FromDigits(p) * 10 + ds[|ds| - 1];
      assert n / 10 == FromDigits(p) && n % 10 == ds[|ds| - 1];
      assert ds == p + [ds[|ds| - 1]];
    }
  }

  /** The integer sequence an input stands for, or the error `int('-')`
      raises for the sign of a negative number. */
  function ToSequence(input: Input): (r: Result<seq<int>>)
    ensures r.Err? <==> input.Numeric? && input.number < 0
    ensures r.Err? ==> r.error == NegativeNumber
    ensures input.Text? ==> r == Ok(CharCodes(input.text))
    ensures input.Numeric? && input.number >= 0 ==>
              r.Ok? && IsDecimal(r.value) && FromDigits(r.value) == input.number
    ensures input.Items? ==> r == Ok(input.items)
  {
    match input
    case Text(s) => Ok(CharCodes(s))
    case Numeric(n) =>
      if n < 0 then Err(NegativeNumber)
      else DigitsRoundTrip(n); Ok(Digits(n))
    case Items(xs) => Ok(xs)
  }
}
