/** `normalize_sequence`: pads a sequence up to a target length. Padding
    element k is `(last + k) % 7`, where `last` is the final element of the
    sequence; the modulus 7 is fixed, whatever the field size. A sequence
    that is already long enough is returned unchanged: nothing is truncated. */
module Normalizer {
  import opened Results
  import Field

  /** The fixed modulus of the padding rule. */
  const PadModulus: int := 7

  function Max(a: int, b: int): int {
    if a >= b then a else b
  }

  /** The `n` padding elements that follow `last`, built one at a time
      in the order `range(n)` yields them. */
  function Padding(last: int, n: nat): (pad: seq<int>)
    ensures |pad| == n
    ensures forall k :: 0 <= k < n ==> pad[k] == (last + k) % PadModulus
    ensures forall k :: 0 <= k < n ==> 0 <= pad[k] < PadModulus
  {
    if n == 0 then [] else Padding(last, n - 1) + [(last + n - 1) % PadModulus]
  }

  /** The sequence padded to length `t`, or EmptySequence when padding is
      needed but there is no last element to derive it from. */
  function Normalize(s: seq<int>, t: nat): (r: Result<seq<int>>)
    ensures r.Err? <==> t > |s| && |s| == 0
    ensures r.Err? ==> r.error == EmptySequence
    ensures r.Ok? ==> |r.value| == Max(|s|, t)
    ensures r.Ok? ==> r.value[..|s|] == s
    ensures r.Ok? ==> forall i :: |s| <= i < |r.value| ==>
                        r.value[i] == (s[|s| - 1] + (i - |s|)) % PadModulus
    ensures r.Ok? ==> forall i :: |s| <= i < |r.value| ==> 0 <= r.value[i] < PadModulus
    ensures t <= |s| ==> r == Ok(s)
  {
    var diff := t - |s|;
    if diff > 0 then
      if |s| == 0 then Err(EmptySequence) else Ok(s + Padding(s[|s| - 1], diff))
    else
      Ok(s)
  }

  /** `normalize_sequence`'s padding loop: the padding list is filled
      by a loop over `range(length_diff)` and then appended. */
  method NormalizeByLoop(s: seq<int>, t: nat) returns (r: Result<seq<int>>)
    ensures r == Normalize(s, t)
  {
    var diff := t - |s|;
    if diff <= 0 {
      return Ok(s);
    }
    if |s| == 0 {
      return Err(EmptySequence);
    }
    var last := s[|s| - 1];
    var padding: seq<int> := [];
    var i := 0;
    while i < diff
      invariant 0 <= i <= diff
      invariant padding == Padding(last, i)
    {
      padding := padding + [(last + i) % PadModulus];
      i := i + 1;
    }
    r := Ok(s + padding);
  }

  /** Normalizing a normalized sequence to the same length changes nothing. */
  lemma NormalizeIdempotent(s: seq<int>, t: nat)
    requires Normalize(s, t).Ok?
    ensures Normalize(Normalize(s, t).value, t) == Normalize(s, t)
  {
  }

  /** The padding is determined by the last element alone: two sequences of
      the same length that end alike get the same padding. */
  lemma PaddingDependsOnlyOnLast(s: seq<int>, s': seq<int>, t: nat)
    requires |s| == |s'| > 0
    requires s[|s| - 1] == s'[|s'| - 1]
    ensures Normalize(s, t).value[|s|..] == Normalize(s', t).value[|s'|..]
  {
  }

  /** Padding ignores the field: over GF(5), the element 4 is reduced to
      itself and then padded with 5, which is not an element of GF(5). */
  lemma PaddingCanLeaveField()
    ensures Normalize(Field.Reduce([4], 5), 3) == Ok([4, 4, 5])
    ensures !Field.InField(Normalize(Field.Reduce([4], 5), 3).value, 5)
  {
    assert Field.Reduce([4], 5) == [4];
    assert Padding(4, 1) == [4];
    assert Padding(4, 2) == [4, 5];
    assert [4] + [4, 5] == [4, 4, 5];
    assert Normalize(Field.Reduce([4], 5), 3).value[2] == 5;
  }
}
