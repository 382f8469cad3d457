# Galois key generation — verified model

A Dafny model of the deterministic part of `galois_key_generation` in
`Galois_Hash_Generator.py`. The function turns an input into a key, a
sequence of elements of GF(p), in four steps:

1. **Conversion.** A string becomes its character codes (`ord`). A
   non-negative integer becomes its decimal digits, most significant first.
   Any other sequence is passed through unchanged (`Conversion`).
2. **Field reduction.** Every element is taken `% field_size` (`Field.Reduce`).
3. **Normalization.** `normalize_sequence` pads the sequence to the target
   length. Padding element k is `(last + k) % 7`, where `last` is the final
   element. A sequence that is long enough is returned unchanged
   (`Normalizer`).
4. **Mixing.** Key element i is the wrap-around dot product of the first
   `degree` polynomial coefficients with the sequence from position i,
   scaled by i + 1 and reduced `% field_size` (`Mixer`).

`KeyGeneration.GaloisKeyGeneration` composes the four steps. The random
polynomial is a parameter: a sequence of integer coefficients, highest degree
first, in the order `Poly.coeffs()` reports them. The coefficients may be
negative, because a modular polynomial may report symmetric residues.

The Python exceptions become `Results.Error` values:
- `EmptySequence`: padding an empty sequence reads `input_sequence[-1]`, an IndexError.
- `NegativeNumber`: the digits of a negative number include `'-'`, and `int('-')` raises a ValueError.

Python's `%` with a positive modulus and Dafny's `%` both return a remainder
in `[0, m-1]`, so the model uses Dafny's operator directly. Python integers
are unbounded, and so are Dafny's `int`.

Behaviour worth knowing, stated as the code does it:
- The normalized sequence is never truncated. When the input is longer than
  the target length, the mixer wraps around the whole input, not only its
  first `target_length` elements.
- The constant coefficient of the generated polynomial is the fixed `1`.
  That is the last entry of the coefficient list; the leading coefficient is
  random, so the polynomial is not necessarily monic.
- The padding modulus is 7 whatever the field size. For a field smaller than
  7, the padded sequence can hold values outside the field
  (`Normalizer.PaddingCanLeaveField`). The final `% field_size` still keeps
  every key element in range.

## Model

| member | source | states |
|---|---|---|
| `Conversion.CharCodes` | Galois_Hash_Generator.py:63-64 | one code per character, each a Unicode code point below 0x110000 |
| `Conversion.CharCodesInjective` | Galois_Hash_Generator.py:64 | distinct strings give distinct code sequences |
| `Conversion.Digits` | Galois_Hash_Generator.py:66 | at least one digit, each in [0, 9], and the leading digit is 0 exactly when the number is 0 |
| `Conversion.DigitsRoundTrip` | Galois_Hash_Generator.py:66 | the digits of n have no leading zero, and folding them with `acc * 10 + d` gives n back |
| `Conversion.FromDigitsRoundTrip` | Galois_Hash_Generator.py:66 | every digit string without a leading zero is the digit list of the number it denotes |
| `Conversion.ToSequence` | Galois_Hash_Generator.py:62-66 | fails exactly for a negative number; text gives its character codes, a number its decimal digits, and any other sequence passes unchanged |
| `Field.Reduce` | Galois_Hash_Generator.py:68-69 | keeps the length; every element lands in [0, m-1] and is congruent to its input modulo m |
| `Field.ReduceFixesFieldElements` | Galois_Hash_Generator.py:69 | a sequence already in [0, m-1] is left unchanged |
| `Field.ReduceIdempotent` | Galois_Hash_Generator.py:69 | reducing twice is the same as reducing once |
| `Normalizer.Padding` | Galois_Hash_Generator.py:41 | the padding built one element at a time has element k equal to (last + k) % 7, always in [0, 6] |
| `Normalizer.Normalize` | Galois_Hash_Generator.py:28-43 | fails exactly when padding is needed and the sequence is empty; otherwise the length is max(len(s), t), the first len(s) elements are s, element len(s)+k is (s[len(s)-1] + k) % 7 in [0, 6], and a sequence of length at least t is returned unchanged |
| `Normalizer.NormalizeByLoop` | Galois_Hash_Generator.py:39-43 | filling the padding list in a loop over `range(length_diff)` yields the same result as `Normalize` |
| `Normalizer.NormalizeIdempotent` | Galois_Hash_Generator.py:39-43 | normalizing a normalized sequence to the same length changes nothing |
| `Normalizer.PaddingDependsOnlyOnLast` | Galois_Hash_Generator.py:41 | two sequences of equal length ending in the same element get the same padding |
| `Normalizer.PaddingCanLeaveField` | Galois_Hash_Generator.py:41 | over field size 5, the sequence [4] reduced and padded to length 3 is [4, 4, 5], which is not a sequence of GF(5) elements |
| `Mixer.KeyElement` | Galois_Hash_Generator.py:77-78 | each key element is in [0, m-1]; it is 0 when m divides i + 1, and 0 when degree is 0 |
| `Mixer.Mix` | Galois_Hash_Generator.py:75-81 | the key has exactly t elements, each in [0, m-1]; element i is 0 when m divides i + 1; all are 0 when degree is 0 |
| `Mixer.Window` | Galois_Hash_Generator.py:77 | the definition of the window sum, adding the products from the first coefficient to the last; it has no ensures, and the element formulas of `Mixer.MixByLoop` and `KeyGeneration.KeyElementFormula` are stated in terms of it |
| `Mixer.MixByLoop` | Galois_Hash_Generator.py:75-81 | the nested loop yields t elements; element i is (Σ_{j<degree} coeffs[j] * g[(i+j) % len(g)]) * (i+1) % m, and the whole key equals `Mix` |
| `Mixer.MixUsesFirstCoefficients` | Galois_Hash_Generator.py:77 | only the first `degree` coefficients affect the key |
| `Mixer.MixCoefficientsModulo` | Galois_Hash_Generator.py:77-78 | coefficients that agree modulo m give the same key, so symmetric and non-negative residues give the same key |
| `Mixer.MixPeriodic` | Galois_Hash_Generator.py:77-78 | the key repeats with period m * len(g) |
| `KeyGeneration.FieldSequence` | Galois_Hash_Generator.py:68-72 | the sequence handed to the mixer has at least `target_length` elements |
| `KeyGeneration.GaloisKeyGeneration` | Galois_Hash_Generator.py:62-81 | fails with NegativeNumber exactly for a negative number, and with EmptySequence exactly for an empty string or list when the target length is positive; otherwise the key has `target_length` elements, each in [0, m-1] |
| `KeyGeneration.FieldSequenceBounded` | Galois_Hash_Generator.py:69-72 | every element the mixer reads lies in [0, max(m, 7) - 1] |
| `KeyGeneration.KeyElementFormula` | Galois_Hash_Generator.py:77-78 | key element i is the scaled window sum over the normalized field sequence, reduced modulo m |
| `KeyGeneration.KeyDependsOnCoefficientsModulo` | Galois_Hash_Generator.py:77-78 | the whole key depends on the coefficients only modulo m |
| `KeyGeneration.ScenarioFieldSequence` | Galois_Hash_Generator.py:63-72 | for the script's example, "123456789" over GF(7) with target length 32, the mixer reads [0, 1, 2, 3, 4, 5, 6, 0, 1] followed by 23 padding elements counting up from 1 modulo 7 |
| `KeyGeneration.NumericIsDigits` | Galois_Hash_Generator.py:65-66 | a number and the list of its decimal digits produce the same key |

## Left out

- `generate_irreducible_polynomial` (Galois_Hash_Generator.py:10-26): it draws coefficients with `random.randint` and tests them with sympy's `Poly.is_irreducible`, a library outside this model. Its loop is random and unbounded. The model takes the coefficients as a parameter instead.
- Irreducibility of the polynomial: the generator keeps only candidates that pass sympy's irreducibility test (Galois_Hash_Generator.py:25). The model accepts any coefficient sequence, and no lemma depends on irreducibility.
- Primality of `field_size`: the code never checks it. The model only needs `field_size >= 1`.
- KeyGeneration.GaloisKeyGeneration: requires `field_size >= 1`. With `degree >= 1`, the generator, which runs first, already raises for `field_size <= 1`. A zero `field_size` would raise ZeroDivisionError at line 69 for a non-empty input; an empty input raises IndexError at line 41 when `target_length > 0` and returns `[]` when it is 0.
- KeyGeneration.GaloisKeyGeneration: `degree` and `target_length` are natural numbers. With a negative `target_length`, Python produces an empty key. A negative `degree` makes both `range(degree)` loops (lines 23 and 77) empty, so it behaves as degree 0; `degree: nat` excludes it.
- The `print` of the polynomial (Galois_Hash_Generator.py:60) and the `__main__` block, which seeds the generator, formats hex and prints (Galois_Hash_Generator.py:84-102): these are output and presentation. Its example input appears only in `KeyGeneration.ScenarioFieldSequence`; the key itself depends on the random polynomial and is not computed.
- In-place extension of the caller's list by `normalize_sequence` (Galois_Hash_Generator.py:42): the only caller rebinds the result, so a function returning a new sequence behaves the same.
- Python's `bool` inputs, which are `int` instances: not modelled.
- Lists of strings or floats: a list reaches line 69 as it is, where `int(ch)` parses digit strings and truncates floats toward zero. `Conversion.Input.Items` holds integers only, so such lists are not modelled.
- Conversion.ToSequence: Python 3.11 and later refuse by default to convert an integer of more than 4300 digits with `str`, raising ValueError at line 66. The model has no such limit, so it states that conversion fails exactly for a negative number.
- Conversion.CharCodes: a Python `str` may hold lone surrogates (U+D800 to U+DFFF), and a Dafny `string` cannot. Strings containing them are not modelled.
