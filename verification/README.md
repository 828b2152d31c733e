# Shamir secret sharing over GF(2^p) — a Dafny model

This project models the `Shamir` class of `shamir.py`. The class has three
operations:

- `_evalPoly`: Horner evaluation of a coefficient list, highest degree first.
- `generateShares(secret, n, k)`: draws `k-1` random field elements, appends
  the secret as the constant term, and maps each index `1..n` to the
  polynomial's value there.
- `calcSecret(D)`: Lagrange interpolation at zero. It overwrites every value
  of the share dictionary with that share's weighted term, in place, and then
  adds the weighted terms up.

The arithmetic of pyfinite's `FField(p)` enters as an abstract field. It is a
record of total operations (`Add`, `Subtract`, `Multiply`, `Divide`) plus a
map from Python integers to field elements. The laws of GF(2^p) that the
proofs use are collected in the predicate `GaloisField.IsField`:

- commutative and associative addition with zero;
- characteristic 2, so `Subtract` is `Add`;
- a commutative, associative, distributive multiplication with one, and
  `zero != one`;
- `Multiply(Divide(a, b), b) == a` for `b != 0`. The library's
  `Divide(Multiply(a, b), b) == a` follows from it; see
  `DivideUndoesMultiply`;
- integers in `[0, 2^p)` are distinct elements, and `0` is the zero element.

A Python dict is a `Shamir.Dict`: the keys in insertion order plus the
key/value map. `calcSecret` walks the keys in that order.

Modules:

- `GaloisField` (`field.dfy`): the field record and the algebra derived from
  its laws.
- `Shamir` (`shamir.dfy`): the data model and the three operations.
  - `EvalPoly` is `_evalPoly`.
  - `GenerateShares` is `generateShares`; `SharesUpTo` is its evaluation loop.
  - `CalcSecret` is `calcSecret`.
    - `Overwrite` is its nested loop, which mutates the dictionary.
    - `Weigh` is one pass of the inner loop.
    - `SumValues` is the closing sum.
- `Polynomial` (`poly.dfy`): what `_evalPoly` computes.
  - Horner's rule equals the monomial sum.
  - The value at zero is the constant term.
  - The factor theorem holds.
- `Lagrange` (`lagrange.dfy`): interpolation at zero over distinct points is
  exact for every polynomial with at most as many coefficients as points.
- `Reconstruction` (`reconstruction.dfy`): `calcSecret` is that interpolation,
  and the round trip holds. When `n < 2^p`, any `k` or more shares produced
  by `generateShares(secret, n, k)` give back `secret`.

## Model

| member | source | states |
|---|---|---|
| GaloisField.SubZeroIff | shamir.py:58 | `Subtract(a, b)` is zero exactly when `a == b`, so the divisor at line 58 is nonzero exactly when the two elements differ; for keys in `[0, 2^p)`, exactly when the keys differ (`NoDivisionByZero`) |
| GaloisField.DivideUndoesMultiply | shamir.py:58 | dividing `Multiply(a, b)` by a nonzero `b` gives back `a` |
| Shamir.Put | shamir.py:42 | dict assignment: the map is updated; a new key is appended to the iteration order; an existing key keeps its place |
| Shamir.EvalPoly | shamir.py:21-25 | no contract: the definition is the loop, peeling the last coefficient; its meaning is stated by `HornerIsMonomialSum`, `EvalPolySingleton` and `EvalPolyAtZero` |
| Polynomial.HornerIsMonomialSum | shamir.py:11-25 | for every coefficient list with `a[0]` the leading coefficient, the loop's result equals the sum of `a[i] * x^(len(a)-1-i)` |
| Polynomial.EvalPolySingleton | shamir.py:21-25 | a one-coefficient list is returned untouched, since the loop runs zero times |
| Polynomial.EvalPolyAtZero | shamir.py:11-25 | at `x = 0` the result is `a[-1]`, the constant term |
| Polynomial.SyntheticDivision | shamir.py:21-25 | factor theorem for the Horner value: `a(x) = a(r) + (x - r) * q(x)`, where `q` is built from the loop's intermediate values at `r` |
| Shamir.SharesUpTo | shamir.py:40-42 | after `i` rounds, the dict has keys exactly `1..i`, inserted in that order, and each key maps to the polynomial's value at that key |
| Shamir.GenerateShares | shamir.py:27-43 | `k < 0` fails in the array allocation; `k == 0` fails when storing the secret at index `k-1`; for `k >= 1` the keys are exactly `1..n` in order, `0` is never a key, each value is the polynomial `coeffs + [secret]` evaluated at its key, and with `k == 1` every share equals the secret |
| Shamir.Step | shamir.py:58 | no contract: one inner-loop update, `Divide(Multiply(v, x_j), Subtract(x_i, x_j))`; its meaning is stated by `StepIsFactor` and `NoDivisionByZero` |
| Shamir.Weigh | shamir.py:54-58 | no contract: the inner loop as a fold over positions `0..j-1` that skips `i`; its meaning is stated by `WeighIsBasis` |
| Shamir.SumValues | shamir.py:60-62 | no contract: the closing loop, starting from the first value and adding the rest in key order; its meaning is stated by `SumIsLagrangeSum` |
| Shamir.Overwrite | shamir.py:53-58 | the nested loop keeps the key order and the key set; after outer round `i`, every earlier key holds its original value weighted against all other keys, and every later value is unchanged |
| Shamir.CalcSecret | shamir.py:45-64 | fails with an index error exactly when the dict is empty; a one-entry dict yields its value |
| Reconstruction.NoDivisionByZero | shamir.py:58 | for distinct keys in `[0, 2^p)`, no `Divide` call at line 58 gets a zero divisor |
| Reconstruction.WeighIsBasis | shamir.py:54-58 | the inner loop multiplies the value of key `x_i` by the product of `x_j / (x_i - x_j)` over the other keys passed so far |
| Reconstruction.StepIsFactor | shamir.py:58 | for distinct keys in the field, one update multiplies the running value by `x_j / (x_i - x_j)` |
| Reconstruction.WeighedTerm | shamir.py:53-58 | after the nested loop, the value of each key is its original value times the product of `x_j / (x_i - x_j)` over all other keys |
| Reconstruction.SumIsLagrangeSum | shamir.py:60-62 | the closing loop adds the weighted terms in key order, giving the Lagrange sum of its first `n` terms |
| Reconstruction.CalcSecretIsLagrangeSum | shamir.py:45-64 | for a nonempty dict with keys in the field, the result is the sum over keys `x_i` of `D[x_i] * prod_{j != i} x_j / (x_i - x_j)` |
| Lagrange.PartitionOfUnity | shamir.py:53-62 | over one or more distinct points, the Lagrange weights at zero add up to one |
| Lagrange.LagrangeExact | shamir.py:53-62 | over distinct points, interpolating the values of any polynomial with no more coefficients than points gives its constant term |
| Reconstruction.CalcSecretRecoversConstantTerm | shamir.py:45-64 | when every value is one polynomial's value at its key, and the polynomial has at most as many coefficients as there are keys, the result is that polynomial's constant term |
| Reconstruction.RoundTrip | shamir.py:75-85 | when `n < 2^p`, any sub-dictionary with at least `k` entries of `generateShares(secret, n, k)`, inserted in any order, reconstructs `secret` |

## Left out

- pyfinite's `FField` is not part of this model. This covers the choice of
  generator polynomial, the bit-level `Multiply`/`Divide`/`Inverse`, and the
  constructor's checks. The field laws the proofs need are a stated
  hypothesis (`IsField`) rather than derived from bit operations.
- `GetRandomElement` is not modelled as randomness. The `k-1` drawn
  coefficients are the `coeffs` argument of `GenerateShares`.
- Randomness quality and secrecy are not modelled. That covers the claim
  that fewer than `k` shares reveal nothing.
- The numpy integer array at line 34 is modelled as a sequence of field
  elements. Its machine-integer width and truncation are not modelled.
- `generateShares` does not check that the secret lies in `[0, 2^p)`. In
  the model, a secret is already a field element.
- The code does not check `k <= n`. `GenerateShares` likewise accepts any
  `n`; with `n < k` there are too few shares to reconstruct.
- Keys outside `[0, 2^p)`, negative ones included, are not field elements.
  Keys are integers, and what pyfinite does with such a key is not
  modelled. `elem` maps it to some element, with no law. `RoundTrip`
  requires `n < 2^p` for that reason, and `NoDivisionByZero` requires keys
  in `[0, 2^p)`.
- pyfinite's failure on division by zero is not modelled. `Divide` is total
  in the model. `NoDivisionByZero` shows that line 58 never divides by zero
  when the keys are distinct field elements. Python dict keys are always
  distinct, so the duplicate-index failure cannot arise from a dict.
- EvalPoly: requires a nonempty coefficient list. On an empty list,
  `_evalPoly` raises an index error at line 21, but `generateShares` never
  calls it that way: for `k >= 1` the list has `k` entries.
- EvalPoly: the number of multiply/add rounds (`len(a) - 1`) is not stated
  as a separate contract. It is the recursion depth of the definition.
- CalcSecret: the in-place mutation of the caller's dict is modelled as
  `Overwrite`, a function returning the mutated dict. Aliasing with other
  references to the same dict is not modelled.
- The `__main__` demo (lines 67-93) is not modelled. Choosing random
  indices and printing are out of scope. Its success check is what
  `RoundTrip` proves.
- The docstring of `_evalPoly` (lines 16-18) gives an example that does not
  match the loop at lines 21-25. It also describes the evaluation order
  differently. The model follows the code.
- The code raises no dedicated errors of its own; the model has only the
  failures the code actually raises:
  - An invalid threshold is not rejected; only `k <= 0` fails, through
    numpy and indexing.
  - A secret out of range is not rejected.
  - Key `0` is accepted by `calcSecret`.
  - An empty share dict raises an index error, not a dedicated
    insufficient-shares error.
