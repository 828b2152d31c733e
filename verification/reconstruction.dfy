/**
 * What `calcSecret` returns, and the round trip: any k or more shares of a
 * `generateShares` call give back the secret.
 */
module Reconstruction {
  import opened GaloisField
  import opened Shamir
  import opened Polynomial
  import opened Lagrange

  /** Every key names an element of the field, i.e. lies in [0, 2^p). */
  predicate KeysInField<F>(fld: Field<F>, keys: seq<int>)
  {
    forall t :: 0 <= t < |keys| ==> 0 <= keys[t] < Order(fld)
  }

  /** The values of a dictionary, in key order. */
  function ValuesInOrder<K(==), V>(d: Dict<K, V>): (vs: seq<V>)
    requires d.Valid()
    ensures |vs| == |d.order|
    ensures forall t :: 0 <= t < |d.order| ==> vs[t] == d.entries[d.order[t]]
  {
    seq(|d.order|, t requires 0 <= t < |d.order| => d.entries[d.order[t]])
  }

  /** Distinct integer keys in [0, 2^p) are distinct field elements. */
  lemma PointsDistinct<F(!new)>(fld: Field<F>, keys: seq<int>)
    requires IsField(fld)
    requires Distinct(keys) && KeysInField(fld, keys)
    ensures Distinct(Points(fld, keys))
  {
    var xs := Points(fld, keys);
    forall i, j | 0 <= i < j < |xs|
      ensures xs[i] != xs[j]
    {
      ElemInjective(fld, keys[i], keys[j]);
    }
  }

  /** Every divisor `Subtract(idxs[i], idxs[j])` that `calcSecret` passes to
      `Divide` is nonzero, so the field's division-by-zero failure cannot
      occur when the keys are field elements. */
  lemma NoDivisionByZero<F(!new)>(fld: Field<F>, d: Dict<int, F>, i: nat, j: nat)
    requires IsField(fld)
    requires d.Valid() && KeysInField(fld, d.order)
    requires i < |d.order| && j < |d.order| && i != j
    ensures fld.sub(fld.elem(d.order[i]), fld.elem(d.order[j])) != fld.zero
  {
    ElemInjective(fld, d.order[i], d.order[j]);
    SubZeroIff(fld, fld.elem(d.order[i]), fld.elem(d.order[j]));
  }

  /** The points of positions 0..j-1 other than `i`, in order. */
  function Others<T>(s: seq<T>, i: nat, j: nat): seq<T>
    requires i < |s| && j <= |s|
  {
    if j <= i then s[..j] else s[..i] + s[i + 1..j]
  }

  /** Extending the range by one position adds that point, unless it is `i`. */
  lemma OthersStep<T>(s: seq<T>, i: nat, j: nat)
    requires i < |s| && 1 <= j <= |s|
    ensures j - 1 == i ==> Others(s, i, j) == Others(s, i, j - 1)
    ensures j - 1 != i ==> Others(s, i, j) == Others(s, i, j - 1) + [s[j - 1]]
  {
    if j - 1 > i {
      assert s[i + 1..j] == s[i + 1..j - 1] + [s[j - 1]];
    }
  }

  /** One inner-loop round against a different key multiplies the running
      weight by that key's factor. */
  lemma StepIsFactor<F(!new)>(fld: Field<F>, keys: seq<int>, v: F, b: F, i: nat, j: nat)
    requires IsField(fld)
    requires KeysInField(fld, keys)
    requires i < |keys| && j < |keys| && keys[i] != keys[j]
    ensures Step(fld, fld.mul(v, b), keys[i], keys[j])
         == fld.mul(v, fld.mul(b, fld.div(fld.elem(keys[j]), fld.sub(fld.elem(keys[i]), fld.elem(keys[j])))))
  {
    var xi := fld.elem(keys[i]);
    var xj := fld.elem(keys[j]);
    var dd := fld.sub(xi, xj);
    ElemInjective(fld, keys[i], keys[j]);
    SubZeroIff(fld, xi, xj);
    MulDivAssoc(fld, fld.mul(v, b), xj, dd);
    MulAssoc(fld, v, b, fld.div(xj, dd));
  }

  /** The inner loop of `calcSecret` multiplies the value by the Lagrange
      weight of the other keys it has passed so far. */
  lemma {:induction false} WeighIsBasis<F(!new)>(fld: Field<F>, keys: seq<int>, v: F, i: nat, j: nat)
    requires IsField(fld)
    requires Distinct(keys) && KeysInField(fld, keys)
    requires i < |keys| && j <= |keys|
    ensures Weigh(fld, v, keys, i, j)
         == fld.mul(v, Basis(fld, fld.elem(keys[i]), Others(Points(fld, keys), i, j)))
  {
    if j > 0 {
      var xs := Points(fld, keys);
      var xi := fld.elem(keys[i]);
      WeighIsBasis(fld, keys, v, i, j - 1);
      OthersStep(xs, i, j);
      if j - 1 != i {
        var prev := Others(xs, i, j - 1);
        assert (prev + [xs[j - 1]])[..|prev|] == prev;
        assert keys[i] != keys[j - 1];
        StepIsFactor(fld, keys, v, Basis(fld, xi, prev), i, j - 1);
      }
    }
  }

  /** After the nested loop, the value of the key at position `t` is its
      Lagrange term: the original value times the weight of that key against
      all the others. */
  lemma WeighedTerm<F(!new)>(fld: Field<F>, d: Dict<int, F>, t: nat)
    requires IsField(fld)
    requires d.Valid() && KeysInField(fld, d.order)
    requires t < |d.order|
    ensures Overwrite(fld, d, |d.order|).entries[d.order[t]]
         == fld.mul(ValuesInOrder(d)[t], Basis(fld, Points(fld, d.order)[t], Remove(Points(fld, d.order), t)))
  {
    var m := |d.order|;
    var xs := Points(fld, d.order);
    WeighIsBasis(fld, d.order, d.entries[d.order[t]], t, m);
    assert Others(xs, t, m) == Remove(xs, t);
  }

  /** The closing loop of `calcSecret` adds up the Lagrange terms. */
  lemma {:induction false} SumIsLagrangeSum<F(!new)>(fld: Field<F>, d: Dict<int, F>, n: nat)
    requires IsField(fld)
    requires d.Valid() && KeysInField(fld, d.order)
    requires 1 <= n <= |d.order|
    ensures SumValues(fld, Overwrite(fld, d, |d.order|), n)
         == LagrangeSum(fld, Points(fld, d.order), ValuesInOrder(d), n)
  {
    WeighedTerm(fld, d, n - 1);
    if n > 1 {
      SumIsLagrangeSum(fld, d, n - 1);
    }
  }

  /** `calcSecret` computes the Lagrange interpolation of its shares at zero:
      the sum over keys x_i of D[x_i] times the product over the other keys
      x_j of x_j / (x_i - x_j). */
  lemma CalcSecretIsLagrangeSum<F(!new)>(fld: Field<F>, d: Dict<int, F>)
    requires IsField(fld)
    requires d.Valid() && KeysInField(fld, d.order) && |d.order| >= 1
    ensures CalcSecret(fld, d) == Ok(LagrangeSum(fld, Points(fld, d.order), ValuesInOrder(d), |d.order|))
  {
    SumIsLagrangeSum(fld, d, |d.order|);
  }

  /** Shares of any polynomial with at most as many coefficients as there
      are shares reconstruct its constant term. */
  lemma CalcSecretRecoversConstantTerm<F(!new)>(fld: Field<F>, d: Dict<int, F>, a: seq<F>)
    requires IsField(fld)
    requires d.Valid() && KeysInField(fld, d.order)
    requires 1 <= |a| <= |d.order|
    requires forall x :: x in d.entries ==> d.entries[x] == EvalPoly(fld, a, fld.elem(x))
    ensures CalcSecret(fld, d) == Ok(a[|a| - 1])
  {
    var xs := Points(fld, d.order);
    CalcSecretIsLagrangeSum(fld, d);
    assert Distinct(d.order);
    PointsDistinct(fld, d.order);
    forall t | 0 <= t < |d.order|
      ensures ValuesInOrder(d)[t] == Values(fld, a, xs)[t]
    {
      assert d.order[t] in d.entries;
    }
    assert ValuesInOrder(d) == Values(fld, a, xs);
    LagrangeExact(fld, xs, a);
  }

  /** The round trip: when the indices 1..n are field elements, any `k` or
      more of the shares from `generateShares(secret, n, k)`, gathered in any
      order, reconstruct the secret. */
  lemma RoundTrip<F(!new)>(fld: Field<F>, secret: F, n: int, k: int, coeffs: seq<F>, d: Dict<int, F>)
    requires IsField(fld)
    requires |coeffs| == if k >= 1 then k - 1 else 0
    requires n < Order(fld)
    requires GenerateShares(fld, secret, n, k, coeffs).Ok?
    requires d.Valid() && |d.order| >= k
    requires forall x :: x in d.entries ==>
               x in GenerateShares(fld, secret, n, k, coeffs).value.entries
               && d.entries[x] == GenerateShares(fld, secret, n, k, coeffs).value.entries[x]
    ensures CalcSecret(fld, d) == Ok(secret)
  {
    var a := coeffs + [secret];
    assert forall t :: 0 <= t < |d.order| ==> d.order[t] in d.entries;
    assert KeysInField(fld, d.order);
    CalcSecretRecoversConstantTerm(fld, d, a);
  }
}
