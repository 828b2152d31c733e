/**
 * Shamir k-of-n threshold secret sharing over GF(2^p): the three operations of
 * the `Shamir` class, written as pure functions over an abstract field.
 *
 * - `EvalPoly` is `_evalPoly`: Horner evaluation, highest coefficient first.
 * - `GenerateShares` is `generateShares`: the random coefficients are an
 *   input sequence, the secret is appended as the constant term, and the
 *   polynomial is evaluated at 1, 2, ..., n.
 * - `CalcSecret` is `calcSecret`: Lagrange interpolation at zero.
 *   `calcSecret` overwrites every value of its argument with that share's
 *   weighted term before adding them up; `Overwrite` is that
 *   dictionary-to-dictionary step.
 */
module Shamir {
  import opened GaloisField

  /** The host runtime's failures that these operations can raise. */
  datatype Error =
    | NegativeDimension  // an array of negative length was requested
    | IndexOutOfRange    // an empty array or an empty key list was indexed

  datatype Result<T> = Ok(value: T) | Err(error: Error)

  /** No element occurs twice. */
  predicate Distinct<T(==)>(s: seq<T>)
  {
    forall i, j :: 0 <= i < j < |s| ==> s[i] != s[j]
  }

  /** An insertion-ordered dictionary: `order` lists the keys in the order
      they were first inserted, `entries` maps each key to its value. */
  datatype Dict<K(==), V> = Dict(order: seq<K>, entries: map<K, V>)
  {
    predicate Valid()
    {
      && Distinct(order)
      && entries.Keys == set k | k in order
    }
  }

  function EmptyDict<K(==), V>(): (d: Dict<K, V>)
    ensures d.Valid() && |d.order| == 0
  {
    Dict([], map[])
  }

  /** `d[k] = v`: a new key goes to the end of the order, an existing key
      keeps its place; the mapping is updated either way. */
  function Put<K(==), V>(d: Dict<K, V>, k: K, v: V): (d': Dict<K, V>)
    requires d.Valid()
    ensures d'.Valid()
    ensures d'.entries == d.entries[k := v]
    ensures k in d.entries ==> d'.order == d.order
    ensures k !in d.entries ==> d'.order == d.order + [k]
  {
    if k in d.entries then Dict(d.order, d.entries[k := v])
    else Dict(d.order + [k], d.entries[k := v])
  }

  /** `_evalPoly(a, x)`: `y` starts at `a[0]`; each later coefficient is
      folded in by multiplying by `x` and adding it. The recursion peels the
      last coefficient, so `EvalPoly(fld, a[..i+1], x)` is `y` after the loop
      round for index `i`. */
  function EvalPoly<F>(fld: Field<F>, a: seq<F>, x: F): F
    requires |a| >= 1
  {
    if |a| == 1 then a[0]
    else fld.add(fld.mul(EvalPoly(fld, a[..|a| - 1], x), x), a[|a| - 1])
  }

  /** The share dictionary after the first `i` rounds of the evaluation loop
      of `generateShares`: keys 1..i in that order, each mapped to the
      polynomial's value at that point. */
  function SharesUpTo<F>(fld: Field<F>, a: seq<F>, i: int): (d: Dict<int, F>)
    requires |a| >= 1
    ensures d.Valid()
    ensures |d.order| == if i <= 0 then 0 else i
    ensures forall t :: 0 <= t < |d.order| ==> d.order[t] == t + 1
    ensures forall x :: x in d.entries <==> 1 <= x <= i
    ensures forall x :: x in d.entries ==> d.entries[x] == EvalPoly(fld, a, fld.elem(x))
    decreases i
  {
    if i <= 0 then EmptyDict()
    else
      var prev := SharesUpTo(fld, a, i - 1);
      assert i !in prev.entries;
      Put(prev, i, EvalPoly(fld, a, fld.elem(i)))
  }

  /** `generateShares(secret, n, k)` with the k-1 random draws supplied as
      `coeffs` (highest degree first). A negative `k` is rejected by the array
      allocation; `k == 0` fails when the secret is stored at index `k-1`.
      Otherwise the result maps exactly the keys 1..n, in that order, to the
      values of the polynomial `coeffs + [secret]`; with `k == 1` every share
      is the secret itself. */
  function GenerateShares<F>(fld: Field<F>, secret: F, n: int, k: int, coeffs: seq<F>)
    : (r: Result<Dict<int, F>>)
    requires |coeffs| == if k >= 1 then k - 1 else 0
    ensures k < 0 ==> r == Err(NegativeDimension)
    ensures k == 0 ==> r == Err(IndexOutOfRange)
    ensures k >= 1 ==> r.Ok?
    ensures r.Ok? ==> r.value.Valid()
    ensures r.Ok? ==> forall x :: x in r.value.entries <==> 1 <= x <= n
    ensures r.Ok? ==> 0 !in r.value.entries
    ensures r.Ok? ==> |r.value.order| == (if n <= 0 then 0 else n)
                      && forall t :: 0 <= t < |r.value.order| ==> r.value.order[t] == t + 1
    ensures r.Ok? ==> forall x :: x in r.value.entries ==>
                        r.value.entries[x] == EvalPoly(fld, coeffs + [secret], fld.elem(x))
    ensures r.Ok? && k == 1 ==> forall x :: x in r.value.entries ==> r.value.entries[x] == secret
  {
    if k < 0 then Err(NegativeDimension)
    else if k == 0 then Err(IndexOutOfRange)
    else Ok(SharesUpTo(fld, coeffs + [secret], n))
  }

  /** The integer keys as the field elements the arithmetic sees. */
  function Points<F>(fld: Field<F>, keys: seq<int>): (xs: seq<F>)
    ensures |xs| == |keys|
    ensures forall t :: 0 <= t < |keys| ==> xs[t] == fld.elem(keys[t])
  {
    seq(|keys|, t requires 0 <= t < |keys| => fld.elem(keys[t]))
  }

  /** One update of the inner loop: multiply the running value of key `ki` by
      key `kj`, then divide by `Subtract(ki, kj)`. */
  function Step<F>(fld: Field<F>, v: F, ki: int, kj: int): F
  {
    fld.div(fld.mul(v, fld.elem(kj)), fld.sub(fld.elem(ki), fld.elem(kj)))
  }

  /** The value stored under `keys[i]` after inner-loop rounds 0..j-1 when it
      started as `v`: round `i` itself is skipped. */
  function Weigh<F>(fld: Field<F>, v: F, keys: seq<int>, i: nat, j: nat): F
    requires i < |keys| && j <= |keys|
  {
    if j == 0 then v
    else
      var w := Weigh(fld, v, keys, i, j - 1);
      if j - 1 == i then w else Step(fld, w, keys[i], keys[j - 1])
  }

  /** The argument of `calcSecret` after outer-loop rounds 0..i-1. Only the
      value of the key of round `i` changes in that round, so afterwards the
      key order and key set are those of `d`, every value of an earlier round
      is its original value weighted by all other keys, and every later value
      is untouched. */
  function Overwrite<F>(fld: Field<F>, d: Dict<int, F>, i: nat): (e: Dict<int, F>)
    requires d.Valid() && i <= |d.order|
    ensures e.Valid()
    ensures e.order == d.order && e.entries.Keys == d.entries.Keys
    ensures forall t :: 0 <= t < i ==>
              e.entries[d.order[t]] == Weigh(fld, d.entries[d.order[t]], d.order, t, |d.order|)
    ensures forall t :: i <= t < |d.order| ==> e.entries[d.order[t]] == d.entries[d.order[t]]
  {
    if i == 0 then d
    else
      var prev := Overwrite(fld, d, i - 1);
      var key := d.order[i - 1];
      Dict(prev.order, prev.entries[key := Weigh(fld, prev.entries[key], d.order, i - 1, |d.order|)])
  }

  /** The closing loop of `calcSecret`: the first value, then every later value
      added in key order. */
  function SumValues<F>(fld: Field<F>, d: Dict<int, F>, n: nat): F
    requires d.Valid() && 1 <= n <= |d.order|
  {
    if n == 1 then d.entries[d.order[0]]
    else fld.add(SumValues(fld, d, n - 1), d.entries[d.order[n - 1]])
  }

  /** `calcSecret(D)`: weigh every share in place, then add the weighted
      values. An empty dictionary fails when its first key is looked up; a
      one-share dictionary yields that share's value unchanged. */
  function CalcSecret<F>(fld: Field<F>, d: Dict<int, F>): (r: Result<F>)
    requires d.Valid()
    ensures r.Err? <==> |d.order| == 0
    ensures r.Err? ==> r.error == IndexOutOfRange
    ensures |d.order| == 1 ==> r == Ok(d.entries[d.order[0]])
  {
    var e := Overwrite(fld, d, |d.order|);
    if |d.order| == 0 then Err(IndexOutOfRange)
    else
      assert |d.order| == 1 ==> Weigh(fld, d.entries[d.order[0]], d.order, 0, 1) == d.entries[d.order[0]];
      Ok(SumValues(fld, e, |d.order|))
  }
}
