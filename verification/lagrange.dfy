/**
 * Why `calcSecret` works: the weighted sum it computes is Lagrange
 * interpolation at zero, which returns the constant term of any polynomial
 * with at most as many coefficients as there are (distinct) points.
 *
 * The proof is by induction on the number of points. Splitting off the last
 * point r with the factor theorem, a(x) = a(r) + (x - r) q(x), reduces the
 * sum for `a` to a(r) times the sum of the weights plus r times the sum for
 * `q` on the other points. That the weights add up to one follows from doing
 * the same for the identity polynomial, once splitting off the last point and
 * once the one before it: the two results can only agree if the weights sum
 * to one, because the two points differ.
 */
module Lagrange {
  import opened GaloisField
  import opened Shamir
  import opened Polynomial

  /** `s` without its element at position `i`. */
  function Remove<T>(s: seq<T>, i: nat): (r: seq<T>)
    requires i < |s|
    ensures |r| == |s| - 1
  {
    s[..i] + s[i + 1..]
  }

  /** The last two elements exchanged. */
  function SwapLast<T>(s: seq<T>): (r: seq<T>)
    requires |s| >= 2
    ensures |r| == |s|
  {
    s[..|s| - 2] + [s[|s| - 1], s[|s| - 2]]
  }

  /** The Lagrange weight of point `xi` at zero against the points `os`: the
      product of o / (xi - o) over `os`, taken left to right. */
  function Basis<F>(fld: Field<F>, xi: F, os: seq<F>): F
  {
    if |os| == 0 then fld.one
    else fld.mul(Basis(fld, xi, os[..|os| - 1]), fld.div(os[|os| - 1], fld.sub(xi, os[|os| - 1])))
  }

  /** The first `n` terms ys[t] * Basis(xs[t], all other points), added up. */
  function LagrangeSum<F>(fld: Field<F>, xs: seq<F>, ys: seq<F>, n: nat): F
    requires |ys| == |xs| && n <= |xs|
  {
    if n == 0 then fld.zero
    else fld.add(LagrangeSum(fld, xs, ys, n - 1),
                 fld.mul(ys[n - 1], Basis(fld, xs[n - 1], Remove(xs, n - 1))))
  }

  /** The polynomial `a` sampled at every point of `xs`. */
  function Values<F>(fld: Field<F>, a: seq<F>, xs: seq<F>): (ys: seq<F>)
    requires |a| >= 1
    ensures |ys| == |xs|
    ensures forall t :: 0 <= t < |xs| ==> ys[t] == EvalPoly(fld, a, xs[t])
  {
    seq(|xs|, t requires 0 <= t < |xs| => EvalPoly(fld, a, xs[t]))
  }

  /** For nonzero d: (d * u) * (B * (v / d)) == v * (u * B). */
  lemma CancelDifference<F(!new)>(fld: Field<F>, d: F, u: F, b: F, v: F)
    requires IsField(fld)
    requires d != fld.zero
    ensures fld.mul(fld.mul(d, u), fld.mul(b, fld.div(v, d))) == fld.mul(v, fld.mul(u, b))
  {
    var f := fld.div(v, d);
    calc {
      fld.mul(fld.mul(d, u), fld.mul(b, f));
      fld.mul(fld.mul(d, u), fld.mul(f, b));
      { MulAssoc(fld, fld.mul(d, u), f, b); }
      fld.mul(fld.mul(fld.mul(d, u), f), b);
      { CancelFactor(fld, d, u, v); }
      fld.mul(fld.mul(u, v), b);
      fld.mul(fld.mul(v, u), b);
      { MulAssoc(fld, v, u, b); }
      fld.mul(v, fld.mul(u, b));
    }
  }

  /** A constant polynomial c contributes c times the sum of the weights. */
  lemma {:induction false} LagrangeSumOfConstant<F(!new)>(fld: Field<F>, xs: seq<F>, c: F, n: nat)
    requires IsField(fld)
    requires n <= |xs|
    ensures LagrangeSum(fld, xs, Values(fld, [c], xs), n)
         == fld.mul(c, LagrangeSum(fld, xs, Values(fld, [fld.one], xs), n))
  {
    if n == 0 {
      MulZero(fld, c);
    } else {
      LagrangeSumOfConstant(fld, xs, c, n - 1);
      var b := Basis(fld, xs[n - 1], Remove(xs, n - 1));
      Distrib(fld, c, LagrangeSum(fld, xs, Values(fld, [fld.one], xs), n - 1), fld.mul(fld.one, b));
    }
  }

  function Last<T>(s: seq<T>): T
    requires |s| >= 1
  {
    s[|s| - 1]
  }

  function Front<T>(s: seq<T>): (r: seq<T>)
    requires |s| >= 1
    ensures |r| == |s| - 1
  {
    s[..|s| - 1]
  }

  /** One term t < |xs| - 1 of the split at r = Last(xs): the term for `a` is
      a(r) times the term for the constant one plus r times the term for
      Quot(a, r) over the other points. */
  lemma SplitLastTerm<F(!new)>(fld: Field<F>, xs: seq<F>, a: seq<F>, t: nat)
    requires IsField(fld)
    requires Distinct(xs) && |xs| >= 2 && |a| >= 2 && t < |xs| - 1
    ensures fld.mul(Values(fld, a, xs)[t], Basis(fld, xs[t], Remove(xs, t)))
         == fld.add(fld.mul(EvalPoly(fld, a, Last(xs)),
                            fld.mul(Values(fld, [fld.one], xs)[t], Basis(fld, xs[t], Remove(xs, t)))),
                    fld.mul(Last(xs),
                            fld.mul(Values(fld, Quot(fld, a, Last(xs)), Front(xs))[t],
                                    Basis(fld, Front(xs)[t], Remove(Front(xs), t)))))
  {
    var r := Last(xs);
    var front := Front(xs);
    var q := Quot(fld, a, r);
    var ar := EvalPoly(fld, a, r);
    var xt := xs[t];
    var d := fld.sub(xt, r);
    SubZeroIff(fld, xt, r);
    var rest := Remove(front, t);
    assert Remove(xs, t) == rest + [r];
    assert (rest + [r])[..|rest|] == rest;
    var b' := Basis(fld, xt, rest);
    var f := fld.div(r, d);
    assert Basis(fld, xt, Remove(xs, t)) == fld.mul(b', f);
    SyntheticDivision(fld, a, r, xt);
    var qt := EvalPoly(fld, q, xt);
    calc {
      fld.mul(Values(fld, a, xs)[t], fld.mul(b', f));
      fld.mul(fld.add(ar, fld.mul(d, qt)), fld.mul(b', f));
      { Distrib(fld, fld.mul(b', f), ar, fld.mul(d, qt)); }
      fld.add(fld.mul(ar, fld.mul(b', f)), fld.mul(fld.mul(d, qt), fld.mul(b', f)));
      { CancelDifference(fld, d, qt, b', r); }
      fld.add(fld.mul(ar, fld.mul(b', f)), fld.mul(r, fld.mul(qt, b')));
    }
  }

  /** The first `n < |xs|` terms, split at the last point r = Last(xs):
      sum(a) == a(r) * sum(1) + r * (sum over the other points of Quot(a, r)). */
  lemma {:induction false} SplitLastPrefix<F(!new)>(fld: Field<F>, xs: seq<F>, a: seq<F>, n: nat)
    requires IsField(fld)
    requires Distinct(xs) && |xs| >= 2 && |a| >= 2 && n <= |xs| - 1
    ensures LagrangeSum(fld, xs, Values(fld, a, xs), n)
         == fld.add(fld.mul(EvalPoly(fld, a, Last(xs)), LagrangeSum(fld, xs, Values(fld, [fld.one], xs), n)),
                    fld.mul(Last(xs), LagrangeSum(fld, Front(xs), Values(fld, Quot(fld, a, Last(xs)), Front(xs)), n)))
  {
    var r := Last(xs);
    var front := Front(xs);
    var ar := EvalPoly(fld, a, r);
    var y1 := Values(fld, [fld.one], xs);
    var yq := Values(fld, Quot(fld, a, r), front);
    if n == 0 {
      MulZero(fld, ar);
      MulZero(fld, r);
    } else {
      var t := n - 1;
      SplitLastPrefix(fld, xs, a, t);
      SplitLastTerm(fld, xs, a, t);
      var s1 := fld.mul(y1[t], Basis(fld, xs[t], Remove(xs, t)));
      var q1 := fld.mul(yq[t], Basis(fld, front[t], Remove(front, t)));
      var sPrev := LagrangeSum(fld, xs, y1, t);
      var qPrev := LagrangeSum(fld, front, yq, t);
      AddInterchange(fld, fld.mul(ar, sPrev), fld.mul(r, qPrev), fld.mul(ar, s1), fld.mul(r, q1));
      Distrib(fld, ar, sPrev, s1);
      Distrib(fld, r, qPrev, q1);
    }
  }

  /** The whole sum, split at the last point r:
      sum(a) == a(r) * sum(1) + r * (sum over the other points of Quot(a, r)). */
  lemma SplitLast<F(!new)>(fld: Field<F>, xs: seq<F>, a: seq<F>)
    requires IsField(fld)
    requires Distinct(xs) && |xs| >= 2 && |a| >= 2
    ensures LagrangeSum(fld, xs, Values(fld, a, xs), |xs|)
         == fld.add(fld.mul(EvalPoly(fld, a, Last(xs)), LagrangeSum(fld, xs, Values(fld, [fld.one], xs), |xs|)),
                    fld.mul(Last(xs), LagrangeSum(fld, Front(xs), Values(fld, Quot(fld, a, Last(xs)), Front(xs)), |xs| - 1)))
  {
    var m := |xs|;
    var r := Last(xs);
    var front := Front(xs);
    var ar := EvalPoly(fld, a, r);
    var ya := Values(fld, a, xs);
    var y1 := Values(fld, [fld.one], xs);
    SplitLastPrefix(fld, xs, a, m - 1);
    assert Remove(xs, m - 1) == front;
    var br := Basis(fld, r, front);
    var sPrev := LagrangeSum(fld, xs, y1, m - 1);
    var qAll := LagrangeSum(fld, front, Values(fld, Quot(fld, a, r), front), m - 1);
    assert ya[m - 1] == ar;
    assert y1[m - 1] == fld.one;
    assert LagrangeSum(fld, xs, ya, m) == fld.add(LagrangeSum(fld, xs, ya, m - 1), fld.mul(ar, br));
    assert LagrangeSum(fld, xs, y1, m) == fld.add(sPrev, fld.mul(fld.one, br));
    assert LagrangeSum(fld, xs, ya, m - 1) == fld.add(fld.mul(ar, sPrev), fld.mul(r, qAll));
    AddSwapLast(fld, fld.mul(ar, sPrev), fld.mul(r, qAll), fld.mul(ar, br));
    Distrib(fld, ar, sPrev, br);
  }

  /** Exchanging the last two points does not change the prefix sums before
      them: their weights take the same two factors in the other order. */
  lemma {:induction false} SwapLastPrefix<F(!new)>(fld: Field<F>, xs: seq<F>, ys: seq<F>, n: nat)
    requires IsField(fld)
    requires |xs| == |ys| && |xs| >= 2 && n <= |xs| - 2
    ensures LagrangeSum(fld, xs, ys, n) == LagrangeSum(fld, SwapLast(xs), SwapLast(ys), n)
  {
    if n > 0 {
      SwapLastPrefix(fld, xs, ys, n - 1);
      var m := |xs|;
      var t := n - 1;
      var s := xs[m - 2];
      var r := xs[m - 1];
      var xt := xs[t];
      var rest := Remove(xs[..m - 2], t);
      assert Remove(xs, t) == rest + [s, r];
      assert Remove(SwapLast(xs), t) == rest + [r, s];
      assert (rest + [s, r])[..|rest| + 1] == rest + [s];
      assert (rest + [r, s])[..|rest| + 1] == rest + [r];
      assert (rest + [s])[..|rest|] == rest;
      assert (rest + [r])[..|rest|] == rest;
      var b := Basis(fld, xt, rest);
      var fs := fld.div(s, fld.sub(xt, s));
      var fr := fld.div(r, fld.sub(xt, r));
      assert Basis(fld, xt, rest + [s, r]) == fld.mul(fld.mul(b, fs), fr);
      assert Basis(fld, xt, rest + [r, s]) == fld.mul(fld.mul(b, fr), fs);
      MulSwapLast(fld, b, fs, fr);
    }
  }

  /** Exchanging the last two points (and their values) leaves the sum alone. */
  lemma SwapLastInvariant<F(!new)>(fld: Field<F>, xs: seq<F>, ys: seq<F>)
    requires IsField(fld)
    requires |xs| == |ys| && |xs| >= 2
    ensures LagrangeSum(fld, xs, ys, |xs|) == LagrangeSum(fld, SwapLast(xs), SwapLast(ys), |xs|)
  {
    var m := |xs|;
    var xs' := SwapLast(xs);
    var ys' := SwapLast(ys);
    SwapLastPrefix(fld, xs, ys, m - 2);
    assert Remove(xs, m - 2) == Remove(xs', m - 1);
    assert Remove(xs, m - 1) == Remove(xs', m - 2);
    var l := LagrangeSum(fld, xs, ys, m - 2);
    var ts := fld.mul(ys[m - 2], Basis(fld, xs[m - 2], Remove(xs, m - 2)));
    var tr := fld.mul(ys[m - 1], Basis(fld, xs[m - 1], Remove(xs, m - 1)));
    AddSwapLast(fld, l, ts, tr);
  }

  /** The weights of distinct points add up to one. */
  lemma {:induction false} PartitionOfUnity<F(!new)>(fld: Field<F>, xs: seq<F>)
    requires IsField(fld)
    requires Distinct(xs) && |xs| >= 1
    ensures LagrangeSum(fld, xs, Values(fld, [fld.one], xs), |xs|) == fld.one
    decreases |xs|, 0
  {
    var m := |xs|;
    if m == 1 {
      // A single point has the empty product as its weight.
      assert Remove(xs, 0) == [];
      return;
    }
    var r := xs[m - 1];
    var s := xs[m - 2];
    var sw := SwapLast(xs);
    var id := [fld.one, fld.zero];
    assert id[..1] == [fld.one];
    assert forall x :: EvalPoly(fld, id, x) == x;
    assert Quot(fld, id, r) == [fld.one];
    assert Quot(fld, id, s) == [fld.one];
    var sum1 := LagrangeSum(fld, xs, Values(fld, [fld.one], xs), m);
    var sumId := LagrangeSum(fld, xs, Values(fld, id, xs), m);

    // Splitting at r.
    SplitLast(fld, xs, id);
    LagrangeExact(fld, xs[..m - 1], [fld.one]);
    assert sumId == fld.add(fld.mul(r, sum1), fld.mul(r, fld.one));

    // Splitting at s, after moving it to the end.
    assert Distinct(sw);
    assert sw[m - 1] == s;
    assert SwapLast(Values(fld, id, xs)) == Values(fld, id, sw);
    assert SwapLast(Values(fld, [fld.one], xs)) == Values(fld, [fld.one], sw);
    SwapLastInvariant(fld, xs, Values(fld, id, xs));
    SwapLastInvariant(fld, xs, Values(fld, [fld.one], xs));
    SplitLast(fld, sw, id);
    assert Distinct(sw[..m - 1]);
    LagrangeExact(fld, sw[..m - 1], [fld.one]);
    assert sumId == fld.add(fld.mul(s, sum1), fld.mul(s, fld.one));

    // r * (sum1 + 1) == s * (sum1 + 1) with r != s forces sum1 + 1 == 0.
    var u := fld.add(sum1, fld.one);
    Distrib(fld, r, sum1, fld.one);
    Distrib(fld, s, sum1, fld.one);
    assert fld.mul(u, r) == fld.mul(u, s);
    if u != fld.zero {
      MulCancel(fld, u, r, s);
      assert false;
    }
    AddZeroIff(fld, sum1, fld.one);
  }

  /** Lagrange interpolation at zero over distinct points recovers the
      constant term of every polynomial with at most as many coefficients
      as there are points. */
  lemma {:induction false} LagrangeExact<F(!new)>(fld: Field<F>, xs: seq<F>, a: seq<F>)
    requires IsField(fld)
    requires Distinct(xs) && 1 <= |a| <= |xs|
    ensures LagrangeSum(fld, xs, Values(fld, a, xs), |xs|) == a[|a| - 1]
    decreases |xs|, 1
  {
    var m := |xs|;
    PartitionOfUnity(fld, xs);
    if |a| == 1 {
      assert a == [a[0]];
      LagrangeSumOfConstant(fld, xs, a[0], m);
    } else {
      var r := xs[m - 1];
      var front := xs[..m - 1];
      var q := Quot(fld, a, r);
      SplitLast(fld, xs, a);
      assert Distinct(front);
      LagrangeExact(fld, front, q);
      EvalPolyAtZero(fld, q);
      EvalPolyAtZero(fld, a);
      SyntheticDivision(fld, a, r, fld.zero);
    }
  }
}
