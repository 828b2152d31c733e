/**
 * Facts about `_evalPoly`: it computes the textbook polynomial
 * a[0]*x^(m-1) + ... + a[m-2]*x + a[m-1], its value at zero is the constant
 * term, and a root can be factored out (synthetic division).
 */
module Polynomial {
  import opened GaloisField
  import opened Shamir

  function Pow<F>(fld: Field<F>, x: F, e: nat): F
  {
    if e == 0 then fld.one else fld.mul(Pow(fld, x, e - 1), x)
  }

  /** The reference meaning of a coefficient sequence, highest degree first:
      the sum of a[i] * x^(|a|-1-i), built from the leading term down. */
  function MonomialSum<F>(fld: Field<F>, a: seq<F>, x: F): F
  {
    if |a| == 0 then fld.zero
    else fld.add(fld.mul(a[0], Pow(fld, x, |a| - 1)), MonomialSum(fld, a[1..], x))
  }

  /** Appending a coefficient multiplies the old polynomial by x and adds the
      new constant term. */
  lemma {:induction false} MonomialSumSnoc<F(!new)>(fld: Field<F>, b: seq<F>, c: F, x: F)
    requires IsField(fld)
    ensures MonomialSum(fld, b + [c], x) == fld.add(fld.mul(MonomialSum(fld, b, x), x), c)
  {
    if |b| == 0 {
      assert b + [c] == [c];
      assert ([c])[1..] == [];
      MulZero(fld, x);
    } else {
      var m := |b|;
      assert (b + [c])[1..] == b[1..] + [c];
      MonomialSumSnoc(fld, b[1..], c, x);
      var lead := fld.mul(b[0], Pow(fld, x, m - 1));
      var rest := MonomialSum(fld, b[1..], x);
      calc {
        MonomialSum(fld, b + [c], x);
        fld.add(fld.mul(b[0], Pow(fld, x, m)), MonomialSum(fld, b[1..] + [c], x));
        fld.add(fld.mul(b[0], Pow(fld, x, m)), fld.add(fld.mul(rest, x), c));
        { MulAssoc(fld, b[0], Pow(fld, x, m - 1), x); }
        fld.add(fld.mul(lead, x), fld.add(fld.mul(rest, x), c));
        { AddAssoc(fld, fld.mul(lead, x), fld.mul(rest, x), c); }
        fld.add(fld.add(fld.mul(lead, x), fld.mul(rest, x)), c);
        { Distrib(fld, x, lead, rest); }
        fld.add(fld.mul(fld.add(lead, rest), x), c);
        fld.add(fld.mul(MonomialSum(fld, b, x), x), c);
      }
    }
  }

  /** Horner's rule as `_evalPoly` runs it equals the monomial sum. */
  lemma {:induction false} HornerIsMonomialSum<F(!new)>(fld: Field<F>, a: seq<F>, x: F)
    requires IsField(fld)
    requires |a| >= 1
    ensures EvalPoly(fld, a, x) == MonomialSum(fld, a, x)
  {
    var m := |a|;
    if m == 1 {
      MonomialSumSnoc(fld, [], a[0], x);
      assert [] + [a[0]] == a;
      MulZero(fld, x);
    } else {
      HornerIsMonomialSum(fld, a[..m - 1], x);
      MonomialSumSnoc(fld, a[..m - 1], a[m - 1], x);
      assert a[..m - 1] + [a[m - 1]] == a;
    }
  }

  /** A single coefficient is returned untouched, whatever the field. */
  lemma EvalPolySingleton<F>(fld: Field<F>, c: F, x: F)
    ensures EvalPoly(fld, [c], x) == c
  {
  }

  /** At x = 0 the polynomial is its constant term, the last coefficient. */
  lemma {:induction false} EvalPolyAtZero<F(!new)>(fld: Field<F>, a: seq<F>)
    requires IsField(fld)
    requires |a| >= 1
    ensures EvalPoly(fld, a, fld.zero) == a[|a| - 1]
  {
    if |a| > 1 {
      MulZero(fld, EvalPoly(fld, a[..|a| - 1], fld.zero));
    }
  }

  /** The quotient of synthetic division of `a` by (x - r): the running
      Horner values at `r` of the proper prefixes of `a`. */
  function Quot<F>(fld: Field<F>, a: seq<F>, r: F): (q: seq<F>)
    requires |a| >= 2
    ensures |q| == |a| - 1
    decreases |a|
  {
    if |a| == 2 then [a[0]]
    else Quot(fld, a[..|a| - 1], r) + [EvalPoly(fld, a[..|a| - 1], r)]
  }

  /** Factor theorem: a(x) = a(r) + (x - r) * q(x) for every x. */
  lemma {:induction false} SyntheticDivision<F(!new)>(fld: Field<F>, a: seq<F>, r: F, x: F)
    requires IsField(fld)
    requires |a| >= 2
    ensures EvalPoly(fld, a, x)
         == fld.add(EvalPoly(fld, a, r), fld.mul(fld.sub(x, r), EvalPoly(fld, Quot(fld, a, r), x)))
  {
    var m := |a|;
    var b := a[m - 1];
    var d := fld.add(x, r);
    if m == 2 {
      var a0 := a[0];
      assert a[..1] == [a0];
      calc {
        fld.add(EvalPoly(fld, a, r), fld.mul(fld.sub(x, r), EvalPoly(fld, Quot(fld, a, r), x)));
        fld.add(fld.add(fld.mul(a0, r), b), fld.mul(d, a0));
        { Distrib(fld, a0, x, r); }
        fld.add(fld.add(fld.mul(a0, r), b), fld.add(fld.mul(a0, x), fld.mul(a0, r)));
        { AddSwapCancel(fld, fld.mul(a0, r), b, fld.mul(a0, x)); }
        fld.add(fld.mul(a0, x), b);
        EvalPoly(fld, a, x);
      }
    } else {
      var a' := a[..m - 1];
      var q' := Quot(fld, a', r);
      var hx := EvalPoly(fld, a', x);
      var hr := EvalPoly(fld, a', r);
      var qx := EvalPoly(fld, q', x);
      SyntheticDivision(fld, a', r, x);
      assert hx == fld.add(hr, fld.mul(d, qx));
      var q := Quot(fld, a, r);
      assert q[..|q| - 1] == q';
      assert EvalPoly(fld, q, x) == fld.add(fld.mul(qx, x), hr);
      calc {
        fld.add(EvalPoly(fld, a, r), fld.mul(fld.sub(x, r), EvalPoly(fld, q, x)));
        fld.add(fld.add(fld.mul(hr, r), b), fld.mul(d, fld.add(fld.mul(qx, x), hr)));
        { Distrib(fld, d, fld.mul(qx, x), hr); }
        fld.add(fld.add(fld.mul(hr, r), b), fld.add(fld.mul(d, fld.mul(qx, x)), fld.mul(d, hr)));
        { Distrib(fld, hr, x, r); }
        fld.add(fld.add(fld.mul(hr, r), b),
                fld.add(fld.mul(d, fld.mul(qx, x)), fld.add(fld.mul(hr, x), fld.mul(hr, r))));
        { RegroupForHorner(fld, fld.mul(hr, r), b, fld.mul(d, fld.mul(qx, x)), fld.mul(hr, x)); }
        fld.add(fld.add(fld.mul(hr, x), fld.mul(d, fld.mul(qx, x))), b);
        { MulAssoc(fld, d, qx, x);
          Distrib(fld, x, hr, fld.mul(d, qx)); }
        fld.add(fld.mul(fld.add(hr, fld.mul(d, qx)), x), b);
        fld.add(fld.mul(hx, x), b);
        EvalPoly(fld, a, x);
      }
    }
  }

  /** (u + b) + (v + u) == v + b in characteristic 2. */
  lemma AddSwapCancel<F(!new)>(fld: Field<F>, u: F, b: F, v: F)
    requires IsField(fld)
    ensures fld.add(fld.add(u, b), fld.add(v, u)) == fld.add(v, b)
  {
    calc {
      fld.add(fld.add(u, b), fld.add(v, u));
      { AddAssoc(fld, fld.add(u, b), v, u); }
      fld.add(fld.add(fld.add(u, b), v), u);
      { AddAssoc(fld, u, b, v); }
      fld.add(fld.add(u, fld.add(b, v)), u);
      fld.add(u, fld.add(u, fld.add(b, v)));
      { AddAssoc(fld, u, u, fld.add(b, v)); }
      fld.add(fld.add(u, u), fld.add(b, v));
      fld.add(v, b);
    }
  }

  /** (u + b) + (w + (v + u)) == (v + w) + b in characteristic 2. */
  lemma RegroupForHorner<F(!new)>(fld: Field<F>, u: F, b: F, w: F, v: F)
    requires IsField(fld)
    ensures fld.add(fld.add(u, b), fld.add(w, fld.add(v, u))) == fld.add(fld.add(v, w), b)
  {
    calc {
      fld.add(w, fld.add(v, u));
      { AddAssoc(fld, w, v, u); }
      fld.add(fld.add(w, v), u);
      fld.add(fld.add(v, w), u);
    }
    AddSwapCancel(fld, u, b, fld.add(v, w));
  }
}
