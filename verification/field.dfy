/**
 * The finite field GF(2^p) that the secret sharer computes in.
 *
 * The arithmetic itself (carry-less multiplication, reduction by an irreducible
 * polynomial, inversion) lives in an external library, so the field is kept
 * abstract: a record of total operations over an element type `F`, together
 * with the laws that GF(2^p) satisfies, stated once as `IsField`. Every
 * property of the secret sharer that depends on arithmetic is proved from
 * these laws and from nothing else.
 */
module GaloisField {

  /** The operations of a field with 2^p elements. `elem(i)` is the element
      whose bit pattern is the integer `i`; the host program passes plain
      integers (share indices) to the field operations, and this is how the
      field reads them. `div(a, b)` with `b == zero` is left unspecified. */
  datatype Field<!F> = Field(
    p: nat,
    zero: F,
    one: F,
    add: (F, F) -> F,
    sub: (F, F) -> F,
    mul: (F, F) -> F,
    div: (F, F) -> F,
    elem: int -> F)

  function Pow2(e: nat): (r: nat)
    ensures r >= 1
  {
    if e == 0 then 1 else 2 * Pow2(e - 1)
  }

  /** Number of elements of the field: integers 0 <= i < Order are elements. */
  function Order<F>(fld: Field<F>): nat
  {
    Pow2(fld.p)
  }

  /** Associativity of addition at one triple. Stated as a named predicate so
      that the law is used only where a proof asks for it. */
  ghost predicate AddAssociates<F>(fld: Field<F>, a: F, b: F, c: F)
  {
    fld.add(fld.add(a, b), c) == fld.add(a, fld.add(b, c))
  }

  ghost predicate MulAssociates<F>(fld: Field<F>, a: F, b: F, c: F)
  {
    fld.mul(fld.mul(a, b), c) == fld.mul(a, fld.mul(b, c))
  }

  ghost predicate MulDistributes<F>(fld: Field<F>, a: F, b: F, c: F)
  {
    fld.mul(a, fld.add(b, c)) == fld.add(fld.mul(a, b), fld.mul(a, c))
  }

  ghost predicate DivUndoesMul<F>(fld: Field<F>, a: F, b: F)
  {
    b != fld.zero ==> fld.mul(fld.div(a, b), b) == a
  }

  /** Addition is XOR: an abelian group in which every element is its own
      negative, and subtraction coincides with addition (characteristic 2). */
  ghost predicate AdditionLaws<F(!new)>(fld: Field<F>)
  {
    && (forall a, b :: fld.add(a, b) == fld.add(b, a))
    && (forall a, b, c :: AddAssociates(fld, a, b, c))
    && (forall a :: fld.add(a, fld.zero) == a)
    && (forall a :: fld.add(a, a) == fld.zero)
    && (forall a, b :: fld.sub(a, b) == fld.add(a, b))
  }

  /** Multiplication is commutative, associative, has unit `one` and
      distributes over addition; `zero` and `one` differ. */
  ghost predicate MultiplicationLaws<F(!new)>(fld: Field<F>)
  {
    && fld.zero != fld.one
    && (forall a, b :: fld.mul(a, b) == fld.mul(b, a))
    && (forall a, b, c :: MulAssociates(fld, a, b, c))
    && (forall a :: fld.mul(a, fld.one) == a)
    && (forall a, b, c :: MulDistributes(fld, a, b, c))
  }

  /** The quotient `div(a, b)` by a nonzero `b`, multiplied back by `b`,
      gives `a`. */
  ghost predicate DivisionLaw<F(!new)>(fld: Field<F>)
  {
    forall a, b :: DivUndoesMul(fld, a, b)
  }

  /** Distinct integers in [0, 2^p) are distinct elements; 0 is `zero`. */
  ghost predicate ElementLaws<F>(fld: Field<F>)
  {
    && fld.elem(0) == fld.zero
    && (forall i, j :: 0 <= i < j < Order(fld) ==> fld.elem(i) != fld.elem(j))
  }

  ghost predicate IsField<F(!new)>(fld: Field<F>)
  {
    && AdditionLaws(fld)
    && MultiplicationLaws(fld)
    && DivisionLaw(fld)
    && ElementLaws(fld)
  }

  lemma AddAssoc<F(!new)>(fld: Field<F>, a: F, b: F, c: F)
    requires IsField(fld)
    ensures fld.add(fld.add(a, b), c) == fld.add(a, fld.add(b, c))
  {
    assert AddAssociates(fld, a, b, c);
  }

  lemma MulAssoc<F(!new)>(fld: Field<F>, a: F, b: F, c: F)
    requires IsField(fld)
    ensures fld.mul(fld.mul(a, b), c) == fld.mul(a, fld.mul(b, c))
  {
    assert MulAssociates(fld, a, b, c);
  }

  lemma Distrib<F(!new)>(fld: Field<F>, a: F, b: F, c: F)
    requires IsField(fld)
    ensures fld.mul(a, fld.add(b, c)) == fld.add(fld.mul(a, b), fld.mul(a, c))
    ensures fld.mul(fld.add(b, c), a) == fld.add(fld.mul(b, a), fld.mul(c, a))
  {
    assert MulDistributes(fld, a, b, c);
  }

  lemma DivMul<F(!new)>(fld: Field<F>, a: F, b: F)
    requires IsField(fld)
    requires b != fld.zero
    ensures fld.mul(fld.div(a, b), b) == a
  {
    assert DivUndoesMul(fld, a, b);
  }

  /** Adding the same element to both sides can be undone. */
  lemma AddCancel<F(!new)>(fld: Field<F>, a: F, b: F, c: F)
    requires IsField(fld)
    ensures fld.add(a, c) == fld.add(b, c) <==> a == b
  {
    if fld.add(a, c) == fld.add(b, c) {
      calc {
        a;
        fld.add(a, fld.add(c, c));
        { AddAssoc(fld, a, c, c); }
        fld.add(fld.add(a, c), c);
        fld.add(fld.add(b, c), c);
        { AddAssoc(fld, b, c, c); }
        fld.add(b, fld.add(c, c));
        b;
      }
    }
  }

  /** In characteristic 2 a sum vanishes exactly when its two terms agree. */
  lemma AddZeroIff<F(!new)>(fld: Field<F>, a: F, b: F)
    requires IsField(fld)
    ensures fld.add(a, b) == fld.zero <==> a == b
  {
    assert fld.add(b, b) == fld.zero;
    AddCancel(fld, a, b, b);
  }

  /** The difference of two elements is zero exactly when they are equal, so
      dividing by `Subtract(xi, xj)` is safe exactly for distinct points. */
  lemma SubZeroIff<F(!new)>(fld: Field<F>, a: F, b: F)
    requires IsField(fld)
    ensures fld.sub(a, b) == fld.zero <==> a == b
  {
    AddZeroIff(fld, a, b);
  }

  lemma MulZero<F(!new)>(fld: Field<F>, a: F)
    requires IsField(fld)
    ensures fld.mul(a, fld.zero) == fld.zero
    ensures fld.mul(fld.zero, a) == fld.zero
  {
    var t := fld.mul(a, fld.zero);
    calc {
      fld.add(t, fld.zero);
      t;
      fld.mul(a, fld.add(fld.zero, fld.zero));
      { Distrib(fld, a, fld.zero, fld.zero); }
      fld.add(t, t);
    }
    AddCancel(fld, fld.zero, t, t);
  }

  /** A product vanishes only if a factor does. */
  lemma NoZeroDivisors<F(!new)>(fld: Field<F>, a: F, b: F)
    requires IsField(fld)
    ensures fld.mul(a, b) == fld.zero <==> a == fld.zero || b == fld.zero
  {
    MulZero(fld, a);
    MulZero(fld, b);
    if fld.mul(a, b) == fld.zero && b != fld.zero {
      var inv := fld.div(fld.one, b);
      calc {
        a;
        fld.mul(a, fld.one);
        { DivMul(fld, fld.one, b); }
        fld.mul(a, fld.mul(inv, b));
        fld.mul(a, fld.mul(b, inv));
        { MulAssoc(fld, a, b, inv); }
        fld.mul(fld.mul(a, b), inv);
        { MulZero(fld, inv); }
        fld.zero;
      }
    }
  }

  /** Multiplication by a nonzero element is injective. */
  lemma MulCancel<F(!new)>(fld: Field<F>, c: F, a: F, b: F)
    requires IsField(fld)
    requires c != fld.zero
    ensures fld.mul(c, a) == fld.mul(c, b) <==> a == b
  {
    if fld.mul(c, a) == fld.mul(c, b) {
      calc {
        fld.mul(c, fld.add(a, b));
        { Distrib(fld, c, a, b); }
        fld.add(fld.mul(c, a), fld.mul(c, b));
        fld.zero;
      }
      NoZeroDivisors(fld, c, fld.add(a, b));
      AddZeroIff(fld, a, b);
    }
  }

  /** The quotient is the unique solution of `t * b == a`. */
  lemma DivUnique<F(!new)>(fld: Field<F>, t: F, a: F, b: F)
    requires IsField(fld)
    requires b != fld.zero
    ensures fld.mul(t, b) == a <==> t == fld.div(a, b)
  {
    DivMul(fld, a, b);
    if fld.mul(t, b) == a {
      assert fld.mul(b, t) == fld.mul(b, fld.div(a, b));
      MulCancel(fld, b, t, fld.div(a, b));
    }
  }

  /** Dividing a product by one of its nonzero factors returns the other:
      the `Divide(Multiply(a, b), b) == a` law of the field library, derived
      here from `IsField`, where division is stated the other way round. */
  lemma DivideUndoesMultiply<F(!new)>(fld: Field<F>, a: F, b: F)
    requires IsField(fld)
    requires b != fld.zero
    ensures fld.div(fld.mul(a, b), b) == a
  {
    DivUnique(fld, a, fld.mul(a, b), b);
  }

  /** Multiplying before dividing is multiplying by the quotient. */
  lemma MulDivAssoc<F(!new)>(fld: Field<F>, y: F, u: F, d: F)
    requires IsField(fld)
    requires d != fld.zero
    ensures fld.div(fld.mul(y, u), d) == fld.mul(y, fld.div(u, d))
  {
    var t := fld.mul(y, fld.div(u, d));
    calc {
      fld.mul(t, d);
      { MulAssoc(fld, y, fld.div(u, d), d); }
      fld.mul(y, fld.mul(fld.div(u, d), d));
      { DivMul(fld, u, d); }
      fld.mul(y, u);
    }
    DivUnique(fld, t, fld.mul(y, u), d);
  }

  /** Dividing `d * u` by the nonzero `d` leaves `u`. */
  lemma CancelFactor<F(!new)>(fld: Field<F>, d: F, u: F, v: F)
    requires IsField(fld)
    requires d != fld.zero
    ensures fld.mul(fld.mul(d, u), fld.div(v, d)) == fld.mul(u, v)
  {
    calc {
      fld.mul(fld.mul(d, u), fld.div(v, d));
      fld.mul(fld.mul(u, d), fld.div(v, d));
      { MulAssoc(fld, u, d, fld.div(v, d)); }
      fld.mul(u, fld.mul(d, fld.div(v, d)));
      { DivMul(fld, v, d); }
      fld.mul(u, v);
    }
  }

  /** (a + b) + (c + d) == (a + c) + (b + d). */
  lemma AddInterchange<F(!new)>(fld: Field<F>, a: F, b: F, c: F, d: F)
    requires IsField(fld)
    ensures fld.add(fld.add(a, b), fld.add(c, d)) == fld.add(fld.add(a, c), fld.add(b, d))
  {
    calc {
      fld.add(fld.add(a, b), fld.add(c, d));
      { AddAssoc(fld, a, b, fld.add(c, d)); }
      fld.add(a, fld.add(b, fld.add(c, d)));
      { AddAssoc(fld, b, c, d); }
      fld.add(a, fld.add(fld.add(b, c), d));
      fld.add(a, fld.add(fld.add(c, b), d));
      { AddAssoc(fld, c, b, d); }
      fld.add(a, fld.add(c, fld.add(b, d)));
      { AddAssoc(fld, a, c, fld.add(b, d)); }
      fld.add(fld.add(a, c), fld.add(b, d));
    }
  }

  /** (a + b) + c == (a + c) + b. */
  lemma AddSwapLast<F(!new)>(fld: Field<F>, a: F, b: F, c: F)
    requires IsField(fld)
    ensures fld.add(fld.add(a, b), c) == fld.add(fld.add(a, c), b)
  {
    AddAssoc(fld, a, b, c);
    AddAssoc(fld, a, c, b);
  }

  /** (a * b) * c == (a * c) * b. */
  lemma MulSwapLast<F(!new)>(fld: Field<F>, a: F, b: F, c: F)
    requires IsField(fld)
    ensures fld.mul(fld.mul(a, b), c) == fld.mul(fld.mul(a, c), b)
  {
    MulAssoc(fld, a, b, c);
    MulAssoc(fld, a, c, b);
  }

  /** Integers in [0, 2^p) name distinct elements, and only 0 names `zero`. */
  lemma ElemInjective<F(!new)>(fld: Field<F>, i: int, j: int)
    requires IsField(fld)
    requires 0 <= i < Order(fld) && 0 <= j < Order(fld)
    ensures fld.elem(i) == fld.elem(j) <==> i == j
  {
    if i < j {
      assert fld.elem(i) != fld.elem(j);
    } else if j < i {
      assert fld.elem(j) != fld.elem(i);
    }
  }
}
