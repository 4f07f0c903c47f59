/** Polynomials over the field with two elements, and division by a monic one. */
module Gf2 {
  /** Coefficient `i` of x^i; leading zeros do not matter. */
  type Poly = seq<bool>

  predicate Coef(p: Poly, i: nat) { i < |p| && p[i] }

  /** Equal up to leading zeros. */
  ghost predicate Same(p: Poly, q: Poly) { forall i: nat :: Coef(p, i) == Coef(q, i) }

  function Sum(p: Poly, q: Poly): (r: Poly)
    ensures forall i: nat :: Coef(r, i) == (Coef(p, i) != Coef(q, i))
  {
    seq(if |p| < |q| then |q| else |p|, i requires 0 <= i => Coef(p, i) != Coef(q, i))
  }

  /** p times x^n. */
  function Shift(p: Poly, n: nat): (r: Poly)
    ensures forall i: nat :: Coef(r, i) == (n <= i && Coef(p, i - n))
  {
    seq(n, i => false) + p
  }

  /** Schoolbook multiplication: p = p[0] + x * p[1..]. */
  function Product(p: Poly, q: Poly): Poly
    decreases |p|
  {
    if p == [] then []
    else Sum(if p[0] then q else [], Shift(Product(p[1..], q), 1))
  }

  /** The highest power is `n`. */
  predicate Monic(p: Poly, n: nat) { |p| == n + 1 && p[n] }

  predicate Below(p: Poly, n: nat) { |p| <= n }

  /** `r` is what is left of `p` after division by `g`. */
  ghost predicate Remainder(p: Poly, g: Poly, r: Poly) {
    exists q: Poly :: Same(p, Sum(Product(q, g), r))
  }

  lemma ProductCoef(b: bool, p: Poly, q: Poly, i: nat)
    ensures Coef(Product([b] + p, q), i) == ((b && Coef(q, i)) != (i > 0 && Coef(Product(p, q), i - 1)))
  {
    assert ([b] + p)[1..] == p;
  }

  lemma {:induction false} ProductOfZero(p: Poly, q: Poly)
    requires forall i: nat :: !Coef(p, i)
    ensures forall i: nat :: !Coef(Product(p, q), i)
    decreases |p|
  {
    if p != [] {
      assert p == [p[0]] + p[1..] && !Coef(p, 0);
      forall i: nat ensures !Coef(p[1..], i) {
        assert !Coef(p, i + 1);
      }
      ProductOfZero(p[1..], q);
      forall i: nat ensures !Coef(Product(p, q), i) {
        ProductCoef(p[0], p[1..], q, i);
      }
    }
  }

  /** A product by a monic polynomial has at least its degree. */
  lemma {:induction false} TopCoef(p: Poly, g: Poly, n: nat, k: nat)
    requires Monic(g, n) && Coef(p, k) && forall i: nat | k < i :: !Coef(p, i)
    ensures Coef(Product(p, g), k + n)
    decreases |p|
  {
    hide Product;
    var t := p[1..];
    assert p == [p[0]] + t;
    ProductCoef(p[0], t, g, k + n);
    forall i: nat | k <= i ensures !Coef(t, i) {
      assert !Coef(p, i + 1);
    }
    if k > 0 {
      TopCoef(t, g, n, k - 1);
    } else {
      ProductOfZero(t, g);
    }
  }

  lemma SumOfTails(b: bool, p: Poly, c: bool, q: Poly)
    ensures Sum([b] + p, [c] + q) == [b != c] + Sum(p, q)
  {
    var x, y := Sum([b] + p, [c] + q), [b != c] + Sum(p, q);
    forall i | 0 <= i < |x| ensures x[i] == y[i] {
      assert i > 0 ==> x[i] == (Coef(p, i - 1) != Coef(q, i - 1));
    }
  }

  lemma {:induction false} Distributes(p: Poly, q: Poly, g: Poly, i: nat)
    ensures Coef(Product(Sum(p, q), g), i) == (Coef(Product(p, g), i) != Coef(Product(q, g), i))
    decreases |p|, |q|
  {
    if p == [] {
      assert Sum(p, q) == q;
    } else if q == [] {
      assert Sum(p, q) == p;
    } else {
      DistributesTail(p[0], p[1..], q[0], q[1..], g, i);
      assert p == [p[0]] + p[1..] && q == [q[0]] + q[1..];
    }
  }

  lemma {:induction false} DistributesTail(b: bool, p: Poly, c: bool, q: Poly, g: Poly, i: nat)
    ensures Coef(Product(Sum([b] + p, [c] + q), g), i) == (Coef(Product([b] + p, g), i) != Coef(Product([c] + q, g), i))
    decreases |p| + 1, |q|
  {
    hide Product;
    hide Coef;
    SumOfTails(b, p, c, q);
    ProductCoef(b, p, g, i);
    ProductCoef(c, q, g, i);
    ProductCoef(b != c, Sum(p, q), g, i);
    if i > 0 { Distributes(p, q, g, i - 1); }
  }

  lemma {:induction false} HighestCoef(p: Poly, i: nat) returns (k: nat)
    requires Coef(p, i)
    ensures Coef(p, k) && forall j: nat | k < j :: !Coef(p, j)
    decreases |p| - i
  {
    if j: nat :| i < j && Coef(p, j) {
      k := HighestCoef(p, j);
    } else {
      k := i;
    }
  }

  /** Below the degree of `g` there is only one remainder. */
  lemma RemainderUnique(p: Poly, g: Poly, n: nat, r: Poly, s: Poly)
    requires Monic(g, n) && Below(r, n) && Below(s, n)
    requires Remainder(p, g, r) && Remainder(p, g, s)
    ensures Same(r, s)
  {
    var u: Poly :| Same(p, Sum(Product(u, g), r));
    var v: Poly :| Same(p, Sum(Product(v, g), s));
    var d := Sum(u, v);
    forall i: nat ensures Coef(Product(d, g), i) == (Coef(r, i) != Coef(s, i)) {
      Distributes(u, v, g, i);
      assert Coef(p, i) == Coef(Sum(Product(u, g), r), i) == Coef(Sum(Product(v, g), s), i);
    }
    if i: nat :| Coef(d, i) {
      var k := HighestCoef(d, i);
      TopCoef(d, g, n, k);
      assert false;
    } else {
      ProductOfZero(d, g);
    }
  }
}
