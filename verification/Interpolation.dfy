/** Polynomials with coefficients in GF(2^8): evaluation, the factor theorem and
    Lagrange interpolation. A polynomial is the sequence of its coefficients,
    constant term first. */
module Interpolation {
  import opened GaloisField

  type Poly8 = seq<Byte>

  function Eval(f: Poly8, x: Byte): Byte {
    if f == [] then ZERO else Add(f[0], Mul(x, Eval(f[1..], x)))
  }

  function ZeroPolynomial(n: nat): (z: Poly8)
    ensures |z| == n
  {
    seq(n, i => ZERO)
  }

  ghost predicate Distinct(xs: seq<Byte>) {
    forall i, j :: 0 <= i < j < |xs| ==> xs[i] != xs[j]
  }

  // ----- sums and products of polynomials

  function Sum(f: Poly8, g: Poly8): (h: Poly8)
    requires |f| == |g|
    ensures |h| == |f|
    ensures forall i :: 0 <= i < |h| ==> h[i] == Add(f[i], g[i])
  {
    seq(|f|, i requires 0 <= i < |f| => Add(f[i], g[i]))
  }

  function Scale(c: Byte, f: Poly8): (h: Poly8)
    ensures |h| == |f|
    ensures forall i :: 0 <= i < |h| ==> h[i] == Mul(c, f[i])
  {
    seq(|f|, i requires 0 <= i < |f| => Mul(c, f[i]))
  }

  /** (x + a) * f(x) */
  function MulLinear(f: Poly8, a: Byte): (h: Poly8)
    ensures |h| == |f| + 1
  {
    Sum([ZERO] + f, Scale(a, f) + [ZERO])
  }

  lemma {:induction false} EvalSum(f: Poly8, g: Poly8, x: Byte)
    requires |f| == |g|
    ensures Eval(Sum(f, g), x) == Add(Eval(f, x), Eval(g, x))
  {
    hide Add, Mul;
    if f == [] {
      AddZero(ZERO);
    } else {
      var f', g' := Eval(f[1..], x), Eval(g[1..], x);
      EvalSum(f[1..], g[1..], x);
      assert Sum(f, g)[1..] == Sum(f[1..], g[1..]);
      MulAdd(f', g', x);
      AddSwap(f[0], g[0], Mul(x, f'), Mul(x, g'));
    }
  }

  lemma {:induction false} EvalScale(c: Byte, f: Poly8, x: Byte)
    ensures Eval(Scale(c, f), x) == Mul(c, Eval(f, x))
  {
    hide Add, Mul;
    if f == [] {
      MulUnits(c);
    } else {
      var e := Eval(f[1..], x);
      EvalScale(c, f[1..], x);
      assert Scale(c, f)[1..] == Scale(c, f[1..]);
      MulAdd(f[0], Mul(x, e), c);
      MulAssociative(x, c, e);
      MulCommutative(x, c);
      MulAssociative(c, x, e);
    }
  }

  lemma {:induction false} EvalZeros(n: nat, x: Byte)
    ensures Eval(ZeroPolynomial(n), x) == ZERO
  {
    hide Add, Mul;
    if n != 0 {
      EvalZeros(n - 1, x);
      assert ZeroPolynomial(n)[1..] == ZeroPolynomial(n - 1);
      MulUnits(x);
      AddZero(ZERO);
    }
  }

  /** Trailing zero coefficients do not change the value. */
  lemma {:induction false} EvalPad(f: Poly8, n: nat, x: Byte)
    ensures Eval(f + ZeroPolynomial(n), x) == Eval(f, x)
  {
    if f == [] {
      assert f + ZeroPolynomial(n) == ZeroPolynomial(n);
      EvalZeros(n, x);
    } else {
      assert (f + ZeroPolynomial(n))[1..] == f[1..] + ZeroPolynomial(n);
      EvalPad(f[1..], n, x);
    }
  }

  lemma {:induction false} EvalAtZero(f: Poly8)
    requires f != []
    ensures Eval(f, ZERO) == f[0]
  {
    hide Add, Mul;
    MulUnits(Eval(f[1..], ZERO));
    AddZero(f[0]);
  }

  lemma {:induction false} EvalMulLinear(f: Poly8, a: Byte, x: Byte)
    ensures Eval(MulLinear(f, a), x) == Mul(Add(x, a), Eval(f, x))
  {
    hide Add, Mul, Sum, Scale;
    var e := Eval(f, x);
    EvalSum([ZERO] + f, Scale(a, f) + [ZERO], x);
    assert Eval([ZERO] + f, x) == Mul(x, e) by {
      assert ([ZERO] + f)[1..] == f;
      AddZero(Mul(x, e));
    }
    assert Eval(Scale(a, f) + [ZERO], x) == Mul(a, e) by {
      assert [ZERO] == ZeroPolynomial(1);
      EvalPad(Scale(a, f), 1, x);
      EvalScale(a, f, x);
    }
    MulAdd(x, a, e);
  }

  // ----- the factor theorem

  /** The quotient of f by (x + a). */
  function Deflate(f: Poly8, a: Byte): (q: Poly8)
    ensures |q| == if f == [] then 0 else |f| - 1
  {
    if |f| <= 1 then [] else [Eval(f[1..], a)] + Deflate(f[1..], a)
  }

  lemma {:induction false} DeflateDivides(f: Poly8, a: Byte, x: Byte)
    ensures Eval(f, x) == Add(Eval(f, a), Mul(Add(x, a), Eval(Deflate(f, a), x)))
  {
    hide Add, Mul;
    var s := Add(x, a);
    if f == [] {
      MulUnits(s);
      AddZero(ZERO);
    } else if |f| == 1 {
      MulUnits(x);
      MulUnits(a);
      MulUnits(s);
      AddZero(f[0]);
    } else {
      var g := f[1..];
      var ga, qx := Eval(g, a), Eval(Deflate(g, a), x);
      DeflateDivides(g, a, x);
      assert Deflate(f, a)[1..] == Deflate(g, a);
      assert Eval(Deflate(f, a), x) == Add(ga, Mul(x, qx));
      DeflateAlgebra(f[0], x, a, ga, qx);
    }
  }

  /** c + x (g + (x+a) q) == (c + a g) + (x+a)(g + x q) in characteristic 2. */
  lemma {:induction false} DeflateAlgebra(c: Byte, x: Byte, a: Byte, g: Byte, q: Byte)
    ensures Add(c, Mul(x, Add(g, Mul(Add(x, a), q))))
            == Add(Add(c, Mul(a, g)), Mul(Add(x, a), Add(g, Mul(x, q))))
  {
    hide Add, Mul;
    var s := Add(x, a);
    var ag, xg, sq, sxq := Mul(a, g), Mul(x, g), Mul(s, q), Mul(s, Mul(x, q));
    MulAdd(g, sq, x);
    assert Mul(x, sq) == sxq by {
      MulAssociative(x, s, q);
      MulCommutative(x, s);
      MulAssociative(s, x, q);
    }
    MulAdd(g, Mul(x, q), s);
    MulAdd(x, a, g);
    calc {
      Add(Add(c, ag), Add(Add(xg, ag), sxq));
      { AddCommutative(xg, ag); AddAssociative(ag, xg, sxq); }
      Add(Add(c, ag), Add(ag, Add(xg, sxq)));
      { AddAssociative(Add(c, ag), ag, Add(xg, sxq)); AddAssociative(c, ag, ag); AddCancel(ag, ag); AddZero(c); }
      Add(c, Add(xg, sxq));
    }
  }

  lemma {:induction false} DeflateZero(f: Poly8, a: Byte)
    requires Eval(f, a) == ZERO
    requires Deflate(f, a) == ZeroPolynomial(|Deflate(f, a)|)
    ensures f == ZeroPolynomial(|f|)
  {
    hide Add, Mul;
    if |f| == 1 {
      MulUnits(a);
      AddZero(f[0]);
    } else if |f| > 1 {
      var q := Deflate(f, a);
      assert q[0] == ZERO;
      assert q[1..] == ZeroPolynomial(|q| - 1);
      DeflateZero(f[1..], a);
      MulUnits(a);
      AddZero(f[0]);
    }
  }

  /** A polynomial with at least as many distinct roots as coefficients is zero. */
  lemma {:induction false} TooManyRoots(f: Poly8, xs: seq<Byte>)
    requires |f| <= |xs| && Distinct(xs)
    requires forall i :: 0 <= i < |xs| ==> Eval(f, xs[i]) == ZERO
    ensures f == ZeroPolynomial(|f|)
    decreases |f|
  {
    hide Add, Mul, Eval, Deflate;
    if f != [] {
      var a, q := xs[0], Deflate(f, xs[0]);
      forall i | 0 <= i < |xs[1..]| ensures Eval(q, xs[1..][i]) == ZERO {
        var x := xs[i + 1];
        DeflateDivides(f, a, x);
        AddZero(Mul(Add(x, a), Eval(q, x)));
        NoZeroDivisors(Add(x, a), Eval(q, x));
        AddCancel(x, a);
      }
      TooManyRoots(q, xs[1..]);
      DeflateZero(f, a);
    }
  }

  /** Polynomials of equal length that agree at that many points are equal. */
  lemma {:induction false} AgreeingPolynomials(f: Poly8, g: Poly8, xs: seq<Byte>)
    requires |f| == |g| <= |xs| && Distinct(xs)
    requires forall i :: 0 <= i < |xs| ==> Eval(f, xs[i]) == Eval(g, xs[i])
    ensures f == g
  {
    hide Add, Mul, Eval, Sum;
    var d := Sum(f, g);
    forall i | 0 <= i < |xs| ensures Eval(d, xs[i]) == ZERO {
      EvalSum(f, g, xs[i]);
      AddCancel(Eval(f, xs[i]), Eval(g, xs[i]));
    }
    TooManyRoots(d, xs);
    forall i | 0 <= i < |f| ensures f[i] == g[i] {
      assert d[i] == ZERO;
      AddCancel(f[i], g[i]);
    }
  }

  // ----- Lagrange interpolation

  /** The value at x of the first n factors of the j-th Lagrange basis polynomial. */
  function BasisAt(xs: seq<Byte>, j: nat, n: nat, x: Byte): Byte
    requires j < |xs| && n <= |xs| && Distinct(xs)
  {
    if n == 0 then ONE
    else if n - 1 == j then BasisAt(xs, j, n - 1, x)
    else
      Mul(BasisAt(xs, j, n - 1, x), Mul(Add(x, xs[n - 1]), InverseOfDifference(xs, j, n - 1)))
  }

  function InverseOfDifference(xs: seq<Byte>, j: nat, k: nat): (r: Byte)
    requires j < |xs| && k < |xs| && j != k && Distinct(xs)
    ensures Mul(Add(xs[j], xs[k]), r) == ONE
  {
    AddCancel(xs[j], xs[k]);
    Inverse(Add(xs[j], xs[k]))
  }

  /** The same product as a polynomial. */
  function Basis(xs: seq<Byte>, j: nat, n: nat): (f: Poly8)
    requires j < |xs| && n <= |xs| && Distinct(xs)
    ensures |f| == if j < n then n else n + 1
  {
    if n == 0 then [ONE]
    else if n - 1 == j then Basis(xs, j, n - 1)
    else Scale(InverseOfDifference(xs, j, n - 1), MulLinear(Basis(xs, j, n - 1), xs[n - 1]))
  }

  lemma {:induction false} EvalBasis(xs: seq<Byte>, j: nat, n: nat, x: Byte)
    requires j < |xs| && n <= |xs| && Distinct(xs)
    ensures Eval(Basis(xs, j, n), x) == BasisAt(xs, j, n, x)
  {
    hide Add, Mul, Eval, MulLinear, Scale, InverseOfDifference;
    if n == 0 {
      assert Eval([ONE], x) == ONE by { EvalConstant(ONE, x); }
    } else if n - 1 == j {
      EvalBasis(xs, j, n - 1, x);
    } else {
      var f, r, s := Basis(xs, j, n - 1), InverseOfDifference(xs, j, n - 1), Add(x, xs[n - 1]);
      EvalBasis(xs, j, n - 1, x);
      EvalMulLinear(f, xs[n - 1], x);
      EvalScale(r, MulLinear(f, xs[n - 1]), x);
      var e := Eval(f, x);
      MulCommutative(r, Mul(s, e));
      MulCommutative(s, e);
      MulAssociative(e, s, r);
    }
  }

  lemma {:induction false} EvalConstant(c: Byte, x: Byte)
    ensures Eval([c], x) == c
  {
    hide Add, Mul;
    MulUnits(x);
    AddZero(c);
  }

  lemma {:induction false} BasisAtOwnPoint(xs: seq<Byte>, j: nat, n: nat)
    requires j < |xs| && n <= |xs| && Distinct(xs)
    ensures BasisAt(xs, j, n, xs[j]) == ONE
  {
    hide Add, Mul, InverseOfDifference;
    if n != 0 {
      BasisAtOwnPoint(xs, j, n - 1);
      MulUnits(ONE);
    }
  }

  lemma {:induction false} BasisAtOtherPoint(xs: seq<Byte>, j: nat, i: nat, n: nat)
    requires j < |xs| && i < n <= |xs| && i != j && Distinct(xs)
    ensures BasisAt(xs, j, n, xs[i]) == ZERO
  {
    hide Add, Mul, InverseOfDifference;
    if n - 1 == i {
      var r := InverseOfDifference(xs, j, i);
      AddCancel(xs[i], xs[i]);
      MulUnits(r);
      MulUnits(BasisAt(xs, j, n - 1, xs[i]));
    } else {
      BasisAtOtherPoint(xs, j, i, n - 1);
      if n - 1 != j {
        MulUnits(Mul(Add(xs[i], xs[n - 1]), InverseOfDifference(xs, j, n - 1)));
      }
    }
  }

  /** The first n terms of the Lagrange sum at x: what reconstruction accumulates at x == 0. */
  function LagrangeAt(xs: seq<Byte>, ys: seq<Byte>, n: nat, x: Byte): Byte
    requires n <= |xs| == |ys| && Distinct(xs)
  {
    if n == 0 then ZERO
    else Add(LagrangeAt(xs, ys, n - 1, x), Mul(ys[n - 1], BasisAt(xs, n - 1, |xs|, x)))
  }

  /** The interpolating polynomial itself. */
  function Lagrange(xs: seq<Byte>, ys: seq<Byte>, n: nat): (f: Poly8)
    requires n <= |xs| == |ys| && Distinct(xs)
    ensures |f| == |xs|
  {
    if n == 0 then ZeroPolynomial(|xs|)
    else Sum(Lagrange(xs, ys, n - 1), Scale(ys[n - 1], Basis(xs, n - 1, |xs|)))
  }

  lemma {:induction false} EvalLagrange(xs: seq<Byte>, ys: seq<Byte>, n: nat, x: Byte)
    requires n <= |xs| == |ys| && Distinct(xs)
    ensures Eval(Lagrange(xs, ys, n), x) == LagrangeAt(xs, ys, n, x)
  {
    hide Add, Mul, Eval, Sum, Scale, Basis, BasisAt;
    if n == 0 {
      EvalZeros(|xs|, x);
    } else {
      var b := Basis(xs, n - 1, |xs|);
      EvalLagrange(xs, ys, n - 1, x);
      EvalSum(Lagrange(xs, ys, n - 1), Scale(ys[n - 1], b), x);
      EvalScale(ys[n - 1], b, x);
      EvalBasis(xs, n - 1, |xs|, x);
    }
  }

  lemma {:induction false} LagrangeAtPoint(xs: seq<Byte>, ys: seq<Byte>, n: nat, i: nat)
    requires i < |xs| && n <= |xs| == |ys| && Distinct(xs)
    ensures LagrangeAt(xs, ys, n, xs[i]) == if i < n then ys[i] else ZERO
  {
    hide Add, Mul, BasisAt;
    if n != 0 {
      LagrangeAtPoint(xs, ys, n - 1, i);
      MulUnits(ys[n - 1]);
      AddZero(ys[n - 1]);
      AddZero(if i < n - 1 then ys[i] else ZERO);
      if n - 1 == i {
        BasisAtOwnPoint(xs, i, |xs|);
      } else {
        BasisAtOtherPoint(xs, n - 1, i, |xs|);
      }
    }
  }

  /** Through any values at distinct points passes exactly one polynomial with as many coefficients. */
  lemma {:induction false} InterpolationExists(xs: seq<Byte>, ys: seq<Byte>) returns (f: Poly8)
    requires |xs| == |ys| && Distinct(xs)
    ensures |f| == |xs|
    ensures forall i :: 0 <= i < |xs| ==> Eval(f, xs[i]) == ys[i]
    ensures forall g: Poly8 | |g| == |xs| && forall i :: 0 <= i < |xs| ==> Eval(g, xs[i]) == ys[i] :: g == f
  {
    hide Eval, Lagrange, LagrangeAt;
    f := Lagrange(xs, ys, |xs|);
    forall i | 0 <= i < |xs| ensures Eval(f, xs[i]) == ys[i] {
      EvalLagrange(xs, ys, |xs|, xs[i]);
      LagrangeAtPoint(xs, ys, |xs|, i);
    }
    forall g: Poly8 | |g| == |xs| && forall i :: 0 <= i < |xs| ==> Eval(g, xs[i]) == ys[i] ensures g == f {
      AgreeingPolynomials(g, f, xs);
    }
  }

  /** The Lagrange sum over at least as many points as coefficients is the polynomial's own value. */
  lemma {:induction false} LagrangeRecovers(f: Poly8, xs: seq<Byte>, ys: seq<Byte>, x: Byte)
    requires |f| <= |xs| == |ys| && Distinct(xs)
    requires forall i :: 0 <= i < |xs| ==> ys[i] == Eval(f, xs[i])
    ensures LagrangeAt(xs, ys, |xs|, x) == Eval(f, x)
  {
    hide Eval, Lagrange, LagrangeAt, ZeroPolynomial;
    var n := |xs| - |f|;
    var g := Lagrange(xs, ys, |xs|);
    forall i | 0 <= i < |xs| ensures Eval(g, xs[i]) == Eval(f + ZeroPolynomial(n), xs[i]) {
      EvalLagrange(xs, ys, |xs|, xs[i]);
      LagrangeAtPoint(xs, ys, |xs|, i);
      EvalPad(f, n, xs[i]);
    }
    AgreeingPolynomials(g, f + ZeroPolynomial(n), xs);
    EvalLagrange(xs, ys, |xs|, x);
    EvalPad(f, n, x);
  }
}
