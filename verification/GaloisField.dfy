/** The field GF(2^8) of the Shamir code: bytes as polynomials over GF(2) modulo
    x^8 + x^4 + x^3 + x + 1 (section 4.2 of FIPS 197).

    A machine byte is a `bv8`; its eight bits, lowest first, are a `Byte`. The
    arithmetic is stated and proved on `Byte`, and the branchless `u8` code is
    proved to compute it. */
module GaloisField {
  import opened Common

  datatype Byte = Byte(b0: bool, b1: bool, b2: bool, b3: bool,
                       b4: bool, b5: bool, b6: bool, b7: bool)

  const ZERO := Byte(false, false, false, false, false, false, false, false)
  const ONE := Byte(true, false, false, false, false, false, false, false)

  function Bits(v: bv8): Byte {
    Byte(v & 1 == 1, v & 2 == 2, v & 4 == 4, v & 8 == 8,
         v & 16 == 16, v & 32 == 32, v & 64 == 64, v & 128 == 128)
  }

  lemma {:induction false} BitsInjective(v: bv8, w: bv8)
    requires Bits(v) == Bits(w)
    ensures v == w
  {
  }

  function Add(a: Byte, b: Byte): Byte {
    Byte(a.b0 != b.b0, a.b1 != b.b1, a.b2 != b.b2, a.b3 != b.b3,
         a.b4 != b.b4, a.b5 != b.b5, a.b6 != b.b6, a.b7 != b.b7)
  }

  /** `a` when the bit is set, else zero: the product by a constant polynomial. */
  function Select(a: Byte, bit: bool): Byte {
    if bit then a else ZERO
  }

  /** The product by x, reduced. */
  function Xtime(a: Byte): Byte {
    Byte(a.b7, a.b0 != a.b7, a.b1, a.b2 != a.b7, a.b3 != a.b7, a.b4, a.b5, a.b6)
  }

  /** A polynomial over GF(2), lowest coefficient first, of any degree. */
  type Poly = seq<bool>

  /** The field element p(x) * a. */
  function Times(a: Byte, p: Poly): Byte {
    if p == [] then ZERO else Add(Select(a, p[0]), Xtime(Times(a, p[1..])))
  }

  /** p(x) reduced to a field element. */
  function Reduce(p: Poly): Byte {
    Times(ONE, p)
  }

  function Coefficients(b: Byte): (p: Poly)
    ensures |p| == 8
  {
    [b.b0, b.b1, b.b2, b.b3, b.b4, b.b5, b.b6, b.b7]
  }

  function Mul(a: Byte, b: Byte): Byte {
    Times(a, Coefficients(b))
  }

  // ----- addition

  lemma {:induction false} AddCommutative(a: Byte, b: Byte)
    ensures Add(a, b) == Add(b, a)
  {
  }

  lemma {:induction false} AddZero(a: Byte)
    ensures Add(a, ZERO) == a && Add(ZERO, a) == a
  {
  }

  lemma {:induction false} AddAssociative(a: Byte, b: Byte, c: Byte)
    ensures Add(Add(a, b), c) == Add(a, Add(b, c))
  {
  }

  lemma {:induction false} AddSwap(a: Byte, b: Byte, c: Byte, d: Byte)
    ensures Add(Add(a, b), Add(c, d)) == Add(Add(a, c), Add(b, d))
  {
  }

  lemma {:induction false} AddCancel(a: Byte, b: Byte)
    ensures Add(a, b) == ZERO <==> a == b
  {
  }

  lemma {:induction false} XtimeAdd(a: Byte, b: Byte)
    ensures Xtime(Add(a, b)) == Add(Xtime(a), Xtime(b))
    ensures Xtime(ZERO) == ZERO
  {
  }

  lemma {:induction false} SelectLaws(a: Byte, b: Byte, bit: bool)
    ensures Select(Add(a, b), bit) == Add(Select(a, bit), Select(b, bit))
    ensures Select(Xtime(a), bit) == Xtime(Select(a, bit))
    ensures Select(ZERO, bit) == ZERO
  {
  }

  // ----- the product p(x) * a is linear in a and commutes with every other product

  lemma {:induction false} TimesAdd(a: Byte, b: Byte, p: Poly)
    ensures Times(Add(a, b), p) == Add(Times(a, p), Times(b, p))
  {
    hide Add, Select, Xtime;
    AddZero(ZERO);
    if p != [] {
      var a', b' := Times(a, p[1..]), Times(b, p[1..]);
      TimesAdd(a, b, p[1..]);
      XtimeAdd(a', b');
      SelectLaws(a, b, p[0]);
      AddSwap(Select(a, p[0]), Select(b, p[0]), Xtime(a'), Xtime(b'));
    }
  }

  lemma {:induction false} TimesXtime(a: Byte, p: Poly)
    ensures Times(Xtime(a), p) == Xtime(Times(a, p))
  {
    hide Add, Select, Xtime;
    XtimeAdd(ZERO, ZERO);
    if p != [] {
      TimesXtime(a, p[1..]);
      SelectLaws(a, a, p[0]);
      XtimeAdd(Select(a, p[0]), Xtime(Times(a, p[1..])));
    }
  }

  lemma {:induction false} TimesZero(p: Poly)
    ensures Times(ZERO, p) == ZERO
  {
    if p != [] {
      TimesZero(p[1..]);
    }
  }

  lemma {:induction false} TimesSelect(a: Byte, bit: bool, p: Poly)
    ensures Times(Select(a, bit), p) == Select(Times(a, p), bit)
  {
    TimesZero(p);
  }

  lemma {:induction false} TimesSwap(a: Byte, p: Poly, q: Poly)
    ensures Times(Times(a, p), q) == Times(Times(a, q), p)
  {
    hide Add, Select, Xtime;
    if p == [] {
      TimesZero(q);
    } else {
      var a' := Times(a, p[1..]);
      TimesAdd(Select(a, p[0]), Xtime(a'), q);
      TimesSelect(a, p[0], q);
      TimesXtime(a', q);
      TimesSwap(a, p[1..], q);
    }
  }

  // ----- bytes as reduced polynomials

  /** The coefficient of x^i, zero beyond the listed ones. */
  predicate Coefficient(p: Poly, i: nat) {
    i < |p| && p[i]
  }

  /** A polynomial of degree below 8 is its own reduction. */
  lemma {:induction false} ReduceShort(p: Poly)
    requires |p| <= 8
    ensures Reduce(p) == Byte(Coefficient(p, 0), Coefficient(p, 1), Coefficient(p, 2), Coefficient(p, 3),
                              Coefficient(p, 4), Coefficient(p, 5), Coefficient(p, 6), Coefficient(p, 7))
  {
    if p != [] {
      var q := p[1..];
      ReduceShort(q);
      hide Times;
      TimesUnfold(ONE, p);
      assert forall i: nat :: Coefficient(p, i + 1) == Coefficient(q, i);
    }
  }

  lemma {:induction false} TimesUnfold(a: Byte, p: Poly)
    requires p != []
    ensures Times(a, p) == Add(Select(a, p[0]), Xtime(Times(a, p[1..])))
  {
  }

  lemma {:induction false} ReduceCoefficients(a: Byte)
    ensures Reduce(Coefficients(a)) == a
  {
    hide Reduce;
    ReduceShort(Coefficients(a));
  }

  // ----- the ring laws

  /** Reduction turns the product by a polynomial into the product by its reduced value. */
  lemma {:induction false} TimesReduce(a: Byte, p: Poly)
    ensures Times(a, p) == Mul(a, Reduce(p))
  {
    hide Add, Select, Xtime, Coefficients;
    calc {
      Times(a, p);
      { ReduceCoefficients(a); }
      Times(Times(ONE, Coefficients(a)), p);
      { TimesSwap(ONE, Coefficients(a), p); }
      Times(Reduce(p), Coefficients(a));
      Mul(Reduce(p), a);
      { MulCommutative(Reduce(p), a); }
      Mul(a, Reduce(p));
    }
  }

  lemma {:induction false} MulCommutative(a: Byte, b: Byte)
    ensures Mul(a, b) == Mul(b, a)
  {
    hide Times, Coefficients;
    ReduceCoefficients(a);
    ReduceCoefficients(b);
    TimesSwap(ONE, Coefficients(a), Coefficients(b));
  }

  lemma {:induction false} MulAssociative(a: Byte, b: Byte, c: Byte)
    ensures Mul(Mul(a, b), c) == Mul(a, Mul(b, c))
  {
    hide Times, Coefficients;
    MulCommutative(a, b);
    MulCommutative(a, Mul(b, c));
    TimesSwap(b, Coefficients(a), Coefficients(c));
  }

  lemma {:induction false} MulAdd(a: Byte, b: Byte, c: Byte)
    ensures Mul(Add(a, b), c) == Add(Mul(a, c), Mul(b, c))
    ensures Mul(c, Add(a, b)) == Add(Mul(c, a), Mul(c, b))
  {
    hide Times, Coefficients, Add;
    TimesAdd(a, b, Coefficients(c));
    MulCommutative(c, Add(a, b));
    MulCommutative(c, a);
    MulCommutative(c, b);
  }

  lemma {:induction false} MulUnits(a: Byte)
    ensures Mul(a, ONE) == a && Mul(ONE, a) == a
    ensures Mul(a, ZERO) == ZERO && Mul(ZERO, a) == ZERO
  {
    hide Times, Coefficients;
    ReduceCoefficients(a);
    TimesZero(Coefficients(a));
    MulCommutative(a, ONE);
    MulCommutative(a, ZERO);
  }

  // ----- squaring is a ring homomorphism whose eighth iterate is the identity

  /** a * a, written as the linear map it is. */
  function Square(a: Byte): Byte {
    Byte(a.b0 != (a.b4 != a.b6), a.b4 != (a.b6 != a.b7), a.b1 != a.b5, a.b4 != (a.b5 != (a.b6 != a.b7)),
         a.b2 != (a.b4 != a.b7), a.b5 != a.b6, a.b3 != a.b5, a.b6 != a.b7)
  }

  lemma {:induction false} SquareAdd(a: Byte, b: Byte)
    ensures Square(Add(a, b)) == Add(Square(a), Square(b))
  {
  }

  lemma {:induction false} SquareXtime(a: Byte)
    ensures Square(Xtime(a)) == Xtime(Xtime(Square(a)))
  {
  }

  lemma {:induction false} SquareSelect(bit: bool)
    ensures Square(Select(ONE, bit)) == Select(ONE, bit)
    ensures Mul(Select(ONE, bit), Select(ONE, bit)) == Select(ONE, bit)
  {
    MulUnits(ONE);
    MulUnits(ZERO);
  }

  /** The cross terms of (a + b)^2 cancel. */
  lemma {:induction false} MulSelfAdd(a: Byte, b: Byte)
    ensures Mul(Add(a, b), Add(a, b)) == Add(Mul(a, a), Mul(b, b))
  {
    hide Mul, Add;
    var aa, ab, ba, bb := Mul(a, a), Mul(a, b), Mul(b, a), Mul(b, b);
    MulAdd(a, b, Add(a, b));
    MulAdd(a, b, a);
    MulAdd(a, b, b);
    MulCommutative(a, b);
    AddCommutative(ab, bb);
    AddSwap(aa, ab, bb, ab);
    AddCancel(ab, ab);
    AddZero(Add(aa, bb));
  }

  lemma {:induction false} MulXtime(a: Byte, b: Byte)
    ensures Mul(Xtime(a), b) == Xtime(Mul(a, b)) == Mul(a, Xtime(b))
  {
    hide Times, Coefficients, Xtime;
    TimesXtime(a, Coefficients(b));
    TimesXtime(b, Coefficients(a));
    MulCommutative(a, b);
    MulCommutative(a, Xtime(b));
  }

  lemma {:induction false} SquareReduce(p: Poly)
    ensures Mul(Reduce(p), Reduce(p)) == Square(Reduce(p))
  {
    hide Mul, Add, Select, Xtime, Square;
    if p == [] {
      MulUnits(ZERO);
      assert Square(ZERO) == ZERO by { SquareSelect(false); assert Select(ONE, false) == ZERO by { SelectFalse(); } }
    } else {
      var c, r := Select(ONE, p[0]), Reduce(p[1..]);
      SquareReduce(p[1..]);
      MulSelfAdd(c, Xtime(r));
      MulXtime(r, Xtime(r));
      MulXtime(r, r);
      SquareAdd(c, Xtime(r));
      SquareXtime(r);
      SquareSelect(p[0]);
    }
  }

  lemma {:induction false} SelectFalse()
    ensures Select(ONE, false) == ZERO
  {
  }

  lemma {:induction false} MulSelf(a: Byte)
    ensures Mul(a, a) == Square(a)
  {
    hide Mul, Square, Reduce, Coefficients;
    ReduceCoefficients(a);
    SquareReduce(Coefficients(a));
  }

  /** The only idempotents are zero and one: this is where the modulus must be irreducible. */
  lemma {:induction false} Idempotent(e: Byte)
    requires Mul(e, e) == e
    ensures e == ZERO || e == ONE
  {
    hide Mul;
    MulSelf(e);
  }

  function SquareTimes(n: nat, a: Byte): Byte {
    if n == 0 then a else SquareTimes(n - 1, Square(a))
  }

  lemma {:induction false} SquareTimesAdd(n: nat, a: Byte, b: Byte)
    ensures SquareTimes(n, Add(a, b)) == Add(SquareTimes(n, a), SquareTimes(n, b))
  {
    hide Add, Square;
    if n != 0 {
      SquareAdd(a, b);
      SquareTimesAdd(n - 1, Square(a), Square(b));
    }
  }

  lemma {:induction false} SquareMul(a: Byte, b: Byte)
    ensures Square(Mul(a, b)) == Mul(Square(a), Square(b))
  {
    hide Mul, Square;
    MulSelf(a);
    MulSelf(b);
    MulSelf(Mul(a, b));
    calc {
      Mul(Mul(a, b), Mul(a, b));
      { MulAssociative(a, b, Mul(a, b)); }
      Mul(a, Mul(b, Mul(a, b)));
      { MulCommutative(a, b); MulAssociative(b, b, a); }
      Mul(a, Mul(Mul(b, b), a));
      { MulCommutative(Mul(b, b), a); MulAssociative(a, a, Mul(b, b)); }
      Mul(Mul(a, a), Mul(b, b));
    }
  }

  lemma {:induction false} SquareTimesMul(n: nat, a: Byte, b: Byte)
    ensures SquareTimes(n, Mul(a, b)) == Mul(SquareTimes(n, a), SquareTimes(n, b))
  {
    hide Mul, Square;
    if n != 0 {
      SquareMul(a, b);
      SquareTimesMul(n - 1, Square(a), Square(b));
    }
  }

  const X := Byte(false, true, false, false, false, false, false, false)

  lemma {:induction false} MulX(a: Byte)
    ensures Mul(X, a) == Xtime(a)
  {
    hide Mul;
    MulXtime(ONE, a);
    MulUnits(a);
    assert Xtime(ONE) == X;
  }

  lemma {:induction false} SquareTimesX()
    ensures SquareTimes(8, X) == X
  {
    var x2 := Byte(false, false, true, false, false, false, false, false);
    var x4 := Byte(false, false, false, false, true, false, false, false);
    var x8 := Byte(true, true, false, true, true, false, false, false);
    var x16 := Byte(false, true, true, true, true, false, true, false);
    var x32 := Byte(false, false, true, false, false, true, true, true);
    var x64 := Byte(true, false, true, true, false, false, true, false);
    var x128 := Byte(false, true, false, true, true, true, true, true);
    assert Square(X) == x2 && Square(x2) == x4 && Square(x4) == x8 && Square(x8) == x16;
    assert Square(x16) == x32 && Square(x32) == x64 && Square(x64) == x128 && Square(x128) == X;
    assert SquareTimes(8, X) == SquareTimes(6, x4) == SquareTimes(4, x16) == SquareTimes(2, x64) == X;
  }

  lemma {:induction false} SquareTimesFixed(n: nat, bit: bool)
    ensures SquareTimes(n, Select(ONE, bit)) == Select(ONE, bit)
  {
    if n != 0 {
      SquareSelect(bit);
      SquareTimesFixed(n - 1, bit);
    }
  }

  /** a^256 == a: true of x, and kept by sums and by the product by x. */
  lemma {:induction false} FrobeniusPoly(p: Poly)
    ensures SquareTimes(8, Reduce(p)) == Reduce(p)
  {
    hide Mul, Add, Select, Xtime, SquareTimes;
    if p == [] {
      SelectFalse();
      SquareTimesFixed(8, false);
    } else {
      var c, r := Select(ONE, p[0]), Reduce(p[1..]);
      SquareTimesAdd(8, c, Xtime(r));
      SquareTimesFixed(8, p[0]);
      MulX(r);
      SquareTimesMul(8, X, r);
      SquareTimesX();
      FrobeniusPoly(p[1..]);
    }
  }

  lemma {:induction false} Frobenius(a: Byte)
    ensures SquareTimes(8, a) == a
  {
    hide SquareTimes, Reduce, Coefficients;
    ReduceCoefficients(a);
    FrobeniusPoly(Coefficients(a));
  }

  // ----- inverses

  function Power(a: Byte, n: nat): Byte {
    if n == 0 then ONE else Mul(a, Power(a, n - 1))
  }

  lemma {:induction false} PowerAdd(a: Byte, m: nat, n: nat)
    ensures Power(a, m + n) == Mul(Power(a, m), Power(a, n))
  {
    hide Mul;
    if m == 0 {
      MulUnits(Power(a, n));
    } else {
      PowerAdd(a, m - 1, n);
      MulAssociative(a, Power(a, m - 1), Power(a, n));
    }
  }

  lemma {:induction false} PowerSquareTimes(a: Byte, k: nat, n: nat)
    requires n == Pow2(k)
    ensures Power(a, n) == SquareTimes(k, a)
    decreases k
  {
    hide Mul, Square;
    if k == 0 {
      MulUnits(a);
    } else {
      PowerSquareTimes(Square(a), k - 1, Pow2(k - 1));
      PowerOfSquare(a, Pow2(k - 1));
    }
  }

  lemma {:induction false} PowerOfSquare(a: Byte, n: nat)
    ensures Power(Square(a), n) == Power(a, 2 * n)
  {
    hide Mul, Square;
    if n != 0 {
      PowerOfSquare(a, n - 1);
      MulSelf(a);
      MulAssociative(a, a, Power(a, 2 * n - 2));
    }
  }

  lemma {:induction false} Power256(a: Byte)
    ensures Power(a, 256) == a
  {
    hide Mul, Power, SquareTimes;
    assert Pow2(8) == 256;
    PowerSquareTimes(a, 8, 256);
    Frobenius(a);
  }

  /** Fermat's little theorem for this field. */
  lemma {:induction false} Power255(a: Byte)
    requires a != ZERO
    ensures Power(a, 255) == ONE
  {
    hide Mul, Power;
    var e := Power(a, 255);
    assert Mul(a, e) == a by { PowerAdd(a, 1, 255); PowerOne(a); Power256(a); }
    assert Mul(e, e) == e by {
      PowerAdd(a, 255, 255);
      PowerAdd(a, 256, 254);
      Power256(a);
      PowerAdd(a, 1, 254);
      PowerOne(a);
    }
    Idempotent(e);
    MulUnits(a);
  }

  lemma {:induction false} PowerOne(a: Byte)
    ensures Power(a, 1) == a
  {
    hide Mul;
    assert Power(a, 0) == ONE;
    MulUnits(a);
  }

  function Inverse(a: Byte): (r: Byte)
    requires a != ZERO
    ensures Mul(a, r) == ONE && r != ZERO
  {
    assert Mul(a, Power(a, 254)) == ONE && Power(a, 254) != ZERO by { InversePower(a); }
    Power(a, 254)
  }

  lemma {:induction false} InversePower(a: Byte)
    requires a != ZERO
    ensures Mul(a, Power(a, 254)) == ONE && Power(a, 254) != ZERO
  {
    hide Mul, Power;
    Power255(a);
    PowerAdd(a, 1, 254);
    PowerOne(a);
    MulUnits(a);
  }

  lemma {:induction false} InverseUnique(a: Byte, w: Byte)
    requires a != ZERO && Mul(a, w) == ONE
    ensures w == Inverse(a)
  {
    hide Mul, Power;
    var r := Inverse(a);
    MulUnits(w);
    MulUnits(r);
    MulAssociative(r, a, w);
    MulCommutative(a, r);
  }

  lemma {:induction false} NoZeroDivisors(a: Byte, b: Byte)
    requires Mul(a, b) == ZERO
    ensures a == ZERO || b == ZERO
  {
    hide Mul, Inverse;
    if a != ZERO {
      var r := Inverse(a);
      MulAssociative(r, a, b);
      MulCommutative(a, r);
      MulUnits(b);
      MulUnits(r);
    }
  }

  // ----- Mul is the product of polynomials modulo x^8 + x^4 + x^3 + x + 1

  const MODULUS: Poly := [true, true, false, true, true, false, false, false, true]

  function PolyAdd(p: Poly, q: Poly): Poly {
    if p == [] then q else if q == [] then p else [p[0] != q[0]] + PolyAdd(p[1..], q[1..])
  }

  function PolyMul(p: Poly, q: Poly): Poly {
    if p == [] then [] else PolyAdd(if p[0] then q else [], [false] + PolyMul(p[1..], q))
  }

  function Quotient(p: Poly): Poly {
    if p == [] then [] else [Reduce(p[1..]).b7] + Quotient(p[1..])
  }

  lemma {:induction false} PolyAddCoefficient(p: Poly, q: Poly, i: nat)
    ensures Coefficient(PolyAdd(p, q), i) == (Coefficient(p, i) != Coefficient(q, i))
  {
    if p != [] && q != [] && i != 0 {
      PolyAddCoefficient(p[1..], q[1..], i - 1);
    }
  }

  function Bit(r: Byte, i: nat): bool {
    if i == 0 then r.b0 else if i == 1 then r.b1 else if i == 2 then r.b2 else if i == 3 then r.b3
    else if i == 4 then r.b4 else if i == 5 then r.b5 else if i == 6 then r.b6 else i == 7 && r.b7
  }

  lemma {:induction false} BitCoefficient(r: Byte, i: nat)
    ensures Coefficient(Coefficients(r), i) == Bit(r, i)
  {
  }

  lemma {:induction false} ModulusCoefficient(i: nat)
    ensures Coefficient(MODULUS, i) == (i == 0 || i == 1 || i == 3 || i == 4 || i == 8)
  {
  }

  /** Carrying a coefficient of degree 8 out of x * r is subtracting the modulus. */
  lemma {:induction false} XtimeCarry(bit: bool, r: Byte, i: nat)
    ensures var s := Coefficients(Add(Select(ONE, bit), Xtime(r)));
            ((r.b7 && Coefficient(MODULUS, i)) != Coefficient(s, i))
            == if i == 0 then bit else Coefficient(Coefficients(r), i - 1)
  {
    hide Coefficient, Coefficients;
    ModulusCoefficient(i);
    BitCoefficient(Add(Select(ONE, bit), Xtime(r)), i);
    if i != 0 {
      BitCoefficient(r, i - 1);
    }
  }

  /** Division with remainder: p == Quotient(p) * MODULUS + Reduce(p), coefficient by coefficient,
      and the remainder has degree below 8. */
  lemma {:induction false} ReduceIsRemainder(p: Poly, i: nat)
    ensures Coefficient(p, i)
            == (Coefficient(PolyMul(Quotient(p), MODULUS), i) != Coefficient(Coefficients(Reduce(p)), i))
  {
    hide Coefficients, Add, Select, Xtime, Coefficient, PolyAdd;
    if p == [] {
      assert !Coefficient([], i) && !Coefficient(Coefficients(ZERO), i) by { ZeroCoefficients(i); }
    } else {
      var r, q := Reduce(p[1..]), PolyMul(Quotient(p[1..]), MODULUS);
      assert Quotient(p)[1..] == Quotient(p[1..]);
      PolyAddCoefficient(if r.b7 then MODULUS else [], [false] + q, i);
      ShiftCoefficient(q, i);
      ZeroCoefficients(i);
      XtimeCarry(p[0], r, i);
      TailCoefficient(p, i);
      if i != 0 {
        ReduceIsRemainder(p[1..], i - 1);
      }
    }
  }

  lemma {:induction false} ZeroCoefficients(i: nat)
    ensures !Coefficient([], i) && !Coefficient(Coefficients(ZERO), i)
  {
  }

  lemma {:induction false} ShiftCoefficient(p: Poly, i: nat)
    ensures Coefficient([false] + p, i) == (i != 0 && Coefficient(p, i - 1))
  {
  }

  lemma {:induction false} TailCoefficient(p: Poly, i: nat)
    requires p != []
    ensures Coefficient(p, i) == if i == 0 then p[0] else Coefficient(p[1..], i - 1)
  {
  }

  lemma {:induction false} TimesPolyAdd(a: Byte, p: Poly, q: Poly)
    ensures Times(a, PolyAdd(p, q)) == Add(Times(a, p), Times(a, q))
  {
    hide Add, Select, Xtime;
    if p == [] {
      AddZero(Times(a, q));
    } else if q == [] {
      AddZero(Times(a, p));
    } else {
      var tp, tq := Times(a, p[1..]), Times(a, q[1..]);
      TimesPolyAdd(a, p[1..], q[1..]);
      assert PolyAdd(p, q)[1..] == PolyAdd(p[1..], q[1..]);
      XtimeAdd(tp, tq);
      SelectXor(a, p[0], q[0]);
      AddSwap(Select(a, p[0]), Select(a, q[0]), Xtime(tp), Xtime(tq));
    }
  }

  lemma {:induction false} SelectXor(a: Byte, x: bool, y: bool)
    ensures Select(a, x != y) == Add(Select(a, x), Select(a, y))
  {
  }

  lemma {:induction false} TimesPolyMul(a: Byte, p: Poly, q: Poly)
    ensures Times(a, PolyMul(p, q)) == Times(Times(a, q), p)
  {
    hide Add, Xtime, PolyAdd;
    if p != [] {
      var t := PolyMul(p[1..], q);
      TimesPolyMul(a, p[1..], q);
      TimesPolyAdd(a, if p[0] then q else [], [false] + t);
      assert ([false] + t)[1..] == t;
      AddZero(Xtime(Times(a, t)));
    }
  }

  /** Reduction is a ring homomorphism from the polynomials of every degree. */
  lemma {:induction false} ReduceHomomorphism(p: Poly, q: Poly)
    ensures Reduce(PolyMul(p, q)) == Mul(Reduce(p), Reduce(q))
    ensures Reduce(PolyAdd(p, q)) == Add(Reduce(p), Reduce(q))
  {
    hide Times, PolyMul, PolyAdd, Mul, Add;
    TimesPolyMul(ONE, p, q);
    TimesReduce(Reduce(q), p);
    MulCommutative(Reduce(q), Reduce(p));
    TimesPolyAdd(ONE, p, q);
  }

  /** The field product is the remainder of the polynomial product. */
  lemma {:induction false} MulIsReducedProduct(a: Byte, b: Byte)
    ensures Mul(a, b) == Reduce(PolyMul(Coefficients(a), Coefficients(b)))
  {
    hide Mul, Reduce, PolyMul, Coefficients;
    ReduceHomomorphism(Coefficients(a), Coefficients(b));
    ReduceCoefficients(a);
    ReduceCoefficients(b);
  }
}
