/** What the checksum computes: the complement of the remainder of the message, as
    a polynomial over GF(2), modulo the CRC-32 generator written out.

    The first message bit is the highest coefficient, and the register's lowest bit
    is the coefficient of x^31. Polynomials are sequences of coefficients, constant
    term first. */
module CrcPolynomial {
  import opened Crc32
  import Field = GaloisField

  type Poly = Field.Poly

  /** x^32 + x^26 + x^23 + x^22 + x^16 + x^12 + x^11 + x^10 + x^8 + x^7 + x^5 + x^4 + x^2 + x + 1 */
  const GENERATOR: Poly :=
    [true, true, true, false, true, true, false, true, true, false, true, true, true, false, false, false,
     true, false, false, false, false, false, true, true, false, false, true, false, false, false, false, false,
     true]

  predicate At(p: Poly, j: nat) {
    Field.Coefficient(p, j)
  }

  /** Coefficient j of the polynomial a register holds; it has none from 32 on. */
  predicate RegisterAt(c: bv32, j: nat) {
    j < 32 && BitAt(c, 31 - j)
  }

  // ----- the generator and the reflected constant

  /** The eight lowest bits, by masks. */
  predicate MaskBit(v: bv32, i: nat) {
    match i
    case 0 => v & 1 != 0
    case 1 => v & 2 != 0
    case 2 => v & 4 != 0
    case 3 => v & 8 != 0
    case 4 => v & 16 != 0
    case 5 => v & 32 != 0
    case 6 => v & 64 != 0
    case 7 => v & 128 != 0
    case _ => false
  }

  lemma {:induction false} MaskBitHalf(v: bv32, i: nat)
    requires i < 7
    ensures MaskBit(Half(v), i) == MaskBit(v, i + 1)
  {
  }

  lemma {:induction false} MaskBitOdd(v: bv32)
    ensures MaskBit(v, 0) == IsOdd(v)
  {
  }

  lemma {:induction false} LowEight(v: bv32, i: nat)
    requires i < 8
    ensures BitAt(v, i) == MaskBit(v, i)
    decreases i
  {
    hide MaskBit, IsOdd, Half;
    if i == 0 {
      MaskBitOdd(v);
    } else {
      LowEight(Half(v), i - 1);
      MaskBitHalf(v, i - 1);
    }
  }

  lemma {:induction false} PolyBytes()
    ensures ShiftByte(POLY) == 0xEDB883 && ShiftByte(0xEDB883) == 0xEDB8 && ShiftByte(0xEDB8) == 0xED
  {
  }

  /** The byte-wise reading of the reflected constant. */
  lemma {:induction false} PolyByteBit(i: nat)
    requires i < 32
    ensures var word := if i < 8 then POLY else if i < 16 then 0xEDB883 else if i < 24 then 0xEDB8 else 0xED;
            BitAt(POLY, i) == MaskBit(word, i % 8)
  {
    hide *;
    PolyBytes();
    if i < 8 {
      LowEight(POLY, i);
    } else if i < 16 {
      BitAtByte(POLY, i - 8);
      LowEight(0xEDB883, i - 8);
    } else if i < 24 {
      BitAtByte(POLY, i - 8);
      BitAtByte(0xEDB883, i - 16);
      LowEight(0xEDB8, i - 16);
    } else {
      BitAtByte(POLY, i - 8);
      BitAtByte(0xEDB883, i - 16);
      BitAtByte(0xEDB8, i - 24);
      LowEight(0xED, i - 24);
    }
  }

  /** The constant of the code is the generator without its leading term, reflected. */
  lemma {:induction false} PolyIsGenerator(k: nat)
    requires k < 32
    ensures BitAt(POLY, 31 - k) == GENERATOR[k]
  {
    hide BitAt;
    PolyByteBit(31 - k);
  }

  lemma {:induction false} GeneratorAt(j: nat)
    ensures At(GENERATOR, j) == (j == 32 || RegisterAt(POLY, j))
  {
    hide BitAt;
    if j < 32 {
      PolyIsGenerator(j);
    }
  }

  // ----- the register divides

  /** Coefficient j of c(x) * x^n + m(x) * x^32, for the n message bits m. */
  predicate DividendAt(c: bv32, bits: seq<bool>, j: nat) {
    (j >= |bits| && RegisterAt(c, j - |bits|)) != (32 <= j < 32 + |bits| && bits[|bits| - 1 - (j - 32)])
  }

  function Quotient(c: bv32, bits: seq<bool>): Poly {
    if bits == [] then []
    else
      var front, last := bits[..|bits| - 1], bits[|bits| - 1];
      [IsOdd(Xor(Register(c, front), OfBit(last)))] + Quotient(c, front)
  }

  function Product(q: Poly): Poly {
    Field.PolyMul(q, GENERATOR)
  }

  lemma {:induction false} ProductCons(o: bool, q: Poly, j: nat)
    ensures At(Product([o] + q), j) == ((o && At(GENERATOR, j)) != (j > 0 && At(Product(q), j - 1)))
    ensures !At(Product([]), j)
  {
    hide Field.PolyAdd;
    assert ([o] + q)[1..] == q;
    var g := if o then GENERATOR else [];
    Field.PolyAddCoefficient(g, [false] + Product(q), j);
    Field.ShiftCoefficient(Product(q), j);
  }

  /** One message bit: multiply by x, bring the bit in at x^32, and subtract the generator if that overflows. */
  lemma {:induction false} StepAt(r: bv32, bit: bool, j: nat)
    ensures var y := Xor(r, OfBit(bit));
            RegisterAt(Step(y), j)
            == ((j > 0 && RegisterAt(r, j - 1)) != ((IsOdd(y) && At(GENERATOR, j)) != (j == 32 && bit)))
  {
    hide BitAt, Xor, OfBit, Step, IsOdd, At;
    var y := Xor(r, OfBit(bit));
    GeneratorAt(j);
    if j < 32 {
      BitAtStep(y, 31 - j);
      BitAtXor(r, OfBit(bit), 32 - j);
      BitAtOfBit(bit, 32 - j);
      if j == 0 {
        BitAtHigh(r, 32);
      }
    } else if j == 32 {
      BitZero(y);
      BitAtXor(r, OfBit(bit), 0);
      BitAtOfBit(bit, 0);
    }
  }

  lemma {:induction false} DividendNext(c: bv32, front: seq<bool>, last: bool, j: nat)
    ensures DividendAt(c, front + [last], j) == ((j > 0 && DividendAt(c, front, j - 1)) != (j == 32 && last))
  {
    hide BitAt;
  }

  lemma {:induction false} RegisterNext(c: bv32, front: seq<bool>, last: bool)
    ensures Register(c, front + [last]) == Step(Xor(Register(c, front), OfBit(last)))
  {
    hide Xor, Step, OfBit;
    RegisterConcat(c, front, [last]);
  }

  /** Division with remainder, coefficient by coefficient: what the register holds after the message is the remainder,
      of degree below 32. */
  lemma {:induction false} RegisterIsRemainder(c: bv32, bits: seq<bool>, j: nat)
    ensures DividendAt(c, bits, j) == (At(Product(Quotient(c, bits)), j) != RegisterAt(Register(c, bits), j))
    decreases |bits|
  {
    hide Register, Product, At, RegisterAt, Xor, OfBit, Step, IsOdd;
    if bits == [] {
      ProductCons(false, [], j);
      assert Register(c, []) == c by { EmptyRegister(c); }
    } else {
      hide DividendAt;
      var front, last := bits[..|bits| - 1], bits[|bits| - 1];
      assert bits == front + [last];
      var r := Register(c, front);
      RegisterNext(c, front, last);
      StepAt(r, last, j);
      ProductCons(IsOdd(Xor(r, OfBit(last))), Quotient(c, front), j);
      DividendNext(c, front, last, j);
      if j > 0 {
        RegisterIsRemainder(c, front, j - 1);
      }
    }
  }

  lemma {:induction false} EmptyRegister(c: bv32)
    ensures Register(c, []) == c
  {
  }

  // ----- a remainder is unique

  predicate Zero(q: Poly) {
    forall i :: 0 <= i < |q| ==> !q[i]
  }

  lemma {:induction false} ZeroProduct(q: Poly, j: nat)
    requires Zero(q)
    ensures !At(Product(q), j)
  {
    hide Product, At;
    if q == [] {
      ProductCons(false, [], j);
    } else {
      assert q == [false] + q[1..];
      ProductCons(false, q[1..], j);
      if j > 0 {
        ZeroProduct(q[1..], j - 1);
      }
    }
  }

  /** A multiple of the generator of degree below 32 is zero. */
  lemma {:induction false} HighProduct(q: Poly) returns (j: nat)
    requires !Zero(q)
    ensures j >= 32 && At(Product(q), j)
  {
    hide Product;
    assert q == [q[0]] + q[1..];
    if Zero(q[1..]) {
      j := 32;
      ProductCons(q[0], q[1..], j);
      ZeroProduct(q[1..], j - 1);
    } else {
      var k := HighProduct(q[1..]);
      j := k + 1;
      ProductCons(q[0], q[1..], j);
    }
  }

  lemma {:induction false} ProductAdd(p: Poly, q: Poly, j: nat)
    ensures At(Product(Field.PolyAdd(p, q)), j) == (At(Product(p), j) != At(Product(q), j))
  {
    hide Product, At;
    if p == [] || q == [] {
      ProductCons(false, [], j);
    } else {
      var rest := Field.PolyAdd(p[1..], q[1..]);
      assert p == [p[0]] + p[1..] && q == [q[0]] + q[1..];
      ProductCons(p[0], p[1..], j);
      ProductCons(q[0], q[1..], j);
      ProductCons(p[0] != q[0], rest, j);
      if j > 0 {
        ProductAdd(p[1..], q[1..], j - 1);
      }
    }
  }

  /** Remainders of the same dividend agree in every coefficient. */
  lemma {:induction false} RemainderUnique(p: Poly, q: Poly, v: bv32, w: bv32)
    requires forall j: nat :: (At(Product(p), j) != RegisterAt(v, j)) == (At(Product(q), j) != RegisterAt(w, j))
    ensures v == w
  {
    hide BitAt, Product, At;
    var d := Field.PolyAdd(p, q);
    if !Zero(d) {
      var j := HighProduct(d);
      ProductAdd(p, q, j);
    }
    forall i: nat | i < 32 ensures BitAt(v, i) == BitAt(w, i) {
      var j := 31 - i;
      ProductAdd(p, q, j);
      ZeroProduct(d, j);
      assert (At(Product(p), j) != RegisterAt(v, j)) == (At(Product(q), j) != RegisterAt(w, j));
    }
    WordsEqual(v, w);
  }

  lemma {:induction false} LowBitsAt(w: bv32, n: nat, i: nat)
    requires i < n
    ensures LowBits(w, n)[i] == BitAt(w, i)
    decreases i
  {
    hide IsOdd, Half;
    if i > 0 {
      LowBitsAt(Half(w), n - 1, i - 1);
    }
  }

  lemma {:induction false} WordsEqual(v: bv32, w: bv32)
    requires forall i: nat :: i < 32 ==> BitAt(v, i) == BitAt(w, i)
    ensures v == w
  {
    hide BitAt, Xor, LowBits;
    var d := Xor(v, w);
    forall i | 0 <= i < 32 ensures !LowBits(d, 32)[i] {
      LowBitsAt(d, 32, i);
      BitAtXor(v, w, i);
    }
    WordFits(d);
    LowBitsZero(d, 32);
    XorLaws(v, w);
  }

  // ----- the checksum

  /** Bit t of a message: the bytes in order, each from its lowest bit. */
  predicate DataBit(data: seq<bv8>, t: nat)
    requires t < 8 * |data|
  {
    BitAt(Word(data[t / 8]), t % 8)
  }

  lemma {:induction false} MessageBitAt(data: seq<bv8>, t: nat)
    requires t < 8 * |data|
    ensures MessageBits(data)[t] == DataBit(data, t)
  {
    hide Word, LowBits, BitAt;
    if t < 8 {
      LowBitsAt(Word(data[0]), 8, t);
    } else {
      MessageBitAt(data[1..], t - 8);
    }
  }

  /** Coefficient j of x^n times 32 ones plus the message times x^32, for a message of n bits. Of a message of 32 bits
      or more this is the message with its first 32 bits complemented, times x^32. */
  predicate MessageAt(data: seq<bv8>, j: nat) {
    var n := 8 * |data|;
    (n <= j < n + 32) != (32 <= j < 32 + n && DataBit(data, n - 1 - (j - 32)))
  }

  /** The equation of the division at coefficient j, for the quotient q and the complement of w as remainder. */
  predicate DividesAt(data: seq<bv8>, q: Poly, w: bv32, j: nat) {
    MessageAt(data, j) == (At(Product(q), j) != (j < 32 && !BitAt(w, 31 - j)))
  }

  ghost predicate Divides(data: seq<bv8>, q: Poly, w: bv32) {
    forall j: nat :: DividesAt(data, q, w, j)
  }

  lemma {:induction false} OnesAt(i: nat)
    requires i < 32
    ensures BitAt(ALL_ONES, i)
  {
    hide BitAt;
    OnesBytes();
    if i < 8 {
      LowEight(ALL_ONES, i);
    } else if i < 16 {
      BitAtByte(ALL_ONES, i - 8);
      LowEight(0xFFFFFF, i - 8);
    } else if i < 24 {
      BitAtByte(ALL_ONES, i - 8);
      BitAtByte(0xFFFFFF, i - 16);
      LowEight(0xFFFF, i - 16);
    } else {
      BitAtByte(ALL_ONES, i - 8);
      BitAtByte(0xFFFFFF, i - 16);
      BitAtByte(0xFFFF, i - 24);
      LowEight(0xFF, i - 24);
    }
  }

  lemma {:induction false} OnesBytes()
    ensures ShiftByte(ALL_ONES) == 0xFFFFFF && ShiftByte(0xFFFFFF) == 0xFFFF && ShiftByte(0xFFFF) == 0xFF
  {
  }

  lemma {:induction false} ComplementAt(w: bv32, j: nat)
    ensures RegisterAt(Xor(w, ALL_ONES), j) == (j < 32 && !BitAt(w, 31 - j))
    ensures Xor(Xor(w, ALL_ONES), ALL_ONES) == w
  {
    if j < 32 {
      BitAtXor(w, ALL_ONES, 31 - j);
      OnesAt(31 - j);
    }
  }

  lemma {:induction false} MessageDividend(data: seq<bv8>, j: nat)
    ensures DividendAt(ALL_ONES, MessageBits(data), j) == MessageAt(data, j)
  {
    hide BitAt, MessageBits, DataBit;
    var n := 8 * |data|;
    if n <= j < n + 32 {
      OnesAt(31 - (j - n));
    }
    if 32 <= j < 32 + n {
      MessageBitAt(data, n - 1 - (j - 32));
    }
  }

  /** The checksum is the one word whose complement is the remainder of the message modulo the generator. */
  lemma {:induction false} ChecksumIsRemainder(data: seq<bv8>, w: bv32)
    ensures w == Checksum(data) <==> exists q :: Divides(data, q, w)
  {
    var bits := MessageBits(data);
    var r := Register(ALL_ONES, bits);
    hide BitAt, Register, MessageBits, Product, At, DividendAt, MessageAt, RegisterAt, Quotient, Xor;
    var own := Quotient(ALL_ONES, bits);
    forall j: nat ensures MessageAt(data, j) == (At(Product(own), j) != RegisterAt(r, j)) {
      MessageDividend(data, j);
      RegisterIsRemainder(ALL_ONES, bits, j);
    }
    ComplementAt(r, 0);
    if w == Checksum(data) {
      forall j: nat ensures DividesAt(data, own, w, j) {
        ComplementAt(w, j);
      }
      assert Divides(data, own, w);
    }
    if q :| Divides(data, q, w) {
      var v := Xor(w, ALL_ONES);
      forall j: nat ensures (At(Product(own), j) != RegisterAt(r, j)) == (At(Product(q), j) != RegisterAt(v, j)) {
        assert DividesAt(data, q, w, j);
        ComplementAt(w, j);
      }
      RemainderUnique(own, q, r, v);
      ComplementAt(w, 0);
    }
  }

  // ----- known values

  lemma {:induction false} EmptyChecksum()
    ensures Checksum([]) == 0
  {
    hide Xor;
    XorLaws(ALL_ONES, ALL_ONES);
    EmptyRegister(ALL_ONES);
  }

  function Step8(c: bv32): bv32 {
    Step(Step(Step(Step(Step(Step(Step(Step(c))))))))
  }

  lemma {:induction false} StepTimesTwo(n: nat, c: bv32)
    ensures StepTimes(n + 2, c) == StepTimes(n, Step(Step(c)))
  {
    hide Step;
  }

  lemma {:induction false} StepTimesEight(c: bv32)
    ensures StepTimes(8, c) == Step8(c)
  {
    hide Step;
    var d := Step(Step(c));
    var e := Step(Step(d));
    var f := Step(Step(e));
    StepTimesTwo(6, c);
    StepTimesTwo(4, d);
    StepTimesTwo(2, e);
    StepTimesTwo(0, f);
    StepTimesNone(Step(Step(f)));
  }

  /** A byte of the message takes the register through eight shifts. */
  lemma {:induction false} FeedByte(c: bv32, data: seq<bv8>)
    requires data != []
    ensures Register(c, MessageBits(data)) == Register(Step8(Xor(c, Word(data[0]))), MessageBits(data[1..]))
  {
    hide *;
    var b := data[0];
    ByteFits(b, b);
    HalvesEight(Word(b));
    FeedWord(c, Word(b), 8);
    StepTimesEight(Xor(c, Word(b)));
    RegisterByte(c, data);
  }

  lemma {:induction false} DigitWords()
    ensures Word(0x31) == 0x31 && Word(0x32) == 0x32 && Word(0x33) == 0x33 && Word(0x34) == 0x34 && Word(0x35) == 0x35
    ensures Word(0x36) == 0x36 && Word(0x37) == 0x37 && Word(0x38) == 0x38 && Word(0x39) == 0x39
  {
  }

  lemma {:induction false} FirstDigits()
    ensures Step8(Xor(0xFFFFFFFF, 0x31)) == 0x7C231048
    ensures Step8(Xor(0x7C231048, 0x32)) == 0xB0ACBB32
    ensures Step8(Xor(0xB0ACBB32, 0x33)) == 0x77B79C2D
    ensures Step8(Xor(0x77B79C2D, 0x34)) == 0x641C1F5C
    ensures Step8(Xor(0x641C1F5C, 0x35)) == 0x340AC5E3
  {
  }

  lemma {:induction false} LastDigits()
    ensures Step8(Xor(0x340AC5E3, 0x36)) == 0xF68D2C9E
    ensures Step8(Xor(0xF68D2C9E, 0x37)) == 0xAFFC9660
    ensures Step8(Xor(0xAFFC9660, 0x38)) == 0x651F2550
    ensures Step8(Xor(0x651F2550, 0x39)) == 0x340BC6D9
  {
  }

  const DIGITS: seq<bv8> := [0x31, 0x32, 0x33, 0x34, 0x35, 0x36, 0x37, 0x38, 0x39]

  lemma {:induction false} AfterFive()
    ensures Register(ALL_ONES, MessageBits(DIGITS)) == Register(0x340AC5E3, MessageBits(DIGITS[5..]))
  {
    hide Xor, Word, Step8, Register, MessageBits;
    DigitWords();
    FirstDigits();
    assert DIGITS[0..] == DIGITS;
    FeedByte(0xFFFFFFFF, DIGITS[0..]);
    FeedByte(0x7C231048, DIGITS[1..]);
    FeedByte(0xB0ACBB32, DIGITS[2..]);
    FeedByte(0x77B79C2D, DIGITS[3..]);
    FeedByte(0x641C1F5C, DIGITS[4..]);
  }

  lemma {:induction false} AfterNine()
    ensures Register(0x340AC5E3, MessageBits(DIGITS[5..])) == 0x340BC6D9
  {
    hide Xor, Word, Step8, Register, MessageBits;
    DigitWords();
    LastDigits();
    FeedByte(0x340AC5E3, DIGITS[5..]);
    FeedByte(0xF68D2C9E, DIGITS[6..]);
    FeedByte(0xAFFC9660, DIGITS[7..]);
    FeedByte(0x651F2550, DIGITS[8..]);
    RegisterNothing(0x340BC6D9, DIGITS);
  }

  /** The check value of CRC-32: the checksum of the digits 1 to 9. */
  lemma {:induction false} CheckValue()
    ensures Checksum([0x31, 0x32, 0x33, 0x34, 0x35, 0x36, 0x37, 0x38, 0x39]) == 0xCBF43926
  {
    assert Xor(0x340BC6D9, ALL_ONES) == 0xCBF43926;
    hide Xor, Register, MessageBits;
    AfterFive();
    AfterNine();
  }

  /** The shortest undetected error, written out. */
  lemma {:induction false} GeneratorPattern(k: nat)
    requires k < 33
    ensures Generator()[k] == GENERATOR[32 - k]
  {
    hide LowBits, BitAt;
    if k > 0 {
      LowBitsAt(POLY, 32, k - 1);
      PolyIsGenerator(32 - k);
    }
  }
}
