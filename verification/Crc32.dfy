/** CRC-32 with the reflected polynomial 0xEDB88320 (section 8 of RFC 1952): the
    table-driven loop, the bit-serial register it must equal, and the errors
    the checksum is certain to detect. */
module Crc32 {

  const POLY: bv32 := 0xEDB88320
  const ALL_ONES: bv32 := 0xFFFFFFFF

  function Xor(a: bv32, b: bv32): bv32 {
    a ^ b
  }

  function Half(c: bv32): bv32 {
    c >> 1
  }

  /** One shift of the register. */
  function Step(c: bv32): bv32 {
    (c >> 1) ^ (POLY & (0 - (c & 1)))
  }

  function OfBit(bit: bool): bv32 {
    if bit then 1 else 0
  }

  function StepTimes(n: nat, c: bv32): bv32 {
    if n == 0 then c else StepTimes(n - 1, Step(c))
  }

  /** The bit-serial register: message bits enter at the low end, one shift each. */
  function Register(c: bv32, bits: seq<bool>): bv32
    decreases bits
  {
    if bits == [] then c else Register(Step(Xor(c, OfBit(bits[0]))), bits[1..])
  }

  /** The n low bits of w, lowest first. */
  function LowBits(w: bv32, n: nat): (bits: seq<bool>)
    ensures |bits| == n
  {
    if n == 0 then [] else [IsOdd(w)] + LowBits(Half(w), n - 1)
  }

  predicate IsOdd(w: bv32) {
    w & 1 == 1
  }

  function Word(b: bv8): bv32 {
    b as bv32
  }

  /** A message as bits, each byte lowest bit first. */
  function MessageBits(data: seq<bv8>): (bits: seq<bool>)
    ensures |bits| == 8 * |data|
  {
    if data == [] then [] else LowBits(Word(data[0]), 8) + MessageBits(data[1..])
  }

  /** The checksum by the bit-serial definition. */
  function Checksum(data: seq<bv8>): bv32 {
    Xor(Register(ALL_ONES, MessageBits(data)), ALL_ONES)
  }

  // ----- facts about one shift

  lemma {:induction false} XorLaws(a: bv32, b: bv32)
    ensures Xor(a, b) == Xor(b, a)
    ensures Xor(a, 0) == a && Xor(0, a) == a
    ensures Xor(a, b) == 0 <==> a == b
  {
  }

  lemma {:induction false} XorAssociative(a: bv32, b: bv32, c: bv32)
    ensures Xor(Xor(a, b), c) == Xor(a, Xor(b, c))
  {
    assert (a ^ b) ^ c == a ^ (b ^ c);
  }

  lemma {:induction false} StepXor(a: bv32, b: bv32)
    ensures Step(Xor(a, b)) == Xor(Step(a), Step(b))
  {
    var p: bv32 := POLY;
    assert (a ^ b) >> 1 == (a >> 1) ^ (b >> 1);
    assert p & (0 - ((a ^ b) & 1)) == (p & (0 - (a & 1))) ^ (p & (0 - (b & 1)));
  }

  lemma {:induction false} StepZero(a: bv32)
    ensures Step(a) == 0 <==> a == 0
  {
  }

  lemma {:induction false} StepEven(a: bv32)
    requires !IsOdd(a)
    ensures Step(a) == Half(a)
  {
  }

  lemma {:induction false} HalfXor(a: bv32, b: bv32)
    ensures Half(Xor(a, b)) == Xor(Half(a), Half(b))
    ensures IsOdd(Xor(a, b)) == (IsOdd(a) != IsOdd(b))
  {
  }

  lemma {:induction false} StepOdd(c: bv32)
    requires c & 1 == 1
    ensures Step(c) == POLY ^ (c >> 1)
  {
    assert 0 - (c & 1) == ALL_ONES;
  }

  /** The branching form of the shift, as the table is computed. */
  lemma {:induction false} StepBranches(c: bv32)
    ensures Step(c) == if c & 1 == 1 then POLY ^ (c >> 1) else c >> 1
  {
    hide Step;
    if c & 1 == 1 {
      StepOdd(c);
    } else {
      StepEven(c);
    }
  }

  lemma {:induction false} StepAsXor(c: bv32)
    ensures Step(c) == Xor(Half(c), if IsOdd(c) then POLY else 0)
  {
  }

  lemma {:induction false} SplitLowBit(c: bv32)
    ensures c == Xor(OfBit(IsOdd(c)), Xor(c, OfBit(IsOdd(c))))
    ensures !IsOdd(Xor(c, OfBit(IsOdd(c)))) && Half(Xor(c, OfBit(IsOdd(c)))) == Half(c)
  {
  }

  // ----- the register is linear in its start and in the message

  function XorBits(p: seq<bool>, q: seq<bool>): (r: seq<bool>)
    requires |p| == |q|
    ensures |r| == |p|
    ensures forall i :: 0 <= i < |r| ==> r[i] == (p[i] != q[i])
  {
    seq(|p|, i requires 0 <= i < |p| => p[i] != q[i])
  }

  lemma {:induction false} OfBitXor(x: bool, y: bool)
    ensures OfBit(x != y) == Xor(OfBit(x), OfBit(y))
  {
  }

  lemma {:induction false} XorSwap(a: bv32, b: bv32, c: bv32, d: bv32)
    ensures Xor(Xor(a, b), Xor(c, d)) == Xor(Xor(a, c), Xor(b, d))
  {
    hide Xor;
    XorAssociative(a, b, Xor(c, d));
    XorAssociative(b, c, d);
    XorLaws(b, c);
    XorAssociative(c, b, d);
    XorAssociative(a, c, Xor(b, d));
  }

  lemma {:induction false} RegisterLinear(c: bv32, d: bv32, p: seq<bool>, q: seq<bool>)
    requires |p| == |q|
    ensures Register(Xor(c, d), XorBits(p, q)) == Xor(Register(c, p), Register(d, q))
    decreases p
  {
    hide Xor, Step, OfBit;
    if p != [] {
      var x, y := OfBit(p[0]), OfBit(q[0]);
      OfBitXor(p[0], q[0]);
      XorSwap(c, d, x, y);
      StepXor(Xor(c, x), Xor(d, y));
      assert XorBits(p, q)[1..] == XorBits(p[1..], q[1..]);
      RegisterLinear(Step(Xor(c, x)), Step(Xor(d, y)), p[1..], q[1..]);
    }
  }

  lemma {:induction false} RegisterConcat(c: bv32, p: seq<bool>, q: seq<bool>)
    ensures Register(c, p + q) == Register(Register(c, p), q)
    decreases p
  {
    hide Xor, Step, OfBit;
    if p == [] {
      assert p + q == q;
    } else {
      assert (p + q)[1..] == p[1..] + q;
      RegisterConcat(Step(Xor(c, OfBit(p[0]))), p[1..], q);
    }
  }

  ghost predicate AllFalse(bits: seq<bool>) {
    forall i :: 0 <= i < |bits| ==> !bits[i]
  }

  /** Zero bits neither create nor destroy a difference. */
  lemma {:induction false} RegisterZeros(c: bv32, bits: seq<bool>)
    requires AllFalse(bits)
    ensures Register(c, bits) == 0 <==> c == 0
    decreases bits
  {
    hide Xor, Step;
    if bits != [] {
      XorLaws(c, 0);
      StepZero(c);
      RegisterZeros(Step(c), bits[1..]);
    }
  }

  // ----- individual bits of a word

  predicate BitAt(v: bv32, i: nat)
    decreases i
  {
    if i == 0 then IsOdd(v) else BitAt(Half(v), i - 1)
  }

  function Halves(k: nat, v: bv32): bv32 {
    if k == 0 then v else Halves(k - 1, Half(v))
  }

  lemma {:induction false} BitAtHalves(v: bv32, k: nat, i: nat)
    ensures BitAt(v, i + k) == BitAt(Halves(k, v), i)
    decreases k
  {
    hide Half, IsOdd;
    if k != 0 {
      BitAtHalves(Half(v), k - 1, i);
    }
  }

  lemma {:induction false} BitAtXor(a: bv32, b: bv32, i: nat)
    ensures BitAt(Xor(a, b), i) == (BitAt(a, i) != BitAt(b, i))
    decreases i
  {
    hide Xor, Half, IsOdd;
    HalfXor(a, b);
    if i != 0 {
      BitAtXor(Half(a), Half(b), i - 1);
    }
  }

  lemma {:induction false} BitAtZero(i: nat)
    ensures !BitAt(0, i)
  {
    if i != 0 {
      BitAtZero(i - 1);
    }
  }

  lemma {:induction false} BitAtOfBit(bit: bool, i: nat)
    ensures BitAt(OfBit(bit), i) == (i == 0 && bit)
  {
    if i != 0 {
      BitAtZero(i - 1);
    }
  }

  function ShiftByte(v: bv32): bv32 {
    v >> 8
  }

  function Quarter(v: bv32): bv32 {
    v >> 2
  }

  lemma {:induction false} TwoHalves(v: bv32)
    ensures Half(Half(v)) == Quarter(v)
  {
  }

  lemma {:induction false} HalvesTwo(k: nat, v: bv32)
    ensures Halves(k + 2, v) == Halves(k, Quarter(v))
  {
    hide Half, Quarter;
    TwoHalves(v);
    assert Halves(k + 2, v) == Halves(k, Half(Half(v)));
  }

  function ShiftNibble(v: bv32): bv32 {
    v >> 4
  }

  lemma {:induction false} TwoQuarters(v: bv32)
    ensures Quarter(Quarter(v)) == ShiftNibble(v)
  {
  }

  lemma {:induction false} TwoNibbles(v: bv32)
    ensures ShiftNibble(ShiftNibble(v)) == ShiftByte(v)
  {
  }

  lemma {:induction false} FourQuarters(v: bv32)
    ensures Quarter(Quarter(Quarter(Quarter(v)))) == ShiftByte(v)
  {
    hide *;
    TwoQuarters(v);
    TwoQuarters(ShiftNibble(v));
    TwoNibbles(v);
  }

  lemma {:induction false} HalvesNone(v: bv32)
    ensures Halves(0, v) == v
  {
  }

  lemma {:induction false} HalvesEight(v: bv32)
    ensures Halves(8, v) == ShiftByte(v)
  {
    hide *;
    var v2 := Quarter(v); var v4 := Quarter(v2); var v6 := Quarter(v4);
    HalvesTwo(6, v);
    HalvesTwo(4, v2);
    HalvesTwo(2, v4);
    HalvesTwo(0, v6);
    HalvesNone(Quarter(v6));
    FourQuarters(v);
  }

  lemma {:induction false} BitAtByte(v: bv32, i: nat)
    ensures BitAt(v, i + 8) == BitAt(ShiftByte(v), i)
  {
    hide BitAt, ShiftByte;
    HalvesEight(v);
    BitAtHalves(v, 8, i);
  }

  lemma {:induction false} FourBytes(v: bv32)
    ensures ShiftByte(ShiftByte(ShiftByte(ShiftByte(v)))) == 0
    ensures ShiftByte(ShiftByte(ShiftByte(POLY))) == 0xED
  {
    assert v >> 8 >> 8 >> 8 >> 8 == 0;
  }

  lemma {:induction false} BitAtHigh(v: bv32, i: nat)
    requires i >= 32
    ensures !BitAt(v, i)
  {
    hide BitAt, ShiftByte;
    var v1 := ShiftByte(v); var v2 := ShiftByte(v1); var v3 := ShiftByte(v2);
    BitAtByte(v, i - 8);
    BitAtByte(v1, i - 16);
    BitAtByte(v2, i - 24);
    BitAtByte(v3, i - 32);
    FourBytes(v);
    BitAtZero(i - 32);
  }

  lemma {:induction false} PolyTopBit()
    ensures BitAt(POLY, 31)
  {
    assert BitAt(0xED, 7) by {
      assert BitAt(0x3B, 5) by { assert BitAt(0x0E, 3); }
    }
    hide BitAt, ShiftByte;
    BitAtByte(POLY, 23);
    BitAtByte(ShiftByte(POLY), 15);
    BitAtByte(ShiftByte(ShiftByte(POLY)), 7);
    FourBytes(0);
  }

  lemma {:induction false} BitAtStep(c: bv32, i: nat)
    ensures BitAt(Step(c), i) == (BitAt(c, i + 1) != (IsOdd(c) && BitAt(POLY, i)))
  {
    hide Xor, Step, Half, IsOdd;
    StepAsXor(c);
    BitAtXor(Half(c), if IsOdd(c) then POLY else 0, i);
    BitAtZero(i);
  }

  /** Bits k and above are clear. */
  ghost predicate Below(v: bv32, k: nat) {
    forall i :: i >= k ==> !BitAt(v, i)
  }

  /** A shift that leaves the top bit clear lost nothing and came from a word one bit longer. */
  lemma {:induction false} StepBelow(c: bv32, k: nat)
    requires k <= 31 && Below(Step(c), k)
    ensures !IsOdd(c) && Below(c, k + 1)
  {
    hide Step, BitAt;
    assert BitAt(c, 0) == IsOdd(c) by { BitZero(c); }
    PolyTopBit();
    BitAtStep(c, 31);
    BitAtHigh(c, 32);
    forall i | i >= k + 1 ensures !BitAt(c, i) {
      BitAtStep(c, i - 1);
    }
  }

  lemma {:induction false} BitZero(c: bv32)
    ensures BitAt(c, 0) == IsOdd(c)
  {
  }

  // ----- short errors leave a trace

  /** A register that n <= 32 message bits can bring to zero has nothing at or above bit n. */
  lemma {:induction false} ZeroWithin(c: bv32, bits: seq<bool>)
    requires |bits| <= 32 && Register(c, bits) == 0
    ensures Below(c, |bits|)
    decreases bits
  {
    hide Xor, Step, OfBit, BitAt;
    if bits == [] {
      forall i: nat ensures !BitAt(c, i) { BitAtZero(i); }
    } else {
      var x := Xor(c, OfBit(bits[0]));
      ZeroWithin(Step(x), bits[1..]);
      StepBelow(x, |bits| - 1);
      forall i | i >= |bits| ensures !BitAt(c, i) {
        BitAtXor(c, OfBit(bits[0]), i);
        BitAtOfBit(bits[0], i);
      }
    }
  }

  /** At most 32 message bits, not all zero, never bring a zero register back to zero. */
  lemma {:induction false} ShortBurst(bits: seq<bool>)
    requires |bits| <= 32 && !AllFalse(bits)
    ensures Register(0, bits) != 0
  {
    hide Xor, Step, Half;
    assert bits != [];
    if bits[0] {
      if Register(0, bits) == 0 {
        var x := Xor(0, OfBit(true));
        ZeroWithin(Step(x), bits[1..]);
        XorLaws(OfBit(true), 0);
        assert IsOdd(x);
        StepBelow(x, |bits| - 1);
      }
    } else {
      XorLaws(0, 0);
      StepZero(0);
      assert !AllFalse(bits[1..]) by {
        var i :| 0 <= i < |bits| && bits[i];
        assert bits[1..][i - 1];
      }
      ShortBurst(bits[1..]);
    }
  }

  // ----- messages

  lemma {:induction false} LowBitsXor(a: bv32, b: bv32, n: nat)
    ensures LowBits(Xor(a, b), n) == XorBits(LowBits(a, n), LowBits(b, n))
    decreases n
  {
    hide Xor, Half, IsOdd;
    if n != 0 {
      HalfXor(a, b);
      LowBitsXor(Half(a), Half(b), n - 1);
    }
  }

  lemma {:induction false} EvenHalfZero(w: bv32)
    requires !IsOdd(w) && Half(w) == 0
    ensures w == 0
  {
  }

  lemma {:induction false} LowBitsZero(w: bv32, n: nat)
    requires Halves(n, w) == 0 && AllFalse(LowBits(w, n))
    ensures w == 0
    decreases n
  {
    hide Half, IsOdd;
    if n != 0 {
      var bits := LowBits(w, n);
      assert !bits[0];
      assert bits[1..] == LowBits(Half(w), n - 1);
      LowBitsZero(Half(w), n - 1);
      EvenHalfZero(w);
    }
  }

  lemma {:induction false} ByteFits(x: bv8, y: bv8)
    ensures ShiftByte(Xor(Word(x), Word(y))) == 0 && ShiftByte(Word(x)) == 0
    ensures Xor(Word(x), Word(y)) == 0 ==> x == y
  {
    assert (x as bv32 ^ y as bv32) >> 8 == 0;
  }

  lemma {:induction false} ByteBitsInjective(x: bv8, y: bv8)
    requires LowBits(Word(x), 8) == LowBits(Word(y), 8)
    ensures x == y
  {
    hide *;
    var w := Xor(Word(x), Word(y));
    LowBitsXor(Word(x), Word(y), 8);
    ByteFits(x, y);
    HalvesEight(w);
    assert AllFalse(LowBits(w, 8)) by { SameBits(LowBits(Word(x), 8)); }
    LowBitsZero(w, 8);
  }

  lemma {:induction false} SameBits(p: seq<bool>)
    ensures AllFalse(XorBits(p, p))
  {
  }

  lemma {:induction false} MessageBitsInjective(a: seq<bv8>, b: seq<bv8>)
    requires |a| == |b| && MessageBits(a) == MessageBits(b)
    ensures a == b
  {
    hide Word, LowBits;
    if a != [] {
      assert MessageBits(a)[..8] == LowBits(Word(a[0]), 8);
      assert MessageBits(b)[..8] == LowBits(Word(b[0]), 8);
      ByteBitsInjective(a[0], b[0]);
      assert MessageBits(a)[8..] == MessageBits(a[1..]);
      assert MessageBits(b)[8..] == MessageBits(b[1..]);
      MessageBitsInjective(a[1..], b[1..]);
    }
  }

  /** The bits in which two messages differ. */
  function Difference(a: seq<bv8>, b: seq<bv8>): (d: seq<bool>)
    requires |a| == |b|
    ensures |d| == 8 * |a|
  {
    XorBits(MessageBits(a), MessageBits(b))
  }

  /** Only the difference decides whether two checksums collide. */
  lemma {:induction false} ChecksumCollision(a: seq<bv8>, b: seq<bv8>)
    requires |a| == |b|
    ensures Checksum(a) == Checksum(b) <==> Register(0, Difference(a, b)) == 0
  {
    hide Xor, Register, MessageBits;
    var p, q := MessageBits(a), MessageBits(b);
    RegisterLinear(ALL_ONES, ALL_ONES, p, q);
    XorLaws(ALL_ONES, ALL_ONES);
    XorLaws(Register(ALL_ONES, p), Register(ALL_ONES, q));
    XorCancel(Register(ALL_ONES, p), Register(ALL_ONES, q), ALL_ONES);
  }

  lemma {:induction false} XorCancel(a: bv32, b: bv32, c: bv32)
    ensures Xor(a, c) == Xor(b, c) <==> a == b
  {
  }

  lemma {:induction false} DifferenceNonzero(a: seq<bv8>, b: seq<bv8>)
    requires |a| == |b| && a != b
    ensures !AllFalse(Difference(a, b))
  {
    hide MessageBits;
    if AllFalse(Difference(a, b)) {
      var p, q := MessageBits(a), MessageBits(b);
      assert forall i :: 0 <= i < |p| ==> !Difference(a, b)[i] && p[i] == q[i];
      assert p == q;
      MessageBitsInjective(a, b);
    }
  }

  /** Zero bits around a window do not decide whether the register ends at zero. */
  lemma {:induction false} RegisterWindow(d: seq<bool>, start: nat, end: nat)
    requires start <= end <= |d| && AllFalse(d[..start]) && AllFalse(d[end..])
    ensures Register(0, d) == 0 <==> Register(0, d[start..end]) == 0
  {
    hide Register, AllFalse;
    assert d == d[..start] + (d[start..end] + d[end..]);
    RegisterConcat(0, d[..start], d[start..end] + d[end..]);
    RegisterZeros(0, d[..start]);
    RegisterConcat(0, d[start..end], d[end..]);
    RegisterZeros(Register(0, d[start..end]), d[end..]);
  }

  ghost predicate DiffersOnlyWithin(a: seq<bv8>, b: seq<bv8>, start: nat, width: nat)
    requires |a| == |b|
  {
    forall i :: 0 <= i < 8 * |a| && Difference(a, b)[i] ==> start <= i < start + width
  }

  /** Two different messages of equal length that differ only within 32 consecutive bits have different checksums. */
  lemma {:induction false} BurstDetected(a: seq<bv8>, b: seq<bv8>, start: nat)
    requires |a| == |b| && a != b && DiffersOnlyWithin(a, b, start, 32)
    ensures Checksum(a) != Checksum(b)
  {
    hide Register, Checksum, Difference;
    DifferenceNonzero(a, b);
    ChecksumCollision(a, b);
    var d := Difference(a, b);
    var s := if start <= |d| then start else |d|;
    var e := if start + 32 <= |d| then start + 32 else |d|;
    RegisterWindow(d, s, e);
    assert !AllFalse(d[s..e]) by {
      var i :| 0 <= i < |d| && d[i];
      assert d[s..e][i - s];
    }
    ShortBurst(d[s..e]);
  }

  // ----- the shortest undetected error

  /** The generator as a 33-bit error pattern. */
  function Generator(): (g: seq<bool>)
    ensures |g| == 33
  {
    [true] + LowBits(POLY, 32)
  }

  /** Feeding the n low bits of a word is adding the word and shifting n times. */
  lemma {:induction false} FeedWord(c: bv32, w: bv32, n: nat)
    requires Halves(n, w) == 0
    ensures Register(c, LowBits(w, n)) == StepTimes(n, Xor(c, w))
    decreases n
  {
    hide Xor, Step, Half, IsOdd, OfBit;
    if n == 0 {
      XorLaws(c, 0);
    } else {
      var o := OfBit(IsOdd(w));
      var e := Xor(w, o);
      SplitLowBit(w);
      StepEven(e);
      StepXor(Xor(c, o), e);
      XorAssociative(c, o, e);
      assert LowBits(w, n)[1..] == LowBits(Half(w), n - 1);
      FeedWord(Step(Xor(c, o)), Half(w), n - 1);
    }
  }

  lemma {:induction false} HalvesMore(k: nat, m: nat, v: bv32)
    ensures Halves(k + m, v) == Halves(m, Halves(k, v))
    decreases k
  {
    hide Half;
    if k != 0 {
      HalvesMore(k - 1, m, Half(v));
    }
  }

  lemma {:induction false} WordFits(v: bv32)
    ensures Halves(32, v) == 0
  {
    hide *;
    var v1 := ShiftByte(v); var v2 := ShiftByte(v1); var v3 := ShiftByte(v2);
    HalvesMore(8, 24, v);
    HalvesEight(v);
    HalvesMore(8, 16, v1);
    HalvesEight(v1);
    HalvesMore(8, 8, v2);
    HalvesEight(v2);
    HalvesEight(v3);
    FourBytes(v);
  }

  lemma {:induction false} StepTimesZero(n: nat)
    ensures StepTimes(n, 0) == 0
  {
    hide Step;
    if n != 0 {
      StepZero(0);
      StepTimesZero(n - 1);
    }
  }

  lemma {:induction false} StepOne()
    ensures Step(Xor(0, OfBit(true))) == POLY
  {
  }

  lemma {:induction false} GeneratorUndetected()
    ensures Register(0, Generator()) == 0
  {
    hide Xor, Step, OfBit, LowBits, StepTimes;
    var g := Generator();
    assert g[1..] == LowBits(POLY, 32);
    StepOne();
    WordFits(POLY);
    FeedWord(POLY, POLY, 32);
    XorLaws(POLY, POLY);
    StepTimesZero(32);
  }

  /** Among the patterns of at most 33 bits that start with an error, only the generator goes unnoticed. */
  lemma {:induction false} OnlyGenerator(bits: seq<bool>)
    requires bits != [] && bits[0] && |bits| <= 33
    ensures Register(0, bits) == 0 <==> bits == Generator()
  {
    hide Xor, Register;
    GeneratorUndetected();
    if |bits| <= 32 {
      ShortBurst(bits);
    } else {
      var g := Generator();
      var d := XorBits(bits, g);
      RegisterLinear(0, 0, bits, g);
      XorLaws(0, 0);
      XorLaws(Register(0, bits), 0);
      RegisterWindow(d, 1, 33);
      if Register(0, bits) == 0 && bits != g {
        var i :| 0 <= i < 33 && bits[i] != g[i];
        assert d[1..33][i - 1];
        ShortBurst(d[1..33]);
      }
    }
  }

  /** Of all errors spanning at most 33 bits exactly those equal to the generator collide. */
  lemma {:induction false} BurstUpTo33(a: seq<bv8>, b: seq<bv8>, start: nat)
    requires |a| == |b| && start < 8 * |a| && Difference(a, b)[start] && DiffersOnlyWithin(a, b, start, 33)
    ensures Checksum(a) == Checksum(b)
            <==> start + 33 <= 8 * |a| && Difference(a, b)[start..start + 33] == Generator()
  {
    hide Register, Checksum, Difference, Generator;
    var d := Difference(a, b);
    var e := if start + 33 <= |d| then start + 33 else |d|;
    ChecksumCollision(a, b);
    RegisterWindow(d, start, e);
    OnlyGenerator(d[start..e]);
  }

  // ----- the table-driven code

  lemma {:induction false} StepTimesXor(n: nat, a: bv32, b: bv32)
    ensures StepTimes(n, Xor(a, b)) == Xor(StepTimes(n, a), StepTimes(n, b))
  {
    hide Xor, Step;
    if n != 0 {
      StepXor(a, b);
      StepTimesXor(n - 1, Step(a), Step(b));
    }
  }

  function LowByte(v: bv32): bv32 {
    v & 0xFF
  }

  function HighBytes(v: bv32): bv32 {
    v & 0xFFFFFF00
  }

  predicate Aligned(v: bv32) {
    v & 3 == 0
  }

  lemma {:induction false} StepTwice(k: nat, v: bv32)
    requires Aligned(v)
    ensures StepTimes(k + 2, v) == StepTimes(k, Quarter(v))
  {
    StepEven(v);
    StepEven(Half(v));
    assert Half(Half(v)) == Quarter(v);
    hide Half, Quarter, Step;
    assert StepTimes(k + 2, v) == StepTimes(k, Step(Step(v)));
  }

  lemma {:induction false} StepTimesNone(v: bv32)
    ensures StepTimes(0, v) == v
  {
  }

  lemma {:induction false} HighBytesAligned(v: bv32)
    ensures var h := HighBytes(v);
            Aligned(h) && Aligned(Quarter(h)) && Aligned(Quarter(Quarter(h))) && Aligned(Quarter(Quarter(Quarter(h))))
  {
  }

  /** Eight shifts of a word whose low byte is zero only move its bytes down. */
  lemma {:induction false} StepTimesHighBytes(v: bv32)
    ensures StepTimes(8, HighBytes(v)) == ShiftByte(HighBytes(v))
  {
    hide *;
    var h := HighBytes(v);
    HighBytesAligned(v);
    StepTimesNone(ShiftByte(h));
    StepTwice(6, h);
    StepTwice(4, Quarter(h));
    StepTwice(2, Quarter(Quarter(h)));
    StepTwice(0, Quarter(Quarter(Quarter(h))));
    FourQuarters(h);
  }

  lemma {:induction false} SplitBytes(crc: bv32, b: bv8)
    ensures var x := Xor(crc, Word(b));
            x == Xor(LowByte(x), HighBytes(x)) && ShiftByte(HighBytes(x)) == ShiftByte(crc)
  {
  }

  /** One table lookup does what feeding the eight bits of a byte does. */
  lemma {:induction false} TableStep(crc: bv32, b: bv8, entry: bv32)
    requires entry == StepTimes(8, LowByte(Xor(crc, Word(b))))
    ensures Xor(entry, ShiftByte(crc)) == Register(crc, LowBits(Word(b), 8))
  {
    hide *;
    var x := Xor(crc, Word(b));
    ByteFits(b, b);
    HalvesEight(Word(b));
    FeedWord(crc, Word(b), 8);
    SplitBytes(crc, b);
    StepTimesXor(8, LowByte(x), HighBytes(x));
    StepTimesHighBytes(x);
  }

  function TableEntry(i: nat): bv32
    requires i < 256
  {
    StepTimes(8, i as bv32)
  }

  ghost predicate IsTable(t: seq<bv32>) {
    |t| == 256 && forall i :: 0 <= i < 256 ==> t[i] == TableEntry(i)
  }

  method MakeTable() returns (t: array<bv32>)
    ensures fresh(t) && IsTable(t[..])
  {
    hide StepTimes, Step, TableEntry;
    t := new bv32[256];
    for i := 0 to 256
      invariant forall j :: 0 <= j < i ==> t[j] == TableEntry(j)
    {
      var c := MakeEntry(i);
      t[i] := c;
    }
  }

  method MakeEntry(i: nat) returns (c: bv32)
    requires i < 256
    ensures c == TableEntry(i)
  {
    hide Step;
    c := i as bv32;
    for k := 0 to 8
      invariant StepTimes(8 - k, c) == TableEntry(i)
    {
      StepBranches(c);
      if c & 1 == 1 {
        c := POLY ^ (c >> 1);
      } else {
        c := c >> 1;
      }
    }
  }

  lemma {:induction false} LowByteIndex(v: bv32)
    ensures LowByte(v) as int < 256
    ensures (LowByte(v) as int) as bv32 == LowByte(v)
  {
  }

  lemma {:induction false} LookUp(t: seq<bv32>, v: bv32)
    requires IsTable(t)
    ensures LowByte(v) as int < 256 && t[LowByte(v) as int] == StepTimes(8, LowByte(v))
  {
    hide LowByte, StepTimes;
    LowByteIndex(v);
  }

  /** The table-driven checksum is the bit-serial one. */
  method CvCrc32(table: array<bv32>, data: seq<bv8>) returns (crc: bv32)
    requires IsTable(table[..])
    ensures crc == Checksum(data)
  {
    hide Register, MessageBits, Xor, LowByte, ShiftByte, Word, IsTable, StepTimes;
    crc := ALL_ONES;
    assert data[0..] == data;
    for i := 0 to |data|
      invariant Register(crc, MessageBits(data[i..])) == Register(ALL_ONES, MessageBits(data))
    {
      var index := LowByte(Xor(crc, Word(data[i])));
      LookUp(table[..], Xor(crc, Word(data[i])));
      TableLength(table[..]);
      TableStep(crc, data[i], table[index as int]);
      RegisterByte(crc, data[i..]);
      assert data[i..][1..] == data[i + 1..];
      crc := Xor(table[index as int], ShiftByte(crc));
    }
    RegisterNothing(crc, data);
    crc := Xor(crc, ALL_ONES);
  }

  lemma {:induction false} TableLength(t: seq<bv32>)
    requires IsTable(t)
    ensures |t| == 256
  {
  }

  lemma {:induction false} RegisterByte(crc: bv32, data: seq<bv8>)
    requires data != []
    ensures Register(crc, MessageBits(data))
            == Register(Register(crc, LowBits(Word(data[0]), 8)), MessageBits(data[1..]))
  {
    hide Register, LowBits, Word;
    RegisterConcat(crc, LowBits(Word(data[0]), 8), MessageBits(data[1..]));
  }

  lemma {:induction false} RegisterNothing(crc: bv32, data: seq<bv8>)
    ensures Register(crc, MessageBits(data[|data|..])) == crc
  {
  }
}
