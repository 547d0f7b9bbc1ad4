/** M-of-N sharing of a 32-byte secret over GF(2^8): the `u8` code of the
    Shamir module, and what any quorum and any smaller set of shares determine. */
module Shamir {
  import opened Common
  import opened GaloisField
  import opened Interpolation

  const SECRET_LEN := 32

  datatype ShamirError =
    | DivisionByZero
    | ThresholdBelowTwo
    | TotalBelowThreshold
    | NoShares
    | ReservedIndex
    | DuplicateIndex(index: bv8)
    | FewerThanTwoShares

  datatype ShamirShare = ShamirShare(index: bv8, data: seq<bv8>)

  // ----- machine bytes

  function Xor(v: bv8, w: bv8): bv8 {
    v ^ w
  }

  lemma {:induction false} BitsXor(v: bv8, w: bv8)
    ensures Bits(Xor(v, w)) == Add(Bits(v), Bits(w))
  {
  }

  /** a & mask, where the mask is all ones when b is odd and zero otherwise. */
  function Masked(a: bv8, b: bv8): bv8 {
    a & (0 - (b & 1))
  }

  /** Shift left and fold the lost bit back in through 0x1B, without branching. */
  function Doubled(a: bv8): bv8 {
    (a << 1) ^ (0x1B & (0 - ((a >> 7) & 1)))
  }

  function Halved(b: bv8): bv8 {
    b >> 1
  }

  lemma {:induction false} BitsMasked(a: bv8, b: bv8)
    ensures Bits(Masked(a, b)) == Select(Bits(a), Bits(b).b0)
  {
  }

  lemma {:induction false} BitsDoubled(a: bv8)
    ensures Bits(Doubled(a)) == Xtime(Bits(a))
  {
  }

  lemma {:induction false} BitsHalved(b: bv8)
    ensures Coefficients(Bits(Halved(b))) == Coefficients(Bits(b))[1..] + [false]
  {
  }

  lemma {:induction false} BitsZero(v: bv8)
    ensures Bits(v) == ZERO <==> v == 0
    ensures Bits(1) == ONE
  {
    assert Bits(0) == ZERO;
    if Bits(v) == ZERO {
      BitsInjective(v, 0);
    }
  }

  function U8OfBits(b: Byte): bv8 {
    (if b.b0 then 1 else 0) | (if b.b1 then 2 else 0) | (if b.b2 then 4 else 0) | (if b.b3 then 8 else 0)
    | (if b.b4 then 16 else 0) | (if b.b5 then 32 else 0) | (if b.b6 then 64 else 0) | (if b.b7 then 128 else 0)
  }

  lemma {:induction false} BitsOfU8(b: Byte)
    ensures Bits(U8OfBits(b)) == b
  {
  }

  lemma {:induction false} CastSuccessor(v: bv8)
    requires v as int < 255
    ensures (v + 1) as int == v as int + 1
  {
    assert v != 255;
  }

  lemma {:induction false} CastReaches(n: nat) returns (v: bv8)
    requires n < 256
    ensures v as int == n
  {
    if n == 0 {
      v := 0;
    } else {
      var w := CastReaches(n - 1);
      CastSuccessor(w);
      v := w + 1;
    }
  }

  lemma {:induction false} CastBack(n: nat)
    requires n < 256
    ensures (n as bv8) as int == n
  {
    var v := CastReaches(n);
  }

  /** Distinct share numbers below 256 stay distinct as bytes. */
  lemma {:induction false} CastInjective(m: nat, n: nat)
    requires m < 256 && n < 256 && Bits(m as bv8) == Bits(n as bv8)
    ensures m == n
  {
    hide Bits;
    BitsInjective(m as bv8, n as bv8);
    CastBack(m);
    CastBack(n);
    assert (m as bv8) as int == (n as bv8) as int;
  }

  // ----- field operations

  /** After k rounds, p holds the terms of the product taken so far and a, b what is left to add. */
  ghost predicate PartialProduct(k: nat, p: bv8, a: bv8, b: bv8, product: Byte)
    requires k <= 8
  {
    Add(Bits(p), Times(Bits(a), Coefficients(Bits(b))[..8 - k])) == product
  }

  lemma {:induction false} PartialProductStart(a: bv8, b: bv8)
    ensures PartialProduct(0, 0, a, b, Mul(Bits(a), Bits(b)))
  {
    hide Add, Times;
    var cs := Coefficients(Bits(b));
    assert cs[..8] == cs;
    BitsZero(0);
    AddZero(Times(Bits(a), cs));
  }

  lemma {:induction false} PartialProductStep(k: nat, p: bv8, a: bv8, b: bv8, product: Byte)
    requires k < 8 && PartialProduct(k, p, a, b, product)
    ensures PartialProduct(k + 1, Xor(p, Masked(a, b)), Doubled(a), Halved(b), product)
  {
    hide Bits, Xor, Masked, Doubled, Halved, Add, Times, Coefficients;
    var rest := Coefficients(Bits(b))[..8 - k];
    FirstCoefficient(Bits(b));
    GfMulStep(p, a, b, rest);
    BitsHalved(b);
    assert Coefficients(Bits(Halved(b)))[..8 - (k + 1)] == rest[1..];
  }

  lemma {:induction false} PartialProductEnd(p: bv8, a: bv8, b: bv8, product: Byte)
    requires PartialProduct(8, p, a, b, product)
    ensures Bits(p) == product
  {
    AddZero(Bits(p));
  }

  method GfMul(a0: bv8, b0: bv8) returns (p: bv8)
    ensures Bits(p) == Mul(Bits(a0), Bits(b0))
  {
    hide *;
    var a, b := a0, b0;
    p := 0;
    PartialProductStart(a0, b0);
    for k := 0 to 8
      invariant PartialProduct(k, p, a, b, Mul(Bits(a0), Bits(b0)))
    {
      PartialProductStep(k, p, a, b, Mul(Bits(a0), Bits(b0)));
      p := Xor(p, Masked(a, b));
      a := Doubled(a);
      b := Halved(b);
    }
    PartialProductEnd(p, a, b, Mul(Bits(a0), Bits(b0)));
  }

  lemma {:induction false} FirstCoefficient(b: Byte)
    ensures Coefficients(b)[0] == b.b0
  {
  }

  lemma {:induction false} GfMulStep(p: bv8, a: bv8, b: bv8, cs: seq<bool>)
    requires cs != [] && cs[0] == Bits(b).b0
    ensures Add(Bits(Xor(p, Masked(a, b))), Times(Bits(Doubled(a)), cs[1..])) == Add(Bits(p), Times(Bits(a), cs))
  {
    hide Bits, Xor, Masked, Doubled, Add, Xtime, Select;
    BitsXor(p, Masked(a, b));
    BitsMasked(a, b);
    BitsDoubled(a);
    TimesXtime(Bits(a), cs[1..]);
    AddAssociative(Bits(p), Select(Bits(a), cs[0]), Xtime(Times(Bits(a), cs[1..])));
  }

  method GfInv(a: bv8) returns (r: Result<bv8, ShamirError>)
    ensures a == 0 ==> r == Err(DivisionByZero)
    ensures a != 0 ==> r.Ok? && Mul(Bits(a), Bits(r.value)) == ONE
  {
    hide *;
    if a == 0 {
      return Err(DivisionByZero);
    }
    BitsZero(a);
    ghost var g := Bits(a);
    var a2 := GfMul(a, a);
    PowerOne(g);
    PowerAdd(g, 1, 1);
    var a3 := GfMul(a2, a);
    PowerAdd(g, 2, 1);
    var a6 := GfMul(a3, a3);
    PowerAdd(g, 3, 3);
    var a7 := GfMul(a6, a);
    PowerAdd(g, 6, 1);
    var a14 := GfMul(a7, a7);
    PowerAdd(g, 7, 7);
    var a15 := GfMul(a14, a);
    PowerAdd(g, 14, 1);
    var a30 := GfMul(a15, a15);
    PowerAdd(g, 15, 15);
    var a31 := GfMul(a30, a);
    PowerAdd(g, 30, 1);
    var a62 := GfMul(a31, a31);
    PowerAdd(g, 31, 31);
    var a63 := GfMul(a62, a);
    PowerAdd(g, 62, 1);
    var a126 := GfMul(a63, a63);
    PowerAdd(g, 63, 63);
    var a127 := GfMul(a126, a);
    PowerAdd(g, 126, 1);
    var a254 := GfMul(a127, a127);
    PowerAdd(g, 127, 127);
    InversePower(g);
    return Ok(a254);
  }

  method GfDiv(a: bv8, b: bv8) returns (r: Result<bv8, ShamirError>)
    ensures b == 0 ==> r == Err(DivisionByZero)
    ensures b != 0 ==> r.Ok? && Mul(Bits(r.value), Bits(b)) == Bits(a)
  {
    if b == 0 {
      return Err(DivisionByZero);
    }
    BitsZero(a);
    if a == 0 {
      MulUnits(Bits(b));
      BitsZero(0);
      return Ok(0);
    }
    var inverse := GfInv(b);
    hide *;
    var q := GfMul(a, inverse.value);
    MulAssociative(Bits(a), Bits(inverse.value), Bits(b));
    MulCommutative(Bits(inverse.value), Bits(b));
    MulUnits(Bits(a));
    return Ok(q);
  }

  lemma {:induction false} QuotientIsProduct(q: Byte, a: Byte, b: Byte)
    requires b != ZERO && Mul(q, b) == a
    ensures q == Mul(a, Inverse(b))
  {
    hide *;
    MulAssociative(q, b, Inverse(b));
    MulUnits(q);
  }

  function AllBits(s: seq<bv8>): (f: Poly8)
    ensures |f| == |s|
    ensures forall i :: 0 <= i < |s| ==> f[i] == Bits(s[i])
  {
    seq(|s|, i requires 0 <= i < |s| => Bits(s[i]))
  }

  method GfPolyEval(coefficients: seq<bv8>, x: bv8) returns (result: bv8)
    ensures Bits(result) == Eval(AllBits(coefficients), Bits(x))
  {
    hide *;
    result := 0;
    HornerStart(coefficients, x);
    for i := |coefficients| downto 0
      invariant Bits(result) == Eval(AllBits(coefficients[i..]), Bits(x))
    {
      var product := GfMul(result, x);
      HornerStep(coefficients[i..], x, result, product);
      assert coefficients[i..][1..] == coefficients[i + 1..];
      result := Xor(product, coefficients[i]);
    }
    assert coefficients[0..] == coefficients;
  }

  lemma {:induction false} HornerStart(coefficients: seq<bv8>, x: bv8)
    ensures Bits(0) == Eval(AllBits(coefficients[|coefficients|..]), Bits(x))
  {
    BitsZero(0);
  }

  lemma {:induction false} HornerStep(cs: seq<bv8>, x: bv8, result: bv8, product: bv8)
    requires cs != [] && Bits(result) == Eval(AllBits(cs[1..]), Bits(x))
    requires Bits(product) == Mul(Bits(result), Bits(x))
    ensures Bits(Xor(product, cs[0])) == Eval(AllBits(cs), Bits(x))
  {
    hide Bits, Xor, Add, Mul;
    assert AllBits(cs)[1..] == AllBits(cs[1..]);
    BitsXor(product, cs[0]);
    MulCommutative(Bits(result), Bits(x));
    AddCommutative(Bits(product), Bits(cs[0]));
  }

  // ----- splitting

  /** The byte of the share at x, for one secret byte and its random coefficients. */
  function ShareByte(secret: bv8, random: seq<bv8>, x: bv8): bv8 {
    U8OfBits(Eval(AllBits([secret] + random), Bits(x)))
  }

  predicate ValidRandom(random: seq<seq<bv8>>, threshold: nat) {
    |random| == SECRET_LEN && forall b :: 0 <= b < SECRET_LEN ==> |random[b]| + 1 == threshold
  }

  function ShareAt(secret: seq<bv8>, random: seq<seq<bv8>>, x: bv8): (data: seq<bv8>)
    requires |secret| == |random| == SECRET_LEN
    ensures |data| == SECRET_LEN
    ensures forall b :: 0 <= b < SECRET_LEN ==> data[b] == ShareByte(secret[b], random[b], x)
  {
    seq(SECRET_LEN, b requires 0 <= b < SECRET_LEN => ShareByte(secret[b], random[b], x))
  }

  /** The evaluation point of the share at position i. */
  function Point(i: nat): bv8
    requires i < 255
  {
    (i + 1) as bv8
  }

  function ShareOf(secret: seq<bv8>, random: seq<seq<bv8>>, i: nat): ShamirShare
    requires |secret| == |random| == SECRET_LEN && i < 255
  {
    ShamirShare(Point(i), ShareAt(secret, random, Point(i)))
  }

  /** All the shares of a secret: share number n is the value of the polynomials at n. */
  function Split(secret: seq<bv8>, random: seq<seq<bv8>>, total: nat): (shares: seq<ShamirShare>)
    requires |secret| == |random| == SECRET_LEN && total < 256
    ensures |shares| == total
  {
    seq(total, i requires 0 <= i < total => ShareOf(secret, random, i))
  }

  function ShareNumber(share: ShamirShare): nat {
    share.index as int
  }

  /** Byte b of the share is the value of the polynomial with these coefficients at the share's index. */
  ghost predicate HoldsValue(share: ShamirShare, b: nat, coefficients: seq<bv8>)
    requires b < |share.data|
  {
    Bits(share.data[b]) == Eval(AllBits(coefficients), Bits(share.index))
  }

  /** The share at position i has number i + 1 and holds, byte by byte, the values of the polynomials there. */
  lemma {:induction false} ShareMeaning(secret: seq<bv8>, random: seq<seq<bv8>>, i: nat)
    requires |secret| == |random| == 32 && i < 255
    ensures ShareNumber(ShareOf(secret, random, i)) == i + 1 && |ShareOf(secret, random, i).data| == 32
    ensures forall b :: 0 <= b < 32 ==> HoldsValue(ShareOf(secret, random, i), b, [secret[b]] + random[b])
  {
    CastBack(i + 1);
    var share := ShareOf(secret, random, i);
    hide Bits, Eval, ShareByte, AllBits;
    forall b | 0 <= b < 32 ensures HoldsValue(share, b, [secret[b]] + random[b]) {
      ShareByteBits(secret[b], random[b], share.index);
    }
  }

  method SplitSecret(secret: seq<bv8>, threshold: nat, total: nat, random: seq<seq<bv8>>)
    returns (r: Result<seq<ShamirShare>, ShamirError>)
    requires |secret| == SECRET_LEN && threshold < 256 && total < 256
    requires threshold >= 2 ==> ValidRandom(random, threshold)
    ensures threshold < 2 ==> r == Err(ThresholdBelowTwo)
    ensures threshold >= 2 && total < threshold ==> r == Err(TotalBelowThreshold)
    ensures 2 <= threshold <= total ==> r == Ok(Split(secret, random, total))
    ensures r.Ok? ==> |r.value| == total && forall i :: 0 <= i < total ==>
      && ShareNumber(r.value[i]) == i + 1 && |r.value[i].data| == 32
      && forall b :: 0 <= b < 32 ==> HoldsValue(r.value[i], b, [secret[b]] + random[b])
  {
    if threshold < 2 {
      return Err(ThresholdBelowTwo);
    }
    if total < threshold {
      return Err(TotalBelowThreshold);
    }
    hide ShareByte, Point;
    var sharesData := new bv8[total, SECRET_LEN];
    for byteIdx := 0 to SECRET_LEN
      invariant forall i, b :: 0 <= i < total && 0 <= b < byteIdx ==>
        sharesData[i, b] == ShareByte(secret[b], random[b], Point(i))
    {
      EvaluateShares(sharesData, byteIdx, secret[byteIdx], random[byteIdx]);
    }
    var shares: seq<ShamirShare> := [];
    for i := 0 to total
      invariant |shares| == i
      invariant forall k :: 0 <= k < i ==> shares[k] == ShareOf(secret, random, k)
    {
      var data := seq(SECRET_LEN, b requires 0 <= b < SECRET_LEN reads sharesData => sharesData[i, b]);
      assert data == ShareAt(secret, random, Point(i));
      shares := shares + [ShamirShare(Point(i), data)];
    }
    assert shares == Split(secret, random, total);
    hide ShareNumber, HoldsValue;
    forall i | 0 <= i < total
      ensures ShareNumber(shares[i]) == i + 1 && |shares[i].data| == 32
      ensures forall b :: 0 <= b < 32 ==> HoldsValue(shares[i], b, [secret[b]] + random[b])
    {
      ShareMeaning(secret, random, i);
    }
    return Ok(shares);
  }

  /** Evaluates one byte's polynomial at every share's point, into that byte of each share. */
  method EvaluateShares(sharesData: array2<bv8>, byteIdx: nat, secret: bv8, random: seq<bv8>)
    requires sharesData.Length0 < 256 && byteIdx < sharesData.Length1
    modifies sharesData
    ensures forall i :: 0 <= i < sharesData.Length0 ==>
      sharesData[i, byteIdx] == ShareByte(secret, random, Point(i))
    ensures forall i, b :: 0 <= i < sharesData.Length0 && 0 <= b < sharesData.Length1 && b != byteIdx ==>
      sharesData[i, b] == old(sharesData[i, b])
  {
    hide *;
    var poly := [secret] + random;
    for shareIdx := 0 to sharesData.Length0
      invariant forall i :: 0 <= i < shareIdx ==> sharesData[i, byteIdx] == ShareByte(secret, random, Point(i))
      invariant forall i, b :: 0 <= i < sharesData.Length0 && 0 <= b < sharesData.Length1 && b != byteIdx ==>
        sharesData[i, b] == old(sharesData[i, b])
    {
      var x := Point(shareIdx);
      var y := GfPolyEval(poly, x);
      ShareByteValue(secret, random, x, y);
      sharesData[shareIdx, byteIdx] := y;
    }
  }

  lemma {:induction false} ShareByteValue(secret: bv8, random: seq<bv8>, x: bv8, y: bv8)
    requires Bits(y) == Eval(AllBits([secret] + random), Bits(x))
    ensures y == ShareByte(secret, random, x)
  {
    hide Bits, U8OfBits, Eval;
    BitsOfU8(Bits(y));
    BitsInjective(y, U8OfBits(Bits(y)));
  }

  // ----- reconstruction

  predicate WellFormed(shares: seq<ShamirShare>) {
    forall i :: 0 <= i < |shares| ==> |shares[i].data| == SECRET_LEN
  }

  function Points(shares: seq<ShamirShare>): (xs: seq<Byte>)
    ensures |xs| == |shares|
    ensures forall i :: 0 <= i < |xs| ==> xs[i] == Bits(shares[i].index)
  {
    seq(|shares|, i requires 0 <= i < |shares| => Bits(shares[i].index))
  }

  function Column(shares: seq<ShamirShare>, b: nat): (ys: seq<Byte>)
    requires WellFormed(shares) && b < SECRET_LEN
    ensures |ys| == |shares|
    ensures forall i :: 0 <= i < |ys| ==> ys[i] == Bits(shares[i].data[b])
  {
    seq(|shares|, i requires 0 <= i < |shares| => Bits(shares[i].data[b]))
  }

  /** The first thing wrong with the indices of the first n shares, in order. */
  function IndexFault(shares: seq<ShamirShare>, n: nat): Option<ShamirError>
    requires n <= |shares|
  {
    if n == 0 then None
    else if IndexFault(shares, n - 1).Some? then IndexFault(shares, n - 1)
    else if shares[n - 1].index == 0 then Some(ReservedIndex)
    else if exists i :: 0 <= i < n - 1 && shares[i].index == shares[n - 1].index then
      Some(DuplicateIndex(shares[n - 1].index))
    else None
  }

  function CombineFault(shares: seq<ShamirShare>): Option<ShamirError> {
    if shares == [] then Some(NoShares)
    else if IndexFault(shares, |shares|).Some? then IndexFault(shares, |shares|)
    else if |shares| < 2 then Some(FewerThanTwoShares)
    else None
  }

  ghost predicate GoodIndices(shares: seq<ShamirShare>, n: nat)
    requires n <= |shares|
  {
    && (forall i :: 0 <= i < n ==> shares[i].index != 0)
    && (forall i, j :: 0 <= i < j < n ==> shares[i].index != shares[j].index)
  }

  lemma {:induction false} IndexFaultNone(shares: seq<ShamirShare>, n: nat)
    requires n <= |shares|
    ensures IndexFault(shares, n) == None <==> GoodIndices(shares, n)
  {
    if n != 0 {
      IndexFaultNone(shares, n - 1);
    }
  }

  /** Reconstruction is refused exactly for fewer than two shares, a zero index or a repeated one. */
  lemma {:induction false} CombineFaultNone(shares: seq<ShamirShare>)
    ensures CombineFault(shares) == None <==> |shares| >= 2 && GoodIndices(shares, |shares|)
  {
    hide IndexFault, GoodIndices;
    IndexFaultNone(shares, |shares|);
  }

  lemma {:induction false} PointsDistinct(shares: seq<ShamirShare>)
    requires GoodIndices(shares, |shares|)
    ensures Distinct(Points(shares))
  {
    hide Bits;
    var xs := Points(shares);
    forall i, j | 0 <= i < j < |xs| ensures xs[i] != xs[j] {
      if xs[i] == xs[j] {
        BitsInjective(shares[i].index, shares[j].index);
      }
    }
  }

  /** The secret bytes are the Lagrange sums of the shares at zero. */
  ghost predicate Reconstructs(shares: seq<ShamirShare>, secret: seq<bv8>)
    requires WellFormed(shares) && Distinct(Points(shares))
  {
    && |secret| == SECRET_LEN
    && forall b :: 0 <= b < SECRET_LEN ==>
         Bits(secret[b]) == LagrangeAt(Points(shares), Column(shares, b), |shares|, ZERO)
  }

  method CombineShares(shares: seq<ShamirShare>) returns (r: Result<seq<bv8>, ShamirError>)
    requires WellFormed(shares)
    ensures CombineFault(shares).Some? ==> r == Err(CombineFault(shares).value)
    ensures CombineFault(shares) == None ==>
      r.Ok? && Distinct(Points(shares)) && Reconstructs(shares, r.value)
  {
    hide Bits, IndexFault, GoodIndices, WellFormed, Distinct, Points, Column, LagrangeAt, BasisAt, Reconstructs;
    if shares == [] {
      return Err(NoShares);
    }
    var fault := CheckIndices(shares);
    if fault.Some? {
      return Err(fault.value);
    }
    if |shares| < 2 {
      return Err(FewerThanTwoShares);
    }
    CombineFaultNone(shares);
    PointsDistinct(shares);
    var weights := Weights(shares);
    var secret: seq<bv8> := [];
    for b := 0 to SECRET_LEN
      invariant |secret| == b
      invariant forall k :: 0 <= k < b ==>
        Bits(secret[k]) == LagrangeAt(Points(shares), Column(shares, k), |shares|, ZERO)
    {
      var acc := Accumulate(shares, weights, b);
      secret := secret + [acc];
    }
    ReconstructsIntro(shares, secret);
    return Ok(secret);
  }

  lemma {:induction false} ReconstructsIntro(shares: seq<ShamirShare>, secret: seq<bv8>)
    requires WellFormed(shares) && Distinct(Points(shares)) && |secret| == SECRET_LEN
    requires forall b :: 0 <= b < SECRET_LEN ==>
      Bits(secret[b]) == LagrangeAt(Points(shares), Column(shares, b), |shares|, ZERO)
    ensures Reconstructs(shares, secret)
  {
    hide Bits, LagrangeAt;
  }

  method CheckIndices(shares: seq<ShamirShare>) returns (fault: Option<ShamirError>)
    ensures fault == IndexFault(shares, |shares|)
  {
    var seen: set<bv8> := {};
    for n := 0 to |shares|
      invariant IndexFault(shares, n) == None
      invariant forall x :: x in seen <==> exists i :: 0 <= i < n && shares[i].index == x
    {
      var index := shares[n].index;
      if index == 0 {
        FaultPersists(shares, n + 1, |shares|);
        return Some(ReservedIndex);
      }
      if index in seen {
        FaultPersists(shares, n + 1, |shares|);
        return Some(DuplicateIndex(index));
      }
      seen := seen + {index};
    }
    return None;
  }

  lemma {:induction false} FaultPersists(shares: seq<ShamirShare>, m: nat, n: nat)
    requires m <= n <= |shares| && IndexFault(shares, m).Some?
    ensures IndexFault(shares, n) == IndexFault(shares, m)
  {
    if m < n {
      FaultPersists(shares, m, n - 1);
    }
  }

  /** Which refusal: none at all first, then the first share whose index is zero or already used, then too few. */
  lemma {:induction false} CombineFaultMeaning(shares: seq<ShamirShare>, i: nat)
    ensures shares == [] ==> CombineFault(shares) == Some(NoShares)
    ensures i < |shares| && GoodIndices(shares, i) && shares[i].index == 0 ==>
      CombineFault(shares) == Some(ReservedIndex)
    ensures i < |shares| && GoodIndices(shares, i) && shares[i].index != 0
            && (exists j :: 0 <= j < i && shares[j].index == shares[i].index) ==>
      CombineFault(shares) == Some(DuplicateIndex(shares[i].index))
    ensures |shares| == 1 && shares[0].index != 0 ==> CombineFault(shares) == Some(FewerThanTwoShares)
  {
    IndexFaultNone(shares, |shares|);
    if i < |shares| && GoodIndices(shares, i) {
      IndexFaultNone(shares, i);
      if IndexFault(shares, i + 1).Some? {
        FaultPersists(shares, i + 1, |shares|);
      }
    }
  }

  /** One weight per share: its Lagrange basis polynomial at zero. */
  method Weights(shares: seq<ShamirShare>) returns (weights: seq<bv8>)
    requires GoodIndices(shares, |shares|) && Distinct(Points(shares))
    ensures |weights| == |shares|
    ensures forall j :: 0 <= j < |shares| ==> Bits(weights[j]) == BasisAt(Points(shares), j, |shares|, ZERO)
  {
    hide *;
    weights := [];
    for j := 0 to |shares|
      invariant |weights| == j
      invariant forall i :: 0 <= i < j ==> Bits(weights[i]) == BasisAt(Points(shares), i, |shares|, ZERO)
    {
      var w := Weight(shares, j);
      weights := weights + [w];
    }
  }

  method Weight(shares: seq<ShamirShare>, j: nat) returns (w: bv8)
    requires j < |shares| && GoodIndices(shares, |shares|) && Distinct(Points(shares))
    ensures Bits(w) == BasisAt(Points(shares), j, |shares|, ZERO)
  {
    hide Bits, Xor, Mul, Add, BasisAt, GoodIndices;
    ghost var xs := Points(shares);
    w := 1;
    BitsZero(1);
    BasisAtNone(xs, j);
    for k := 0 to |shares|
      invariant Bits(w) == BasisAt(xs, j, k, ZERO)
    {
      if k == j {
        BasisAtSkip(xs, j);
        continue;
      }
      var xj, xk := shares[j].index, shares[k].index;
      var denom := Xor(xj, xk);
      BitsXor(xj, xk);
      AddCancel(xs[j], xs[k]);
      BitsZero(denom);
      var factor := GfDiv(xk, denom);
      var w' := GfMul(w, factor.value);
      BasisAtStep(xs, j, k, Bits(factor.value), Bits(w));
      w := w';
    }
  }

  lemma {:induction false} BasisAtNone(xs: seq<Byte>, j: nat)
    requires j < |xs| && Distinct(xs)
    ensures BasisAt(xs, j, 0, ZERO) == ONE
  {
  }

  lemma {:induction false} BasisAtSkip(xs: seq<Byte>, j: nat)
    requires j < |xs| && Distinct(xs)
    ensures BasisAt(xs, j, j + 1, ZERO) == BasisAt(xs, j, j, ZERO)
  {
  }

  lemma {:induction false} BasisAtStep(xs: seq<Byte>, j: nat, k: nat, factor: Byte, w: Byte)
    requires j < |xs| && k < |xs| && j != k && Distinct(xs)
    requires Mul(factor, Add(xs[j], xs[k])) == xs[k]
    requires w == BasisAt(xs, j, k, ZERO)
    ensures Mul(w, factor) == BasisAt(xs, j, k + 1, ZERO)
  {
    hide Add, Mul, Inverse;
    AddCancel(xs[j], xs[k]);
    AddZero(xs[k]);
    QuotientIsProduct(factor, xs[k], Add(xs[j], xs[k]));
  }

  method Accumulate(shares: seq<ShamirShare>, weights: seq<bv8>, b: nat) returns (acc: bv8)
    requires WellFormed(shares) && Distinct(Points(shares)) && |weights| == |shares| && b < SECRET_LEN
    requires forall j :: 0 <= j < |shares| ==> Bits(weights[j]) == BasisAt(Points(shares), j, |shares|, ZERO)
    ensures Bits(acc) == LagrangeAt(Points(shares), Column(shares, b), |shares|, ZERO)
  {
    hide Bits, Xor, Mul, Add, BasisAt;
    ghost var xs, ys := Points(shares), Column(shares, b);
    acc := 0;
    BitsZero(0);
    for j := 0 to |shares|
      invariant Bits(acc) == LagrangeAt(xs, ys, j, ZERO)
    {
      var term := GfMul(shares[j].data[b], weights[j]);
      BitsXor(acc, term);
      acc := Xor(acc, term);
    }
  }

  // ----- what a set of shares determines

  /** Positions of distinct shares among the first `total`. */
  ghost predicate Selection(picks: seq<nat>, total: nat) {
    && (forall i :: 0 <= i < |picks| ==> picks[i] < total)
    && (forall i, j :: 0 <= i < j < |picks| ==> picks[i] != picks[j])
  }

  function Pick(shares: seq<ShamirShare>, picks: seq<nat>): seq<ShamirShare>
    requires forall i :: 0 <= i < |picks| ==> picks[i] < |shares|
  {
    seq(|picks|, i requires 0 <= i < |picks| => shares[picks[i]])
  }

  lemma {:induction false} PointFacts(i: nat, j: nat)
    requires i < 255 && j < 255
    ensures Point(i) != 0 && Bits(Point(i)) != ZERO
    ensures i != j ==> Point(i) != Point(j) && Bits(Point(i)) != Bits(Point(j))
  {
    hide Bits;
    assert Bits(0 as bv8) == ZERO by { BitsZero(0); }
    if Bits(Point(i)) == ZERO {
      CastInjective(i + 1, 0);
    }
    if i != j && Bits(Point(i)) == Bits(Point(j)) {
      CastInjective(i + 1, j + 1);
    }
  }

  lemma {:induction false} PickIsGood(secret: seq<bv8>, random: seq<seq<bv8>>, total: nat, picks: seq<nat>)
    requires |secret| == |random| == SECRET_LEN && total < 256 && Selection(picks, total)
    ensures var chosen := Pick(Split(secret, random, total), picks);
            WellFormed(chosen) && GoodIndices(chosen, |chosen|) && Distinct(Points(chosen))
  {
    hide Bits, Point, ShareByte;
    var chosen := Pick(Split(secret, random, total), picks);
    forall i | 0 <= i < |chosen| ensures chosen[i].index != 0 {
      PointFacts(picks[i], 0);
    }
    forall i, j | 0 <= i < j < |chosen| ensures chosen[i].index != chosen[j].index {
      PointFacts(picks[i], picks[j]);
    }
    PointsDistinct(chosen);
  }

  /** Any M or more distinct shares, in any order, reconstruct the secret and nothing else. */
  lemma {:induction false} AnyQuorumRecovers(secret: seq<bv8>, random: seq<seq<bv8>>, threshold: nat, total: nat,
                                             picks: seq<nat>)
    requires |secret| == SECRET_LEN && ValidRandom(random, threshold) && 2 <= threshold <= total < 256
    requires Selection(picks, total) && |picks| >= threshold
    ensures var chosen := Pick(Split(secret, random, total), picks);
            && WellFormed(chosen) && CombineFault(chosen) == None && Distinct(Points(chosen))
            && forall out :: Reconstructs(chosen, out) ==> out == secret
  {
    hide Split, Pick, Reconstructs, GoodIndices, CombineFault;
    var chosen := Pick(Split(secret, random, total), picks);
    PickIsGood(secret, random, total, picks);
    CombineFaultNone(chosen);
    PickLength(Split(secret, random, total), picks);
    forall out | Reconstructs(chosen, out) ensures out == secret {
      QuorumOutput(secret, random, threshold, total, picks, out);
    }
  }

  lemma {:induction false} PickLength(shares: seq<ShamirShare>, picks: seq<nat>)
    requires forall i :: 0 <= i < |picks| ==> picks[i] < |shares|
    ensures |Pick(shares, picks)| == |picks|
  {
  }

  lemma {:induction false} QuorumOutput(secret: seq<bv8>, random: seq<seq<bv8>>, threshold: nat, total: nat,
                                        picks: seq<nat>, out: seq<bv8>)
    requires |secret| == SECRET_LEN && ValidRandom(random, threshold) && 2 <= threshold <= total < 256
    requires Selection(picks, total) && |picks| >= threshold
    requires var chosen := Pick(Split(secret, random, total), picks);
             WellFormed(chosen) && Distinct(Points(chosen)) && Reconstructs(chosen, out)
    ensures out == secret
  {
    hide Bits, Point, ShareByte, Eval, LagrangeAt, Distinct;
    var chosen := Pick(Split(secret, random, total), picks);
    forall b | 0 <= b < SECRET_LEN ensures out[b] == secret[b] {
      var f := AllBits([secret[b]] + random[b]);
      var xs, ys := Points(chosen), Column(chosen, b);
      forall i | 0 <= i < |xs| ensures ys[i] == Eval(f, xs[i]) {
        ShareByteBits(secret[b], random[b], Point(picks[i]));
      }
      LagrangeRecovers(f, xs, ys, ZERO);
      EvalAtZero(f);
      BitsInjective(out[b], secret[b]);
    }
  }

  lemma {:induction false} ShareByteBits(secret: bv8, random: seq<bv8>, x: bv8)
    ensures Bits(ShareByte(secret, random, x)) == Eval(AllBits([secret] + random), Bits(x))
  {
    hide Bits, U8OfBits, Eval;
    BitsOfU8(Eval(AllBits([secret] + random), Bits(x)));
  }

  // ----- fewer than M shares

  function AllBytes(f: Poly8): (s: seq<bv8>)
    ensures |s| == |f|
    ensures forall i :: 0 <= i < |f| ==> s[i] == U8OfBits(f[i])
  {
    seq(|f|, i requires 0 <= i < |f| => U8OfBits(f[i]))
  }

  lemma {:induction false} AllBitsOfAllBytes(f: Poly8)
    ensures AllBits(AllBytes(f)) == f
  {
    hide Bits, U8OfBits;
    forall i | 0 <= i < |f| ensures Bits(U8OfBits(f[i])) == f[i] {
      BitsOfU8(f[i]);
    }
  }

  lemma {:induction false} AllBitsCons(v: bv8, s: seq<bv8>)
    ensures AllBits([v] + s) == [Bits(v)] + AllBits(s)
  {
    hide Bits;
  }

  lemma {:induction false} AllBitsInjective(s: seq<bv8>, t: seq<bv8>)
    requires AllBits(s) == AllBits(t)
    ensures s == t
  {
    hide Bits;
    assert |s| == |AllBits(s)| == |t|;
    forall i | 0 <= i < |s| ensures s[i] == t[i] {
      assert AllBits(s)[i] == AllBits(t)[i];
      BitsInjective(s[i], t[i]);
    }
  }

  ghost predicate UsablePoints(xs: seq<bv8>) {
    && (forall i :: 0 <= i < |xs| ==> Bits(xs[i]) != ZERO)
    && Distinct(AllBits(xs))
  }

  /** For any secret byte, M-1 share bytes are explained by exactly one choice of coefficients. */
  lemma {:induction false} ExactlyOneFitsByte(secret: bv8, xs: seq<bv8>, ys: seq<bv8>) returns (random: seq<bv8>)
    requires UsablePoints(xs) && |ys| == |xs|
    ensures |random| == |xs|
    ensures forall i :: 0 <= i < |xs| ==> ShareByte(secret, random, xs[i]) == ys[i]
    ensures forall other: seq<bv8> | |other| == |xs|
              && forall i :: 0 <= i < |xs| ==> ShareByte(secret, other, xs[i]) == ys[i] :: other == random
  {
    hide Bits, U8OfBits, Eval, ShareByte, AllBits, AllBytes, Distinct;
    var px, py := [ZERO] + AllBits(xs), [Bits(secret)] + AllBits(ys);
    assert Distinct(px) by { ZeroIsNew(xs); }
    var f := InterpolationExists(px, py);
    random := InterpolantAsBytes(secret, f, px, py);
    forall i | 0 <= i < |xs| ensures ShareByte(secret, random, xs[i]) == ys[i] {
      ShareByteBits(secret, random, xs[i]);
      assert Eval(f, px[i + 1]) == py[i + 1];
      BitsInjective(ShareByte(secret, random, xs[i]), ys[i]);
    }
    forall other: seq<bv8> | |other| == |xs| && forall i :: 0 <= i < |xs| ==> ShareByte(secret, other, xs[i]) == ys[i]
      ensures other == random
    {
      FitIsInterpolant(secret, xs, ys, other, px, py);
      AllBitsInjective([secret] + other, [secret] + random);
      assert ([secret] + other)[1..] == other && ([secret] + random)[1..] == random;
    }
  }

  lemma {:induction false} ZeroIsNew(xs: seq<bv8>)
    requires UsablePoints(xs)
    ensures Distinct([ZERO] + AllBits(xs))
  {
    hide Bits;
  }

  lemma {:induction false} InterpolantAsBytes(secret: bv8, f: Poly8, px: seq<Byte>, py: seq<Byte>)
    returns (random: seq<bv8>)
    requires |f| == |px| == |py| > 0 && px[0] == ZERO && py[0] == Bits(secret)
    requires Eval(f, px[0]) == py[0]
    ensures |random| == |f| - 1 && AllBits([secret] + random) == f
  {
    hide Bits, U8OfBits, Eval;
    EvalAtZero(f);
    random := AllBytes(f[1..]);
    AllBitsOfAllBytes(f[1..]);
    AllBitsCons(secret, random);
    assert [f[0]] + f[1..] == f;
  }

  lemma {:induction false} FitIsInterpolant(secret: bv8, xs: seq<bv8>, ys: seq<bv8>, other: seq<bv8>, px: seq<Byte>,
                                            py: seq<Byte>)
    requires |ys| == |xs| == |other|
    requires px == [ZERO] + AllBits(xs) && py == [Bits(secret)] + AllBits(ys)
    requires forall i :: 0 <= i < |xs| ==> ShareByte(secret, other, xs[i]) == ys[i]
    ensures forall i :: 0 <= i < |px| ==> Eval(AllBits([secret] + other), px[i]) == py[i]
  {
    hide Bits, Eval, ShareByte;
    var g := AllBits([secret] + other);
    EvalAtZero(g);
    forall i | 0 <= i < |px| ensures Eval(g, px[i]) == py[i] {
      if i != 0 {
        ShareByteBits(secret, other, xs[i - 1]);
      }
    }
  }

  function PickPoints(picks: seq<nat>): (xs: seq<bv8>)
    requires forall i :: 0 <= i < |picks| ==> picks[i] < 255
    ensures |xs| == |picks|
    ensures forall i :: 0 <= i < |xs| ==> xs[i] == Point(picks[i])
  {
    seq(|picks|, i requires 0 <= i < |picks| => Point(picks[i]))
  }

  lemma {:induction false} PickPointsUsable(picks: seq<nat>)
    requires Selection(picks, 255)
    ensures UsablePoints(PickPoints(picks))
  {
    hide Bits, Point;
    var xs := PickPoints(picks);
    forall i | 0 <= i < |xs| ensures Bits(xs[i]) != ZERO {
      PointFacts(picks[i], 0);
    }
    forall i, j | 0 <= i < j < |xs| ensures AllBits(xs)[i] != AllBits(xs)[j] {
      PointFacts(picks[i], picks[j]);
    }
  }

  /** The shares at the picked positions carry exactly this data. */
  ghost predicate Explains(secret: seq<bv8>, random: seq<seq<bv8>>, picks: seq<nat>, data: seq<seq<bv8>>)
    requires |secret| == |random| == SECRET_LEN && Selection(picks, 255) && |data| == |picks|
  {
    forall i :: 0 <= i < |picks| ==> data[i] == ShareAt(secret, random, Point(picks[i]))
  }

  ghost predicate FitsByte(secret: bv8, picks: seq<nat>, data: seq<seq<bv8>>, b: nat, c: seq<bv8>)
    requires Selection(picks, 255) && |data| == |picks| && b < SECRET_LEN
    requires forall i :: 0 <= i < |data| ==> |data[i]| == SECRET_LEN
  {
    |c| == |picks| && forall i :: 0 <= i < |picks| ==> ShareByte(secret, c, Point(picks[i])) == data[i][b]
  }

  lemma {:induction false} OnlyFit(secret: bv8, picks: seq<nat>, data: seq<seq<bv8>>, b: nat) returns (c: seq<bv8>)
    requires Selection(picks, 255) && |data| == |picks| && b < SECRET_LEN
    requires forall i :: 0 <= i < |data| ==> |data[i]| == SECRET_LEN
    ensures FitsByte(secret, picks, data, b, c)
    ensures forall other | FitsByte(secret, picks, data, b, other) :: other == c
  {
    hide Point, ShareByte, UsablePoints;
    PickPointsUsable(picks);
    var ys := seq(|data|, i requires 0 <= i < |data| => data[i][b]);
    c := ExactlyOneFitsByte(secret, PickPoints(picks), ys);
  }

  /** M-1 shares are consistent with every secret, each through exactly one choice of coefficients. */
  lemma {:induction false} ExactlyOneFits(secret: seq<bv8>, threshold: nat, picks: seq<nat>, data: seq<seq<bv8>>)
    returns (random: seq<seq<bv8>>)
    requires |secret| == SECRET_LEN && Selection(picks, 255) && |data| == |picks| == threshold - 1
    requires forall i :: 0 <= i < |data| ==> |data[i]| == SECRET_LEN
    ensures ValidRandom(random, threshold) && Explains(secret, random, picks, data)
    ensures forall other | ValidRandom(other, threshold) && Explains(secret, other, picks, data) :: other == random
  {
    hide Point, ShareByte, Selection, FitsByte;
    random := [];
    while |random| < SECRET_LEN
      invariant |random| <= SECRET_LEN
      invariant forall b :: 0 <= b < |random| ==>
        && FitsByte(secret[b], picks, data, b, random[b])
        && forall other | FitsByte(secret[b], picks, data, b, other) :: other == random[b]
    {
      var next := OnlyFit(secret[|random|], picks, data, |random|);
      random := random + [next];
    }
    FitsAll(secret, threshold, picks, data, random);
    forall other | ValidRandom(other, threshold) && Explains(secret, other, picks, data) ensures other == random {
      FitsAll(secret, threshold, picks, data, other);
    }
  }

  lemma {:induction false} FitsAll(secret: seq<bv8>, threshold: nat, picks: seq<nat>, data: seq<seq<bv8>>,
                                   random: seq<seq<bv8>>)
    requires |secret| == |random| == SECRET_LEN && Selection(picks, 255) && |data| == |picks| == threshold - 1
    requires forall i :: 0 <= i < |data| ==> |data[i]| == SECRET_LEN
    ensures ValidRandom(random, threshold) && Explains(secret, random, picks, data)
            <==> forall b :: 0 <= b < SECRET_LEN ==> FitsByte(secret[b], picks, data, b, random[b])
  {
    hide Point, ShareByte;
    if forall b :: 0 <= b < SECRET_LEN ==> FitsByte(secret[b], picks, data, b, random[b]) {
      forall i | 0 <= i < |picks| ensures data[i] == ShareAt(secret, random, Point(picks[i])) {
        assert forall b :: 0 <= b < SECRET_LEN ==>
            FitsByte(secret[b], picks, data, b, random[b])
            && ShareByte(secret[b], random[b], Point(picks[i])) == data[i][b];
      }
    }
    if ValidRandom(random, threshold) && Explains(secret, random, picks, data) {
      forall b | 0 <= b < SECRET_LEN ensures FitsByte(secret[b], picks, data, b, random[b]) {
        assert forall i :: 0 <= i < |picks| ==> data[i] == ShareAt(secret, random, Point(picks[i]));
      }
    }
  }

  function XorAll(s: seq<bv8>, t: seq<bv8>): (u: seq<bv8>)
    requires |s| == |t|
    ensures |u| == |s|
    ensures forall i :: 0 <= i < |u| ==> u[i] == Xor(s[i], t[i])
  {
    seq(|s|, i requires 0 <= i < |s| => Xor(s[i], t[i]))
  }

  /** Moving from one secret byte to another shifts the coefficients by a constant, at the picked points. */
  lemma {:induction false} ShiftByte(secret: bv8, secret': bv8, m: nat, xs: seq<bv8>) returns (delta: seq<bv8>)
    requires UsablePoints(xs) && |xs| < m
    ensures |delta| == m - 1
    ensures forall c: seq<bv8>, i: nat | |c| == m - 1 && i < |xs| ::
      ShareByte(secret', XorAll(c, delta), xs[i]) == ShareByte(secret, c, xs[i])
  {
    hide Bits, Xor, U8OfBits, Eval, ShareByte;
    var px, py := [ZERO] + AllBits(xs), [Bits(Xor(secret, secret'))] + ZeroPolynomial(|xs|);
    var f := InterpolationExists(px, py);
    assert f[0] == Bits(Xor(secret, secret')) by {
      EvalAtZero(f);
      assert px[0] == ZERO;
    }
    var d := f + ZeroPolynomial(m - |f|);
    delta := AllBytes(d[1..]);
    AllBitsOfAllBytes(d[1..]);
    forall c: seq<bv8>, i: nat | |c| == m - 1 && i < |xs|
      ensures ShareByte(secret', XorAll(c, delta), xs[i]) == ShareByte(secret, c, xs[i])
    {
      var x := Bits(xs[i]);
      assert Eval(d, x) == ZERO by {
        EvalPad(f, m - |f|, x);
        assert px[i + 1] == x && py[i + 1] == ZERO;
      }
      ShiftSum(secret, secret', c, delta, d);
      EvalSum(AllBits([secret] + c), d, x);
      AddZero(Eval(AllBits([secret] + c), x));
      ShareByteBits(secret, c, xs[i]);
      ShareByteBits(secret', XorAll(c, delta), xs[i]);
      BitsInjective(ShareByte(secret', XorAll(c, delta), xs[i]), ShareByte(secret, c, xs[i]));
    }
  }

  lemma {:induction false} ShiftSum(secret: bv8, secret': bv8, c: seq<bv8>, delta: seq<bv8>, d: Poly8)
    requires |c| == |delta| == |d| - 1 && AllBits(delta) == d[1..] && d[0] == Bits(Xor(secret, secret'))
    ensures AllBits([secret'] + XorAll(c, delta)) == Sum(AllBits([secret] + c), d)
  {
    hide Bits, Xor, Add, AllBits, XorAll, Sum;
    AllBitsCons(secret', XorAll(c, delta));
    AllBitsCons(secret, c);
    AllBitsXor(c, delta);
    ChangeConstant(secret, secret');
    var f := [Bits(secret)] + AllBits(c);
    assert Sum(f, d) == [Bits(secret')] + Sum(AllBits(c), AllBits(delta));
  }

  lemma {:induction false} ChangeConstant(secret: bv8, secret': bv8)
    ensures Add(Bits(secret), Bits(Xor(secret, secret'))) == Bits(secret')
  {
    hide Bits, Xor, Add;
    BitsXor(secret, secret');
    AddAssociative(Bits(secret), Bits(secret), Bits(secret'));
    AddCancel(Bits(secret), Bits(secret));
    AddZero(Bits(secret'));
  }

  lemma {:induction false} AllBitsXor(c: seq<bv8>, delta: seq<bv8>)
    requires |c| == |delta|
    ensures AllBits(XorAll(c, delta)) == Sum(AllBits(c), AllBits(delta))
  {
    hide Bits, Xor, Add;
    forall i | 0 <= i < |c| ensures Bits(Xor(c[i], delta[i])) == Add(Bits(c[i]), Bits(delta[i])) {
      BitsXor(c[i], delta[i]);
    }
  }

  function XorRandom(r: seq<seq<bv8>>, delta: seq<seq<bv8>>, threshold: nat): (s: seq<seq<bv8>>)
    requires ValidRandom(r, threshold) && ValidRandom(delta, threshold)
    ensures ValidRandom(s, threshold)
    ensures forall b :: 0 <= b < SECRET_LEN ==> s[b] == XorAll(r[b], delta[b])
  {
    seq(SECRET_LEN, b requires 0 <= b < SECRET_LEN => XorAll(r[b], delta[b]))
  }

  /** Shifting twice restores the coefficients, so the shift permutes the coefficient choices. */
  lemma {:induction false} XorRandomInvolution(r: seq<seq<bv8>>, delta: seq<seq<bv8>>, threshold: nat)
    requires ValidRandom(r, threshold) && ValidRandom(delta, threshold)
    ensures XorRandom(XorRandom(r, delta, threshold), delta, threshold) == r
  {
    forall b, i | 0 <= b < SECRET_LEN && 0 <= i < |r[b]|
      ensures Xor(Xor(r[b][i], delta[b][i]), delta[b][i]) == r[b][i]
    {
      XorTwice(r[b][i], delta[b][i]);
    }
    hide Xor;
    var twice := XorRandom(XorRandom(r, delta, threshold), delta, threshold);
    forall b | 0 <= b < SECRET_LEN ensures twice[b] == r[b] {
    }
  }

  lemma {:induction false} XorTwice(v: bv8, w: bv8)
    ensures Xor(Xor(v, w), w) == v
  {
  }

  /** Fewer than M shares say nothing: for any two secrets one fixed permutation of the coefficient choices
      turns every splitting of the first into a splitting of the second with the same picked shares. */
  lemma {:induction false} FewSharesRevealNothing(secret: seq<bv8>, secret': seq<bv8>, threshold: nat, total: nat,
                                                  picks: seq<nat>)
    returns (delta: seq<seq<bv8>>)
    requires |secret| == |secret'| == SECRET_LEN && 2 <= threshold <= total < 256
    requires Selection(picks, total) && |picks| < threshold
    ensures ValidRandom(delta, threshold)
    ensures forall random | ValidRandom(random, threshold) ::
      Pick(Split(secret, random, total), picks)
      == Pick(Split(secret', XorRandom(random, delta, threshold), total), picks)
  {
    hide Point, ShareByte, UsablePoints, Pick, Split;
    var xs := PickPoints(picks);
    PickPointsUsable(picks);
    delta := [];
    while |delta| < SECRET_LEN
      invariant |delta| <= SECRET_LEN
      invariant forall b :: 0 <= b < |delta| ==>
        |delta[b]| + 1 == threshold && ShiftsByte(secret[b], secret'[b], xs, delta[b])
    {
      var next := ShiftByte(secret[|delta|], secret'[|delta|], threshold, xs);
      assert ShiftsByte(secret[|delta|], secret'[|delta|], xs, next);
      delta := delta + [next];
    }
    forall random | ValidRandom(random, threshold)
      ensures Pick(Split(secret, random, total), picks)
              == Pick(Split(secret', XorRandom(random, delta, threshold), total), picks)
    {
      ShiftedShares(secret, secret', threshold, total, picks, random, delta);
    }
  }

  ghost predicate ShiftsByte(secret: bv8, secret': bv8, xs: seq<bv8>, delta: seq<bv8>) {
    forall c: seq<bv8>, i: nat | |c| == |delta| && i < |xs| ::
      ShareByte(secret', XorAll(c, delta), xs[i]) == ShareByte(secret, c, xs[i])
  }

  lemma {:induction false} ShiftedShares(secret: seq<bv8>, secret': seq<bv8>, threshold: nat, total: nat,
                                         picks: seq<nat>, random: seq<seq<bv8>>, delta: seq<seq<bv8>>)
    requires |secret| == |secret'| == SECRET_LEN && 2 <= threshold <= total < 256 && Selection(picks, total)
    requires ValidRandom(random, threshold) && ValidRandom(delta, threshold)
    requires forall b :: 0 <= b < SECRET_LEN ==> ShiftsByte(secret[b], secret'[b], PickPoints(picks), delta[b])
    ensures Pick(Split(secret, random, total), picks)
            == Pick(Split(secret', XorRandom(random, delta, threshold), total), picks)
  {
    hide Point, ShareByte;
    var random' := XorRandom(random, delta, threshold);
    var xs := PickPoints(picks);
    forall i | 0 <= i < |picks|
      ensures ShareOf(secret, random, picks[i]) == ShareOf(secret', random', picks[i])
    {
      var x := Point(picks[i]);
      forall b | 0 <= b < SECRET_LEN
        ensures ShareByte(secret[b], random[b], x) == ShareByte(secret'[b], random'[b], x)
      {
        assert ShiftsByte(secret[b], secret'[b], xs, delta[b]);
        assert ShareByte(secret'[b], XorAll(random[b], delta[b]), xs[i]) == ShareByte(secret[b], random[b], xs[i]);
      }
      assert ShareAt(secret, random, x) == ShareAt(secret', random', x);
    }
  }
}
