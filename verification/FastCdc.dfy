/** Content-defined chunking with a rolling gear hash and two masks. The hash is
    an unbounded integer reduced modulo 2^64 at each byte; masking with 2^n - 1
    and comparing with zero is divisibility by 2^n. Everything here holds for
    every 256-entry gear table. */
module FastCdc {
  import opened Common

  const TWO_64 := 0x1_0000_0000_0000_0000

  datatype Config = Config(gear: seq<nat>, minSize: nat, avgSize: nat, maxSize: nat)

  /** The table is indexed by bytes, the shift computing the masks stays within 31 bits, and chunks can grow. */
  predicate Usable(c: Config) {
    |c.gear| == 256 && c.avgSize <= 0x4000_0000 && c.maxSize >= 1
  }

  /** The sizes the configuration admits: neither the minimum nor the average exceeds the maximum. */
  predicate Proportioned(c: Config) {
    Usable(c) && c.minSize <= c.maxSize && c.avgSize <= c.maxSize
  }

  datatype Chunk = Chunk(offset: nat, length: nat)

  function Max(a: nat, b: nat): nat {
    if a <= b then b else a
  }

  /** The least n with 2^n >= v. */
  function CeilLog2(v: nat): (n: nat)
    ensures Pow2(n) >= v
    ensures n > 0 ==> Pow2(n - 1) < v
  {
    CeilLog2From(v, 0)
  }

  function CeilLog2From(v: nat, n: nat): (r: nat)
    requires n > 0 ==> Pow2(n - 1) < v
    ensures r >= n && Pow2(r) >= v
    ensures r > 0 ==> Pow2(r - 1) < v
    decreases v - Pow2(n)
  {
    if Pow2(n) >= v then n else CeilLog2From(v, n + 1)
  }

  function SmallMaskBits(c: Config): nat {
    CeilLog2(c.avgSize) + 1
  }

  function LargeMaskBits(c: Config): nat {
    var bits := CeilLog2(c.avgSize);
    if bits == 0 then 0 else bits - 1
  }

  // ----- the rolling hash

  function Roll(gear: seq<nat>, hash: nat, b: U8): nat
    requires |gear| == 256
  {
    (2 * hash + gear[b]) % TWO_64
  }

  function Hash(gear: seq<nat>, s: seq<U8>): nat
    requires |gear| == 256
  {
    if s == [] then 0 else Roll(gear, Hash(gear, s[..|s| - 1]), s[|s| - 1])
  }

  /** The sum of gear[s[j]] * 2^(|s| - 1 - j). */
  function WeightedSum(gear: seq<nat>, s: seq<U8>): nat
    requires |gear| == 256
  {
    if s == [] then 0 else gear[s[0]] * Pow2(|s| - 1) + WeightedSum(gear, s[1..])
  }

  lemma {:induction false} WeightedSumLast(gear: seq<nat>, s: seq<U8>)
    requires |gear| == 256 && s != []
    ensures WeightedSum(gear, s) == 2 * WeightedSum(gear, s[..|s| - 1]) + gear[s[|s| - 1]]
  {
    if |s| == 1 {
      assert s[1..] == [] && s[..0] == [];
    } else {
      var t := s[..|s| - 1];
      WeightedSumLast(gear, s[1..]);
      assert s[1..][..|s| - 2] == t[1..];
      DoubleTerm(gear[s[0]], |s| - 2);
    }
  }

  lemma {:induction false} DoubleTerm(g: nat, n: nat)
    ensures g * Pow2(n + 1) == 2 * (g * Pow2(n))
  {
  }

  lemma {:induction false} ModDouble(a: nat, g: nat)
    ensures (2 * (a % TWO_64) + g) % TWO_64 == (2 * a + g) % TWO_64
  {
    var q, r := a / TWO_64, a % TWO_64;
    assert 2 * a + g == TWO_64 * (2 * q) + (2 * r + g);
    ModShift(2 * r + g, 2 * q, TWO_64);
  }

  lemma {:induction false} ModShift(a: nat, q: nat, m: nat)
    requires m > 0
    ensures (m * q + a) % m == a % m
  {
    var b := a / m;
    assert m * q + a == m * (q + b) + a % m;
    ModUnique(m * q + a, q + b, a % m, m);
  }

  lemma {:induction false} ModUnique(x: nat, q: nat, r: nat, m: nat)
    requires m > 0 && r < m && x == m * q + r
    ensures x % m == r
  {
    var q' := x / m;
    assert x == m * q' + x % m;
    if q < q' {
      MulStep(m, q, q');
    } else if q' < q {
      MulStep(m, q', q);
    }
  }

  lemma {:induction false} MulStep(m: nat, a: nat, b: nat)
    requires a < b
    ensures m * a + m <= m * b
  {
    assert m * b == m * a + m * (b - a);
    assert m * (b - a) == m + m * (b - a - 1);
  }

  /** The rolling hash in closed form. */
  lemma {:induction false} HashClosedForm(gear: seq<nat>, s: seq<U8>)
    requires |gear| == 256
    ensures Hash(gear, s) == WeightedSum(gear, s) % TWO_64
  {
    if s != [] {
      var t := s[..|s| - 1];
      HashClosedForm(gear, t);
      WeightedSumLast(gear, s);
      ModDouble(WeightedSum(gear, t), gear[s[|s| - 1]]);
    }
  }

  lemma {:induction false} WeightedSumConcat(gear: seq<nat>, s: seq<U8>, t: seq<U8>)
    requires |gear| == 256
    ensures WeightedSum(gear, s + t) == WeightedSum(gear, s) * Pow2(|t|) + WeightedSum(gear, t)
  {
    if s == [] {
      assert s + t == t;
    } else {
      assert (s + t)[1..] == s[1..] + t;
      WeightedSumConcat(gear, s[1..], t);
      Pow2Add(|s| - 1, |t|);
      Distribute(gear[s[0]], Pow2(|s| - 1), WeightedSum(gear, s[1..]), Pow2(|t|));
    }
  }

  lemma {:induction false} Distribute(g: nat, p: nat, w: nat, q: nat)
    ensures (g * p + w) * q == g * (p * q) + w * q
  {
  }

  lemma {:induction false} Pow2Add(m: nat, n: nat)
    ensures Pow2(m + n) == Pow2(m) * Pow2(n)
  {
    if m != 0 {
      Pow2Add(m - 1, n);
    }
  }

  lemma {:induction false} Pow2Divides64(n: nat) returns (k: nat)
    requires n <= 64
    ensures TWO_64 == Pow2(n) * k
  {
    Pow2Add(n, 64 - n);
    Pow2Of64();
    k := Pow2(64 - n);
  }

  lemma {:induction false} Pow2Of64()
    ensures Pow2(64) == TWO_64
  {
    hide Pow2;
    Pow2Two();
    Pow2Add(2, 2);
    Pow2Add(4, 4);
    Pow2Add(8, 8);
    Pow2Add(16, 16);
    Pow2Add(32, 32);
  }

  lemma {:induction false} Pow2Two()
    ensures Pow2(2) == 4
  {
    assert Pow2(1) == 2;
  }

  lemma {:induction false} ModMod(x: nat, m: nat, k: nat)
    requires m > 0 && m * k > 0
    ensures (x % (m * k)) % m == x % m
  {
    var q, r := x / (m * k), x % (m * k);
    assert x == m * (k * q) + r;
    ModShift(r, k * q, m);
  }

  /** The low n bits of the hash are those of the hash of the last n bytes alone. */
  lemma {:induction false} HashIsLocal(gear: seq<nat>, s: seq<U8>, n: nat)
    requires |gear| == 256 && n <= |s| && n <= 64
    ensures Hash(gear, s) % Pow2(n) == Hash(gear, s[|s| - n..]) % Pow2(n)
  {
    hide Hash, WeightedSum, Pow2;
    var a, b := s[..|s| - n], s[|s| - n..];
    var wa, wb, p := WeightedSum(gear, a), WeightedSum(gear, b), Pow2(n);
    assert s == a + b;
    WeightedSumConcat(gear, a, b);
    HashClosedForm(gear, s);
    HashClosedForm(gear, b);
    var k := Pow2Divides64(n);
    ModMod(WeightedSum(gear, s), p, k);
    ModMod(wb, p, k);
    ModShift(wb, wa, p);
    assert wa * p == p * wa;
  }

  // ----- where a chunk ends

  /** Scan position i is a cut: the hash of the bytes from minSize through i passes the mask in force there. */
  predicate CutAfter(c: Config, s: seq<U8>, i: nat)
    requires |c.gear| == 256 && c.minSize <= i < |s|
  {
    var bits := if i < c.avgSize then SmallMaskBits(c) else LargeMaskBits(c);
    Hash(c.gear, s[c.minSize..i + 1]) % Pow2(bits) == 0
  }

  /** The end of the scanned range. */
  function ScanEnd(c: Config, s: seq<U8>): nat {
    Max(Min(|s|, c.avgSize), Min(|s|, c.maxSize))
  }

  /** The length cut off the front of s when scanning from position i. */
  function CutFrom(c: Config, s: seq<U8>, i: nat): (n: nat)
    requires Usable(c) && c.minSize <= i && |s| > c.minSize
    ensures 1 <= n <= |s|
    decreases |s| - i
  {
    if i >= ScanEnd(c, s) then Min(|s|, c.maxSize)
    else if CutAfter(c, s, i) then i + 1
    else CutFrom(c, s, i + 1)
  }

  function Cut(c: Config, s: seq<U8>): (n: nat)
    requires Usable(c) && |s| > c.minSize
    ensures 1 <= n <= |s|
  {
    CutFrom(c, s, c.minSize)
  }

  ghost predicate NoCutBefore(c: Config, s: seq<U8>, i: nat)
    requires |c.gear| == 256 && i <= |s|
  {
    forall j :: c.minSize <= j < i ==> !CutAfter(c, s, j)
  }

  lemma {:induction false} CutFromSkips(c: Config, s: seq<U8>, i: nat, j: nat)
    requires Usable(c) && |s| > c.minSize && c.minSize <= i <= j <= ScanEnd(c, s)
    requires forall k :: i <= k < j ==> !CutAfter(c, s, k)
    ensures CutFrom(c, s, i) == CutFrom(c, s, j)
    decreases j - i
  {
    if i < j {
      CutFromSkips(c, s, i + 1, j);
    }
  }

  /** A chunk ends right after the first position in range that passes its mask, else at the size limit. */
  lemma {:induction false} CutIsFirst(c: Config, s: seq<U8>, i: nat)
    requires Usable(c) && c.minSize < |s| && c.minSize <= i <= ScanEnd(c, s) && NoCutBefore(c, s, i)
    ensures i < ScanEnd(c, s) && CutAfter(c, s, i) ==> Cut(c, s) == i + 1
    ensures i == ScanEnd(c, s) ==> Cut(c, s) == Min(|s|, c.maxSize)
  {
    hide CutAfter;
    CutFromSkips(c, s, c.minSize, i);
  }

  lemma {:induction false} CutWitness(c: Config, s: seq<U8>) returns (i: nat)
    requires Usable(c) && c.minSize < |s|
    ensures c.minSize <= i <= Max(c.minSize, ScanEnd(c, s)) && NoCutBefore(c, s, i)
    ensures if i < ScanEnd(c, s) then CutAfter(c, s, i) && Cut(c, s) == i + 1 else Cut(c, s) == Min(|s|, c.maxSize)
  {
    hide CutAfter;
    i := c.minSize;
    while i < ScanEnd(c, s) && !CutAfter(c, s, i)
      invariant c.minSize <= i <= Max(c.minSize, ScanEnd(c, s)) && NoCutBefore(c, s, i)
    {
      i := i + 1;
    }
    if i <= ScanEnd(c, s) {
      CutIsFirst(c, s, i);
    }
  }

  /** Every cut is longer than the minimum, unless the sizes coincide, and no longer than the maximum. */
  lemma {:induction false} CutBounds(c: Config, s: seq<U8>)
    requires Proportioned(c) && c.minSize < |s|
    ensures c.minSize <= Cut(c, s) <= c.maxSize
    ensures c.minSize < c.maxSize ==> c.minSize < Cut(c, s)
  {
    hide CutAfter, Cut;
    var i := CutWitness(c, s);
  }

  // ----- the whole payload

  /** The chunk lengths of a payload. */
  function Lengths(c: Config, s: seq<U8>): seq<nat>
    requires Usable(c)
  {
    if s == [] then []
    else if |s| <= c.minSize then [|s|]
    else [Cut(c, s)] + Lengths(c, s[Cut(c, s)..])
  }

  function Total(ns: seq<nat>): nat {
    if ns == [] then 0 else ns[0] + Total(ns[1..])
  }

  /** The chunks cover the payload exactly. */
  lemma {:induction false} LengthsTile(c: Config, s: seq<U8>)
    requires Usable(c)
    ensures Total(Lengths(c, s)) == |s|
    ensures forall k :: 0 <= k < |Lengths(c, s)| ==> Lengths(c, s)[k] > 0
    decreases |s|
  {
    hide Cut;
    if |s| > c.minSize && s != [] {
      var n := Cut(c, s);
      LengthsTile(c, s[n..]);
      assert Lengths(c, s)[1..] == Lengths(c, s[n..]);
    } else if s != [] {
      assert Lengths(c, s)[1..] == [];
    }
  }

  /** Every chunk but the last is longer than the minimum (unless it is also the maximum); none exceeds the maximum. */
  lemma {:induction false} LengthBounds(c: Config, s: seq<U8>, k: nat)
    requires Proportioned(c) && k < |Lengths(c, s)|
    ensures 0 < Lengths(c, s)[k] <= c.maxSize
    ensures k < |Lengths(c, s)| - 1 ==>
      c.minSize <= Lengths(c, s)[k] && (c.minSize < c.maxSize ==> c.minSize < Lengths(c, s)[k])
    decreases |s|
  {
    hide Cut;
    if |s| > c.minSize {
      CutBounds(c, s);
      if k > 0 {
        LengthBounds(c, s[Cut(c, s)..], k - 1);
      }
    }
  }

  // ----- edits far away do not move cuts

  /** Whether position i is a cut depends on the bytes up to i only. */
  lemma {:induction false} CutAfterPrefix(c: Config, s: seq<U8>, t: seq<U8>, i: nat)
    requires |c.gear| == 256 && c.minSize <= i < |s| && i < |t| && s[..i + 1] == t[..i + 1]
    ensures CutAfter(c, s, i) == CutAfter(c, t, i)
  {
    assert s[c.minSize..i + 1] == s[..i + 1][c.minSize..];
    assert t[c.minSize..i + 1] == t[..i + 1][c.minSize..];
  }

  /** A cut that is not merely the end of the payload stays when what follows it changes. */
  lemma {:induction false} CutStable(c: Config, s: seq<U8>, t: seq<U8>)
    requires Proportioned(c) && c.minSize < |s|
    requires var n := Cut(c, s); n < |s| && n <= |t| && s[..n] == t[..n]
    ensures if c.minSize < |t| then Cut(c, t) == Cut(c, s) else |t| == Cut(c, s)
  {
    hide CutAfter, Cut;
    var n := Cut(c, s);
    CutBounds(c, s);
    var i := CutWitness(c, s);
    if |t| <= c.minSize {
      return;
    }
    assert s[..n] == t[..n];
    assert i <= n <= ScanEnd(c, t);
    forall j | c.minSize <= j < i ensures !CutAfter(c, t, j) {
      assert s[..j + 1] == s[..n][..j + 1] == t[..j + 1];
      CutAfterPrefix(c, s, t, j);
    }
    if i < ScanEnd(c, s) {
      CutAfterPrefix(c, s, t, i);
      CutIsFirst(c, t, i);
    } else {
      CutAtLimit(c, t, n);
    }
  }

  lemma {:induction false} CutAtLimit(c: Config, t: seq<U8>, n: nat)
    requires Proportioned(c) && c.minSize < |t| && n == c.maxSize <= |t| && NoCutBefore(c, t, n)
    ensures Cut(c, t) == n
  {
    hide CutAfter, Cut;
    CutIsFirst(c, t, n);
  }

  /** Chunks other than the last that end inside a common prefix are the same chunks. */
  lemma {:induction false} CommonPrefix(c: Config, s: seq<U8>, t: seq<U8>, p: nat, k: nat)
    requires Proportioned(c) && p <= |s| && p <= |t| && s[..p] == t[..p]
    requires k + 1 < |Lengths(c, s)| && Total(Lengths(c, s)[..k + 1]) <= p
    ensures k < |Lengths(c, t)| && Lengths(c, t)[..k + 1] == Lengths(c, s)[..k + 1]
    decreases |s|
  {
    hide Cut;
    var n, ns := Cut(c, s), Lengths(c, s);
    assert ns == [n] + Lengths(c, s[n..]);
    assert Lengths(c, s[n..]) != [] && n < |s|;
    assert ns[..k + 1][1..] == ns[1..][..k];
    assert n <= p;
    assert s[..n] == s[..p][..n] == t[..n];
    CutStable(c, s, t);
    var s', t' := s[n..], t[n..];
    if |t| <= c.minSize {
      LengthsTile(c, s');
      assert ns[..k + 1] == [n] + Lengths(c, s')[..k];
      assert k == 0;
      return;
    }
    assert Lengths(c, t) == [n] + Lengths(c, t');
    if k > 0 {
      assert s'[..p - n] == s[..p][n..] == t'[..p - n];
      assert ns[1..] == Lengths(c, s');
      CommonPrefix(c, s', t', p - n, k - 1);
      assert Lengths(c, t)[..k + 1] == [n] + Lengths(c, t')[..k];
      assert ns[..k + 1] == [n] + Lengths(c, s')[..k];
    }
  }

  /** Appending bytes changes no chunk but the last. */
  lemma {:induction false} AppendKeepsChunks(c: Config, s: seq<U8>, more: seq<U8>)
    requires Proportioned(c) && s != []
    ensures var ns := Lengths(c, s); ns != [] && ns[..|ns| - 1] <= Lengths(c, s + more)
  {
    hide Cut, Total;
    var ns := Lengths(c, s);
    if |ns| > 1 {
      var k := |ns| - 2;
      LengthsTile(c, s);
      TotalPrefix(ns, k + 1);
      assert (s + more)[..|s|] == s[..|s|];
      CommonPrefix(c, s, s + more, |s|, k);
    }
  }

  lemma {:induction false} TotalPrefix(ns: seq<nat>, k: nat)
    requires k <= |ns|
    ensures Total(ns[..k]) <= Total(ns)
    ensures Total(ns) == Total(ns[..k]) + Total(ns[k..])
  {
    if k > 0 {
      assert ns[..k][1..] == ns[1..][..k - 1];
      assert ns[k..] == ns[1..][k - 1..];
      TotalPrefix(ns[1..], k - 1);
    } else {
      assert ns[..0] == [] && ns[0..] == ns;
    }
  }

  /** From a cut on, the chunks are those of the rest of the payload by itself. */
  lemma {:induction false} ChunksAfterCut(c: Config, s: seq<U8>, k: nat)
    requires Usable(c) && k <= |Lengths(c, s)|
    ensures Total(Lengths(c, s)[..k]) <= |s|
    ensures Lengths(c, s)[k..] == Lengths(c, s[Total(Lengths(c, s)[..k])..])
    decreases |s|
  {
    hide Cut;
    var ns := Lengths(c, s);
    LengthsTile(c, s);
    TotalPrefix(ns, k);
    if k == 0 {
      assert ns[..0] == [] && ns[0..] == ns && s[0..] == s;
    } else if |s| <= c.minSize {
      assert k == 1 && ns[..1] == ns && ns[1..] == [];
      assert Total(ns[..1]) == |s|;
      assert s[|s|..] == [];
    } else {
      var n := Cut(c, s);
      var s' := s[n..];
      ChunksAfterCut(c, s', k - 1);
      assert ns[1..] == Lengths(c, s');
      assert ns[..k][1..] == ns[1..][..k - 1];
      var m := Total(ns[1..][..k - 1]);
      assert ns[k..] == ns[1..][k - 1..];
      assert s'[m..] == s[n + m..];
    }
  }

  /** Once two payloads have a cut at the same point of a common suffix, all later chunks agree. */
  lemma {:induction false} ResynchroniseAtCut(c: Config, s: seq<U8>, t: seq<U8>, j: nat, k: nat)
    requires Usable(c) && j <= |Lengths(c, s)| && k <= |Lengths(c, t)|
    requires var a, b := Total(Lengths(c, s)[..j]), Total(Lengths(c, t)[..k]);
             a <= |s| && b <= |t| && s[a..] == t[b..]
    ensures Lengths(c, s)[j..] == Lengths(c, t)[k..]
  {
    hide Lengths;
    ChunksAfterCut(c, s, j);
    ChunksAfterCut(c, t, k);
  }

  // ----- the cut test sees only a window

  lemma {:induction false} Pow2Monotone(m: nat, n: nat)
    requires m <= n
    ensures Pow2(m) <= Pow2(n)
    decreases n
  {
    if m < n {
      Pow2Monotone(m, n - 1);
    }
  }

  lemma {:induction false} CeilLog2Unique(v: nat, n: nat)
    requires Pow2(n) >= v && (n > 0 ==> Pow2(n - 1) < v)
    ensures n == CeilLog2(v)
  {
    hide Pow2, CeilLog2;
    var r := CeilLog2(v);
    if r < n {
      Pow2Monotone(r, n - 1);
    } else if n < r {
      Pow2Monotone(n, r - 1);
    }
  }

  lemma {:induction false} Pow2Thirty()
    ensures Pow2(30) == 0x4000_0000
  {
    hide Pow2;
    Pow2Two();
    Pow2Add(2, 2);
    Pow2Add(4, 4);
    Pow2Add(8, 8);
    Pow2Add(8, 4);
    Pow2Add(12, 2);
    Pow2Add(16, 14);
  }

  lemma {:induction false} MaskBitsBound(c: Config)
    requires Usable(c)
    ensures LargeMaskBits(c) <= SmallMaskBits(c) <= 31
  {
    hide Pow2, CeilLog2;
    Pow2Thirty();
    var n := CeilLog2(c.avgSize);
    if n > 30 {
      Pow2Monotone(30, n - 1);
    }
  }

  function MaskBitsAt(c: Config, i: nat): nat {
    if i < c.avgSize then SmallMaskBits(c) else LargeMaskBits(c)
  }

  /** After w bytes have been scanned under a mask of w bits, the test depends on the last w bytes alone. */
  lemma {:induction false} CutTestIsLocal(c: Config, s: seq<U8>, t: seq<U8>, i: nat, j: nat)
    requires Usable(c) && c.minSize <= i < |s| && c.minSize <= j < |t|
    requires MaskBitsAt(c, i) == MaskBitsAt(c, j)
    requires var w := MaskBitsAt(c, i);
             w <= i + 1 - c.minSize && w <= j + 1 - c.minSize && s[i + 1 - w..i + 1] == t[j + 1 - w..j + 1]
    ensures CutAfter(c, s, i) == CutAfter(c, t, j)
  {
    hide Hash, Pow2, SmallMaskBits, LargeMaskBits;
    var w := MaskBitsAt(c, i);
    var a, b := s[c.minSize..i + 1], t[c.minSize..j + 1];
    MaskBitsBound(c);
    HashIsLocal(c.gear, a, w);
    HashIsLocal(c.gear, b, w);
    assert a[|a| - w..] == s[i + 1 - w..i + 1];
    assert b[|b| - w..] == t[j + 1 - w..j + 1];
  }

  // ----- cuts without the masks

  /** n is the exponent of the least power of two that reaches the average size. */
  predicate Exponent(c: Config, n: nat) {
    Pow2(n) >= c.avgSize && (n > 0 ==> Pow2(n - 1) < c.avgSize)
  }

  /** The sum over the scanned bytes is divisible by 2^(n+1) below the average size, and from there on by 2^(n-1), or by
      one when n is zero. */
  predicate PassesAt(c: Config, s: seq<U8>, n: nat, i: nat)
    requires |c.gear| == 256 && c.minSize <= i < |s|
  {
    WeightedSum(c.gear, s[c.minSize..i + 1]) % Pow2(if i < c.avgSize then n + 1 else Max(n, 1) - 1) == 0
  }

  lemma {:induction false} CutTestMeaning(c: Config, s: seq<U8>, n: nat, i: nat)
    requires Usable(c) && c.minSize <= i < |s| && Pow2(n) >= c.avgSize && (n > 0 ==> Pow2(n - 1) < c.avgSize)
    ensures i < c.avgSize ==>
      (CutAfter(c, s, i) <==> WeightedSum(c.gear, s[c.minSize..i + 1]) % Pow2(n + 1) == 0)
    ensures i >= c.avgSize ==>
      (CutAfter(c, s, i) <==> WeightedSum(c.gear, s[c.minSize..i + 1]) % Pow2(Max(n, 1) - 1) == 0)
  {
    MaskBitsBound(c);
    CeilLog2Unique(c.avgSize, n);
    hide Hash, WeightedSum, Pow2, CeilLog2;
    var bits := MaskBitsAt(c, i);
    var w := WeightedSum(c.gear, s[c.minSize..i + 1]);
    HashClosedForm(c.gear, s[c.minSize..i + 1]);
    var k := Pow2Divides64(bits);
    ModMod(w, Pow2(bits), k);
  }

  /** m is the first length above the minimum at whose last byte the sum passes, or the size limit. */
  ghost predicate FirstCut(c: Config, s: seq<U8>, n: nat, m: nat)
    requires |c.gear| == 256
  {
    && c.minSize <= m <= Min(|s|, c.maxSize)
    && (m == Min(|s|, c.maxSize) || (c.minSize < m && PassesAt(c, s, n, m - 1)))
    && (forall i :: c.minSize <= i < m - 1 ==> !PassesAt(c, s, n, i))
  }

  lemma {:induction false} CutMeaning(c: Config, s: seq<U8>, n: nat)
    requires Proportioned(c) && c.minSize < |s| && Exponent(c, n)
    ensures FirstCut(c, s, n, Cut(c, s))
  {
    forall i | c.minSize <= i < |s| ensures PassesAt(c, s, n, i) == CutAfter(c, s, i) {
      CutTestMeaning(c, s, n, i);
    }
    hide CutAfter, PassesAt, Cut, Exponent;
    CutBounds(c, s);
    var j := CutWitness(c, s);
  }

  lemma {:induction false} FirstCutUnique(c: Config, s: seq<U8>, n: nat, m: nat, m': nat)
    requires |c.gear| == 256 && FirstCut(c, s, n, m) && FirstCut(c, s, n, m') && m <= m'
    ensures m == m'
  {
    hide PassesAt;
  }

  /** Each chunk is what is left, when that is no longer than the minimum, and otherwise ends at its first cut; this
      determines all the lengths. */
  lemma {:induction false} LengthMeaning(c: Config, s: seq<U8>, n: nat, k: nat, m: nat)
    requires Proportioned(c) && Exponent(c, n) && k < |Lengths(c, s)|
    ensures Total(Lengths(c, s)[..k]) <= |s|
    ensures var rest := s[Total(Lengths(c, s)[..k])..];
            Lengths(c, s)[k] == m <==> if |rest| <= c.minSize then m == |rest| else FirstCut(c, rest, n, m)
  {
    ChunksAfterCut(c, s, k);
    var rest := s[Total(Lengths(c, s)[..k])..];
    assert Lengths(c, rest) == Lengths(c, s)[k..];
    FirstLength(c, rest);
    hide Lengths, FirstCut, Exponent, Cut;
    if |rest| > c.minSize {
      CutMeaning(c, rest, n);
      if FirstCut(c, rest, n, m) {
        if m <= Cut(c, rest) {
          FirstCutUnique(c, rest, n, m, Cut(c, rest));
        } else {
          FirstCutUnique(c, rest, n, Cut(c, rest), m);
        }
      }
    }
  }

  lemma {:induction false} FirstLength(c: Config, s: seq<U8>)
    requires Usable(c)
    ensures Lengths(c, s) != [] <==> s != []
    ensures s != [] ==> Lengths(c, s)[0] == if |s| <= c.minSize then |s| else Cut(c, s)
  {
    hide Cut;
  }

  /** Two chunks begun at different points, where the first ends at a cut whose window lies in the common suffix. The
      second ends there too or has an earlier cut of its own; when they end together they share every later chunk. */
  lemma {:induction false} ResynchroniseByContent(c: Config, s: seq<U8>, t: seq<U8>, i: nat, j: nat)
    requires Usable(c) && c.minSize <= i < ScanEnd(c, s) && c.minSize <= j < ScanEnd(c, t)
    requires CutAfter(c, s, i) && NoCutBefore(c, s, i)
    requires MaskBitsAt(c, i) == MaskBitsAt(c, j)
    requires var w := MaskBitsAt(c, i);
             w <= i + 1 - c.minSize && w <= j + 1 - c.minSize && s[i + 1 - w..] == t[j + 1 - w..]
    ensures Cut(c, s) == i + 1 && Cut(c, t) <= j + 1
    ensures Cut(c, t) == j + 1 <==> NoCutBefore(c, t, j)
    ensures Cut(c, t) == j + 1 ==> Lengths(c, s)[1..] == Lengths(c, t)[1..]
  {
    hide CutAfter, Cut, Lengths, MaskBitsAt, SmallMaskBits, LargeMaskBits, NoCutBefore;
    var w := MaskBitsAt(c, i);
    SameWindow(s, t, i + 1 - w, j + 1 - w, w);
    CutTestIsLocal(c, s, t, i, j);
    CutIsFirst(c, s, i);
    CutNoLater(c, t, j);
    AfterFirstCut(c, s);
    AfterFirstCut(c, t);
  }

  /** A position that passes its mask is the end of the chunk, or the chunk ended before it. */
  lemma {:induction false} CutNoLater(c: Config, t: seq<U8>, j: nat)
    requires Usable(c) && c.minSize <= j < ScanEnd(c, t) && CutAfter(c, t, j)
    ensures Cut(c, t) <= j + 1 && (Cut(c, t) == j + 1 <==> NoCutBefore(c, t, j))
  {
    hide CutAfter, Cut;
    var i := CutWitness(c, t);
  }

  lemma {:induction false} SameWindow(s: seq<U8>, t: seq<U8>, a: nat, b: nat, w: nat)
    requires a + w <= |s| && b + w <= |t| && s[a..] == t[b..]
    ensures s[a..a + w] == t[b..b + w] && s[a + w..] == t[b + w..]
  {
    assert s[a..][..w] == s[a..a + w] && s[a..][w..] == s[a + w..];
    assert t[b..][..w] == t[b..b + w] && t[b..][w..] == t[b + w..];
  }

  lemma {:induction false} AfterFirstCut(c: Config, s: seq<U8>)
    requires Usable(c) && |s| > c.minSize
    ensures Lengths(c, s) != [] && Lengths(c, s)[1..] == Lengths(c, s[Cut(c, s)..])
  {
    hide Cut;
  }

  // ----- the code

  /** The exponent behind both masks, by doubling and halving. */
  method MaskExponent(avgSize: nat) returns (bits: nat)
    requires avgSize <= 0x4000_0000
    ensures bits == CeilLog2(avgSize)
  {
    hide CeilLog2, Pow2;
    var pow2: int32 := 1;
    ghost var n := 0;
    Pow2Thirty();
    Pow2Unfold(0);
    while (pow2 as nat) < avgSize
      invariant pow2 as nat == Pow2(n) && n <= 30
      invariant n > 0 ==> Pow2(n - 1) < avgSize
      decreases avgSize - pow2 as nat
    {
      assert n < 30;
      Pow2Monotone(n + 1, 30);
      Pow2Unfold(n + 1);
      pow2 := pow2 * 2;
      n := n + 1;
    }
    CeilLog2Unique(avgSize, n);
    bits := 0;
    var tmp := pow2;
    while tmp > 1
      invariant bits <= n && tmp as int == Pow2(n - bits)
      decreases tmp
    {
      Pow2Unfold(n - bits);
      tmp := tmp / 2;
      bits := bits + 1;
    }
    if bits < n {
      Pow2Unfold(n - bits);
    }
  }

  lemma {:induction false} Pow2Unfold(n: nat)
    ensures Pow2(n) == if n == 0 then 1 else 2 * Pow2(n - 1)
  {
  }

  newtype int32 = n: int | -0x8000_0000 <= n < 0x8000_0000

  function ToChunks(ns: seq<nat>, offset: nat): (chunks: seq<Chunk>)
    ensures |chunks| == |ns|
  {
    if ns == [] then [] else [Chunk(offset, ns[0])] + ToChunks(ns[1..], offset + ns[0])
  }

  lemma {:induction false} ToChunksAt(ns: seq<nat>, offset: nat, k: nat)
    requires k < |ns|
    ensures ToChunks(ns, offset)[k] == Chunk(offset + Total(ns[..k]), ns[k])
  {
    if k > 0 {
      ToChunksAt(ns[1..], offset + ns[0], k - 1);
      assert ns[..k][1..] == ns[1..][..k - 1];
    }
  }

  /** After cuts at the same point of a common suffix, later chunks have the same lengths and their offsets differ by
      the constant distance between the two cuts. */
  lemma {:induction false} ResynchronisedOffsets(c: Config, s: seq<U8>, t: seq<U8>, j: nat, k: nat, m: nat)
    requires Usable(c) && j + m < |Lengths(c, s)| && k <= |Lengths(c, t)|
    requires var a, b := Total(Lengths(c, s)[..j]), Total(Lengths(c, t)[..k]);
             a <= |s| && b <= |t| && s[a..] == t[b..]
    ensures k + m < |Lengths(c, t)|
    ensures var x, y := ToChunks(Lengths(c, s), 0)[j + m], ToChunks(Lengths(c, t), 0)[k + m];
            && x.length == y.length
            && x.offset - Total(Lengths(c, s)[..j]) == y.offset - Total(Lengths(c, t)[..k])
  {
    hide Lengths;
    var ns, ms := Lengths(c, s), Lengths(c, t);
    ResynchroniseAtCut(c, s, t, j, k);
    assert |ns[j..]| == |ms[k..]| && ns[j..][m] == ms[k..][m];
    ToChunksAt(ns, 0, j + m);
    ToChunksAt(ms, 0, k + m);
    TotalSplit(ns, j, m);
    TotalSplit(ms, k, m);
  }

  lemma {:induction false} TotalSplit(ns: seq<nat>, j: nat, m: nat)
    requires j + m <= |ns|
    ensures Total(ns[..j + m]) == Total(ns[..j]) + Total(ns[j..][..m])
  {
    TotalPrefix(ns[..j + m], j);
    assert ns[..j + m][..j] == ns[..j] && ns[..j + m][j..] == ns[j..][..m];
  }

  predicate Within(chunks: seq<Chunk>, n: nat) {
    forall k :: 0 <= k < |chunks| ==> chunks[k].offset + chunks[k].length <= n
  }

  /** The bytes of the chunks, in order. */
  function Assemble(data: seq<U8>, chunks: seq<Chunk>): seq<U8>
    requires Within(chunks, |data|)
  {
    if chunks == [] then []
    else data[chunks[0].offset..chunks[0].offset + chunks[0].length] + Assemble(data, chunks[1..])
  }

  lemma {:induction false} AssembleTiles(data: seq<U8>, ns: seq<nat>, offset: nat)
    requires offset + Total(ns) == |data|
    ensures Within(ToChunks(ns, offset), |data|)
    ensures Assemble(data, ToChunks(ns, offset)) == data[offset..]
    decreases ns
  {
    if ns != [] {
      AssembleTiles(data, ns[1..], offset + ns[0]);
      assert ToChunks(ns, offset)[1..] == ToChunks(ns[1..], offset + ns[0]);
    }
  }

  /** Putting the chunks back together gives the payload. */
  lemma {:induction false} ChunksReassemble(c: Config, data: seq<U8>)
    requires Usable(c)
    ensures var chunks := ToChunks(Lengths(c, data), 0);
            Within(chunks, |data|) && Assemble(data, chunks) == data
  {
    hide Lengths, ToChunks;
    LengthsTile(c, data);
    AssembleTiles(data, Lengths(c, data), 0);
    assert data[0..] == data;
  }

  /** The chunks still owed for the payload from the cursor on. */
  function ChunksFrom(c: Config, data: seq<U8>, cursor: nat): seq<Chunk>
    requires Usable(c) && cursor <= |data|
  {
    ToChunks(Lengths(c, data[cursor..]), cursor)
  }

  lemma {:induction false} NextChunk(c: Config, data: seq<U8>, cursor: nat)
    requires Usable(c) && cursor < |data|
    ensures |data| - cursor <= c.minSize ==> ChunksFrom(c, data, cursor) == [Chunk(cursor, |data| - cursor)]
    ensures |data| - cursor > c.minSize ==>
      var n := Cut(c, data[cursor..]);
      ChunksFrom(c, data, cursor) == [Chunk(cursor, n)] + ChunksFrom(c, data, cursor + n)
  {
    hide Cut;
    var s := data[cursor..];
    if |s| <= c.minSize {
      assert Lengths(c, s)[1..] == [];
    } else {
      var n := Cut(c, s);
      assert Lengths(c, s)[1..] == Lengths(c, s[n..]);
      assert s[n..] == data[cursor + n..];
    }
  }

  method FastCdcChunk(c: Config, data: seq<U8>) returns (chunks: seq<Chunk>)
    requires Usable(c)
    ensures chunks == ToChunks(Lengths(c, data), 0)
  {
    hide Cut, ChunksFrom, Lengths, ToChunks, CeilLog2;
    EndOfPayload(c, data);
    var bits := MaskExponent(c.avgSize);
    var cursor := 0;
    chunks := [];
    while cursor < |data|
      invariant cursor <= |data|
      invariant chunks + ChunksFrom(c, data, cursor) == ChunksFrom(c, data, 0)
    {
      NextChunk(c, data, cursor);
      var remaining := |data| - cursor;
      if remaining <= c.minSize {
        chunks := chunks + [Chunk(cursor, remaining)];
        cursor := |data|;
        break;
      }
      var cutPoint := FindCut(c, bits, data, cursor);
      chunks := chunks + [Chunk(cursor, cutPoint)];
      cursor := cursor + cutPoint;
    }
    WholePayload(c, data);
  }

  lemma {:induction false} EndOfPayload(c: Config, data: seq<U8>)
    requires Usable(c)
    ensures ChunksFrom(c, data, |data|) == []
  {
  }

  lemma {:induction false} WholePayload(c: Config, data: seq<U8>)
    requires Usable(c)
    ensures ChunksFrom(c, data, 0) == ToChunks(Lengths(c, data), 0)
  {
    assert data[0..] == data;
  }

  /** The two scans of one chunk: the second runs exactly when the first found nothing and the chunk may still grow. */
  method FindCut(c: Config, bits: nat, data: seq<U8>, cursor: nat) returns (cutPoint: nat)
    requires Usable(c) && bits == CeilLog2(c.avgSize) && cursor + c.minSize < |data|
    ensures cutPoint == Cut(c, data[cursor..])
  {
    hide CutAfter, Cut, Hash, Pow2;
    ghost var s := data[cursor..];
    var remaining := |data| - cursor;
    var maxChunk := Min(remaining, c.maxSize);
    var normalSplit := Min(remaining, c.avgSize);
    cutPoint := maxChunk;
    var hash := 0;
    HashNothing(c, s);
    var i := c.minSize;
    ghost var found := false;
    while i < normalSplit
      invariant c.minSize <= i <= Max(c.minSize, normalSplit) && NoCutBefore(c, s, i)
      invariant hash == Hash(c.gear, s[c.minSize..i])
      invariant cutPoint == maxChunk && !found
    {
      hash := Roll(c.gear, hash, data[cursor + i]);
      HashNext(c, s, i);
      if hash % Pow2(bits + 1) == 0 {
        cutPoint, found := i + 1, true;
        CutIsFirst(c, s, i);
        break;
      }
      i := i + 1;
    }
    assert normalSplit < maxChunk ==> (cutPoint == maxChunk <==> !found);
    if cutPoint == maxChunk && normalSplit < maxChunk {
      cutPoint, found := ScanLarge(c, bits, data, cursor, i, hash);
    } else if !found {
      NoCutAtAll(c, s, i);
    }
  }

  /** The scan past the average size, under the larger mask. */
  method ScanLarge(c: Config, bits: nat, data: seq<U8>, cursor: nat, start: nat, hash0: nat)
    returns (cutPoint: nat, ghost found: bool)
    requires Usable(c) && bits == CeilLog2(c.avgSize) && cursor + c.minSize < |data|
    requires c.avgSize < Min(|data| - cursor, c.maxSize) && start == Max(c.minSize, c.avgSize)
    requires start <= |data| - cursor && NoCutBefore(c, data[cursor..], start)
    requires hash0 == Hash(c.gear, data[cursor..][c.minSize..start])
    ensures cutPoint == Cut(c, data[cursor..])
  {
    hide CutAfter, Cut, Hash, Pow2;
    ghost var s := data[cursor..];
    var maxChunk := Min(|data| - cursor, c.maxSize);
    cutPoint, found := maxChunk, false;
    var i, hash := start, hash0;
    while i < maxChunk
      invariant start <= i <= Max(start, maxChunk) && NoCutBefore(c, s, i)
      invariant hash == Hash(c.gear, s[c.minSize..i])
      invariant cutPoint == maxChunk && !found
    {
      hash := Roll(c.gear, hash, data[cursor + i]);
      HashNext(c, s, i);
      if hash % Pow2(if bits == 0 then 0 else bits - 1) == 0 {
        cutPoint, found := i + 1, true;
        CutIsFirst(c, s, i);
        break;
      }
      i := i + 1;
    }
    if !found {
      NoCutAtAll(c, s, i);
    }
  }

  lemma {:induction false} HashNothing(c: Config, s: seq<U8>)
    requires |c.gear| == 256 && c.minSize <= |s|
    ensures Hash(c.gear, s[c.minSize..c.minSize]) == 0
  {
  }

  lemma {:induction false} HashNext(c: Config, s: seq<U8>, i: nat)
    requires |c.gear| == 256 && c.minSize <= i < |s|
    ensures Hash(c.gear, s[c.minSize..i + 1]) == Roll(c.gear, Hash(c.gear, s[c.minSize..i]), s[i])
    ensures CutAfter(c, s, i) == (Hash(c.gear, s[c.minSize..i + 1]) % Pow2(MaskBitsAt(c, i)) == 0)
  {
    var t := s[c.minSize..i + 1];
    assert t[..|t| - 1] == s[c.minSize..i];
  }

  lemma {:induction false} NoCutAtAll(c: Config, s: seq<U8>, i: nat)
    requires Usable(c) && c.minSize < |s| && ScanEnd(c, s) <= i <= Max(c.minSize, ScanEnd(c, s)) && NoCutBefore(c, s, i)
    ensures Cut(c, s) == Min(|s|, c.maxSize)
  {
    hide CutAfter;
    if c.minSize <= ScanEnd(c, s) {
      CutIsFirst(c, s, ScanEnd(c, s));
    }
  }
}
