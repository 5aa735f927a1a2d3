/** The Adler-32 checksum with deferred modulo operations (RFC 1950, section 8.2); 65521 is the largest 16-bit prime. */
module Adler32 {
  import opened Bytes

  const NMAX: nat := 5552

  /** unsigned long, on platforms where it has only 32 bits */
  type u32 = x: int | 0 <= x < 0x1_0000_0000

  // ----- the definition: one byte at a time, reduced after every addition

  datatype Pair = Pair(s1: nat, s2: nat)

  predicate Reduced(p: Pair) {
    p.s1 < 65521 && p.s2 < 65521
  }

  function Update(p: Pair, b: byte): Pair {
    var s1 := (p.s1 + b) % 65521;
    Pair(s1, (p.s2 + s1) % 65521)
  }

  function Checksum(p: Pair, s: seq<byte>): Pair {
    if s == [] then p else Update(Checksum(p, s[..|s| - 1]), s[|s| - 1])
  }

  function Join(p: Pair): nat {
    p.s1 + 0x1_0000 * p.s2
  }

  function Split(adler: nat): Pair {
    Pair(adler % 0x1_0000, adler / 0x1_0000 % 0x1_0000)
  }

  // ----- the sums without any reduction

  function Sum1(a: nat, s: seq<byte>): nat {
    if s == [] then a else Sum1(a, s[..|s| - 1]) + s[|s| - 1]
  }

  function Sum2(a: nat, b: nat, s: seq<byte>): nat {
    if s == [] then b else Sum2(a, b, s[..|s| - 1]) + Sum1(a, s)
  }

  /** The product of `a` and `b`, by repeated addition. */
  function Times(a: nat, b: nat): nat {
    if a == 0 then 0 else Times(a - 1, b) + b
  }

  lemma {:induction false} TimesIsProduct(a: nat, b: nat)
    ensures Times(a, b) == a * b
  {
    if a > 0 {
      TimesIsProduct(a - 1, b);
      assert a * b == (a - 1) * b + b;
    }
  }

  /** 1 + 2 + ... + n */
  function Triangle(n: nat): nat {
    if n == 0 then 0 else Triangle(n - 1) + n
  }

  lemma {:induction false} TriangleTwice(n: nat)
    ensures 2 * Triangle(n) == n * (n + 1)
  {
    if n > 0 {
      TriangleTwice(n - 1);
      assert n * (n + 1) == (n - 1) * n + 2 * n;
    }
  }

  lemma {:induction false} TriangleMono(m: nat, n: nat)
    requires m <= n
    ensures Triangle(m) <= Triangle(n)
  {
    if m < n {
      TriangleMono(m, n - 1);
    }
  }

  /** How large the deferred sums can get over `n` bytes from reduced values. */
  function Worst(n: nat): nat {
    255 * Triangle(n) + Times(n + 1, 65520)
  }

  /** NMAX is exactly the number of bytes that cannot overflow 32 bits. */
  lemma NmaxIsTight(n: nat)
    ensures Worst(n) < 0x1_0000_0000 <==> n <= NMAX
  {
    TriangleTwice(NMAX);
    TriangleTwice(NMAX + 1);
    TimesIsProduct(n + 1, 65520);
    if n <= NMAX {
      TriangleMono(n, NMAX);
    } else {
      TriangleMono(NMAX + 1, n);
    }
  }

  lemma {:induction false} SumBounds(a: nat, b: nat, s: seq<byte>)
    ensures Sum1(a, s) <= a + 255 * |s|
    ensures Sum2(a, b, s) <= b + Times(|s|, a) + 255 * Triangle(|s|)
  {
    if s != [] {
      SumBounds(a, b, s[..|s| - 1]);
    }
  }

  lemma {:induction false} SumsConcat(a: nat, b: nat, s: seq<byte>, t: seq<byte>)
    ensures Sum1(a, s + t) == Sum1(Sum1(a, s), t)
    ensures Sum2(a, b, s + t) == Sum2(Sum1(a, s), Sum2(a, b, s), t)
  {
    if t == [] {
      assert s + t == s;
    } else {
      SumsConcat(a, b, s, t[..|t| - 1]);
      assert (s + t)[..|s + t| - 1] == s + t[..|t| - 1];
    }
  }

  /** What the start values contribute to the sums. */
  lemma {:induction false} SumsLinear(a: nat, b: nat, s: seq<byte>)
    ensures Sum1(a, s) == a + Sum1(0, s)
    ensures Sum2(a, b, s) == b + Times(|s|, a) + Sum2(0, 0, s)
  {
    if s != [] {
      SumsLinear(a, b, s[..|s| - 1]);
    }
  }

  lemma AddMod(a: nat, b: nat)
    ensures (a % 65521 + b) % 65521 == (a + b) % 65521
  {
    var q := a / 65521;
    assert a + b == 65521 * q + (a % 65521 + b);
  }

  lemma OneReduction(a: nat, b: nat, x: byte)
    ensures Update(Pair(a % 65521, b % 65521), x) == Pair((a + x) % 65521, (b + (a + x)) % 65521)
  {
    AddMod(a, x);
    AddMod(b, (a + x) % 65521);
    AddMod(a + x, b);
  }

  /** Reducing at the end is as good as reducing after every byte. */
  lemma {:induction false} DeferredReduction(p: Pair, s: seq<byte>)
    requires Reduced(p)
    ensures Checksum(p, s) == Pair(Sum1(p.s1, s) % 65521, Sum2(p.s1, p.s2, s) % 65521)
  {
    if s != [] {
      var t := s[..|s| - 1];
      DeferredReduction(p, t);
      OneReduction(Sum1(p.s1, t), Sum2(p.s1, p.s2, t), s[|s| - 1]);
    }
  }

  lemma {:induction false} ChecksumConcat(p: Pair, s: seq<byte>, t: seq<byte>)
    ensures Checksum(p, s + t) == Checksum(Checksum(p, s), t)
  {
    if t == [] {
      assert s + t == s;
    } else {
      ChecksumConcat(p, s, t[..|t| - 1]);
      assert (s + t)[..|s + t| - 1] == s + t[..|t| - 1];
    }
  }

  lemma {:induction false} ChecksumReduced(p: Pair, s: seq<byte>)
    requires Reduced(p)
    ensures Reduced(Checksum(p, s))
  {
    if s != [] {
      ChecksumReduced(p, s[..|s| - 1]);
    }
  }

  // ----- reduction with and without division

  /** CHOP: the upper half of the sum is added to the lower half fifteen times. */
  function Chop(a: nat): nat {
    a % 0x1_0000 + 15 * (a / 0x1_0000)
  }

  lemma Congruent(a: nat, b: nat, k: nat)
    requires a == b + 65521 * k
    ensures a % 65521 == b % 65521
  {
  }

  lemma ChopKeeps(a: nat)
    ensures Chop(a) % 65521 == a % 65521 && Chop(a) <= 0xFFFF + 15 * (a / 0x1_0000)
  {
    assert a == Chop(a) + 65521 * (a / 0x1_0000);
    Congruent(a, Chop(a), a / 0x1_0000);
  }

  lemma SubtractOnce(a: nat)
    requires a < 131042
    ensures (if a >= 65521 then a - 65521 else a) == a % 65521
  {
  }

  /** MOD28 */
  method Mod28(a: u32, noDivide: bool) returns (r: u32)
    requires a < 0x1000_0000
    ensures r == a % 65521
  {
    if noDivide {
      ChopKeeps(a);
      SubtractOnce(Chop(a));
      r := Chop(a);
      if r >= 65521 {
        r := r - 65521;
      }
    } else {
      r := a % 65521;
    }
  }

  /** MOD */
  method Mod(a: u32, noDivide: bool) returns (r: u32)
    ensures r == a % 65521
  {
    if noDivide {
      ChopKeeps(a);
      assert a / 0x1_0000 <= 0xFFFF;
      r := Mod28(Chop(a), true);
    } else {
      r := a % 65521;
    }
  }

  /** MOD63 */
  method Mod63(a: nat, noDivide: bool) returns (r: nat)
    requires a < 0x8000_0000_0000_0000
    ensures r == a % 65521
  {
    if noDivide {
      var tmp := a / 0x1_0000_0000;
      r := a % 0x1_0000_0000 + (tmp * 256 - tmp * 32 + tmp);
      assert a == r + 65521 * (65551 * tmp);
      Congruent(a, r, 65551 * tmp);
      ChopKeeps(r);
      ChopKeeps(Chop(r));
      ChopSizes(r);
      SubtractOnce(Chop(Chop(r)));
      r := Chop(Chop(r));
      if r >= 65521 {
        r := r - 65521;
      }
    } else {
      r := a % 65521;
    }
  }

  lemma ChopSizes(r: nat)
    requires r < 0x1_0000_0000 + 225 * 0x8000_0000
    ensures Chop(Chop(r)) < 131042
  {
    ChopKeeps(r);
    assert r / 0x1_0000 <= 7438336;
    ChopKeeps(Chop(r));
    assert Chop(r) / 0x1_0000 <= 1703;
  }

  // ----- the running sums

  /** DO1 */
  method Do1(buf: seq<byte>, i: nat, a: u32, b: u32, ghost a0: nat, ghost b0: nat, ghost from: nat)
    returns (a': u32, b': u32)
    requires from <= i < |buf| && a == Sum1(a0, buf[from..i]) && b == Sum2(a0, b0, buf[from..i])
    requires i + 1 - from <= NMAX && a0 < 65521 && b0 < 65521
    ensures a' == Sum1(a0, buf[from..i + 1]) && b' == Sum2(a0, b0, buf[from..i + 1])
  {
    ghost var s := buf[from..i + 1];
    assert s[..|s| - 1] == buf[from..i];
    SumsFit(a0, b0, s);
    a' := a + buf[i];
    b' := b + a';
  }

  /** No sum over at most NMAX bytes overflows. */
  lemma SumsFit(a0: nat, b0: nat, s: seq<byte>)
    requires |s| <= NMAX && a0 < 65521 && b0 < 65521
    ensures Sum1(a0, s) < 0x1_0000_0000 && Sum2(a0, b0, s) < 0x1_0000_0000
  {
    SumBounds(a0, b0, s);
    NmaxIsTight(|s|);
    ProductMono(|s|, a0, 65520);
  }

  lemma {:induction false} ProductMono(n: nat, a: nat, b: nat)
    requires a <= b
    ensures Times(n, a) <= Times(n, b)
  {
    if n > 0 {
      ProductMono(n - 1, a, b);
    }
  }

  method Do2(buf: seq<byte>, i: nat, a: u32, b: u32, ghost a0: nat, ghost b0: nat, ghost from: nat)
    returns (a': u32, b': u32)
    requires from <= i && i + 2 <= |buf| && a == Sum1(a0, buf[from..i]) && b == Sum2(a0, b0, buf[from..i])
    requires i + 2 - from <= NMAX && a0 < 65521 && b0 < 65521
    ensures a' == Sum1(a0, buf[from..i + 2]) && b' == Sum2(a0, b0, buf[from..i + 2])
  {
    a', b' := Do1(buf, i, a, b, a0, b0, from);
    a', b' := Do1(buf, i + 1, a', b', a0, b0, from);
  }

  method Do4(buf: seq<byte>, i: nat, a: u32, b: u32, ghost a0: nat, ghost b0: nat, ghost from: nat)
    returns (a': u32, b': u32)
    requires from <= i && i + 4 <= |buf| && a == Sum1(a0, buf[from..i]) && b == Sum2(a0, b0, buf[from..i])
    requires i + 4 - from <= NMAX && a0 < 65521 && b0 < 65521
    ensures a' == Sum1(a0, buf[from..i + 4]) && b' == Sum2(a0, b0, buf[from..i + 4])
  {
    a', b' := Do2(buf, i, a, b, a0, b0, from);
    a', b' := Do2(buf, i + 2, a', b', a0, b0, from);
  }

  method Do8(buf: seq<byte>, i: nat, a: u32, b: u32, ghost a0: nat, ghost b0: nat, ghost from: nat)
    returns (a': u32, b': u32)
    requires from <= i && i + 8 <= |buf| && a == Sum1(a0, buf[from..i]) && b == Sum2(a0, b0, buf[from..i])
    requires i + 8 - from <= NMAX && a0 < 65521 && b0 < 65521
    ensures a' == Sum1(a0, buf[from..i + 8]) && b' == Sum2(a0, b0, buf[from..i + 8])
  {
    a', b' := Do4(buf, i, a, b, a0, b0, from);
    a', b' := Do4(buf, i + 4, a', b', a0, b0, from);
  }

  method Do16(buf: seq<byte>, i: nat, a: u32, b: u32, ghost a0: nat, ghost b0: nat, ghost from: nat)
    returns (a': u32, b': u32)
    requires from <= i && i + 16 <= |buf| && a == Sum1(a0, buf[from..i]) && b == Sum2(a0, b0, buf[from..i])
    requires i + 16 - from <= NMAX && a0 < 65521 && b0 < 65521
    ensures a' == Sum1(a0, buf[from..i + 16]) && b' == Sum2(a0, b0, buf[from..i + 16])
  {
    a', b' := Do8(buf, i, a, b, a0, b0, from);
    a', b' := Do8(buf, i + 8, a', b', a0, b0, from);
  }

  /** One block of NMAX bytes, then the one reduction it needs. */
  method Block(buf: seq<byte>, i0: nat, a0: u32, b0: u32, noDivide: bool) returns (a: u32, b: u32)
    requires i0 + NMAX <= |buf| && a0 < 65521 && b0 < 65521
    ensures Pair(a, b) == Checksum(Pair(a0, b0), buf[i0..i0 + NMAX])
  {
    var n: nat, i: nat := NMAX / 16, i0;
    a, b := a0, b0;
    while n > 0
      invariant n <= 347 && i == i0 + 16 * (347 - n)
      invariant a == Sum1(a0, buf[i0..i]) && b == Sum2(a0, b0, buf[i0..i])
    {
      a, b := Do16(buf, i, a, b, a0, b0, i0);
      i, n := i + 16, n - 1;
    }
    DeferredReduction(Pair(a0, b0), buf[i0..i0 + NMAX]);
    a := Mod(a, noDivide);
    b := Mod(b, noDivide);
  }

  /** Fewer than NMAX bytes: groups of 16, single bytes, one reduction. */
  method Remaining(buf: seq<byte>, i0: nat, a0: u32, b0: u32, noDivide: bool) returns (a: u32, b: u32)
    requires i0 <= |buf| < i0 + NMAX && a0 < 65521 && b0 < 65521
    ensures Pair(a, b) == Checksum(Pair(a0, b0), buf[i0..])
  {
    var len: nat, i: nat := |buf| - i0, i0;
    a, b := a0, b0;
    while len >= 16
      invariant i0 <= i <= |buf| && len == |buf| - i
      invariant a == Sum1(a0, buf[i0..i]) && b == Sum2(a0, b0, buf[i0..i])
    {
      len := len - 16;
      a, b := Do16(buf, i, a, b, a0, b0, i0);
      i := i + 16;
    }
    while len > 0
      invariant i0 <= i <= |buf| && len == |buf| - i
      invariant a == Sum1(a0, buf[i0..i]) && b == Sum2(a0, b0, buf[i0..i])
    {
      len := len - 1;
      a, b := Do1(buf, i, a, b, a0, b0, i0);
      i := i + 1;
    }
    DeferredReduction(Pair(a0, b0), buf[i0..]);
    assert buf[i0..i] == buf[i0..];
    a := Mod(a, noDivide);
    b := Mod(b, noDivide);
  }

  lemma ShortSums(a0: nat, b0: nat, s: seq<byte>)
    requires |s| < 16 && a0 < 65521 && b0 < 65521
    ensures Sum1(a0, s) < 131042 && Sum2(a0, b0, s) < 0x1000_0000
  {
    SumBounds(a0, b0, s);
    TriangleMono(|s|, 15);
    TriangleTwice(15);
    ProductMono(|s|, a0, 65520);
    TimesIsProduct(|s|, 65520);
  }

  /** Fewer than 16 bytes, where a subtraction and MOD28 are enough. */
  method Short(buf: seq<byte>, a0: u32, b0: u32, noDivide: bool) returns (a: u32, b: u32)
    requires |buf| < 16 && a0 < 65521 && b0 < 65521
    ensures Pair(a, b) == Checksum(Pair(a0, b0), buf)
  {
    var i: nat := 0;
    a, b := a0, b0;
    while i < |buf|
      invariant i <= |buf| && a == Sum1(a0, buf[0..i]) && b == Sum2(a0, b0, buf[0..i])
    {
      a, b := Do1(buf, i, a, b, a0, b0, 0);
      i := i + 1;
    }
    assert buf[0..i] == buf;
    DeferredReduction(Pair(a0, b0), buf);
    ShortSums(a0, b0, buf);
    SubtractOnce(a);
    if a >= 65521 {
      a := a - 65521;
    }
    b := Mod28(b, noDivide);
  }

  /** One byte: both sums are reduced by at most one subtraction. */
  method SingleByte(a0: u32, b0: u32, s: seq<byte>) returns (a: u32, b: u32)
    requires Reduced(Pair(a0, b0)) && |s| == 1
    ensures Pair(a, b) == Checksum(Pair(a0, b0), s)
  {
    assert s[..0] == [];
    SubtractOnce(a0 + s[0]);
    a := a0 + s[0];
    if a >= 65521 {
      a := a - 65521;
    }
    SubtractOnce(b0 + a);
    b := b0 + a;
    if b >= 65521 {
      b := b - 65521;
    }
  }

  datatype Buffer = Null(len: nat) | Data(bytes: seq<byte>)

  /** adler32_z: the deferred form computes the byte-at-a-time checksum, for every length. */
  method Adler32Z(adler: u32, buf: Buffer, noDivide: bool) returns (r: u32)
    requires Reduced(Split(adler))
    requires buf.Null? ==> buf.len != 1   // a single byte is read before the pointer is looked at
    ensures buf.Null? ==> r == 1
    ensures buf.Data? ==> r == Join(Checksum(Split(adler), buf.bytes))
  {
    var sum2: u32 := adler / 0x1_0000 % 0x1_0000;
    var a: u32 := adler % 0x1_0000;
    ghost var p := Split(adler);
    if buf.Data? && |buf.bytes| == 1 {
      a, sum2 := SingleByte(a, sum2, buf.bytes);
      return a + sum2 * 0x1_0000;
    }
    if buf.Null? {
      return 1;
    }
    var s := buf.bytes;
    ChecksumReduced(p, s);
    if |s| < 16 {
      a, sum2 := Short(s, a, sum2, noDivide);
      return a + sum2 * 0x1_0000;
    }
    var i: nat := 0;
    while |s| - i >= NMAX
      invariant i <= |s| && Pair(a, sum2) == Checksum(p, s[..i])
      invariant a < 65521 && sum2 < 65521
    {
      ChecksumConcat(p, s[..i], s[i..i + NMAX]);
      assert s[..i] + s[i..i + NMAX] == s[..i + NMAX];
      ChecksumReduced(p, s[..i + NMAX]);
      a, sum2 := Block(s, i, a, sum2, noDivide);
      i := i + NMAX;
    }
    ChecksumConcat(p, s[..i], s[i..]);
    assert s[..i] + s[i..] == s;
    if i < |s| {
      a, sum2 := Remaining(s, i, a, sum2, noDivide);
    } else {
      assert s[..i] == s;
    }
    r := a + sum2 * 0x1_0000;
  }

  // ----- combining two checksums

  lemma MulMod(a: nat, b: nat)
    ensures Times(a % 65521, b % 65521) % 65521 == Times(a, b) % 65521
  {
    FactorMod(a, b % 65521);
    TimesCommutes(a, b % 65521);
    FactorMod(b, a);
    TimesCommutes(a, b);
  }

  lemma TimesCommutes(a: nat, b: nat)
    ensures Times(a, b) == Times(b, a)
  {
    TimesIsProduct(a, b);
    TimesIsProduct(b, a);
  }

  lemma FactorMod(a: nat, y: nat)
    ensures Times(a % 65521, y) % 65521 == Times(a, y) % 65521
  {
    var q, r := a / 65521, a % 65521;
    TimesIsProduct(a, y);
    TimesIsProduct(r, y);
    Distribute(r, q, y);
    Congruent(a * y, r * y, q * y);
  }

  lemma Distribute(r: nat, q: nat, y: nat)
    ensures (r + 65521 * q) * y == r * y + 65521 * (q * y)
  {
  }

  /** The two sums of a concatenation, from those of its parts and the length of the second. */
  function CombinedSums(x: Pair, y: Pair, len: nat): Pair {
    Pair((x.s1 + y.s1 + 65520) % 65521, (Times(len % 65521, x.s1) % 65521 + x.s2 + y.s2 + 65521 - len % 65521) % 65521)
  }

  /** The checksum of a concatenation, from the checksums of its parts and the second length. */
  lemma Combined(p: Pair, s: seq<byte>, t: seq<byte>)
    requires Reduced(p)
    ensures Checksum(p, s + t) == CombinedSums(Checksum(p, s), Checksum(Pair(1, 0), t), |t|)
  {
    var a, b, c, d := Sum1(p.s1, s), Sum2(p.s1, p.s2, s), Sum1(0, t), Sum2(0, 0, t);
    PartSums(p, s, t);
    CombineFirst(a, c);
    CombineSecond(a, b, d, |t|);
  }

  lemma PartSums(p: Pair, s: seq<byte>, t: seq<byte>)
    requires Reduced(p)
    ensures var a, b, c, d := Sum1(p.s1, s), Sum2(p.s1, p.s2, s), Sum1(0, t), Sum2(0, 0, t);
            && Checksum(p, s) == Pair(a % 65521, b % 65521)
            && Checksum(Pair(1, 0), t) == Pair((1 + c) % 65521, (|t| + d) % 65521)
            && Checksum(p, s + t) == Pair((a + c) % 65521, (b + Times(|t|, a) + d) % 65521)
  {
    DeferredReduction(p, s);
    FreshSums(t);
    DeferredReduction(p, s + t);
    ConcatSums(p, s, t);
  }

  lemma FreshSums(t: seq<byte>)
    ensures Checksum(Pair(1, 0), t) == Pair((1 + Sum1(0, t)) % 65521, (|t| + Sum2(0, 0, t)) % 65521)
  {
    DeferredReduction(Pair(1, 0), t);
    SumsLinear(1, 0, t);
    TimesOne(|t|);
  }

  lemma TimesOne(n: nat)
    ensures Times(n, 1) == n
  {
    TimesIsProduct(n, 1);
  }

  lemma ConcatSums(p: Pair, s: seq<byte>, t: seq<byte>)
    ensures Pair(Sum1(p.s1, s + t) % 65521, Sum2(p.s1, p.s2, s + t) % 65521)
         == Pair((Sum1(p.s1, s) + Sum1(0, t)) % 65521,
                 (Sum2(p.s1, p.s2, s) + Times(|t|, Sum1(p.s1, s)) + Sum2(0, 0, t)) % 65521)
  {
    ConcatExact(p, s, t);
    var b := Sum2(p.s1, p.s2, s) + Times(|t|, Sum1(p.s1, s)) + Sum2(0, 0, t);
    Congruent(Sum1(p.s1, s + t), Sum1(p.s1, s) + Sum1(0, t), 0);
    Congruent(Sum2(p.s1, p.s2, s + t), b, 0);
  }

  lemma ConcatExact(p: Pair, s: seq<byte>, t: seq<byte>)
    ensures Sum1(p.s1, s + t) == Sum1(p.s1, s) + Sum1(0, t)
    ensures Sum2(p.s1, p.s2, s + t) == Sum2(p.s1, p.s2, s) + Times(|t|, Sum1(p.s1, s)) + Sum2(0, 0, t)
  {
    SumsConcat(p.s1, p.s2, s, t);
    SumsLinear(Sum1(p.s1, s), Sum2(p.s1, p.s2, s), t);
  }

  lemma CombineFirst(a: nat, c: nat)
    ensures (a % 65521 + (1 + c) % 65521 + 65520) % 65521 == (a + c) % 65521
  {
    var k := a / 65521 + (1 + c) / 65521;
    Congruent(a + c + 65521, a % 65521 + (1 + c) % 65521 + 65520, k);
    Congruent(a + c + 65521, a + c, 1);
  }

  lemma CombineSecond(a: nat, b: nat, d: nat, n: nat)
    ensures (Times(n % 65521, a % 65521) % 65521 + b % 65521 + (n + d) % 65521 + 65521 - n % 65521) % 65521 ==
              (b + Times(n, a) + d) % 65521
  {
    MulMod(n, a);
    SumSecond(Times(n, a), b, d, n);
  }

  lemma SumSecond(m: nat, b: nat, d: nat, n: nat)
    ensures (m % 65521 + b % 65521 + (n + d) % 65521 + 65521 - n % 65521) % 65521 == (b + m + d) % 65521
  {
    var left := m % 65521 + b % 65521 + (n + d) % 65521 + 65521 - n % 65521;
    var total := m + b + (n + d) + 65521 - n % 65521;
    Congruent(total, left, m / 65521 + b / 65521 + (n + d) / 65521);
    Congruent(total, b + m + d, n / 65521 + 1);
  }

  /** adler32_combine_ */
  method Combine(adler1: u32, adler2: u32, len2: int, noDivide: bool) returns (r: u32)
    requires len2 < 0x8000_0000_0000_0000 && Reduced(Split(adler1)) && Reduced(Split(adler2))
    ensures len2 < 0 ==> r == 0xFFFF_FFFF
    ensures len2 >= 0 ==> r == Join(CombinedSums(Split(adler1), Split(adler2), len2))
  {
    if len2 < 0 {
      return 0xFFFF_FFFF;
    }
    var rem := Mod63(len2, noDivide);
    var sum1: u32 := adler1 % 0x1_0000;
    ProductBound(rem, sum1);
    var sum2: u32 := Mod(Times(rem, sum1), noDivide);
    sum1 := sum1 + adler2 % 0x1_0000 + 65521 - 1;
    sum2 := sum2 + adler1 / 0x1_0000 % 0x1_0000 + adler2 / 0x1_0000 % 0x1_0000 + 65521 - rem;
    sum1 := FoldTwice(sum1);
    sum2 := FoldThree(sum2);
    r := sum1 + sum2 * 0x1_0000;
  }

  lemma ProductBound(a: nat, b: nat)
    requires a < 65521 && b < 65521
    ensures Times(a, b) < 0x1_0000_0000
  {
    ProductMono(a, b, 65520);
    TimesIsProduct(a, 65520);
  }

  method FoldTwice(sum: u32) returns (r: u32)
    requires sum < 196563
    ensures r == sum % 65521
  {
    SubtractTwice(sum);
    r := sum;
    if r >= 65521 {
      r := r - 65521;
    }
    if r >= 65521 {
      r := r - 65521;
    }
  }

  method FoldThree(sum: u32) returns (r: u32)
    requires sum < 262084
    ensures r == sum % 65521
  {
    SubtractThree(sum);
    r := sum;
    if r >= 131042 {
      r := r - 131042;
    }
    if r >= 65521 {
      r := r - 65521;
    }
  }

  lemma SubtractTwice(a: nat)
    requires a < 196563
    ensures a % 65521 == (if a >= 131042 then a - 131042 else if a >= 65521 then a - 65521 else a)
  {
  }

  lemma SubtractThree(a: nat)
    requires a < 262084
    ensures a % 65521 == (var b := if a >= 131042 then a - 131042 else a; if b >= 65521 then b - 65521 else b)
  {
  }

  lemma SplitJoin(p: Pair)
    requires Reduced(p)
    ensures Split(Join(p)) == p && Join(p) < 0x1_0000_0000
  {
  }

  /** Combining the checksums of two strings gives the checksum of their concatenation. */
  method CombineChecksums(start: u32, s: seq<byte>, t: seq<byte>, noDivide: bool) returns (r: u32)
    requires Reduced(Split(start)) && |t| < 0x8000_0000_0000_0000
    ensures r == Join(Checksum(Split(start), s + t))
  {
    var p := Split(start);
    ChecksumReduced(p, s);
    ChecksumReduced(Pair(1, 0), t);
    SplitJoin(Checksum(p, s));
    SplitJoin(Checksum(Pair(1, 0), t));
    assert Split(1) == Pair(1, 0);
    var a := Adler32Z(start, Data(s), noDivide);
    var b := Adler32Z(1, Data(t), noDivide);
    r := Combine(a, b, |t|, noDivide);
    Combined(p, s, t);
  }
}
