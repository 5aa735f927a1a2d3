/** Little-endian access to byte buffers, as the ld_* and st_* helpers of FatFs do it. */
module Bytes {
  type byte = b: int | 0 <= b < 0x100

  /** The contents of one 512-byte sector. */
  type Sector = s: seq<byte> | |s| == 512 witness seq(512, i => 0)

  datatype FResult = Ok | DiskErr | IntErr

  const DISK_ERROR: int := 0xFFFF_FFFF

  function Pow2(k: nat): nat {
    if k == 0 then 1 else 2 * Pow2(k - 1)
  }

  /** Marks the indices at which an invariant about every index is to be used. */
  ghost predicate At(i: int) {
    true
  }

  /** Marks a place where the inside of a layer's invariant is to be used. */
  ghost predicate Open(i: int) {
    true
  }

  /** As Open, for the layer of open files. */
  ghost predicate Unlock(i: int) {
    true
  }

  function LdWord(s: seq<byte>, i: nat): int
    requires i + 1 < |s|
  {
    s[i] as int + 0x100 * (s[i + 1] as int)
  }

  function LdDword(s: seq<byte>, i: nat): int
    requires i + 3 < |s|
  {
    s[i] as int + 0x100 * (s[i + 1] as int) + 0x1_0000 * (s[i + 2] as int) + 0x100_0000 * (s[i + 3] as int)
  }
}

/** The same for buffers that are changed in place. */
module ByteArray {
  import opened Bytes

  /** Nothing but the bytes from `lo` to `hi` has changed. */
  twostate predicate OnlyIn(buf: array<byte>, lo: int, hi: int)
    reads buf
  {
    forall i {:trigger buf[i]} :: 0 <= i < buf.Length && !(lo <= i < hi) ==> buf[i] == old(buf[i])
  }

  function WordAt(buf: array<byte>, o: nat): (w: nat)
    requires o + 1 < buf.Length
    reads buf
    ensures w < 0x1_0000
  {
    buf[o] as int + 0x100 * (buf[o + 1] as int)
  }

  /** st_word, of a value that fits */
  method StWord(buf: array<byte>, o: nat, v: nat)
    requires o + 1 < buf.Length && v < 0x1_0000
    modifies buf
    ensures WordAt(buf, o) == v && OnlyIn(buf, o, o + 2)
  {
    buf[o], buf[o + 1] := v % 0x100, v / 0x100;
  }
}

/** The packed FAT12/16/32/exFAT entry codec, on the image of one FAT copy. */
module FatCodec {
  import opened Bytes

  datatype FsType = Fat12 | Fat16 | Fat32 | ExFat

  /** Number of image bytes that hold the first `n` entries. */
  function ImageSize(ty: FsType, n: nat): nat {
    match ty
    case Fat12 => n + (n + 1) / 2
    case Fat16 => 2 * n
    case Fat32 => 4 * n
    case ExFat => 4 * n
  }

  /** What survives of a value that is stored and loaded again. */
  function Mask(ty: FsType, val: nat): nat {
    match ty
    case Fat12 => val % 0x1000
    case Fat16 => val % 0x1_0000
    case Fat32 => val % 0x1000_0000
    case ExFat => val % 0x8000_0000
  }

  /** The value get_fat extracts for cluster `c`. */
  function Decode(ty: FsType, image: seq<byte>, c: nat): (val: nat)
    requires ImageSize(ty, c + 1) <= |image|
    ensures Mask(ty, val) == val
  {
    match ty
    case Fat12 =>
      var w := LdWord(image, c + c / 2);
      var v := if c % 2 == 1 then w / 16 else w % 0x1000;
      OwnRest(v, 0x1000);
      v
    case Fat16 =>
      OwnRest(LdWord(image, 2 * c), 0x1_0000);
      LdWord(image, 2 * c)
    case Fat32 =>
      OwnRest(LdDword(image, 4 * c) % 0x1000_0000, 0x1000_0000);
      LdDword(image, 4 * c) % 0x1000_0000
    case ExFat =>
      OwnRest(LdDword(image, 4 * c) % 0x8000_0000, 0x8000_0000);
      LdDword(image, 4 * c) % 0x8000_0000
  }

  lemma OwnRest(v: nat, m: nat)
    requires v < m
    ensures v % m == v
  {
  }

  function StDword(image: seq<byte>, o: nat, v: nat): (r: seq<byte>)
    requires o + 3 < |image|
    ensures |r| == |image|
  {
    image[o := v % 0x100][o + 1 := v / 0x100 % 0x100]
         [o + 2 := v / 0x1_0000 % 0x100][o + 3 := v / 0x100_0000 % 0x100]
  }

  /** First byte of a FAT12 entry after put_fat, keeping the nibble of a neighbour. */
  function Fat12Low(c: nat, val: nat, old_: byte): byte {
    if c % 2 == 1 then old_ % 16 + val % 16 * 16 else val % 0x100
  }

  /** Second byte of a FAT12 entry after put_fat. */
  function Fat12High(c: nat, val: nat, old_: byte): byte {
    if c % 2 == 1 then val / 16 % 0x100 else old_ / 16 * 16 + val / 0x100 % 16
  }

  /** The image put_fat leaves behind; FAT32 keeps the reserved upper four bits. */
  function Encode(ty: FsType, image: seq<byte>, c: nat, val: nat): (r: seq<byte>)
    requires ImageSize(ty, c + 1) <= |image|
    ensures |r| == |image|
  {
    match ty
    case Fat12 =>
      var o := c + c / 2;
      image[o := Fat12Low(c, val, image[o])][o + 1 := Fat12High(c, val, image[o + 1])]
    case Fat16 => image[2 * c := val % 0x100][2 * c + 1 := val / 0x100 % 0x100]
    case Fat32 =>
      StDword(image, 4 * c, val % 0x1000_0000 + LdDword(image, 4 * c) / 0x1000_0000 * 0x1000_0000)
    case ExFat => StDword(image, 4 * c, val)
  }

  lemma StoreThenLoad(image: seq<byte>, o: nat, v: nat)
    requires o + 3 < |image|
    ensures LdDword(StDword(image, o, v), o) == v % 0x1_0000_0000
  {
    var b, d, e := v / 0x100, v / 0x1_0000, v / 0x100_0000;
    assert d == b / 0x100;
    assert e == d / 0x100;
    assert v / 0x1_0000_0000 == e / 0x100;
  }

  /** A stored value is loaded back, cut to the width of an entry. */
  lemma PutThenGet(ty: FsType, image: seq<byte>, c: nat, val: nat)
    requires ImageSize(ty, c + 1) <= |image|
    ensures Decode(ty, Encode(ty, image, c, val), c) == Mask(ty, val)
  {
    match ty
    case Fat12 => Fat12PutThenGet(image, c, val);
    case Fat16 => Fat16PutThenGet(image, c, val);
    case Fat32 => Fat32PutThenGet(image, c, val);
    case ExFat => ExFatPutThenGet(image, c, val);
  }

  lemma Fat16PutThenGet(image: seq<byte>, c: nat, val: nat)
    requires ImageSize(Fat16, c + 1) <= |image|
    ensures Decode(Fat16, Encode(Fat16, image, c, val), c) == val % 0x1_0000
  {
    var q := val / 0x100;
    assert val == 0x1_0000 * (q / 0x100) + (val % 0x100 + 0x100 * (q % 0x100));
  }

  lemma ExFatPutThenGet(image: seq<byte>, c: nat, val: nat)
    requires ImageSize(ExFat, c + 1) <= |image|
    ensures Decode(ExFat, Encode(ExFat, image, c, val), c) == val % 0x8000_0000
  {
    StoreThenLoad(image, 4 * c, val);
    CutTwice(val);
  }

  lemma CutTwice(val: nat)
    ensures val % 0x1_0000_0000 % 0x8000_0000 == val % 0x8000_0000
  {
    var q, r := val / 0x1_0000_0000, val % 0x1_0000_0000;
    var s, t := r / 0x8000_0000, r % 0x8000_0000;
    CutAtBit31(val, 2 * q + s, t);
  }

  lemma CutAtBit31(v: nat, a: nat, b: nat)
    requires v == 0x8000_0000 * a + b && b < 0x8000_0000
    ensures v % 0x8000_0000 == b
  {
  }

  lemma Fat12PutThenGet(image: seq<byte>, c: nat, val: nat)
    requires ImageSize(Fat12, c + 1) <= |image|
    ensures Decode(Fat12, Encode(Fat12, image, c, val), c) == val % 0x1000
  {
    var o := c + c / 2;
    var r := Encode(Fat12, image, c, val);
    assert r[o] == Fat12Low(c, val, image[o]) && r[o + 1] == Fat12High(c, val, image[o + 1]);
    NibblesThenWord(image[o], image[o + 1], c, val);
  }

  lemma Fat32PutThenGet(image: seq<byte>, c: nat, val: nat)
    requires ImageSize(Fat32, c + 1) <= |image|
    ensures Decode(Fat32, Encode(Fat32, image, c, val), c) == val % 0x1000_0000
    ensures LdDword(Encode(Fat32, image, c, val), 4 * c) / 0x1000_0000 == LdDword(image, 4 * c) / 0x1000_0000
  {
    var lo, keep := val % 0x1000_0000, LdDword(image, 4 * c) / 0x1000_0000;
    StoreThenLoad(image, 4 * c, lo + keep * 0x1000_0000);
    SplitAtBit28(lo, keep);
  }

  lemma SplitAtBit28(lo: nat, keep: nat)
    requires lo < 0x1000_0000 && keep < 16
    ensures (lo + keep * 0x1000_0000) % 0x1_0000_0000 == lo + keep * 0x1000_0000
    ensures (lo + keep * 0x1000_0000) % 0x1000_0000 == lo
    ensures (lo + keep * 0x1000_0000) / 0x1000_0000 == keep
  {
  }

  lemma NibblesThenWord(lo: byte, hi: byte, c: nat, val: nat)
    ensures var w := Fat12Low(c, val, lo) as int + 0x100 * (Fat12High(c, val, hi) as int);
            (if c % 2 == 1 then w / 16 else w % 0x1000) == val % 0x1000
  {
    if c % 2 == 1 {
      var q, n := val / 16, val % 16;
      OddNibbles(lo % 16, n, q % 0x100);
      EntryDigits(q / 0x100, q % 0x100, n);
    } else {
      var q, b := val / 0x100, val % 0x100;
      EvenNibbles(b, q % 16, hi / 16);
      EntryBytes(q / 16, q % 16, b);
    }
  }

  lemma OddNibbles(keep: nat, n: nat, high: nat)
    requires keep < 16
    ensures (keep + n * 16 + 0x100 * high) / 16 == n + 16 * high
  {
  }

  lemma EvenNibbles(b: nat, n: nat, keep: nat)
    requires b < 0x100 && n < 16
    ensures (b + 0x100 * (keep * 16 + n)) % 0x1000 == b + 0x100 * n
  {
    assert b + 0x100 * (keep * 16 + n) == b + 0x100 * n + 0x1000 * keep;
  }

  lemma EntryDigits(top: nat, mid: nat, n: nat)
    requires mid < 0x100 && n < 16
    ensures (16 * (0x100 * top + mid) + n) % 0x1000 == n + 16 * mid
  {
    assert 16 * (0x100 * top + mid) + n == 0x1000 * top + (n + 16 * mid);
  }

  lemma EntryBytes(top: nat, n: nat, b: nat)
    requires n < 16 && b < 0x100
    ensures (0x100 * (16 * top + n) + b) % 0x1000 == b + 0x100 * n
  {
    assert 0x100 * (16 * top + n) + b == 0x1000 * top + (b + 0x100 * n);
  }

  /** No other entry changes, not even one that shares a byte with the stored entry. */
  lemma PutLeavesOthers(ty: FsType, image: seq<byte>, c: nat, val: nat, d: nat)
    requires ImageSize(ty, c + 1) <= |image| && ImageSize(ty, d + 1) <= |image|
    requires c != d
    ensures Decode(ty, Encode(ty, image, c, val), d) == Decode(ty, image, d)
  {
    match ty
    case Fat12 => Fat12LeavesOthers(image, c, val, d);
    case Fat16 =>
    case Fat32 =>
    case ExFat =>
  }

  lemma Fat12LeavesOthers(image: seq<byte>, c: nat, val: nat, d: nat)
    requires ImageSize(Fat12, c + 1) <= |image| && ImageSize(Fat12, d + 1) <= |image|
    requires c != d
    ensures Decode(Fat12, Encode(Fat12, image, c, val), d) == Decode(Fat12, image, d)
  {
    var o, p := c + c / 2, d + d / 2;
    var r := Encode(Fat12, image, c, val);
    if p == o + 1 {
      assert c % 2 == 0 && d % 2 == 1;
      HighPartKept(image[p], val / 0x100 % 16, image[p + 1]);
    } else if p + 1 == o {
      assert c % 2 == 1 && d % 2 == 0;
      LowPartKept(image[p], image[o], val % 16);
    } else {
      assert r[p] == image[p] && r[p + 1] == image[p + 1];
    }
  }

  lemma HighPartKept(a: byte, x: nat, b: byte)
    requires x < 16
    ensures (a / 16 * 16 + x + 0x100 * (b as int)) / 16 == (a as int + 0x100 * (b as int)) / 16
  {
  }

  lemma LowPartKept(a: byte, b: byte, y: nat)
    requires y < 16
    ensures (a as int + 0x100 * (b % 16 + y * 16)) % 0x1000 == (a as int + 0x100 * (b as int)) % 0x1000
  {
    assert a as int + 0x100 * (b % 16 + y * 16) == a as int + 0x100 * (b % 16) + 0x1000 * y;
    assert a as int + 0x100 * (b as int) == a as int + 0x100 * (b % 16) + 0x1000 * (b / 16);
    HighPartDropped(a as int + 0x100 * (b % 16), y);
    HighPartDropped(a as int + 0x100 * (b % 16), b / 16);
  }

  lemma HighPartDropped(x: nat, y: nat)
    ensures (x + 0x1000 * y) % 0x1000 == x % 0x1000
  {
  }

  /** FAT32 never touches the reserved upper four bits of an entry. */
  lemma PutKeepsReservedBits(image: seq<byte>, c: nat, val: nat, d: nat)
    requires 4 * c + 4 <= |image| && 4 * d + 4 <= |image|
    ensures LdDword(Encode(Fat32, image, c, val), 4 * d) / 0x1000_0000 == LdDword(image, 4 * d) / 0x1000_0000
  {
    if c == d {
      Fat32PutThenGet(image, c, val);
    }
  }

  /** The value a FAT12 entry has when only its first byte has been stored. */
  function HalfValue(image: seq<byte>, c: nat, val: nat): nat
    requires ImageSize(Fat12, c + 1) <= |image|
  {
    var hi := image[c + c / 2 + 1];
    if c % 2 == 1 then val % 16 + 16 * (hi as int) else val % 0x100 + 0x100 * ((hi as int) % 16)
  }

  /** Storing only the first byte is storing some other value of the same entry. */
  lemma FirstByteOnly(image: seq<byte>, c: nat, val: nat)
    requires ImageSize(Fat12, c + 1) <= |image|
    ensures var o := c + c / 2;
            image[o := Fat12Low(c, val, image[o])] == Encode(Fat12, image, c, HalfValue(image, c, val))
  {
    var o := c + c / 2;
    if c % 2 == 1 {
      OddHalf(val % 16, image[o + 1]);
    } else {
      EvenHalf(val % 0x100, image[o + 1]);
    }
    var h := HalfValue(image, c, val);
    assert Fat12Low(c, h, image[o]) == Fat12Low(c, val, image[o]);
    assert Fat12High(c, h, image[o + 1]) == image[o + 1];
  }

  lemma OddHalf(n: nat, hi: byte)
    requires n < 16
    ensures (n + 16 * (hi as int)) % 16 == n && (n + 16 * (hi as int)) / 16 % 0x100 == hi
  {
  }

  lemma EvenHalf(n: nat, hi: byte)
    requires n < 0x100
    ensures (n + 0x100 * ((hi as int) % 16)) % 0x100 == n
    ensures (n + 0x100 * ((hi as int) % 16)) / 0x100 % 16 == (hi as int) % 16
    ensures hi / 16 * 16 + (hi as int) % 16 == hi as int
  {
  }
}
