/** The allocation bitmap of an exFAT volume, read and changed through the sector window. */
module ExFatBitmap {
  import opened Bytes
  import opened FatCodec
  import opened FatWindow

  /** Is bit `b` of `x` set? */
  predicate Bit(x: nat, b: nat)
    decreases b
  {
    if b == 0 then x % 2 == 1 else Bit(x / 2, b - 1)
  }

  /** `x` with bit `b` inverted. */
  function Flip(x: nat, b: nat): nat
    decreases b
  {
    if b == 0 then (if x % 2 == 1 then x - 1 else x + 1) else x % 2 + 2 * Flip(x / 2, b - 1)
  }

  lemma {:induction false} FlipBits(x: nat, b: nat, c: nat)
    ensures Bit(Flip(x, b), c) <==> if c == b then !Bit(x, b) else Bit(x, c)
    decreases b
  {
    if b > 0 {
      var r := Flip(x, b);
      assert r / 2 == Flip(x / 2, b - 1) && r % 2 == x % 2;
      if c > 0 {
        FlipBits(x / 2, b - 1, c - 1);
      }
    } else {
      assert Flip(x, b) / 2 == x / 2;
    }
  }

  lemma {:induction false} FlipBound(x: nat, b: nat, k: nat)
    requires x < Pow2(k) && b < k
    ensures Flip(x, b) < Pow2(k)
    decreases b
  {
    if b > 0 {
      FlipBound(x / 2, b - 1, k - 1);
    }
  }

  lemma ByteBits()
    ensures Pow2(8) == 0x100
  {
    assert Pow2(4) == 16;
  }

  /** Is bit `k` of the bitmap that starts at sector `base` set? */
  ghost predicate Marked(rest: seq<Sector>, base: nat, k: nat)
    requires base + k / 8 / 512 < |rest|
  {
    Bit(rest[base + k / 8 / 512][k / 8 % 512], k % 8)
  }

  /** `used` lists the bits of the bitmap, one for each cluster from 2 on. */
  ghost predicate BitsOk(rest: seq<Sector>, base: nat, used: seq<bool>) {
    && base + |used| / 8 / 512 < |rest|
    && forall k: nat {:trigger At(k)} :: At(k) && k < |used| ==> (used[k] <==> Marked(rest, base, k))
  }

  lemma BitsAfterFlip(rest: seq<Sector>, base: nat, used: seq<bool>, k: nat, v: byte)
    requires BitsOk(rest, base, used) && k < |used|
    requires v == Flip(rest[base + k / 8 / 512][k / 8 % 512], k % 8)
    ensures var s := base + k / 8 / 512;
            BitsOk(rest[s := rest[s][k / 8 % 512 := v]], base, used[k := !used[k]])
  {
    var s := base + k / 8 / 512;
    var rest' := rest[s := rest[s][k / 8 % 512 := v]];
    var used' := used[k := !used[k]];
    forall j: nat | At(j) && j < |used|
      ensures used'[j] <==> Marked(rest', base, j)
    {
      FlipBits(rest[s][k / 8 % 512], k % 8, j % 8);
      assert At(k);
      assert j / 8 == k / 8 && j % 8 == k % 8 ==> j == k;
      assert j / 8 / 512 == k / 8 / 512 && j / 8 % 512 == k / 8 % 512 ==> j / 8 == k / 8;
    }
  }

  class Bitmap {
    const vol: Volume
    const bitbase: nat       // first sector of the bitmap
    ghost var used: seq<bool> // cluster k + 2 is in use

    ghost predicate Valid()
      reads this, vol`disk, vol`winsect, vol`wflag, vol`rest, vol`sectors, vol`image, vol`fat, vol`readCount
      reads vol`writeCount, vol`readMark, vol`writeMark, vol`differed, vol`guard, vol`kept, vol`links, vol`keptFat
      reads vol.win
    {
      && vol.Valid() && vol.database <= bitbase
      && |used| == vol.nFatent - 2
      && BitsOk(vol.rest, bitbase, used)
      && forall s {:trigger s in vol.guard} :: bitbase <= s <= bitbase + |used| / 8 / 512 ==> s !in vol.guard
    }

    constructor (v: Volume, base: nat)
      requires v.Valid() && v.guard == {} && v.database <= base && base + (v.nFatent - 2) / 8 / 512 < |v.rest|
      ensures Valid() && vol == v && bitbase == base
    {
      vol, bitbase := v, base;
      ghost var rest := v.rest;
      used := seq(v.nFatent - 2, k requires 0 <= k < v.nFatent - 2 => MarkedAt(rest, base, v.nFatent - 2, k));
    }

    /** Read bit `k` through the window, whose sector is the right one. */
    method ReadBit(k: nat) returns (set_: bool)
      requires Valid() && k < |used| && vol.winsect == bitbase + k / 8 / 512
      ensures set_ == used[k]
    {
      assert At(k);
      assert k / 8 / 512 <= |used| / 8 / 512;
      var x := vol.LoadDataByte(k / 8 % 512);
      set_ := Bit(x, k % 8);
    }

    /** The sector of a bit lies on the medium. */
    lemma BitOnMedium(k: nat)
      requires Valid() && k < |used|
      ensures bitbase + k / 8 / 512 < |vol.disk|
    {
      assert k / 8 / 512 <= |used| / 8 / 512;
    }

    /** No cluster is free. */
    ghost predicate AllUsed()
      reads this`used
    {
      forall k :: 0 <= k < |used| ==> used[k]
    }

    /** Every cluster that the scan from `start` has passed on its way to `val` is in use. */
    ghost predicate Passed(start: nat, val: nat, wrapped: bool)
      requires start < |used| && val < |used|
      reads this`used
    {
      && (wrapped ==> val < start) && (!wrapped ==> start <= val)
      && (forall k :: start <= k < |used| && (wrapped || k < val) ==> used[k])
      && (wrapped ==> forall k :: 0 <= k < val ==> used[k])
    }

    /**
      The scan of find_bitmap within the sector in the window, for a single cluster.
      Its loops over bytes and mask bits are one loop over bits. Result -1 is to go on with the next sector.
      */
    method ScanSector(start: nat, val0: nat, ghost w0: bool) returns (ncl: int, val: nat, ghost w: bool)
      requires Valid() && start < |used| && val0 < |used| && Passed(start, val0, w0)
      requires vol.winsect == bitbase + val0 / 8 / 512
      ensures val < |used|
      ensures ncl == -1 ==> Passed(start, val, w) && ((w && !w0) || (w == w0 && val0 < val))
      ensures ncl == 0 ==> AllUsed()
      ensures ncl > 0 ==> ncl == val + 2 && !used[val] && Passed(start, val, w)
      ensures ncl >= -1
    {
      var n := vol.nFatent - 2;
      ncl, val, w := -1, val0, w0;
      var more := true;
      while more
        invariant val < n && Passed(start, val, w)
        invariant more ==> w == w0 && vol.winsect == bitbase + val / 8 / 512 && val0 <= val
        invariant !more ==> (w && !w0) || (w == w0 && val0 < val)
        decreases more, n - val
      {
        var bv := ReadBit(val);
        if !bv { return val + 2, val, w; }
        var next: nat := val + 1;
        if next >= n {
          next, more := 0, false;
        } else if next % 4096 == 0 {
          more := false;
        }
        if next == start { return 0, val, w; }
        w := w || next == 0;
        val := next;
      }
    }

    /** find_bitmap for a single cluster: 0 none found, 0xFFFFFFFF disk error. */
    method FindFree(clst: nat) returns (ncl: nat)
      requires Valid() && vol.nFatent > 2
      modifies vol`disk, vol`wflag, vol`winsect, vol`readCount, vol`writeCount, vol.win
      ensures Valid()
      ensures ncl == DISK_ERROR ==> vol.Failed()
      ensures ncl == 0 ==> AllUsed()
      ensures ncl != 0 && ncl != DISK_ERROR ==> 2 <= ncl < vol.nFatent && !used[ncl - 2]
      // the cluster behind the one asked for is taken when that one is in use and this one is free
      ensures 2 <= clst && clst + 1 < vol.nFatent && used[clst - 2] && !used[clst - 1] ==>
                ncl == clst + 1 || ncl == DISK_ERROR
    {
      var start: nat := if clst < 2 || clst - 2 >= vol.nFatent - 2 then 0 else clst - 2;
      var val: nat := start;
      ghost var w := false;
      while true
        invariant Valid() && val < |used| && Passed(start, val, w)
        decreases !w, |used| - val
      {
        BitOnMedium(val);
        var res := vol.ShowSector(bitbase + val / 8 / 512);
        if res != Ok { return DISK_ERROR; }
        var found;
        found, val, w := ScanSector(start, val, w);
        if found >= 0 { return found; }
      }
    }

    /** change_bitmap for a single cluster: mark it or free it; an internal error when it is so already. */
    method Change(clst: nat, bv: bool) returns (res: FResult)
      requires Valid() && 2 <= clst < vol.nFatent
      modifies this`used, vol`disk, vol`rest, vol`wflag, vol`winsect, vol`readCount, vol`writeCount, vol.win
      ensures vol.Valid() && |vol.disk| == |old(vol.disk)|
      ensures Valid()
      ensures res == DiskErr ==> vol.Failed()
      ensures res != DiskErr ==> (res == IntErr <==> old(used)[clst - 2] == bv)
      ensures used == if res == Ok then old(used)[clst - 2 := bv] else old(used)
    {
      var k := clst - 2;
      BitOnMedium(k);
      res := vol.ShowSector(bitbase + k / 8 / 512);
      if res == Ok {
        assert At(k);
        assert k / 8 / 512 <= |used| / 8 / 512;
        var x := vol.LoadDataByte(k / 8 % 512);
        if bv == Bit(x, k % 8) {
          res := IntErr;
        } else {
          Toggle(k, x);
        }
      }
    }

    /** The store of change_bitmap: bit `k` of the byte `x` is inverted. */
    method Toggle(k: nat, x: byte)
      requires Valid() && k < |used| && vol.winsect == bitbase + k / 8 / 512 < |vol.rest|
      requires x == vol.rest[vol.winsect][k / 8 % 512]
      modifies this`used, vol`rest, vol`wflag, vol.win
      ensures Valid() && used == old(used)[k := !old(used)[k]]
    {
      assert k / 8 / 512 <= |used| / 8 / 512;
      FlipBound(x, k % 8, 8);
      ByteBits();
      BitsAfterFlip(vol.rest, bitbase, used, k, Flip(x, k % 8));
      vol.StoreDataByte(k / 8 % 512, Flip(x, k % 8));
      used := used[k := !used[k]];
    }
  }

  ghost predicate MarkedAt(rest: seq<Sector>, base: nat, n: nat, k: nat)
    requires base + n / 8 / 512 < |rest| && k < n
  {
    assert k / 8 / 512 <= n / 8 / 512;
    Marked(rest, base, k)
  }
}
