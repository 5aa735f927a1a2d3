/** A volume on the medium, from f_mkfs to the first file. */
module FormatUse {
  import opened Bytes
  import opened ByteArray
  import opened FatCodec
  import opened FatTable
  import opened FatWindow
  import opened FatAlloc
  import opened FatRuns
  import opened FileMap
  import opened FatFile
  import opened FatLayout
  import opened FatVbr

  // ----- the geometry

  /** A volume can be worked with when it lies on a medium of this size, and its FAT holds all entries. */
  predicate Usable(g: Geometry, size: nat) {
    && (g.nFats == 1 || g.nFats == 2) && 2 < g.nFatent <= 0x7FFF_FFFF && 0 < g.csize && 0 < g.fatbase
    && g.fsType != ExFat
    && (g.fsType == Fat12 ==> g.nFatent <= 0xFF7) && (g.fsType == Fat16 ==> g.nFatent <= 0xFFF7)
    && (g.fsType == Fat32 ==> g.nFatent <= 0xFFF_FFF7)
    && ImageSize(g.fsType, g.nFatent) <= 512 * g.fsize
    && g.fatbase + g.fsize + (if g.nFats == 2 then g.fsize else 0) <= g.database
    && ClusterStart(g.database, g.csize, g.nFatent) <= size <= 0xFFFF_FFFF
  }

  lemma DivFits(a: nat, p: nat)
    requires ClusterSize(p)
    ensures p * Div(a, p) <= a
  {
  }

  lemma ImageFits(ty: FsType, m: nat)
    ensures ImageSize(ty, m) <= FatBytes(ty, m)
  {
    var h, r := m / 2, m % 2;
    HalfOf(m + 1, h + r, 1 - r);
    HalfOf(m * 3, 3 * h + r, r);
  }

  lemma HalfOf(x: nat, q: nat, r: nat)
    requires x == 2 * q + r && r < 2
    ensures x / 2 == q
  {
  }

  /** What is accepted and has a cluster can be used, when it is formatted where the medium has room for it. */
  lemma SoundIsUsable(l: Layout, szVol: nat, bVol: nat, szBlk: nat, size: nat)
    requires Sound(l, szVol, bVol, szBlk) && l.clusters != 0 && bVol + szVol <= size <= 0xFFFF_FFFF
    ensures Usable(Promised(l, bVol), size)
    ensures l.fatBase == bVol + l.rsv && Promised(l, bVol).database == l.fatBase + AllFats(l.fat, l.nFat) + l.nRoot / 16
  {
    DivFits(szVol - SysSize(l), l.pau);
    ImageFits(l.fsty, l.clusters + 2);
  }

  // ----- the FAT area

  predicate Blank(s: Sector) {
    forall i {:trigger s[i]} :: 0 <= i < 512 ==> s[i] == 0
  }

  /** The first FAT sector of an empty volume: the two reserved entries and, on FAT32, the root directory. */
  predicate StartOfFat(s: Sector, ty: FsType) {
    && LdDword(s, 0) == (if ty == Fat12 then 0xFF_FFF8 else 0xFFFF_FFF8)
    && LdDword(s, 4) == (if ty == Fat32 then 0xFFFF_FFFF else 0)
    && LdDword(s, 8) == (if ty == Fat32 then 0x0FFF_FFFF else 0)
    && forall i {:trigger s[i]} :: 12 <= i < 512 ==> s[i] == 0
  }

  /** From `base` on, `first` and then `n - 1` blank sectors. */
  predicate BlankBehind(d: seq<Sector>, base: nat, n: nat, first: Sector) {
    && 0 < n && base + n <= |d| && d[base] == first
    && forall k {:trigger d[k]} :: base < k < base + n ==> Blank(d[k])
  }

  /** Nothing but the sectors from `lo` to `hi` differs. */
  ghost predicate SameOutside(d: seq<Sector>, e: seq<Sector>, lo: nat, hi: nat) {
    && |d| == |e|
    && forall k {:trigger d[k]} {:trigger e[k]} :: 0 <= k < |d| && !(lo <= k < hi) ==> d[k] == e[k]
  }

  /** A medium of which some calls to write fail, numbered one by one. */
  class Medium {
    var disk: seq<Sector>
    var calls: nat
    const fails: nat -> bool

    constructor (d: seq<Sector>, bad: nat -> bool)
      ensures disk == d && fails == bad && calls == 0
    {
      disk, fails, calls := d, bad, 0;
    }

    /** A write has failed since call `from`. */
    ghost predicate FailedSince(from: nat)
      reads this`calls
    {
      exists i: nat {:trigger fails(i)} :: from <= i < calls && fails(i)
    }

    /** disk_write of the first `n` sectors of a buffer that is zero behind the first. */
    method Transfer(buf: array<byte>, sect: nat, n: nat) returns (ok: bool)
      requires 0 < n && 512 * n <= buf.Length && sect + n <= |disk|
      requires forall i {:trigger buf[i]} :: 512 <= i < buf.Length ==> buf[i] == 0
      modifies this`disk, this`calls
      ensures calls == old(calls) + 1 && ok == !fails(old(calls))
      ensures SameOutside(old(disk), disk, sect, sect + n)
      ensures ok ==> BlankBehind(disk, sect, n, buf[..512])
    {
      ok, calls := !fails(calls), calls + 1;
      if ok {
        var s := 0;
        while s < n
          invariant s <= n && calls == old(calls) + 1 && ok && SameOutside(old(disk), disk, sect, sect + n)
          invariant s > 0 ==> BlankBehind(disk, sect, s, buf[..512])
        {
          var x := buf[512 * s..512 * s + 512];
          disk := disk[sect + s := x];
          s := s + 1;
        }
      }
    }

    /**
     * Fills `count` sectors with the contents of the buffer's first one and zeros, as many at a time as the buffer
     * holds.
     */
    method Fill(buf: array<byte>, sect0: nat, count: nat) returns (ok: bool)
      requires 512 <= buf.Length && buf.Length % 512 == 0 && 0 < count && sect0 + count <= |disk|
      requires forall i {:trigger buf[i]} :: 512 <= i < buf.Length ==> buf[i] == 0
      modifies this`disk, this`calls, buf
      ensures old(calls) < calls && (ok <==> !FailedSince(old(calls)))
      ensures SameOutside(old(disk), disk, sect0, sect0 + count)
      ensures ok ==> BlankBehind(disk, sect0, count, old(buf[..512]))
      ensures ok ==> forall i {:trigger buf[i]} :: 0 <= i < buf.Length ==> buf[i] == 0
    {
      var sect: nat, nsect: nat := sect0, count;
      while nsect > 0
        invariant sect0 <= sect && sect + nsect == sect0 + count
        invariant forall i {:trigger buf[i]} :: 512 <= i < buf.Length ==> buf[i] == 0
        invariant old(calls) <= calls && !FailedSince(old(calls)) && (sect > sect0 ==> calls > old(calls))
        invariant SameOutside(old(disk), disk, sect0, sect)
        invariant sect == sect0 ==> buf[..512] == old(buf[..512])
        invariant sect > sect0 ==> Blank(buf[..512]) && BlankBehind(disk, sect0, sect - sect0, old(buf[..512]))
      {
        var n := if nsect > buf.Length / 512 then buf.Length / 512 else nsect;
        ghost var was := disk;
        ok := Transfer(buf, sect, n);
        OutsideBoth(old(disk), was, disk, sect0, sect, sect + n);
        if !ok {
          assert fails(calls - 1);
          return;
        }
        Continued(was, disk, sect0, sect, n, old(buf[..512]), buf[..512]);
        Clear(buf, 512);
        assert forall i :: 0 <= i < 512 ==> buf[..512][i] == buf[i];
        sect, nsect := sect + n, nsect - n;
      }
      ok := true;
      forall i {:trigger buf[i]} | 0 <= i < 512
        ensures buf[i] == 0
      {
        assert buf[..512][i] == 0;
      }
    }

    /** Writes the copies of the FAT of an empty volume, one behind the other. */
    method WriteFats(buf: array<byte>, ty: FsType, base: nat, fat: nat, nFat: nat) returns (ok: bool)
      requires 512 <= buf.Length && buf.Length % 512 == 0 && 0 < fat && 1 <= nFat <= 2
      requires base + AllFats(fat, nFat) <= |disk|
      requires AllZero(buf)
      modifies this`disk, this`calls, buf
      ensures old(calls) < calls && (ok <==> !FailedSince(old(calls)))
      ensures SameOutside(old(disk), disk, base, base + AllFats(fat, nFat))
      ensures ok ==>
                AllZero(buf) && EmptyFat(disk, ty, base, fat) && (nFat == 2 ==> EmptyFat(disk, ty, base + fat, fat))
    {
      StartFat(buf, ty);
      ok := Fill(buf, base, fat);
      if ok && nFat == 2 {
        ghost var was := disk;
        StartFat(buf, ty);
        ok := Fill(buf, base + fat, fat);
        OutsideBoth(old(disk), was, disk, base, base + fat, base + fat + fat);
        if ok {
          FatStays(was, disk, ty, base, fat, base + fat, base + fat + fat);
        }
      }
    }

    /** Initialize FAT area and root directory: what f_mkfs writes behind the boot record. */
    method WriteArea(buf: array<byte>, ty: FsType, base: nat, fat: nat, nFat: nat, root: nat, dir: nat)
      returns (ok: bool)
      requires 512 <= buf.Length && buf.Length % 512 == 0 && 0 < fat && 1 <= nFat <= 2 && 0 < dir
      requires root == base + AllFats(fat, nFat) && root + dir <= |disk|
      modifies this`disk, this`calls, buf
      ensures old(calls) < calls && (ok <==> !FailedSince(old(calls)))
      ensures SameOutside(old(disk), disk, base, root + dir)
      ensures ok ==> EmptyFat(disk, ty, base, fat) && (nFat == 2 ==> EmptyFat(disk, ty, base + fat, fat))
      ensures ok ==> AllBlank(disk, root, root + dir)
    {
      Clear(buf, buf.Length);
      ok := WriteFats(buf, ty, base, fat, nFat);
      ghost var was := disk;
      if ok {
        ok := Fill(buf, root, dir);
        if ok {
          FatStays(was, disk, ty, base, fat, root, root + dir);
          if nFat == 2 {
            FatStays(was, disk, ty, base + fat, fat, root, root + dir);
          }
        }
      }
      OutsideBoth(old(disk), was, disk, base, root, root + dir);
    }

    /** Boot record, FATs and root directory of an accepted layout. */
    method WriteVolume(sector: array<byte>, buf: array<byte>, l: Layout, szVol: nat, bVol: nat, vsn: nat)
      returns (ok: bool)
      requires Fits(l, szVol) && WritesWithin(l, szVol, bVol) && bVol + szVol <= |disk| <= 0xFFFF_FFFF
      requires vsn < 0x1_0000_0000
      requires sector.Length == 512 && 512 <= buf.Length && buf.Length % 512 == 0 && buf != sector
      modifies this`disk, this`calls, sector, buf
      ensures old(calls) < calls && (ok <==> !FailedSince(old(calls)))
      ensures SameOutside(old(disk), disk, bVol, bVol + szVol)
      ensures ok ==>
                && Describes(disk[bVol], l, szVol) && EmptyFats(disk, l)
                && AllBlank(disk, RootBase(l), RootBase(l) + RootSectors(l))
    {
      WriteVbr(sector, l, szVol, bVol, vsn);
      ghost var record := sector[..];
      assert record == sector[..512];
      ok := Transfer(sector, bVol, 1);
      ghost var was := disk;
      if !ok {
        assert fails(old(calls));
        return;
      }
      ok := WriteArea(buf, l.fsty, l.fatBase, l.fat, l.nFat, RootBase(l), RootSectors(l));
      OutsideBoth(old(disk), was, disk, bVol, bVol + 1, bVol + szVol);
      assert disk[bVol] == was[bVol];
    }
  }

  lemma OutsideBoth(d: seq<Sector>, e: seq<Sector>, f: seq<Sector>, lo: nat, at: nat, hi: nat)
    requires SameOutside(d, e, lo, at) && SameOutside(e, f, at, hi) && lo <= at <= hi
    ensures forall up: nat {:trigger SameOutside(d, f, lo, up)} :: hi <= up ==> SameOutside(d, f, lo, up)
  {
    forall up: nat | hi <= up
      ensures SameOutside(d, f, lo, up)
    {
      forall k | 0 <= k < |d| && !(lo <= k < up)
        ensures d[k] == f[k]
      {
        assert d[k] == e[k];
      }
    }
  }

  /** One more piece of blank sectors, or the first. */
  lemma Continued(d: seq<Sector>, e: seq<Sector>, base: nat, at: nat, n: nat, first: Sector, x: Sector)
    requires base <= at && SameOutside(d, e, at, at + n) && BlankBehind(e, at, n, x)
    requires if at == base then x == first else Blank(x) && BlankBehind(d, base, at - base, first)
    ensures BlankBehind(e, base, at + n - base, first)
  {
  }

  ghost predicate AllZero(buf: array<byte>)
    reads buf
  {
    forall i {:trigger buf[i]} :: 0 <= i < buf.Length ==> buf[i] == 0
  }

  /** The FAT of an empty volume, `n` sectors from `base` on. */
  predicate EmptyFat(d: seq<Sector>, ty: FsType, base: nat, n: nat) {
    0 < n && base + n <= |d| && StartOfFat(d[base], ty) && BlankBehind(d, base, n, d[base])
  }

  /** All copies of it. */
  predicate EmptyFats(d: seq<Sector>, l: Layout) {
    && EmptyFat(d, l.fsty, l.fatBase, l.fat)
    && (l.nFat == 2 ==> EmptyFat(d, l.fsty, l.fatBase + l.fat, l.fat))
  }

  lemma FatStays(d: seq<Sector>, e: seq<Sector>, ty: FsType, base: nat, n: nat, lo: nat, hi: nat)
    requires EmptyFat(d, ty, base, n) && SameOutside(d, e, lo, hi) && base + n <= lo
    ensures EmptyFat(e, ty, base, n)
  {
  }

  /** The root directory: a cluster on FAT32, else all of its entries. */
  function RootSectors(l: Layout): nat {
    if l.fsty == Fat32 then l.pau else l.nRoot / 16
  }

  function RootBase(l: Layout): nat {
    l.fatBase + AllFats(l.fat, l.nFat)
  }

  ghost predicate AllBlank(d: seq<Sector>, lo: nat, hi: nat) {
    hi <= |d| && forall k {:trigger d[k]} :: lo <= k < hi ==> Blank(d[k])
  }

  /** The parts f_mkfs writes follow each other and end within the volume. */
  predicate WritesWithin(l: Layout, szVol: nat, bVol: nat) {
    && bVol < l.fatBase && 0 < l.fat && 1 <= l.nFat <= 2
    && 0 < RootSectors(l) && RootBase(l) + RootSectors(l) <= bVol + szVol
  }

  lemma RoomForRoot(l: Layout, szVol: nat, bVol: nat, szBlk: nat)
    requires Sound(l, szVol, bVol, szBlk) && bVol + szVol <= 0xFFFF_FFFF
    ensures WritesWithin(l, szVol, bVol) && l.fatBase == bVol + l.rsv
  {
    DivFits(szVol - SysSize(l), l.pau);
  }

  /** The buffer for the first sector of a FAT */
  method StartFat(buf: array<byte>, ty: FsType)
    requires 512 <= buf.Length && AllZero(buf)
    modifies buf
    ensures StartOfFat(buf[..512], ty)
    ensures forall i {:trigger buf[i]} :: 512 <= i < buf.Length ==> buf[i] == 0
  {
    if ty == Fat32 {
      StDwordAt(buf, 0, 0xFFFF_FFF8);
      StDwordAt(buf, 4, 0xFFFF_FFFF);
      StDwordAt(buf, 8, 0x0FFF_FFFF);
    } else {
      StDwordAt(buf, 0, if ty == Fat12 then 0xFF_FFF8 else 0xFFFF_FFF8);
    }
  }

  // ----- the FAT of an empty volume

  /** The reserved entries are not zero, and every cluster but the FAT32 root directory is free. */
  predicate FreshTable(fat: seq<nat>, ty: FsType) {
    && 2 < |fat| && fat[0] != 0 && fat[1] != 0
    && forall c {:trigger fat[c]} :: 2 <= c < |fat| ==> fat[c] == if ty == Fat32 && c == 2 then 0x0FFF_FFFF else 0
  }

  /** One entry of the image of an empty FAT. */
  lemma FreshEntry(image: seq<byte>, ty: FsType, c: nat)
    requires ty != ExFat && ImageSize(ty, c + 1) <= |image| && 12 <= |image|
    requires LdDword(image, 0) == (if ty == Fat12 then 0xFF_FFF8 else 0xFFFF_FFF8)
    requires LdDword(image, 4) == (if ty == Fat32 then 0xFFFF_FFFF else 0)
    requires LdDword(image, 8) == (if ty == Fat32 then 0x0FFF_FFFF else 0)
    requires forall o {:trigger image[o]} :: 12 <= o < |image| ==> image[o] == 0
    ensures Decode(ty, image, c) ==
            if c == 0 then (match ty case Fat12 => 0xFF8 case Fat16 => 0xFFF8 case _ => 0xFFF_FFF8)
            else if c == 1 then (match ty case Fat12 => 0xFFF case Fat16 => 0xFFFF case _ => 0xFFF_FFFF)
            else if ty == Fat32 && c == 2 then 0x0FFF_FFFF else 0
  {
    assert image[0] == 0xF8 && image[1] == 0xFF && image[2] == 0xFF && image[3] == if ty == Fat12 then 0 else 0xFF;
    assert ty != Fat32 ==> forall o :: 4 <= o < 12 ==> image[o] == 0;
  }

  /** What a volume finds in the FAT that f_mkfs wrote. */
  lemma FreshVolume(v: Volume)
    requires v.Valid() && v.fsType != ExFat && v.winsect == 0xFFFF_FFFF && 2 < v.nFatent && 0 < v.fsize
    requires v.fatbase + v.fsize <= |v.disk| && EmptyFat(v.disk, v.fsType, v.fatbase, v.fsize)
    ensures FreshTable(v.fat, v.fsType)
  {
    assert Open(0);
    FreshImage(v.disk, v.rest, v.sectors, v.image, v.fatbase, v.fsType, v.MirrorSize());
    forall c | 0 <= c < |v.fat|
      ensures v.fat[c] == Decode(v.fsType, v.image, c)
    {
    }
    FreshEntry(v.image, v.fsType, 0);
    FreshEntry(v.image, v.fsType, 1);
    forall c | 2 <= c < |v.fat|
      ensures v.fat[c] == if v.fsType == Fat32 && c == 2 then 0x0FFF_FFFF else 0
    {
      FreshEntry(v.image, v.fsType, c);
    }
  }

  lemma FreshImage(disk: seq<Sector>, rest: seq<Sector>, sectors: seq<Sector>, image: seq<byte>, base: nat, ty: FsType,
                   mirror: nat)
    requires Shows(disk, rest, sectors, base, 0xFFFF_FFFF, mirror) && |disk| <= 0xFFFF_FFFF && Flattens(image, sectors)
    requires 0 < |sectors| && base + |sectors| <= |disk| && EmptyFat(disk, ty, base, |sectors|)
    ensures 12 <= |image|
    ensures LdDword(image, 0) == (if ty == Fat12 then 0xFF_FFF8 else 0xFFFF_FFF8)
    ensures LdDword(image, 4) == (if ty == Fat32 then 0xFFFF_FFFF else 0)
    ensures LdDword(image, 8) == (if ty == Fat32 then 0x0FFF_FFFF else 0)
    ensures forall o {:trigger image[o]} :: 12 <= o < |image| ==> image[o] == 0
  {
    forall o: nat | o < |image|
      ensures image[o] == disk[base + o / 512][o % 512]
    {
      assert At(o) && At(base + o / 512);
    }
    forall o | 12 <= o < |image|
      ensures image[o] == 0
    {
      assert o >= 512 ==> Blank(disk[base + o / 512]);
    }
  }

  /** The chains of an empty volume: none, or that of the root directory. */
  function FirstChains(ty: FsType): set<seq<nat>> {
    if ty == Fat32 then {[2]} else {}
  }

  function FirstHeads(ty: FsType): set<nat> {
    if ty == Fat32 then {2} else {}
  }

  lemma FreshPartition(fat: seq<nat>, ty: FsType)
    requires FreshTable(fat, ty) && |fat| <= 0xFFF_FFF7
    ensures Partition(fat, FirstChains(ty)) && Headed(FirstChains(ty), FirstHeads(ty))
    ensures FreeCount(fat) == |fat| - 2 - (if ty == Fat32 then 1 else 0)
  {
    var free := fat[2 := 0];
    FreeBelowBound(free, |free|);
    if ty == Fat32 {
      assert fat == free[2 := 0x0FFF_FFFF];
      FreeBelowUpdate(free, |free|, 2, 0x0FFF_FFFF);
      assert [2] in FirstChains(ty) && 2 in [2];
      assert Covered(FirstChains(ty), 2);
    } else {
      assert fat == free;
    }
  }

  /** Two copies of the FAT of an empty volume are equal. */
  lemma FreshCopies(d: seq<Sector>, ty: FsType, base: nat, n: nat)
    requires EmptyFat(d, ty, base, n) && EmptyFat(d, ty, base + n, n)
    ensures CopiesAgree(d, base, n, -1)
  {
    forall k: nat | k < n
      ensures SamePair(d, base, n, k)
    {
      SameStart(d[base], d[base + n], ty);
      if k > 0 {
        assert Blank(d[base + k]) && Blank(d[base + n + k]);
      }
    }
  }

  lemma SameStart(s: Sector, t: Sector, ty: FsType)
    requires StartOfFat(s, ty) && StartOfFat(t, ty)
    ensures s == t
  {
    SameDword(s, t, 0);
    SameDword(s, t, 4);
    SameDword(s, t, 8);
    forall i | 0 <= i < 512
      ensures s[i] == t[i]
    {
      assert i == 0 || i == 1 || i == 2 || i == 3 || i == 4 || i == 5 || i == 6 || i == 7
             || i == 8 || i == 9 || i == 10 || i == 11
             || (12 <= i && s[i] == 0 && t[i] == 0);
    }
  }

  lemma SameDword(s: Sector, t: Sector, o: nat)
    requires o + 3 < 512 && LdDword(s, o) == LdDword(t, o)
    ensures s[o] == t[o] && s[o + 1] == t[o + 1] && s[o + 2] == t[o + 2] && s[o + 3] == t[o + 3]
  {
    LowDigit(s[o], t[o], High(s, o), High(t, o));
    LowDigit(s[o + 1], t[o + 1],
             s[o + 2] as int + 0x100 * (s[o + 3] as int), t[o + 2] as int + 0x100 * (t[o + 3] as int));
    LowDigit(s[o + 2], t[o + 2], s[o + 3], t[o + 3]);
  }

  /** The upper three bytes of a double word */
  function High(s: Sector, o: nat): (h: int)
    requires o + 3 < 512
    ensures LdDword(s, o) == s[o] + 0x100 * h
  {
    s[o + 1] as int + 0x100 * (s[o + 2] as int + 0x100 * (s[o + 3] as int))
  }

  lemma LowDigit(a: byte, b: byte, x: int, y: int)
    requires a + 0x100 * x == b + 0x100 * y
    ensures a == b && x == y
  {
  }

  // ----- from the medium to the first file

  /** The volume a mount makes of an accepted layout. */
  ghost predicate Serves(v: Volume, l: Layout, bVol: nat)
    reads v
  {
    var g := Promised(l, bVol);
    && v.fsType == g.fsType && v.csize == g.csize && v.nFats == g.nFats && v.fsize == g.fsize && v.nFatent == g.nFatent
    && v.fatbase == g.fatbase && v.database == g.database
    && FreshTable(v.fat, v.fsType) && FreeCount(v.fat) == l.clusters - (if l.fsty == Fat32 then 1 else 0)
    && !v.differed
  }

  /** The volume object over a formatted medium, with the geometry a mount has found. */
  method StartVolume(fs: FileSystem, disk: seq<Sector>, ghost l: Layout, ghost szVol: nat, ghost bVol: nat,
                     ghost szBlk: nat, badRead: nat -> bool, badWrite: nat -> bool, left: nat -> Sector)
    returns (v: Volume)
    requires Sound(l, szVol, bVol, szBlk) && l.clusters != 0 && bVol + szVol <= |disk| <= 0xFFFF_FFFF
    requires fs.Shape() == Promised(l, bVol) && EmptyFats(disk, l)
    ensures fresh(v) && fresh(v.win) && v.Valid() && v.disk == disk && v.guard == {} && v.links == {}
    ensures Serves(v, l, bVol)
    ensures v.freeClst == v.winsect == 0xFFFF_FFFF && ClusterStart(v.database, v.csize, v.nFatent) <= |disk|
  {
    SoundIsUsable(l, szVol, bVol, szBlk, |disk|);
    v := new Volume(fs.fsType, fs.nFats, fs.nFatent, fs.csize, fs.fsize, fs.fatbase, fs.database, disk,
                    badRead, badWrite, left);
    FreshVolume(v);
    FreshPartition(v.fat, v.fsType);
    if v.nFats == 2 {
      FreshCopies(disk, v.fsType, v.fatbase, v.fsize);
    }
  }

  /** Mount, and the first file */
  method Start(fs: FileSystem, disk: seq<Sector>, ghost l: Layout, ghost szVol: nat, bVol: nat, ghost szBlk: nat,
               badRead: nat -> bool, badWrite: nat -> bool, left: nat -> Sector) returns (a: Allocator?, f: File?)
    requires Sound(l, szVol, bVol, szBlk) && 128 <= szVol && bVol + szVol <= |disk| <= 0xFFFF_FFFF
    requires Describes(disk[bVol], l, szVol) && EmptyFats(disk, l)
    modifies fs
    ensures a != null <==> l.clusters != 0
    ensures a != null ==>
              && a.Valid() && a.v.disk == disk && Serves(a.v, l, bVol)
              && a.chains == FirstChains(l.fsty) && a.heads == FirstHeads(l.fsty)
              && f != null && f.Valid() && f.vol == a.v && f.objsize == 0
  {
    a, f := null, null;
    FormatThenMount(disk[bVol], l, szVol, bVol, szBlk);
    var stat := CheckFs(disk[bVol]);
    var mounted := fs.MountVolume(disk[bVol], bVol);
    if stat == 0 && mounted {
      var v := StartVolume(fs, disk, l, szVol, bVol, szBlk, badRead, badWrite, left);
      FreshPartition(v.fat, v.fsType);
      a := new Allocator(v, FirstHeads(v.fsType), FirstChains(v.fsType));
      f := new File(v, true, true, 0, 0, []);
    }
  }

  /** f_mkfs */
  method Format(m: Medium, sector: array<byte>, buf: array<byte>, fat: bool, fat32: bool, szVol: nat, bVol: nat,
                align: nat, deviceBlock: nat, optFats: nat, optRoot: nat, auSize: nat, vsn: nat)
    returns (r: Option<Layout>, ok: bool)
    requires bVol + szVol <= |m.disk| <= 0xFFFF_FFFF && vsn < 0x1_0000_0000
    requires sector.Length == 512 && 512 <= buf.Length && buf.Length % 512 == 0 && buf != sector
    modifies m`disk, m`calls, sector, buf
    ensures SameOutside(old(m.disk), m.disk, bVol, bVol + szVol)
    ensures r.None? ==> m.disk == old(m.disk)
    ensures fat && 128 <= szVol && AuSectors(auSize) != 0 && Div(szVol, AuSectors(auSize)) <= MAX_FAT12 ==>
              var au := AuSectors(auSize);
              r.Some? <==> Fat12Possible(szVol, bVol, BlockSize(align, deviceBlock), au,
                                         Fat12System(szVol, au, FatCopies(optFats), RootEntries(optRoot)))
    ensures r.Some? ==>
              && Sound(r.value, szVol, bVol, BlockSize(align, deviceBlock)) && 128 <= szVol
              && (ok <==> !m.FailedSince(old(m.calls)))
              && (r.value.clusters == 0 <==>
                  NoCluster(szVol, bVol, BlockSize(align, deviceBlock), r.value.pau, FatCopies(optFats),
                            RootEntries(optRoot)))
    ensures r.Some? && ok ==>
              && Describes(m.disk[bVol], r.value, szVol) && EmptyFats(m.disk, r.value)
              && AllBlank(m.disk, RootBase(r.value), RootBase(r.value) + RootSectors(r.value))
  {
    ok := false;
    r := ChooseLayout(fat, fat32, szVol, bVol, align, deviceBlock, optFats, optRoot, auSize);
    if r.Some? {
      RoomForRoot(r.value, szVol, bVol, BlockSize(align, deviceBlock));
      SoundFits(r.value, szVol, bVol, BlockSize(align, deviceBlock));
      ok := m.WriteVolume(sector, buf, r.value, szVol, bVol, vsn);
    }
  }

  /**
   * f_mkfs, then a mount of what it has left on the medium, and the first empty file: for every medium with room for
   * the volume, and whatever writes fail, this ends in an allocator and a file with all their invariants, or says why
   * not.
   */
  method FormatAndStart(m: Medium, fs: FileSystem, sector: array<byte>, buf: array<byte>, fat: bool, fat32: bool,
                        szVol: nat, bVol: nat, align: nat, deviceBlock: nat, optFats: nat, optRoot: nat, auSize: nat,
                        vsn: nat, badRead: nat -> bool, badWrite: nat -> bool, left: nat -> Sector)
    returns (r: Option<Layout>, ok: bool, a: Allocator?, f: File?)
    requires bVol + szVol <= |m.disk| <= 0xFFFF_FFFF && vsn < 0x1_0000_0000
    requires sector.Length == 512 && 512 <= buf.Length && buf.Length % 512 == 0 && buf != sector
    modifies m`disk, m`calls, fs, sector, buf
    ensures SameOutside(old(m.disk), m.disk, bVol, bVol + szVol)
    ensures r.None? ==> m.disk == old(m.disk)
    ensures fat && 128 <= szVol && AuSectors(auSize) != 0 && Div(szVol, AuSectors(auSize)) <= MAX_FAT12 ==>
              var au := AuSectors(auSize);
              r.Some? <==> Fat12Possible(szVol, bVol, BlockSize(align, deviceBlock), au,
                                         Fat12System(szVol, au, FatCopies(optFats), RootEntries(optRoot)))
    ensures r.Some? ==>
              Sound(r.value, szVol, bVol, BlockSize(align, deviceBlock)) && (ok <==> !m.FailedSince(old(m.calls)))
    ensures r.Some? && ok ==> AllBlank(m.disk, RootBase(r.value), RootBase(r.value) + RootSectors(r.value))
    ensures a != null <==>
              r.Some? && ok &&
              !NoCluster(szVol, bVol, BlockSize(align, deviceBlock), r.value.pau, FatCopies(optFats),
                         RootEntries(optRoot))
    ensures a != null ==>
              && a.Valid() && a.v.disk == m.disk && Serves(a.v, r.value, bVol)
              && a.chains == FirstChains(r.value.fsty) && a.heads == FirstHeads(r.value.fsty)
              && f != null && f.Valid() && f.vol == a.v && f.objsize == 0
  {
    a, f := null, null;
    r, ok := Format(m, sector, buf, fat, fat32, szVol, bVol, align, deviceBlock, optFats, optRoot, auSize, vsn);
    if r.Some? && ok {
      a, f := Start(fs, m.disk, r.value, szVol, bVol, BlockSize(align, deviceBlock), badRead, badWrite, left);
    }
  }
}
