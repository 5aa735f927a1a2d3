/** The boot record f_mkfs writes, and what check_fs and mount_volume make of it. */
module FatVbr {
  import opened Bytes
  import opened ByteArray
  import opened FatCodec
  import opened FatLayout

  const FAT32_NAME: seq<byte> := [0x46, 0x41, 0x54, 0x33, 0x32, 0x20, 0x20, 0x20]  // "FAT32   "
  const EXFAT_JUMP: seq<byte> := [0xEB, 0x76, 0x90, 0x45, 0x58, 0x46, 0x41, 0x54, 0x20, 0x20, 0x20]

  function DwordAt(buf: array<byte>, o: nat): nat
    requires o + 3 < buf.Length
    reads buf
  {
    WordAt(buf, o) + 0x1_0000 * WordAt(buf, o + 2)
  }

  /** st_dword, of a value that fits */
  method StDwordAt(buf: array<byte>, o: nat, v: nat)
    requires o + 3 < buf.Length && v < 0x1_0000_0000
    modifies buf
    ensures DwordAt(buf, o) == v && OnlyIn(buf, o, o + 4)
  {
    StWord(buf, o, v % 0x1_0000);
    StWord(buf, o + 2, v / 0x1_0000);
  }

  method MemCpy(buf: array<byte>, o: nat, s: seq<byte>)
    requires o + |s| <= buf.Length
    modifies buf
    ensures buf[o..o + |s|] == s && OnlyIn(buf, o, o + |s|)
  {
    for i := 0 to |s|
      invariant buf[o..o + i] == s[..i] && OnlyIn(buf, o, o + i)
    {
      buf[o + i] := s[i];
    }
  }

  method Clear(buf: array<byte>, n: nat)
    requires n <= buf.Length
    modifies buf
    ensures (forall i {:trigger buf[i]} :: 0 <= i < n ==> buf[i] == 0) && OnlyIn(buf, 0, n)
  {
    for i := 0 to n
      invariant (forall j {:trigger buf[j]} :: 0 <= j < i ==> buf[j] == 0) && OnlyIn(buf, 0, i)
    {
      buf[i] := 0;
    }
  }

  /** The fields all FAT sub-types share. */
  predicate Common(s: Sector, l: Layout, szVol: nat) {
    && s[0] == 0xEB && s[1] == 0xFE && s[2] == 0x90
    && LdWord(s, 11) == 512 && s[13] == l.pau && LdWord(s, 14) == l.rsv && s[16] == l.nFat
    && LdWord(s, 17) == (if l.fsty == Fat32 then 0 else l.nRoot)
    && LdWord(s, 19) == (if szVol < 0x1_0000 then szVol else 0)
    && LdDword(s, 32) == (if szVol < 0x1_0000 then 0 else szVol)
  }

  /** A boot record that says what the layout is. */
  predicate Describes(s: Sector, l: Layout, szVol: nat) {
    && Common(s, l, szVol) && LdWord(s, 510) == 0xAA55
    && if l.fsty == Fat32 then
         && LdWord(s, 22) == 0 && LdDword(s, 36) == l.fat && LdWord(s, 42) == 0 && LdDword(s, 44) == 2
         && LdWord(s, 48) == 1 && s[82..90] == FAT32_NAME
       else LdWord(s, 22) == l.fat
  }

  /** The fields of a layout fit where the boot record keeps them. */
  predicate Fits(l: Layout, szVol: nat) {
    && l.pau < 0x100 && l.nFat < 0x100 && l.rsv < 0x1_0000 && l.nRoot < 0x1_0000 && szVol < 0x1_0000_0000
    && l.fat < (if l.fsty == Fat32 then 0x1_0000_0000 else 0x1_0000)
  }

  method WriteCommon(buf: array<byte>, l: Layout, szVol: nat, bVol: nat)
    requires buf.Length == 512 && Fits(l, szVol) && bVol < 0x1_0000_0000
    modifies buf
    ensures buf[0] == 0xEB && buf[1] == 0xFE && buf[2] == 0x90
    ensures WordAt(buf, 11) == 512 && buf[13] == l.pau && WordAt(buf, 14) == l.rsv && buf[16] == l.nFat
    ensures WordAt(buf, 17) == (if l.fsty == Fat32 then 0 else l.nRoot)
    ensures WordAt(buf, 19) == (if szVol < 0x1_0000 then szVol else 0)
    ensures DwordAt(buf, 32) == (if szVol < 0x1_0000 then 0 else szVol)
    ensures forall i {:trigger buf[i]} :: 36 <= i < 512 || 22 <= i < 24 ==> buf[i] == 0
  {
    Clear(buf, 512);
    MemCpy(buf, 0, [0xEB, 0xFE, 0x90, 0x4D, 0x53, 0x44, 0x4F, 0x53, 0x35, 0x2E, 0x30]);
    WriteGeometry(buf, l);
    WriteSizes(buf, szVol, bVol);
  }

  method WriteGeometry(buf: array<byte>, l: Layout)
    requires buf.Length == 512 && Fits(l, 0)
    modifies buf
    ensures WordAt(buf, 11) == 512 && buf[13] == l.pau && WordAt(buf, 14) == l.rsv && buf[16] == l.nFat
    ensures WordAt(buf, 17) == (if l.fsty == Fat32 then 0 else l.nRoot)
    ensures OnlyIn(buf, 11, 19)
  {
    StWord(buf, 11, 512);
    buf[13] := l.pau;
    StWord(buf, 14, l.rsv);
    buf[16] := l.nFat;
    StWord(buf, 17, if l.fsty == Fat32 then 0 else l.nRoot);
  }

  method WriteSizes(buf: array<byte>, szVol: nat, bVol: nat)
    requires buf.Length == 512 && szVol < 0x1_0000_0000 && bVol < 0x1_0000_0000
    requires WordAt(buf, 19) == DwordAt(buf, 32) == 0
    modifies buf
    ensures WordAt(buf, 19) == (if szVol < 0x1_0000 then szVol else 0)
    ensures DwordAt(buf, 32) == (if szVol < 0x1_0000 then 0 else szVol)
    ensures OnlyIn(buf, 19, 36) && buf[22] == old(buf[22]) && buf[23] == old(buf[23])
  {
    if szVol < 0x1_0000 {
      StWord(buf, 19, szVol);
    } else {
      StDwordAt(buf, 32, szVol);
    }
    buf[21] := 0xF8;
    StWord(buf, 24, 63);
    StWord(buf, 26, 255);
    StDwordAt(buf, 28, bVol);
  }

  /** The part of the boot record that is particular to FAT32. */
  method WriteFat32(buf: array<byte>, fat: nat, vsn: nat)
    requires buf.Length == 512 && fat < 0x1_0000_0000 && vsn < 0x1_0000_0000
    requires forall i {:trigger buf[i]} :: 36 <= i < 512 ==> buf[i] == 0
    modifies buf
    ensures DwordAt(buf, 36) == fat && WordAt(buf, 42) == 0 && DwordAt(buf, 44) == 2 && WordAt(buf, 48) == 1
    ensures buf[82..90] == FAT32_NAME && OnlyIn(buf, 36, 90)
  {
    StDwordAt(buf, 67, vsn);
    StDwordAt(buf, 36, fat);
    StDwordAt(buf, 44, 2);
    StWord(buf, 48, 1);
    StWord(buf, 50, 6);
    buf[64] := 0x80;
    buf[66] := 0x29;
    MemCpy(buf, 71, [0x4E, 0x4F, 0x20, 0x4E, 0x41, 0x4D, 0x45, 0x20, 0x20, 0x20, 0x20] + FAT32_NAME);
    assert buf[82..90] == buf[71..71 + 19][11..];
  }

  /** The part of the boot record that is particular to FAT12 and FAT16. */
  method WriteFat16(buf: array<byte>, fat: nat, vsn: nat)
    requires buf.Length == 512 && fat < 0x1_0000 && vsn < 0x1_0000_0000
    modifies buf
    ensures WordAt(buf, 22) == fat
    ensures forall i {:trigger buf[i]} :: 0 <= i < 512 && !(22 <= i < 24) && !(36 <= i < 62) ==> buf[i] == old(buf[i])
  {
    StDwordAt(buf, 39, vsn);
    StWord(buf, 22, fat);
    buf[36] := 0x80;
    buf[38] := 0x29;
    MemCpy(buf, 43, [0x4E, 0x4F, 0x20, 0x4E, 0x41, 0x4D, 0x45, 0x20, 0x20, 0x20, 0x20,
                     0x46, 0x41, 0x54, 0x20, 0x20, 0x20, 0x20, 0x20]);
  }

  /** Create FAT VBR */
  method WriteVbr(buf: array<byte>, l: Layout, szVol: nat, bVol: nat, vsn: nat)
    requires buf.Length == 512 && Fits(l, szVol) && bVol < 0x1_0000_0000 && vsn < 0x1_0000_0000
    modifies buf
    ensures Describes(buf[..], l, szVol)
  {
    WriteCommon(buf, l, szVol, bVol);
    if l.fsty == Fat32 {
      WriteFat32(buf, l.fat, vsn);
    } else {
      WriteFat16(buf, l.fat, vsn);
    }
    StWord(buf, 510, 0xAA55);
  }

  // ----- recognising a boot record

  /** 0: a FAT boot record, 1: an exFAT one, 2 and 3: neither, with and without a boot signature */
  method CheckFs(win: Sector) returns (stat: nat)
    ensures stat == 1 <==> LdWord(win, 510) == 0xAA55 && win[0..11] == EXFAT_JUMP
    ensures stat == 0 <==> LooksFat(win) && stat != 1
  {
    var sign := LdWord(win, 510);
    if sign == 0xAA55 && win[0..11] == EXFAT_JUMP {
      return 1;
    }
    var b := win[0];
    if b == 0xEB || b == 0xE9 || b == 0xE8 {
      if sign == 0xAA55 && win[82..90] == FAT32_NAME {
        return 0;
      }
      var w := LdWord(win, 11);
      b := win[13];
      if && PowerOfTwo(w) && w >= 512 && w <= 512
         && b != 0 && PowerOfTwo(b)
         && LdWord(win, 14) != 0
         && (win[16] == 1 || win[16] == 2)
         && LdWord(win, 17) != 0
         && (LdWord(win, 19) >= 128 || LdDword(win, 32) >= 0x10000)
         && LdWord(win, 22) != 0 {
        return 0;
      }
    }
    stat := if sign == 0xAA55 then 2 else 3;
  }

  predicate LooksFat(win: Sector) {
    && (win[0] == 0xEB || win[0] == 0xE9 || win[0] == 0xE8)
    && (|| (LdWord(win, 510) == 0xAA55 && win[82..90] == FAT32_NAME)
        || (&& LdWord(win, 11) == 512 && PowerOfTwo(win[13]) && LdWord(win, 14) != 0 && 1 <= win[16] <= 2
            && LdWord(win, 17) != 0 && (LdWord(win, 19) >= 128 || LdDword(win, 32) >= 0x10000) && LdWord(win, 22) != 0))
  }

  // ----- mounting

  datatype Geometry = Geometry(fsType: FsType, csize: nat, nFats: nat, fsize: nat, nRootdir: nat, nFatent: nat,
                               volbase: nat, fatbase: nat, database: nat, dirbase: nat)

  function TotalSectors(win: Sector): nat {
    if LdWord(win, 19) == 0 then LdDword(win, 32) else LdWord(win, 19)
  }

  function FatSectors(win: Sector): nat {
    if LdWord(win, 22) == 0 then LdDword(win, 36) else LdWord(win, 22)
  }

  /** RSV + FAT + DIR, in DWORD arithmetic */
  function SystemSectors(win: Sector): nat {
    U32(LdWord(win, 14) + U32(AllFats(FatSectors(win), win[16])) + LdWord(win, 17) / 16)
  }

  function Clusters(win: Sector): nat {
    if ClusterSize(win[13]) && SystemSectors(win) <= TotalSectors(win) then
      Div(TotalSectors(win) - SystemSectors(win), win[13])
    else 0
  }

  function SubType(clusters: nat): FsType {
    if clusters <= MAX_FAT12 then Fat12 else if clusters <= MAX_FAT16 then Fat16 else Fat32
  }

  /** The boot records a mount accepts. */
  predicate Mountable(win: Sector) {
    && LdWord(win, 11) == 512 && 1 <= win[16] <= 2 && ClusterSize(win[13]) && LdWord(win, 17) % 16 == 0
    && LdWord(win, 14) != 0
    && SystemSectors(win) <= TotalSectors(win) && 0 < Clusters(win) <= MAX_FAT32
    && (SubType(Clusters(win)) == Fat32 <==> LdWord(win, 17) == 0)
    && (SubType(Clusters(win)) == Fat32 ==> LdWord(win, 42) == 0)
    && FatBytes(SubType(Clusters(win)), Clusters(win) + 2) <= 512 * FatSectors(win)
  }

  function GeometryOf(win: Sector, bsect: nat): Geometry {
    var fmt := SubType(Clusters(win));
    var fatbase := U32(bsect + LdWord(win, 14));
    Geometry(fmt, win[13], win[16], FatSectors(win), LdWord(win, 17), Clusters(win) + 2, bsect, fatbase,
             U32(bsect + SystemSectors(win)),
             if fmt == Fat32 then LdDword(win, 44) else U32(fatbase + U32(AllFats(FatSectors(win), win[16]))))
  }

  /** The volume object of FatFs, as far as mounting a FAT12/16/32 volume sets it. */
  class FileSystem {
    var fsType: FsType
    var csize: nat
    var nFats: nat
    var fsize: nat
    var nRootdir: nat
    var nFatent: nat
    var volbase: nat
    var fatbase: nat
    var database: nat
    var dirbase: nat

    function Shape(): Geometry
      reads this
    {
      Geometry(fsType, csize, nFats, fsize, nRootdir, nFatent, volbase, fatbase, database, dirbase)
    }

    /** mount_volume, once the boot record at `bsect` is loaded and is not an exFAT one */
    method MountVolume(win: Sector, bsect: nat) returns (ok: bool)
      modifies this
      ensures ok == Mountable(win)
      ensures ok ==> Shape() == GeometryOf(win, bsect)
    {
      if LdWord(win, 11) != 512 {
        return false;
      }
      var fasize: nat := LdWord(win, 22);
      if fasize == 0 {
        fasize := LdDword(win, 36);
      }
      fsize := fasize;
      nFats := win[16];
      if nFats != 1 && nFats != 2 {
        return false;
      }
      fasize := U32(AllFats(fasize, nFats));
      csize := win[13];
      ByteSizes(csize);
      if csize == 0 || !PowerOfTwo(csize) {
        return false;
      }
      nRootdir := LdWord(win, 17);
      if nRootdir % 16 != 0 {
        return false;
      }
      var tsect: nat := LdWord(win, 19);
      if tsect == 0 {
        tsect := LdDword(win, 32);
      }
      var nrsv: nat := LdWord(win, 14);
      if nrsv == 0 {
        return false;
      }
      ok := SetSubType(win, bsect, tsect, nrsv, fasize, U32(nrsv + fasize + nRootdir / 16));
    }

    /** Determine the FAT sub type, then the boundaries and limits. */
    method SetSubType(win: Sector, bsect: nat, tsect: nat, nrsv: nat, fasize: nat, sysect: nat) returns (ok: bool)
      requires LdWord(win, 11) == 512 && 1 <= win[16] <= 2 && ClusterSize(win[13]) && LdWord(win, 17) % 16 == 0
      requires nrsv == LdWord(win, 14) != 0 && tsect == TotalSectors(win)
      requires fasize == U32(AllFats(FatSectors(win), win[16]))
      requires sysect == SystemSectors(win)
      requires fsize == FatSectors(win) && nFats == win[16] && csize == win[13] && nRootdir == LdWord(win, 17)
      modifies this`fsType, this`nFatent, this`volbase, this`fatbase, this`database, this`dirbase
      ensures ok == Mountable(win)
      ensures ok ==> Shape() == GeometryOf(win, bsect)
    {
      if tsect < sysect {
        return false;
      }
      var nclst := Div(tsect - sysect, csize);
      if nclst == 0 || nclst > MAX_FAT32 {
        return false;
      }
      ok := SetLimits(win, bsect, nclst, nrsv, fasize, sysect);
    }

    method SetLimits(win: Sector, bsect: nat, nclst: nat, nrsv: nat, fasize: nat, sysect: nat) returns (ok: bool)
      requires nrsv == LdWord(win, 14) && fasize == U32(AllFats(FatSectors(win), win[16]))
      requires sysect == SystemSectors(win)
      requires 0 < nclst == Clusters(win) <= MAX_FAT32
      requires fsize == FatSectors(win) && nFats == win[16] && csize == win[13] && nRootdir == LdWord(win, 17)
      modifies this`fsType, this`nFatent, this`volbase, this`fatbase, this`database, this`dirbase
      ensures ok == (&& (SubType(nclst) == Fat32 <==> LdWord(win, 17) == 0)
                     && (SubType(nclst) == Fat32 ==> LdWord(win, 42) == 0)
                     && FatBytes(SubType(nclst), nclst + 2) <= 512 * FatSectors(win))
      ensures ok ==> Shape() == GeometryOf(win, bsect)
    {
      var fmt := Fat32;
      if nclst <= MAX_FAT16 {
        fmt := Fat16;
      }
      if nclst <= MAX_FAT12 {
        fmt := Fat12;
      }
      nFatent, volbase := nclst + 2, bsect;
      fatbase, database := U32(bsect + nrsv), U32(bsect + sysect);
      var szbfat: nat;
      if fmt == Fat32 {
        if LdWord(win, 42) != 0 || nRootdir != 0 {
          return false;
        }
        dirbase := LdDword(win, 44);
        szbfat := nFatent * 4;
      } else {
        if nRootdir == 0 {
          return false;
        }
        dirbase := U32(fatbase + fasize);
        szbfat := if fmt == Fat16 then nFatent * 2 else nFatent * 3 / 2 + nFatent % 2;
      }
      if fsize < (szbfat + 511) / 512 {
        return false;
      }
      fsType := fmt;
      ok := true;
    }
  }

  lemma ByteSizes(n: byte)
    ensures PowerOfTwo(n) <==> ClusterSize(n)
  {
    if n <= 128 {
      SmallPowers(n);
    } else {
      SmallPowers(n / 2);
    }
  }

  // ----- the formatter and the mounter agree

  /** What a mount of an accepted layout must find. */
  function Promised(l: Layout, bVol: nat): Geometry {
    Geometry(l.fsty, l.pau, l.nFat, l.fat, l.nRoot, l.clusters + 2, bVol, l.fatBase, U32(bVol + SysSize(l)),
             if l.fsty == Fat32 then 2 else U32(l.fatBase + AllFats(l.fat, l.nFat)))
  }

  /** No field is truncated in the boot record of an accepted layout. */
  lemma SoundFits(l: Layout, szVol: nat, bVol: nat, szBlk: nat)
    requires Sound(l, szVol, bVol, szBlk) && szVol < 0x1_0000_0000
    ensures Fits(l, szVol)
  {
  }

  lemma SameSizes(s: Sector, l: Layout, szVol: nat, bVol: nat, szBlk: nat)
    requires Sound(l, szVol, bVol, szBlk) && szVol < 0x1_0000_0000 && Describes(s, l, szVol)
    ensures TotalSectors(s) == szVol && FatSectors(s) == l.fat && SystemSectors(s) == SysSize(l)
    ensures Clusters(s) == l.clusters
    ensures U32(AllFats(FatSectors(s), s[16])) == AllFats(l.fat, l.nFat)
  {
    assert AllFats(l.fat, l.nFat) < 0x1_0000_0000;
    assert LdWord(s, 17) / 16 == l.nRoot / 16;
  }

  /** An accepted layout is recognised exactly when it has a cluster, and then with the same geometry. */
  lemma FormatThenMount(s: Sector, l: Layout, szVol: nat, bVol: nat, szBlk: nat)
    requires Sound(l, szVol, bVol, szBlk) && 128 <= szVol < 0x1_0000_0000 && Describes(s, l, szVol)
    ensures s[0..11] != EXFAT_JUMP && LooksFat(s)
    ensures Mountable(s) <==> l.clusters != 0
    ensures l.clusters != 0 ==> GeometryOf(s, bVol) == Promised(l, bVol)
  {
    assert s[0..11][1] == s[1] && EXFAT_JUMP[1] == 0x76;
    ByteSizes(s[13]);
    SameSizes(s, l, szVol, bVol, szBlk);
  }

  /** f_mkfs, then check_fs and mount_volume on the boot record it wrote. */
  method FormatAndMount(fs: FileSystem, buf: array<byte>, fat: bool, fat32: bool, szVol: nat, bVol: nat, align: nat,
                        deviceBlock: nat, optFats: nat, optRoot: nat, auSize: nat, vsn: nat)
    returns (r: Option<Layout>, stat: nat, ok: bool)
    requires szVol < 0x1_0000_0000 && bVol < 0x1_0000_0000 && vsn < 0x1_0000_0000 && buf.Length == 512
    modifies fs, buf
    ensures r.Some? ==> stat == 0 && Sound(r.value, szVol, bVol, BlockSize(align, deviceBlock)) && 128 <= szVol
    ensures r.Some? ==> Describes(buf[..], r.value, szVol)
    ensures r.Some? ==>
              (ok <==>
               !NoCluster(szVol, bVol, BlockSize(align, deviceBlock), r.value.pau, FatCopies(optFats),
                          RootEntries(optRoot)))
    ensures r.Some? && ok ==> fs.Shape() == Promised(r.value, bVol)
  {
    stat, ok := 4, false;
    r := ChooseLayout(fat, fat32, szVol, bVol, align, deviceBlock, optFats, optRoot, auSize);
    if r.Some? {
      SoundFits(r.value, szVol, bVol, BlockSize(align, deviceBlock));
      WriteVbr(buf, r.value, szVol, bVol, vsn);
      FormatThenMount(buf[..], r.value, szVol, bVol, BlockSize(align, deviceBlock));
      stat := CheckFs(buf[..]);
      ok := fs.MountVolume(buf[..], bVol);
    }
  }

  // ----- the FSINFO record

  const LEAD_SIG := 0x41615252
  const STRUC_SIG := 0x61417272
  const TRAIL_SIG := 0xAA550000

  /** mount_volume uses the free cluster count of an FSINFO sector only with all three signatures in place. */
  predicate InfoTrusted(s: Sector) {
    LdDword(s, 0) == LEAD_SIG && LdDword(s, 484) == STRUC_SIG && LdDword(s, 498) == TRAIL_SIG
  }

  /** Create FSINFO record: by f_mkfs with the boot signature at 510, by sync_fs with the trailing one at 498. */
  method WriteInfo(buf: array<byte>, free: nat, next: nat, mkfs: bool)
    requires buf.Length == 512 && free < 0x1_0000_0000 && next < 0x1_0000_0000
    modifies buf
    ensures LdDword(buf[..], 488) == free && LdDword(buf[..], 492) == next
    ensures InfoTrusted(buf[..]) <==> !mkfs
  {
    Clear(buf, 512);
    StDwordAt(buf, 0, LEAD_SIG);
    StDwordAt(buf, 484, STRUC_SIG);
    StDwordAt(buf, 488, free);
    StDwordAt(buf, 492, next);
    if mkfs {
      StWord(buf, 510, 0xAA55);
    } else {
      StDwordAt(buf, 498, TRAIL_SIG);
    }
  }
}
