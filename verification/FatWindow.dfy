/** The one-sector write-back window of a mounted volume, and FAT access through it. */
module FatWindow {
  import opened Bytes
  import opened FatCodec

  /** Sector `k` of the first FAT copy and of the second, which starts `n` sectors later, agree. */
  ghost predicate SamePair(d: seq<Sector>, base: nat, n: nat, k: nat)
    requires k < n && base + n + n <= |d|
  {
    d[base + k] == d[base + n + k]
  }

  /** The two FAT copies agree, except perhaps where the first holds sector `except`. */
  ghost predicate CopiesAgree(d: seq<Sector>, base: nat, n: nat, except: int)
    requires base + n + n <= |d|
  {
    forall k: nat {:trigger SamePair(d, base, n, k)} :: k < n && base + k != except ==> SamePair(d, base, n, k)
  }

  /** Writing outside both copies, or at the excepted sector, keeps them in agreement. */
  lemma CopiesAgreeAfterWrite(d: seq<Sector>, base: nat, n: nat, except: int, w: nat, x: Sector)
    requires base + n + n <= |d| && w < |d|
    requires CopiesAgree(d, base, n, except)
    requires base <= w < base + n + n ==> w == except && w < base + n
    ensures CopiesAgree(d[w := x], base, n, except)
  {
    var e := d[w := x];
    forall k: nat | k < n && base + k != except
      ensures SamePair(e, base, n, k)
    {
      assert SamePair(d, base, n, k);
    }
  }

  /** Reflecting a sector of the first copy into the second completes the agreement. */
  lemma CopiesAgreeAfterReflect(d: seq<Sector>, base: nat, n: nat, w: nat)
    requires base + n + n <= |d| && base <= w < base + n
    requires CopiesAgree(d, base, n, w)
    ensures CopiesAgree(d[w + n := d[w]], base, n, -1)
  {
    var e := d[w + n := d[w]];
    forall k: nat | k < n
      ensures SamePair(e, base, n, k)
    {
      assert base + k != w ==> SamePair(d, base, n, k);
    }
  }

  /** An exception outside the first copy is none. */
  lemma CopiesAgreeElsewhere(d: seq<Sector>, base: nat, n: nat, except: int, w: nat)
    requires base + n + n <= |d| && CopiesAgree(d, base, n, except)
    requires (except == -1 || except == w) && !(base <= w < base + n)
    ensures CopiesAgree(d, base, n, w)
  {
  }

  /** Logical contents of sector `s`: from the FAT sectors, which start at `base`, or from the rest. */
  ghost function Logical(rest: seq<Sector>, sectors: seq<Sector>, base: nat, s: nat): Sector
    requires s < |rest|
  {
    if base <= s < base + |sectors| then sectors[s - base] else rest[s]
  }

  /** The medium shows the logical contents, except where the window or the second FAT copy lies. */
  ghost predicate Shows(disk: seq<Sector>, rest: seq<Sector>, sectors: seq<Sector>, base: nat, winsect: nat,
                        mirror: nat)
  {
    && |rest| == |disk|
    && forall s: nat {:trigger At(s)} ::
         At(s) && s < |disk| && s != winsect && !(base + |sectors| <= s < base + |sectors| + mirror) ==>
           disk[s] == Logical(rest, sectors, base, s)
  }

  /** A write outside the FAT copies, to the medium and to the logical contents. */
  lemma ShowsAfterWrite(disk: seq<Sector>, rest: seq<Sector>, sectors: seq<Sector>, base: nat, winsect: nat,
                        mirror: nat,
                        sect: nat, x: Sector)
    requires Shows(disk, rest, sectors, base, winsect, mirror) && base + |sectors| <= sect < |disk|
    ensures Shows(disk[sect := x], rest[sect := x], sectors, base, winsect, mirror)
  {
  }

  /** A change that waits in the window. */
  lemma ShowsBehindWindow(disk: seq<Sector>, rest: seq<Sector>, sectors: seq<Sector>, base: nat, winsect: nat,
                          mirror: nat, x: Sector)
    requires Shows(disk, rest, sectors, base, winsect, mirror) && winsect < |disk|
    ensures Shows(disk, rest[winsect := x], sectors, base, winsect, mirror)
  {
  }

  /** The FAT copies agree, if they are to be trusted. */
  ghost predicate Agreeing(on: bool, d: seq<Sector>, base: nat, n: nat, except: int) {
    on ==> base + n + n <= |d| && CopiesAgree(d, base, n, except)
  }

  lemma AgreeingAfterWrite(on: bool, still: bool, d: seq<Sector>, base: nat, n: nat, except: int, w: nat, x: Sector)
    requires Agreeing(on, d, base, n, except) && (still ==> on) && w < |d| && base + n + n <= w
    ensures Agreeing(still, d[w := x], base, n, except)
  {
    if still {
      CopiesAgreeAfterWrite(d, base, n, except, w, x);
    }
  }

  /** A sector elsewhere that waits in the window is no exception. */
  lemma AgreeingElsewhere(on: bool, d: seq<Sector>, base: nat, n: nat, except: int, w: nat)
    requires Agreeing(on, d, base, n, except) && (except == -1 || except == w) && base + n <= w
    ensures Agreeing(on, d, base, n, w)
  {
    if on {
      CopiesAgreeElsewhere(d, base, n, except, w);
    }
  }

  /** `image` is the concatenation of `sectors`. */
  ghost predicate Flattens(image: seq<byte>, sectors: seq<Sector>) {
    && |image| == 512 * |sectors|
    && forall o: nat {:trigger At(o)} :: At(o) && o < |image| ==> image[o] == sectors[o / 512][o % 512]
  }

  /** `fat` lists the first `n` entries of `image`. */
  ghost predicate Encodes(ty: FsType, image: seq<byte>, fat: seq<nat>, n: nat) {
    && |fat| == n
    && ImageSize(ty, n) <= |image|
    && forall c: nat {:trigger Decode(ty, image, c)} :: c < n ==> fat[c] == Decode(ty, image, c)
  }

  ghost function DecodeAt(ty: FsType, image: seq<byte>, n: nat, c: nat): nat
    requires c < n && ImageSize(ty, n) <= |image|
  {
    Decode(ty, image, c)
  }

  lemma FlattensAfterStore(image: seq<byte>, sectors: seq<Sector>, o: nat, v: byte)
    requires Flattens(image, sectors) && o < |image|
    ensures Flattens(image[o := v], sectors[o / 512 := sectors[o / 512][o % 512 := v]])
  {
  }

  lemma EncodesAfterPut(ty: FsType, image: seq<byte>, fat: seq<nat>, n: nat, c: nat, val: nat)
    requires Encodes(ty, image, fat, n) && c < n
    ensures Encodes(ty, Encode(ty, image, c, val), fat[c := Mask(ty, val)], n)
  {
    PutThenGet(ty, image, c, val);
    forall d: nat | d < n && d != c
      ensures Decode(ty, Encode(ty, image, c, val), d) == Decode(ty, image, d)
    {
      PutLeavesOthers(ty, image, c, val, d);
    }
  }

  /** An aligned double word never straddles two sectors. */
  lemma AlignedWord(o: nat)
    requires o % 4 == 0
    ensures (o + 1) / 512 == (o + 2) / 512 == (o + 3) / 512 == o / 512
  {
    var q := o / 4;
    assert o == 512 * (q / 128) + 4 * (q % 128);
  }

  /** The sectors of FAT16 and FAT32 entries. */
  lemma EntrySector(c: nat)
    ensures 2 * c / 512 == (2 * c + 1) / 512 == c / 256
    ensures 4 * c / 512 == c / 128 && 4 * c % 4 == 0
  {
    var h, w := c / 256, c / 128;
    InSector(2 * c, h);
    InSector(2 * c + 1, h);
    InSector(4 * c, w);
  }

  lemma InSector(o: nat, s: nat)
    requires 512 * s <= o < 512 * s + 512
    ensures o / 512 == s
  {
  }

  /** A buffer of `n` sectors with one more behind it. */
  lemma OneMoreSector(a: seq<byte>, b: seq<byte>, n: nat)
    requires |a| == 512 * n && |b| == 512
    ensures forall j: nat {:trigger At(j)} :: At(j) && j < n ==>
              (a + b)[512 * j..512 * j + 512] == a[512 * j..512 * j + 512]
    ensures (a + b)[512 * n..512 * n + 512] == b
  {
  }

  class Volume {
    const fsType: FsType
    const nFats: nat      // number of FAT copies (1 or 2)
    const nFatent: nat    // number of FAT entries (clusters + 2)
    const csize: nat      // cluster size in sectors
    const fsize: nat      // sectors of one FAT copy
    const fatbase: nat    // first sector of the first FAT copy
    const database: nat   // first sector of the data area

    var disk: seq<Sector> // the medium
    const readFails: nat -> bool   // which of all calls to the medium fail, one by one
    const writeFails: nat -> bool
    const leftBy: nat -> Sector    // what a failed write leaves in its sector
    var readCount: nat    // calls so far
    var writeCount: nat
    const win: array<byte>
    var winsect: nat      // sector held in win, 0xFFFFFFFF when none is
    var wflag: bool       // win differs from the medium

    var lastClst: nat     // last allocated cluster, unknown when out of range
    var freeClst: nat     // number of free clusters, unknown when above nFatent - 2

    ghost var rest: seq<Sector>    // logical contents of the sectors outside the FAT copies
    ghost var sectors: seq<Sector> // logical contents of the first FAT copy
    ghost var image: seq<byte>     // the same, byte by byte
    ghost var fat: seq<nat>        // the entries that image encodes
    ghost var readMark: nat        // the calls of the medium up to here are not looked at any more
    ghost var writeMark: nat
    ghost var differed: bool       // the FAT copies differed there, apart from a sector waiting in the window
    ghost var guard: set<int>      // data sectors that are nobody's business at the moment
    ghost var kept: seq<Sector>    // their contents
    ghost var links: set<nat>      // FAT entries of which the same is true
    ghost var keptFat: seq<nat>

    /** A volume just mounted: the window is invalid, the allocation counters are unknown. */
    constructor (ty: FsType, copies: nat, entries: nat, cs: nat, size: nat, fatBase: nat, dataBase: nat,
                 medium: seq<Sector>,
                 badRead: nat -> bool, badWrite: nat -> bool, left: nat -> Sector)
      requires copies == 1 || copies == 2
      requires 2 <= entries <= 0x7FFF_FFFF
      requires (ty == Fat12 ==> entries <= 0xFF7) && (ty == Fat16 ==> entries <= 0xFFF7)
      requires (ty == Fat32 ==> entries <= 0xFFF_FFF7)
      requires ImageSize(ty, entries) <= 512 * size && 0 < fatBase && 0 < cs
      requires fatBase + size + (if copies == 2 then size else 0) <= dataBase <= |medium| <= 0xFFFF_FFFF
      ensures Valid() && disk == medium && fresh(win)
      ensures fsType == ty && nFats == copies && nFatent == entries && csize == cs
      ensures fsize == size && fatbase == fatBase && database == dataBase
      ensures readFails == badRead && writeFails == badWrite && leftBy == left && guard == {} && links == {}
      ensures readCount == writeCount == readMark == writeMark == 0 && winsect == 0xFFFF_FFFF && !wflag
      ensures freeClst == lastClst == 0xFFFF_FFFF
      ensures differed <==> copies == 2 && !CopiesAgree(medium, fatBase, size, -1)
    {
      fsType, nFats, nFatent, csize, fsize, fatbase, database := ty, copies, entries, cs, size, fatBase, dataBase;
      win := new byte[512];
      disk, winsect, wflag := medium, 0xFFFF_FFFF, false;
      lastClst, freeClst := 0xFFFF_FFFF, 0xFFFF_FFFF;
      ghost var first := medium[fatBase..fatBase + size];
      ghost var img := seq(512 * size, o requires 0 <= o < 512 * size => first[o / 512][o % 512]);
      rest, sectors, image := medium, first, img;
      fat := seq(entries, c requires 0 <= c < entries => DecodeAt(ty, img, entries, c));
      readFails, writeFails, leftBy, readCount, writeCount, readMark, writeMark := badRead, badWrite, left, 0, 0, 0, 0;
      guard, kept, links, keptFat := {}, medium, {}, [];
      differed := copies == 2 && !CopiesAgree(medium, fatBase, size, -1);
    }

    /** No read of the medium has failed since the mark. */
    ghost predicate CleanReads()
      reads this`readCount, this`readMark
    {
      forall i: nat {:trigger readFails(i)} :: readMark <= i < readCount ==> !readFails(i)
    }

    /** No write to the medium has failed since the mark. */
    ghost predicate CleanWrites()
      reads this`writeCount, this`writeMark
    {
      forall i: nat {:trigger writeFails(i)} :: writeMark <= i < writeCount ==> !writeFails(i)
    }

    /** A call of the medium has failed since the mark. */
    ghost predicate Failed()
      reads this`readCount, this`writeCount, this`readMark, this`writeMark
    {
      !CleanReads() || !CleanWrites()
    }

    /** A call of the medium has failed since these numbers of reads and writes. */
    ghost predicate FailedSince(reads0: nat, writes0: nat)
      reads this`readCount, this`writeCount
    {
      || (exists i: nat {:trigger readFails(i)} :: reads0 <= i < readCount && readFails(i))
      || (exists i: nat {:trigger writeFails(i)} :: writes0 <= i < writeCount && writeFails(i))
    }

    /**
     * The second FAT copy must follow the first: they were equal at the mark, and every write since then has succeeded.
     */
    ghost predicate Trusted()
      reads this`writeCount, this`writeMark, this`differed
    {
      !differed && CleanWrites()
    }

    /** The marks lie in the past. */
    ghost predicate Marked()
      reads this`readCount, this`writeCount, this`readMark, this`writeMark
    {
      readMark <= readCount && writeMark <= writeCount
    }

    /** The parts of a volume never overlap and lie on the medium. */
    ghost predicate Outline()
      reads this`disk
    {
      && win.Length == 512
      && (nFats == 1 || nFats == 2)
      && 2 <= nFatent <= 0x7FFF_FFFF
      && (fsType == Fat12 ==> nFatent <= 0xFF7)
      && (fsType == Fat16 ==> nFatent <= 0xFFF7)
      && (fsType == Fat32 ==> nFatent <= 0xFFF_FFF7)
      && 0 < fatbase
      && 0 < csize
      && fatbase + fsize + MirrorSize() <= database <= |disk| <= 0xFFFF_FFFF
    }

    /** And the FAT is large enough for its entries. */
    ghost predicate Geometry()
      reads this`disk
    {
      Outline() && ImageSize(fsType, nFatent) <= 512 * fsize
    }

    /** The window is where it was, or off the data area. */
    predicate WindowFrom(before: nat)
      reads this`winsect
    {
      winsect == before || winsect < database || winsect == 0xFFFF_FFFF
    }

    function MirrorSize(): nat {
      if nFats == 2 then fsize else 0
    }

    predicate InFat(s: nat) {
      fatbase <= s < fatbase + fsize
    }

    /** Sectors of the second FAT copy. */
    predicate InMirror(s: nat) {
      fatbase + fsize <= s < fatbase + fsize + MirrorSize()
    }

    ghost predicate WindowOk()
      reads this`disk, this`winsect, this`wflag, this`rest, this`sectors, win
    {
      && |sectors| == fsize
      && Shows(disk, rest, sectors, fatbase, winsect, MirrorSize())
      && (winsect < |disk| || winsect == 0xFFFF_FFFF)
      && (wflag ==> winsect < |disk| && !InMirror(winsect))
      && (winsect < |disk| && !wflag ==> win[..] == disk[winsect])
      && (winsect < |disk| && !InMirror(winsect) ==> win[..] == Logical(rest, sectors, fatbase, winsect))
    }

    /** The second FAT copy equals the first, except for a sector still waiting in the window. */
    ghost predicate Mirrored()
      reads this`disk, this`winsect, this`wflag
      requires fatbase + fsize + fsize <= |disk|
    {
      CopiesAgree(disk, fatbase, fsize, if wflag then winsect else -1)
    }

    /** Everything but the meaning of the FAT image as entries. */
    ghost predicate Core()
      reads this`disk, this`winsect, this`wflag, this`rest, this`sectors, this`image, this`readCount, this`writeCount
      reads this`readMark, this`writeMark, this`differed, win
    {
      && Geometry() && Marked()
      && WindowOk()
      && Agreeing(nFats == 2 && Trusted(), disk, fatbase, fsize, if wflag then winsect else -1)
      && Flattens(image, sectors)
    }

    ghost predicate Valid()
      reads this`disk, this`winsect, this`wflag, this`rest, this`sectors, this`image, this`fat, this`readCount
      reads this`writeCount, this`readMark, this`writeMark, this`differed, this`guard, this`kept, this`links
      reads this`keptFat, win
    {
      Outline() && |fat| == nFatent && |rest| == |disk| && Inner()
    }

    /** The guarded sectors and entries have not changed. */
    ghost predicate Guarded()
      reads this`rest, this`guard, this`kept, this`fat, this`links, this`keptFat
    {
      && (forall s {:trigger s in guard} :: s in guard ==> database <= s < |rest| && s < |kept| && rest[s] == kept[s])
      && (forall c {:trigger c in links} :: c in links ==>
           2 <= c < |fat| && c < |keptFat| && fat[c] == keptFat[c] && fat[c] != 0)
    }

    /** The invariant as the window layer sees it; callers see only what Valid says about it. */
    ghost predicate Inner()
      reads this`disk, this`winsect, this`wflag, this`rest, this`sectors, this`image, this`fat, this`readCount
      reads this`writeCount, this`readMark, this`writeMark, this`differed, this`guard, this`kept, this`links
      reads this`keptFat, win
    {
      forall i {:trigger Open(i)} :: Open(i) ==> Core() && Encodes(fsType, image, fat, nFatent) && Guarded()
    }

    /** From now on these data sectors and used FAT entries are guarded. */
    ghost method Watch(secs: set<int>, clusters: set<nat>)
      requires Valid() && forall s {:trigger s in secs} :: s in secs ==> database <= s < |rest|
      requires forall c {:trigger c in clusters} :: c in clusters ==> 2 <= c < |fat| && fat[c] != 0
      modifies this`guard, this`kept, this`links, this`keptFat
      ensures Valid() && guard == secs && kept == rest && links == clusters && keptFat == fat
    {
      assert Open(0);
      guard, kept, links, keptFat := secs, rest, clusters, fat;
    }

    /** Forget about failed calls up to here, and look again whether the FAT copies agree. */
    ghost method Mark()
      requires Valid()
      modifies this`readMark, this`writeMark, this`differed
      ensures Valid() && !Failed() && readMark == readCount && writeMark == writeCount
      ensures nFats == 2 ==> (differed <==> !CopiesAgree(disk, fatbase, fsize, if wflag then winsect else -1))
    {
      assert Open(0);
      readMark, writeMark := readCount, writeCount;
      differed := nFats == 2 && !Mirrored();
    }

    /** Since the mark only more calls have been made. */
    lemma MarkedBefore()
      requires Valid()
      ensures Marked() && (Failed() ==> FailedSince(readMark, writeMark))
    {
      assert Open(0);
    }

    /** What is guarded has not changed. */
    lemma StillKept()
      requires Valid()
      ensures Guarded()
    {
      assert Open(0);
    }

    /** No free cluster has a guarded entry. */
    lemma FreeNotLinked()
      requires Valid()
      ensures 0 !in links && forall c {:trigger c in links} :: c in links ==> 2 <= c < |fat| && fat[c] != 0
    {
      assert Open(0);
    }

    /** disk_read of one sector; it may fail, and always does outside the medium. */
    method DiskRead(sect: nat) returns (ok: bool, data: Sector)
      modifies this`readCount
      ensures ok ==> sect < |disk| && data == disk[sect]
      ensures readCount == old(readCount) + 1 && (sect < |disk| ==> (ok <==> !readFails(old(readCount))))
    {
      data := *;
      ok := sect < |disk| && !readFails(readCount);
      if ok {
        data := disk[sect];
      }
      readCount := readCount + 1;
    }

    /** disk_write of one sector; a failed write may leave anything in that sector. */
    method DiskWrite(sect: nat, data: Sector) returns (ok: bool)
      modifies this`disk, this`writeCount
      ensures |disk| == |old(disk)|
      ensures disk ==
              if sect < |disk| then old(disk)[sect := if ok then data else leftBy(old(writeCount))] else old(disk)
      ensures ok ==> sect < |disk|
      ensures writeCount == old(writeCount) + 1 && (sect < |disk| ==> (ok <==> !writeFails(old(writeCount))))
    {
      ok := sect < |disk| && !writeFails(writeCount);
      if ok {
        disk := disk[sect := data];
      } else if sect < |disk| {
        disk := disk[sect := leftBy(writeCount)];
      }
      writeCount := writeCount + 1;
    }

    /** The unsigned test of sync_window for a sector of the first FAT copy. */
    predicate FatOffsetTest(s: nat) {
      (s - fatbase) % 0x1_0000_0000 < fsize
    }

    /** The state between the two writes of sync_window. */
    ghost predicate Flushing()
      reads this`disk, this`winsect, this`wflag, this`rest, this`sectors, this`image, this`readCount, this`writeCount
      reads this`readMark, this`writeMark, this`differed, win
    {
      && Geometry() && WindowOk() && Marked()
      && winsect < |disk| && !InMirror(winsect)
      && Flattens(image, sectors)
      && (nFats == 2 && Trusted() ==> CopiesAgree(disk, fatbase, fsize, winsect))
    }

    /** First half of sync_window: write the window to its own sector. */
    method WriteBack() returns (ok: bool)
      requires Core() && wflag
      modifies this`disk, this`wflag, this`writeCount
      ensures Flushing() && |disk| == |old(disk)|
      ensures wflag == !ok && (!ok ==> !CleanWrites()) && ok == !writeFails(old(writeCount))
      ensures ok ==> disk == old(disk)[winsect := win[..]] && writeCount == old(writeCount) + 1
    {
      ok := DiskWrite(winsect, win[..]);
      wflag := !ok;
      if nFats == 2 && Trusted() {
        CopiesAgreeAfterWrite(old(disk), fatbase, fsize, winsect, winsect, disk[winsect]);
      }
    }

    /** Second half of sync_window: copy a FAT sector to the second FAT copy, ignoring errors. */
    method ReflectWindow()
      requires Flushing() && !wflag && nFats == 2 && InFat(winsect)
      modifies this`disk, this`writeCount
      ensures Flushing() && |disk| == |old(disk)|
      ensures Trusted() ==> CopiesAgree(disk, fatbase, fsize, -1)
      ensures disk ==
              old(disk)[winsect + fsize := if writeFails(old(writeCount)) then leftBy(old(writeCount)) else win[..]]
    {
      ghost var before := disk;
      var ok := DiskWrite(winsect + fsize, win[..]);
      if Trusted() {
        assert !writeFails(writeCount - 1);
        CopiesAgreeAfterReflect(before, fatbase, fsize, winsect);
      }
    }

    /** The medium `d` after a sync_window whose first write succeeds. */
    ghost function Synced(d: seq<Sector>): seq<Sector>
      requires Geometry() && |d| == |disk| && (wflag ==> winsect < |d|)
      reads this`disk, this`winsect, this`wflag, this`writeCount, win
    {
      if !wflag then d
      else if nFats == 2 && InFat(winsect) then
        d[winsect := win[..]][winsect + fsize := if writeFails(writeCount + 1) then leftBy(writeCount + 1) else win[..]]
      else d[winsect := win[..]]
    }

    lemma AgreeAfterSync()
      requires Core()
      ensures nFats == 2 && !(wflag && InFat(winsect) && writeFails(writeCount + 1)) ==>
                (CopiesAgree(disk, fatbase, fsize, if wflag then winsect else -1) ==>
                 CopiesAgree(Synced(disk), fatbase, fsize, -1))
    {
      if wflag && nFats == 2 && CopiesAgree(disk, fatbase, fsize, winsect) {
        CopiesAgreeAfterWrite(disk, fatbase, fsize, winsect, winsect, win[..]);
        if InFat(winsect) && !writeFails(writeCount + 1) {
          CopiesAgreeAfterReflect(disk[winsect := win[..]], fatbase, fsize, winsect);
        }
      }
    }

    /** Flush the window. Whatever the medium does, the logical contents stay the same. */
    method SyncWindow() returns (res: FResult)
      requires Core()
      modifies this`disk, this`wflag, this`readCount, this`writeCount
      ensures Core() && |disk| == |old(disk)|
      ensures res == Ok || res == DiskErr
      ensures res == Ok <==> !old(wflag) || !writeFails(old(writeCount))
      ensures if res == Ok then !wflag else wflag && old(wflag) && !CleanWrites()
      ensures res == Ok && nFats == 2 && Trusted() ==> CopiesAgree(disk, fatbase, fsize, -1)
      // the medium afterwards: whatever happens to the second write, the call succeeds
      ensures res == Ok ==> disk == old(Synced(disk))
      ensures !old(wflag) ==> disk == old(disk)
      // and so copies that agreed, apart from the window, agree now unless it has failed
      ensures res == Ok && nFats == 2 && !(old(wflag) && InFat(winsect) && writeFails(old(writeCount) + 1)) ==>
                (CopiesAgree(old(disk), fatbase, fsize, if old(wflag) then winsect else -1) ==>
                 CopiesAgree(disk, fatbase, fsize, -1))
    {
      res := Ok;
      AgreeAfterSync();
      if wflag {
        var ok := WriteBack();
        if ok {
          if FatOffsetTest(winsect) && nFats == 2 {
            ReflectWindow();
          }
        } else {
          res := DiskErr;
        }
      }
    }

    /** Fill the clean window from the medium; a failed read invalidates it. */
    method Refill(sect: nat) returns (ok: bool)
      requires Core() && !wflag
      modifies this`winsect, this`readCount, win
      ensures Core()
      ensures winsect == if ok then sect else 0xFFFF_FFFF
      ensures !ok && sect < |disk| ==> !CleanReads()
    {
      var data: Sector;
      ok, data := DiskRead(sect);
      forall i | 0 <= i < 512 { win[i] := data[i]; }
      assert win[..] == data;
      assert At(winsect) && At(sect);
      assert winsect < |disk| && !InMirror(winsect) ==> disk[winsect] == Logical(rest, sectors, fatbase, winsect);
      winsect := if ok then sect else 0xFFFF_FFFF;
    }

    /** Bring a sector into the window. Whatever the medium does, the logical contents stay the same. */
    method MoveWindow(sect: nat) returns (res: FResult)
      requires Core()
      modifies this`disk, this`wflag, this`winsect, this`readCount, this`writeCount, win
      ensures Core() && |disk| == |old(disk)|
      ensures res == Ok || res == DiskErr
      ensures res == Ok ==> winsect == sect
      ensures res == DiskErr && sect < |disk| ==> Failed()
      ensures winsect == sect || winsect == old(winsect) || winsect == 0xFFFF_FFFF
    {
      res := Ok;
      if sect != winsect {
        res := SyncWindow();
        if res == Ok {
          var ok := Refill(sect);
          res := if ok then Ok else DiskErr;
        }
      }
    }

    /** Replace byte `o` of the FAT image, whose sector is in the window. */
    method StoreByte(o: nat, v: byte)
      requires Core() && o < |image| && winsect == fatbase + o / 512
      modifies this`wflag, this`sectors, this`image, win
      ensures Core()
      ensures image == old(image)[o := v]
    {
      FlattensAfterStore(image, sectors, o, v);
      if nFats == 2 && Trusted() {
        assert Mirrored();
      }
      win[o % 512] := v;
      wflag := true;
      sectors := sectors[o / 512 := sectors[o / 512][o % 512 := v]];
      image := image[o := v];
      assert win[..] == sectors[o / 512];
    }

    /** The byte `o` of the FAT image, whose sector is in the window. */
    method LoadByte(o: nat) returns (v: byte)
      requires Core() && o < |image| && winsect == fatbase + o / 512
      ensures v == image[o]
    {
      assert At(o);
      v := win[o % 512];
    }

    /** ld_dword of an aligned word of the FAT image, whose sector is in the window. */
    method LoadDword(o: nat) returns (v: nat)
      requires Core() && o % 4 == 0 && o + 3 < |image| && winsect == fatbase + o / 512
      ensures v == LdDword(image, o)
    {
      AlignedWord(o);
      var b0 := LoadByte(o);
      var b1 := LoadByte(o + 1);
      var b2 := LoadByte(o + 2);
      var b3 := LoadByte(o + 3);
      v := b0 as int + 0x100 * (b1 as int) + 0x1_0000 * (b2 as int) + 0x100_0000 * (b3 as int);
    }

    /** Bring byte `o` of the FAT image into the window and load it. */
    method ShowByte(o: nat) returns (res: FResult, v: byte)
      requires Core() && o < |image|
      modifies this`disk, this`wflag, this`winsect, this`readCount, this`writeCount, win
      ensures WindowFrom(old(winsect))
      ensures Core() && |disk| == |old(disk)| && (res == Ok || (res == DiskErr && Failed()))
      ensures res == Ok ==> winsect == fatbase + o / 512 && winsect < database && v == image[o]
    {
      v := 0;
      res := MoveWindow(fatbase + o / 512);
      if res == Ok {
        v := LoadByte(o);
      }
    }

    /** The FAT12 case of get_fat: two bytes, perhaps in two sectors. */
    method GetFat12(clst: nat) returns (val: nat)
      requires Core() && ImageSize(Fat12, clst + 1) <= |image|
      modifies this`disk, this`wflag, this`winsect, this`readCount, this`writeCount, win
      ensures WindowFrom(old(winsect))
      ensures Core() && |disk| == |old(disk)|
      ensures val == DISK_ERROR || val == Decode(Fat12, image, clst)
      ensures val == DISK_ERROR ==> Failed()
    {
      val := DISK_ERROR;
      var bc := clst + clst / 2;
      var res, lo := ShowByte(bc);
      if res == Ok {
        var hi;
        res, hi := ShowByte(bc + 1);
        if res == Ok {
          var wc: nat := lo as int + 0x100 * (hi as int);
          assert wc == LdWord(image, bc);
          val := if clst % 2 == 1 then wc / 16 else wc % 0x1000;
        }
      }
    }

    /** The FAT16 case of get_fat. */
    method GetFat16(clst: nat) returns (val: nat)
      requires Core() && ImageSize(Fat16, clst + 1) <= |image|
      modifies this`disk, this`wflag, this`winsect, this`readCount, this`writeCount, win
      ensures WindowFrom(old(winsect))
      ensures Core() && |disk| == |old(disk)|
      ensures val == DISK_ERROR || val == Decode(Fat16, image, clst)
      ensures val == DISK_ERROR ==> Failed()
    {
      val := DISK_ERROR;
      EntrySector(clst);
      var res, lo := ShowByte(2 * clst);
      if res == Ok {
        var hi := LoadByte(2 * clst + 1);
        val := lo as int + 0x100 * (hi as int);
      }
    }

    /** The FAT32 and exFAT cases of get_fat: an aligned little-endian word, less its reserved upper bits. */
    method GetFatWord(clst: nat) returns (val: nat)
      requires Core() && (fsType == Fat32 || fsType == ExFat) && ImageSize(fsType, clst + 1) <= |image|
      modifies this`disk, this`wflag, this`winsect, this`readCount, this`writeCount, win
      ensures WindowFrom(old(winsect))
      ensures Core() && |disk| == |old(disk)|
      ensures val == DISK_ERROR || val == Decode(fsType, image, clst)
      ensures val == DISK_ERROR ==> Failed()
    {
      val := DISK_ERROR;
      EntrySector(clst);
      var res := MoveWindow(fatbase + clst / 128);
      if res == Ok {
        var v := LoadDword(4 * clst);
        val := v % if fsType == Fat32 then 0x1000_0000 else 0x8000_0000;
      }
    }

    /** get_fat on FAT12/16/32: 1 for a bad cluster number, 0xFFFFFFFF for a disk error. */
    method GetFat(clst: nat) returns (val: nat)
      requires Valid() && fsType != ExFat
      modifies this`disk, this`wflag, this`winsect, this`readCount, this`writeCount, win
      ensures WindowFrom(old(winsect))
      ensures Valid() && |disk| == |old(disk)|
      ensures val == if clst < 2 || clst >= nFatent then 1 else if val == DISK_ERROR then DISK_ERROR else fat[clst]
      ensures val == DISK_ERROR ==> Failed()
    {
      assert Open(0);
      if clst < 2 || clst >= nFatent {
        val := 1;
      } else if fsType == Fat12 {
        val := GetFat12(clst);
      } else if fsType == Fat16 {
        val := GetFat16(clst);
      } else {
        val := GetFatWord(clst);
      }
    }

    /** The FAT12 case of put_fat: two bytes, perhaps in two sectors, sharing one with a neighbour. */
    method PutFat12(clst: nat, val: nat) returns (res: FResult)
      requires Core() && ImageSize(Fat12, clst + 1) <= |image|
      modifies this`disk, this`wflag, this`winsect, this`readCount, this`writeCount, this`sectors, this`image, win
      ensures WindowFrom(old(winsect))
      ensures res == Ok ==> winsect < database
      ensures Core() && |disk| == |old(disk)| && (res == Ok || res == DiskErr)
      ensures res == DiskErr ==> Failed()
      ensures res == Ok ==> image == Encode(Fat12, old(image), clst, val)
      ensures res != Ok ==>
                image == old(image) || image == Encode(Fat12, old(image), clst, HalfValue(old(image), clst, val))
    {
      var bc := clst + clst / 2;
      var p;
      res, p := ShowByte(bc);
      if res == Ok {
        FirstByteOnly(image, clst, val);
        StoreByte(bc, Fat12Low(clst, val, p));
        res, p := ShowByte(bc + 1);
        if res == Ok {
          StoreByte(bc + 1, Fat12High(clst, val, p));
        }
      }
    }

    /** st_dword of an aligned word of the FAT image, whose sector is in the window. */
    method StoreDword(o: nat, v: nat)
      requires Core() && o % 4 == 0 && o + 3 < |image| && winsect == fatbase + o / 512
      modifies this`wflag, this`sectors, this`image, win
      ensures Core()
      ensures image == StDword(old(image), o, v)
    {
      AlignedWord(o);
      StoreByte(o, v % 0x100);
      StoreByte(o + 1, v / 0x100 % 0x100);
      StoreByte(o + 2, v / 0x1_0000 % 0x100);
      StoreByte(o + 3, v / 0x100_0000 % 0x100);
    }

    /** The FAT16 case of put_fat. */
    method PutFat16(clst: nat, val: nat) returns (res: FResult)
      requires Core() && ImageSize(Fat16, clst + 1) <= |image|
      modifies this`disk, this`wflag, this`winsect, this`readCount, this`writeCount, this`sectors, this`image, win
      ensures WindowFrom(old(winsect))
      ensures res == Ok ==> winsect < database
      ensures Core() && |disk| == |old(disk)| && (res == Ok || res == DiskErr)
      ensures res == DiskErr ==> Failed()
      ensures image == if res == Ok then Encode(Fat16, old(image), clst, val) else old(image)
    {
      EntrySector(clst);
      res := MoveWindow(fatbase + clst / 256);
      if res == Ok {
        StoreByte(2 * clst, val % 0x100);
        StoreByte(2 * clst + 1, val / 0x100 % 0x100);
      }
    }

    /** A value for a FAT32 entry, with the upper four bits that are there. */
    method KeepReserved(o: nat, val: nat) returns (v: nat)
      requires Core() && o % 4 == 0 && o + 3 < |image| && winsect == fatbase + o / 512
      ensures v == val % 0x1000_0000 + LdDword(image, o) / 0x1000_0000 * 0x1000_0000
    {
      v := LoadDword(o);
      v := val % 0x1000_0000 + v / 0x1000_0000 * 0x1000_0000;
    }

    /** The store, once the sector is in the window. */
    method StoreEntry32(clst: nat, val: nat)
      requires Core() && (fsType == Fat32 || fsType == ExFat) && ImageSize(fsType, clst + 1) <= |image|
      requires winsect == fatbase + 4 * clst / 512 && 4 * clst % 4 == 0
      modifies this`wflag, this`sectors, this`image, win
      ensures Core() && image == Encode(fsType, old(image), clst, val)
    {
      var v := val;
      if fsType != ExFat {
        v := KeepReserved(4 * clst, val);
      }
      StoreDword(4 * clst, v);
    }

    /** The FAT32 and exFAT cases of put_fat; FAT32 keeps the upper four bits of the entry. */
    method PutFat32(clst: nat, val: nat) returns (res: FResult)
      requires Core() && (fsType == Fat32 || fsType == ExFat) && ImageSize(fsType, clst + 1) <= |image|
      modifies this`disk, this`wflag, this`winsect, this`readCount, this`writeCount, this`sectors, this`image, win
      ensures WindowFrom(old(winsect))
      ensures res == Ok ==> winsect < database
      ensures Core() && |disk| == |old(disk)| && (res == Ok || res == DiskErr)
      ensures res == DiskErr ==> Failed()
      ensures image == if res == Ok then Encode(fsType, old(image), clst, val) else old(image)
    {
      EntrySector(clst);
      res := MoveWindow(fatbase + clst / 128);
      if res == Ok {
        StoreEntry32(clst, val);
      }
    }

    /** The entries follow the image. */
    ghost method Reencode(before: seq<byte>, clst: nat, stored: nat)
      requires Core() && Guarded() && |rest| == |disk| && Encodes(fsType, before, fat, nFatent)
      requires 2 <= clst < nFatent && clst !in links && image == Encode(fsType, before, clst, stored)
      modifies this`fat
      ensures Valid() && fat == old(fat)[clst := Mask(fsType, stored)]
    {
      EncodesAfterPut(fsType, before, fat, nFatent, clst, stored);
      fat := fat[clst := Mask(fsType, stored)];
    }

    /** put_fat: on success exactly one entry changes; on failure no other entry does. */
    method PutFat(clst: nat, val: nat) returns (res: FResult)
      requires Valid() && clst !in links
      modifies this`disk, this`wflag, this`winsect, this`readCount, this`writeCount, this`sectors, this`image, this`fat
      modifies win
      ensures WindowFrom(old(winsect))
      ensures res == Ok ==> winsect < database
      ensures Valid() && |disk| == |old(disk)|
      ensures res == IntErr <==> clst < 2 || clst >= nFatent
      ensures res == DiskErr ==> Failed()
      ensures res == IntErr ==> fat == old(fat)
      ensures res == Ok ==> fat == old(fat)[clst := Mask(fsType, val)]
      ensures 2 <= clst < nFatent ==> fat == old(fat)[clst := fat[clst]]
    {
      assert Open(0);
      res := IntErr;
      if 2 <= clst < nFatent {
        ghost var before, stored := image, val;
        res, stored := PutEntry(clst, val);
        if res == Ok || image != before {
          Reencode(before, clst, stored);
        }
      }
    }

    /** The store into the FAT image by sub-type; a FAT12 store that fails half-way has stored some other value. */
    method PutEntry(clst: nat, val: nat) returns (res: FResult, ghost stored: nat)
      requires Core() && ImageSize(fsType, clst + 1) <= |image|
      modifies this`disk, this`wflag, this`winsect, this`readCount, this`writeCount, this`sectors, this`image, win
      ensures WindowFrom(old(winsect))
      ensures res == Ok ==> winsect < database && stored == val
      ensures Core() && |disk| == |old(disk)| && (res == Ok || res == DiskErr)
      ensures res == DiskErr ==> Failed()
      ensures image == Encode(fsType, old(image), clst, stored) || (res != Ok && image == old(image))
    {
      stored := val;
      if fsType == Fat12 {
        res := PutFat12(clst, val);
        if res != Ok {
          stored := HalfValue(old(image), clst, val);
        }
      } else if fsType == Fat16 {
        res := PutFat16(clst, val);
      } else {
        res := PutFat32(clst, val);
      }
    }

    // ----- direct transfers of file data, which bypass the window

    /** disk_read of a data sector that is not in the window. */
    method DataRead(sect: nat) returns (ok: bool, data: Sector)
      requires Valid() && database <= sect < |disk| && sect != winsect
      modifies this`readCount
      ensures Valid() && (ok ==> data == rest[sect])
      ensures (!ok || !old(CleanReads())) ==> !CleanReads()
    {
      assert Open(0);
      assert At(sect);
      ok, data := DiskRead(sect);
    }

    /** disk_write of a data sector that is not in the window; a failed one leaves anything there. */
    method DataWrite(sect: nat, data: Sector) returns (ok: bool)
      requires Valid() && database <= sect < |disk| && sect != winsect && sect !in guard
      modifies this`disk, this`rest, this`writeCount
      ensures Valid() && |disk| == |old(disk)|
      ensures rest == old(rest)[sect := rest[sect]]
      ensures ok ==> rest[sect] == data
      ensures (!ok || !old(CleanWrites())) ==> !CleanWrites()
    {
      assert Open(0);
      ghost var trusted := nFats == 2 && Trusted();
      ok := DiskWrite(sect, data);
      rest := rest[sect := disk[sect]];
      ShowsAfterWrite(old(disk), old(rest), sectors, fatbase, winsect, MirrorSize(), sect, disk[sect]);
      if nFats == 2 {
        AgreeingAfterWrite(trusted, nFats == 2 && Trusted(), old(disk), fatbase, fsize, if wflag then winsect else -1,
                           sect, disk[sect]);
      }
      assert WindowOk() && Core();
    }

    /** disk_read of `cc` consecutive data sectors. */
    method DataReadRun(sect: nat, cc: nat) returns (ok: bool, buff: seq<byte>)
      requires Valid() && database <= sect && sect + cc <= |disk| && !(sect <= winsect < sect + cc)
      modifies this`readCount
      ensures Valid() && |buff| == 512 * cc && (!ok ==> !CleanReads())
      ensures ok ==>
                forall j: nat {:trigger At(j)} :: At(j) && j < cc ==> buff[512 * j..512 * j + 512] == rest[sect + j]
    {
      ok, buff := true, [];
      for i := 0 to cc
        invariant Valid() && |buff| == 512 * i && (!ok ==> !CleanReads())
        invariant ok ==>
                    forall j: nat {:trigger At(j)} :: At(j) && j < i ==> buff[512 * j..512 * j + 512] == rest[sect + j]
      {
        var one, data := DataRead(sect + i);
        ok := ok && one;
        OneMoreSector(buff, data, i);
        buff := buff + data;
      }
    }

    /** disk_write of `cc` consecutive data sectors; a failed one leaves anything in them. */
    method DataWriteRun(sect: nat, cc: nat, w: seq<byte>) returns (ok: bool)
      requires Valid() && database <= sect && sect + cc <= |disk| && !(sect <= winsect < sect + cc)
      requires |w| == 512 * cc && forall j: nat {:trigger At(j)} :: At(j) && j < cc ==> sect + j !in guard
      modifies this`disk, this`rest, this`writeCount
      ensures Valid() && |disk| == |old(disk)| && (!ok ==> !CleanWrites())
      ensures forall i: nat {:trigger At(i)} :: At(i) && i < |rest| && !(sect <= i < sect + cc) ==>
                rest[i] == old(rest)[i]
      ensures ok ==> forall j: nat {:trigger At(j)} :: At(j) && j < cc ==> rest[sect + j] == w[512 * j..512 * j + 512]
    {
      ok := true;
      for k := 0 to cc
        invariant Valid() && |disk| == |old(disk)| && (!ok ==> !CleanWrites())
        invariant forall i: nat {:trigger At(i)} :: At(i) && i < |rest| && !(sect <= i < sect + k) ==>
                    rest[i] == old(rest)[i]
        invariant ok ==>
                    forall j: nat {:trigger At(j)} :: At(j) && j < k ==> rest[sect + j] == w[512 * j..512 * j + 512]
      {
        assert At(k);
        var one := DataWrite(sect + k, w[512 * k..512 * k + 512]);
        ok := ok && one;
      }
    }

    // ----- sectors of the data area seen through the window

    /** A byte of the data sector in the window. */
    method LoadDataByte(i: nat) returns (v: byte)
      requires Valid() && database <= winsect < |disk| && i < 512
      ensures v == rest[winsect][i]
    {
      assert Open(0);
      v := win[i];
    }

    /** Change a byte of the data sector in the window. */
    method StoreDataByte(i: nat, v: byte)
      requires Valid() && database <= winsect < |disk| && i < 512 && winsect !in guard
      modifies this`wflag, this`rest, win
      ensures Valid()
      ensures rest == old(rest)[winsect := old(rest)[winsect][i := v]]
    {
      assert Open(0);
      AgreeingElsewhere(nFats == 2 && Trusted(), disk, fatbase, fsize, if wflag then winsect else -1, winsect);
      ShowsBehindWindow(disk, rest, sectors, fatbase, winsect, MirrorSize(), rest[winsect][i := v]);
      win[i] := v;
      wflag := true;
      rest := rest[winsect := rest[winsect][i := v]];
      assert win[..] == rest[winsect];
    }

    /** move_window for a caller of the whole invariant. */
    method ShowSector(sect: nat) returns (res: FResult)
      requires Valid()
      modifies this`disk, this`wflag, this`winsect, this`readCount, this`writeCount, win
      ensures Valid() && |disk| == |old(disk)|
      ensures res == Ok || res == DiskErr
      ensures res == Ok ==> winsect == sect
      ensures res == DiskErr && sect < |disk| ==> Failed()
    {
      assert Open(0);
      res := MoveWindow(sect);
    }

    /** The FAT entry get_fat reads on exFAT when the chain of an object is on the FAT. */
    method GetEntry(clst: nat) returns (val: nat)
      requires Valid() && fsType == ExFat && 2 <= clst < nFatent
      modifies this`disk, this`wflag, this`winsect, this`readCount, this`writeCount, win
      ensures Valid() && |disk| == |old(disk)|
      ensures val == DISK_ERROR || val == fat[clst]
      ensures val == DISK_ERROR ==> Failed()
    {
      assert Open(0);
      val := GetFatWord(clst);
    }
  }

  /**
   * A volume of four sectors, with a FAT16 of one sector and its copy, which were equal at mount; a byte waits in the
   * window.
   */
  method SmallVolume() returns (v: Volume)
    ensures v.Core() && v.nFats == 2 && v.fatbase == v.fsize == v.winsect == 1 && v.wflag
    ensures v.win.Length == 512 && v.win[4] == 0xFF && fresh(v) && fresh(v.win)
    ensures v.writeCount == 0 && !v.writeFails(0) && v.writeFails(1) && v.leftBy(1)[4] == 7
  {
    var zero: Sector := seq(512, i => 0);
    v := new Volume(Fat16, 2, 4, 1, 1, 1, 3, [zero, zero, zero, zero], i => false, i => i == 1, i => seq(512, j => 7));
    assert Open(0) && At(4);
    var ok := v.Refill(1);
    v.StoreByte(4, 0xFF);
  }

  /** A sync_window whose second write fails, and which reports success. */
  method MirrorLost() returns (v: Volume, res: FResult)
    ensures v.Core() && v.nFats == 2 && res == Ok
    ensures !CopiesAgree(v.disk, v.fatbase, v.fsize, -1)
  {
    v := SmallVolume();
    res := v.SyncWindow();
    assert !SamePair(v.disk, 1, 1, 0) by {
      assert v.disk[1][4] == v.win[..][4] && v.disk[2][4] == 7;
    }
  }
}
