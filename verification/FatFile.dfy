/** f_read, f_write and f_lseek on one open file of a FAT12/16/32 volume. */
module FatFile {
  import opened Bytes
  import opened FatCodec
  import opened FatTable
  import opened FatWindow
  import opened FatAlloc
  import opened FileMap

  class File {
    const vol: Volume
    const canRead: bool       // FA_READ
    const canWrite: bool      // FA_WRITE
    const buf: array<byte>    // private sector cache

    var sclust: nat           // first cluster, 0 when there is none
    var objsize: nat
    var fptr: nat
    var clust: nat            // cluster of byte fptr - 1, when fptr is not 0
    var sect: nat             // sector in buf, 0 when there is none
    var dirty: bool           // FA_DIRTY
    var err: FResult          // set by ABORT, and returned by every later call

    ghost var chain: seq<nat>    // the clusters of the file
    ghost var secs: seq<int>     // their sectors
    ghost var data: seq<Sector>  // the logical contents of those sectors
    ghost var held: int          // index in secs of the sector in buf, -1 when there is none
    ghost var bytes: seq<byte>   // the file as a plain byte array

    /** The volume, the cluster chain, the sector cache and the logical contents fit together. */
    ghost predicate Storage()
      reads this`sclust, this`sect, this`dirty, this`chain, this`secs, this`data, this`held, buf
      reads vol`disk, vol`winsect, vol`wflag, vol`rest, vol`sectors, vol`image, vol`fat, vol`readCount, vol`writeCount
      reads vol`readMark, vol`writeMark, vol`differed, vol`guard, vol`kept, vol`links, vol`keptFat, vol.win
    {
      StorageFrom(sclust)
    }

    /** Storage, with `start` as the first cluster. */
    ghost predicate StorageFrom(start: nat)
      reads this`sect, this`dirty, this`chain, this`secs, this`data, this`held, buf
      reads vol`disk, vol`winsect, vol`wflag, vol`rest, vol`sectors, vol`image, vol`fat, vol`readCount, vol`writeCount
      reads vol`readMark, vol`writeMark, vol`differed, vol`guard, vol`kept, vol`links, vol`keptFat, vol.win
    {
      && vol.Valid() && vol.fsType != ExFat && buf.Length == 512 && buf != vol.win
      && |data| == |secs|
      && -1 <= held < |secs| && (held == -1 <==> sect == 0)
      && (held >= 0 ==> secs[held] == sect)
      && Inside(start)
    }

    /** The invariant as the file layer sees it; the calls built on top see only what Storage says about it. */
    ghost predicate Inside(start: nat)
      reads this`sect, this`dirty, this`chain, this`secs, this`data, this`held, vol`fat, vol`winsect, vol`rest
      reads vol`guard, vol`links, buf
    {
      forall i {:trigger Unlock(i)} :: Unlock(i) ==> Details(start)
    }

    /** The details as they were with another FAT or window position, to be looked into only where that matters. */
    ghost predicate Was(fat: seq<nat>, w: nat, start: nat)
      reads this`sect, this`dirty, this`chain, this`secs, this`data, this`held, vol`rest, vol`guard, vol`links, buf
    {
      forall i {:trigger Unlock(i)} :: Unlock(i) ==> DetailsFor(fat, w, start)
    }

    ghost predicate Details(start: nat)
      reads this`sect, this`dirty, this`chain, this`secs, this`data, this`held, vol`fat, vol`winsect, vol`rest
      reads vol`guard, vol`links, buf
    {
      DetailsFor(vol.fat, vol.winsect, start)
    }

    /** The details, for a given FAT and window position. */
    ghost predicate DetailsFor(fat: seq<nat>, w: nat, start: nat)
      reads this`sect, this`dirty, this`chain, this`secs, this`data, this`held, vol`rest, vol`guard, vol`links, buf
    {
      && vol.csize > 0 && |fat| == vol.nFatent
      && ClusterStart(vol.database, vol.csize, vol.nFatent) <= |vol.rest|
      && (start == 0 <==> chain == [])
      && (chain != [] ==> IsChain(fat, chain) && chain[0] == start)
      && secs == Sectors(vol.database, vol.csize, chain)
      && SectorsOk(secs, vol.database, |vol.rest|, w)
      && Apart(vol.guard, vol.database, vol.csize, fat, secs)
      && NotListed(vol.links, chain)
      && (dirty ==> held >= 0)
      && (held >= 0 && !dirty ==> buf[..] == Peek(vol.rest, sect))
      && DataOk(secs, vol.rest, held, buf[..], data)
    }

    /** The byte array fits the contents. */
    ghost predicate Content()
      reads this`bytes, this`objsize, this`fptr, this`data
    {
      && |bytes| == objsize <= 0xFFFF_FFFF
      && BytesOk(bytes, data)
      && fptr <= objsize
    }

    /** The file pointer fits the cluster chain and the sector cache. */
    ghost predicate Position()
      reads this`fptr, this`chain, this`clust, this`held
      requires vol.csize > 0
    {
      && (fptr > 0 ==> Quot((fptr - 1) / 512, vol.csize) < |chain| && clust == chain[Quot((fptr - 1) / 512, vol.csize)])
      && (fptr % 512 != 0 ==> held == fptr / 512)
    }

    ghost predicate Valid()
      reads this, vol, vol.win, buf
    {
      Storage() && Content() && Position()
    }

    /** The file object of an existing file, or of an empty one when `start` is 0. */
    constructor (v: Volume, read: bool, write: bool, start: nat, size: nat, ghost ch: seq<nat>)
      requires v.Valid() && v.fsType != ExFat && size <= 0xFFFF_FFFF
      requires ClusterStart(v.database, v.csize, v.nFatent) <= |v.disk|
      requires if start == 0 then ch == [] else IsChain(v.fat, ch) && ch[0] == start
      requires SectorsOk(Sectors(v.database, v.csize, ch), v.database, |v.disk|, v.winsect)
      requires size <= 512 * |Sectors(v.database, v.csize, ch)| && v.guard == {} && v.links == {}
      ensures Valid() && fresh(buf)
      ensures vol == v && canRead == read && canWrite == write && err == Ok && fptr == 0 && objsize == size
      ensures chain == ch
    {
      vol, canRead, canWrite := v, read, write;
      buf := new byte[512];
      sclust, objsize, fptr, clust, sect, dirty, err := start, size, 0, 0, 0, false, Ok;
      chain, held := ch, -1;
      ghost var s := Sectors(v.database, v.csize, ch);
      ghost var medium := v.rest;
      ghost var d := seq(|s|, q requires 0 <= q < |s| => Peek(medium, s[q]));
      secs, data := s, d;
      bytes := seq(size, k requires 0 <= k < 512 * |d| => d[k / 512][k % 512]);
    }

    /** From now on another chain is guarded: no call on this file may touch its sectors or its links. */
    ghost method Guard(other: seq<nat>)
      requires Storage() && IsChain(vol.fat, other) && Disjoint(other, chain)
      modifies vol`guard, vol`kept, vol`links, vol`keptFat
      ensures Storage() && vol.guard == SectorSet(vol.database, vol.csize, other) && vol.kept == vol.rest
      ensures (forall c :: c in vol.links <==> c in other) && vol.keptFat == vol.fat
    {
      var secs', links := SectorSet(vol.database, vol.csize, other), set c | c in other;
      assert DetailsFor(vol.fat, vol.winsect, sclust) by { assert Unlock(0); }
      forall s {:trigger s in secs'} | s in secs'
        ensures vol.database <= s < |vol.rest|
      {
        SectorSetBounds(vol.database, vol.csize, vol.fat, other, s);
      }
      forall c {:trigger c in links} | c in links
        ensures 2 <= c < |vol.fat| && vol.fat[c] != 0
      {
        UsedInChain(vol.fat, other, c);
      }
      OthersApart(vol.database, vol.csize, vol.fat, chain, other);
      vol.Watch(secs', links);
    }

    /** The write-back of a dirty sector cache. */
    method WriteBackBuf() returns (ok: bool)
      requires Storage() && dirty
      modifies this`dirty, vol`disk, vol`rest, vol`writeCount
      ensures vol.Valid() && |vol.disk| == |old(vol.disk)|
      ensures ok ==> Storage() && !dirty
      ensures !ok ==> Blame(vol, DiskErr)
    {
      assert Unlock(0);
      assert At(held);
      ok := vol.DataWrite(sect, buf[..]);
      assert !ok ==> Blame(vol, DiskErr);
      if ok {
        dirty := false;
      }
    }

    /** disk_read of sector `q` of the file into the clean cache. */
    method LoadBuf(s: nat, ghost q: nat) returns (ok: bool)
      requires Storage() && !dirty && q < |secs| && s == secs[q]
      modifies this`sect, this`held, buf, vol`readCount
      ensures vol.Valid()
      ensures ok ==> Storage() && sect == s && held == q
      ensures !ok ==> Blame(vol, DiskErr)
    {
      AllOnMedium();
      SectorPlace(q);
      var sector;
      ok, sector := vol.DataRead(s);
      RefillBuf(sector);
      if ok {
        sect := s;
        held := q;
        CachedAgain();
      }
    }

    /** The file without its cache: all contents are in the sectors, which are those of `rest0`. */
    ghost predicate OnMedium(rest0: seq<Sector>)
      reads this`sclust, this`chain, this`secs, this`data, vol`fat, vol`winsect, vol`guard, vol`links
    {
      forall i {:trigger Unlock(i)} :: Unlock(i) ==>
        && vol.csize > 0 && |vol.fat| == vol.nFatent
        && ClusterStart(vol.database, vol.csize, vol.nFatent) <= |rest0|
        && (sclust == 0 <==> chain == []) && (chain != [] ==> IsChain(vol.fat, chain) && chain[0] == sclust)
        && secs == Sectors(vol.database, vol.csize, chain) && SectorsOk(secs, vol.database, |rest0|, vol.winsect)
        && Apart(vol.guard, vol.database, vol.csize, vol.fat, secs) && NotListed(vol.links, chain)
        && DataOk(secs, rest0, -1, [], data)
    }

    /** A clean cache adds nothing. */
    lemma AllOnMedium()
      requires Storage() && !dirty
      ensures OnMedium(vol.rest) && (held >= 0 ==> buf[..] == Peek(vol.rest, sect))
    {
      assert Unlock(0);
      if held >= 0 {
        assert At(held);
      }
    }

    lemma SectorPlace(q: nat)
      requires Storage() && q < |secs|
      ensures vol.database <= secs[q] < |vol.rest| && secs[q] != vol.winsect
    {
      assert Unlock(0);
      SectorFacts(secs, vol.database, |vol.rest|, vol.winsect, q, q);
    }

    /** And a copy of a sector in it does not harm. */
    lemma CachedAgain()
      requires vol.Valid() && vol.fsType != ExFat && buf.Length == 512 && buf != vol.win && |data| == |secs|
      requires OnMedium(vol.rest) && !dirty && 0 <= held < |secs| && sect == secs[held] > 0
      requires buf[..] == Peek(vol.rest, sect)
      ensures Storage()
    {
      assert Unlock(0);
    }

    /** clst2sect: 0 for a bad cluster number. */
    function Clst2Sect(c: nat): int {
      if c < 2 || c - 2 >= vol.nFatent - 2 then 0 else ClusterStart(vol.database, vol.csize, c)
    }

    /** `clust` is the cluster of sector `q` of the file. */
    ghost predicate AtSector(q: nat)
      requires vol.csize > 0
      reads this`secs, this`chain, this`clust
    {
      q < |secs| && Quot(q, vol.csize) < |chain| && clust == chain[Quot(q, vol.csize)]
    }

    /** On a sector boundary inside the file, the previous byte tells the cluster except at a cluster start. */
    lemma BoundaryFacts(q: nat)
      requires Valid() && fptr == 512 * q && q < |secs|
      ensures Quot(q, vol.csize) < |chain|
      ensures secs[q] == ClusterStart(vol.database, vol.csize, chain[Quot(q, vol.csize)]) + Rem(q, vol.csize)
      ensures q == 0 ==> Rem(q, vol.csize) == 0 && Quot(q, vol.csize) == 0
      ensures q > 0 && Rem(q, vol.csize) == 0 ==> Quot(q, vol.csize) > 0 && clust == chain[Quot(q, vol.csize) - 1]
      ensures q > 0 && Rem(q, vol.csize) != 0 ==> clust == chain[Quot(q, vol.csize)]
    {
      assert Unlock(0);
      Consecutive(vol.database, vol.csize, chain, q, 0);
      if q > 0 {
        PreviousCluster(q, vol.csize);
        assert (fptr - 1) / 512 == q - 1;
      }
    }

    /** Moving the window off the data area keeps the file intact. */
    lemma StorageAfterFat(before: nat)
      requires SectorsOk(secs, vol.database, |vol.rest|, before) && vol.WindowFrom(before) && |vol.rest| <= 0xFFFF_FFFF
      ensures SectorsOk(secs, vol.database, |vol.rest|, vol.winsect)
    {
    }

    /** get_fat on a file's cluster: its successor in the chain; the file stays intact whatever the medium does. */
    method Successor(c: nat, ghost i: nat) returns (clst: nat)
      requires Storage() && i + 1 < |chain| && c == chain[i]
      modifies vol`disk, vol`wflag, vol`winsect, vol`readCount, vol`writeCount, vol.win
      ensures Storage()
      ensures clst == DISK_ERROR || (clst == chain[i + 1] && InRange(vol.fat, clst))
      ensures clst == DISK_ERROR ==> Blame(vol, DiskErr)
    {
      assert Unlock(0);
      ghost var w := vol.winsect;
      ChainMembers(vol.fat, chain, i);
      ChainMembers(vol.fat, chain, i + 1);
      clst := vol.GetFat(c);
      StorageAfterFat(w);
    }

    /** The cluster of a sector boundary inside the file, for reading. */
    method ClusterForRead() returns (clst: nat)
      requires Valid() && fptr % 512 == 0 && fptr < objsize
      modifies vol`disk, vol`wflag, vol`winsect, vol`readCount, vol`writeCount, vol.win
      ensures Storage()
      ensures || clst == DISK_ERROR
              || (&& Quot(fptr / 512, vol.csize) < |chain| && clst == chain[Quot(fptr / 512, vol.csize)]
                  && InRange(vol.fat, clst))
      ensures clst == DISK_ERROR ==> Blame(vol, DiskErr)
    {
      var q := fptr / 512;
      assert Unlock(0);
      BoundaryFacts(q);
      ChainMembers(vol.fat, chain, Quot(q, vol.csize));
      clst := clust;
      if Rem(q, vol.csize) == 0 {
        if fptr == 0 {
          clst := sclust;
        } else {
          clst := Successor(clust, Quot(q, vol.csize) - 1);
        }
      }
    }

    /** clst2sect of the current cluster plus the sector offset in it; 0 would be an internal error. */
    method SectorInCluster(q: nat) returns (s: int)
      requires Storage() && AtSector(q)
      ensures s == secs[q] && s > 0
    {
      assert Unlock(0);
      Consecutive(vol.database, vol.csize, chain, q, 0);
      ChainMembers(vol.fat, chain, Quot(q, vol.csize));
      StartBounds(vol.database, vol.csize, clust, 0, clust + 1);
      s := Clst2Sect(clust);
      if s != 0 {
        s := s + Rem(q, vol.csize);
      }
    }

    /** First half of a pass of f_read on a sector boundary: follow the chain to the current sector. */
    method LocateRead() returns (res: FResult, s: int)
      requires Valid() && fptr % 512 == 0 && fptr < objsize
      modifies this`clust, vol`disk, vol`wflag, vol`winsect, vol`readCount, vol`writeCount, vol.win
      ensures vol.Valid()
      ensures res == Ok ==> Storage() && AtSector(fptr / 512) && 0 < s == secs[fptr / 512]
      ensures res == Ok || (res == DiskErr && Blame(vol, res))
    {
      s := 0;
      var q := fptr / 512;
      var clst := ClusterForRead();
      if clst < 2 {
        res := IntErr;
      } else if clst == DISK_ERROR {
        res := DiskErr;
      } else {
        clust := clst;
        s := SectorInCluster(q);
        res := if s == 0 then IntErr else Ok;
      }
    }

    /** The sector of the file pointer is in the cache, so that bytes can be copied. */
    ghost predicate Ready()
      reads this, vol, vol.win, buf
    {
      Storage() && Content() && AtSector(fptr / 512) && held == fptr / 512
    }

    lemma ReadyInsideSector()
      requires Valid() && fptr % 512 != 0
      ensures Ready()
    {
      assert (fptr - 1) / 512 == fptr / 512;
    }

    /** After moving `n` bytes on inside the cached sector, the file pointer fits again. */
    lemma AdvancedInSector(start: nat, n: nat)
      requires vol.csize > 0 && 0 < n <= 512 - start % 512 && AtSector(start / 512) && held == start / 512
      requires fptr == start + n
      ensures Position()
    {
      assert (fptr - 1) / 512 == start / 512;
    }

    /** After moving `cc` sectors on inside the cluster of sector `q`, the file pointer fits again. */
    lemma AdvancedRun(q: nat, cc: nat)
      requires vol.csize > 0 && cc > 0 && AtSector(q) && Rem(q, vol.csize) + cc <= vol.csize
      requires fptr == 512 * (q + cc)
      ensures Position()
    {
      SameCluster(q, vol.csize, cc - 1);
      LastSectorOf(q + cc);
    }

    /** The distance of the cached sector from the start of a transfer, in unsigned 32-bit arithmetic. */
    function CacheOffset(s: int): int
      reads this`sect
    {
      (sect - s) % 0x1_0000_0000
    }

    /** Number of sectors of a direct transfer: as many as wanted, but not past the cluster. */
    function RunLength(q: nat, n: nat): (cc: nat)
      requires vol.csize > 0
      ensures cc <= n / 512 && Rem(q, vol.csize) + cc <= vol.csize && (n >= 512 ==> cc > 0)
    {
      if Rem(q, vol.csize) + n / 512 > vol.csize then vol.csize - Rem(q, vol.csize) else n / 512
    }

    /** The sectors of a run lie on the medium one after the other, clear of the window. */
    lemma RunFacts(q: nat, cc: nat)
      requires Storage() && AtSector(q) && 0 < cc && Rem(q, vol.csize) + cc <= vol.csize
      ensures q + cc <= |secs| && vol.database <= secs[q] && secs[q] + cc <= |vol.disk|
      ensures !(secs[q] <= vol.winsect < secs[q] + cc)
      ensures forall j: nat {:trigger At(j)} :: At(j) && j < cc ==> q + j < |secs| && secs[q + j] == secs[q] + j
    {
      assert Unlock(0);
      forall j: nat | At(j) && j < cc
        ensures q + j < |secs| && secs[q + j] == secs[q] + j && vol.database <= secs[q + j] < |vol.disk|
        ensures secs[q + j] != vol.winsect
      {
        Consecutive(vol.database, vol.csize, chain, q, j);
        assert At(q + j);
      }
      assert At(0) && At(cc - 1) && At(vol.winsect - secs[q]);
    }

    /** A direct read of whole sectors, with the dirty cached one put in its place. */
    method ReadDirect(s: nat, q: nat, cc: nat) returns (ok: bool, chunk: seq<byte>)
      requires Storage() && Content() && AtSector(q) && s == secs[q]
      requires 0 < cc && Rem(q, vol.csize) + cc <= vol.csize && 512 * q + 512 * cc <= objsize
      modifies vol`readCount
      ensures Storage() && |chunk| == 512 * cc && (!ok ==> Blame(vol, DiskErr))
      ensures ok ==> chunk == bytes[512 * q..512 * q + 512 * cc]
    {
      assert Unlock(0);
      RunFacts(q, cc);
      var raw;
      ok, raw := vol.DataReadRun(s, cc);
      chunk := raw;
      if dirty && CacheOffset(s) < cc {
        chunk := Patch(raw, CacheOffset(s), buf[..]);
      }
      if ok {
        ChunkOfFile(q, cc, raw, chunk);
      }
    }

    /** What a patched direct read gives. */
    lemma ChunkOfFile(q: nat, cc: nat, raw: seq<byte>, chunk: seq<byte>)
      requires Storage() && Content() && 0 < cc && q + cc <= |secs| && 512 * q + 512 * cc <= objsize
      requires |raw| == 512 * cc
      requires forall j: nat {:trigger At(j)} :: At(j) && j < cc ==>
                 && secs[q + j] == secs[q] + j && 0 <= secs[q] + j < |vol.rest|
                 && raw[512 * j..512 * j + 512] == vol.rest[secs[q] + j]
      requires chunk == if dirty && CacheOffset(secs[q]) < cc then Patch(raw, CacheOffset(secs[q]), buf[..]) else raw
      ensures chunk == bytes[512 * q..512 * q + 512 * cc]
    {
      forall j: nat | At(j) && j < cc
        ensures 512 * j + 512 <= |chunk| && chunk[512 * j..512 * j + 512] == data[q + j]
      {
        SectorFromRun(q, cc, raw, chunk, j);
      }
      BytesFromSectors(bytes, data, q, cc, chunk);
    }

    /** What a patched direct read gives for sector `j` of the run. */
    lemma SectorFromRun(q: nat, cc: nat, raw: seq<byte>, chunk: seq<byte>, j: nat)
      requires Storage() && |raw| == 512 * cc && j < cc && q + j < |secs|
      requires secs[q + j] == secs[q] + j && 0 <= secs[q] + j < |vol.rest| && At(j)
      requires raw[512 * j..512 * j + 512] == vol.rest[secs[q] + j]
      requires chunk == if dirty && CacheOffset(secs[q]) < cc then Patch(raw, CacheOffset(secs[q]), buf[..]) else raw
      ensures 512 * j + 512 <= |chunk| && chunk[512 * j..512 * j + 512] == data[q + j]
    {
      assert Unlock(0);
      assert At(q + j);
      CacheInRun(q, j);
      if dirty && CacheOffset(secs[q]) < cc {
        PatchSectors(raw, CacheOffset(secs[q]), buf[..], j);
      }
    }

    /** The cached sector is sector `j` of a run exactly when it is held under that index. */
    lemma CacheInRun(q: nat, j: nat)
      requires Storage() && q + j < |secs| && secs[q + j] == secs[q] + j
      ensures held == q + j <==> held >= 0 && CacheOffset(secs[q]) == j
    {
      assert Unlock(0);
      if held >= 0 {
        SectorFacts(secs, vol.database, |vol.disk|, vol.winsect, held, q + j);
        SectorFacts(secs, vol.database, |vol.disk|, vol.winsect, q, q + j);
        WrappedOffset(sect, secs[q], j);
      }
    }

    /** Bring sector `q` of the file into the cache, flushing a dirty one first. */
    method CacheSector(s: nat, ghost q: nat) returns (ok: bool)
      requires Storage() && q < |secs| && s == secs[q]
      modifies this`dirty, this`sect, this`held, buf, vol`disk, vol`rest, vol`readCount, vol`writeCount
      ensures vol.Valid()
      ensures ok ==> Storage() && held == q
      ensures !ok ==> Blame(vol, DiskErr)
    {
      assert Unlock(0);
      ok := true;
      SectorFacts(secs, vol.database, |vol.disk|, vol.winsect, q, q);
      if sect != s {
        if dirty {
          ok := WriteBackBuf();
        }
        if ok {
          ok := LoadBuf(s, q);
        }
      } else {
        SectorFacts(secs, vol.database, |vol.disk|, vol.winsect, held, q);
      }
    }

    /** The cache holds the logical contents of its sector. */
    lemma HeldData()
      requires Storage() && held >= 0
      ensures data[held] == buf[..]
    {
      assert Unlock(0) && At(held);
    }

    /** Copy out of the cache, up to the end of the sector. */
    method ReadPartial(btr: nat) returns (chunk: seq<byte>)
      requires Ready() && 0 < btr && fptr + btr <= objsize
      modifies this`fptr
      ensures Valid() && fptr == old(fptr) + |chunk| && 0 < |chunk| <= btr
      ensures chunk == bytes[old(fptr)..fptr]
    {
      var o := fptr % 512;
      var n := if 512 - o > btr then btr else 512 - o;
      chunk := buf[o..o + n];
      HeldData();
      BytesInSector(bytes, data, fptr / 512, o, n);
      ghost var start := fptr;
      assert vol.csize > 0 by { assert Unlock(0); }
      fptr := fptr + n;
      AdvancedInSector(start, n);
    }

    /** The direct transfer of f_read, from the sector `s` of the file pointer on. */
    method ReadWhole(s: nat, btr: nat) returns (ok: bool, chunk: seq<byte>)
      requires Storage() && Content() && AtSector(fptr / 512) && s == secs[fptr / 512]
      requires fptr % 512 == 0 && 512 <= btr && fptr + btr <= objsize
      modifies this`fptr, vol`readCount
      ensures vol.Valid() && |chunk| <= btr && (!ok ==> Blame(vol, DiskErr))
      ensures ok ==> Valid() && fptr == old(fptr) + |chunk| && 0 < |chunk| && chunk == bytes[old(fptr)..fptr]
    {
      var q := fptr / 512;
      var cc := RunLength(q, btr);
      assert fptr == 512 * q;
      ok, chunk := ReadDirect(s, q, cc);
      if ok {
        fptr := fptr + 512 * cc;
        AdvancedRun(q, cc);
      }
    }

    /** A pass of f_read on a sector boundary, up to a partial copy. */
    method ReadAligned(btr: nat) returns (res: FResult, chunk: seq<byte>)
      requires Valid() && fptr % 512 == 0 && 0 < btr && fptr + btr <= objsize
      modifies this`clust, this`fptr, this`dirty, this`sect, this`held, buf
      modifies vol`disk, vol`rest, vol`wflag, vol`winsect, vol`readCount, vol`writeCount, vol.win
      ensures vol.Valid()
      ensures res == Ok && btr >= 512 ==> Valid() && fptr == old(fptr) + |chunk| && 0 < |chunk| <= btr
      ensures res == Ok && btr >= 512 ==> chunk == bytes[old(fptr)..fptr]
      ensures res == Ok && btr < 512 ==> Ready() && fptr == old(fptr)
      ensures res == Ok || (res == DiskErr && Blame(vol, res))
    {
      chunk := [];
      var s;
      res, s := LocateRead();
      if res == Ok {
        var ok;
        if btr / 512 > 0 {
          ok, chunk := ReadWhole(s, btr);
        } else {
          ok := CacheSector(s, fptr / 512);
        }
        res := if ok then Ok else DiskErr;
      }
    }

    /** One pass of the loop of f_read. */
    method ReadStep(btr: nat) returns (res: FResult, chunk: seq<byte>)
      requires Valid() && 0 < btr && fptr + btr <= objsize
      modifies this`clust, this`fptr, this`dirty, this`sect, this`held, buf
      modifies vol`disk, vol`rest, vol`wflag, vol`winsect, vol`readCount, vol`writeCount, vol.win
      ensures vol.Valid()
      ensures res == Ok ==> Valid() && fptr == old(fptr) + |chunk| && 0 < |chunk| <= btr
      ensures res == Ok ==> chunk == bytes[old(fptr)..fptr]
      ensures res == Ok || (res == DiskErr && Blame(vol, res))
    {
      res, chunk := Ok, [];
      if fptr % 512 == 0 {
        res, chunk := ReadAligned(btr);
        if res != Ok || btr >= 512 { return; }
      } else {
        ReadyInsideSector();
      }
      chunk := ReadPartial(btr);
    }

    /** The loop of f_read. */
    method ReadLoop(btr0: nat) returns (res: FResult, buff: seq<byte>)
      requires Valid() && fptr + btr0 <= objsize
      modifies this`clust, this`fptr, this`dirty, this`sect, this`held, buf
      modifies vol`disk, vol`rest, vol`wflag, vol`winsect, vol`readCount, vol`writeCount, vol.win
      ensures vol.Valid()
      ensures res == Ok ==> Valid() && fptr == old(fptr) + btr0 && buff == bytes[old(fptr)..fptr]
      ensures res == Ok || (res == DiskErr && Blame(vol, res))
    {
      res, buff := Ok, [];
      var btr := btr0;
      while btr > 0 && res == Ok
        invariant vol.Valid() && 0 <= btr
        invariant res == Ok ==> Valid() && fptr + btr == old(fptr) + btr0 <= objsize && old(fptr) <= fptr
        invariant res == Ok ==> buff == bytes[old(fptr)..fptr]
        invariant res == Ok || (res == DiskErr && Blame(vol, res))
        decreases btr, if res == Ok then 1 else 0
      {
        var chunk;
        res, chunk := ReadStep(btr);
        if res == Ok {
          buff, btr := buff + chunk, btr - |chunk|;
        }
      }
    }

    /** f_read: the bytes of the file from the file pointer on, as many as wanted or as there are. */
    method FRead(btr: nat) returns (res: FResult, denied: bool, buff: seq<byte>)
      requires vol.Valid() && (err == Ok ==> Valid())
      modifies this`clust, this`fptr, this`dirty, this`sect, this`held, this`err, buf
      modifies vol`disk, vol`rest, vol`wflag, vol`winsect, vol`readCount, vol`writeCount, vol.win
      ensures vol.Valid() && (err == Ok ==> Valid())
      ensures old(err) != Ok ==> res == old(err)
      ensures res == err && (denied <==> old(err) == Ok && !canRead)
      ensures denied ==> fptr == old(fptr)
      ensures res == Ok && !denied ==>
                && fptr == (if old(fptr) + btr <= objsize then old(fptr) + btr else objsize)
                && buff == bytes[old(fptr)..fptr]
      ensures res == Ok || old(err) != Ok || (res == DiskErr && vol.Failed())
    {
      assert Why(0);
      res, denied, buff := err, false, [];
      if err == Ok {
        if canRead {
          res, buff := ReadLoop(if btr > objsize - fptr then objsize - fptr else btr);
          err := res;
        } else {
          denied := true;
        }
      }
    }

    // ----- f_write

    /** Bookkeeping after create_chain has linked a new cluster behind the chain. */
    ghost method Adopt(fat0: seq<nat>, w: nat, start: nat, ncl: nat)
      requires DetailsFor(fat0, w, start) && -1 <= held < |secs|
      requires |fat0| == |vol.fat| && InRange(fat0, ncl) && fat0[ncl] == 0
      requires vol.winsect < vol.database && Eoc(vol.fsType) >= |fat0|
      requires vol.fat == Taken(fat0, if chain == [] then 0 else chain[|chain| - 1], ncl, Eoc(vol.fsType))
      requires ncl !in vol.links
      modifies this`chain, this`secs, this`data
      ensures DetailsFor(vol.fat, vol.winsect, if start == 0 then ncl else start)
      ensures chain == old(chain) + [ncl] && old(secs) <= secs && old(data) <= data && |data| == |secs|
    {
      if chain != [] {
        ChainExtend(fat0, chain, ncl, Eoc(vol.fsType));
      } else {
        assert IsChain(vol.fat, [ncl]);
      }
      SectorsExtend(vol.database, vol.csize, chain, ncl);
      var secs' := Sectors(vol.database, vol.csize, chain + [ncl]);
      ApartGrows(vol.guard, vol.database, vol.csize, fat0, vol.fat, chain, ncl);
      NotListedGrows(vol.links, chain, ncl);
      GrownDataOk(secs, secs', vol.rest, held, buf[..], data);
      data := GrownData(data, vol.rest, secs');
      chain := chain + [ncl];
      secs := secs';
      ChainSectorsOk(vol.fat, chain, vol.database, vol.csize, |vol.rest|, vol.winsect);
    }

    /** Bookkeeping after create_chain has returned cluster `clst`. */
    ghost method AfterCreate(fat0: seq<nat>, w: nat, start: nat, c: nat, i: int, clst: nat)
      requires Was(fat0, w, start) && -1 <= held < |secs| && |data| == |secs| && |vol.rest| <= 0xFFFF_FFFF
      requires |fat0| == |vol.fat| && Eoc(vol.fsType) >= |fat0| && vol.WindowFrom(w)
      requires if c == 0 then chain == [] && i == -1 else 0 <= i < |chain| && c == chain[i]
      requires if i + 1 < |chain| then vol.fat == fat0 && clst == chain[i + 1] else
                 && InRange(fat0, clst) && fat0[clst] == 0 && clst !in vol.links && vol.winsect < vol.database
                 && vol.fat == Taken(fat0, c, clst, Eoc(vol.fsType))
      modifies this`chain, this`secs, this`data
      ensures Was(vol.fat, vol.winsect, if start == 0 then clst else start)
      ensures i + 1 < |chain| && clst == chain[i + 1] && old(data) <= data && old(secs) <= secs && |data| == |secs|
      ensures chain == if i + 1 < |old(chain)| then old(chain) else old(chain) + [clst]
    {
      assert Unlock(0);
      if i + 1 < |chain| {
        StorageAfterFat(w);
      } else {
        Adopt(fat0, w, start, clst);
      }
    }

    /** create_chain behind cluster `c`, whose successor in the chain is `next`, or 0 when there is none. */
    method CreateNext(c: nat, ghost next: nat) returns (clst: nat)
      requires vol.Valid() && vol.fsType != ExFat && (c == 0 ==> next == 0) && c !in vol.links
      requires c != 0 ==>
                 && InRange(vol.fat, c)
                 && if next != 0 then vol.fat[c] == next && InRange(vol.fat, next) else vol.fat[c] >= |vol.fat|
      modifies vol`disk, vol`wflag, vol`winsect, vol`readCount, vol`writeCount, vol`sectors, vol`image, vol`fat
      modifies vol`freeClst, vol`lastClst, vol.win
      ensures vol.Valid() && |vol.fat| == |old(vol.fat)| && vol.WindowFrom(old(vol.winsect))
      ensures old(NoRoom(vol)) ==> NoRoom(vol)
      ensures clst <= 1 ==> vol.fat == old(vol.fat)
      ensures clst == 0 ==> NoRoom(vol)
      ensures (clst == 1 ==> Blame(vol, IntErr)) && (clst == DISK_ERROR ==> Blame(vol, DiskErr))
      ensures next != 0 ==> clst > 1
      ensures clst > 1 && clst != DISK_ERROR ==>
                if next != 0 then vol.fat == old(vol.fat) && clst == next else
                && InRange(old(vol.fat), clst) && old(vol.fat)[clst] == 0 && clst !in vol.links
                && vol.winsect < vol.database
                && vol.fat == Taken(old(vol.fat), c, clst, Eoc(vol.fsType))
    {
      vol.FreeNotLinked();
      clst := CreateChain(vol, c);
    }

    /** create_chain for a file: follow its chain behind member `i`, or stretch it, or start it. */
    method Extend(c: nat, ghost i: int) returns (clst: nat)
      requires Storage()
      requires if c == 0 then chain == [] && i == -1 else 0 <= i < |chain| && c == chain[i]
      modifies this`chain, this`secs, this`data, this`sclust
      modifies vol`disk, vol`wflag, vol`winsect, vol`readCount, vol`writeCount, vol`sectors, vol`image, vol`fat
      modifies vol`freeClst, vol`lastClst, vol.win
      ensures vol.Valid()
      ensures old(NoRoom(vol)) ==> NoRoom(vol)
      ensures clst != DISK_ERROR ==> Storage()
      ensures clst <= 1 ==> chain == old(chain) && data == old(data)
      ensures clst == 0 ==> NoRoom(vol)
      ensures (clst == 1 ==> Blame(vol, IntErr)) && (clst == DISK_ERROR ==> Blame(vol, DiskErr))
      ensures i + 1 < |old(chain)| ==> clst > 1
      ensures clst > 1 && clst != DISK_ERROR ==>
                && i + 1 < |chain| && clst == chain[i + 1] && InRange(vol.fat, clst) && old(data) <= data
                && chain == if i + 1 < |old(chain)| then old(chain) else old(chain) + [clst]
    {
      ghost var w, fat0 := vol.winsect, vol.fat;
      assert Was(fat0, w, sclust);
      MemberFacts(c, i);
      clst := CreateNext(c, if i + 1 < |chain| then chain[i + 1] else 0);
      if clst <= 1 {
        StillThere(fat0, w);
      } else if clst != DISK_ERROR {
        EocLarge();
        AfterCreate(fat0, w, sclust, c, i, clst);
        if sclust == 0 {
          sclust := clst;
        }
      }
    }

    lemma EocLarge()
      requires vol.Valid() && vol.fsType != ExFat
      ensures Eoc(vol.fsType) >= |vol.fat|
    {
    }

    /** What create_chain finds at the last cluster it is given, or at one inside the chain. */
    lemma MemberFacts(c: nat, i: int)
      requires Storage() && if c == 0 then chain == [] && i == -1 else 0 <= i < |chain| && c == chain[i]
      ensures c != 0 ==>
                && InRange(vol.fat, c)
                && if i + 1 < |chain| then vol.fat[c] == chain[i + 1] && InRange(vol.fat, chain[i + 1])
                   else vol.fat[c] >= |vol.fat|
      ensures sclust == 0 <==> chain == []
      ensures i + 1 < |chain| ==> chain[i + 1] != 0
      ensures c !in vol.links
    {
      assert Unlock(0);
      vol.FreeNotLinked();
      if c != 0 {
        assert At(i);
        ChainMembers(vol.fat, chain, i);
        if i + 1 < |chain| {
          ChainMembers(vol.fat, chain, i + 1);
        }
      }
    }

    /** The details hold on when the FAT has not changed. */
    lemma StillThere(fat0: seq<nat>, w: nat)
      requires Was(fat0, w, sclust) && vol.fat == fat0 && vol.WindowFrom(w) && |vol.rest| <= 0xFFFF_FFFF
      ensures Inside(sclust)
    {
      assert Unlock(0);
      StorageAfterFat(w);
    }

    /** On a sector boundary, possibly at the end of the last cluster. */
    lemma WriteBoundary(q: nat)
      requires Valid() && fptr == 512 * q
      ensures q > 0 && Rem(q, vol.csize) == 0 ==>
                0 < Quot(q, vol.csize) <= |chain| && clust == chain[Quot(q, vol.csize) - 1]
      ensures q > 0 && Rem(q, vol.csize) != 0 ==> AtSector(q)
      ensures q > 0 ==> InRange(vol.fat, clust)
      ensures q == 0 ==> Rem(q, vol.csize) == 0 == Quot(q, vol.csize)
      ensures if chain == [] then sclust == 0 else sclust == chain[0] && InRange(vol.fat, sclust)
    {
      assert Unlock(0);
      if chain != [] {
        ChainMembers(vol.fat, chain, 0);
      }
      if q > 0 {
        ChainMembers(vol.fat, chain, Quot((fptr - 1) / 512, vol.csize));
        assert (fptr - 1) / 512 == q - 1;
        PreviousCluster(q, vol.csize);
        if Rem(q, vol.csize) != 0 {
          SectorInFile(vol.database, vol.csize, chain, q);
        }
      }
    }

    lemma SectorListed(q: nat)
      requires Storage() && vol.csize > 0 && Quot(q, vol.csize) < |chain|
      ensures q < |secs|
    {
      assert Unlock(0);
      SectorInFile(vol.database, vol.csize, chain, q);
    }

    /** The cluster of a sector boundary, for writing; the chain is stretched if it ends there. */
    method ClusterForWrite() returns (clst: nat)
      requires Valid() && fptr % 512 == 0
      modifies this`chain, this`secs, this`data, this`sclust
      modifies vol`disk, vol`wflag, vol`winsect, vol`readCount, vol`writeCount, vol`sectors, vol`image, vol`fat
      modifies vol`freeClst, vol`lastClst, vol.win
      ensures vol.Valid()
      ensures old(NoRoom(vol)) ==> NoRoom(vol)
      ensures clst != DISK_ERROR ==> Storage() && Content()
      ensures clst <= 1 ==> chain == old(chain) && data == old(data)
      ensures clst == 0 ==> NoRoom(vol)
      ensures (clst == 1 ==> Blame(vol, IntErr)) && (clst == DISK_ERROR ==> Blame(vol, DiskErr))
      ensures clst > 1 && clst != DISK_ERROR ==>
                && fptr / 512 < |secs| && Quot(fptr / 512, vol.csize) < |chain|
                && clst == chain[Quot(fptr / 512, vol.csize)]
    {
      assert vol.csize > 0 by { assert Unlock(0); }
      var q := fptr / 512;
      WriteBoundary(q);
      clst := clust;
      if Rem(q, vol.csize) == 0 {
        clst := if fptr == 0 then sclust else 0;
        if clst == 0 {
          clst := Extend(if fptr == 0 then 0 else clust, if fptr == 0 then -1 else Quot(q, vol.csize) - 1);
          if clst != DISK_ERROR {
            BytesKeptByGrowth(bytes, old(data), data);
          }
        }
      }
      if Quot(q, vol.csize) < |chain| && clst != DISK_ERROR {
        SectorListed(q);
      }
    }

    /** First half of a pass of f_write on a sector boundary: find or make the sector, flush the cache. */
    method LocateWrite() returns (res: FResult, full: bool, s: int)
      requires Valid() && fptr % 512 == 0
      modifies this`clust, this`dirty, this`chain, this`secs, this`data, this`sclust
      modifies vol`disk, vol`rest, vol`wflag, vol`winsect, vol`readCount, vol`writeCount, vol`sectors, vol`image
      modifies vol`fat, vol`freeClst, vol`lastClst, vol.win
      ensures vol.Valid()
      ensures old(NoRoom(vol)) ==> NoRoom(vol)
      ensures full ==> res == Ok && Valid() && NoRoom(vol)
      ensures res == Ok && !full ==>
                Storage() && Content() && AtSector(fptr / 512) && !dirty && 0 < s == secs[fptr / 512]
      ensures res == Ok || Blame(vol, res)
    {
      res, full, s := Ok, false, 0;
      var clst := ClusterForWrite();
      if clst == 0 {
        full := true;
      } else if clst == 1 {
        res := IntErr;
      } else if clst == DISK_ERROR {
        res := DiskErr;
      } else {
        clust := clst;
        res, s := FlushAndFind();
      }
    }

    /** The write-back before a new sector is entered, and the number of that sector. */
    method FlushAndFind() returns (res: FResult, s: int)
      requires Storage() && AtSector(fptr / 512)
      modifies this`dirty, vol`disk, vol`rest, vol`writeCount
      ensures vol.Valid()
      ensures res == Ok ==> Storage() && !dirty && 0 < s == secs[fptr / 512]
      ensures res == Ok || (res == DiskErr && Blame(vol, res))
    {
      res, s := Ok, 0;
      if dirty {
        var ok := WriteBackBuf();
        res := if ok then Ok else DiskErr;
      }
      if res == Ok {
        s := SectorInCluster(fptr / 512);
        res := if s == 0 then IntErr else Ok;
      }
    }

    /** A direct write of whole sectors; a stale cached one is refilled from the caller's data. */
    method WriteDirect(s: nat, q: nat, cc: nat, w: seq<byte>) returns (ok: bool)
      requires Storage() && AtSector(q) && !dirty && s == secs[q]
      requires 0 < cc && Rem(q, vol.csize) + cc <= vol.csize && |w| == 512 * cc
      modifies this`dirty, this`data, buf, vol`disk, vol`rest, vol`writeCount
      ensures vol.Valid() && (!ok ==> Blame(vol, DiskErr))
      ensures ok ==> Storage() && q + cc <= |old(data)| && data == RunData(old(data), q, cc, w)
    {
      RunFacts(q, cc);
      HeldInRun(q, cc);
      ghost var rest0, buf0 := vol.rest, buf[..];
      AllOnMedium();
      RunUnguarded(q, cc);
      ok := vol.DataWriteRun(s, cc, w);
      if CacheOffset(s) < cc {
        RefillBuf(ChunkAt(w, CacheOffset(s)));
        dirty := false;
      }
      if ok {
        AfterRun(rest0, buf0, q, cc, w);
      }
    }

    lemma RunUnguarded(q: nat, cc: nat)
      requires Storage() && q + cc <= |secs|
      requires forall j: nat {:trigger At(j)} :: At(j) && j < cc ==> secs[q + j] == secs[q] + j
      ensures forall j: nat {:trigger At(j)} :: At(j) && j < cc ==> secs[q] + j !in vol.guard
    {
      assert Unlock(0);
      forall j: nat {:trigger At(j)} | At(j) && j < cc
        ensures secs[q] + j !in vol.guard
      {
        assert At(q + j);
      }
    }

    /** Bookkeeping after a direct write, from the contents `rest0` and `buf0` before it. */
    ghost method AfterRun(rest0: seq<Sector>, buf0: seq<byte>, q: nat, cc: nat, w: seq<byte>)
      requires vol.Valid() && vol.fsType != ExFat && buf.Length == 512 && buf != vol.win && !dirty
      requires |data| == |secs| && -1 <= held < |secs| && (held == -1 <==> sect == 0)
      requires (held >= 0 ==> secs[held] == sect)
      requires OnMedium(rest0) && (held >= 0 ==> buf0 == Peek(rest0, sect))
      requires 0 < cc && q + cc <= |secs| && |w| == 512 * cc && |rest0| == |vol.rest|
      requires forall j: nat {:trigger At(j)} :: At(j) && j < cc ==> secs[q + j] == secs[q] + j
      requires forall i: nat {:trigger At(i)} :: At(i) && i < |rest0| && !(secs[q] <= i < secs[q] + cc) ==>
                 vol.rest[i] == rest0[i]
      requires forall j: nat {:trigger At(j)} :: At(j) && j < cc && 0 <= secs[q] + j < |rest0| ==>
                 vol.rest[secs[q] + j] == ChunkAt(w, j)
      requires held >= 0 ==> buf[..] == if q <= held < q + cc then ChunkAt(w, held - q) else buf0
      modifies this`data
      ensures Storage() && data == RunData(old(data), q, cc, w)
    {
      assert Unlock(0);
      RunDataOk(secs, rest0, vol.rest, held, buf0, buf[..], data, q, cc, w, vol.database, |vol.disk|, vol.winsect);
      data := RunData(data, q, cc, w);
    }

    /** memcpy of one sector into the cache. */
    method RefillBuf(sector: Sector)
      requires buf.Length == 512
      modifies buf
      ensures buf[..] == sector
    {
      forall i | 0 <= i < 512 { buf[i] := sector[i]; }
    }

    /** The cached sector lies in a run exactly when it is held under an index of the run. */
    lemma HeldInRun(q: nat, cc: nat)
      requires Storage() && q + cc <= |secs| && cc > 0
      requires forall j: nat {:trigger At(j)} :: At(j) && j < cc ==> secs[q + j] == secs[q] + j
      ensures CacheOffset(secs[q]) < cc <==> held >= 0 && q <= held < q + cc
      ensures held >= 0 && q <= held < q + cc ==> CacheOffset(secs[q]) == held - q
      ensures CacheOffset(secs[q]) < cc <==> secs[q] <= sect < secs[q] + cc
    {
      assert Unlock(0);
      InRun(secs, vol.database, |vol.disk|, vol.winsect, held, sect, q, cc);
    }

    /** Copy into the cache: sector `q` is the current one, and gets `w` from the file pointer on. */
    method CopyIn(s: nat, w: seq<byte>)
      requires Storage() && AtSector(fptr / 512) && s == secs[fptr / 512] && s != 0
      requires held == fptr / 512 || !dirty
      requires fptr % 512 + |w| <= 512
      modifies this`sect, this`held, this`dirty, this`data, buf
      ensures Storage() && held == fptr / 512
      ensures data == old(data)[fptr / 512 := Splice(old(buf[..]), fptr % 512, w)]
    {
      assert Unlock(0);
      var o := fptr % 512;
      ghost var q := fptr / 512;
      CopiedDataOk(secs, vol.rest, held, buf[..], data, q, Splice(buf[..], o, w));
      RefillBuf(Splice(buf[..], o, w));
      sect, dirty := s, true;
      data, held := data[q := buf[..]], q;
    }

    // ----- f_write: one pass and the whole call

    /** The file as a byte array, after the pass has put `w` at the old file pointer. */
    twostate predicate Wrote(w: seq<byte>)
      reads this`bytes, this`fptr
    {
      && old(fptr) <= |old(bytes)|
      && bytes == Overwrite(old(bytes), old(fptr), w)
      && fptr == old(fptr) + |w|
    }

    /** The update at the end of a pass: the file pointer moves on and the size follows it. */
    method Advance(w: seq<byte>)
      requires fptr <= |bytes| == objsize && fptr + |w| <= 0xFFFF_FFFF && objsize <= 0xFFFF_FFFF
      requires BytesOk(Overwrite(bytes, fptr, w), data)
      modifies this`fptr, this`objsize, this`bytes
      ensures Content() && Wrote(w)
    {
      bytes := Overwrite(bytes, fptr, w);
      fptr := fptr + |w|;
      objsize := if fptr > objsize then fptr else objsize;
    }

    /** The contents with `w` copied into the cache are those of the byte array with `w` written. */
    lemma PatchFits(w: seq<byte>)
      requires Storage() && Content() && AtSector(fptr / 512) && fptr % 512 + |w| <= 512
      requires held == fptr / 512 || (fptr == objsize && fptr % 512 == 0)
      ensures BytesOk(Overwrite(bytes, fptr, w), data[fptr / 512 := Splice(buf[..], fptr % 512, w)])
    {
      if held >= 0 {
        HeldData();
      }
      BytesAfterPatch(bytes, data, fptr / 512, fptr % 512, w, buf[..]);
    }

    /** Bytes put into the cached sector become bytes of the file. */
    method WritePartial(s: nat, w: seq<byte>)
      requires Storage() && Content() && AtSector(fptr / 512) && s == secs[fptr / 512] && s != 0
      requires held == fptr / 512 || (!dirty && fptr == objsize && fptr % 512 == 0)
      requires 0 < |w| && fptr % 512 + |w| <= 512 && fptr + |w| <= 0xFFFF_FFFF
      modifies this`sect, this`held, this`dirty, this`data, this`fptr, this`objsize, this`bytes, buf
      ensures Valid() && Wrote(w)
    {
      ghost var start := fptr;
      PatchFits(w);
      CopyIn(s, w);
      Advance(w);
      AdvancedInSector(start, |w|);
    }

    /** Whole sectors written directly become bytes of the file. */
    method WriteWhole(s: nat, w: seq<byte>) returns (ok: bool, n: nat)
      requires Storage() && Content() && AtSector(fptr / 512) && s == secs[fptr / 512] && !dirty
      requires fptr % 512 == 0 && 512 <= |w| && fptr + |w| <= 0xFFFF_FFFF
      modifies this`dirty, this`data, this`fptr, this`objsize, this`bytes, buf, vol`disk, vol`rest, vol`writeCount
      ensures vol.Valid() && 0 < n <= |w| && (!ok ==> Blame(vol, DiskErr))
      ensures ok ==> Valid() && Wrote(w[..n])
    {
      var q := fptr / 512;
      var cc := RunLength(q, |w|);
      n := 512 * cc;
      assert fptr == 512 * q;
      ghost var before := data;
      ok := WriteDirect(s, q, cc, w[..n]);
      if ok {
        RunBytes(bytes, before, q, cc, w[..n]);
        Advance(w[..n]);
        AdvancedRun(q, cc);
      }
    }

    /** A pass of f_write on a sector boundary that writes whole sectors. */
    method WriteSectors(w: seq<byte>) returns (res: FResult, full: bool, n: nat)
      requires Valid() && fptr % 512 == 0 && 512 <= |w| && fptr + |w| <= 0xFFFF_FFFF
      modifies this`clust, this`dirty, this`chain, this`secs, this`data, this`sclust, this`fptr, this`objsize
      modifies this`bytes, buf
      modifies vol`disk, vol`rest, vol`wflag, vol`winsect, vol`readCount, vol`writeCount, vol`sectors, vol`image
      modifies vol`fat, vol`freeClst, vol`lastClst, vol.win
      ensures vol.Valid()
      ensures old(NoRoom(vol)) ==> NoRoom(vol)
      ensures full ==> res == Ok && Valid() && n == 0 && bytes == old(bytes) && fptr == old(fptr) && NoRoom(vol)
      ensures res == Ok && !full ==> Valid() && 0 < n <= |w| && Wrote(w[..n])
      ensures res == Ok || Blame(vol, res)
    {
      n := 0;
      var s;
      res, full, s := LocateWrite();
      if res == Ok && !full {
        var ok;
        ok, n := WriteWhole(s, w);
        res := if ok then Ok else DiskErr;
      }
    }

    /** A pass of f_write on a sector boundary, up to a partial copy. */
    method EnterSector() returns (res: FResult, full: bool, s: int)
      requires Valid() && fptr % 512 == 0
      modifies this`clust, this`dirty, this`chain, this`secs, this`data, this`sclust, this`sect, this`held, buf
      modifies vol`disk, vol`rest, vol`wflag, vol`winsect, vol`readCount, vol`writeCount, vol`sectors, vol`image
      modifies vol`fat, vol`freeClst, vol`lastClst, vol.win
      ensures vol.Valid()
      ensures old(NoRoom(vol)) ==> NoRoom(vol)
      ensures full ==> res == Ok && Valid() && NoRoom(vol)
      ensures res == Ok && !full ==>
                && Storage() && Content() && AtSector(fptr / 512) && 0 < s == secs[fptr / 512]
                && (held == fptr / 512 || (!dirty && fptr == objsize && fptr % 512 == 0))
      ensures res == Ok || Blame(vol, res)
    {
      res, full, s := LocateWrite();
      if res == Ok && !full {
        var ok := true;
        if sect != s && fptr < objsize {
          ok := LoadBuf(s, fptr / 512);
        } else {
          SameSectorHeld(fptr / 512);
        }
        res := if ok then Ok else DiskErr;
      }
    }

    lemma SameSectorHeld(q: nat)
      requires Storage() && q < |secs|
      ensures sect == secs[q] ==> held == q
    {
      assert Unlock(0);
      SectorFacts(secs, vol.database, |vol.disk|, vol.winsect, q, q);
      if held >= 0 {
        SectorFacts(secs, vol.database, |vol.disk|, vol.winsect, held, q);
      }
    }

    /** A pass of f_write that writes less than a sector. */
    method WriteSmall(w: seq<byte>) returns (res: FResult, full: bool, n: nat)
      requires Valid() && 0 < |w| && (fptr % 512 == 0 ==> |w| < 512) && fptr + |w| <= 0xFFFF_FFFF
      modifies this`clust, this`dirty, this`chain, this`secs, this`data, this`sclust, this`sect, this`held, this`fptr
      modifies this`objsize, this`bytes, buf
      modifies vol`disk, vol`rest, vol`wflag, vol`winsect, vol`readCount, vol`writeCount, vol`sectors, vol`image
      modifies vol`fat, vol`freeClst, vol`lastClst, vol.win
      ensures vol.Valid()
      ensures old(NoRoom(vol)) ==> NoRoom(vol)
      ensures full ==> res == Ok && Valid() && n == 0 && bytes == old(bytes) && fptr == old(fptr) && NoRoom(vol)
      ensures res == Ok && !full ==> Valid() && 0 < n <= |w| && Wrote(w[..n])
      ensures res == Ok || Blame(vol, res)
    {
      res, full, n := Ok, false, 0;
      var s := sect;
      if fptr % 512 == 0 {
        res, full, s := EnterSector();
      } else {
        ReadyInsideSector();
      }
      if res == Ok && !full {
        n := if 512 - fptr % 512 > |w| then |w| else 512 - fptr % 512;
        WritePartial(s, w[..n]);
      }
    }

    /** One pass of the loop of f_write. */
    method WriteStep(w: seq<byte>) returns (res: FResult, full: bool, n: nat)
      requires Valid() && 0 < |w| && fptr + |w| <= 0xFFFF_FFFF
      modifies this`clust, this`dirty, this`chain, this`secs, this`data, this`sclust, this`sect, this`held, this`fptr
      modifies this`objsize, this`bytes, buf
      modifies vol`disk, vol`rest, vol`wflag, vol`winsect, vol`readCount, vol`writeCount, vol`sectors, vol`image
      modifies vol`fat, vol`freeClst, vol`lastClst, vol.win
      ensures vol.Valid()
      ensures old(NoRoom(vol)) ==> NoRoom(vol)
      ensures res == Ok ==> Valid() && n <= |w| && Wrote(w[..n]) && (n == 0 <==> full)
      ensures res == Ok || Blame(vol, res)
      ensures full ==> NoRoom(vol)
    {
      if fptr % 512 == 0 && |w| / 512 > 0 {
        res, full, n := WriteSectors(w);
      } else {
        res, full, n := WriteSmall(w);
      }
      NothingWritten(old(bytes), old(fptr), w);
    }

    lemma NothingWritten(bytes: seq<byte>, p: nat, w: seq<byte>)
      requires p <= |bytes|
      ensures w[..0] == [] && Overwrite(bytes, p, w[..0]) == bytes
    {
    }

    /** Bytes f_write will try to write: the size of a file on a FAT volume cannot reach 4 GiB. */
    function WriteClip(btw: nat): (n: nat)
      requires fptr <= 0xFFFF_FFFF && btw <= 0xFFFF_FFFF
      reads this`fptr
      ensures n == if fptr + btw <= 0xFFFF_FFFF then btw else 0xFFFF_FFFF - fptr
    {
      if (fptr + btw) % 0x1_0000_0000 < fptr % 0x1_0000_0000 then 0xFFFF_FFFF - fptr else btw
    }

    /** The loop of f_write; it stops early only when no free cluster is known. */
    method WriteLoop(w: seq<byte>) returns (res: FResult, bw: nat)
      requires Valid() && fptr + |w| <= 0xFFFF_FFFF
      modifies this`clust, this`dirty, this`chain, this`secs, this`data, this`sclust, this`sect, this`held, this`fptr
      modifies this`objsize, this`bytes, buf
      modifies vol`disk, vol`rest, vol`wflag, vol`winsect, vol`readCount, vol`writeCount, vol`sectors, vol`image
      modifies vol`fat, vol`freeClst, vol`lastClst, vol.win
      ensures vol.Valid()
      ensures old(NoRoom(vol)) ==> NoRoom(vol)
      ensures res == Ok ==> Valid() && bw <= |w| && Wrote(w[..bw])
      ensures res == Ok || Blame(vol, res)
      ensures res == Ok && bw < |w| ==> NoRoom(vol)
    {
      res, bw := Ok, 0;
      var full := false;
      assert bytes == Overwrite(bytes, fptr, w[..0]);
      while bw < |w| && !full && res == Ok
        invariant vol.Valid() && bw <= |w|
        invariant old(NoRoom(vol)) ==> NoRoom(vol)
        invariant res == Ok ==> Valid() && Wrote(w[..bw])
        invariant res == Ok || Blame(vol, res)
        invariant full ==> NoRoom(vol)
        decreases |w| - bw, !full, res == Ok
      {
        var n;
        res, full, n := WriteStep(w[bw..]);
        if res == Ok {
          OverwriteMore(old(bytes), old(fptr), w, bw, n);
          bw := bw + n;
        }
      }
    }

    /** f_write: the bytes go where the file pointer is; fewer are written only on a full volume or at 4 GiB. */
    method FWrite(buff: seq<byte>) returns (res: FResult, denied: bool, bw: nat)
      requires vol.Valid() && (err == Ok ==> Valid()) && |buff| <= 0xFFFF_FFFF
      modifies this, buf
      modifies vol`disk, vol`rest, vol`wflag, vol`winsect, vol`readCount, vol`writeCount, vol`sectors, vol`image
      modifies vol`fat, vol`freeClst, vol`lastClst, vol.win
      ensures vol.Valid() && (err == Ok ==> Valid())
      ensures old(Full(vol.fat) || vol.freeClst == 0) ==> Full(vol.fat) || vol.freeClst == 0
      ensures old(err) != Ok ==> res == old(err)
      ensures res == err && (denied <==> old(err) == Ok && !canWrite)
      ensures denied ==> fptr == old(fptr) && bytes == old(bytes)
      ensures res == Ok && !denied ==> bw <= |buff| && Wrote(buff[..bw])
      ensures old(err) == Ok && res != Ok ==> (res == DiskErr && vol.Failed()) || (res == IntErr && BadEntry(vol.fat))
      ensures res == Ok && !denied && bw < |buff| && fptr < 0xFFFF_FFFF ==> Full(vol.fat) || vol.freeClst == 0
    {
      assert Why(0);
      res, denied, bw := err, false, 0;
      if err == Ok {
        if canWrite {
          var btw := WriteClip(|buff|);
          res, bw := WriteLoop(buff[..btw]);
          assert bw <= btw ==> buff[..btw][..bw] == buff[..bw];
          err := res;
        } else {
          denied := true;
        }
      }
    }

    // ----- f_lseek, normal seek

    /** The file pointer is at the start of cluster `ci` of the file. */
    ghost predicate AtCluster(ci: nat)
      reads this`fptr, this`chain, this`clust
    {
      ci < |chain| && clust == chain[ci] && fptr == 512 * (vol.csize * ci)
    }

    /** The size follows the file pointer; the bytes in between are what the clusters hold. */
    method RaiseSize()
      requires |bytes| == objsize <= 0xFFFF_FFFF && BytesOk(bytes, data) && fptr <= 512 * |data| && fptr <= 0xFFFF_FFFF
      modifies this`objsize, this`bytes
      ensures Content() && old(bytes) <= bytes
      ensures objsize == if fptr > old(objsize) then fptr else old(objsize)
    {
      if fptr > objsize {
        GrownBytesOk(bytes, data, fptr);
        bytes := GrownBytes(bytes, data, fptr);
        objsize := fptr;
      }
    }

    lemma ClusterEnd(ci: nat)
      requires Storage() && ci < |chain|
      ensures 512 * (vol.csize * ci) + 512 * vol.csize == 512 * (vol.csize * (ci + 1)) <= 512 * |data|
      ensures 512 * (vol.csize * (ci + 1)) < 512 * |data| ==> ci + 1 < |chain|
      ensures chain[ci] >= 2
    {
      assert Unlock(0);
      ChainMembers(vol.fat, chain, ci);
      MulMono(ci + 1, |chain|, vol.csize);
      assert vol.csize * (ci + 1) == vol.csize * ci + vol.csize;
      if ci + 1 >= |chain| {
        MulMono(|chain|, ci + 1, vol.csize);
      }
    }

    /** The writing half of a pass: the size follows the file pointer, and the chain is followed or stretched. */
    method GrowOver(ghost ci: nat) returns (clst: nat)
      requires Storage() && |bytes| == objsize <= 0xFFFF_FFFF && BytesOk(bytes, data) && fptr <= 512 * |data|
      requires fptr <= 0xFFFF_FFFF
      requires ci < |chain| && clust == chain[ci] && clust >= 2 && (fptr < 512 * |data| ==> ci + 1 < |chain|)
      modifies this`objsize, this`bytes, this`chain, this`secs, this`data, this`sclust
      modifies vol`disk, vol`wflag, vol`winsect, vol`readCount, vol`writeCount, vol`sectors, vol`image, vol`fat
      modifies vol`freeClst, vol`lastClst, vol.win
      ensures vol.Valid()
      ensures old(NoRoom(vol)) ==> NoRoom(vol)
      ensures clst != DISK_ERROR ==> Storage() && Content() && old(bytes) <= bytes
      ensures objsize == if fptr > old(objsize) then fptr else old(objsize)
      ensures clst == 0 ==> NoRoom(vol) && chain == old(chain) && fptr >= old(objsize)
      ensures (clst == 1 ==> Blame(vol, IntErr)) && (clst == DISK_ERROR ==> Blame(vol, DiskErr))
      ensures clst > 1 && clst != DISK_ERROR ==> ci + 1 < |chain| && clst == chain[ci + 1] && InRange(vol.fat, clst)
    {
      RaiseSize();
      clst := ExtendFile(clust, ci);
    }

    /** Extend, which does not change the file so far. */
    method ExtendFile(c: nat, ghost i: int) returns (clst: nat)
      requires Storage() && Content()
      requires if c == 0 then chain == [] && i == -1 else 0 <= i < |chain| && c == chain[i]
      modifies this`chain, this`secs, this`data, this`sclust
      modifies vol`disk, vol`wflag, vol`winsect, vol`readCount, vol`writeCount, vol`sectors, vol`image, vol`fat
      modifies vol`freeClst, vol`lastClst, vol.win
      ensures vol.Valid()
      ensures old(NoRoom(vol)) ==> NoRoom(vol)
      ensures clst != DISK_ERROR ==> Storage() && Content()
      ensures clst == 0 ==> NoRoom(vol) && chain == old(chain)
      ensures i + 1 < |old(chain)| ==> clst > 1
      ensures (clst == 1 ==> Blame(vol, IntErr)) && (clst == DISK_ERROR ==> Blame(vol, DiskErr))
      ensures clst > 1 && clst != DISK_ERROR ==>
                && i + 1 < |chain| && clst == chain[i + 1] && InRange(vol.fat, clst)
                && chain == if i + 1 < |old(chain)| then old(chain) else old(chain) + [clst]
    {
      clst := Extend(c, i);
      if clst != DISK_ERROR {
        BytesKeptByGrowth(bytes, old(data), data);
      }
    }

    /** The cluster behind the current one: allocated if need be, or only looked up. */
    method NextCluster(ghost ci: nat) returns (clst: nat)
      requires Storage() && |bytes| == objsize <= 0xFFFF_FFFF && BytesOk(bytes, data) && fptr <= 512 * |data|
      requires fptr <= 0xFFFF_FFFF && (fptr < objsize || canWrite)
      requires ci < |chain| && clust == chain[ci] && clust >= 2 && (fptr < 512 * |data| ==> ci + 1 < |chain|)
      modifies this`objsize, this`bytes, this`chain, this`secs, this`data, this`sclust
      modifies vol`disk, vol`wflag, vol`winsect, vol`readCount, vol`writeCount, vol`sectors, vol`image, vol`fat
      modifies vol`freeClst, vol`lastClst, vol.win
      ensures vol.Valid()
      ensures old(NoRoom(vol)) ==> NoRoom(vol)
      ensures clst != DISK_ERROR ==> Storage() && Content() && old(bytes) <= bytes
      ensures objsize == if fptr > old(objsize) then fptr else old(objsize)
      ensures clst == 0 ==> canWrite && NoRoom(vol) && chain == old(chain) && fptr >= old(objsize)
      ensures (clst == 1 ==> Blame(vol, IntErr)) && (clst == DISK_ERROR ==> Blame(vol, DiskErr))
      ensures clst > 1 && clst != DISK_ERROR ==> ci + 1 < |chain| && clst == chain[ci + 1] && InRange(vol.fat, clst)
    {
      if canWrite {
        clst := GrowOver(ci);
      } else {
        clst := Successor(clust, ci);
      }
    }

    /** One pass of the cluster following loop of f_lseek. */
    method FollowStep(ghost ci: nat) returns (res: FResult, full: bool)
      requires Storage() && Content() && AtCluster(ci) && fptr + 512 * vol.csize <= 0xFFFF_FFFF
      requires fptr + 512 * vol.csize < objsize || canWrite
      modifies this`clust, this`fptr, this`objsize, this`bytes, this`chain, this`secs, this`data, this`sclust
      modifies vol`disk, vol`wflag, vol`winsect, vol`readCount, vol`writeCount, vol`sectors, vol`image, vol`fat
      modifies vol`freeClst, vol`lastClst, vol.win
      ensures vol.Valid()
      ensures old(NoRoom(vol)) ==> NoRoom(vol)
      ensures res == Ok ==> Storage() && Content() && old(bytes) <= bytes
      ensures res == Ok ==> fptr == old(fptr) + 512 * vol.csize == 512 * (vol.csize * (ci + 1))
      ensures res == Ok ==> objsize == if fptr > old(objsize) then fptr else old(objsize)
      ensures res == Ok ==> if full then ci < |chain| && clust == chain[ci] else AtCluster(ci + 1)
      ensures full ==> NoRoom(vol) && (res == Ok ==> fptr >= old(objsize))
      ensures res == Ok || Blame(vol, res)
    {
      res := Ok;
      ClusterEnd(ci);
      fptr := fptr + 512 * vol.csize;
      var clst := NextCluster(ci);
      full := canWrite && clst == 0;
      if !full {
        res := if clst == DISK_ERROR then DiskErr else if clst <= 1 || clst >= vol.nFatent then IntErr else Ok;
        clust := clst;
      }
    }

    /** The cluster following loop: go on until `ofs` bytes or less remain in the current cluster. */
    method FollowLoop(ofs: nat, ghost ci0: nat) returns (res: FResult, r: nat, ghost ci: nat)
      requires Storage() && Content() && AtCluster(ci0) && vol.csize > 0 && 0 < ofs && fptr + ofs <= 0xFFFF_FFFF
      requires fptr + ofs <= objsize || canWrite
      modifies this`clust, this`fptr, this`objsize, this`bytes, this`chain, this`secs, this`data, this`sclust
      modifies vol`disk, vol`wflag, vol`winsect, vol`readCount, vol`writeCount, vol`sectors, vol`image, vol`fat
      modifies vol`freeClst, vol`lastClst, vol.win
      ensures vol.Valid()
      ensures old(NoRoom(vol)) ==> NoRoom(vol)
      ensures res == Ok ==> Storage() && Content() && old(bytes) <= bytes && r <= 512 * vol.csize
      ensures res == Ok ==> objsize == if fptr > old(objsize) then fptr else old(objsize)
      ensures res == Ok ==> ci < |chain| && clust == chain[ci]
      ensures res == Ok && r > 0 ==> AtCluster(ci) && fptr + r == old(fptr) + ofs
      ensures res == Ok && r == 0 ==>
                && fptr == 512 * (vol.csize * ci) + 512 * vol.csize && old(objsize) <= fptr < old(fptr) + ofs
                && NoRoom(vol)
      ensures res == Ok || Blame(vol, res)
    {
      res, r, ci := Ok, ofs, ci0;
      var full := false;
      while r > 512 * vol.csize && !full && res == Ok
        invariant vol.Valid() && vol.csize > 0
        invariant old(NoRoom(vol)) ==> NoRoom(vol)
        invariant res == Ok ==> Storage() && Content() && old(bytes) <= bytes
        invariant res == Ok ==> objsize == (if fptr > old(objsize) then fptr else old(objsize))
        invariant res == Ok && !full ==> AtCluster(ci) && 0 < r && fptr + r == old(fptr) + ofs
        invariant res == Ok && full ==>
                    && ci < |chain| && clust == chain[ci] && r == 0
                    && fptr == 512 * (vol.csize * ci) + 512 * vol.csize && old(objsize) <= fptr < old(fptr) + ofs
                    && NoRoom(vol)
        invariant res == Ok || Blame(vol, res)
        decreases r, !full, res == Ok
      {
        res, full := FollowStep(ci);
        r := r - 512 * vol.csize;
        if full {
          r := 0;
        } else {
          ci := ci + 1;
        }
      }
    }

    lemma FirstMember()
      requires Storage()
      ensures (sclust == 0 <==> chain == []) && (chain != [] ==> chain[0] == sclust && sclust > 1)
      ensures sclust != DISK_ERROR
    {
      assert Unlock(0);
    }

    /** The seek of f_lseek from the first cluster, which is allocated if there is none. */
    method StartAtFirst() returns (res: FResult, found: bool)
      requires Storage() && Content() && fptr == 0 && vol.csize > 0
      modifies this`clust, this`chain, this`secs, this`data, this`sclust
      modifies vol`disk, vol`wflag, vol`winsect, vol`readCount, vol`writeCount, vol`sectors, vol`image, vol`fat
      modifies vol`freeClst, vol`lastClst, vol.win
      ensures vol.Valid()
      ensures old(NoRoom(vol)) ==> NoRoom(vol)
      ensures res == Ok ==> Storage() && Content()
      ensures res == Ok && found ==> AtCluster(0)
      ensures res == Ok && !found ==> chain == [] && NoRoom(vol)
      ensures res == Ok || Blame(vol, res)
    {
      var clst := FirstCluster();
      res := if clst == DISK_ERROR then DiskErr else if clst == 1 then IntErr else Ok;
      found := clst != 0;
      clust := clst;
    }

    /** The first cluster, allocated if there is none. */
    method FirstCluster() returns (clst: nat)
      requires Storage() && Content()
      modifies this`chain, this`secs, this`data, this`sclust
      modifies vol`disk, vol`wflag, vol`winsect, vol`readCount, vol`writeCount, vol`sectors, vol`image, vol`fat
      modifies vol`freeClst, vol`lastClst, vol.win
      ensures vol.Valid()
      ensures old(NoRoom(vol)) ==> NoRoom(vol)
      ensures clst != DISK_ERROR ==> Storage() && Content()
      ensures clst == 0 ==> NoRoom(vol) && chain == []
      ensures (clst == 1 ==> Blame(vol, IntErr)) && (clst == DISK_ERROR ==> Blame(vol, DiskErr))
      ensures clst > 1 && clst != DISK_ERROR ==> 0 < |chain| && clst == chain[0]
    {
      FirstMember();
      clst := sclust;
      if clst == 0 {
        clst := ExtendFile(0, -1);
      }
    }

    /** Is the target in the current cluster or behind it? */
    predicate Ahead(ofs: nat)
      requires vol.csize > 0 && ofs > 0
      reads this`fptr
    {
      fptr > 0 && (ofs - 1) / (512 * vol.csize) >= (fptr - 1) / (512 * vol.csize)
    }

    /** The start of the current cluster: the position of the last byte, rounded down to the cluster size. */
    function ClusterFloor(): int
      requires vol.csize > 0 && fptr > 0
      reads this`fptr
    {
      fptr - 1 - (fptr - 1) % (512 * vol.csize)
    }

    lemma AheadFacts(ofs: nat)
      requires vol.csize > 0 && ofs > 0 && Ahead(ofs)
      ensures ClusterFloor() == 512 * (vol.csize * Quot((fptr - 1) / 512, vol.csize)) < ofs
    {
      ClusterOfByte(fptr - 1, vol.csize);
      ClusterOfByte(ofs - 1, vol.csize);
      MulMono(Quot((fptr - 1) / 512, vol.csize), Quot((ofs - 1) / 512, vol.csize), vol.csize);
    }

    /** Where f_lseek starts: the current cluster if the target is not before it, else the first one. */
    method StartSeek(ofs: nat) returns (res: FResult, found: bool, ghost ci: nat)
      requires Valid() && vol.csize > 0 && 0 < ofs
      modifies this`clust, this`fptr, this`chain, this`secs, this`data, this`sclust
      modifies vol`disk, vol`wflag, vol`winsect, vol`readCount, vol`writeCount, vol`sectors, vol`image, vol`fat
      modifies vol`freeClst, vol`lastClst, vol.win
      ensures vol.Valid()
      ensures old(NoRoom(vol)) ==> NoRoom(vol)
      ensures res == Ok ==> Storage() && Content() && fptr < ofs
      ensures res == Ok && found ==> AtCluster(ci)
      ensures res == Ok && !found ==> chain == [] && fptr == 0 && NoRoom(vol)
      ensures res == Ok || Blame(vol, res)
    {
      res, found, ci := Ok, true, 0;
      if Ahead(ofs) {
        AheadFacts(ofs);
        ci := Quot((fptr - 1) / 512, vol.csize);
        fptr := ClusterFloor();
      } else {
        fptr := 0;
        res, found := StartAtFirst();
      }
    }

    /** f_lseek of a file that can be sought, to an offset of at most 4 GiB - 1. */
    method SeekTo(ofs: nat) returns (res: FResult)
      requires Valid() && ofs <= 0xFFFF_FFFF && (ofs <= objsize || canWrite)
      modifies this, buf
      modifies vol`disk, vol`rest, vol`wflag, vol`winsect, vol`readCount, vol`writeCount, vol`sectors, vol`image
      modifies vol`fat, vol`freeClst, vol`lastClst, vol.win
      ensures vol.Valid() && err == old(err)
      ensures old(NoRoom(vol)) ==> NoRoom(vol)
      ensures res == Ok ==> Valid() && old(bytes) <= bytes && fptr <= ofs
      ensures res == Ok ==> |bytes| == if fptr > |old(bytes)| then fptr else |old(bytes)|
      ensures res == Ok && fptr < ofs ==> ofs > |old(bytes)| && NoRoom(vol)
      ensures res == Ok && ofs > |old(bytes)| ==> fptr >= |old(bytes)|
      ensures res == Ok || Blame(vol, res)
    {
      res := Ok;
      assert vol.csize > 0 by { assert Unlock(0); }
      if ofs == 0 {
        fptr := 0;
        return;
      }
      var found;
      ghost var ci;
      res, found, ci := StartSeek(ofs);
      if res == Ok && found {
        res := FinishSeek(ofs - fptr, ci);
      } else if res == Ok {
        EmptyFile();
      }
    }

    lemma EmptyFile()
      requires Storage() && Content() && chain == []
      ensures objsize == 0
    {
      assert Unlock(0);
    }

    /** The rest of f_lseek: follow the chain, set the size, fill the cache. */
    method FinishSeek(ofs: nat, ghost ci0: nat) returns (res: FResult)
      requires Storage() && Content() && AtCluster(ci0) && vol.csize > 0 && 0 < ofs && fptr + ofs <= 0xFFFF_FFFF
      requires fptr + ofs <= objsize || canWrite
      modifies this, buf
      modifies vol`disk, vol`rest, vol`wflag, vol`winsect, vol`readCount, vol`writeCount, vol`sectors, vol`image
      modifies vol`fat, vol`freeClst, vol`lastClst, vol.win
      ensures vol.Valid() && err == old(err)
      ensures old(NoRoom(vol)) ==> NoRoom(vol)
      ensures res == Ok ==> Valid() && old(bytes) <= bytes && fptr <= old(fptr) + ofs
      ensures res == Ok ==> |bytes| == if fptr > |old(bytes)| then fptr else |old(bytes)|
      ensures res == Ok && fptr < old(fptr) + ofs ==>
                old(fptr) + ofs > |old(bytes)| && fptr >= |old(bytes)| && NoRoom(vol)
      ensures res == Ok || Blame(vol, res)
    {
      var r;
      ghost var ci;
      res, r, ci := FollowLoop(ofs, ci0);
      if res == Ok {
        if r == 0 {
          EndOfCluster(ci);
        } else {
          res := Land(r, ci);
        }
      }
    }

    /** A seek that stops on a full volume leaves the file pointer at the end of the last cluster. */
    lemma EndOfCluster(ci: nat)
      requires Storage() && Content() && vol.csize > 0 && ci < |chain| && clust == chain[ci]
      requires fptr == 512 * (vol.csize * ci) + 512 * vol.csize
      ensures Position()
    {
      SeekEnd(vol.csize, ci, 512 * (vol.csize * ci), 512 * vol.csize);
    }

    /** The end of f_lseek in the current cluster, `r` bytes from its start. */
    method Land(r: nat, ghost ci: nat) returns (res: FResult)
      requires Storage() && Content() && AtCluster(ci) && vol.csize > 0 && 0 < r <= 512 * vol.csize
      requires fptr + r <= 0xFFFF_FFFF
      modifies this`fptr, this`objsize, this`bytes, this`dirty, this`sect, this`held, buf, vol`disk, vol`rest
      modifies vol`readCount, vol`writeCount
      ensures vol.Valid() && (res == Ok || (res == DiskErr && Blame(vol, res)))
      ensures res == Ok ==> Valid() && old(bytes) <= bytes && fptr == old(fptr) + r
      ensures res == Ok ==> |bytes| == if fptr > |old(bytes)| then fptr else |old(bytes)|
    {
      LandFacts(ci, r);
      var nsect := 0;
      if r % 512 != 0 {
        nsect := Clst2Sect(clust);
        if nsect == 0 { return IntErr; }
        nsect := nsect + r / 512;
      }
      fptr := fptr + r;
      RaiseSize();
      res := Ok;
      if fptr % 512 != 0 {
        var ok := CacheSector(nsect, fptr / 512);
        res := if ok then Ok else DiskErr;
      }
    }

    /** The end of a seek lies in cluster `ci`, and so does its sector. */
    lemma LandFacts(ci: nat, r: nat)
      requires Storage() && AtCluster(ci) && vol.csize > 0 && 0 < r <= 512 * vol.csize
      ensures fptr + r <= 512 * |data|
      ensures Quot((fptr + r - 1) / 512, vol.csize) == ci
      ensures (fptr + r) % 512 == r % 512
      ensures r % 512 != 0 ==>
                && Clst2Sect(clust) > 0
                && (fptr + r) / 512 < |secs| && secs[(fptr + r) / 512] == Clst2Sect(clust) + r / 512
    {
      assert Unlock(0);
      ClusterEnd(ci);
      ChainMembers(vol.fat, chain, ci);
      SeekEnd(vol.csize, ci, fptr, r);
      StartBounds(vol.database, vol.csize, clust, 0, clust + 1);
      if r % 512 != 0 {
        SectorOf(vol.database, vol.csize, chain, ci, r / 512);
      }
    }

    /** f_lseek: to `ofs`, or to the end of the file when it cannot grow; in-range seeks change nothing else. */
    method FLseek(ofs0: nat) returns (res: FResult)
      requires vol.Valid() && (err == Ok ==> Valid())
      modifies this, buf
      modifies vol`disk, vol`rest, vol`wflag, vol`winsect, vol`readCount, vol`writeCount, vol`sectors, vol`image
      modifies vol`fat, vol`freeClst, vol`lastClst, vol.win
      ensures vol.Valid() && (err == Ok ==> Valid())
      ensures old(Full(vol.fat) || vol.freeClst == 0) ==> Full(vol.fat) || vol.freeClst == 0
      ensures old(err) != Ok ==> res == old(err)
      ensures res == err
      ensures res == Ok ==> fptr <= ofs0
      ensures res == Ok && ofs0 <= |old(bytes)| ==> fptr == ofs0 && bytes == old(bytes)
      ensures res == Ok && ofs0 > |old(bytes)| ==> fptr >= |old(bytes)|
      ensures res == Ok && ofs0 > |old(bytes)| && !canWrite ==> fptr == |old(bytes)| && bytes == old(bytes)
      ensures res == Ok ==> old(bytes) <= bytes && |bytes| == if fptr > |old(bytes)| then fptr else |old(bytes)|
      ensures old(err) == Ok && res != Ok ==> (res == DiskErr && vol.Failed()) || (res == IntErr && BadEntry(vol.fat))
      ensures res == Ok && canWrite && fptr < ofs0 && fptr < 0xFFFF_FFFF ==> Full(vol.fat) || vol.freeClst == 0
    {
      assert Why(0);
      res := err;
      if err == Ok {
        var ofs := if ofs0 >= 0x1_0000_0000 then 0xFFFF_FFFF else ofs0;
        if ofs > objsize && !canWrite {
          ofs := objsize;
        }
        res := SeekTo(ofs);
        err := res;
      }
    }
  }
}
