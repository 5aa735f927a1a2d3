/** The cluster allocator of a FAT12/16/32 volume: remove_chain, create_chain and the f_getfree scan. */
module FatAlloc {
  import opened Bytes
  import opened FatCodec
  import opened FatTable
  import opened FatWindow

  /** The end-of-chain mark as it is read back. */
  function Eoc(ty: FsType): nat {
    Mask(ty, 0xFFFF_FFFF)
  }

  /** A known free-cluster count is the number of zero entries from cluster 2 up. */
  ghost predicate FreeExact(v: Volume)
    reads v`freeClst, v`fat
  {
    v.freeClst + 2 <= |v.fat| ==> v.freeClst == FreeCount(v.fat)
  }

  /** The free-cluster count is a possible one, not the mark of an unknown one. */
  ghost predicate CountKnown(v: Volume)
    reads v`freeClst, v`fat
  {
    v.freeClst + 2 <= |v.fat|
  }

  /** Some cluster has the entry 1, which no chain contains. */
  ghost predicate BadEntry(fat: seq<nat>) {
    exists c :: 2 <= c < |fat| && fat[c] == 1
  }

  /** Used clusters other than `c` have kept their entries. */
  ghost predicate OthersKept(before: seq<nat>, now: seq<nat>, c: nat) {
    && |now| == |before|
    && forall d {:trigger now[d]} :: 2 <= d < |before| && d != c && before[d] != 0 ==> now[d] == before[d]
  }

  /** One pass of the loop of remove_chain: free a used cluster and count it. */
  method FreeCluster(v: Volume, clst: nat) returns (res: FResult)
    requires v.Valid() && InRange(v.fat, clst) && v.fat[clst] != 0 && clst !in v.links
    modifies v`disk, v`wflag, v`winsect, v`readCount, v`writeCount, v`sectors, v`image, v`fat, v`freeClst, v.win
    ensures v.WindowFrom(old(v.winsect))
    ensures v.Valid() && |v.disk| == |old(v.disk)|
    ensures res == Ok || res == DiskErr
    ensures res == Ok ==> v.fat == old(v.fat)[clst := 0] && FreeCount(v.fat) == old(FreeCount(v.fat)) + 1 <= |v.fat| - 2
    ensures res == Ok && old(FreeExact(v)) ==> FreeExact(v)
    ensures res == DiskErr ==> v.Failed()
    ensures if old(CountKnown(v)) then CountKnown(v) else v.freeClst == old(v.freeClst)
  {
    res := v.PutFat(clst, 0);
    if res == Ok {
      FreeMoves(old(v.fat), clst);
      if v.freeClst < v.nFatent - 2 {
        v.freeClst := v.freeClst + 1;
      }
    }
  }

  /** The loop of remove_chain. It ends for any contents of the FAT: every pass frees one more cluster. */
  method FreeFrom(v: Volume, clst0: nat) returns (res: FResult)
    requires v.Valid() && v.fsType != ExFat && InRange(v.fat, clst0) && v.links == {}
    modifies v`disk, v`wflag, v`winsect, v`readCount, v`writeCount, v`sectors, v`image, v`fat, v`freeClst, v.win
    ensures v.WindowFrom(old(v.winsect))
    ensures v.Valid() && |v.disk| == |old(v.disk)|
    ensures res == Ok ==> v.fat == Freed(old(v.fat), clst0)
    ensures res != DiskErr && old(FreeExact(v)) ==> FreeExact(v)
    ensures if old(CountKnown(v)) then CountKnown(v) else v.freeClst == old(v.freeClst)
    ensures res == DiskErr ==> v.Failed()
    ensures res == IntErr ==> BadEntry(old(v.fat))
  {
    var clst: nat := clst0;
    while clst < v.nFatent
      invariant v.WindowFrom(old(v.winsect))
      invariant v.Valid() && |v.disk| == |old(v.disk)| && 2 <= clst
      invariant Freed(v.fat, clst) == Freed(old(v.fat), clst0)
      invariant old(FreeExact(v)) ==> FreeExact(v)
      invariant if old(CountKnown(v)) then CountKnown(v) else v.freeClst == old(v.freeClst)
      invariant |v.fat| == |old(v.fat)| && forall c :: 2 <= c < |v.fat| && v.fat[c] == 1 ==> old(v.fat)[c] == 1
      decreases |v.fat| - FreeCount(v.fat)
    {
      var nxt := v.GetFat(clst);
      if nxt == 0 { break; }
      if nxt == 1 { return IntErr; }
      if nxt == DISK_ERROR { return DiskErr; }
      res := FreeCluster(v, clst);
      if res != Ok { return; }
      clst := nxt;
    }
    res := Ok;
  }

  /** The table remove_chain starts from: the previous cluster, if any, becomes the last of its chain. */
  function Unlinked(fat: seq<nat>, pclst: nat, eoc: nat): seq<nat> {
    if InRange(fat, pclst) then fat[pclst := eoc] else fat
  }

  /** remove_chain on FAT12/16/32. */
  method RemoveChain(v: Volume, clst: nat, pclst: nat) returns (res: FResult)
    requires v.Valid() && v.fsType != ExFat && v.links == {}
    modifies v`disk, v`wflag, v`winsect, v`readCount, v`writeCount, v`sectors, v`image, v`fat, v`freeClst, v.win
    ensures v.WindowFrom(old(v.winsect))
    ensures v.Valid() && |v.disk| == |old(v.disk)|
    ensures res == Ok ==> InRange(old(v.fat), clst) && (pclst != 0 ==> InRange(old(v.fat), pclst))
    ensures res == Ok ==> v.fat == Freed(Unlinked(old(v.fat), pclst, Eoc(v.fsType)), clst)
    ensures res != DiskErr && old(FreeExact(v)) && (InRange(old(v.fat), pclst) ==> old(v.fat)[pclst] != 0) ==>
              FreeExact(v)
    ensures if old(CountKnown(v)) then CountKnown(v) else v.freeClst == old(v.freeClst)
    ensures res == DiskErr ==> v.Failed()
    ensures !InRange(old(v.fat), clst) ==> res == IntErr && v.fat == old(v.fat) && v.freeClst == old(v.freeClst)
    ensures res == IntErr ==>
              !InRange(old(v.fat), clst) || (pclst != 0 && !InRange(old(v.fat), pclst)) || BadEntry(old(v.fat))
  {
    if clst < 2 || clst >= v.nFatent { return IntErr; }
    if pclst != 0 {
      res := v.PutFat(pclst, 0xFFFF_FFFF);
      if res != Ok { return; }
      FreeBelowUpdate(old(v.fat), |v.fat|, pclst, Eoc(v.fsType));
    }
    res := FreeFrom(v, clst);
  }

  /** No cluster from 2 up is free. */
  ghost predicate Full(fat: seq<nat>) {
    forall c :: 2 <= c < |fat| ==> fat[c] != 0
  }

  /** The wrap-around search of create_chain, which starts behind `scl` and ends at it. */
  method FindFree(v: Volume, scl: nat) returns (ncl: nat)
    requires v.Valid() && v.fsType != ExFat && 1 <= scl < v.nFatent
    modifies v`disk, v`wflag, v`winsect, v`readCount, v`writeCount, v.win
    ensures v.WindowFrom(old(v.winsect))
    ensures v.Valid() && |v.disk| == |old(v.disk)|
    ensures ncl == 0 ==> Full(v.fat)
    ensures ncl == 1 ==> BadEntry(v.fat)
    ensures ncl == DISK_ERROR ==> v.Failed()
    ensures ncl > 1 && ncl != DISK_ERROR ==> InRange(v.fat, ncl) && v.fat[ncl] == 0
  {
    ncl := scl;
    ghost var wrapped := false;
    while true
      invariant v.WindowFrom(old(v.winsect))
      invariant v.Valid() && |v.disk| == |old(v.disk)|
      invariant 1 <= ncl < v.nFatent && (wrapped ==> 2 <= ncl < scl) && (!wrapped ==> scl <= ncl)
      invariant forall c :: scl < c < v.nFatent && (wrapped || c <= ncl) ==> v.fat[c] != 0
      invariant wrapped ==> forall c :: 2 <= c <= ncl ==> v.fat[c] != 0
      decreases if wrapped then 0 else 1, v.nFatent - ncl
    {
      ncl := ncl + 1;
      if ncl >= v.nFatent {
        ncl := 2;
        if ncl > scl { return 0; }
        wrapped := true;
      }
      var cs := v.GetFat(ncl);
      if cs == 0 { return; }
      if cs == 1 || cs == DISK_ERROR { return cs; }
      if ncl == scl { return 0; }
    }
  }

  /** Where create_chain looks: the next cluster first, then from the last allocated one. */
  method ChooseFree(v: Volume, clst: nat) returns (ncl: nat)
    requires v.Valid() && v.fsType != ExFat && (clst == 0 || InRange(v.fat, clst))
    modifies v`disk, v`wflag, v`winsect, v`readCount, v`writeCount, v.win
    ensures v.WindowFrom(old(v.winsect))
    ensures v.Valid() && |v.disk| == |old(v.disk)|
    ensures ncl == 0 ==> Full(v.fat)
    ensures ncl == 1 ==> BadEntry(v.fat)
    ensures ncl == DISK_ERROR ==> v.Failed()
    ensures ncl > 1 && ncl != DISK_ERROR ==> InRange(v.fat, ncl) && v.fat[ncl] == 0
  {
    var scl := clst;
    if clst == 0 {
      scl := v.lastClst;
      if scl == 0 || scl >= v.nFatent { scl := 1; }
    } else {
      ncl := if scl + 1 >= v.nFatent then 2 else scl + 1;
      var cs := v.GetFat(ncl);
      if cs == 1 || cs == DISK_ERROR { return cs; }
      if cs == 0 { return; }
      if 2 <= v.lastClst < v.nFatent { scl := v.lastClst; }
    }
    ncl := FindFree(v, scl);
  }

  /** The table after cluster `ncl` is taken and, if `clst` is not 0, linked behind it. */
  function Taken(fat: seq<nat>, clst: nat, ncl: nat, eoc: nat): seq<nat>
    requires InRange(fat, ncl)
  {
    var fat' := fat[ncl := eoc];
    if InRange(fat, clst) then fat'[clst := ncl] else fat'
  }

  /** The FAT part of the end of create_chain: mark the new cluster and link it. */
  method LinkCluster(v: Volume, clst: nat, ncl: nat) returns (res: FResult)
    requires v.Valid() && InRange(v.fat, ncl) && v.fat[ncl] == 0
    requires clst == 0 || (InRange(v.fat, clst) && v.fat[clst] != 0 && clst !in v.links)
    modifies v`disk, v`wflag, v`winsect, v`readCount, v`writeCount, v`sectors, v`image, v`fat, v.win
    ensures v.WindowFrom(old(v.winsect))
    ensures res == Ok ==> v.winsect < v.database
    ensures v.Valid() && |v.disk| == |old(v.disk)|
    ensures res == Ok || res == DiskErr
    ensures res == Ok ==> v.fat == Taken(old(v.fat), clst, ncl, Eoc(v.fsType))
    ensures res == DiskErr ==> v.Failed()
    ensures OthersKept(old(v.fat), v.fat, clst)
  {
    v.FreeNotLinked();
    res := v.PutFat(ncl, 0xFFFF_FFFF);
    if res == Ok && clst != 0 {
      MaskSmall(v.fsType, ncl, v.nFatent);
      res := v.PutFat(clst, ncl);
    }
  }

  /** The end of create_chain: the new cluster is linked, remembered and counted. */
  method TakeCluster(v: Volume, clst: nat, ncl: nat) returns (res: FResult)
    requires v.Valid() && InRange(v.fat, ncl) && v.fat[ncl] == 0
    requires clst == 0 || (InRange(v.fat, clst) && v.fat[clst] != 0 && clst !in v.links)
    modifies v`disk, v`wflag, v`winsect, v`readCount, v`writeCount, v`sectors, v`image, v`fat, v`freeClst, v`lastClst
    modifies v.win
    ensures v.WindowFrom(old(v.winsect))
    ensures res == Ok ==> v.winsect < v.database
    ensures v.Valid() && |v.disk| == |old(v.disk)|
    ensures res == Ok || res == DiskErr
    ensures res == Ok ==> v.fat == Taken(old(v.fat), clst, ncl, Eoc(v.fsType)) && v.lastClst == ncl
    ensures res == Ok && old(FreeExact(v)) ==> FreeExact(v)
    ensures if old(CountKnown(v)) then CountKnown(v) else v.freeClst == old(v.freeClst)
    ensures res == DiskErr ==> v.Failed()
    ensures OthersKept(old(v.fat), v.fat, clst)
  {
    res := LinkCluster(v, clst, ncl);
    if res == Ok {
      TakenCount(old(v.fat), clst, ncl, Eoc(v.fsType));
      CountDown(v, ncl);
    }
  }

  /** The counters after cluster `ncl` is taken */
  method CountDown(v: Volume, ncl: nat)
    requires v.Valid()
    modifies v`lastClst, v`freeClst
    ensures v.Valid() && v.lastClst == ncl
    ensures v.freeClst == if 0 < old(v.freeClst) <= v.nFatent - 2 then old(v.freeClst) - 1 else old(v.freeClst)
  {
    v.lastClst := ncl;
    if 0 < v.freeClst <= v.nFatent - 2 {
      v.freeClst := v.freeClst - 1;
    }
  }

  lemma MaskSmall(ty: FsType, ncl: nat, n: nat)
    requires ncl < n <= 0x7FFF_FFFF
    requires (ty == Fat12 ==> n <= 0xFF7) && (ty == Fat16 ==> n <= 0xFFF7) && (ty == Fat32 ==> n <= 0xFFF_FFF7)
    ensures Mask(ty, ncl) == ncl
  {
  }

  lemma TakenCount(fat: seq<nat>, clst: nat, ncl: nat, eoc: nat)
    requires InRange(fat, ncl) && fat[ncl] == 0 && eoc != 0
    requires clst == 0 || (InRange(fat, clst) && fat[clst] != 0)
    ensures FreeCount(Taken(fat, clst, ncl, eoc)) == FreeCount(fat) - 1
  {
    FreeBelowUpdate(fat, |fat|, ncl, eoc);
    if InRange(fat, clst) {
      FreeBelowUpdate(fat[ncl := eoc], |fat|, clst, ncl);
    }
  }

  /** create_chain on FAT12/16/32: 0 no free cluster, 1 internal error, 0xFFFFFFFF disk error, else a cluster. */
  method CreateChain(v: Volume, clst: nat) returns (ncl: nat)
    requires v.Valid() && v.fsType != ExFat && clst !in v.links
    modifies v`disk, v`wflag, v`winsect, v`readCount, v`writeCount, v`sectors, v`image, v`fat, v`freeClst, v`lastClst
    modifies v.win
    ensures v.WindowFrom(old(v.winsect))
    ensures v.Valid() && |v.disk| == |old(v.disk)|
    ensures ncl > 1 && ncl != DISK_ERROR && clst != 0 ==> InRange(old(v.fat), clst) && old(v.fat)[clst] >= 2
    // the cluster is followed already: nothing changes
    ensures ncl > 1 && ncl != DISK_ERROR && clst != 0 && 2 <= old(v.fat)[clst] < v.nFatent ==>
              ncl == old(v.fat)[clst] && v.fat == old(v.fat)
    ensures InRange(old(v.fat), clst) && 2 <= old(v.fat)[clst] < v.nFatent ==> ncl > 1
    // a new cluster: it was free, it is the last one now, and only the given chain grows
    ensures ncl > 1 && ncl != DISK_ERROR && (clst == 0 || old(v.fat)[clst] >= v.nFatent) ==>
              InRange(v.fat, ncl) && old(v.fat)[ncl] == 0 && v.fat == Taken(old(v.fat), clst, ncl, Eoc(v.fsType))
              && v.winsect < v.database
    // refusals leave the table alone, and a full volume is reported only when it is full
    ensures ncl <= 1 ==> v.fat == old(v.fat)
    ensures ncl <= 1 ==> v.freeClst == old(v.freeClst)
    ensures ncl == 0 ==> Full(v.fat) || v.freeClst == 0
    ensures old(Full(v.fat) || v.freeClst == 0) ==> v.fat == old(v.fat) && v.freeClst == old(v.freeClst)
    ensures ncl == 0 && clst != 0 ==> InRange(v.fat, clst) && v.fat[clst] >= v.nFatent
    ensures ncl == 0 && old(FreeExact(v)) && |v.fat| > 2 ==> Full(v.fat)
    ensures ncl == 1 ==> BadEntry(v.fat) || (clst != 0 && (!InRange(v.fat, clst) || v.fat[clst] < 2))
    // a known count stays known and exact, an unknown one unknown
    ensures ncl != DISK_ERROR && old(FreeExact(v)) ==> FreeExact(v)
    ensures if old(CountKnown(v)) then CountKnown(v) else v.freeClst == old(v.freeClst)
    // whatever happens, the chains of others are not touched
    ensures OthersKept(old(v.fat), v.fat, clst)
    ensures ncl == DISK_ERROR ==> v.Failed()
  {
    if clst != 0 {
      var cs := v.GetFat(clst);
      if cs < 2 { return 1; }
      if cs == DISK_ERROR { return cs; }
      if cs < v.nFatent { return cs; }
    }
    if v.freeClst == 0 {
      FreeBelowBound(v.fat, |v.fat|);
      return 0;
    }
    ncl := ChooseFree(v, clst);
    if ncl > 1 && ncl != DISK_ERROR {
      var res := TakeCluster(v, clst, ncl);
      if res != Ok { ncl := DISK_ERROR; }
    }
  }

  predicate Why(i: int) { true }

  /** No free cluster is known; to be looked into only where Why(...) is asserted. */
  ghost predicate NoRoom(v: Volume)
    reads v`fat, v`freeClst
  {
    forall i {:trigger Why(i)} :: Why(i) ==> Full(v.fat) || v.freeClst == 0
  }

  /** What an error means: a call of the medium has failed, or some cluster has the entry 1. */
  ghost predicate Blame(v: Volume, res: FResult)
    reads v`fat, v`readCount, v`writeCount, v`readMark, v`writeMark
  {
    forall i {:trigger Why(i)} :: Why(i) ==> (res == DiskErr && v.Failed()) || (res == IntErr && BadEntry(v.fat))
  }

  // ----- the free-cluster scan of f_getfree

  /** Number of zero entries among the first `n`, the reserved entries 0 and 1 included. */
  function ZeroBelow(fat: seq<nat>, n: nat): nat
    requires n <= |fat|
  {
    if n == 0 then 0 else ZeroBelow(fat, n - 1) + if fat[n - 1] == 0 then 1 else 0
  }

  lemma {:induction false} ZeroBelowFreeBelow(fat: seq<nat>, n: nat)
    requires 2 <= n <= |fat|
    ensures ZeroBelow(fat, n) == FreeBelow(fat, n) + (if fat[0] == 0 then 1 else 0) + (if fat[1] == 0 then 1 else 0)
  {
    if n > 2 {
      ZeroBelowFreeBelow(fat, n - 1);
    } else {
      assert ZeroBelow(fat, 2) == ZeroBelow(fat, 1) + if fat[1] == 0 then 1 else 0;
      assert ZeroBelow(fat, 1) == ZeroBelow(fat, 0) + if fat[0] == 0 then 1 else 0;
    }
  }

  /** The FAT12 scan, entry by entry through get_fat. */
  method ScanFat12(v: Volume) returns (res: FResult, nfree: nat)
    requires v.Valid() && v.fsType == Fat12
    modifies v`disk, v`wflag, v`winsect, v`readCount, v`writeCount, v.win
    ensures v.Valid()
    ensures res == Ok ==> nfree == FreeCount(v.fat)
    ensures (res == DiskErr ==> v.Failed()) && (res == IntErr ==> BadEntry(v.fat) || v.nFatent == 2)
  {
    nfree := 0;
    var clst: nat := 2;
    while true
      invariant v.Valid() && 2 <= clst <= v.nFatent && nfree == FreeBelow(v.fat, clst)
      invariant clst < v.nFatent || v.nFatent == 2
      decreases v.nFatent - clst
    {
      var stat := v.GetFat(clst);
      if stat == DISK_ERROR { return DiskErr, nfree; }
      if stat == 1 { return IntErr, nfree; }
      if stat == 0 { nfree := nfree + 1; }
      clst := clst + 1;
      if clst >= v.nFatent { break; }
    }
    res := Ok;
  }

  /** Byte offset of entry `c` in the image of a FAT16 or FAT32 table. */
  function Offset(ty: FsType, c: nat): nat {
    if ty == Fat16 then 2 * c else 4 * c
  }

  /** One step of the FAT16/32 scan: load the next sector if needed, and look at the entry at offset `i`. */
  method ScanEntry(v: Volume, c: nat, i: nat, sect0: nat) returns (res: FResult, sect: nat, zero: bool)
    requires v.Valid() && (v.fsType == Fat16 || v.fsType == Fat32) && c < |v.fat|
    requires i == Offset(v.fsType, c) % 512 && sect0 == v.fatbase + SectorsBegun(Offset(v.fsType, c))
    requires i != 0 ==> v.winsect + 1 == sect0
    modifies v`disk, v`wflag, v`winsect, v`readCount, v`writeCount, v.win
    ensures v.Valid()
    ensures res == Ok ==> (zero <==> v.fat[c] == 0)
    ensures res == Ok ==> v.winsect + 1 == sect == v.fatbase + SectorsBegun(Offset(v.fsType, c + 1))
    ensures res == Ok || (res == DiskErr && v.Failed())
  {
    assert Open(0);
    res, sect, zero := Ok, sect0, false;
    NextEntry(v.fsType, c);
    if i == 0 {
      res := v.MoveWindow(sect);
      sect := sect + 1;
    }
    if res == Ok {
      zero := EntryIsZero(v, c);
    }
  }

  /** Is the entry `c`, whose sector is in the window, zero? */
  method EntryIsZero(v: Volume, c: nat) returns (zero: bool)
    requires v.Valid() && (v.fsType == Fat16 || v.fsType == Fat32) && c < |v.fat|
    requires v.winsect == v.fatbase + Offset(v.fsType, c) / 512
    ensures zero <==> v.fat[c] == 0
  {
    assert Open(0);
    assert v.fat[c] == Decode(v.fsType, v.image, c);
    var o := Offset(v.fsType, c);
    EntryAligned(v.fsType, c);
    if v.fsType == Fat16 {
      var lo := v.LoadByte(o);
      var hi := v.LoadByte(o + 1);
      zero := lo as int + 0x100 * (hi as int) == 0;
    } else {
      var d := v.LoadDword(o);
      zero := d % 0x1000_0000 == 0;
    }
  }

  /** The FAT16/32 scan, sector by sector; it also looks at the reserved entries 0 and 1. */
  method ScanFatWords(v: Volume) returns (res: FResult, nfree: nat)
    requires v.Valid() && (v.fsType == Fat16 || v.fsType == Fat32)
    modifies v`disk, v`wflag, v`winsect, v`readCount, v`writeCount, v.win
    ensures v.Valid()
    ensures res == Ok ==> nfree == ZeroBelow(v.fat, |v.fat|)
    ensures res == Ok || (res == DiskErr && v.Failed())
  {
    nfree := 0;
    var clst: nat, sect: nat, i: nat := v.nFatent, v.fatbase, 0;
    while clst != 0
      invariant v.Valid() && clst <= v.nFatent
      invariant nfree == ZeroBelow(v.fat, v.nFatent - clst)
      invariant sect == v.fatbase + SectorsBegun(Offset(v.fsType, v.nFatent - clst))
      invariant i == Offset(v.fsType, v.nFatent - clst) % 512
      invariant i != 0 ==> v.winsect + 1 == sect
      decreases clst
    {
      var c := v.nFatent - clst;
      NextEntry(v.fsType, c);
      var zero;
      res, sect, zero := ScanEntry(v, c, i, sect);
      if res != Ok { return; }
      if zero { nfree := nfree + 1; }
      i := (i + if v.fsType == Fat16 then 2 else 4) % 512;
      clst := clst - 1;
    }
    res := Ok;
  }

  /** Number of sectors that hold at least one of the first `o` bytes. */
  function SectorsBegun(o: nat): nat {
    (o + 511) / 512
  }

  lemma NextEntry(ty: FsType, c: nat)
    requires ty == Fat16 || ty == Fat32
    ensures var o, p := Offset(ty, c), Offset(ty, c + 1);
            && p % 512 == (o % 512 + if ty == Fat16 then 2 else 4) % 512
            && SectorsBegun(p) == o / 512 + 1
            && SectorsBegun(o) == o / 512 + if o % 512 == 0 then 0 else 1
  {
    var o, w := Offset(ty, c), if ty == Fat16 then 2 else 4;
    var q, r := o / 512, o % 512;
    EntryAligned(ty, c);
    assert o == 512 * q + r && o + w == 512 * q + (r + w) && r + w <= 512;
    PositionIn(q, r);
    PositionIn(q, r + w);
  }

  lemma EntryAligned(ty: FsType, c: nat)
    requires ty == Fat16 || ty == Fat32
    ensures Offset(ty, c) % 512 + (if ty == Fat16 then 2 else 4) <= 512
    ensures Offset(ty, c) % 2 == 0 && (ty == Fat32 ==> Offset(ty, c) % 4 == 0)
  {
    var o := Offset(ty, c);
    var q := o / 512;
    if ty == Fat16 {
      assert o % 512 == 2 * (c - 256 * q);
    } else {
      assert o % 512 == 4 * (c - 128 * q);
    }
  }

  lemma PositionIn(q: nat, r: nat)
    requires r <= 512
    ensures SectorsBegun(512 * q + r) == q + if r == 0 then 0 else 1
    ensures (512 * q + r) % 512 == r % 512
  {
    if r == 512 {
      assert 512 * q + r + 511 == 512 * (q + 1) + 511;
    }
  }

  /** f_getfree: the stored count if it is known, else the count found by a scan, which becomes the known one. */
  method GetFree(v: Volume) returns (res: FResult, nclst: nat)
    requires v.Valid() && v.fsType != ExFat
    modifies v`disk, v`wflag, v`winsect, v`readCount, v`writeCount, v`freeClst, v.win
    ensures v.Valid()
    ensures res == Ok ==> nclst == v.freeClst
    ensures (res == DiskErr ==> v.Failed()) && (res == IntErr ==> BadEntry(v.fat) || v.nFatent == 2)
    ensures old(v.freeClst) <= v.nFatent - 2 ==> res == Ok && v.freeClst == old(v.freeClst)
    ensures res != Ok ==> v.freeClst == old(v.freeClst)
    ensures res == Ok && old(v.freeClst) > v.nFatent - 2 ==>
              (nclst == FreeCount(v.fat) <==> v.fsType == Fat12 || (v.fat[0] != 0 && v.fat[1] != 0))
    ensures old(FreeExact(v)) && v.fat[0] != 0 && v.fat[1] != 0 ==> FreeExact(v)
  {
    if v.freeClst <= v.nFatent - 2 { return Ok, v.freeClst; }
    if v.fsType == Fat12 {
      res, nclst := ScanFat12(v);
    } else {
      res, nclst := ScanFatWords(v);
      ZeroBelowFreeBelow(v.fat, |v.fat|);
    }
    if res == Ok { v.freeClst := nclst; }
  }
}
