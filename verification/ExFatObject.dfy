/** An open object on an exFAT volume: the lazily written chain of one file, kept in place. */
module ExFatObject {
  import opened Bytes
  import opened FatCodec
  import opened FatTable
  import opened FatWindow
  import opened FileMap
  import opened ExFatBitmap
  import opened LazyChain

  const EOC: nat := 0x7FFF_FFFF

  lemma MaskId(v: nat)
    requires v < 0x8000_0000
    ensures Mask(ExFat, v) == v
  {
  }

  /** What create_chain returns for a failure. */
  function ErrorCode(res: FResult): nat {
    if res == DiskErr then DISK_ERROR else 1
  }

  class Object {
    const bm: Bitmap
    const vol: Volume
    var stat: nat
    var sclust: nat
    var objsize: nat
    var nCont: nat
    var nFrag: nat
    ghost var chain: seq<nat> // the clusters of the file

    constructor (b: Bitmap)
      requires b.Valid() && b.vol.fsType == ExFat && b.vol.nFatent > 2 && b.vol.links == {}
      ensures Valid() && bm == b && chain == []
    {
      bm, vol := b, b.vol;
      stat, sclust, objsize, nCont, nFrag := 0, 0, 0, 0, 0;
      chain := [];
    }

    function Status(): Obj
      reads this`stat, this`sclust, this`nCont, this`nFrag
    {
      Obj(stat, sclust, nCont, nFrag)
    }

    /** The clusters of `ch` are in use. */
    ghost predicate InUse(ch: seq<nat>, used: seq<bool>) {
      forall k: nat {:trigger At(k)} :: At(k) && k < |ch| ==> 2 <= ch[k] < |used| + 2 && used[ch[k] - 2]
    }

    lemma FreeNotInChain(c: nat)
      requires InUse(chain, bm.used) && 2 <= c < |bm.used| + 2 && !bm.used[c - 2]
      ensures c !in chain
    {
      forall k | 0 <= k < |chain|
        ensures chain[k] != c
      {
        assert At(k);
      }
    }

    lemma LastInUse()
      requires Ready() && chain != []
      ensures 2 <= chain[|chain| - 1] < vol.nFatent
    {
      assert At(|chain| - 1);
    }

    /** The volume is in order, and the clusters of the chain are in use. */
    ghost predicate Ready()
      reads this`chain, bm, vol, vol.win
    {
      && bm.vol == vol && bm.Valid() && vol.fsType == ExFat && vol.nFatent > 2 && vol.links == {}
      && InUse(chain, bm.used)
    }

    /** The size of the object covers exactly the clusters it has. */
    ghost predicate Covers()
      requires vol.csize > 0
      reads this`objsize, this`chain
    {
      if chain == [] then objsize == 0 else Spans(objsize, |chain|)
    }

    /** A file of `size` bytes needs exactly `count` clusters. */
    ghost predicate Spans(size: nat, count: nat)
      requires vol.csize > 0
    {
      0 < size <= 512 * 0x1_0000_0000 && Quot((size - 1) / 512, vol.csize) + 1 == count
    }

    ghost predicate Valid()
      reads this, bm, vol, vol.win
    {
      && Ready() && Covers()
      && if chain == [] then sclust == 0 && nFrag == 0 else sclust != 0 && Stands(vol.fat, Status(), chain)
    }

    /** get_fat on exFAT. */
    method GetFat(clst: nat) returns (val: nat)
      requires Valid() && chain != [] && 2 <= clst < vol.nFatent
      modifies vol`disk, vol`wflag, vol`winsect, vol`readCount, vol`writeCount, vol.win
      ensures Valid()
      ensures val == DISK_ERROR || val == Lookup(vol.fat, Status(), |chain|, clst)
      ensures val == DISK_ERROR ==> vol.Failed()
    {
      val := 1;
      if (objsize != 0 && sclust != 0) || stat == 0 {
        var cofs := (clst - sclust) % 0x1_0000_0000;
        var clen := Quot((objsize - 1) / 512 % 0x1_0000_0000, vol.csize);
        if stat == 2 && cofs <= clen {
          val := if cofs == clen then EOC else clst + 1;
        } else if stat == 3 && cofs < nCont {
          val := clst + 1;
        } else if stat != 2 {
          if nFrag != 0 {
            val := EOC;
          } else {
            val := vol.GetEntry(clst);
          }
        }
      }
    }

    /** put_fat for a link of the object. */
    method PutLink(c: nat, val: nat) returns (res: FResult)
      requires Ready() && 2 <= c < vol.nFatent
      modifies vol`disk, vol`wflag, vol`winsect, vol`readCount, vol`writeCount, vol`sectors, vol`image, vol`fat, vol.win
      ensures Ready() && (res == Ok || (res == DiskErr && vol.Failed()))
      ensures vol.fat == if res == Ok then old(vol.fat)[c := Mask(ExFat, val)] else old(vol.fat)[c := vol.fat[c]]
    {
      res := vol.PutFat(c, val);
    }

    /** fill_first_frag */
    method FillFirstFrag() returns (res: FResult)
      requires Ready() && (stat == 3 ==> sclust >= 2 && sclust + nCont <= vol.nFatent)
      modifies this`stat, vol`disk, vol`wflag, vol`winsect, vol`readCount, vol`writeCount, vol`sectors, vol`image
      modifies vol`fat, vol.win
      ensures Ready() && (res == Ok || (res == DiskErr && vol.Failed()))
      ensures res == Ok ==> vol.fat == FirstFilled(old(vol.fat), old(Status()))
      ensures res == Ok ==> stat == if old(stat) == 3 then 0 else old(stat)
    {
      res := Ok;
      if stat == 3 {
        var cl: nat, n: nat := sclust, nCont;
        while n != 0
          invariant res == Ok && Ready() && 2 <= cl && cl + n <= vol.nFatent && |vol.fat| == vol.nFatent
          invariant FillRun(vol.fat, cl, n) == FillRun(old(vol.fat), sclust, nCont)
          decreases n
        {
          MaskId(cl + 1);
          res := PutLink(cl, cl + 1);
          if res != Ok { return; }
          cl, n := cl + 1, n - 1;
        }
        stat := 0;
      }
    }

    /** fill_last_frag */
    method FillLastFrag(lcl: nat, term: nat) returns (res: FResult)
      requires Ready() && lcl < vol.nFatent && nFrag + 1 <= lcl && term <= 0xFFFF_FFFF
      modifies this`nFrag, vol`disk, vol`wflag, vol`winsect, vol`readCount, vol`writeCount, vol`sectors, vol`image
      modifies vol`fat, vol.win
      ensures Ready() && (res == Ok || (res == DiskErr && vol.Failed()))
      ensures res == Ok ==> nFrag == 0 && vol.fat == FillLast(old(vol.fat), lcl, old(nFrag), Mask(ExFat, term))
    {
      res := Ok;
      while nFrag > 0
        invariant res == Ok && Ready() && nFrag + 1 <= lcl && |vol.fat| == vol.nFatent
        invariant lcl < vol.nFatent
        invariant FillLast(vol.fat, lcl, nFrag, Mask(ExFat, term)) ==
                    FillLast(old(vol.fat), lcl, old(nFrag), Mask(ExFat, term))
        decreases nFrag
      {
        MaskId(lcl - nFrag + 2);
        res := PutLink(lcl - nFrag + 1, if nFrag > 1 then lcl - nFrag + 2 else term);
        if res != Ok { return; }
        nFrag := nFrag - 1;
      }
    }

    /** The chain status part of create_chain: the new cluster continues the last fragment or starts one. */
    method LinkNew(clst: nat, ncl: nat) returns (res: FResult)
      requires Ready() && chain != [] && clst == chain[|chain| - 1] && Stands(vol.fat, Status(), chain)
      requires 2 <= ncl < vol.nFatent
      modifies this`stat, this`nCont, this`nFrag, vol`disk, vol`wflag, vol`winsect, vol`readCount, vol`writeCount
      modifies vol`sectors, vol`image, vol`fat, vol.win
      ensures Ready() && (res == Ok || (res == DiskErr && vol.Failed()))
      ensures res == Ok ==>
                && Status() == Grown(old(Status()), clst, ncl)
                && vol.fat == GrownFat(old(vol.fat), old(Status()), clst, ncl)
    {
      res := Ok;
      StandsFits(vol.fat, Status(), chain);
      if stat == 2 && ncl != clst + 1 {
        nCont := clst - sclust;
        stat := 3;
      }
      if stat != 2 {
        if ncl == clst + 1 {
          nFrag := if nFrag != 0 then nFrag + 1 else 2;
        } else {
          if nFrag == 0 { nFrag := 1; }
          MaskId(ncl);
          res := FillLastFrag(clst, ncl);
          if res == Ok { nFrag := 1; }
        }
      }
    }

    /**
      create_chain on exFAT, behind member `k` of the chain: 0 no free cluster, 1 internal error, 0xFFFFFFFF disk error,
      else the cluster that follows it, a new one if it is the last.
      */
    method CreateChain(clst: nat, ghost k: nat) returns (ncl: nat)
      requires Valid()
      requires if chain == [] then clst == 0 else k < |chain| && clst == chain[k] && Known(Status(), |chain|, k)
      modifies this`stat, this`nCont, this`nFrag, bm`used, vol`freeClst, vol`lastClst
      modifies vol`disk, vol`rest, vol`wflag, vol`winsect, vol`readCount, vol`writeCount, vol`sectors, vol`image
      modifies vol`fat, vol.win
      ensures Ready()
      ensures ncl != 1 && (ncl == DISK_ERROR ==> vol.Failed())
      ensures k + 1 < |chain| ==>
                && Valid() && (ncl == chain[k + 1] || ncl == DISK_ERROR)
                && Status() == old(Status()) && vol.fat == old(vol.fat) && bm.used == old(bm.used)
      ensures ncl == 0 ==> Valid() && (bm.AllUsed() || vol.freeClst == 0)
      ensures ncl > 1 && ncl != DISK_ERROR && k + 1 >= |chain| ==>
                && 2 <= ncl < vol.nFatent && |old(bm.used)| == vol.nFatent - 2 && !old(bm.used)[ncl - 2]
                && bm.used[ncl - 2] && ncl !in chain
                && if clst == 0 then stat == 2 && nFrag == 0 && vol.fat == old(vol.fat) else
                     && Status() == Grown(old(Status()), clst, ncl)
                     && vol.fat == GrownFat(old(vol.fat), old(Status()), clst, ncl)
    {
      var scl := clst;
      if chain != [] {
        StandsFinds(vol.fat, Status(), chain, k);
      }
      if clst == 0 {
        scl := if vol.lastClst == 0 || vol.lastClst >= vol.nFatent then 1 else vol.lastClst;
      } else {
        var cs := GetFat(clst);
        if cs < 2 { return 1; }
        if cs == DISK_ERROR || cs < vol.nFatent { return cs; }
      }
      if vol.freeClst == 0 { return 0; }
      ncl := bm.FindFree(scl);
      if ncl == 0 || ncl == DISK_ERROR { return; }
      ncl := Allocate(clst, ncl);
    }

    /** The rest of create_chain once a free cluster is found. */
    method Allocate(clst: nat, ncl0: nat) returns (ncl: nat)
      requires Valid() && if chain == [] then clst == 0 else clst == chain[|chain| - 1]
      requires 2 <= ncl0 < vol.nFatent && !bm.used[ncl0 - 2]
      modifies this`stat, this`nCont, this`nFrag, bm`used, vol`freeClst, vol`lastClst
      modifies vol`disk, vol`rest, vol`wflag, vol`winsect, vol`readCount, vol`writeCount, vol`sectors, vol`image
      modifies vol`fat, vol.win
      ensures Ready()
      ensures ncl == ncl0 || (ncl == DISK_ERROR && vol.Failed())
      ensures ncl > 1 && ncl != DISK_ERROR ==> bm.used[ncl - 2] && ncl !in chain
      ensures ncl > 1 && ncl != DISK_ERROR ==>
                if clst == 0 then stat == 2 && nFrag == 0 && vol.fat == old(vol.fat) else
                  && Status() == Grown(old(Status()), clst, ncl)
                  && vol.fat == GrownFat(old(vol.fat), old(Status()), clst, ncl)
    {
      ncl := ncl0;
      FreeNotInChain(ncl);
      if chain != [] {
        LastInUse();
      }
      var res := bm.Change(ncl, true);
      if res != Ok { return ErrorCode(res); }
      if clst == 0 {
        stat := 2;
      } else {
        res := LinkNew(clst, ncl);
      }
      if res == Ok {
        CountTaken(ncl);
      } else {
        ncl := ErrorCode(res);
      }
    }

    /** The allocation counters after a cluster is taken. */
    method CountTaken(ncl: nat)
      requires Ready()
      modifies vol`freeClst, vol`lastClst
      ensures Ready() && vol.lastClst == ncl
      ensures vol.freeClst ==
              if 0 < old(vol.freeClst) <= vol.nFatent - 2 then old(vol.freeClst) - 1 else old(vol.freeClst)
    {
      vol.lastClst := ncl;
      if 0 < vol.freeClst <= vol.nFatent - 2 {
        vol.freeClst := vol.freeClst - 1;
      }
    }

    /**
      One cluster more for a file that fills all it has, as f_write asks for it at the end of the file:
      `clst` is the last cluster, `size` the size once data is in the new one.
      */
    method Append(clst: nat, size: nat) returns (ncl: nat)
      requires Valid() && if chain == [] then clst == 0 else clst == chain[|chain| - 1]
      requires Spans(size, |chain| + 1)
      modifies this`stat, this`nCont, this`nFrag, this`sclust, this`objsize, this`chain, bm`used, vol`freeClst
      modifies vol`lastClst
      modifies vol`disk, vol`rest, vol`wflag, vol`winsect, vol`readCount, vol`writeCount, vol`sectors, vol`image
      modifies vol`fat, vol.win
      ensures Ready() && ncl != 1 && (ncl == DISK_ERROR ==> vol.Failed())
      ensures ncl == 0 ==> Valid() && chain == old(chain) && (bm.AllUsed() || vol.freeClst == 0)
      ensures ncl > 1 && ncl != DISK_ERROR ==>
                && Valid() && chain == old(chain) + [ncl] && ncl !in old(chain)
                && 2 <= ncl < |old(bm.used)| + 2 && !old(bm.used)[ncl - 2]
                && SameElsewhere(old(vol.fat), vol.fat, old(chain))
    {
      ncl := CreateChain(clst, if chain == [] then 0 else |chain| - 1);
      if ncl > 1 && ncl != DISK_ERROR {
        if chain != [] {
          StandsGrows(old(vol.fat), old(Status()), chain, ncl);
        } else {
          NewStands(vol.fat, Status().(sclust := ncl), ncl);
        }
        Take(ncl, size);
      }
    }

    /** The caller's part of growing: remember the first cluster, and count the data in the new one. */
    method Take(ncl: nat, size: nat)
      requires Ready() && 2 <= ncl < vol.nFatent && bm.used[ncl - 2] && Spans(size, |chain| + 1)
      requires chain == [] <==> sclust == 0
      requires Stands(vol.fat, if sclust == 0 then Status().(sclust := ncl) else Status(), chain + [ncl])
      modifies this`sclust, this`objsize, this`chain
      ensures Valid() && chain == old(chain) + [ncl]
    {
      if sclust == 0 { sclust := ncl; }
      chain := chain + [ncl];
      objsize := size;
    }

    /** The chain part of f_sync: write both fragments; `clst` is the last cluster. */
    method Sync(clst: nat) returns (res: FResult)
      requires Valid() && chain != [] && clst == chain[|chain| - 1]
      modifies this`stat, this`nFrag
      modifies vol`disk, vol`wflag, vol`winsect, vol`readCount, vol`writeCount, vol`sectors, vol`image, vol`fat, vol.win
      ensures Ready() && chain == old(chain) && (res == Ok || (res == DiskErr && vol.Failed()))
      ensures res == Ok ==> Valid() && SameElsewhere(old(vol.fat), vol.fat, chain)
      ensures res == Ok ==> Written(vol.fat, stat, chain) && (stat == 2 <==> old(stat) == 2)
    {
      StandsFits(vol.fat, Status(), chain);
      StandsFlushed(vol.fat, Status(), chain, EOC);
      res := FillBoth(clst);
    }

    /** The fills of f_sync */
    method FillBoth(clst: nat) returns (res: FResult)
      requires Ready() && (stat == 3 ==> sclust >= 2 && sclust + nCont <= vol.nFatent)
      requires clst < vol.nFatent && nFrag + 1 <= clst
      modifies this`stat, this`nFrag
      modifies vol`disk, vol`wflag, vol`winsect, vol`readCount, vol`writeCount, vol`sectors, vol`image, vol`fat, vol.win
      ensures Ready() && (res == Ok || (res == DiskErr && vol.Failed()))
      ensures res == Ok ==> vol.fat == FlushedFat(old(vol.fat), old(Status()), clst, EOC)
      ensures res == Ok ==> Status() == Flushed(old(Status()))
    {
      res := FillFirstFrag();
      if res == Ok {
        res := FillLastFrag(clst, 0xFFFF_FFFF);
      }
    }
  }
}
