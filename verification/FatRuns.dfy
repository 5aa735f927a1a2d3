/** Whole runs of the allocator: files are created, stretched, cut and removed in any order. */
module FatRuns {
  import opened Bytes
  import opened FatCodec
  import opened FatTable
  import opened FatWindow
  import opened FatAlloc

  /** A request, with any cluster number. */
  datatype Request = Create | Stretch(c: nat) | Cut(c: nat) | Remove(c: nat)

  /** The chains start at the clusters the directories hold, one each. */
  ghost predicate Headed(chains: set<seq<nat>>, heads: set<nat>) {
    && (forall ch {:trigger ch in chains} :: ch in chains ==> ch != [] && ch[0] in heads)
    && (forall h {:trigger h in heads} :: h in heads ==> exists ch :: ch in chains && ch != [] && ch[0] == h)
  }

  /** The FAT is a set of disjoint chains that end, one for each file; seen only where Open(...) is asserted. */
  ghost predicate Tidy(fat: seq<nat>, chains: set<seq<nat>>, heads: set<nat>) {
    forall i {:trigger Open(i)} :: Open(i) ==> Partition(fat, chains) && Headed(chains, heads)
  }

  /** No entry is 1. */
  lemma NoBadEntry(fat: seq<nat>, chains: set<seq<nat>>, heads: set<nat>)
    requires Tidy(fat, chains, heads)
    ensures !BadEntry(fat)
  {
    assert Open(0);
    forall c: nat | InRange(fat, c)
      ensures fat[c] != 1
    {
      if fat[c] != 0 {
        var ch, i := Holder(fat, chains, c);
      }
    }
  }

  /** The chain of a used cluster, and its place there. */
  lemma Holder(fat: seq<nat>, chains: set<seq<nat>>, c: nat) returns (ch: seq<nat>, i: nat)
    requires Partition(fat, chains) && InRange(fat, c) && fat[c] != 0
    ensures ch in chains && IsChain(fat, ch) && i < |ch| && ch[i] == c && fat[c] >= 2
    ensures if i + 1 < |ch| then fat[c] == ch[i + 1] && InRange(fat, ch[i + 1]) else fat[c] >= |fat|
  {
    assert Covered(chains, c);
    ch :| ch in chains && c in ch;
    i :| i < |ch| && ch[i] == c;
    ChainMembers(fat, ch, i);
    if i + 1 < |ch| {
      ChainMembers(fat, ch, i + 1);
    }
  }

  lemma HeadsGrow(chains: set<seq<nat>>, heads: set<nat>, ncl: nat)
    requires Headed(chains, heads)
    ensures Headed(chains + {[ncl]}, heads + {ncl})
  {
    assert [ncl][0] == ncl;
    forall h | h in heads
      ensures exists ch :: ch in chains + {[ncl]} && ch != [] && ch[0] == h
    {
      var ch :| ch in chains && ch != [] && ch[0] == h;
      assert ch in chains + {[ncl]};
    }
  }

  /** A chain that becomes longer or shorter keeps its start. */
  lemma HeadsStay(chains: set<seq<nat>>, heads: set<nat>, ch: seq<nat>, now: seq<nat>)
    requires Headed(chains, heads) && ch in chains && now != [] && now[0] == ch[0]
    ensures Headed(chains - {ch} + {now}, heads)
  {
    var chains' := chains - {ch} + {now};
    forall h | h in heads
      ensures exists a :: a in chains' && a != [] && a[0] == h
    {
      var a :| a in chains && a != [] && a[0] == h;
      if a == ch {
        assert now in chains';
      } else {
        assert a in chains';
      }
    }
  }

  lemma HeadsShrink(fat: seq<nat>, chains: set<seq<nat>>, heads: set<nat>, ch: seq<nat>)
    requires Headed(chains, heads) && ch in chains && Partition(fat, chains)
    ensures Headed(chains - {ch}, heads - {ch[0]})
  {
    forall a | a in chains - {ch}
      ensures a[0] in heads - {ch[0]}
    {
      assert Disjoint(a, ch) && a[0] in a && ch[0] in ch;
    }
    forall h | h in heads - {ch[0]}
      ensures exists a :: a in chains - {ch} && a != [] && a[0] == h
    {
      var a :| a in chains && a != [] && a[0] == h;
      assert a in chains - {ch};
    }
  }

  // ----- what the four requests do to the chains

  lemma FileCreated(fat: seq<nat>, chains: set<seq<nat>>, heads: set<nat>, ncl: nat, eoc: nat)
    requires Tidy(fat, chains, heads) && InRange(fat, ncl) && fat[ncl] == 0 && eoc >= |fat|
    ensures Tidy(fat[ncl := eoc], chains + {[ncl]}, heads + {ncl})
  {
    assert Open(0);
    PartitionNew(fat, chains, ncl, eoc);
    HeadsGrow(chains, heads, ncl);
  }

  /** The chain that ended at `c` has one cluster more. */
  ghost predicate OneLonger(before: set<seq<nat>>, now: set<seq<nat>>, c: nat, ncl: nat) {
    exists ch {:trigger ch in before} ::
      ch in before && ch != [] && ch[|ch| - 1] == c && now == before - {ch} + {ch + [ncl]}
  }

  lemma FileStretched(fat: seq<nat>, chains: set<seq<nat>>, heads: set<nat>, c: nat, ncl: nat, eoc: nat)
    returns (now: set<seq<nat>>)
    requires Tidy(fat, chains, heads) && InRange(fat, c) && fat[c] >= |fat|
    requires InRange(fat, ncl) && fat[ncl] == 0 && eoc >= |fat|
    ensures Tidy(fat[ncl := eoc][c := ncl], now, heads) && OneLonger(chains, now, c, ncl)
  {
    assert Open(0);
    var ch, i := Holder(fat, chains, c);
    PartitionExtend(fat, chains, ch, ncl, eoc);
    HeadsStay(chains, heads, ch, ch + [ncl]);
    now := chains - {ch} + {ch + [ncl]};
  }

  /** One chain has lost what follows cluster `c` in it. */
  ghost predicate OneCut(before: set<seq<nat>>, now: set<seq<nat>>, c: nat) {
    exists ch, k: nat {:trigger ch[..k]} ::
      ch in before && 0 < k < |ch| && ch[k - 1] == c && now == before - {ch} + {ch[..k]}
  }

  lemma FileCut(fat: seq<nat>, chains: set<seq<nat>>, heads: set<nat>, c: nat, eoc: nat) returns (now: set<seq<nat>>)
    requires Tidy(fat, chains, heads) && eoc >= |fat|
    requires InRange(fat, c) && InRange(fat, fat[c])
    ensures Tidy(Freed(fat[c := eoc], fat[c]), now, heads) && OneCut(chains, now, c)
  {
    assert Open(0);
    var ch, i := Holder(fat, chains, c);
    PartitionTruncate(fat, chains, ch, i + 1, eoc);
    HeadsStay(chains, heads, ch, ch[..i + 1]);
    now := chains - {ch} + {ch[..i + 1]};
  }

  /** The chain that started at `c` is gone. */
  ghost predicate OneGone(before: set<seq<nat>>, now: set<seq<nat>>, c: nat) {
    exists ch {:trigger ch in before} :: ch in before && ch != [] && ch[0] == c && now == before - {ch}
  }

  lemma FileRemoved(fat: seq<nat>, chains: set<seq<nat>>, heads: set<nat>, c: nat) returns (now: set<seq<nat>>)
    requires Tidy(fat, chains, heads) && c in heads
    ensures Tidy(Freed(fat, c), now, heads - {c}) && OneGone(chains, now, c)
  {
    assert Open(0);
    var ch :| ch in chains && ch != [] && ch[0] == c;
    PartitionRemove(fat, chains, ch);
    HeadsShrink(fat, chains, heads, ch);
    now := chains - {ch};
  }

  lemma HeadInRange(fat: seq<nat>, chains: set<seq<nat>>, heads: set<nat>, c: nat)
    requires Tidy(fat, chains, heads) && c in heads
    ensures InRange(fat, c)
  {
    assert Open(0);
  }

  class Allocator {
    const v: Volume
    var heads: set<nat>             // first clusters, as the directories hold them
    ghost var chains: set<seq<nat>>

    /** The FAT is a set of disjoint chains that end, one for each file, and a known free count is exact. */
    ghost predicate Valid()
      reads this, v, v.win
    {
      v.Valid() && v.fsType != ExFat && v.links == {} && Tidy(v.fat, chains, heads) && FreeExact(v)
    }

    constructor (vol: Volume, starts: set<nat>, ghost chs: set<seq<nat>>)
      requires vol.Valid() && vol.fsType != ExFat && vol.links == {}
      requires Partition(vol.fat, chs) && Headed(chs, starts) && FreeExact(vol)
      ensures Valid() && v == vol && heads == starts && chains == chs
    {
      v, heads, chains := vol, starts, chs;
    }

    /** create_chain for a new file. */
    method CreateFile() returns (ncl: nat)
      requires Valid()
      modifies this, v`disk, v`wflag, v`winsect, v`readCount, v`writeCount, v`sectors, v`image, v`fat
      modifies v`freeClst, v`lastClst, v.win
      ensures v.Valid()
      ensures ncl != DISK_ERROR ==> Valid() && ncl != 1
      ensures ncl == 0 ==> chains == old(chains) && heads == old(heads) && (v.nFatent > 2 ==> Full(v.fat))
      ensures ncl > 1 && ncl != DISK_ERROR ==> InRange(old(v.fat), ncl) && old(v.fat)[ncl] == 0
      ensures ncl > 1 && ncl != DISK_ERROR ==> chains == old(chains) + {[ncl]} && heads == old(heads) + {ncl}
      ensures old(CountKnown(v)) ==> CountKnown(v)
      ensures ncl == DISK_ERROR ==> v.Failed()
    {
      NoBadEntry(v.fat, chains, heads);
      ncl := CreateChain(v, 0);
      if ncl > 1 && ncl != DISK_ERROR {
        FileCreated(old(v.fat), chains, heads, ncl, Eoc(v.fsType));
        chains, heads := chains + {[ncl]}, heads + {ncl};
      }
    }

    /** create_chain behind any cluster number: refused, answered by the successor, or one chain grows at its end. */
    method StretchAt(c: nat) returns (ncl: nat)
      requires Valid() && c != 0
      modifies this`chains, v`disk, v`wflag, v`winsect, v`readCount, v`writeCount, v`sectors, v`image, v`fat
      modifies v`freeClst, v`lastClst, v.win
      ensures v.Valid()
      ensures ncl != DISK_ERROR ==> Valid() && heads == old(heads)
      ensures ncl == 1 <==> !(InRange(old(v.fat), c) && old(v.fat)[c] != 0) && ncl != DISK_ERROR
      ensures ncl <= 1 ==> chains == old(chains)
      ensures ncl == 0 ==> Full(v.fat) && InRange(v.fat, c) && v.fat[c] >= v.nFatent
      ensures ncl > 1 && ncl != DISK_ERROR ==>
                if old(v.fat)[c] < v.nFatent then ncl == old(v.fat)[c] && chains == old(chains)
                else OneLonger(old(chains), chains, c, ncl)
      ensures old(CountKnown(v)) ==> CountKnown(v)
      ensures ncl == DISK_ERROR ==> v.Failed()
    {
      ncl := Behind(c);
      if ncl > 1 && ncl != DISK_ERROR && old(v.fat)[c] >= v.nFatent {
        chains := FileStretched(old(v.fat), chains, heads, c, ncl, Eoc(v.fsType));
      }
    }

    /** What create_chain makes of a table without bad entries */
    method Behind(c: nat) returns (ncl: nat)
      requires Valid() && c != 0
      modifies v`disk, v`wflag, v`winsect, v`readCount, v`writeCount, v`sectors, v`image, v`fat
      modifies v`freeClst, v`lastClst, v.win
      ensures v.Valid() && (ncl != DISK_ERROR ==> FreeExact(v))
      ensures ncl == 1 <==> !(InRange(old(v.fat), c) && old(v.fat)[c] != 0) && ncl != DISK_ERROR
      ensures ncl <= 1 ==> v.fat == old(v.fat)
      ensures ncl == 0 ==> Full(v.fat) && InRange(v.fat, c) && v.fat[c] >= v.nFatent
      ensures ncl > 1 && ncl != DISK_ERROR ==>
                if old(v.fat)[c] < v.nFatent then ncl == old(v.fat)[c] && v.fat == old(v.fat)
                else InRange(v.fat, ncl) && old(v.fat)[ncl] == 0 && v.fat == old(v.fat)[ncl := Eoc(v.fsType)][c := ncl]
      ensures old(CountKnown(v)) ==> CountKnown(v)
      ensures ncl == DISK_ERROR ==> v.Failed()
    {
      NoBadEntry(v.fat, chains, heads);
      ncl := CreateChain(v, c);
    }

    /** remove_chain of a whole file. */
    method RemoveFile(c: nat) returns (res: FResult)
      requires Valid() && c in heads
      modifies this, v`disk, v`wflag, v`winsect, v`readCount, v`writeCount, v`sectors, v`image, v`fat
      modifies v`freeClst, v`lastClst, v.win
      ensures v.Valid()
      ensures res == Ok || res == DiskErr
      ensures res == Ok ==> Valid() && heads == old(heads) - {c} && OneGone(old(chains), chains, c)
      ensures old(CountKnown(v)) ==> CountKnown(v)
      ensures res == DiskErr ==> v.Failed()
    {
      NoBadEntry(v.fat, chains, heads);
      HeadInRange(v.fat, chains, heads, c);
      res := RemoveChain(v, c, 0);
      if res == Ok {
        chains := FileRemoved(old(v.fat), chains, heads, c);
        heads := heads - {c};
      }
    }

    /** f_truncate behind any cluster: what follows it in its chain, if anything, is removed. */
    method CutAfter(c: nat) returns (res: FResult)
      requires Valid()
      modifies this`chains, v`disk, v`wflag, v`winsect, v`readCount, v`writeCount, v`sectors, v`image, v`fat
      modifies v`freeClst, v`lastClst, v.win
      ensures v.Valid()
      ensures res != DiskErr ==> Valid() && heads == old(heads)
      ensures res == IntErr ==> chains == old(chains) && !(InRange(old(v.fat), c) && old(v.fat)[c] != 0)
      ensures res == Ok ==> InRange(old(v.fat), c)
      ensures res == Ok ==>
                if InRange(v.fat, old(v.fat)[c]) then OneCut(old(chains), chains, c) else chains == old(chains)
      ensures old(CountKnown(v)) ==> CountKnown(v)
      ensures res == DiskErr ==> v.Failed()
    {
      NoBadEntry(v.fat, chains, heads);
      var ncl := v.GetFat(c);
      res := if ncl == DISK_ERROR then DiskErr else if ncl == 1 then IntErr else Ok;
      if res == Ok && ncl < v.nFatent {
        res := DropFrom(c, ncl);
      }
    }

    /** remove_chain of what follows cluster `c` */
    method DropFrom(c: nat, ncl: nat) returns (res: FResult)
      requires Valid() && InRange(v.fat, c) && ncl == v.fat[c] < v.nFatent
      modifies this`chains, v`disk, v`wflag, v`winsect, v`readCount, v`writeCount, v`sectors, v`image, v`fat
      modifies v`freeClst, v`lastClst, v.win
      ensures v.Valid()
      ensures res != DiskErr ==> Valid()
      ensures res == IntErr ==> chains == old(chains) && ncl == 0
      ensures res == Ok ==> InRange(v.fat, ncl) && OneCut(old(chains), chains, c)
      ensures old(CountKnown(v)) ==> CountKnown(v)
      ensures res == DiskErr ==> v.Failed()
    {
      NoBadEntry(v.fat, chains, heads);
      res := RemoveChain(v, ncl, c);
      if res == Ok {
        chains := FileCut(old(v.fat), chains, heads, c, Eoc(v.fsType));
      }
    }

    /** One request; removing is done only for a file the directories hold. */
    method Serve(r: Request) returns (res: FResult)
      requires Valid()
      modifies this, v, v.win
      ensures res != DiskErr ==> Valid()
      ensures res == Ok && (r.Stretch? || r.Cut?) ==> heads == old(heads)
      ensures res == Ok && r.Remove? ==> heads == old(heads) - {r.c}
      ensures res == Ok && r.Create? ==>
                || (heads == old(heads) && (v.nFatent > 2 ==> Full(v.fat)))
                || exists c {:trigger c in heads} :: heads == old(heads) + {c} && [c] in chains
      ensures old(CountKnown(v)) ==> CountKnown(v)
      ensures old(v.readCount) <= v.readCount && old(v.writeCount) <= v.writeCount
      ensures res == DiskErr ==> v.FailedSince(old(v.readCount), old(v.writeCount))
    {
      v.Mark();
      res := Ok;
      match r {
        case Create =>
          var ncl := CreateFile();
          res := if ncl == DISK_ERROR then DiskErr else Ok;
        case Stretch(c) =>
          if c != 0 {
            var ncl := StretchAt(c);
            res := if ncl == DISK_ERROR then DiskErr else Ok;
          }
        case Cut(c) =>
          res := CutAfter(c);
        case Remove(c) =>
          if c in heads {
            res := RemoveFile(c);
          }
      }
      v.MarkedBefore();
    }

    /**
     * Over every run, up to a failed call of the medium, the FAT stays a set of disjoint chains that end, one for each
     * file, and the free count, once known, stays known and exact.
     */
    method Run(requests: seq<Request>) returns (res: FResult)
      requires Valid()
      modifies this, v, v.win
      ensures res != DiskErr ==> Valid() && Partition(v.fat, chains) && Headed(chains, heads)
      ensures res == DiskErr ==> v.FailedSince(old(v.readCount), old(v.writeCount))
      ensures old(CountKnown(v)) ==> CountKnown(v)
      ensures res != DiskErr && old(CountKnown(v)) ==> v.freeClst == FreeCount(v.fat)
    {
      res := Ok;
      var i := 0;
      while i < |requests| && res != DiskErr
        invariant res != DiskErr ==> Valid()
        invariant old(v.readCount) <= v.readCount && old(v.writeCount) <= v.writeCount
        invariant res == DiskErr ==> v.FailedSince(old(v.readCount), old(v.writeCount))
        invariant old(CountKnown(v)) ==> CountKnown(v)
        decreases |requests| - i
      {
        res := Serve(requests[i]);
        i := i + 1;
      }
      assert Open(0);
    }
  }
}
