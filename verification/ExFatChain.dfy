/**
  exFAT chains that are only partly on the FAT: a contiguous file has no entries at all, the first
  fragment of a file fragmented in this session is written late, and so is its last fragment.
  */
module LazyChain {
  import opened Bytes
  import opened FatTable

  /** The chain status of an object: `stat`, `sclust`, `n_cont` and `n_frag`. */
  datatype Obj = Obj(stat: nat, sclust: nat, nCont: nat, nFrag: nat)

  function Max(a: nat, b: nat): nat {
    if a > b then a else b
  }

  ghost predicate Distinct(chain: seq<nat>) {
    forall i, j {:trigger At(i), At(j)} :: At(i) && At(j) && 0 <= i < j < |chain| ==> chain[i] != chain[j]
  }

  lemma DistinctExtend(chain: seq<nat>, ncl: nat)
    requires Distinct(chain) && ncl !in chain
    ensures Distinct(chain + [ncl])
  {
  }

  lemma DistinctTail(chain: seq<nat>, lo: nat, k: nat)
    requires Distinct(chain) && k < lo <= |chain|
    ensures chain[k] !in chain[lo..]
  {
    forall j | lo <= j < |chain|
      ensures chain[j] != chain[k]
    {
      assert At(k) && At(j);
    }
  }

  ghost predicate AllIn(fat: seq<nat>, chain: seq<nat>) {
    forall k {:trigger chain[k]} :: 0 <= k < |chain| ==> 2 <= chain[k] < |fat|
  }

  /** Member `k` is linked to its successor on the FAT. */
  ghost predicate Link(fat: seq<nat>, chain: seq<nat>, k: int) {
    0 <= k && k + 1 < |chain| && chain[k] < |fat| && fat[chain[k]] == chain[k + 1]
  }

  ghost predicate Linked(fat: seq<nat>, chain: seq<nat>, lo: nat, hi: int) {
    forall k {:trigger Link(fat, chain, k)} :: lo <= k < hi ==> Link(fat, chain, k)
  }

  /** Members `lo .. hi-1` have consecutive numbers. */
  ghost predicate Contiguous(chain: seq<nat>, lo: nat, hi: nat) {
    forall k {:trigger chain[k]} :: lo <= k < hi && k < |chain| && lo < |chain| ==> chain[k] == chain[lo] + (k - lo)
  }

  ghost predicate LastIsEnd(fat: seq<nat>, chain: seq<nat>)
    requires chain != [] && AllIn(fat, chain)
  {
    fat[chain[|chain| - 1]] >= |fat|
  }

  /** First member whose link is on the FAT or pending in the last fragment. */
  function FirstLinked(o: Obj): nat {
    if o.stat == 3 then o.nCont else 0
  }

  /** The object and the FAT together stand for the cluster chain `chain`. */
  ghost predicate Lazy(fat: seq<nat>, o: Obj, chain: seq<nat>) {
    && chain != [] && chain[0] == o.sclust && Distinct(chain)
    && AllIn(fat, chain)
    && (o.stat == 0 || o.stat == 2 || o.stat == 3)
    && if o.stat == 2 then o.nFrag == 0 && Contiguous(chain, 0, |chain|) else
         && FirstLinked(o) + Max(o.nFrag, 1) <= |chain|
         && Contiguous(chain, 0, FirstLinked(o) + 1)
         && Linked(fat, chain, FirstLinked(o), |chain| - Max(o.nFrag, 1))
         && Contiguous(chain, |chain| - o.nFrag, |chain|)
         && (o.nFrag == 0 ==> LastIsEnd(fat, chain))
  }

  /** Lazy, for callers that need not see what it consists of. */
  ghost predicate Stands(fat: seq<nat>, o: Obj, chain: seq<nat>) {
    forall i {:trigger Unlock(i)} :: Unlock(i) ==> Lazy(fat, o, chain)
  }

  /** The FAT after `fill_first_frag` has written `n` links from cluster `cl` on. */
  function FillRun(fat: seq<nat>, cl: nat, n: nat): (r: seq<nat>)
    ensures |r| == |fat|
    decreases n
  {
    if n == 0 || cl >= |fat| then fat else FillRun(fat[cl := cl + 1], cl + 1, n - 1)
  }

  /** The FAT after `fill_last_frag` has written the last `m` links up to cluster `lcl`. */
  function FillLast(fat: seq<nat>, lcl: nat, m: nat, term: nat): (r: seq<nat>)
    ensures |r| == |fat|
    decreases m
  {
    if m == 0 || m > lcl + 1 || lcl >= |fat| then fat
    else FillLast(fat[lcl - m + 1 := if m > 1 then lcl - m + 2 else term], lcl, m - 1, term)
  }

  lemma {:induction false} FillRunAt(fat: seq<nat>, cl: nat, n: nat, c: nat)
    requires cl + n <= |fat| && c < |fat|
    ensures FillRun(fat, cl, n)[c] == if cl <= c < cl + n then c + 1 else fat[c]
    decreases n
  {
    if n > 0 {
      FillRunAt(fat[cl := cl + 1], cl + 1, n - 1, c);
    }
  }

  lemma {:induction false} FillLastAt(fat: seq<nat>, lcl: nat, m: nat, term: nat, c: nat)
    requires m <= lcl + 1 && lcl < |fat| && c < |fat|
    ensures FillLast(fat, lcl, m, term)[c] ==
            if m == 0 || c > lcl || c + m <= lcl then fat[c] else if c == lcl then term else c + 1
    decreases m
  {
    if m > 0 {
      FillLastAt(fat[lcl - m + 1 := if m > 1 then lcl - m + 2 else term], lcl, m - 1, term, c);
    }
  }

  /** The chain status after create_chain has found the free cluster `ncl` for the last cluster `last`. */
  function Grown(o: Obj, last: nat, ncl: nat): Obj {
    var o1 := if o.stat == 2 && ncl != last + 1 && last >= o.sclust then o.(nCont := last - o.sclust, stat := 3) else o;
    if o1.stat == 2 then o1
    else if ncl == last + 1 then o1.(nFrag := if o1.nFrag != 0 then o1.nFrag + 1 else 2)
    else o1.(nFrag := 1)
  }

  /** The FAT after the same call: a fragment that ends is written and linked to the new cluster. */
  function GrownFat(fat: seq<nat>, o: Obj, last: nat, ncl: nat): seq<nat> {
    if ncl == last + 1 then fat else FillLast(fat, last, Max(o.nFrag, 1), ncl)
  }

  /** Outside the chain the FAT is the same. */
  ghost predicate SameElsewhere(fat: seq<nat>, fat': seq<nat>, chain: seq<nat>) {
    && |fat'| == |fat|
    && forall c: nat :: c < |fat| && c !in chain ==> fat'[c] == fat[c]
  }

  /** The members of a run of consecutive clusters are all the numbers in between. */
  lemma RunMembers(chain: seq<nat>, lo: nat)
    requires lo < |chain| && Contiguous(chain, lo, |chain|)
    ensures forall c: nat {:trigger c in chain[lo..]} :: chain[lo] <= c <= chain[|chain| - 1] ==> c in chain[lo..]
  {
    forall c: nat | chain[lo] <= c <= chain[|chain| - 1]
      ensures c in chain[lo..]
    {
      assert chain[lo..][c - chain[lo]] == chain[lo + (c - chain[lo])] == c;
    }
  }

  /** What writing the last `m` links of a chain does, entry by entry. */
  lemma LastFragment(fat: seq<nat>, chain: seq<nat>, m: nat, term: nat)
    requires chain != [] && Distinct(chain) && 0 < m <= |chain| && Contiguous(chain, |chain| - m, |chain|)
    requires AllIn(fat, chain)
    ensures var fat' := FillLast(fat, chain[|chain| - 1], m, term);
            && SameElsewhere(fat, fat', chain) && AllIn(fat', chain)
            && forall k {:trigger chain[k]} :: 0 <= k < |chain| ==>
                 fat'[chain[k]] ==
                 if k < |chain| - m then fat[chain[k]] else if k == |chain| - 1 then term else chain[k + 1]
  {
    var lcl, lo := chain[|chain| - 1], |chain| - m;
    assert lcl == chain[lo] + (m - 1);
    RunMembers(chain, lo);
    forall c: nat | c < |fat| && c !in chain
      ensures FillLast(fat, lcl, m, term)[c] == fat[c]
    {
      assert c !in chain[lo..];
      FillLastAt(fat, lcl, m, term, c);
    }
    forall k {:trigger chain[k]} | 0 <= k < |chain|
      ensures FillLast(fat, lcl, m, term)[chain[k]] ==
              if k < lo then fat[chain[k]] else if k == |chain| - 1 then term else chain[k + 1]
    {
      if k < lo {
        DistinctTail(chain, lo, k);
      }
      FillLastAt(fat, lcl, m, term, chain[k]);
    }
  }

  /** create_chain at the last cluster keeps the object and the FAT standing for the longer chain. */
  lemma GrowKeepsLazy(fat: seq<nat>, o: Obj, chain: seq<nat>, ncl: nat)
    requires Lazy(fat, o, chain) && InRange(fat, ncl) && ncl !in chain
    ensures Lazy(GrownFat(fat, o, chain[|chain| - 1], ncl), Grown(o, chain[|chain| - 1], ncl), chain + [ncl])
    ensures SameElsewhere(fat, GrownFat(fat, o, chain[|chain| - 1], ncl), chain)
  {
    if ncl == chain[|chain| - 1] + 1 {
      if o.stat != 2 {
        GrowFragment(fat, o, chain, ncl);
      }
    } else {
      NewFragment(fat, o, chain, ncl);
    }
  }

  lemma GrowFragment(fat: seq<nat>, o: Obj, chain: seq<nat>, ncl: nat)
    requires Lazy(fat, o, chain) && InRange(fat, ncl) && ncl !in chain
    requires o.stat != 2 && ncl == chain[|chain| - 1] + 1
    ensures Lazy(fat, Grown(o, chain[|chain| - 1], ncl), chain + [ncl])
  {
    var o' := Grown(o, chain[|chain| - 1], ncl);
    var longer := chain + [ncl];
    forall k | FirstLinked(o') <= k < |longer| - o'.nFrag
      ensures Link(fat, longer, k)
    {
      assert Link(fat, chain, k);
    }
    DistinctExtend(chain, ncl);
    ContiguousExtend(chain, |chain| - Max(o.nFrag, 1), ncl);
    assert Contiguous(longer, 0, FirstLinked(o') + 1);
  }

  /** A run of clusters goes on with the next number. */
  lemma ContiguousExtend(chain: seq<nat>, lo: nat, ncl: nat)
    requires lo < |chain| && Contiguous(chain, lo, |chain|) && ncl == chain[|chain| - 1] + 1
    ensures Contiguous(chain + [ncl], lo, |chain| + 1)
  {
    assert chain[|chain| - 1] == chain[lo] + (|chain| - 1 - lo);
  }

  lemma NewFragment(fat: seq<nat>, o: Obj, chain: seq<nat>, ncl: nat)
    requires Lazy(fat, o, chain) && InRange(fat, ncl) && ncl !in chain
    requires ncl != chain[|chain| - 1] + 1
    ensures Lazy(GrownFat(fat, o, chain[|chain| - 1], ncl), Grown(o, chain[|chain| - 1], ncl), chain + [ncl])
    ensures SameElsewhere(fat, GrownFat(fat, o, chain[|chain| - 1], ncl), chain)
  {
    var o', longer := Grown(o, chain[|chain| - 1], ncl), chain + [ncl];
    FragmentedStatus(fat, o, chain, ncl);
    NewLinks(fat, o, chain, ncl, FirstLinked(o'));
    DistinctExtend(chain, ncl);
    assert Contiguous(longer, 0, FirstLinked(o') + 1);
  }

  /** The links that are on the FAT once the last fragment is written and linked to the new cluster. */
  lemma NewLinks(fat: seq<nat>, o: Obj, chain: seq<nat>, ncl: nat, first: nat)
    requires Lazy(fat, o, chain) && InRange(fat, ncl) && ncl != chain[|chain| - 1] + 1
    requires first < |chain| && (o.stat == 2 ==> first + 1 == |chain|) && (o.stat != 2 ==> first == FirstLinked(o))
    ensures var fat', longer := GrownFat(fat, o, chain[|chain| - 1], ncl), chain + [ncl];
            SameElsewhere(fat, fat', chain) && AllIn(fat', longer) && Linked(fat', longer, first, |longer| - 1)
  {
    var m := Max(o.nFrag, 1);
    LastFragment(fat, chain, m, ncl);
    var fat', longer := GrownFat(fat, o, chain[|chain| - 1], ncl), chain + [ncl];
    forall k | first <= k < |longer| - 1
      ensures Link(fat', longer, k)
    {
      assert k < |chain| - m ==> Link(fat, chain, k);
      assert longer[k] == chain[k];
    }
  }

  lemma FragmentedStatus(fat: seq<nat>, o: Obj, chain: seq<nat>, ncl: nat)
    requires Lazy(fat, o, chain) && ncl != chain[|chain| - 1] + 1
    ensures var o' := Grown(o, chain[|chain| - 1], ncl);
            && o'.sclust == o.sclust && o'.nFrag == 1 && o'.stat == (if o.stat == 0 then 0 else 3)
            && (o.stat == 2 ==> o'.nCont == |chain| - 1) && (o.stat == 3 ==> o'.nCont == o.nCont)
            && FirstLinked(o') < |chain| && Contiguous(chain, 0, FirstLinked(o') + 1)
  {
    if o.stat == 2 {
      assert chain[|chain| - 1] == chain[0] + (|chain| - 1);
    }
  }

  // ----- writing the rest of the chain

  /** The status after fill_first_frag and fill_last_frag. */
  function Flushed(o: Obj): Obj {
    o.(stat := if o.stat == 3 then 0 else o.stat, nFrag := 0)
  }

  /** The FAT after fill_first_frag. */
  function FirstFilled(fat: seq<nat>, o: Obj): seq<nat> {
    if o.stat == 3 then FillRun(fat, o.sclust, o.nCont) else fat
  }

  /** The FAT after fill_first_frag and fill_last_frag. */
  function FlushedFat(fat: seq<nat>, o: Obj, last: nat, eoc: nat): seq<nat> {
    FillLast(FirstFilled(fat, o), last, o.nFrag, eoc)
  }

  /** fill_first_frag makes the whole chain, up to the last fragment, one on the FAT. */
  lemma FirstFragment(fat: seq<nat>, o: Obj, chain: seq<nat>)
    requires Lazy(fat, o, chain) && o.stat == 3
    ensures Lazy(FirstFilled(fat, o), o.(stat := 0), chain)
    ensures SameElsewhere(fat, FirstFilled(fat, o), chain)
  {
    var fat', n := FirstFilled(fat, o), o.nCont;
    assert chain[n] == o.sclust + n;
    forall c: nat | c < |fat|
      ensures fat'[c] == if o.sclust <= c < o.sclust + n then c + 1 else fat[c]
    {
      FillRunAt(fat, o.sclust, n, c);
    }
    forall c: nat | o.sclust <= c < o.sclust + n
      ensures c in chain
    {
      assert chain[c - o.sclust] == c;
    }
    forall k | 0 <= k < |chain| - Max(o.nFrag, 1)
      ensures Link(fat', chain, k)
    {
      if k < n {
        assert chain[k] == o.sclust + k && chain[k + 1] == o.sclust + (k + 1);
      } else {
        assert Link(fat, chain, k);
        OutsideRun(chain, n, k);
      }
    }
    OutsideRun(chain, n, |chain| - 1);
  }

  /** Only the members before `n` have numbers in the run of the first fragment. */
  lemma OutsideRun(chain: seq<nat>, n: nat, k: nat)
    requires Distinct(chain) && n <= k < |chain| && Contiguous(chain, 0, n + 1)
    ensures !(chain[0] <= chain[k] < chain[0] + n)
  {
    if chain[0] <= chain[k] < chain[0] + n {
      var j := chain[k] - chain[0];
      assert At(j) && At(k);
      assert false;
    }
  }

  /** A chain linked on the FAT up to an end mark is a chain in the ordinary sense. */
  lemma {:induction false} LinksAreChain(fat: seq<nat>, chain: seq<nat>)
    requires chain != [] && AllIn(fat, chain) && Linked(fat, chain, 0, |chain| - 1) && LastIsEnd(fat, chain)
    ensures IsChain(fat, chain)
    decreases |chain|
  {
    if |chain| > 1 {
      var tail := chain[1..];
      assert Link(fat, chain, 0);
      forall k | 0 <= k < |tail| - 1
        ensures Link(fat, tail, k)
      {
        assert Link(fat, chain, k + 1);
      }
      LinksAreChain(fat, tail);
    }
  }

  /** After both fragments are written, the file is contiguous, or its FAT chain is exactly `chain`. */
  lemma FlushGivesChain(fat: seq<nat>, o: Obj, chain: seq<nat>, eoc: nat)
    requires Lazy(fat, o, chain) && eoc >= |fat|
    ensures var fat' := FlushedFat(fat, o, chain[|chain| - 1], eoc);
            && SameElsewhere(fat, fat', chain)
            && Lazy(fat', Flushed(o), chain)
            && if o.stat == 2 then Contiguous(chain, 0, |chain|) else Flushed(o).stat == 0 && IsChain(fat', chain)
  {
    if o.stat == 3 {
      FirstFragment(fat, o, chain);
      LastWritten(FirstFilled(fat, o), o.(stat := 0), chain, eoc);
    } else if o.stat == 0 {
      LastWritten(fat, o, chain, eoc);
    }
  }

  lemma LastWritten(fat: seq<nat>, o: Obj, chain: seq<nat>, eoc: nat)
    requires Lazy(fat, o, chain) && o.stat == 0 && eoc >= |fat|
    ensures var fat' := FillLast(fat, chain[|chain| - 1], o.nFrag, eoc);
            SameElsewhere(fat, fat', chain) && Lazy(fat', o.(nFrag := 0), chain) && IsChain(fat', chain)
  {
    var fat' := FillLast(fat, chain[|chain| - 1], o.nFrag, eoc);
    if o.nFrag > 0 {
      LastFragment(fat, chain, o.nFrag, eoc);
    }
    forall k | 0 <= k < |chain| - 1
      ensures Link(fat', chain, k)
    {
      assert k < |chain| - Max(o.nFrag, 1) ==> Link(fat, chain, k);
    }
    assert LastIsEnd(fat', chain);
    LinksAreChain(fat', chain);
  }

  /** get_fat on an object: `count` is the number of clusters its size covers. */
  function Lookup(fat: seq<nat>, o: Obj, count: nat, c: nat): nat
    requires c < |fat|
  {
    var cofs := (c - o.sclust) % 0x1_0000_0000;
    if o.stat == 2 && cofs <= count - 1 then (if cofs == count - 1 then 0x7FFF_FFFF else c + 1)
    else if o.stat == 3 && cofs < o.nCont then c + 1
    else if o.stat == 2 then 1
    else if o.nFrag != 0 then 0x7FFF_FFFF
    else fat[c]
  }

  /** The link of member `k` of `n` is known: from the status, from the FAT, or because there is none. */
  predicate Known(o: Obj, n: nat, k: nat) {
    o.stat == 2 || (o.stat == 3 && k < o.nCont) || o.nFrag == 0 || k + 1 == n
  }

  /** The successor of member `k` is found, or the end of the chain seen, exactly where the link is known. */
  lemma LookupAgrees(fat: seq<nat>, o: Obj, chain: seq<nat>, k: nat)
    requires Lazy(fat, o, chain) && k < |chain| && |fat| <= 0x7FFF_FFFF
    ensures var v := Lookup(fat, o, |chain|, chain[k]);
            (if k + 1 < |chain| then v == chain[k + 1] else v >= |fat|) <==> Known(o, |chain|, k)
  {
    if o.stat == 2 {
      assert chain[k] == chain[0] + k;
      assert k + 1 < |chain| ==> chain[k + 1] == chain[0] + (k + 1);
    } else {
      if o.stat == 3 {
        assert chain[o.nCont] == chain[0] + o.nCont;
        WrapLarge(chain[k], o.sclust, o.nCont);
        if k < o.nCont {
          assert chain[k] == chain[0] + k && chain[k + 1] == chain[0] + (k + 1);
        } else {
          OutsideRun(chain, o.nCont, k);
        }
      }
      if o.nFrag == 0 && k + 1 < |chain| && FirstLinked(o) <= k {
        assert Link(fat, chain, k);
      }
    }
  }

  lemma WrapLarge(c: nat, s: nat, n: nat)
    requires c < 0x8000_0000 && s + n < 0x8000_0000
    ensures (c - s) % 0x1_0000_0000 < n <==> s <= c < s + n
  {
    if c < s {
      assert (c - s) % 0x1_0000_0000 == c - s + 0x1_0000_0000;
    }
  }

  // ----- growing a file step by step

  /** The table and status after create_chain has found the clusters `ncls` one after the other. */
  ghost function GrownAll(fat: seq<nat>, o: Obj, chain: seq<nat>, ncls: seq<nat>): (r: (seq<nat>, Obj))
    requires chain != []
    decreases |ncls|
  {
    if ncls == [] then (fat, o)
    else
      var last := chain[|chain| - 1];
      GrownAll(GrownFat(fat, o, last, ncls[0]), Grown(o, last, ncls[0]), chain + [ncls[0]], ncls[1..])
  }

  lemma NotInPrefix(chain: seq<nat>, k: nat)
    requires Distinct(chain) && k < |chain|
    ensures chain[k] !in chain[..k]
  {
    forall i | 0 <= i < k
      ensures chain[i] != chain[k]
    {
      assert At(i) && At(k);
    }
  }

  /** The last fragment lies in front of the last cluster, and a contiguous chain starts at its first one. */
  lemma FragmentFits(fat: seq<nat>, o: Obj, chain: seq<nat>)
    requires Lazy(fat, o, chain)
    ensures Max(o.nFrag, 1) + 1 <= chain[|chain| - 1] < |fat|
    ensures o.stat == 2 ==> o.sclust <= chain[|chain| - 1]
  {
    if o.stat == 2 {
      assert chain[|chain| - 1] == chain[0] + (|chain| - 1);
    } else if o.nFrag > 0 {
      var lo := |chain| - o.nFrag;
      assert chain[|chain| - 1] == chain[lo] + (|chain| - 1 - lo);
    }
  }

  /** The first fragment lies inside the FAT. */
  lemma FirstFits(fat: seq<nat>, o: Obj, chain: seq<nat>)
    requires Lazy(fat, o, chain)
    ensures o.sclust >= 2 && (o.stat == 3 ==> o.sclust + o.nCont < |fat|)
  {
    if o.stat == 3 {
      assert chain[o.nCont] == chain[0] + o.nCont;
    }
  }

  // ----- the same facts, without unfolding Lazy at the place of use

  lemma LazyStands(fat: seq<nat>, o: Obj, chain: seq<nat>)
    ensures Lazy(fat, o, chain) <==> Stands(fat, o, chain)
  {
    assert Unlock(0);
  }

  /** A known successor is what get_fat finds. */
  lemma StandsFinds(fat: seq<nat>, o: Obj, chain: seq<nat>, k: nat)
    requires Stands(fat, o, chain) && k < |chain| && |fat| <= 0x7FFF_FFFF && Known(o, |chain|, k)
    ensures 2 <= chain[k] < |fat|
    ensures var v := Lookup(fat, o, |chain|, chain[k]);
            if k + 1 < |chain| then v == chain[k + 1] && 2 <= v < |fat| else v >= |fat|
  {
    LazyStands(fat, o, chain);
    LookupAgrees(fat, o, chain, k);
  }

  lemma StandsFits(fat: seq<nat>, o: Obj, chain: seq<nat>)
    requires Stands(fat, o, chain)
    ensures chain != [] && Max(o.nFrag, 1) + 1 <= chain[|chain| - 1] < |fat|
    ensures o.stat == 2 ==> o.sclust <= chain[|chain| - 1]
    ensures o.sclust >= 2 && (o.stat == 3 ==> o.sclust + o.nCont < |fat|)
    ensures |fat| <= 0x7FFF_FFFF ==> Lookup(fat, o, |chain|, chain[|chain| - 1]) >= |fat|
  {
    LazyStands(fat, o, chain);
    FragmentFits(fat, o, chain);
    FirstFits(fat, o, chain);
    if |fat| <= 0x7FFF_FFFF {
      LookupAgrees(fat, o, chain, |chain| - 1);
    }
  }

  lemma StandsGrows(fat: seq<nat>, o: Obj, chain: seq<nat>, ncl: nat)
    requires Stands(fat, o, chain) && InRange(fat, ncl) && ncl !in chain
    ensures chain != []
    ensures Stands(GrownFat(fat, o, chain[|chain| - 1], ncl), Grown(o, chain[|chain| - 1], ncl), chain + [ncl])
    ensures SameElsewhere(fat, GrownFat(fat, o, chain[|chain| - 1], ncl), chain)
  {
    LazyStands(fat, o, chain);
    GrowKeepsLazy(fat, o, chain, ncl);
    LazyStands(GrownFat(fat, o, chain[|chain| - 1], ncl), Grown(o, chain[|chain| - 1], ncl), chain + [ncl]);
  }

  /** What is true of a chain once it is written. */
  ghost predicate Written(fat: seq<nat>, stat: nat, chain: seq<nat>) {
    if stat == 2 then Contiguous(chain, 0, |chain|) else stat == 0 && IsChain(fat, chain)
  }

  lemma StandsFlushed(fat: seq<nat>, o: Obj, chain: seq<nat>, eoc: nat)
    requires Stands(fat, o, chain) && eoc >= |fat|
    ensures chain != [] && SameElsewhere(fat, FlushedFat(fat, o, chain[|chain| - 1], eoc), chain)
    ensures Stands(FlushedFat(fat, o, chain[|chain| - 1], eoc), Flushed(o), chain)
    ensures Written(FlushedFat(fat, o, chain[|chain| - 1], eoc), Flushed(o).stat, chain)
  {
    LazyStands(fat, o, chain);
    FlushGivesChain(fat, o, chain, eoc);
    LazyStands(FlushedFat(fat, o, chain[|chain| - 1], eoc), Flushed(o), chain);
  }

  lemma NewStands(fat: seq<nat>, o: Obj, ncl: nat)
    requires InRange(fat, ncl) && o.stat == 2 && o.nFrag == 0 && o.sclust == ncl
    ensures Stands(fat, o, [ncl])
  {
    LazyStands(fat, o, [ncl]);
  }

  // ----- any number of growing steps, and then the fills

  /** What the fills leave after growing: the whole chain is written, and no entry outside it has changed. */
  ghost predicate Explicit(fat: seq<nat>, fat1: seq<nat>, o1: Obj, all: seq<nat>, eoc: nat)
    requires all != []
  {
    && Stands(fat1, o1, all)
    && SameElsewhere(fat, FlushedFat(fat1, o1, all[|all| - 1], eoc), all)
    && Written(FlushedFat(fat1, o1, all[|all| - 1], eoc), Flushed(o1).stat, all)
  }

  lemma ExplicitBefore(fat: seq<nat>, mid: seq<nat>, fat1: seq<nat>, o1: Obj, chain: seq<nat>, all: seq<nat>, eoc: nat)
    requires chain != [] && chain <= all && SameElsewhere(fat, mid, chain) && Explicit(mid, fat1, o1, all, eoc)
    ensures Explicit(fat, fat1, o1, all, eoc)
  {
    var fat2 := FlushedFat(fat1, o1, all[|all| - 1], eoc);
    forall c: nat | c < |fat| && c !in all
      ensures fat2[c] == fat[c]
    {
      assert c !in all[..|chain|];
    }
  }

  lemma NextIsNew(fat: seq<nat>, chain: seq<nat>, ncls: seq<nat>)
    requires ncls != [] && Distinct(chain + ncls) && AllIn(fat, ncls)
    ensures ncls[0] !in chain && InRange(fat, ncls[0]) && chain + [ncls[0]] + ncls[1..] == chain + ncls
    ensures forall fat' {:trigger AllIn(fat', ncls[1..])} :: |fat'| == |fat| ==> AllIn(fat', ncls[1..])
  {
    var all := chain + ncls;
    NotInPrefix(all, |chain|);
    assert all[..|chain|] == chain && all[|chain|] == ncls[0];
  }

  lemma {:induction false} GrowthStands(fat: seq<nat>, o: Obj, chain: seq<nat>, ncls: seq<nat>, eoc: nat)
    requires Stands(fat, o, chain) && chain != [] && Distinct(chain + ncls) && AllIn(fat, ncls) && eoc >= |fat|
    ensures Explicit(fat, GrownAll(fat, o, chain, ncls).0, GrownAll(fat, o, chain, ncls).1, chain + ncls, eoc)
    decreases |ncls|
  {
    var all := chain + ncls;
    if ncls == [] {
      assert all == chain;
      StandsFlushed(fat, o, chain, eoc);
    } else {
      var last, ncl := chain[|chain| - 1], ncls[0];
      NextIsNew(fat, chain, ncls);
      StandsGrows(fat, o, chain, ncl);
      var mid, o1 := GrownFat(fat, o, last, ncl), Grown(o, last, ncl);
      GrowthStands(mid, o1, chain + [ncl], ncls[1..], eoc);
      var end := GrownAll(mid, o1, chain + [ncl], ncls[1..]);
      ExplicitBefore(fat, mid, end.0, end.1, chain, all, eoc);
    }
  }

  /** However a file has grown, its lazily written chain becomes exactly the sequence of its clusters. */
  lemma GrowthIsExplicit(fat: seq<nat>, o: Obj, chain: seq<nat>, ncls: seq<nat>, eoc: nat)
    requires Lazy(fat, o, chain) && Distinct(chain + ncls) && AllIn(fat, ncls) && eoc >= |fat|
    ensures var (fat1, o1) := GrownAll(fat, o, chain, ncls);
            var all := chain + ncls;
            var fat2 := FlushedFat(fat1, o1, all[|all| - 1], eoc);
            && Lazy(fat1, o1, all) && SameElsewhere(fat, fat2, all)
            && if Flushed(o1).stat == 2 then Contiguous(all, 0, |all|) else IsChain(fat2, all)
  {
    LazyStands(fat, o, chain);
    GrowthStands(fat, o, chain, ncls, eoc);
    var (fat1, o1) := GrownAll(fat, o, chain, ncls);
    LazyStands(fat1, o1, chain + ncls);
  }
}
