/** A file allocation table as a value: chains, their removal, and the free-cluster count. */
module FatTable {

  predicate InRange(fat: seq<nat>, c: nat) {
    2 <= c < |fat|
  }

  /** `ch` is followed link by link in `fat` and ends with an end-of-chain mark. */
  ghost predicate IsChain(fat: seq<nat>, ch: seq<nat>) {
    && ch != []
    && InRange(fat, ch[0])
    && if |ch| == 1 then fat[ch[0]] >= |fat| else fat[ch[0]] == ch[1] && IsChain(fat, ch[1..])
  }

  ghost predicate Covered(chains: set<seq<nat>>, c: nat) {
    exists ch :: ch in chains && c in ch
  }

  ghost predicate Disjoint(a: seq<nat>, b: seq<nat>) {
    forall c :: c in a ==> c !in b
  }

  /** The used clusters are exactly the members of pairwise disjoint chains. */
  ghost predicate Partition(fat: seq<nat>, chains: set<seq<nat>>) {
    && (forall ch :: ch in chains ==> IsChain(fat, ch))
    && (forall c: nat {:trigger Covered(chains, c)} :: InRange(fat, c) && fat[c] != 0 ==> Covered(chains, c))
    && (forall a, b {:trigger Disjoint(a, b)} :: a in chains && b in chains && a != b ==> Disjoint(a, b))
  }

  /** Number of zero entries among 2 .. n-1. */
  function FreeBelow(fat: seq<nat>, n: nat): nat
    requires n <= |fat|
  {
    if n <= 2 then 0 else FreeBelow(fat, n - 1) + if fat[n - 1] == 0 then 1 else 0
  }

  function FreeCount(fat: seq<nat>): nat {
    FreeBelow(fat, |fat|)
  }

  lemma {:induction false} FreeBelowBound(fat: seq<nat>, n: nat)
    requires 2 <= n <= |fat|
    ensures FreeBelow(fat, n) <= n - 2
    ensures FreeBelow(fat, n) == n - 2 <==> forall c :: 2 <= c < n ==> fat[c] == 0
    ensures FreeBelow(fat, n) == 0 <==> forall c :: 2 <= c < n ==> fat[c] != 0
  {
    if n > 2 {
      FreeBelowBound(fat, n - 1);
    }
  }

  lemma {:induction false} FreeBelowUpdate(fat: seq<nat>, n: nat, c: nat, v: nat)
    requires n <= |fat| && InRange(fat, c)
    ensures FreeBelow(fat[c := v], n) ==
            FreeBelow(fat, n) + if c < n then (if v == 0 then 1 else 0) - (if fat[c] == 0 then 1 else 0) else 0
  {
    if n > 2 {
      FreeBelowUpdate(fat, n - 1, c, v);
    }
  }

  /** The table after freeing every cluster reachable from `c`, as remove_chain does it. */
  function Freed(fat: seq<nat>, c: nat): (r: seq<nat>)
    ensures |r| == |fat|
    decreases |fat| - FreeCount(fat)
  {
    if InRange(fat, c) && fat[c] > 1 then
      FreeMoves(fat, c);
      Freed(fat[c := 0], fat[c])
    else fat
  }

  lemma FreeMoves(fat: seq<nat>, c: nat)
    requires InRange(fat, c) && fat[c] != 0
    ensures FreeCount(fat[c := 0]) == FreeCount(fat) + 1
    ensures FreeCount(fat[c := 0]) <= |fat| - 2
  {
    FreeBelowUpdate(fat, |fat|, c, 0);
    FreeBelowBound(fat[c := 0], |fat|);
  }

  lemma {:induction false} ChainMembers(fat: seq<nat>, ch: seq<nat>, i: nat)
    requires IsChain(fat, ch) && i < |ch|
    ensures InRange(fat, ch[i]) && InRange(fat, ch[|ch| - 1])
    ensures fat[ch[i]] == if i + 1 < |ch| then ch[i + 1] else fat[ch[|ch| - 1]]
    ensures fat[ch[|ch| - 1]] >= |fat| && fat[ch[i]] >= 2
  {
    if |ch| > 1 {
      if i > 0 {
        ChainMembers(fat, ch[1..], i - 1);
      } else {
        ChainMembers(fat, ch[1..], 0);
      }
    }
  }

  /** Chains do not repeat a cluster: they are acyclic. */
  lemma {:induction false} ChainDistinct(fat: seq<nat>, ch: seq<nat>, i: nat, j: nat)
    requires IsChain(fat, ch) && i < j < |ch|
    ensures ch[i] != ch[j]
    decreases |ch| - j
  {
    ChainMembers(fat, ch, i);
    ChainMembers(fat, ch, i + 1);
    ChainMembers(fat, ch, j);
    if j + 1 < |ch| {
      ChainDistinct(fat, ch, i + 1, j + 1);
    }
  }

  /** Two chains that share a cluster share everything after it. */
  lemma {:induction false} ChainSuffix(fat: seq<nat>, ch: seq<nat>, i: nat)
    requires IsChain(fat, ch) && i < |ch|
    ensures IsChain(fat, ch[i..])
  {
    if i > 0 {
      ChainSuffix(fat, ch[1..], i - 1);
      assert ch[1..][i - 1..] == ch[i..];
    }
  }

  /** A chain survives changes to clusters outside it. */
  lemma {:induction false} ChainFrame(fat: seq<nat>, fat': seq<nat>, ch: seq<nat>)
    requires |fat'| == |fat| && IsChain(fat, ch)
    requires forall c :: c in ch && c < |fat| ==> fat'[c] == fat[c]
    ensures IsChain(fat', ch)
  {
    if |ch| > 1 {
      ChainFrame(fat, fat', ch[1..]);
    }
  }

  /** Linking a free cluster behind the last one gives the longer chain. */
  lemma {:induction false} ChainExtend(fat: seq<nat>, ch: seq<nat>, ncl: nat, eoc: nat)
    requires IsChain(fat, ch) && InRange(fat, ncl) && fat[ncl] == 0 && eoc >= |fat|
    ensures InRange(fat, ch[|ch| - 1])
    ensures IsChain(fat[ncl := eoc][ch[|ch| - 1] := ncl], ch + [ncl])
  {
    var fat' := fat[ncl := eoc];
    ChainMembers(fat, ch, 0);
    ChainMembers(fat, ch, |ch| - 1);
    if |ch| == 1 {
      assert (ch + [ncl])[1..] == [ncl];
    } else {
      ChainExtend(fat, ch[1..], ncl, eoc);
      ChainDistinct(fat, ch, 0, |ch| - 1);
      assert (ch + [ncl])[1..] == ch[1..] + [ncl];
    }
  }

  /** Marking a member as the last one cuts the chain there. */
  lemma {:induction false} ChainCut(fat: seq<nat>, ch: seq<nat>, k: nat, eoc: nat)
    requires IsChain(fat, ch) && k < |ch| && eoc >= |fat|
    ensures InRange(fat, ch[k])
    ensures IsChain(fat[ch[k] := eoc], ch[..k + 1])
  {
    ChainMembers(fat, ch, k);
    if k > 0 {
      ChainDistinct(fat, ch, 0, k);
      ChainCut(fat, ch[1..], k - 1, eoc);
      assert ch[..k + 1][1..] == ch[1..][..k];
    }
  }

  /** Freeing from the head of a chain zeroes its members and nothing else. */
  lemma {:induction false} FreedChain(fat: seq<nat>, ch: seq<nat>, c: nat)
    requires IsChain(fat, ch) && c < |fat|
    ensures Freed(fat, ch[0])[c] == if c in ch then 0 else fat[c]
    decreases |ch|
  {
    var fat' := fat[ch[0] := 0];
    ChainMembers(fat, ch, 0);
    if |ch| == 1 {
      assert Freed(fat', fat[ch[0]]) == fat';
    } else {
      forall i | 0 < i < |ch|
        ensures ch[i] != ch[0]
      {
        ChainDistinct(fat, ch, 0, i);
      }
      ChainFrame(fat, fat', ch[1..]);
      FreedChain(fat', ch[1..], c);
      assert c in ch <==> c == ch[0] || c in ch[1..];
    }
  }

  // ----- the four ways the allocator changes a well-formed table

  /** A free cluster becomes a chain of its own. */
  lemma PartitionNew(fat: seq<nat>, chains: set<seq<nat>>, ncl: nat, eoc: nat)
    requires Partition(fat, chains) && InRange(fat, ncl) && fat[ncl] == 0 && eoc >= |fat|
    ensures Partition(fat[ncl := eoc], chains + {[ncl]})
  {
    var fat', chains' := fat[ncl := eoc], chains + {[ncl]};
    forall ch | ch in chains
      ensures IsChain(fat', ch) && Disjoint(ch, [ncl]) && Disjoint([ncl], ch)
    {
      FreeOutside(fat, ch, ncl);
      ChainFrame(fat, fat', ch);
    }
    forall c: nat | InRange(fat', c) && fat'[c] != 0
      ensures Covered(chains', c)
    {
      if c == ncl {
        CoveredBy(chains', [ncl], c);
      } else {
        assert Covered(chains, c);
      }
    }
  }

  lemma CoveredBy(chains: set<seq<nat>>, ch: seq<nat>, c: nat)
    requires ch in chains && c in ch
    ensures Covered(chains, c)
  {
  }

  lemma FreeOutside(fat: seq<nat>, ch: seq<nat>, c: nat)
    requires IsChain(fat, ch) && c < |fat| && fat[c] == 0
    ensures c !in ch
  {
    if c in ch {
      var i :| 0 <= i < |ch| && ch[i] == c;
      ChainMembers(fat, ch, i);
    }
  }

  /** A chain grows by a free cluster; all other chains stay. */
  lemma PartitionExtend(fat: seq<nat>, chains: set<seq<nat>>, ch: seq<nat>, ncl: nat, eoc: nat)
    requires Partition(fat, chains) && ch in chains
    requires InRange(fat, ncl) && fat[ncl] == 0 && eoc >= |fat|
    ensures InRange(fat, ch[|ch| - 1])
    ensures Partition(fat[ncl := eoc][ch[|ch| - 1] := ncl], chains - {ch} + {ch + [ncl]})
  {
    var last, long := ch[|ch| - 1], ch + [ncl];
    ChainExtend(fat, ch, ncl, eoc);
    var fat', chains' := fat[ncl := eoc][last := ncl], chains - {ch} + {long};
    forall a | a in chains && a != ch
      ensures IsChain(fat', a) && Disjoint(a, long) && Disjoint(long, a)
    {
      FreeOutside(fat, a, ncl);
      assert Disjoint(a, ch) && Disjoint(ch, a);
      assert last in ch;
      ChainFrame(fat, fat', a);
    }
    forall c: nat | InRange(fat', c) && fat'[c] != 0
      ensures Covered(chains', c)
    {
      if c in long {
        CoveredBy(chains', long, c);
      } else {
        assert last in ch && last in long && c != last && c != ncl;
        CoveredElsewhere(fat, chains, ch, c, chains');
      }
    }
  }

  /** A used cluster outside `ch` is covered by a chain other than `ch`. */
  lemma CoveredElsewhere(fat: seq<nat>, chains: set<seq<nat>>, ch: seq<nat>, c: nat, chains': set<seq<nat>>)
    requires Partition(fat, chains) && InRange(fat, c) && fat[c] != 0 && c !in ch
    requires chains - {ch} <= chains'
    ensures Covered(chains', c)
  {
    assert Covered(chains, c);
    var a :| a in chains && c in a;
    CoveredBy(chains', a, c);
  }

  /** A whole chain is freed; all other chains stay. */
  lemma PartitionRemove(fat: seq<nat>, chains: set<seq<nat>>, ch: seq<nat>)
    requires Partition(fat, chains) && ch in chains
    ensures Partition(Freed(fat, ch[0]), chains - {ch})
  {
    var fat' := Freed(fat, ch[0]);
    forall c: nat | c < |fat|
      ensures fat'[c] == if c in ch then 0 else fat[c]
    {
      FreedChain(fat, ch, c);
    }
    forall a | a in chains && a != ch
      ensures IsChain(fat', a)
    {
      assert Disjoint(a, ch);
      ChainFrame(fat, fat', a);
    }
    forall c: nat | InRange(fat', c) && fat'[c] != 0
      ensures Covered(chains - {ch}, c)
    {
      CoveredElsewhere(fat, chains, ch, c, chains - {ch});
    }
  }

  /** A chain is cut behind its member `k - 1`; all other chains stay. */
  lemma PartitionTruncate(fat: seq<nat>, chains: set<seq<nat>>, ch: seq<nat>, k: nat, eoc: nat)
    requires Partition(fat, chains) && ch in chains && 0 < k < |ch| && eoc >= |fat|
    ensures InRange(fat, ch[k - 1])
    ensures Partition(Freed(fat[ch[k - 1] := eoc], ch[k]), chains - {ch} + {ch[..k]})
  {
    PartitionSplit(fat, chains, ch, k, eoc);
    var head, tail, fat' := ch[..k], ch[k..], fat[ch[k - 1] := eoc];
    var rest := chains - {ch} + {head};
    assert tail[0] in tail && tail[0] in ch;
    assert tail in chains ==> tail == ch || Disjoint(tail, ch);
    assert tail !in rest;
    PartitionRemove(fat', rest + {tail}, tail);
    assert rest + {tail} - {tail} == rest;
  }

  /** Cutting a chain in two leaves a well-formed table with one chain more. */
  lemma PartitionSplit(fat: seq<nat>, chains: set<seq<nat>>, ch: seq<nat>, k: nat, eoc: nat)
    requires Partition(fat, chains) && ch in chains && 0 < k < |ch| && eoc >= |fat|
    ensures InRange(fat, ch[k - 1]) && Disjoint(ch[..k], ch[k..]) && Disjoint(ch[k..], ch[..k])
    ensures Partition(fat[ch[k - 1] := eoc], chains - {ch} + {ch[..k]} + {ch[k..]})
  {
    CutPieces(fat, ch, k, eoc);
    var head, tail, fat' := ch[..k], ch[k..], fat[ch[k - 1] := eoc];
    var chains' := chains - {ch} + {head} + {tail};
    forall a | a in chains && a != ch
      ensures IsChain(fat', a) && Disjoint(a, head) && Disjoint(head, a) && Disjoint(a, tail) && Disjoint(tail, a)
    {
      assert Disjoint(a, ch) && Disjoint(ch, a);
      assert forall c :: c in ch <==> c in head || c in tail;
      assert ch[k - 1] in ch;
      ChainFrame(fat, fat', a);
    }
    forall c: nat | InRange(fat', c) && fat'[c] != 0
      ensures Covered(chains', c)
    {
      if c in head {
        CoveredBy(chains', head, c);
      } else if c in tail {
        CoveredBy(chains', tail, c);
      } else {
        assert ch == head + tail && c !in ch;
        assert ch[k - 1] == head[k - 1];
        CoveredElsewhere(fat, chains, ch, c, chains');
      }
    }
  }

  lemma CutPieces(fat: seq<nat>, ch: seq<nat>, k: nat, eoc: nat)
    requires IsChain(fat, ch) && 0 < k < |ch| && eoc >= |fat|
    ensures InRange(fat, ch[k - 1])
    ensures Disjoint(ch[..k], ch[k..]) && Disjoint(ch[k..], ch[..k]) && ch == ch[..k] + ch[k..]
    ensures IsChain(fat[ch[k - 1] := eoc], ch[..k]) && IsChain(fat[ch[k - 1] := eoc], ch[k..])
  {
    ChainCut(fat, ch, k - 1, eoc);
    ChainSuffix(fat, ch, k);
    forall i, j | 0 <= i < k <= j < |ch|
      ensures ch[i] != ch[j]
    {
      ChainDistinct(fat, ch, i, j);
    }
    assert ch == ch[..k] + ch[k..];
    assert ch[k - 1] !in ch[k..];
    ChainFrame(fat, fat[ch[k - 1] := eoc], ch[k..]);
  }
}
