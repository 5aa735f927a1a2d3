/** The cluster link map for fast seeking: a table of (length, first cluster) pairs for the fragments of a chain. */
module LinkMap {
  import opened Bytes
  import opened FatTable
  import opened FatCodec
  import opened FatWindow

  /** `n` consecutive clusters from `top` on. */
  function Run(top: nat, n: nat): (r: seq<nat>)
    ensures |r| == n && forall i :: 0 <= i < n ==> r[i] == top + i
  {
    if n == 0 then [] else Run(top, n - 1) + [top + n - 1]
  }

  /** The clusters that a list of pairs stands for. */
  function Expand(pairs: seq<nat>): seq<nat> {
    if |pairs| < 2 then [] else Run(pairs[1], pairs[0]) + Expand(pairs[2..])
  }

  lemma {:induction false} ExpandAppend(pairs: seq<nat>, n: nat, top: nat)
    requires |pairs| % 2 == 0
    ensures Expand(pairs + [n, top]) == Expand(pairs) + Run(top, n)
    decreases |pairs|
  {
    var all := pairs + [n, top];
    if pairs == [] {
      assert all[2..] == [] && Expand(all[2..]) == [] && Run(top, n) + [] == Run(top, n);
    } else {
      ExpandAppend(pairs[2..], n, top);
      assert all[2..] == pairs[2..] + [n, top];
      assert Run(pairs[1], pairs[0]) + (Expand(pairs[2..]) + Run(top, n)) ==
             (Run(pairs[1], pairs[0]) + Expand(pairs[2..])) + Run(top, n);
    }
  }

  /** A fragment starts at position `i` of a chain. */
  predicate Starts(ch: seq<nat>, i: nat)
    requires i < |ch|
  {
    i == 0 || ch[i] != ch[i - 1] + 1
  }

  /** Fragments that start in the first `k` clusters. */
  function Fragments(ch: seq<nat>, k: nat): nat
    requires k <= |ch|
  {
    if k == 0 then 0 else Fragments(ch, k - 1) + if Starts(ch, k - 1) then 1 else 0
  }

  /** A table that maps the chain: items used, pairs, terminator. */
  ghost predicate Maps(tbl: seq<nat>, ch: seq<nat>) {
    && |tbl| > 0 && tbl[0] == 2 + 2 * Fragments(ch, |ch|) <= |tbl| && tbl[tbl[0] - 1] == 0
    && Expand(tbl[1..tbl[0] - 1]) == ch
    && forall i {:trigger At(i)} :: At(i) && 0 <= i < Fragments(ch, |ch|) ==> tbl[1 + 2 * i] > 0
  }

  datatype LinkResult = Built | NotEnoughCore | BadChain | DiskFault

  /** The end mark of the chain looks like the cluster after the last one. */
  ghost predicate MarkFollows(fat: seq<nat>, ch: seq<nat>) {
    ch != [] && ch[|ch| - 1] < |fat| && fat[ch[|ch| - 1]] == ch[|ch| - 1] + 1
  }

  /** It can happen: in a table of three entries any value from 3 on ends a chain, and 3 is also the number after 2. */
  lemma MarkCanFollow()
    ensures var fat := [0xFF8, 0xFFF, 3];
            IsChain(fat, [2]) && MarkFollows(fat, [2])
  {
  }

  /** Follow one fragment: count clusters as long as each is followed by the next number. */
  method Fragment(v: Volume, tcl: nat, ghost ch: seq<nat>, ghost k0: nat) returns (res: LinkResult, ncl: nat, cl: nat)
    requires v.Valid() && v.fsType != ExFat && IsChain(v.fat, ch) && k0 < |ch| && tcl == ch[k0]
    modifies v`disk, v`wflag, v`winsect, v`readCount, v`writeCount, v.win
    ensures v.Valid() && res != NotEnoughCore
    ensures res == DiskFault ==> v.Failed()
    ensures res == BadChain ==> MarkFollows(v.fat, ch)
    ensures res == Built ==> 0 < ncl <= |ch| - k0 && ch[k0..k0 + ncl] == Run(tcl, ncl)
    ensures res == Built ==>
              if k0 + ncl < |ch| then cl == ch[k0 + ncl] && Starts(ch, k0 + ncl)
              else cl >= v.nFatent && !MarkFollows(v.fat, ch)
    ensures res == Built ==> forall i :: k0 < i < k0 + ncl ==> !Starts(ch, i)
  {
    var pcl: nat := 0;
    cl, ncl, res := tcl, 0, Built;
    ghost var k := k0;
    var again := true;
    while again && res == Built
      invariant v.Valid() && k0 <= k && (res == Built ==> k <= |ch|) && res != NotEnoughCore && ncl == k - k0
      invariant res == BadChain ==> MarkFollows(v.fat, ch)
      invariant res == DiskFault ==> v.Failed()
      invariant res == Built && again && k < |ch| ==> cl == ch[k]
      invariant res == Built && again && k == |ch| ==> cl >= v.nFatent && MarkFollows(v.fat, ch)
      invariant res == Built && !again ==>
                  && k > k0
                  && if k < |ch| then cl == ch[k] && Starts(ch, k) else cl >= v.nFatent && !MarkFollows(v.fat, ch)
      invariant res == Built ==> forall i :: k0 <= i < k ==> ch[i] == tcl + (i - k0)
      invariant res == Built && again && k0 < k < |ch| ==> ch[k] == tcl + (k - k0)
      decreases res == Built, again, |ch| - k + 1
    {
      if k < |ch| {
        ChainMembers(v.fat, ch, k);
      }
      pcl, ncl := cl, ncl + 1;
      cl := v.GetFat(cl);
      if cl <= 1 {
        res := BadChain;
      } else if cl == DISK_ERROR {
        res := DiskFault;
      } else {
        again := cl == pcl + 1;
      }
      k := k + 1;
    }
  }

  /** The first `2 * f` items after the size are the fragments of the first `k` clusters. */
  ghost predicate Stored(pairs: seq<nat>, ch: seq<nat>, k: nat)
    requires k <= |ch|
  {
    && |pairs| == 2 * Fragments(ch, k) && Expand(pairs) == ch[..k]
    && forall i {:trigger At(i)} :: At(i) && 0 <= i < Fragments(ch, k) ==> pairs[2 * i] > 0
  }

  /** One more fragment, from `k` to `k + n`. */
  lemma StoreFragment(pairs: seq<nat>, ch: seq<nat>, k: nat, n: nat)
    requires k + n <= |ch| && n > 0 && Stored(pairs, ch, k) && Starts(ch, k)
    requires ch[k..k + n] == Run(ch[k], n) && forall i :: k < i < k + n ==> !Starts(ch, i)
    ensures Stored(pairs + [n, ch[k]], ch, k + n)
  {
    CountFragment(ch, k, n);
    ExpandAppend(pairs, n, ch[k]);
    assert ch[..k] + ch[k..k + n] == ch[..k + n];
  }

  lemma {:induction false} CountFragment(ch: seq<nat>, k: nat, n: nat)
    requires k + n <= |ch| && n > 0 && Starts(ch, k) && forall i :: k < i < k + n ==> !Starts(ch, i)
    ensures Fragments(ch, k + n) == Fragments(ch, k) + 1
  {
    if n > 1 {
      CountFragment(ch, k, n - 1);
    }
  }

  /** Store the length and the first cluster of a fragment, if the table is large enough. */
  method Store(tbl: array<nat>, t: nat, ulen: nat, tlen: nat, ncl: nat, tcl: nat, ghost pairs: seq<nat>)
    returns (t': nat)
    requires tlen <= tbl.Length && 1 <= t <= tbl.Length && ulen >= 4
    requires ulen <= tlen ==> t == ulen - 3 && tbl[1..t] == pairs
    modifies tbl
    ensures if ulen <= tlen then t' == ulen - 1 && tbl[1..t'] == pairs + [ncl, tcl] else t' == t
  {
    t' := t;
    if ulen <= tlen {
      tbl[t], tbl[t + 1] := ncl, tcl;
      t' := t + 2;
    }
  }

  /** Store the fragments of the chain from `cl0` for as long as they fit, and count them all. */
  method Scan(v: Volume, tbl: array<nat>, tlen: nat, cl0: nat, ghost ch: seq<nat>)
    returns (res: LinkResult, ulen: nat, t: nat, ghost pairs: seq<nat>)
    requires v.Valid() && v.fsType != ExFat && 0 < tbl.Length && tlen <= tbl.Length && tbl != v.win as object
    requires IsChain(v.fat, ch) && ch[0] == cl0
    modifies v`disk, v`wflag, v`winsect, v`readCount, v`writeCount, v.win, tbl
    ensures v.Valid() && res != NotEnoughCore
    ensures res == DiskFault ==> v.Failed()
    ensures res == BadChain ==> MarkFollows(v.fat, ch)
    ensures res == Built ==> !MarkFollows(v.fat, ch) && ulen == 2 + 2 * Fragments(ch, |ch|) && Stored(pairs, ch, |ch|)
    ensures res == Built && ulen <= tlen ==> t == ulen - 1 && tbl[1..t] == pairs
  {
    var cl: nat := cl0;
    ulen, t, res := 2, 1, Built;
    ghost var k: nat := 0;
    pairs := [];
    var again := true;
    while again && res == Built
      invariant v.Valid() && k <= |ch| && res != NotEnoughCore && (res == BadChain ==> MarkFollows(v.fat, ch))
      invariant res == DiskFault ==> v.Failed()
      invariant res == Built ==> ulen == 2 + 2 * Fragments(ch, k) && Stored(pairs, ch, k)
      invariant res == Built ==>
                  if again then k < |ch| && cl == ch[k] && Starts(ch, k) else k == |ch| && !MarkFollows(v.fat, ch)
      invariant res == Built ==> 1 <= t <= tbl.Length && (ulen <= tlen ==> t == ulen - 1 && tbl[1..t] == pairs)
      decreases res == Built, |ch| - k
    {
      var tcl, ncl := cl, 0;
      ulen := ulen + 2;
      res, ncl, cl, t := OneFragment(v, tbl, tlen, t, ulen, tcl, ch, k, pairs);
      if res == Built {
        pairs, k := pairs + [ncl, tcl], k + ncl;
        again := cl < v.nFatent;
      }
    }
  }

  /** One pass: the fragment that starts at `tcl` is followed and stored, if there is room. */
  method OneFragment(v: Volume, tbl: array<nat>, tlen: nat, t: nat, ulen: nat, tcl: nat, ghost ch: seq<nat>,
                     ghost k: nat, ghost pairs: seq<nat>)
    returns (res: LinkResult, ncl: nat, cl: nat, t': nat)
    requires v.Valid() && v.fsType != ExFat && tlen <= tbl.Length && tbl != v.win as object
    requires IsChain(v.fat, ch) && k < |ch| && tcl == ch[k] && Starts(ch, k) && Stored(pairs, ch, k)
    requires 1 <= t <= tbl.Length && ulen >= 4 && (ulen <= tlen ==> t == ulen - 3 && tbl[1..t] == pairs)
    modifies v`disk, v`wflag, v`winsect, v`readCount, v`writeCount, v.win, tbl
    ensures v.Valid() && res != NotEnoughCore
    ensures res == DiskFault ==> v.Failed()
    ensures res == BadChain ==> MarkFollows(v.fat, ch)
    ensures res == Built ==> 0 < ncl <= |ch| - k && Stored(pairs + [ncl, tcl], ch, k + ncl)
    ensures res == Built ==> Fragments(ch, k + ncl) == Fragments(ch, k) + 1
    ensures res == Built ==>
              if k + ncl < |ch| then cl == ch[k + ncl] < v.nFatent && Starts(ch, k + ncl)
              else cl >= v.nFatent && !MarkFollows(v.fat, ch)
    ensures res == Built ==>
              if ulen <= tlen then t' == ulen - 1 && tbl[1..t'] == pairs + [ncl, tcl] else t' == t
  {
    res, ncl, cl := Fragment(v, tcl, ch, k);
    t' := t;
    if res == Built {
      StoreFragment(pairs, ch, k, ncl);
      CountFragment(ch, k, ncl);
      t' := Store(tbl, t, ulen, tlen, ncl, tcl, pairs);
      if k + ncl < |ch| {
        ChainMembers(v.fat, ch, k + ncl);
      }
    }
  }

  /** f_lseek with CREATE_LINKMAP: the map of the chain from `sclust`, or the size it would need. */
  method Build(v: Volume, tbl: array<nat>, sclust: nat, ghost ch: seq<nat>) returns (res: LinkResult)
    requires v.Valid() && v.fsType != ExFat && tbl.Length > 0 && tbl[0] <= tbl.Length && tbl != v.win as object
    requires if sclust == 0 then ch == [] else IsChain(v.fat, ch) && ch[0] == sclust
    modifies v`disk, v`wflag, v`winsect, v`readCount, v`writeCount, v.win, tbl
    ensures v.Valid() && (res == DiskFault ==> v.Failed())
    ensures res == Built ==> Maps(tbl[..], ch) && tbl[0] <= old(tbl[0])
    ensures res == NotEnoughCore ==> tbl[0] == 2 + 2 * Fragments(ch, |ch|) > old(tbl[0])
    ensures res == BadChain <==> MarkFollows(v.fat, ch) && res != DiskFault
  {
    var tlen: nat, ulen: nat, t: nat := tbl[0], 2, 1;
    ghost var pairs: seq<nat> := [];
    res := Built;
    if sclust != 0 {
      res, ulen, t, pairs := Scan(v, tbl, tlen, sclust, ch);
    }
    if res == Built {
      res := Finish(tbl, tlen, ulen, t, pairs, ch);
    }
  }

  /** The number of items used, and the terminator if there is room for it. */
  method Finish(tbl: array<nat>, tlen: nat, ulen: nat, t: nat, ghost pairs: seq<nat>, ghost ch: seq<nat>)
    returns (res: LinkResult)
    requires 0 < tbl.Length && tlen <= tbl.Length && ulen == 2 + 2 * Fragments(ch, |ch|) && Stored(pairs, ch, |ch|)
    requires ulen <= tlen ==> t == ulen - 1 && tbl[1..t] == pairs
    modifies tbl
    ensures tbl[0] == ulen && res == if ulen <= tlen then Built else NotEnoughCore
    ensures res == Built ==> Maps(tbl[..], ch)
  {
    tbl[0] := ulen;
    res := NotEnoughCore;
    if ulen <= tlen {
      tbl[t] := 0;
      assert tbl[..][1..t] == pairs && ch[..|ch|] == ch;
      forall i | At(i) && 0 <= i < Fragments(ch, |ch|)
        ensures tbl[..][1 + 2 * i] > 0
      {
        assert tbl[..][1 + 2 * i] == pairs[2 * i];
      }
      res := Built;
    }
  }

  /** Walking the pairs of a table. */
  function Lookup(pairs: seq<nat>, cl: nat): nat
    decreases |pairs|
  {
    if |pairs| < 2 then 0 else if cl < pairs[0] then cl + pairs[1] else Lookup(pairs[2..], cl - pairs[0])
  }

  lemma {:induction false} LookupFinds(pairs: seq<nat>, cl: nat)
    ensures Lookup(pairs, cl) == if cl < |Expand(pairs)| then Expand(pairs)[cl] else 0
    decreases |pairs|
  {
    if |pairs| >= 2 && cl >= pairs[0] {
      LookupFinds(pairs[2..], cl - pairs[0]);
    }
  }

  /** The cluster order of an offset is its quotient by the cluster size in bytes. */
  lemma ClusterOrder(ofs: nat, csize: nat)
    requires csize > 0
    ensures var q := ofs / 512 / csize; q * csize * 512 <= ofs < (q + 1) * csize * 512
  {
    var s := ofs / 512;
    var q := s / csize;
    assert s == q * csize + s % csize && (q + 1) * csize == q * csize + csize;
  }

  /** clmt_clust: the cluster of the chain in whose bytes the offset lies, or 0 past the end of the map. */
  method ClmtClust(tbl: array<nat>, ofs: nat, csize: nat, ghost ch: seq<nat>) returns (c: nat, ghost q: nat)
    requires Maps(tbl[..], ch) && csize > 0
    ensures q * csize * 512 <= ofs < (q + 1) * csize * 512
    ensures c == if q < |ch| then ch[q] else 0
  {
    q := ofs / 512 / csize;
    ClusterOrder(ofs, csize);
    c := Walk(tbl, ofs / 512 / csize, ch);
  }

  method Walk(tbl: array<nat>, cl0: nat, ghost ch: seq<nat>) returns (c: nat)
    requires Maps(tbl[..], ch)
    ensures c == if cl0 < |ch| then ch[cl0] else 0
  {
    var cl: nat, t: nat := cl0, 1;
    ghost var n, f: nat := Fragments(ch, |ch|), 0;
    ghost var pairs := tbl[1..1 + 2 * n];
    assert pairs == tbl[..][1..tbl[0] - 1];
    LookupFinds(pairs, cl);
    assert At(0);
    while tbl[t] != 0 && tbl[t] <= cl
      invariant f <= n && t == 1 + 2 * f && pairs == tbl[t..1 + 2 * n] && At(f)
      invariant Lookup(pairs, cl) == if cl0 < |ch| then ch[cl0] else 0
      decreases n - f
    {
      assert pairs[0] == tbl[t] && pairs[2..] == tbl[t + 2..1 + 2 * n];
      cl, t, f, pairs := cl - tbl[t], t + 2, f + 1, pairs[2..];
    }
    assert f < n ==> tbl[..][1 + 2 * f] > 0;
    if tbl[t] == 0 {
      c := 0;
    } else {
      assert pairs[0] == tbl[t] && pairs[1] == tbl[t + 1];
      c := cl + tbl[t + 1];
    }
  }
}
