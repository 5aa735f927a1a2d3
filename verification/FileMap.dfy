/** Where the bytes of a file lie: clusters, sectors and the contents they hold. */
module FileMap {
  import opened Bytes
  import opened FatTable

  // ----- division by the cluster size

  lemma MulMono(a: nat, b: nat, n: nat)
    requires a <= b
    ensures n * a <= n * b
  {
  }

  /** Places `r` in cluster `c` and `t` in cluster `d` are apart when the clusters are. */
  lemma ClusterRoom(n: nat, c: nat, r: nat, d: nat)
    requires r < n && c < d
    ensures n * c + r < n * d
  {
    MulMono(c + 1, d, n);
    assert n * (c + 1) == n * c + n;
  }

  /** The cluster of sector `q` of a file, counted from 0. */
  function Quot(q: nat, n: nat): nat
    requires n > 0
  {
    if q < n then 0 else 1 + Quot(q - n, n)
  }

  lemma LastSectorOf(k: nat)
    requires k > 0
    ensures (512 * k - 1) / 512 == k - 1 && (512 * k) % 512 == 0
  {
  }

  /** The place of sector `q` in its cluster; for a power of two `n` the source masks it out. */
  function Rem(q: nat, n: nat): (r: nat)
    requires n > 0
    ensures r < n
  {
    if q < n then q else Rem(q - n, n)
  }

  lemma {:induction false} QuotRem(q: nat, n: nat)
    requires n > 0
    ensures q == n * Quot(q, n) + Rem(q, n)
  {
    if q >= n {
      QuotRem(q - n, n);
      assert n * (1 + Quot(q - n, n)) == n + n * Quot(q - n, n);
    }
  }

  lemma {:induction false} QuotUnique(q: nat, n: nat, d: nat, r: nat)
    requires r < n && q == n * d + r
    ensures Quot(q, n) == d && Rem(q, n) == r
  {
    if d > 0 {
      assert n * d == n * (d - 1) + n;
      QuotUnique(q - n, n, d - 1, r);
    }
  }

  /** These are the ordinary quotient and remainder. */
  lemma {:induction false} QuotRemAreDivMod(q: nat, n: nat)
    requires n > 0
    ensures Quot(q, n) == q / n && Rem(q, n) == q % n
  {
    QuotUnique(q, n, q / n, q % n);
  }

  /** A few sectors further on in the same cluster. */
  lemma {:induction false} SameCluster(q: nat, n: nat, j: nat)
    requires n > 0 && Rem(q, n) + j < n
    ensures Quot(q + j, n) == Quot(q, n) && Rem(q + j, n) == Rem(q, n) + j
  {
    if q >= n {
      SameCluster(q - n, n, j);
    }
  }

  /** The sector before the start of a cluster belongs to the previous cluster. */
  lemma {:induction false} PreviousCluster(q: nat, n: nat)
    requires n > 0 && q > 0
    ensures Rem(q, n) == 0 ==> Quot(q, n) > 0
    ensures Quot(q - 1, n) == if Rem(q, n) == 0 then Quot(q, n) - 1 else Quot(q, n)
  {
    if q > n {
      PreviousCluster(q - n, n);
    }
  }

  /** The last byte of a stretch of `o` bytes that starts at cluster `ci`. */
  lemma ByteInCluster(n: nat, ci: nat, o: nat)
    requires n > 0 && 1 <= o <= 512 * n
    ensures Quot((512 * (n * ci) + o - 1) / 512, n) == ci
    ensures (o - 1) / 512 < n
  {
    var m := n * ci;
    assert (512 * m + (o - 1)) / 512 == m + (o - 1) / 512;
    QuotUnique(m + (o - 1) / 512, n, ci, (o - 1) / 512);
  }

  // ----- the sectors of a chain

  /** First sector of cluster `c`, on a volume with data from `base` on and `n` sectors a cluster. */
  function ClusterStart(base: nat, n: nat, c: nat): int {
    base + n * (c as int - 2)
  }

  /** The sectors of a file with clusters `chain`, in file order. */
  function Sectors(base: nat, n: nat, chain: seq<nat>): (r: seq<int>)
    ensures |r| == n * |chain|
  {
    if chain == [] then []
    else
      var k := |chain| - 1;
      assert n * |chain| == n * k + n;
      Sectors(base, n, chain[..k]) + seq(n, i => ClusterStart(base, n, chain[k]) + i)
  }

  /** Sector `q` of a file lies at place `r` of cluster `i`. */
  lemma {:induction false} Place(base: nat, n: nat, chain: seq<nat>, q: nat) returns (i: nat, r: nat)
    requires q < |Sectors(base, n, chain)|
    ensures i < |chain| && r < n && q == n * i + r
    ensures Sectors(base, n, chain)[q] == ClusterStart(base, n, chain[i]) + r
  {
    var k := |chain| - 1;
    var before := Sectors(base, n, chain[..k]);
    if q < |before| {
      i, r := Place(base, n, chain[..k], q);
    } else {
      i, r := k, q - |before|;
    }
  }

  /** Place `r` of cluster `i` is sector `n * i + r` of the file. */
  lemma {:induction false} SectorOf(base: nat, n: nat, chain: seq<nat>, i: nat, r: nat)
    requires i < |chain| && r < n
    ensures n * i + r < |Sectors(base, n, chain)|
    ensures Sectors(base, n, chain)[n * i + r] == ClusterStart(base, n, chain[i]) + r
  {
    ClusterRoom(n, i, r, |chain|);
    var k := |chain| - 1;
    if i < k {
      SectorOf(base, n, chain[..k], i, r);
    }
  }

  lemma StartBounds(base: nat, n: nat, c: nat, r: nat, m: nat)
    requires r < n && 2 <= c < m
    ensures base <= ClusterStart(base, n, c) + r < ClusterStart(base, n, m)
  {
    ClusterRoom(n, c - 2, r, m - 2);
  }

  lemma SectorBounds(fat: seq<nat>, chain: seq<nat>, base: nat, n: nat, q: nat)
    requires IsChain(fat, chain) && q < |Sectors(base, n, chain)|
    ensures base <= Sectors(base, n, chain)[q] < ClusterStart(base, n, |fat|)
  {
    var i, r := Place(base, n, chain, q);
    ChainMembers(fat, chain, i);
    StartBounds(base, n, chain[i], r, |fat|);
  }

  /** No sector occurs twice in a file. */
  lemma SectorsDistinct(fat: seq<nat>, chain: seq<nat>, base: nat, n: nat, p: nat, q: nat)
    requires IsChain(fat, chain) && p < q < |Sectors(base, n, chain)|
    ensures Sectors(base, n, chain)[p] != Sectors(base, n, chain)[q]
  {
    var i, r := Place(base, n, chain, p);
    var j, t := Place(base, n, chain, q);
    ChainMembers(fat, chain, i);
    ChainMembers(fat, chain, j);
    if i != j {
      if i < j { ChainDistinct(fat, chain, i, j); } else { ChainDistinct(fat, chain, j, i); }
      if chain[i] < chain[j] {
        StartBounds(base, n, chain[i], r, chain[j]);
      } else {
        StartBounds(base, n, chain[j], t, chain[i]);
      }
    }
  }

  // ----- contents

  /** `data` lists the logical sectors of the file; sector `held` is the one in the file's own buffer. */
  ghost predicate DataOk(secs: seq<int>, rest: seq<Sector>, held: int, buf: seq<byte>, data: seq<Sector>) {
    && |data| == |secs|
    && forall q: nat {:trigger At(q)} :: At(q) && q < |data| ==>
         data[q] == if q == held then buf else Peek(rest, secs[q])
  }

  /** Logical contents of sector `s`, when it exists. */
  ghost function Peek(rest: seq<Sector>, s: int): Sector {
    if 0 <= s < |rest| then rest[s] else seq(512, i => 0)
  }

  /** The sectors are distinct, inside [lo, hi), and none of them is `w`. */
  ghost predicate SectorsOk(secs: seq<int>, lo: nat, hi: nat, w: nat) {
    && (forall q: nat {:trigger At(q)} :: At(q) && q < |secs| ==> lo <= secs[q] < hi && secs[q] != w)
    && (forall p: nat, q: nat {:trigger At(p), At(q)} :: At(p) && At(q) && p < q < |secs| ==> secs[p] != secs[q])
  }

  /** `bytes` is the beginning of the concatenation of `data`. */
  ghost predicate BytesOk(bytes: seq<byte>, data: seq<Sector>) {
    && |bytes| <= 512 * |data|
    && forall k: nat {:trigger At(k)} :: At(k) && k < |bytes| ==> bytes[k] == data[k / 512][k % 512]
  }

  /** A plain byte array after writing `w` at offset `p`. */
  function Overwrite(bytes: seq<byte>, p: nat, w: seq<byte>): (r: seq<byte>)
    requires p <= |bytes|
  {
    bytes[..p] + w + if p + |w| < |bytes| then bytes[p + |w|..] else []
  }

  /** A sector with `w` copied in at offset `o`. */
  function Splice(b: seq<byte>, o: nat, w: seq<byte>): (r: Sector)
    requires |b| == 512 && o + |w| <= 512
  {
    b[..o] + w + b[o + |w|..]
  }

  /** Sector `q` rewritten from byte `o` on: the byte array sees exactly those bytes. */
  lemma BytesAfterPatch(bytes: seq<byte>, data: seq<Sector>, q: nat, o: nat, w: seq<byte>, old_: Sector)
    requires BytesOk(bytes, data) && q < |data| && o + |w| <= 512
    requires 512 * q + o <= |bytes|
    requires o > 0 || 512 * q + o < |bytes| ==> old_ == data[q]
    ensures BytesOk(Overwrite(bytes, 512 * q + o, w), data[q := Splice(old_, o, w)])
  {
    var p := 512 * q + o;
    var r, s := Overwrite(bytes, p, w), Splice(old_, o, w);
    forall k: nat | At(k) && k < |r|
      ensures r[k] == data[q := s][k / 512][k % 512]
    {
      if k < p {
        assert r[k] == bytes[k];
      } else if k < p + |w| {
        assert k / 512 == q && k % 512 == k - 512 * q;
        assert r[k] == w[k - p];
      } else {
        assert r[k] == bytes[k];
      }
    }
  }

  /** Sectors of the same cluster are consecutive on the medium. */
  lemma Consecutive(base: nat, n: nat, chain: seq<nat>, q: nat, j: nat)
    requires n > 0 && q < |Sectors(base, n, chain)| && Rem(q, n) + j < n
    ensures q + j < |Sectors(base, n, chain)| && Quot(q, n) < |chain|
    ensures Sectors(base, n, chain)[q + j] == Sectors(base, n, chain)[q] + j
    ensures Sectors(base, n, chain)[q] == ClusterStart(base, n, chain[Quot(q, n)]) + Rem(q, n)
  {
    var i, r := Place(base, n, chain, q);
    QuotUnique(q, n, i, r);
    SectorOf(base, n, chain, i, r + j);
  }

  /** Consecutive sectors of a file, put together, are consecutive bytes of it. */
  lemma BytesFromSectors(bytes: seq<byte>, data: seq<Sector>, q: nat, cc: nat, chunk: seq<byte>)
    requires BytesOk(bytes, data) && |chunk| == 512 * cc && 512 * q + 512 * cc <= |bytes|
    requires forall j: nat {:trigger At(j)} :: At(j) && j < cc ==> chunk[512 * j..512 * j + 512] == data[q + j]
    ensures chunk == bytes[512 * q..512 * q + 512 * cc]
  {
    forall k: nat | k < |chunk|
      ensures chunk[k] == bytes[512 * q + k]
    {
      var j := k / 512;
      assert At(j) && At(512 * q + k);
      assert chunk[512 * j..512 * j + 512][k % 512] == chunk[k];
      assert (512 * q + k) / 512 == q + j && (512 * q + k) % 512 == k % 512;
    }
  }

  lemma SectorFacts(secs: seq<int>, lo: nat, hi: nat, w: nat, p: nat, q: nat)
    requires SectorsOk(secs, lo, hi, w) && p < |secs| && q < |secs|
    ensures lo <= secs[p] < hi && lo <= secs[q] < hi && secs[p] != w && secs[q] != w
    ensures secs[p] == secs[q] ==> p == q
  {
    assert At(p) && At(q);
  }

  /** A sector lies in a run of the file exactly when it is held under an index of the run. */
  lemma InRun(secs: seq<int>, lo: nat, hi: nat, w: nat, held: int, sect: nat, q: nat, cc: nat)
    requires SectorsOk(secs, lo, hi, w) && 0 < lo && hi <= 0xFFFF_FFFF && 0 < cc && q + cc <= |secs|
    requires -1 <= held < |secs| && sect == if held >= 0 then secs[held] else 0
    requires forall j: nat {:trigger At(j)} :: At(j) && j < cc ==> secs[q + j] == secs[q] + j
    ensures (sect - secs[q]) % 0x1_0000_0000 < cc <==> held >= 0 && q <= held < q + cc
    ensures held >= 0 && q <= held < q + cc ==> (sect - secs[q]) % 0x1_0000_0000 == held - q
    ensures (sect - secs[q]) % 0x1_0000_0000 < cc <==> secs[q] <= sect < secs[q] + cc
  {
    var d, j := (sect - secs[q]) % 0x1_0000_0000, sect - secs[q];
    SectorFacts(secs, lo, hi, w, q, q + cc - 1);
    assert At(cc - 1);
    if held >= 0 {
      SectorFacts(secs, lo, hi, w, held, q);
    }
    if d < cc {
      WrappedOffset(sect, secs[q], d);
    }
    if 0 <= j < cc {
      assert At(j);
      WrappedOffset(sect, secs[q], j);
      SectorFacts(secs, lo, hi, w, if held >= 0 then held else q, q + j);
    }
    if held >= 0 && q <= held < q + cc {
      assert At(held - q);
      WrappedOffset(sect, secs[q], held - q);
    }
  }

  /** Another sector is changed in the cache, after the one held there before was clean. */
  lemma CopiedDataOk(secs: seq<int>, rest: seq<Sector>, held: int, buf: seq<byte>, data: seq<Sector>, q: nat, x: Sector)
    requires DataOk(secs, rest, held, buf, data) && q < |data|
    requires held == q || held < 0 || (held < |secs| && buf == Peek(rest, secs[held]))
    ensures DataOk(secs, rest, q, x, data[q := x])
  {
    forall p: nat | At(p) && p < |data| && p != q
      ensures data[p] == Peek(rest, secs[p])
    {
    }
  }

  /** A 32-bit difference of sector numbers is small exactly when it is a true offset. */
  lemma WrappedOffset(a: nat, b: nat, j: nat)
    requires a < 0xFFFF_FFFF && b + j < 0xFFFF_FFFF
    ensures (a - b) % 0x1_0000_0000 == j <==> a == b + j
  {
    if a < b {
      assert (a - b) % 0x1_0000_0000 == a - b + 0x1_0000_0000;
    }
  }

  /** A buffer of sectors with sector `d` replaced, as memcpy does it. */
  function Patch(raw: seq<byte>, d: nat, b: seq<byte>): seq<byte>
    requires |b| == 512 && 512 * d + 512 <= |raw|
  {
    raw[..512 * d] + b + raw[512 * d + 512..]
  }

  lemma PatchSectors(raw: seq<byte>, d: nat, b: seq<byte>, j: nat)
    requires |b| == 512 && 512 * d + 512 <= |raw| && 512 * j + 512 <= |raw|
    ensures Patch(raw, d, b)[512 * j..512 * j + 512] == if j == d then b else raw[512 * j..512 * j + 512]
  {
  }

  /** The sectors of a chain suit any window off the data area. */
  lemma ChainSectorsOk(fat: seq<nat>, chain: seq<nat>, base: nat, n: nat, hi: nat, w: nat)
    requires IsChain(fat, chain) && ClusterStart(base, n, |fat|) <= hi && (w < base || w >= hi)
    ensures SectorsOk(Sectors(base, n, chain), base, hi, w)
  {
    var secs := Sectors(base, n, chain);
    forall q: nat | At(q) && q < |secs|
      ensures base <= secs[q] < hi && secs[q] != w
    {
      SectorBounds(fat, chain, base, n, q);
    }
    forall p: nat, q: nat {:trigger At(p), At(q)} | At(p) && At(q) && p < q < |secs|
      ensures secs[p] != secs[q]
    {
      SectorsDistinct(fat, chain, base, n, p, q);
    }
  }

  /** A longer chain has the old sectors first. */
  lemma SectorsExtend(base: nat, n: nat, chain: seq<nat>, c: nat)
    ensures Sectors(base, n, chain) <= Sectors(base, n, chain + [c])
  {
    assert (chain + [c])[..|chain|] == chain;
  }

  /** The sectors of cluster `c` are not guarded. */
  ghost predicate Unguarded(guard: set<int>, base: nat, n: nat, c: nat) {
    forall j: nat {:trigger At(j)} :: At(j) && j < n ==> ClusterStart(base, n, c) + j !in guard
  }

  /** Neither the sectors of a file nor those of free clusters are guarded. */
  ghost predicate Apart(guard: set<int>, base: nat, n: nat, fat: seq<nat>, secs: seq<int>) {
    && (forall q: nat {:trigger At(q)} :: At(q) && q < |secs| ==> secs[q] !in guard)
    && (forall c: nat {:trigger Unguarded(guard, base, n, c)} :: InRange(fat, c) && fat[c] == 0 ==>
         Unguarded(guard, base, n, c))
  }

  /** No cluster of a file has a guarded FAT entry. */
  ghost predicate NotListed(links: set<nat>, chain: seq<nat>) {
    forall i: nat {:trigger At(i)} :: At(i) && i < |chain| ==> chain[i] !in links
  }

  lemma NotListedGrows(links: set<nat>, chain: seq<nat>, c: nat)
    requires NotListed(links, chain) && c !in links
    ensures NotListed(links, chain + [c])
  {
  }

  /** The sectors of a list of clusters, as a set. */
  ghost function SectorSet(base: nat, n: nat, chain: seq<nat>): set<int> {
    set q | 0 <= q < |Sectors(base, n, chain)| :: Sectors(base, n, chain)[q]
  }

  lemma InSectorSet(base: nat, n: nat, chain: seq<nat>, s: int) returns (i: nat, r: nat)
    requires s in SectorSet(base, n, chain)
    ensures i < |chain| && r < n && s == ClusterStart(base, n, chain[i]) + r
  {
    var q :| 0 <= q < |Sectors(base, n, chain)| && s == Sectors(base, n, chain)[q];
    i, r := Place(base, n, chain, q);
  }

  lemma ClustersApart(base: nat, n: nat, c: nat, i: nat, d: nat, j: nat)
    requires 2 <= c && 2 <= d && c != d && i < n && j < n
    ensures ClusterStart(base, n, c) + i != ClusterStart(base, n, d) + j
  {
    if c < d {
      StartBounds(base, n, c, i, d);
    } else {
      StartBounds(base, n, d, j, c);
    }
  }

  lemma NotInOther(base: nat, n: nat, fat: seq<nat>, other: seq<nat>, c: nat, r: nat)
    requires IsChain(fat, other) && c >= 2 && c !in other && r < n
    ensures ClusterStart(base, n, c) + r !in SectorSet(base, n, other)
  {
    var s := ClusterStart(base, n, c) + r;
    if s in SectorSet(base, n, other) {
      var j, t := InSectorSet(base, n, other, s);
      ChainMembers(fat, other, j);
      ClustersApart(base, n, c, r, other[j], t);
    }
  }

  lemma {:induction false} UsedInChain(fat: seq<nat>, ch: seq<nat>, c: nat)
    requires IsChain(fat, ch) && c in ch
    ensures InRange(fat, c) && fat[c] != 0
  {
    var i: nat :| i < |ch| && ch[i] == c;
    ChainMembers(fat, ch, i);
  }

  /** The sectors of another chain can be guarded: no file apart from it, and no free cluster, shares any of them. */
  lemma OthersApart(base: nat, n: nat, fat: seq<nat>, chain: seq<nat>, other: seq<nat>)
    requires IsChain(fat, other) && Disjoint(other, chain) && (chain != [] ==> IsChain(fat, chain))
    ensures Apart(SectorSet(base, n, other), base, n, fat, Sectors(base, n, chain))
  {
    var guard, secs := SectorSet(base, n, other), Sectors(base, n, chain);
    forall q: nat {:trigger At(q)} | At(q) && q < |secs|
      ensures secs[q] !in guard
    {
      var i, r := Place(base, n, chain, q);
      ChainMembers(fat, chain, i);
      NotInOther(base, n, fat, other, chain[i], r);
    }
    forall c: nat {:trigger Unguarded(guard, base, n, c)} | InRange(fat, c) && fat[c] == 0
      ensures Unguarded(guard, base, n, c)
    {
      FreeUnguarded(base, n, fat, other, c);
    }
  }

  lemma FreeUnguarded(base: nat, n: nat, fat: seq<nat>, other: seq<nat>, c: nat)
    requires IsChain(fat, other) && InRange(fat, c) && fat[c] == 0
    ensures Unguarded(SectorSet(base, n, other), base, n, c)
  {
    if c in other {
      UsedInChain(fat, other, c);
    }
    forall k: nat {:trigger At(k)} | At(k) && k < n
      ensures ClusterStart(base, n, c) + k !in SectorSet(base, n, other)
    {
      NotInOther(base, n, fat, other, c, k);
    }
  }

  lemma SectorSetBounds(base: nat, n: nat, fat: seq<nat>, other: seq<nat>, s: int)
    requires IsChain(fat, other) && s in SectorSet(base, n, other)
    ensures base <= s < ClusterStart(base, n, |fat|)
  {
    var j, t := InSectorSet(base, n, other, s);
    ChainMembers(fat, other, j);
    StartBounds(base, n, other[j], t, |fat|);
  }

  /** A file that grows by a free cluster stays apart from what is guarded. */
  lemma ApartGrows(guard: set<int>, base: nat, n: nat, fat: seq<nat>, fat': seq<nat>, chain: seq<nat>, c: nat)
    requires Apart(guard, base, n, fat, Sectors(base, n, chain)) && InRange(fat, c) && fat[c] == 0
    requires |fat'| == |fat| && forall d: nat :: InRange(fat, d) && fat'[d] == 0 ==> fat[d] == 0
    ensures Apart(guard, base, n, fat', Sectors(base, n, chain + [c]))
  {
    assert Unguarded(guard, base, n, c);
    var secs, secs' := Sectors(base, n, chain), Sectors(base, n, chain + [c]);
    assert (chain + [c])[..|chain|] == chain;
    assert secs' == secs + seq(n, i => ClusterStart(base, n, c) + i);
    forall q: nat | At(q) && q < |secs'|
      ensures secs'[q] !in guard
    {
      if q >= |secs| {
        assert At(q - |secs|);
      }
    }
  }

  /** The contents of a file whose list of sectors has grown. */
  ghost function GrownData(data: seq<Sector>, rest: seq<Sector>, secs: seq<int>): (r: seq<Sector>)
    requires |data| <= |secs|
    ensures data <= r && |r| == |secs|
  {
    var more := seq<Sector>(|secs| - |data|, j requires 0 <= j < |secs| - |data| => Peek(rest, secs[|data| + j]));
    data + more
  }

  lemma GrownDataOk(secs: seq<int>, secs': seq<int>, rest: seq<Sector>, held: int, buf: seq<byte>, data: seq<Sector>)
    requires DataOk(secs, rest, held, buf, data) && secs <= secs' && held < |secs|
    ensures DataOk(secs', rest, held, buf, GrownData(data, rest, secs'))
  {
  }

  lemma BytesKeptByGrowth(bytes: seq<byte>, data: seq<Sector>, data': seq<Sector>)
    requires BytesOk(bytes, data) && data <= data'
    ensures BytesOk(bytes, data')
  {
    forall k: nat | At(k) && k < |bytes|
      ensures bytes[k] == data'[k / 512][k % 512]
    {
      assert data[k / 512] == data'[k / 512];
    }
  }

  lemma OverwriteTwice(bytes: seq<byte>, p: nat, v: seq<byte>, w: seq<byte>)
    requires p <= |bytes|
    ensures p + |v| <= |Overwrite(bytes, p, v)|
    ensures Overwrite(Overwrite(bytes, p, v), p + |v|, w) == Overwrite(bytes, p, v + w)
  {
  }

  /** One more pass of a writing loop. */
  lemma OverwriteMore(bytes: seq<byte>, p: nat, w: seq<byte>, m: nat, n: nat)
    requires p <= |bytes| && m + n <= |w|
    ensures p + m <= |Overwrite(bytes, p, w[..m])|
    ensures Overwrite(Overwrite(bytes, p, w[..m]), p + m, w[m..][..n]) == Overwrite(bytes, p, w[..m + n])
  {
    OverwriteTwice(bytes, p, w[..m], w[m..][..n]);
    assert w[..m] + w[m..][..n] == w[..m + n];
  }

  /** A sector of a cluster of the chain is a sector of the file. */
  lemma SectorInFile(base: nat, n: nat, chain: seq<nat>, q: nat)
    requires n > 0 && Quot(q, n) < |chain|
    ensures q < |Sectors(base, n, chain)|
  {
    QuotRem(q, n);
    SectorOf(base, n, chain, Quot(q, n), Rem(q, n));
  }

  /** The contents after `cc` sectors from `q` on are replaced by those of `w`. */
  ghost function RunData(data: seq<Sector>, q: nat, cc: nat, w: seq<byte>): (r: seq<Sector>)
    requires q + cc <= |data| && |w| == 512 * cc
    ensures |r| == |data|
  {
    seq<Sector>(|data|, i requires 0 <= i < |data| => SectorAfterRun(data, q, cc, w, i))
  }

  function SectorAfterRun(data: seq<Sector>, q: nat, cc: nat, w: seq<byte>, i: nat): Sector
    requires q + cc <= |data| && |w| == 512 * cc && i < |data|
  {
    if q <= i < q + cc then ChunkAt(w, i - q) else data[i]
  }

  function ChunkAt(w: seq<byte>, j: nat): Sector
    requires 512 * j + 512 <= |w|
  {
    w[512 * j..512 * j + 512]
  }

  /** A direct write of a run: the sectors of the file change as the medium does. */
  lemma RunDataOk(secs: seq<int>, rest: seq<Sector>, rest': seq<Sector>, held: int, buf: seq<byte>, buf': seq<byte>,
                  data: seq<Sector>, q: nat, cc: nat, w: seq<byte>, lo: nat, hi: nat, v: nat)
    requires SectorsOk(secs, lo, hi, v) && DataOk(secs, rest, held, buf, data) && -1 <= held < |secs|
    requires 0 < cc && q + cc <= |secs| && |w| == 512 * cc && |rest'| == |rest| && hi <= |rest|
    requires forall j: nat {:trigger At(j)} :: At(j) && j < cc ==> secs[q + j] == secs[q] + j
    requires forall i: nat {:trigger At(i)} :: At(i) && i < |rest| && !(secs[q] <= i < secs[q] + cc) ==>
               rest'[i] == rest[i]
    requires forall j: nat {:trigger At(j)} :: At(j) && j < cc && 0 <= secs[q] + j < |rest| ==>
               rest'[secs[q] + j] == ChunkAt(w, j)
    requires held >= 0 && q <= held < q + cc ==> buf' == ChunkAt(w, held - q)
    requires held >= 0 && !(q <= held < q + cc) ==> buf' == buf
    requires held >= 0 ==> buf == Peek(rest, secs[held])
    ensures DataOk(secs, rest', held, buf', RunData(data, q, cc, w))
    ensures held >= 0 ==> buf' == Peek(rest', secs[held])
  {
    var data' := RunData(data, q, cc, w);
    if held >= 0 {
      assert At(held);
    }
    forall i: nat | At(i) && i < |data|
      ensures data'[i] == Peek(rest', secs[i])
    {
      OutsideRun(secs, lo, hi, v, q, cc, i);
      if q <= i < q + cc {
        assert At(i - q);
      } else {
        assert At(secs[i]);
      }
    }
  }

  /** The other sectors of a file lie outside the run. */
  lemma OutsideRun(secs: seq<int>, lo: nat, hi: nat, v: nat, q: nat, cc: nat, i: nat)
    requires SectorsOk(secs, lo, hi, v) && q + cc <= |secs| && i < |secs|
    requires forall j: nat {:trigger At(j)} :: At(j) && j < cc ==> secs[q + j] == secs[q] + j
    ensures lo <= secs[i] < hi && (!(q <= i < q + cc) && cc > 0 ==> !(secs[q] <= secs[i] < secs[q] + cc))
  {
    SectorFacts(secs, lo, hi, v, i, i);
    if cc > 0 && secs[q] <= secs[i] < secs[q] + cc {
      var j := secs[i] - secs[q];
      assert At(j);
      SectorFacts(secs, lo, hi, v, i, q + j);
    }
  }

  /** Whole sectors rewritten from sector `q` on: the byte array sees exactly those bytes. */
  lemma RunBytes(bytes: seq<byte>, data: seq<Sector>, q: nat, cc: nat, w: seq<byte>)
    requires BytesOk(bytes, data) && q + cc <= |data| && |w| == 512 * cc && 512 * q <= |bytes|
    ensures BytesOk(Overwrite(bytes, 512 * q, w), RunData(data, q, cc, w))
  {
    var r, data' := Overwrite(bytes, 512 * q, w), RunData(data, q, cc, w);
    forall k: nat | At(k) && k < |r|
      ensures r[k] == data'[k / 512][k % 512]
    {
      if 512 * q <= k < 512 * q + |w| {
        assert r[k] == w[k - 512 * q];
        assert data'[k / 512] == ChunkAt(w, k / 512 - q);
        assert 512 * (k / 512 - q) + k % 512 == k - 512 * q;
      } else {
        assert r[k] == bytes[k];
      }
    }
  }

  /** A byte array extended to `size` by what its sectors hold. */
  ghost function GrownBytes(bytes: seq<byte>, data: seq<Sector>, size: nat): (r: seq<byte>)
    requires |bytes| <= size <= 512 * |data|
    ensures bytes <= r && |r| == size
  {
    bytes +
    seq<byte>(size - |bytes|, k requires 0 <= k < size - |bytes| => data[(|bytes| + k) / 512][(|bytes| + k) % 512])
  }

  lemma GrownBytesOk(bytes: seq<byte>, data: seq<Sector>, size: nat)
    requires BytesOk(bytes, data) && |bytes| <= size <= 512 * |data|
    ensures BytesOk(GrownBytes(bytes, data, size), data)
  {
  }

  /** Byte `x` of a file lies in cluster `x / (512 * n)`. */
  lemma ClusterOfByte(x: nat, n: nat)
    requires n > 0
    ensures Quot(x / 512, n) == x / (512 * n)
    ensures x - x % (512 * n) == 512 * (n * Quot(x / 512, n))
  {
    var q := x / 512;
    QuotRem(q, n);
    var d, r := Quot(q, n), Rem(q, n);
    assert x == (512 * n) * d + (512 * r + x % 512) by {
      assert 512 * (n * d) == (512 * n) * d;
    }
    QuotUnique(x, 512 * n, d, 512 * r + x % 512);
    QuotRemAreDivMod(x, 512 * n);
  }

  /** Bytes inside one sector. */
  lemma BytesInSector(bytes: seq<byte>, data: seq<Sector>, q: nat, o: nat, n: nat)
    requires BytesOk(bytes, data) && o + n <= 512 && 512 * q + o + n <= |bytes| && q < |data|
    ensures bytes[512 * q + o..512 * q + o + n] == data[q][o..o + n]
  {
    var r, t := bytes[512 * q + o..512 * q + o + n], data[q][o..o + n];
    forall k: nat | k < n
      ensures r[k] == t[k]
    {
      assert At(512 * q + o + k);
      assert (512 * q + (o + k)) / 512 == q && (512 * q + (o + k)) % 512 == o + k;
    }
  }

  /** Byte and sector where a seek of `r` bytes from the start of cluster `ci` ends. */
  lemma SeekEnd(n: nat, ci: nat, start: nat, r: nat)
    requires n > 0 && 0 < r <= 512 * n && start == 512 * (n * ci)
    ensures Quot((start + r - 1) / 512, n) == ci
    ensures (start + r) / 512 == n * ci + r / 512 && start % 512 == 0 && (start + r) % 512 == r % 512
    ensures r % 512 != 0 ==> r / 512 < n
  {
    ByteInCluster(n, ci, r);
    AfterSectors(n * ci, r);
  }

  lemma AfterSectors(m: nat, r: nat)
    ensures (512 * m + r) / 512 == m + r / 512 && (512 * m) % 512 == 0 && (512 * m + r) % 512 == r % 512
  {
  }
}
