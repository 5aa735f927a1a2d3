/** The geometry f_mkfs chooses for a FAT12/16/32 volume, and what makes it sound. */
module FatLayout {
  import opened Bytes
  import opened FatCodec

  const MAX_FAT12 := 0xFF5
  const MAX_FAT16 := 0xFFF5
  const MAX_FAT32 := 0x0FFFFFF5

  /** Arithmetic on DWORD and 32-bit LBA_t: the remainder modulo 2^32, with one wrap-around spelt out. */
  function U32(x: int): (r: nat)
    ensures r < 0x1_0000_0000
  {
    if 0 <= x < 0x1_0000_0000 then x
    else if 0x1_0000_0000 <= x < 0x2_0000_0000 then x - 0x1_0000_0000
    else if -0x1_0000_0000 <= x < 0 then x + 0x1_0000_0000
    else x % 0x1_0000_0000
  }

  lemma U32IsRemainder(x: int)
    ensures U32(x) == x % 0x1_0000_0000
  {
  }

  /** Exactly one bit is set. */
  predicate PowerOfTwo(n: nat) {
    n == 1 || (n > 0 && n % 2 == 0 && PowerOfTwo(n / 2))
  }

  /** The sizes that a FAT boot record can hold as sectors per cluster. */
  predicate ClusterSize(n: nat) {
    n == 1 || n == 2 || n == 4 || n == 8 || n == 16 || n == 32 || n == 64 || n == 128
  }

  lemma {:induction false} SmallPowers(n: nat)
    requires n <= 128
    ensures PowerOfTwo(n) <==> ClusterSize(n)
  {
    if n > 1 {
      SmallPowers(n / 2);
    }
  }

  /** Bytes to sectors, nine halvings. */
  lemma HalvedNineTimes(n: nat)
    requires PowerOfTwo(n)
    ensures n / 512 == 0 || PowerOfTwo(n / 512)
  {
    var a := n / 2 / 2 / 2;
    var b := a / 2 / 2 / 2;
    assert a == n / 8 && b == n / 64 && b / 2 / 2 / 2 == n / 512;
    Halved3(n);
    if a > 0 {
      Halved3(a);
      if b > 0 {
        Halved3(b);
      }
    }
  }

  lemma Halved3(n: nat)
    requires PowerOfTwo(n)
    ensures n / 2 / 2 / 2 == 0 || PowerOfTwo(n / 2 / 2 / 2)
  {
    assert n / 2 == 0 || PowerOfTwo(n / 2);
    assert n / 2 / 2 == 0 || PowerOfTwo(n / 2 / 2);
  }

  /** The quotient of unsigned division by a cluster size. */
  function Div(a: nat, p: nat): nat
    requires ClusterSize(p)
  {
    if p == 1 then a else if p == 2 then a / 2 else if p == 4 then a / 4 else if p == 8 then a / 8
    else if p == 16 then a / 16 else if p == 32 then a / 32 else if p == 64 then a / 64 else a / 128
  }

  /** `x` with the bits below `blk` cleared. */
  function RoundDown(x: nat, blk: nat): nat
    requires PowerOfTwo(blk)
    decreases blk
  {
    if blk == 1 then x else 2 * RoundDown(x / 2, blk / 2)
  }

  /** The bits below `blk` are zero. */
  predicate Aligned(x: nat, blk: nat)
    requires PowerOfTwo(blk)
    decreases blk
  {
    blk == 1 || (x % 2 == 0 && Aligned(x / 2, blk / 2))
  }

  /**
   * FAT sub-type, cluster size, reserved sectors, FAT size, number of FATs, root entries, FAT base, number of clusters.
   */
  datatype Layout =
    Layout(fsty: FsType, pau: nat, rsv: nat, fat: nat, nFat: nat, nRoot: nat, fatBase: nat, clusters: nat)

  /** Sectors of `n` FATs, spelt out for one and two of them. */
  function AllFats(fat: nat, n: nat): nat {
    if n == 1 then fat else if n == 2 then fat + fat else fat * n
  }

  /** Sectors in front of the data area. */
  function SysSize(l: Layout): nat {
    l.rsv + AllFats(l.fat, l.nFat) + l.nRoot / 16
  }

  /** Bytes that `m` FAT entries take. */
  function FatBytes(ty: FsType, m: nat): nat {
    match ty
    case Fat12 => m * 3 / 2 + m % 2
    case Fat16 => m * 2
    case Fat32 => m * 4
    case ExFat => m * 4
  }

  /** The sub-type a mount derives from the number of clusters. */
  predicate TypeFits(ty: FsType, clusters: nat) {
    match ty
    case Fat12 => clusters <= MAX_FAT12
    case Fat16 => MAX_FAT12 < clusters <= MAX_FAT16
    case Fat32 => MAX_FAT16 < clusters <= MAX_FAT32
    case ExFat => false
  }

  predicate SizesFit(l: Layout, szVol: nat)
    requires ClusterSize(l.pau)
  {
    // no field is truncated
    && 1 <= l.rsv < 0x1_0000 && 1 <= l.fat < (if l.fsty == Fat32 then 0x100_0000 else 0x1_0000)
    // the volume holds everything, and the clusters are all there is room for
    && SysSize(l) <= szVol && l.clusters == Div(szVol - SysSize(l), l.pau)
    // a mount sees the same sub-type, and the FAT has an entry for every cluster
    && TypeFits(l.fsty, l.clusters) && FatBytes(l.fsty, l.clusters + 2) <= 512 * l.fat
  }

  /** What an accepted layout promises. */
  predicate Sound(l: Layout, szVol: nat, bVol: nat, szBlk: nat) {
    && ClusterSize(l.pau) && 1 <= l.nFat <= 2 && PowerOfTwo(szBlk)
    && (if l.fsty == Fat32 then l.nRoot == 0 else 1 <= l.nRoot <= 32768 && l.nRoot % 16 == 0)
    && SizesFit(l, szVol)
    && l.fatBase == U32(bVol + l.rsv)
    // the data area starts on an erase block
    && Aligned(U32(bVol + SysSize(l)), szBlk)
  }

  // ----- the numbers

  /** Sectors up to the next erase block boundary: rounding up, less `b`, in 32-bit arithmetic. */
  function Pad(b: nat, blk: nat): nat
    requires PowerOfTwo(blk)
  {
    U32(RoundDown(U32(b + blk - 1), blk) - b)
  }

  lemma {:induction false} RoundedDown(x: nat, blk: nat)
    requires PowerOfTwo(blk)
    ensures RoundDown(x, blk) <= x < RoundDown(x, blk) + blk && Aligned(RoundDown(x, blk), blk)
    ensures x < blk ==> RoundDown(x, blk) == 0
    decreases blk
  {
    if blk > 1 {
      var h, half := x / 2, blk / 2;
      assert (x == 2 * h || x == 2 * h + 1) && blk == 2 * half;
      RoundedDown(h, half);
      var y := RoundDown(h, half);
      assert RoundDown(x, blk) == 2 * y && 2 * y / 2 == y && 2 * y % 2 == 0;
    }
  }

  /** The padding is less than a block and reaches a block boundary, also when the addresses wrap around. */
  lemma PadAligns(b: nat, blk: nat)
    requires b < 0x1_0000_0000 && PowerOfTwo(blk) && blk <= 0x8000
    ensures Pad(b, blk) < blk <= 0x8000 && Aligned(U32(b + Pad(b, blk)), blk)
  {
    RoundedDown(U32(b + blk - 1), blk);
    WrapUp(b, blk, RoundDown(U32(b + blk - 1), blk));
  }

  lemma WrapUp(b: nat, blk: nat, down: nat)
    requires b < 0x1_0000_0000 && 0 < blk <= 0x8000 && down <= U32(b + blk - 1) < down + blk
    requires U32(b + blk - 1) < blk ==> down == 0
    ensures U32(down - b) < blk && U32(b + U32(down - b)) == down
  {
    if b + blk - 1 < 0x1_0000_0000 {
      assert U32(down - b) == down - b;
    } else {
      assert down == 0 && U32(0 - b) == 0x1_0000_0000 - b;
    }
  }

  /** Sums that agree up to wrap-around lead to the same address. */
  lemma SameAddress(b: nat, pre: nat, n: nat)
    ensures U32(U32(b + pre) + n) == U32(b + (pre + n))
  {
    U32IsRemainder(b + pre);
    U32IsRemainder(U32(b + pre) + n);
    U32IsRemainder(b + (pre + n));
  }

  /** A wrapped difference is far too many clusters for FAT12 and FAT16. */
  lemma WrappedTooMany(szVol: nat, sys: nat, p: nat)
    requires szVol < 0x1_0000_0000 && sys < 0x200_0000 && ClusterSize(p)
    ensures Div(U32(szVol - sys), p) <= MAX_FAT16 ==> sys <= szVol
  {
  }

  /** For a FAT16 result the first estimate was small too, so nothing wrapped around. */
  lemma EstimateSmall(szVol: nat, sys: nat, p: nat)
    requires ClusterSize(p) && sys <= szVol && Div(szVol - sys, p) <= MAX_FAT16
    ensures Div(szVol, p) <= MAX_FAT16 + 1 + sys
  {
  }

  lemma DivMono(a: nat, b: nat, p: nat)
    requires ClusterSize(p) && a <= b
    ensures Div(a, p) <= Div(b, p) <= b
  {
  }

  /** FAT size in sectors for `n` clusters, before padding, in DWORD arithmetic. */
  function Fat16Sectors(n: nat): nat {
    U32(U32(n * 2 + 4) + 511) / 512
  }

  function Fat12Sectors(n: nat): nat {
    ((n * 3 + 1) / 2 + 3 + 511) / 512
  }

  function Fat32Sectors(n: nat): nat {
    U32(n * 4 + 8 + 511) / 512
  }

  // ----- the choice

  /** Cluster size boundaries, in units of 4K sectors for FAT12/16 and 128K sectors for FAT32. */
  const CST: seq<nat> := [1, 4, 16, 64, 256, 512, 0]
  const CST32: seq<nat> := [1, 2, 4, 8, 16, 32, 0]

  /** The choice of the cluster size from a table: it is doubled once for every boundary reached. */
  method AutoSelect(cst: seq<nat>, n: nat) returns (pau: nat)
    requires cst == CST || cst == CST32
    ensures ClusterSize(pau) && pau <= 64
    ensures forall j :: 0 <= j < 6 ==> (cst[j] <= n <==> Pow2(j) < pau)
  {
    var i := 0;
    pau := 1;
    while cst[i] != 0 && cst[i] <= n
      invariant 0 <= i <= 6 && pau == [1, 2, 4, 8, 16, 32, 64][i]
      invariant i > 0 ==> cst[i - 1] <= n
      decreases 6 - i
    {
      i, pau := i + 1, pau * 2;
    }
    assert Pow2(0) == 1 && Pow2(1) == 2 && Pow2(2) == 4 && Pow2(3) == 8 && Pow2(4) == 16 && Pow2(5) == 32;
  }

  /** The first cluster size that is tried for FAT12/16, when none is given. */
  function AutoSize(szVol: nat): (p: nat)
    ensures ClusterSize(p)
  {
    var n := szVol / 0x1000;
    if n < 1 then 1 else if n < 4 then 2 else if n < 16 then 4 else if n < 64 then 8
    else if n < 256 then 16 else if n < 512 then 32 else 64
  }

  lemma SelectsAutoSize(szVol: nat, pau: nat)
    requires ClusterSize(pau) && pau <= 64
    requires forall j :: 0 <= j < 6 ==> (CST[j] <= szVol / 0x1000 <==> Pow2(j) < pau)
    ensures pau == AutoSize(szVol)
  {
    assert Pow2(0) == 1 && Pow2(1) == 2 && Pow2(2) == 4 && Pow2(3) == 8 && Pow2(4) == 16 && Pow2(5) == 32;
    assert CST[0] == 1 && CST[1] == 4 && CST[2] == 16 && CST[3] == 64 && CST[4] == 256 && CST[5] == 512;
  }

  /**
   * The cluster size of a FAT12 volume, when none is given: the first one tried, or twice that if FAT16 was tried
   * first.
   */
  function Fat12AutoSize(szVol: nat): nat {
    var p := AutoSize(szVol);
    if Div(szVol, p) <= MAX_FAT12 then p else 2 * p
  }

  datatype Outcome = Accept(l: Layout) | Abort | Retry(fsty: FsType, szAu: nat)

  /** How many more times the choice can be retried. */
  function Retries(fsty: FsType, szAu: nat): nat {
    (if fsty == Fat32 then 0 else 1) + (if szAu == 0 then 1 else 0)
  }

  /** The validity checks at the end of an attempt, on the final number of clusters. */
  method Check(l: Layout, szAu0: nat, fat32: bool) returns (o: Outcome)
    requires ClusterSize(l.pau) && (szAu0 != 0 ==> szAu0 == l.pau)
    ensures o.Accept? ==> o.l == l
    ensures o.Accept? <==> match l.fsty
                           case Fat32 => MAX_FAT16 < l.clusters
                           case Fat16 => MAX_FAT12 < l.clusters <= MAX_FAT16
                           case Fat12 => l.clusters <= MAX_FAT12
                           case ExFat => true
    ensures o.Retry? ==> Retries(o.fsty, o.szAu) < Retries(l.fsty, szAu0) && (o.szAu == 0 || ClusterSize(o.szAu))
    ensures o.Retry? ==> l.fsty != Fat12 && (szAu0 != 0 ==> o.szAu == szAu0)
    ensures o.Retry? ==> o.fsty == l.fsty || (fat32 && o.fsty == Fat32)
    ensures o.Retry? && szAu0 == 0 && o.fsty == Fat16 ==> o.szAu == 2 * l.pau
  {
    var szAu, pau := szAu0, l.pau;
    if l.fsty == Fat32 {
      if l.clusters <= MAX_FAT16 {
        if szAu == 0 {
          szAu := pau / 2;
          if szAu != 0 {
            return Retry(Fat32, szAu);
          }
        }
        return Abort;
      }
    }
    if l.fsty == Fat16 {
      if l.clusters > MAX_FAT16 {
        if szAu == 0 && pau * 2 <= 64 {
          return Retry(Fat16, pau * 2);
        }
        if fat32 {
          return Retry(Fat32, szAu);
        }
        if szAu == 0 {
          szAu := pau * 2;
          if szAu <= 128 {
            return Retry(Fat16, szAu);
          }
        }
        return Abort;
      }
      if l.clusters <= MAX_FAT12 {
        if szAu == 0 {
          szAu := pau * 2;
          if szAu <= 128 {
            return Retry(Fat16, szAu);
          }
        }
        return Abort;
      }
    }
    if l.fsty == Fat12 && l.clusters > MAX_FAT12 {
      return Abort;
    }
    return Accept(l);
  }

  /** Sub-type, cluster size, FAT size, reserved sectors and root directory sectors, from the volume size alone. */
  method FirstEstimate(fsty0: FsType, szAu: nat, szVol: nat, nRoot: nat)
    returns (ok: bool, fsty: FsType, pau: nat, fat: nat, rsv: nat, dir: nat)
    requires (fsty0 == Fat16 || fsty0 == Fat32) && (szAu == 0 || ClusterSize(szAu)) && nRoot % 16 == 0
    ensures ClusterSize(pau) && (szAu != 0 ==> pau == szAu)
    ensures ok ==> Estimate(fsty, Div(szVol, pau), fat)
    ensures fsty == Fat12 ==> fat == Fat12Sectors(Div(szVol, pau))
    ensures fsty0 == Fat16 ==> ok && (fsty == Fat12 <==> Div(szVol, pau) <= MAX_FAT12)
    ensures fsty0 == Fat16 && szAu == 0 ==> pau == AutoSize(szVol)
    ensures fat <= 0x80_0000
    ensures if fsty0 == Fat32 then fsty == Fat32 && rsv == 32 && dir == 0
            else (fsty == Fat16 || fsty == Fat12) && rsv == 1 && dir == nRoot / 16
  {
    fsty, pau := fsty0, szAu;
    if fsty == Fat32 {
      if pau == 0 {
        pau := AutoSelect(CST32, szVol / 0x20000);
      }
      var nClst := Div(szVol, pau);
      fat, rsv, dir := Fat32Sectors(nClst), 32, 0;
      ok := !(nClst <= MAX_FAT16 || nClst > MAX_FAT32);
    } else {
      if pau == 0 {
        pau := AutoSelect(CST, szVol / 0x1000);
        SelectsAutoSize(szVol, pau);
      }
      var nClst := Div(szVol, pau);
      if nClst > MAX_FAT12 {
        fat := Fat16Sectors(nClst);
      } else {
        fsty := Fat12;
        fat := Fat12Sectors(nClst);
      }
      ok, rsv, dir := true, 1, nRoot * 32 / 512;
    }
  }

  /** Spend the padding `n` in front of the data area. */
  method Align(fsty: FsType, rsv0: nat, fat0: nat, nFat: nat, bFat0: nat, pad: nat)
    returns (rsv: nat, fat: nat, bFat: nat)
    requires 1 <= nFat <= 2 && fsty != ExFat && rsv0 == (if fsty == Fat32 then 32 else 1)
    ensures Shape(fsty, nFat, rsv, fat, fat0, pad)
    ensures bFat == U32(bFat0 + (rsv - rsv0)) && rsv0 <= rsv
  {
    var n := pad;
    rsv, fat, bFat := rsv0, fat0, U32(bFat0);
    if fsty == Fat32 {
      rsv, bFat := rsv + n, U32(bFat0 + n);
    } else {
      if n % nFat != 0 {
        n, rsv, bFat := n - 1, rsv + 1, U32(bFat0 + 1);
      }
      fat := fat + n / nFat;
    }
  }

  /** Align the data area and count the clusters that are left. */
  method Place(fsty: FsType, pau: nat, fat0: nat, rsv0: nat, dir: nat, szVol: nat, bVol: nat, szBlk: nat, nFat: nat,
               nRoot: nat)
    returns (ok: bool, l: Layout, ghost sys: nat, ghost pad: nat)
    requires fsty != ExFat && ClusterSize(pau) && 1 <= nFat <= 2 && nRoot % 16 == 0
    requires if fsty == Fat32 then rsv0 == 32 && dir == 0 else rsv0 == 1 && dir == nRoot / 16
    requires szVol < 0x1_0000_0000 && PowerOfTwo(szBlk) && szBlk <= 0x8000
    requires fat0 <= 0x80_0000 && nRoot <= 32768
    ensures l.fsty == fsty && l.pau == pau && l.nFat == nFat && l.nRoot == (if fsty == Fat32 then 0 else nRoot)
    ensures Placed(l, szVol, bVol, szBlk, fat0, pad)
    ensures sys == rsv0 + (AllFats(fat0, nFat) + dir) && Padded(bVol, szBlk, sys, pad)
    ensures ok <==> szVol >= sys + pau * 16
  {
    var bFat0 := U32(bVol + rsv0);
    var bData, n := DataPadding(bVol, rsv0, bFat0, AllFats(fat0, nFat) + dir, szBlk);
    var rsv, fat, bFat := Align(fsty, rsv0, fat0, nFat, bFat0, n);
    assert rsv0 + (AllFats(fat0, nFat) + dir) <= 0x100_1000 && pau * 16 <= 2048;
    ok := HasRoom(bVol, rsv0 + (AllFats(fat0, nFat) + dir), bData, pau * 16, szVol);
    sys, pad := rsv0 + (AllFats(fat0, nFat) + dir), n;
    l := Count(fsty, pau, rsv, fat, dir, szVol, nFat, nRoot, bFat);
    WherePlaced(l, szVol, bVol, szBlk, fat0, n, rsv0, AllFats(fat0, nFat) + dir);
  }

  /** Sectors that align a data area behind `sys` sectors; to be looked into only where Unlock(...) is asserted. */
  ghost predicate Padded(bVol: nat, szBlk: nat, sys: nat, pad: nat)
    requires PowerOfTwo(szBlk)
  {
    forall i {:trigger Unlock(i)} :: Unlock(i) ==> pad == Pad(U32(bVol + sys), szBlk)
  }

  lemma PaddedAligns(bVol: nat, szBlk: nat, sys: nat, pad: nat)
    requires PowerOfTwo(szBlk) && szBlk <= 0x8000 && Padded(bVol, szBlk, sys, pad)
    ensures Aligned(U32(U32(bVol + sys) + pad), szBlk)
  {
    assert Unlock(0);
    PadAligns(U32(bVol + sys), szBlk);
  }

  /** The data base before it is aligned, and the sectors to the next erase block. */
  method DataPadding(bVol: nat, rsv0: nat, bFat0: nat, sysFats: nat, szBlk: nat) returns (bData: nat, n: nat)
    requires bFat0 == U32(bVol + rsv0) && PowerOfTwo(szBlk) && szBlk <= 0x8000
    ensures bData == U32(bVol + (rsv0 + sysFats)) && n < 0x8000 && Padded(bVol, szBlk, rsv0 + sysFats, n)
  {
    bData := U32(bFat0 + sysFats);
    SameAddress(bVol, rsv0, sysFats);
    n := Pad(bData, szBlk);
    PadAligns(bData, szBlk);
  }

  /** The check that the volume has room for 16 clusters behind the system area. */
  method HasRoom(bVol: nat, sys: nat, bData: nat, room: nat, szVol: nat) returns (ok: bool)
    requires bData == U32(bVol + sys) && sys + room < 0x1_0000_0000
    ensures ok <==> szVol >= sys + room
  {
    U32IsRemainder(bVol + sys);
    U32IsRemainder(bData + room - bVol);
    ok := szVol >= U32(bData + room - bVol);
  }

  method Count(fsty: FsType, pau: nat, rsv: nat, fat: nat, dir: nat, szVol: nat, nFat: nat, nRoot: nat, bFat: nat)
    returns (l: Layout)
    requires ClusterSize(pau) && dir == (if fsty == Fat32 then 0 else nRoot / 16)
    ensures l == Layout(fsty, pau, rsv, fat, nFat, if fsty == Fat32 then 0 else nRoot, bFat,
                        Div(U32(szVol - SysSize(l)), pau))
  {
    var nClst := Div(U32(szVol - rsv - AllFats(fat, nFat) - dir), pau);
    l := Layout(fsty, pau, rsv, fat, nFat, if fsty == Fat32 then 0 else nRoot, bFat, nClst);
  }

  /** Room for 16 clusters behind `sys` sectors, and for the padding that aligns the data area. */
  predicate Fat12Possible(szVol: nat, bVol: nat, szBlk: nat, pau: nat, sys: nat)
    requires PowerOfTwo(szBlk)
  {
    sys + pau * 16 <= szVol && sys + Pad(U32(bVol + sys), szBlk) <= szVol
  }

  /** Sectors in front of the data area of a FAT12 volume before it is aligned. */
  function Fat12System(szVol: nat, pau: nat, nFat: nat, nRoot: nat): nat
    requires ClusterSize(pau)
  {
    1 + AllFats(Fat12Sectors(Div(szVol, pau)), nFat) + nRoot / 16
  }

  /** A FAT12 volume in which aligning the data area leaves less than a cluster. */
  predicate NoCluster(szVol: nat, bVol: nat, szBlk: nat, pau: nat, nFat: nat, nRoot: nat)
    requires ClusterSize(pau) && PowerOfTwo(szBlk)
  {
    var sys := Fat12System(szVol, pau, nFat, nRoot);
    Div(szVol, pau) <= MAX_FAT12 && szVol < sys + Pad(U32(bVol + sys), szBlk) + pau
  }

  /** One pass of the loop that settles sub-type, cluster size and FAT size. */
  method Attempt(fsty0: FsType, szAu: nat, szVol: nat, bVol: nat, szBlk: nat, nFat: nat, nRoot: nat, fat32: bool)
    returns (o: Outcome)
    requires (fsty0 == Fat16 || fsty0 == Fat32) && (szAu == 0 || ClusterSize(szAu))
    requires szVol < 0x1_0000_0000 && PowerOfTwo(szBlk) && szBlk <= 0x8000
    requires 1 <= nFat <= 2 && 1 <= nRoot <= 32768 && nRoot % 16 == 0
    ensures o.Accept? ==> Sound(o.l, szVol, bVol, szBlk) && o.l.nFat == nFat && (szAu != 0 ==> o.l.pau == szAu)
    ensures o.Accept? ==> (if fsty0 == Fat32 then o.l.fsty == Fat32 else o.l.fsty != Fat32 && o.l.nRoot == nRoot)
    ensures o.Retry? ==> (o.fsty == Fat16 || o.fsty == Fat32) && Retries(o.fsty, o.szAu) < Retries(fsty0, szAu)
    ensures o.Retry? ==> (o.szAu == 0 || ClusterSize(o.szAu)) && (szAu != 0 ==> o.szAu == szAu)
    ensures o.Retry? ==> o.fsty == fsty0 || (fat32 && o.fsty == Fat32)
    // too small for FAT16: a FAT12 volume, exactly if the system area leaves room for 16 clusters before it is aligned
    ensures fsty0 == Fat16 && szAu != 0 && Div(szVol, szAu) <= MAX_FAT12 ==>
              && !o.Retry?
              && (o.Accept? <==> Fat12Possible(szVol, bVol, szBlk, szAu, Fat12System(szVol, szAu, nFat, nRoot)))
    ensures o.Accept? ==> (o.l.clusters == 0 <==> NoCluster(szVol, bVol, szBlk, o.l.pau, nFat, nRoot))
    // without a given cluster size it is the table's, and doubled for another attempt
    ensures fsty0 == Fat16 && szAu == 0 && o.Retry? && o.fsty == Fat16 ==>
              o.szAu == 2 * AutoSize(szVol) && Div(szVol, AutoSize(szVol)) > MAX_FAT12
    ensures fsty0 == Fat16 && szAu == 0 && o.Accept? ==> o.l.pau == AutoSize(szVol)
    ensures o.Accept? && o.l.fsty == Fat12 ==> Div(szVol, o.l.pau) <= MAX_FAT12
  {
    var ok, fsty, pau, fat0, rsv0, dir := FirstEstimate(fsty0, szAu, szVol, nRoot);
    if !ok {
      return Abort;
    }
    ghost var sys, pad;
    o, sys, pad := Finish(fsty, szAu, pau, fat0, rsv0, dir, szVol, bVol, szBlk, nFat, nRoot, fat32);
    if fsty == Fat12 {
      Fat12Plain(o, szVol, bVol, szBlk, pau, nFat, nRoot, sys, pad);
    } else {
      assert Div(szVol, pau) > MAX_FAT12 by { assert Unlock(0); }
      if o.Accept? {
        HasClusters(o.l, szVol, bVol, szBlk, nFat, nRoot);
      }
    }
  }

  /** A layout of another sub-type has clusters. */
  lemma HasClusters(l: Layout, szVol: nat, bVol: nat, szBlk: nat, nFat: nat, nRoot: nat)
    requires Sound(l, szVol, bVol, szBlk) && l.fsty != Fat12 && Div(szVol, l.pau) > MAX_FAT12
    ensures l.clusters != 0 && !NoCluster(szVol, bVol, szBlk, l.pau, nFat, nRoot)
  {
  }

  lemma Fat12Plain(o: Outcome, szVol: nat, bVol: nat, szBlk: nat, pau: nat, nFat: nat, nRoot: nat, sys: nat, pad: nat)
    requires ClusterSize(pau) && PowerOfTwo(szBlk) && Div(szVol, pau) <= MAX_FAT12
    requires sys == Fat12System(szVol, pau, nFat, nRoot)
    requires Padded(bVol, szBlk, sys, pad) && Fat12Exact(o, szVol, pau, sys, pad)
    ensures o.Accept? <==> Fat12Possible(szVol, bVol, szBlk, pau, Fat12System(szVol, pau, nFat, nRoot))
    ensures o.Accept? ==> (o.l.clusters == 0 <==> NoCluster(szVol, bVol, szBlk, pau, nFat, nRoot))
  {
    assert Unlock(0);
  }

  /** The rest of a pass, from the estimated FAT size on. */
  method Finish(fsty: FsType, szAu: nat, pau: nat, fat0: nat, rsv0: nat, dir: nat, szVol: nat, bVol: nat, szBlk: nat,
                nFat: nat, nRoot: nat, fat32: bool)
    returns (o: Outcome, ghost sys: nat, ghost pad: nat)
    requires ClusterSize(pau) && (szAu != 0 ==> szAu == pau) && szVol < 0x1_0000_0000 && PowerOfTwo(szBlk)
    requires szBlk <= 0x8000
    requires 1 <= nFat <= 2 && 1 <= nRoot <= 32768 && nRoot % 16 == 0 && fat0 <= 0x80_0000
    requires Estimate(fsty, Div(szVol, pau), fat0) && fsty != ExFat
    requires fsty == Fat12 ==> Div(szVol, pau) <= MAX_FAT12 && fat0 == Fat12Sectors(Div(szVol, pau))
    requires if fsty == Fat32 then rsv0 == 32 && dir == 0 else rsv0 == 1 && dir == nRoot / 16
    ensures o.Accept? ==> Sound(o.l, szVol, bVol, szBlk) && o.l.nFat == nFat && o.l.pau == pau && o.l.fsty == fsty
    ensures o.Accept? && fsty != Fat32 ==> o.l.nRoot == nRoot
    ensures o.Retry? ==> (o.fsty == fsty || (fat32 && o.fsty == Fat32)) && Retries(o.fsty, o.szAu) < Retries(fsty, szAu)
    ensures o.Retry? ==> fsty != Fat12 && (o.szAu == 0 || ClusterSize(o.szAu)) && (szAu != 0 ==> o.szAu == szAu)
    ensures o.Retry? && szAu == 0 && o.fsty == Fat16 ==> o.szAu == 2 * pau
    ensures fsty == Fat12 ==>
              && sys == 1 + AllFats(fat0, nFat) + nRoot / 16
              && Padded(bVol, szBlk, sys, pad) && Fat12Exact(o, szVol, pau, sys, pad)
  {
    var enough, l;
    enough, l, sys, pad := Place(fsty, pau, fat0, rsv0, dir, szVol, bVol, szBlk, nFat, nRoot);
    o := Abort;
    if enough {
      o := Decide(l, szAu, szVol, bVol, szBlk, fat0, pad, fat32);
    }
    if fsty == Fat12 {
      PlacedFat12(l, szVol, bVol, szBlk, fat0, sys, pad);
      Fat12Decided(o, enough, l.clusters, szVol, pau, sys, pad);
    }
  }

  /** When a FAT12 layout is accepted, and when it has no cluster, from the system area and the padding behind it. */
  ghost predicate Fat12Exact(o: Outcome, szVol: nat, pau: nat, sys: nat, pad: nat) {
    forall i {:trigger Unlock(i)} :: Unlock(i) ==>
      && (o.Accept? <==> sys + pau * 16 <= szVol && sys + pad <= szVol)
      && (o.Accept? ==> (o.l.clusters == 0 <==> szVol < sys + pad + pau))
  }

  /** The checks on a layout that leaves room for its clusters. */
  method Decide(l: Layout, szAu: nat, szVol: nat, bVol: nat, szBlk: nat, fat0: nat, ghost pad: nat, fat32: bool)
    returns (o: Outcome)
    requires szVol < 0x1_0000_0000 && ClusterSize(l.pau) && 1 <= l.nFat <= 2 && PowerOfTwo(szBlk)
    requires (szAu != 0 ==> szAu == l.pau)
    requires if l.fsty == Fat32 then l.nRoot == 0 else l.nRoot % 16 == 0 && 1 <= l.nRoot <= 32768
    requires Placed(l, szVol, bVol, szBlk, fat0, pad) && Estimate(l.fsty, Div(szVol, l.pau), fat0) && l.fsty != ExFat
    ensures o.Accept? ==> o.l == l && Sound(l, szVol, bVol, szBlk)
    ensures l.fsty == Fat12 ==> (o.Accept? <==> l.clusters <= MAX_FAT12)
    ensures o.Retry? ==>
              (o.fsty == l.fsty || (fat32 && o.fsty == Fat32)) && Retries(o.fsty, o.szAu) < Retries(l.fsty, szAu)
    ensures o.Retry? ==> l.fsty != Fat12 && (o.szAu == 0 || ClusterSize(o.szAu)) && (szAu != 0 ==> o.szAu == szAu)
    ensures o.Retry? && szAu == 0 && o.fsty == Fat16 ==> o.szAu == 2 * l.pau
  {
    o := Check(l, szAu, fat32);
    if o.Accept? {
      SoundLayout(l, szVol, bVol, szBlk, fat0, pad);
    }
  }

  lemma LessThanOne(a: nat, p: nat)
    requires ClusterSize(p)
    ensures Div(a, p) == 0 <==> a < p
  {
  }

  /** A layout as it is before the final checks: `pad` sectors were added to align the data area. */
  ghost predicate Placed(l: Layout, szVol: nat, bVol: nat, szBlk: nat, fat0: nat, pad: nat)
    requires ClusterSize(l.pau) && PowerOfTwo(szBlk)
  {
    forall i {:trigger Unlock(i)} :: Unlock(i) ==> PlacedSo(l, szVol, bVol, szBlk, fat0, pad)
  }

  predicate PlacedSo(l: Layout, szVol: nat, bVol: nat, szBlk: nat, fat0: nat, pad: nat)
    requires ClusterSize(l.pau) && PowerOfTwo(szBlk)
  {
    && Shape(l.fsty, l.nFat, l.rsv, l.fat, fat0, pad) && pad < 0x8000
    && l.clusters == Div(U32(szVol - SysSize(l)), l.pau) && l.fatBase == U32(bVol + l.rsv)
    && Aligned(U32(bVol + SysSize(l)), szBlk)
  }

  lemma PlacedFacts(l: Layout, szVol: nat, bVol: nat, szBlk: nat, fat0: nat, pad: nat)
    requires ClusterSize(l.pau) && PowerOfTwo(szBlk) && Placed(l, szVol, bVol, szBlk, fat0, pad)
    ensures PlacedSo(l, szVol, bVol, szBlk, fat0, pad)
  {
    assert Unlock(0);
  }

  /** Where the padding leaves the FAT and the data area. */
  lemma WherePlaced(l: Layout, szVol: nat, bVol: nat, szBlk: nat, fat0: nat, pad: nat, rsv0: nat, sysFats: nat)
    requires 1 <= l.nFat <= 2 && l.fsty != ExFat && Shape(l.fsty, l.nFat, l.rsv, l.fat, fat0, pad) && pad < 0x8000
    requires ClusterSize(l.pau) && PowerOfTwo(szBlk) && rsv0 == (if l.fsty == Fat32 then 32 else 1)
    requires sysFats == AllFats(fat0, l.nFat) + l.nRoot / 16
    requires Padded(bVol, szBlk, rsv0 + sysFats, pad) && szBlk <= 0x8000
    requires rsv0 <= l.rsv && l.fatBase == U32(U32(bVol + rsv0) + (l.rsv - rsv0))
    requires l.clusters == Div(U32(szVol - SysSize(l)), l.pau)
    ensures Placed(l, szVol, bVol, szBlk, fat0, pad)
  {
    SystemSize(l, fat0, pad);
    PaddedAligns(bVol, szBlk, rsv0 + sysFats, pad);
    SameAddress(bVol, rsv0 + sysFats, pad);
    SameAddress(bVol, rsv0, l.rsv - rsv0);
    assert bVol + (rsv0 + sysFats + pad) == bVol + SysSize(l);
  }

  /** An attempt whose final number of clusters passes the checks is sound. */
  lemma SoundLayout(l: Layout, szVol: nat, bVol: nat, szBlk: nat, fat0: nat, pad: nat)
    requires szVol < 0x1_0000_0000 && ClusterSize(l.pau) && 1 <= l.nFat <= 2 && PowerOfTwo(szBlk)
    requires if l.fsty == Fat32 then l.nRoot == 0 else l.nRoot % 16 == 0 && 1 <= l.nRoot <= 32768
    requires Placed(l, szVol, bVol, szBlk, fat0, pad) && Estimate(l.fsty, Div(szVol, l.pau), fat0)
    requires match l.fsty
             case Fat32 => MAX_FAT16 < l.clusters
             case Fat16 => MAX_FAT12 < l.clusters <= MAX_FAT16
             case Fat12 => l.clusters <= MAX_FAT12
             case ExFat => false
    ensures Sound(l, szVol, bVol, szBlk)
  {
    PlacedFacts(l, szVol, bVol, szBlk, fat0, pad);
    SystemSize(l, fat0, pad);
    EnoughSpace(l, szVol, fat0, pad);
  }

  lemma EnoughSpace(l: Layout, szVol: nat, fat0: nat, pad: nat)
    requires szVol < 0x1_0000_0000 && ClusterSize(l.pau) && 1 <= l.nFat <= 2 && pad < 0x8000 && l.nRoot <= 32768
    requires Shape(l.fsty, l.nFat, l.rsv, l.fat, fat0, pad) && Estimate(l.fsty, Div(szVol, l.pau), fat0)
    requires l.clusters == Div(U32(szVol - SysSize(l)), l.pau)
    requires SysSize(l) == (if l.fsty == Fat32 then 32 else 1) + AllFats(fat0, l.nFat) + l.nRoot / 16 + pad
    requires l.fsty == Fat32 ==> l.nRoot == 0
    requires match l.fsty
             case Fat32 => MAX_FAT16 < l.clusters
             case Fat16 => MAX_FAT12 < l.clusters <= MAX_FAT16
             case Fat12 => l.clusters <= MAX_FAT12
             case ExFat => false
    ensures SizesFit(l, szVol)
  {
    match l.fsty {
      case Fat32 => Fat32Space(l, szVol, fat0, pad);
      case Fat16 => Fat16Space(l, szVol, fat0, pad);
      case Fat12 => Fat12Space(l, szVol, fat0, pad);
    }
  }

  lemma Fat32Space(l: Layout, szVol: nat, fat0: nat, pad: nat)
    requires szVol < 0x1_0000_0000 && ClusterSize(l.pau) && pad < 0x8000 && l.fsty == Fat32 && MAX_FAT16 < l.clusters
    requires l.rsv == 32 + pad && l.fat == fat0 && Estimate(Fat32, Div(szVol, l.pau), fat0)
    requires l.clusters == Div(U32(szVol - SysSize(l)), l.pau) && SysSize(l) <= 32 + 2 * fat0 + pad
    ensures SizesFit(l, szVol)
  {
    Fat32Fits(szVol, l.pau, Div(szVol, l.pau), fat0, SysSize(l));
    NoWrap(szVol - SysSize(l));
  }

  lemma Fat16Space(l: Layout, szVol: nat, fat0: nat, pad: nat)
    requires szVol < 0x1_0000_0000 && ClusterSize(l.pau) && pad < 0x8000 && l.fsty == Fat16
    requires MAX_FAT12 < l.clusters <= MAX_FAT16
    requires 1 <= l.rsv <= 2 && fat0 <= l.fat <= fat0 + pad && Estimate(Fat16, Div(szVol, l.pau), fat0)
    requires l.clusters == Div(U32(szVol - SysSize(l)), l.pau) && SysSize(l) <= 1 + 2 * fat0 + 2048 + pad
    ensures SizesFit(l, szVol)
  {
    Fat16Fits(szVol, l.pau, Div(szVol, l.pau), fat0, SysSize(l));
    NoWrap(szVol - SysSize(l));
  }

  lemma Fat12Space(l: Layout, szVol: nat, fat0: nat, pad: nat)
    requires szVol < 0x1_0000_0000 && ClusterSize(l.pau) && pad < 0x8000 && l.fsty == Fat12 && l.clusters <= MAX_FAT12
    requires 1 <= l.rsv <= 2 && fat0 <= l.fat <= fat0 + pad && Estimate(Fat12, Div(szVol, l.pau), fat0)
    requires l.clusters == Div(U32(szVol - SysSize(l)), l.pau) && SysSize(l) <= 1 + 2 * fat0 + 2048 + pad
    ensures SizesFit(l, szVol)
  {
    Fat12Fits(szVol, l.pau, Div(szVol, l.pau), fat0, SysSize(l));
    NoWrap(szVol - SysSize(l));
  }

  lemma Fat12Decided(o: Outcome, enough: bool, clusters: nat, szVol: nat, p: nat, sys: nat, pad: nat)
    requires szVol < 0x1_0000_0000 && ClusterSize(p) && Div(szVol, p) <= MAX_FAT12 && sys + pad < 0x200_0000
    requires clusters == Div(U32(szVol - (sys + pad)), p) && (enough <==> szVol >= sys + p * 16)
    requires (o.Accept? <==> enough && clusters <= MAX_FAT12) && (o.Accept? ==> o.l.clusters == clusters)
    ensures Fat12Exact(o, szVol, p, sys, pad)
  {
    Fat12Numbers(szVol, sys, pad, p, clusters);
  }

  lemma PlacedFat12(l: Layout, szVol: nat, bVol: nat, szBlk: nat, fat0: nat, sys: nat, pad: nat)
    requires ClusterSize(l.pau) && 1 <= l.nFat <= 2 && PowerOfTwo(szBlk) && l.nRoot <= 32768
    requires Placed(l, szVol, bVol, szBlk, fat0, pad) && l.fsty == Fat12 && fat0 <= 0x80_0000
    requires sys == 1 + (AllFats(fat0, l.nFat) + l.nRoot / 16)
    ensures l.clusters == Div(U32(szVol - (sys + pad)), l.pau) && sys + pad < 0x200_0000
  {
    assert Unlock(0);
    SystemSize(l, fat0, pad);
  }

  lemma Fat12Numbers(szVol: nat, sys0: nat, pad: nat, p: nat, clusters: nat)
    requires szVol < 0x1_0000_0000 && ClusterSize(p) && Div(szVol, p) <= MAX_FAT12 && sys0 + pad < 0x200_0000
    requires clusters == Div(U32(szVol - (sys0 + pad)), p)
    ensures clusters <= MAX_FAT12 <==> sys0 + pad <= szVol
    ensures clusters <= MAX_FAT12 ==> (clusters == 0 <==> szVol < sys0 + pad + p)
  {
    FewClusters(szVol, sys0 + pad, p);
    if sys0 + pad <= szVol {
      NoWrap(szVol - (sys0 + pad));
      LessThanOne(szVol - (sys0 + pad), p);
    }
  }

  lemma FewClusters(szVol: nat, sys: nat, p: nat)
    requires szVol < 0x1_0000_0000 && ClusterSize(p) && Div(szVol, p) <= MAX_FAT12 && sys < 0x200_0000
    ensures Div(U32(szVol - sys), p) <= MAX_FAT12 <==> sys <= szVol
  {
    WrappedTooMany(szVol, sys, p);
    if sys <= szVol {
      NoWrap(szVol - sys);
      DivMono(szVol - sys, szVol, p);
    }
  }

  lemma NoWrap(x: nat)
    requires x < 0x1_0000_0000
    ensures U32(x) == x
  {
  }

  lemma SystemSize(l: Layout, fat0: nat, pad: nat)
    requires 1 <= l.nFat <= 2 && l.fsty != ExFat && Shape(l.fsty, l.nFat, l.rsv, l.fat, fat0, pad)
    ensures SysSize(l) == (if l.fsty == Fat32 then 32 else 1) + AllFats(fat0, l.nFat) + l.nRoot / 16 + pad
    ensures AllFats(fat0, l.nFat) <= 2 * fat0
  {
  }

  lemma Fat32Fits(szVol: nat, p: nat, pre: nat, fat0: nat, sys: nat)
    requires szVol < 0x1_0000_0000 && ClusterSize(p) && pre == Div(szVol, p) && Estimate(Fat32, pre, fat0)
    requires sys <= 32 + 2 * fat0 + 0x7FFF
    ensures sys <= szVol && Div(szVol - sys, p) <= pre && 4 * (pre + 2) <= 512 * fat0 && 1 <= fat0 < 0x100_0000
    ensures pre <= MAX_FAT32
  {
    assert Unlock(0);
    DivMono(szVol, szVol, p);
    assert fat0 == (pre * 4 + 519) / 512;
    DivMono(szVol - sys, szVol, p);
  }

  lemma Fat16Fits(szVol: nat, p: nat, pre: nat, fat0: nat, sys: nat)
    requires szVol < 0x1_0000_0000 && ClusterSize(p) && pre == Div(szVol, p) && Estimate(Fat16, pre, fat0)
    requires sys <= 1 + 2 * fat0 + 2048 + 0x7FFF && Div(U32(szVol - sys), p) <= MAX_FAT16
    ensures sys <= szVol && Div(szVol - sys, p) <= pre && 2 * (pre + 2) <= 512 * fat0 && 1 <= fat0 < 0x8000
  {
    assert Unlock(0);
    WrappedTooMany(szVol, sys, p);
    EstimateSmall(szVol, sys, p);
    DivMono(szVol - sys, szVol, p);
  }

  lemma Fat12Fits(szVol: nat, p: nat, pre: nat, fat0: nat, sys: nat)
    requires szVol < 0x1_0000_0000 && ClusterSize(p) && pre == Div(szVol, p) && Estimate(Fat12, pre, fat0)
    requires sys <= 1 + 2 * fat0 + 2048 + 0x7FFF && Div(U32(szVol - sys), p) <= MAX_FAT12
    ensures sys <= szVol && Div(szVol - sys, p) <= pre && 1 <= fat0 < 0x8000
    ensures FatBytes(Fat12, Div(szVol - sys, p) + 2) <= 512 * fat0
  {
    assert Unlock(0);
    WrappedTooMany(szVol, sys, p);
    DivMono(szVol - sys, szVol, p);
    Fat12Covers(Div(szVol - sys, p), pre);
  }

  lemma Fat12Covers(c: nat, pre: nat)
    requires c <= pre
    ensures FatBytes(Fat12, c + 2) <= 512 * Fat12Sectors(pre)
  {
    Fat12Size(c);
    HalvesMono(c * 3 + 1, pre * 3 + 1);
    RoundedUp((pre * 3 + 1) / 2 + 3);
  }

  lemma Fat12Size(c: nat)
    ensures FatBytes(Fat12, c + 2) == (c * 3 + 1) / 2 + 3
  {
    var h := c / 2;
    if c == 2 * h {
      assert (c + 2) * 3 / 2 == 3 * h + 3 && (c * 3 + 1) / 2 == 3 * h;
    } else {
      assert c == 2 * h + 1;
      assert (c + 2) * 3 / 2 == 3 * h + 4 && (c * 3 + 1) / 2 == 3 * h + 2;
    }
  }

  lemma HalvesMono(a: nat, b: nat)
    requires a <= b
    ensures a / 2 <= b / 2
  {
  }

  lemma RoundedUp(n: nat)
    ensures n <= 512 * ((n + 511) / 512)
  {
  }

  /** How the padding is spent: more reserved sectors for FAT32, larger FATs otherwise. */
  predicate Shape(fsty: FsType, nFat: nat, rsv: nat, fat: nat, fat0: nat, pad: nat) {
    if fsty == Fat32 then rsv == 32 + pad && fat == fat0
    else if nFat == 1 then rsv == 1 && fat == fat0 + pad
    else rsv == 1 + pad % 2 && fat == fat0 + pad / 2
  }

  /** The first estimate of the FAT size, from the volume size alone; unfolded only where the sizes are compared. */
  ghost predicate Estimate(ty: FsType, pre: nat, fat0: nat) {
    forall i {:trigger Unlock(i)} :: Unlock(i) ==> FirstSize(ty, pre, fat0)
  }

  predicate FirstSize(ty: FsType, pre: nat, fat0: nat) {
    match ty
    case Fat12 => pre <= MAX_FAT12 && fat0 == Fat12Sectors(pre)
    case Fat16 => MAX_FAT12 < pre && fat0 == Fat16Sectors(pre)
    case Fat32 => MAX_FAT16 < pre <= MAX_FAT32 && fat0 == Fat32Sectors(pre)
    case ExFat => false
  }

  // ----- the options and the loop

  /** The erase block size to align to. */
  function BlockSize(align: nat, deviceBlock: nat): (b: nat)
    ensures PowerOfTwo(b) && b <= 0x8000
  {
    var b := if align == 0 then deviceBlock else align;
    if b == 0 || b > 0x8000 || !PowerOfTwo(b) then 1 else b
  }

  function FatCopies(opt: nat): (n: nat)
    ensures 1 <= n <= 2
  {
    if 1 <= opt <= 2 then opt else 1
  }

  function RootEntries(opt: nat): (n: nat)
    ensures 1 <= n <= 32768 && n % 16 == 0
  {
    if 1 <= opt <= 32768 && opt % (512 / 32) == 0 then opt else 512
  }

  /** The cluster size asked for, in sectors; 0 leaves the choice to the formatter. */
  function AuSectors(auSize: nat): (n: nat)
    ensures n == 0 || ClusterSize(n)
  {
    var au := if auSize <= 0x100_0000 && (auSize == 0 || PowerOfTwo(auSize)) then auSize / 512 else 0;
    assert au == 0 || PowerOfTwo(au) by {
      if PowerOfTwo(auSize) {
        HalvedNineTimes(auSize);
      }
    }
    if au > 128 then 128
    else
      SmallPowers(au);
      au
  }

  datatype Option<T> = None | Some(value: T)

  /**
   * f_mkfs for FAT12/16/32 from its options to the layout it accepts, if any. It ends because each further pass
   * either fixes the cluster size or gives up FAT16.
   */
  method ChooseLayout(fat: bool, fat32: bool, szVol: nat, bVol: nat, align: nat, deviceBlock: nat, optFats: nat,
                      optRoot: nat, auSize: nat)
    returns (r: Option<Layout>)
    requires szVol < 0x1_0000_0000
    ensures r.Some? ==> Sound(r.value, szVol, bVol, BlockSize(align, deviceBlock)) && 128 <= szVol
    ensures r.Some? ==>
              r.value.nFat == FatCopies(optFats) && (r.value.fsty != Fat32 ==> r.value.nRoot == RootEntries(optRoot))
    ensures r.Some? ==> (if r.value.fsty == Fat32 then fat32 else fat)
    ensures r.Some? && AuSectors(auSize) != 0 ==> r.value.pau == AuSectors(auSize)
    ensures r.Some? && AuSectors(auSize) == 0 && r.value.fsty == Fat12 ==> r.value.pau == Fat12AutoSize(szVol)
    // what is accepted may be without any cluster
    ensures r.Some? ==>
              (r.value.clusters == 0 <==>
               NoCluster(szVol, bVol, BlockSize(align, deviceBlock), r.value.pau, FatCopies(optFats),
                         RootEntries(optRoot)))
    // a small volume with a given cluster size is accepted exactly if the system area leaves room before it is aligned
    ensures fat && 128 <= szVol && AuSectors(auSize) != 0 && Div(szVol, AuSectors(auSize)) <= MAX_FAT12 ==>
              var au := AuSectors(auSize);
              r.Some? <==> Fat12Possible(szVol, bVol, BlockSize(align, deviceBlock), au,
                                         Fat12System(szVol, au, FatCopies(optFats), RootEntries(optRoot)))
  {
    if szVol < 128 || !(fat || fat32) {
      return None;
    }
    var fsty := if fat then Fat16 else Fat32;
    var szAu: nat := AuSectors(auSize);
    while true
      invariant (fsty == Fat16 && fat) || (fsty == Fat32 && fat32)
      invariant (szAu == 0 || ClusterSize(szAu)) && (AuSectors(auSize) != 0 ==> szAu == AuSectors(auSize))
      invariant AuSectors(auSize) == 0 && fsty == Fat16 ==>
                  szAu == 0 || (szAu == 2 * AutoSize(szVol) && Div(szVol, AutoSize(szVol)) > MAX_FAT12)
      invariant fat && AuSectors(auSize) != 0 && Div(szVol, AuSectors(auSize)) <= MAX_FAT12 ==> fsty == Fat16
      decreases Retries(fsty, szAu)
    {
      var o := Attempt(fsty, szAu, szVol, bVol, BlockSize(align, deviceBlock), FatCopies(optFats), RootEntries(optRoot),
                       fat32);
      match o {
        case Accept(l) => return Some(l);
        case Abort => return None;
        case Retry(f, a) => fsty, szAu := f, a;
      }
    }
  }

  /**
   * A layout without any cluster is accepted: 128 sectors with erase blocks of 128 sectors. The check for room
   * comes before the data area is aligned, and nothing rejects a FAT12 volume of no clusters.
   */
  method AcceptsEmptyVolume() returns (r: Option<Layout>)
    ensures r.Some? && r.value.clusters == 0
  {
    assert PowerOfTwo(128) && PowerOfTwo(64) && PowerOfTwo(32) && PowerOfTwo(16) && PowerOfTwo(8) && PowerOfTwo(4) &&
           PowerOfTwo(2);
    BlockOf161();
    AuOf512();
    assert Div(128, 1) == 128 && Fat12Sectors(128) == 1 && Fat12System(128, 1, 1, 512) == 34;
    assert Pad(U32(0 + 34), 128) == 94;
    r := ChooseLayout(true, false, 128, 0, 128, 1, 1, 512, 512);
  }

  lemma AuOf512()
    ensures AuSectors(512) == 1
  {
    assert PowerOfTwo(8) && PowerOfTwo(64) && PowerOfTwo(512);
  }

  lemma BlockOf161()
    requires PowerOfTwo(128) && PowerOfTwo(64) && PowerOfTwo(32) && PowerOfTwo(16) && PowerOfTwo(8) && PowerOfTwo(4)
    requires PowerOfTwo(2)
    ensures RoundDown(161, 128) == 128
  {
    assert RoundDown(2, 2) == 2 && RoundDown(5, 4) == 4 && RoundDown(10, 8) == 8 && RoundDown(20, 16) == 16;
    assert RoundDown(40, 32) == 32 && RoundDown(80, 64) == 64;
  }
}
