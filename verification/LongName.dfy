/** Long file names, split over directory slots of 13 UTF-16 units each. */
module LongName {
  import opened Bytes
  import opened ByteArray

  type Unit = u: int | 0 <= u < 0x1_0000

  const MAX_LFN := 255
  const LLEF := 0x40      // last part of a name
  const AM_LFN := 0x0F
  const DELETED := 0xE5

  /** The table of the source: where the 13 units of an entry are. */
  const LFN_OFS: seq<nat> := [1, 3, 5, 7, 9, 14, 16, 18, 20, 22, 24, 28, 30]

  /** The same by arithmetic. */
  function LfnOfs(d: nat): (o: nat)
    ensures d < 13 ==> o == LFN_OFS[d]
  {
    if d < 5 then 1 + 2 * d else if d < 11 then 4 + 2 * d else 6 + 2 * d
  }

  /** A name that dir_register may be given: 1 to 255 units, neither 0 nor 0xFFFF. */
  predicate GoodName(name: seq<Unit>) {
    1 <= |name| <= MAX_LFN && forall i :: 0 <= i < |name| ==> name[i] != 0 && name[i] != 0xFFFF
  }

  /** What the slots hold at position `i` of a name: the name, a terminator, filler. */
  function UnitAt(name: seq<Unit>, i: nat): Unit {
    if i < |name| then name[i] else if i == |name| then 0 else 0xFFFF
  }

  /** Slots needed. */
  function Parts(len: nat): nat {
    (len + 12) / 13
  }

  /** The name in the working buffer. */
  ghost predicate Named(lfnbuf: array<Unit>, name: seq<Unit>)
    reads lfnbuf
  {
    |name| < lfnbuf.Length && lfnbuf[..|name|] == name && lfnbuf[|name|] == 0
  }

  /** The slot at `o` is part `ord` of the name. */
  ghost predicate IsPart(dir: seq<byte>, o: nat, name: seq<Unit>, ord: nat, sum: byte)
    requires ord > 0
  {
    && o + 32 <= |dir|
    && dir[o] == (if ord == Parts(|name|) then ord + LLEF else ord)
    && dir[o + 11] == AM_LFN && dir[o + 13] == sum && LdWord(dir, o + 26) == 0
    && forall d: nat {:trigger LfnOfs(d)} :: d < 13 ==> LdWord(dir, o + LfnOfs(d)) == UnitAt(name, 13 * (ord - 1) + d)
  }

  /** put_lfn */
  method PutLfn(lfn: array<Unit>, dir: array<byte>, o: nat, ord: nat, sum: byte, ghost name: seq<Unit>)
    requires GoodName(name) && Named(lfn, name) && o + 32 <= dir.Length && 1 <= ord <= Parts(|name|)
    modifies dir
    ensures IsPart(dir[..], o, name, ord, sum)
    ensures OnlyIn(dir, o, o + 32)
  {
    dir[o + 13], dir[o + 11], dir[o + 12] := sum, AM_LFN, 0;
    StWord(dir, o + 26, 0);
    var last := PutUnits(lfn, dir, o, 13 * (ord - 1), name);
    dir[o] := if last then ord + LLEF else ord;
  }

  /** Fill the directory entry; the answer is whether the name ends in it. */
  method PutUnits(lfn: array<Unit>, dir: array<byte>, o: nat, ni0: nat, ghost name: seq<Unit>) returns (last: bool)
    requires GoodName(name) && Named(lfn, name) && o + 32 <= dir.Length && ni0 < |name|
    modifies dir
    ensures last <==> |name| <= ni0 + 13
    ensures forall d: nat {:trigger LfnOfs(d)} :: d < 13 ==> WordAt(dir, o + LfnOfs(d)) == UnitAt(name, ni0 + d)
    ensures forall i {:trigger dir[i]} ::
              0 <= i < dir.Length && !(o + 1 <= i < o + 11) && !(o + 14 <= i < o + 26) && !(o + 28 <= i < o + 32) ==>
              dir[i] == old(dir[i])
  {
    var ni: nat, di: nat, chr: Unit := ni0, 0, 0;
    while di < 13
      invariant di <= 13
      invariant chr == 0xFFFF ==> |name| < ni0 + di
      invariant chr != 0xFFFF ==> ni == ni0 + di && ni <= |name| && (di > 0 ==> chr == name[ni - 1])
      invariant forall d: nat {:trigger LfnOfs(d)} :: d < di ==> WordAt(dir, o + LfnOfs(d)) == UnitAt(name, ni0 + d)
      invariant forall i {:trigger dir[i]} ::
                  0 <= i < dir.Length && !(o + 1 <= i < o + 11) && !(o + 14 <= i < o + 26) &&
                    !(o + 28 <= i < o + 32) ==>
                  dir[i] == old(dir[i])
    {
      if chr != 0xFFFF {
        assert ni < |name| ==> lfn[ni] == lfn[..|name|][ni];
        chr := lfn[ni];
        ni := ni + 1;
      }
      StWord(dir, o + LfnOfs(di), chr);
      if chr == 0 {
        chr := 0xFFFF;
      }
      di := di + 1;
    }
    assert chr != 0xFFFF && ni < |name| ==> lfn[ni] == lfn[..|name|][ni];
    last := chr == 0xFFFF || lfn[ni] == 0;
  }

  // ----- reading a part back

  /**
   * What pick_lfn makes of the buffer for part `ord` of a name: it stores that part, and the terminator with the last.
   */
  ghost predicate Picked(was: seq<Unit>, now: seq<Unit>, name: seq<Unit>, ord: nat)
    requires ord > 0
  {
    && |was| == |now| == MAX_LFN + 1 && |name| <= MAX_LFN
    && (forall i: nat {:trigger now[i]} :: 13 * (ord - 1) <= i < 13 * ord && i < |name| ==> now[i] == name[i])
    && (ord == Parts(|name|) ==> now[|name|] == 0)
    && (forall i: nat {:trigger now[i]} :: i < |name| && !(13 * (ord - 1) <= i < 13 * ord) ==> now[i] == was[i])
    && (ord != Parts(|name|) ==> now[|name|] == was[|name|])
  }

  /** pick_lfn: total on every slot, since it never stores past the end of the buffer. */
  method PickLfn(lfnbuf: array<Unit>, dir: array<byte>, o: nat, ghost name: seq<Unit>, ghost ord: nat, ghost sum: byte)
    returns (ok: bool)
    requires lfnbuf.Length == MAX_LFN + 1 && o + 32 <= dir.Length && ord > 0
    modifies lfnbuf
    ensures GoodName(name) && ord <= Parts(|name|) && IsPart(dir[..], o, name, ord, sum) ==>
              ok && Picked(old(lfnbuf[..]), lfnbuf[..], name, ord)
  {
    ghost var good := GoodName(name) && ord <= Parts(|name|) && IsPart(dir[..], o, name, ord, sum);
    if WordAt(dir, o + 26) != 0 {
      return false;
    }
    var lle := dir[o] / 64 % 2 == 1;
    var b: nat := if lle then dir[o] - LLEF else dir[o];
    var ni: nat := if b == 0 then 0xFFFF_FFF3 else (b - 1) * 13;   // in 32 bits
    var pchr: Unit, di: nat := 1, 0;
    assert good ==> ni == 13 * (ord - 1);
    while di < 13
      invariant di <= 13
      invariant good && pchr != 0 ==> ni == 13 * (ord - 1) + di && ni <= |name|
      invariant good && pchr == 0 ==> |name| < 13 * (ord - 1) + di && lfnbuf[|name|] == 0
      invariant good ==>
                  forall i: nat {:trigger lfnbuf[i]} :: 13 * (ord - 1) <= i < 13 * (ord - 1) + di && i < |name| ==>
                    lfnbuf[i] == name[i]
      invariant good ==>
                  forall i: nat {:trigger lfnbuf[i]} :: i < |name| && !(13 * (ord - 1) <= i < 13 * ord) ==>
                    lfnbuf[i] == old(lfnbuf[i])
      invariant good && pchr != 0 && ord != Parts(|name|) ==> lfnbuf[|name|] == old(lfnbuf[|name|])
    {
      var chr := WordAt(dir, o + LfnOfs(di));
      assert good ==> chr == UnitAt(name, 13 * (ord - 1) + di);
      if pchr != 0 {
        if ni >= MAX_LFN + 1 {
          return false;
        }
        pchr := chr;
        lfnbuf[ni] := chr;
        ni := ni + 1;
      } else {
        if chr != 0xFFFF {
          return false;
        }
      }
      di := di + 1;
    }
    if lle && pchr != 0 {
      if ni >= MAX_LFN + 1 {
        return false;
      }
      lfnbuf[ni] := 0;
    }
    ok := true;
  }

  // ----- a whole entry set

  /** sum_sfn, over the first `n` bytes of the short name */
  function SumSfn(sfn: seq<byte>): byte {
    if sfn == [] then 0
    else
      var sum := SumSfn(sfn[..|sfn| - 1]);
      (sum / 2 + sum * 128 + sfn[|sfn| - 1]) % 0x100
  }

  /** A short entry of a file or directory, as dir_register and its callers make them. */
  predicate ShortEntry(sfn: seq<byte>, attr: byte) {
    && |sfn| == 11 && sfn[0] != 0 && sfn[0] != DELETED && sfn[0] != 0x2E
    && attr % 0x40 != AM_LFN && attr % 0x20 != 0x08
  }

  /** The parts from `n` + 1 on, in the slots from `s`, last part first. */
  ghost predicate PartsFrom(dir: seq<byte>, s: nat, name: seq<Unit>, n: nat, sum: byte) {
    forall k: nat {:trigger At(k)} :: At(k) && n < k <= Parts(|name|) ==>
      IsPart(dir, s + 32 * (Parts(|name|) - k), name, k, sum)
  }

  /** The slots from `s` on hold the name and its short entry. */
  ghost predicate Registered(dir: seq<byte>, s: nat, name: seq<Unit>, sum: byte) {
    && GoodName(name) && s + 32 * Parts(|name|) + 32 <= |dir|
    && PartsFrom(dir, s, name, 0, sum)
    && var e := s + 32 * Parts(|name|);
       ShortEntry(dir[e..e + 11], dir[e + 11]) && SumSfn(dir[e..e + 11]) == sum
  }

  /** A store behind them leaves the parts as they are. */
  lemma PartsStay(d0: seq<byte>, d1: seq<byte>, s: nat, name: seq<Unit>, n: nat, sum: byte)
    requires n <= Parts(|name|) && PartsFrom(d0, s, name, n, sum) && |d0| == |d1|
    requires forall i :: 0 <= i < s + 32 * (Parts(|name|) - n) && i < |d0| ==> d1[i] == d0[i]
    ensures PartsFrom(d1, s, name, n, sum)
  {
    forall k: nat {:trigger At(k)} | At(k) && n < k <= Parts(|name|)
      ensures IsPart(d1, s + 32 * (Parts(|name|) - k), name, k, sum)
    {
      PartStays(d0, d1, s + 32 * (Parts(|name|) - k), name, k, sum);
    }
  }

  lemma PartStays(d0: seq<byte>, d1: seq<byte>, o: nat, name: seq<Unit>, k: nat, sum: byte)
    requires k > 0 && IsPart(d0, o, name, k, sum) && |d0| == |d1|
    requires forall i :: 0 <= i < o + 32 ==> d1[i] == d0[i]
    ensures IsPart(d1, o, name, k, sum)
  {
    forall d: nat {:trigger LfnOfs(d)} | d < 13
      ensures LdWord(d1, o + LfnOfs(d)) == UnitAt(name, 13 * (k - 1) + d)
    {
      assert LdWord(d0, o + LfnOfs(d)) == UnitAt(name, 13 * (k - 1) + d);
    }
  }

  /** Store LFN entries in bottom first */
  method RegisterParts(lfnbuf: array<Unit>, dir: array<byte>, s: nat, sum: byte, ghost name: seq<Unit>, len: nat)
    returns (o: nat)
    requires GoodName(name) && Named(lfnbuf, name) && len == |name| && s + 32 * Parts(len) <= dir.Length
    modifies dir
    ensures o == s + 32 * Parts(len) && PartsFrom(dir[..], s, name, 0, sum)
    ensures OnlyIn(dir, s, o)
  {
    var n: nat := (len + 12) / 13;
    o := s;
    while n > 0
      invariant n <= Parts(len) && o == s + 32 * (Parts(len) - n) && PartsFrom(dir[..], s, name, n, sum)
      invariant OnlyIn(dir, s, o)
    {
      ghost var before := dir[..];
      PutLfn(lfnbuf, dir, o, n, sum, name);
      PartsStay(before, dir[..], s, name, n, sum);
      n, o := n - 1, o + 32;
    }
  }

  /** dir_register, for the slots it was given: the parts from the last to the first, then the short entry. */
  method DirRegister(lfnbuf: array<Unit>, dir: array<byte>, s: nat, sfn: seq<byte>, ghost name: seq<Unit>, len: nat)
    requires GoodName(name) && Named(lfnbuf, name) && len == |name| && |sfn| == 11
    requires s + 32 * Parts(len) + 32 <= dir.Length
    modifies dir
    ensures ShortEntry(sfn, 0) ==> Registered(dir[..], s, name, SumSfn(sfn))
    ensures OnlyIn(dir, s, s + 32 * Parts(len) + 32)
  {
    var sum := SumSfn(sfn);
    var o := RegisterParts(lfnbuf, dir, s, sum, name, len);
    ghost var before := dir[..];
    ShortSlot(dir, o, sfn);
    PartsStay(before, dir[..], s, name, 0, sum);
    assert dir[..][o..o + 11] == sfn;
  }

  /** The short entry: a cleared slot with the short name. */
  method ShortSlot(dir: array<byte>, o: nat, sfn: seq<byte>)
    requires o + 32 <= dir.Length && |sfn| == 11
    modifies dir
    ensures dir[o..o + 11] == sfn && dir[o + 11] == 0
    ensures OnlyIn(dir, o, o + 32)
  {
    for i := 0 to 32
      invariant forall j {:trigger dir[j]} :: o <= j < o + i ==> dir[j] == 0
      invariant OnlyIn(dir, o, o + 32)
    {
      dir[o + i] := 0;
    }
    for i := 0 to 11
      invariant dir[o..o + i] == sfn[..i] && dir[o + 11] == 0
      invariant OnlyIn(dir, o, o + 32)
    {
      dir[o + i] := sfn[i];
    }
  }

  datatype Slot = End | Next | Found(hasLfn: bool)

  /** One pass of dir_read's loop, on the slot at `o`. */
  method ReadSlot(lfnbuf: array<Unit>, dir: array<byte>, o: nat, ord0: byte, sum0: byte, ghost name: seq<Unit>,
                  ghost k: nat, ghost s: byte)
    returns (slot: Slot, ord: byte, sum: byte)
    requires lfnbuf.Length == MAX_LFN + 1 && o + 32 <= dir.Length && k > 0
    modifies lfnbuf
    ensures dir[o] == DELETED ==> slot == Next
    ensures && GoodName(name) && k <= Parts(|name|) && IsPart(dir[..], o, name, k, s)
            && (k < Parts(|name|) ==> ord0 == k && sum0 == s) ==>
              slot == Next && ord == k - 1 && sum == s && Picked(old(lfnbuf[..]), lfnbuf[..], name, k)
    ensures ShortEntry(dir[o..o + 11], dir[o + 11]) ==>
              slot == Found(ord0 == 0 && sum0 == SumSfn(dir[o..o + 11])) && lfnbuf[..] == old(lfnbuf[..])
  {
    var b := dir[o];
    slot, ord, sum := Next, ord0, sum0;
    assert dir[o..o + 11][0] == dir[o];
    if b == 0 {
      return End, ord, sum;
    }
    var attr := dir[o + 11] % 0x40;
    if b == DELETED || b == 0x2E || attr % 0x20 == 0x08 {
      ord := 0xFF;
    } else if attr == AM_LFN {
      if b / 64 % 2 == 1 {
        sum := dir[o + 13];
        b := b - LLEF;
        ord := b;
      }
      var picked := false;
      if b == ord && sum == dir[o + 13] {
        picked := PickLfn(lfnbuf, dir, o, name, k, s);
      }
      ord := if picked then (ord - 1) % 0x100 else 0xFF;
    } else {
      slot := Found(ord == 0 && sum == SumSfn(dir[o..o + 11]));
    }
  }

  /** The buffer holds the units of the name from part `k` + 1 on. */
  ghost predicate HoldsFrom(buf: seq<Unit>, name: seq<Unit>, k: nat) {
    forall u {:trigger Unlock(u)} :: Unlock(u) ==>
      && |buf| == MAX_LFN + 1 && |name| <= MAX_LFN && buf[|name|] == 0
      && forall i: nat {:trigger buf[i]} :: 13 * k <= i < |name| ==> buf[i] == name[i]
  }

  lemma OnePartMore(was: seq<Unit>, now: seq<Unit>, name: seq<Unit>, k: nat)
    requires k > 0 && GoodName(name) && k <= Parts(|name|) && Picked(was, now, name, k)
    requires k < Parts(|name|) ==> HoldsFrom(was, name, k)
    ensures HoldsFrom(now, name, k - 1)
  {
    assert Unlock(0);
  }

  /** Deleted slots and then a registered name; seen only where Unlock(...) is asserted. */
  ghost predicate Ahead(dir: seq<byte>, start: nat, gap: nat, name: seq<Unit>, s: byte) {
    forall i {:trigger Unlock(i)} :: Unlock(i) ==>
      && (forall j: nat {:trigger At(j)} :: At(j) && j < gap ==>
            start + 32 * j < |dir| && dir[start + 32 * j] == DELETED)
      && Registered(dir, start + 32 * gap, name, s)
  }

  /** The slot with `todo` ones between it and the short entry. */
  lemma SlotAhead(dir: seq<byte>, start: nat, gap: nat, name: seq<Unit>, s: byte, m: nat, todo: nat)
    requires Ahead(dir, start, gap, name, s) && m + todo == gap + Parts(|name|)
    ensures GoodName(name) && start + 32 * m + 32 <= |dir|
    ensures todo > Parts(|name|) ==> dir[start + 32 * m] == DELETED
    ensures 0 < todo <= Parts(|name|) ==> IsPart(dir, start + 32 * m, name, todo, s)
    ensures todo == 0 ==>
              var e := start + 32 * m;
              ShortEntry(dir[e..e + 11], dir[e + 11]) && SumSfn(dir[e..e + 11]) == s
  {
    assert Unlock(0) && At(m) && At(todo);
  }

  /** The same pass, in front of deleted slots and a registered name: `todo` slots before the short entry. */
  method SlotOf(lfnbuf: array<Unit>, dir: array<byte>, at: nat, ord0: byte, sum0: byte, ghost good: bool,
                ghost start: nat, ghost gap: nat, ghost name: seq<Unit>, ghost s: byte, ghost m: nat, ghost todo: nat)
    returns (slot: Slot, ord: byte, sum: byte)
    requires lfnbuf.Length == MAX_LFN + 1 && at + 32 <= dir.Length
    requires good ==> Ahead(dir[..], start, gap, name, s) && at == start + 32 * m && m + todo == gap + Parts(|name|)
    requires good && todo < Parts(|name|) ==> ord0 == todo && sum0 == s && HoldsFrom(lfnbuf[..], name, todo)
    modifies lfnbuf
    ensures good && todo > 0 ==> slot == Next
    ensures good && 0 < todo <= Parts(|name|) ==>
              ord == todo - 1 && sum == s && HoldsFrom(lfnbuf[..], name, todo - 1)
    ensures good && todo == 0 ==> slot == Found(true) && lfnbuf[..] == old(lfnbuf[..])
  {
    ghost var k: nat := if good && 0 < todo <= Parts(|name|) then todo else 1;
    if good {
      SlotAhead(dir[..], start, gap, name, s, m, todo);
    }
    ghost var was := lfnbuf[..];
    slot, ord, sum := ReadSlot(lfnbuf, dir, at, ord0, sum0, name, k, s);
    if good && 0 < todo <= Parts(|name|) {
      OnePartMore(was, lfnbuf[..], name, k);
    }
  }

  /**
   * dir_read for files: deleted slots are skipped, and a registered entry set that follows them is found with its
   * long name in the buffer, exactly as it was registered.
   */
  method DirRead(lfnbuf: array<Unit>, dir: array<byte>, start: nat, ghost gap: nat, ghost name: seq<Unit>,
                 ghost s: byte)
    returns (slot: Slot, at: nat)
    requires lfnbuf.Length == MAX_LFN + 1
    modifies lfnbuf
    ensures && (forall j: nat {:trigger At(j)} :: At(j) && j < gap ==>
                  start + 32 * j < dir.Length && dir[start + 32 * j] == DELETED)
            && Registered(dir[..], start + 32 * gap, name, s) ==>
              slot == Found(true) && at == start + 32 * (gap + Parts(|name|)) && Named(lfnbuf, name)
  {
    ghost var from, n := start + 32 * gap, Parts(|name|);
    ghost var good := (forall j: nat {:trigger At(j)} :: At(j) && j < gap ==>
                         start + 32 * j < dir.Length && dir[start + 32 * j] == DELETED)
                      && Registered(dir[..], from, name, s);
    assert good ==> Ahead(dir[..], start, gap, name, s);
    assert good ==> from + 32 * n + 32 <= dir.Length;
    ghost var m: nat, todo: nat := 0, gap + n;
    var ord: byte, sum: byte := 0xFF, 0xFF;
    at, slot := start, Next;
    while slot == Next && at + 32 <= dir.Length
      invariant at == start + 32 * m
      invariant good ==> m + todo == gap + n
      invariant good && slot == Next && todo < n ==> ord == todo && sum == s && HoldsFrom(lfnbuf[..], name, todo)
      invariant good && slot != Next ==> slot == Found(true) && todo == 0 && HoldsFrom(lfnbuf[..], name, 0)
      decreases dir.Length - at, slot == Next
    {
      slot, ord, sum := SlotOf(lfnbuf, dir, at, ord, sum, good, start, gap, name, s, m, todo);
      if slot == Next {
        at, m, todo := at + 32, m + 1, if todo > 0 then todo - 1 else 0;
      }
    }
    assert Unlock(0);
  }

  /**
   * Register a name and read the directory back, into whatever buffer, from any point with only deleted slots in
   * between.
   */
  method RegisterAndRead(lfnbuf: array<Unit>, buf: array<Unit>, dir: array<byte>, start: nat, gap: nat, sfn: seq<byte>,
                         ghost name: seq<Unit>, len: nat)
    returns (slot: Slot, at: nat)
    requires GoodName(name) && Named(lfnbuf, name) && len == |name| && ShortEntry(sfn, 0) && buf.Length == MAX_LFN + 1
    requires start + 32 * gap + 32 * Parts(len) + 32 <= dir.Length
    requires forall j: nat {:trigger At(j)} :: At(j) && j < gap ==> dir[start + 32 * j] == DELETED
    modifies dir, buf
    ensures slot == Found(true) && at == start + 32 * (gap + Parts(len)) && Named(buf, name)
  {
    DirRegister(lfnbuf, dir, start + 32 * gap, sfn, name, len);
    slot, at := DirRead(buf, dir, start, gap, name, SumSfn(sfn));
  }
}
