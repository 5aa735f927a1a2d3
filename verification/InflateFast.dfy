/** inflate_fast: the inner loop of the deflate decoder, on a circular window and a bit accumulator. */
module InflateFast {
  import opened Bytes
  import opened BitString
  import opened Deflate

  lemma {:induction false} CopyComposes(text: seq<byte>, dist: nat, a: nat, b: nat)
    requires 1 <= dist <= |text|
    ensures Copy(Copy(text, dist, a), dist, b) == Copy(text, dist, a + b)
  {
    if b > 0 {
      CopyComposes(text, dist, a, b - 1);
    }
  }

  /** Marks the bytes of the output buffer at which they are to be compared. */
  ghost predicate Slot(j: int) {
    true
  }

  class Inflater {
    const input: seq<byte>     // the input available to the call
    const outb: array<byte>    // the output buffer
    const beg: nat             // where inflate() started writing
    const limit: nat           // end of the output space
    const window: seq<byte>    // the sliding window
    const whave: nat           // valid bytes in the window
    const wnext: nat           // window write index
    const tables: Tables

    var inp: nat
    var outp: nat
    var hold: nat
    var bits: nat
    var mode: Mode
    ghost var text: seq<byte>  // everything a distance can reach back to: window history and output

    constructor (i: seq<byte>, o: array<byte>, b: nat, p: nat, l: nat, w: seq<byte>, have: nat, next: nat, t: Tables,
                 h: nat, n: nat)
      requires GoodTables(t) && b <= p <= l <= o.Length
      requires have <= |w| && (next == 0 || (next < |w| && (have == |w| || have == next)))
      requires n < 8 && Shr(h, n) == 0
      ensures Valid() && input == i && outb == o && beg == b && limit == l && window == w && whave == have
      ensures wnext == next
      ensures tables == t && inp == 0 && outp == p && hold == h && bits == n && mode == LEN
      ensures text == Hist() + o[b..p]
    {
      input, outb, beg, limit, window, whave, wnext, tables := i, o, b, l, w, have, next, t;
      inp, outp, hold, bits, mode := 0, p, h, n, LEN;
      new;
      text := Hist() + outb[beg..outp];
    }

    /** The tables are good; seen only where it matters. */
    ghost predicate TablesOk() {
      forall i {:trigger Unlock(i)} :: Unlock(i) ==> GoodTables(tables)
    }

    ghost predicate Valid()
      reads this, outb
    {
      && TablesOk() && WindowOk()
      && inp <= |input| && beg <= outp <= limit <= outb.Length
      && TextOk()
      && bits <= 32 && Shr(hold, bits) == 0
    }

    /** The text is the valid window bytes, oldest first, and the output so far. */
    ghost predicate TextOk()
      requires WindowOk() && beg <= outp <= outb.Length
      reads this`outp, this`text, outb
    {
      && |text| == whave + outp - beg
      && forall i {:trigger Unlock(i)} :: Unlock(i) ==> text == Hist() + outb[beg..outp]
    }

    predicate WindowOk() {
      whave <= |window| && (wnext == 0 || (wnext < |window| && (whave == |window| || whave == wnext)))
    }

    /** The input not yet decoded: the bits held, then the bytes not taken. */
    ghost function Unread(): (r: seq<bool>)
      requires inp <= |input|
      reads this`inp, this`hold, this`bits
      ensures |r| == bits + 8 * (|input| - inp)
    {
      Bits(hold, bits) + ByteBits(input[inp..])
    }

    /** The valid bytes of the window, oldest first. */
    ghost function Hist(): (r: seq<byte>)
      requires WindowOk()
      ensures |r| == whave
    {
      if wnext == 0 then window[|window| - whave..]
      else if whave == |window| then window[wnext..] + window[..wnext]
      else window[..wnext]
    }

    // ----- the bit accumulator

    /** Take the next input byte into the accumulator, above the bits held. */
    method LoadByte()
      requires Valid() && inp < |input| && bits <= 24
      modifies this`inp, this`hold, this`bits
      ensures Valid() && Unread() == old(Unread())
      ensures inp == old(inp) + 1 && bits == old(bits) + 8
    {
      LoadAppends(hold, bits, input[inp], 8);
      ByteIsSmall(input[inp]);
      assert input[inp..] == [input[inp]] + input[inp + 1..];
      assert Bits(hold, bits) + (Bits(input[inp], 8) + ByteBits(input[inp + 1..])) ==
             (Bits(hold, bits) + Bits(input[inp], 8)) + ByteBits(input[inp + 1..]);
      hold := hold + Shl(input[inp], bits);
      inp, bits := inp + 1, bits + 8;
    }

    /** Drop the `n` lowest bits of the accumulator. */
    method Drop(n: nat)
      requires Valid() && n <= bits
      modifies this`hold, this`bits
      ensures Valid() && Unread() == old(Unread())[n..]
      ensures bits == old(bits) - n
    {
      ShiftDrops(hold, bits, n);
      hold := Shr(hold, n);
      bits := bits - n;
    }

    /** The accumulator never exceeds 32 bits. */
    lemma HoldBound()
      requires Valid()
      ensures hold < Shl(1, bits) <= Shl(1, 32)
    {
      SmallFits(hold, bits);
      ShlMono(bits, 32);
    }

    /** The number of bits not yet decoded. */
    function Left(): int
      reads this`inp, this`bits
    {
      bits + 8 * (|input| - inp)
    }

    lemma SmallHold()
      requires Valid() && bits < 8
      ensures hold < 0x100
    {
      SmallFits(hold, bits);
      ShlMono(bits, 8);
      assert Shl(1, 8) == 2 * 2 * Shl(1, 6) && Shl(1, 6) == 2 * 2 * Shl(1, 4) && Shl(1, 4) == 16;
    }

    /** Two more bytes, unless 15 bits are held already. */
    method Fill15()
      requires Valid() && bits <= 30 && Left() >= 28
      modifies this`inp, this`hold, this`bits
      ensures Valid() && Unread() == old(Unread())
      ensures 15 <= bits <= 30
    {
      if bits < 15 {
        LoadByte();
        LoadByte();
      }
    }

    /** The held bits are the first unread ones. */
    lemma HeldFirst(n: nat)
      requires Valid() && n <= bits
      ensures Low(hold, n) == Num(Unread()[..n])
    {
      LowIsNum(hold, bits, n);
      assert Unread()[..n] == Bits(hold, bits)[..n];
    }

    /** The entry at the low bits of the accumulator, through the second-level table if need be, to a leaf entry. */
    method DecodeSymbol(dist: bool) returns (here: Code)
      requires Valid() && bits >= 15
      modifies this`hold, this`bits
      ensures Valid() && GoodLeaf(here, dist) && bits <= old(bits) <= bits + 15
      ensures Unread() == old(Unread())[old(bits) - bits..]
      ensures Decoded(tables, dist, old(Unread()), here, old(bits) - bits)
    {
      ghost var b := Unread();
      here := First(dist, b);
      ghost var n := here.bits;
      if IsLink(here) {
        here, n := Second(dist, here, b);
      }
      ResolvedIsDecoded(tables, dist, b, here, n);
      assert n == old(bits) - bits;
    }

    /** The table for lengths and literals, or for distances. */
    function Codes(dist: bool): seq<Code> {
      if dist then tables.dcode else tables.lcode
    }

    /** Bits of its index. */
    function Root(dist: bool): nat {
      if dist then tables.droot else tables.lroot
    }

    /** The entry at the low bits of the accumulator. */
    method First(dist: bool, ghost b: seq<bool>) returns (here: Code)
      requires Valid() && bits >= 15 && b == Unread()
      modifies this`hold, this`bits
      ensures Valid() && here.bits <= 15 && bits == old(bits) - here.bits && Unread() == b[here.bits..]
      ensures if IsLink(here) then IndexedBy(dist, b, here)
              else GoodLeaf(here, dist) && Found(Codes(dist), Root(dist), dist, b, here, here.bits)
    {
      var codes, root := Codes(dist), Root(dist);
      assert GoodTable(codes, root, dist) by { assert Unlock(0); }
      RootIndex(codes, root, dist, b);
      HeldFirst(root);
      here := codes[Low(hold, root)];
      Drop(here.bits);
    }

    /** `here` is the entry the bits `b` lead to in the first level. */
    ghost predicate IndexedBy(dist: bool, b: seq<bool>, here: Code) {
      forall i {:trigger Unlock(i)} :: Unlock(i) ==>
        && Root(dist) <= |b| && Num(b[..Root(dist)]) < |Codes(dist)| && here == Codes(dist)[Num(b[..Root(dist)])]
        && GoodTable(Codes(dist), Root(dist), dist) && Num(b[..Root(dist)]) < Shl(1, Root(dist))
    }

    /** The bits behind a first-level entry that leads on are an index of the second level, to a leaf entry. */
    lemma SecondIndex(dist: bool, link: Code, b: seq<bool>)
      requires |b| >= 15 && IsLink(link) && IndexedBy(dist, b, link)
      ensures link.bits + link.op <= 15 && link.val + Num(b[link.bits..link.bits + link.op]) < |Codes(dist)|
      ensures var here := SubEntry(Codes(dist), link, Num(b[link.bits..link.bits + link.op]));
              && GoodLeaf(here, dist) && link.bits + here.bits <= 15
              && Found(Codes(dist), Root(dist), dist, b, here, link.bits + here.bits)
    {
      assert Unlock(0);
      assert GoodEntry(Codes(dist), link, dist);
      NumBound(b[link.bits..link.bits + link.op]);
    }

    /** The entry of a second-level table, for an entry that leads to one. */
    method Second(dist: bool, link: Code, ghost b: seq<bool>) returns (here: Code, ghost n: nat)
      requires Valid() && |b| >= 15 && IsLink(link) && IndexedBy(dist, b, link) && bits + link.bits >= 15
      requires link.bits <= 15 && Unread() == b[link.bits..]
      modifies this`hold, this`bits
      ensures Valid() && GoodLeaf(here, dist)
      ensures bits + n == old(bits) + link.bits && link.bits <= n <= 15
      ensures Unread() == b[n..] && Found(Codes(dist), Root(dist), dist, b, here, n)
    {
      SecondIndex(dist, link, b);
      var j := Low(hold, link.op);
      assert j == Num(b[link.bits..link.bits + link.op]) by {
        HeldFirst(link.op);
        assert Unread()[..link.op] == b[link.bits..link.bits + link.op];
      }
      here := SubEntry(Codes(dist), link, j);
      n := link.bits + here.bits;
      Drop(here.bits);
      DropTwice(b, b[link.bits..], link.bits, here.bits);
    }

    /** Add `n` extra bits to a base value, loading bytes as they are needed. */
    method Extra(base: nat, n: nat) returns (v: nat)
      requires Valid() && n <= 13 && bits <= 30 && n <= Left()
      modifies this`inp, this`hold, this`bits
      ensures Valid() && bits <= 30 && n <= |old(Unread())|
      ensures v == base + Num(old(Unread())[..n]) && Unread() == old(Unread())[n..]
    {
      if bits < n {
        LoadByte();
        if bits < n {
          LoadByte();
        }
      }
      HeldFirst(n);
      v := base + Low(hold, n);
      Drop(n);
    }

    // ----- the match copy

    /** No byte of the output buffer has changed in front of `start` or from the output position on. */
    twostate predicate OnlyFrom(start: nat)
      reads this`outp, outb
    {
      forall j {:trigger Slot(j)} :: Slot(j) && 0 <= j < outb.Length && !(start <= j < outp) ==> outb[j] == old(outb[j])
    }

    /** `n` more bytes of a match at distance `dist` can be taken from `from` on, in the window or in the output. */
    ghost predicate SourceOk(inWindow: bool, from: nat, dist: nat, n: nat)
      requires WindowOk()
      reads this`outp
    {
      forall i {:trigger Unlock(i)} :: Unlock(i) ==> SourceAt(inWindow, from, dist, n, outp - beg)
    }

    /** The same, when `o` bytes of output lie in front of the match. */
    ghost predicate SourceAt(inWindow: bool, from: nat, dist: nat, n: nat, o: int)
      requires WindowOk()
    {
      if inWindow then
        && 0 <= o && o + n <= dist && dist - o <= whave && from + n <= |window|
        && forall i: nat {:trigger At(i)} :: At(i) && i < n ==> window[from + i] == Hist()[whave - (dist - o) + i]
      else 1 <= dist <= o && from == beg + o - dist
    }

    /** Copy one byte to the output. */
    method CopyOne(inWindow: bool, from: nat, dist: nat, n: nat)
      requires Valid() && 0 < n && outp < limit && SourceOk(inWindow, from, dist, n) && 1 <= dist <= |text|
      modifies this`outp, this`text, outb
      ensures Valid() && outp == old(outp) + 1 && SourceOk(inWindow, from + 1, dist, n - 1)
      ensures OnlyFrom(old(outp))
      ensures text == old(text) + [old(text)[|old(text)| - dist]]
    {
      assert Unlock(0) && At(0);
      var b := if inWindow then window[from] else outb[from];
      assert b == text[|text| - dist];
      outb[outp] := b;
      outp := outp + 1;
      text := text + [b];
      SourceShift(inWindow, from, dist, n, outp - 1 - beg);
    }

    /** After one byte, the rest of a source is still there. */
    lemma SourceShift(inWindow: bool, from: nat, dist: nat, n: nat, o: nat)
      requires WindowOk() && n > 0 && SourceAt(inWindow, from, dist, n, o)
      ensures SourceAt(inWindow, from + 1, dist, n - 1, o + 1)
    {
      if inWindow {
        forall i: nat | At(i) && i < n - 1
          ensures window[from + 1 + i] == Hist()[whave - (dist - (o + 1)) + i]
        {
          assert At(i + 1);
        }
      }
    }

    /** One step of a copying loop with `n` bytes to go, of which `done` of the match from `t` are there. */
    method CopyStep(inWindow: bool, from: nat, dist: nat, n: nat, ghost t: seq<byte>, ghost done: nat)
      requires Valid() && 0 < n && outp < limit && SourceOk(inWindow, from, dist, n)
      requires 1 <= dist <= |t| && text == Copy(t, dist, done)
      modifies this`outp, this`text, outb
      ensures Valid() && outp == old(outp) + 1 && SourceOk(inWindow, from + 1, dist, n - 1)
      ensures OnlyFrom(old(outp))
      ensures text == Copy(t, dist, done + 1)
    {
      CopyOne(inWindow, from, dist, n);
    }

    /** The copying loop for the part of a match that lies in the window. */
    method CopyRun(inWindow: bool, from0: nat, dist: nat, n: nat)
      requires Valid() && outp + n <= limit && SourceOk(inWindow, from0, dist, n) && 1 <= dist <= |text|
      modifies this`outp, this`text, outb
      ensures Valid() && outp == old(outp) + n
      ensures OnlyFrom(old(outp))
      ensures text == Copy(old(text), dist, n)
    {
      var from: nat, left: nat := from0, n;
      while left > 0
        invariant Valid() && left <= n && outp == old(outp) + (n - left) && OnlyFrom(old(outp))
        invariant SourceOk(inWindow, from, dist, left) && text == Copy(old(text), dist, n - left)
      {
        CopyStep(inWindow, from, dist, left, old(text), n - left);
        from, left := from + 1, left - 1;
      }
    }

    /** The last copying loop of a match, three bytes at a time. */
    method CopyTail(inWindow: bool, from0: nat, dist: nat, n: nat)
      requires Valid() && outp + n <= limit && SourceOk(inWindow, from0, dist, n) && 1 <= dist <= |text|
      modifies this`outp, this`text, outb
      ensures Valid() && outp == old(outp) + n
      ensures OnlyFrom(old(outp))
      ensures text == Copy(old(text), dist, n)
    {
      var from: nat, len: nat := from0, n;
      while len > 2
        invariant Valid() && len <= n && outp == old(outp) + (n - len) && OnlyFrom(old(outp))
        invariant SourceOk(inWindow, from, dist, len) && text == Copy(old(text), dist, n - len)
      {
        CopyThree(inWindow, from, dist, len, old(text), n - len);
        from, len := from + 3, len - 3;
      }
      CopyLast(inWindow, from, dist, len, old(text), n - len);
    }

    /** The one or two bytes behind that loop. */
    method CopyLast(inWindow: bool, from: nat, dist: nat, n: nat, ghost t: seq<byte>, ghost done: nat)
      requires Valid() && n <= 2 && outp + n <= limit && SourceOk(inWindow, from, dist, n)
      requires 1 <= dist <= |t| && text == Copy(t, dist, done)
      modifies this`outp, this`text, outb
      ensures Valid() && outp == old(outp) + n
      ensures OnlyFrom(old(outp))
      ensures text == Copy(t, dist, done + n)
    {
      if n > 0 {
        CopyStep(inWindow, from, dist, n, t, done);
        if n > 1 {
          CopyStep(inWindow, from + 1, dist, n - 1, t, done + 1);
        }
      }
    }

    /** One pass of that loop. */
    method CopyThree(inWindow: bool, from: nat, dist: nat, n: nat, ghost t: seq<byte>, ghost done: nat)
      requires Valid() && 2 < n && outp + n <= limit && SourceOk(inWindow, from, dist, n)
      requires 1 <= dist <= |t| && text == Copy(t, dist, done)
      modifies this`outp, this`text, outb
      ensures Valid() && outp == old(outp) + 3 && SourceOk(inWindow, from + 3, dist, n - 3)
      ensures OnlyFrom(old(outp))
      ensures text == Copy(t, dist, done + 3)
    {
      CopyStep(inWindow, from, dist, n, t, done);
      CopyStep(inWindow, from + 1, dist, n - 1, t, done + 1);
      CopyStep(inWindow, from + 2, dist, n - 2, t, done + 2);
    }

    /** Where the window bytes of a match lie, in the three cases of the window. */
    lemma WindowSource(dist: nat, op: nat, from: nat, n: nat)
      requires Valid() && dist == outp - beg + op && 0 < n <= op <= whave
      requires if wnext == 0 then from == |window| - op
               else if wnext < op then from == |window| + wnext - op && n <= op - wnext
               else from == wnext - op
      ensures SourceOk(true, from, dist, n)
    {
      assert SourceAt(true, from, dist, n, outp - beg);
    }

    /** After the bytes from the end of a wrapped window, its start goes on. */
    lemma WrappedSource(dist: nat, op: nat, n: nat)
      requires Valid() && dist == outp - beg + op && 0 < wnext && whave == |window| && op <= wnext && 0 < n <= op
      requires op == wnext
      ensures SourceOk(true, 0, dist, n)
    {
      assert SourceAt(true, 0, dist, n, outp - beg);
    }

    /** The match copy: some from the window, the rest from the output. */
    method CopyMatch(dist: nat, len: nat)
      requires Valid() && outp + len <= limit && 3 <= len && 1 <= dist <= |text|
      modifies this`outp, this`text, outb
      ensures Valid() && outp == old(outp) + len
      ensures OnlyFrom(old(outp))
      ensures text == Copy(old(text), dist, len)
    {
      var op := outp - beg;
      if dist > op {
        CopyFromWindow(dist, len, dist - op);
      } else {
        CopyTail(false, outp - dist, dist, len);
      }
    }

    /** The window cases of the match copy; `op` is the distance back in the window. */
    method CopyFromWindow(dist: nat, len: nat, op: nat)
      requires Valid() && outp + len <= limit && 3 <= len && op == dist - (outp - beg) && 0 < op <= whave
      modifies this`outp, this`text, outb
      ensures Valid() && outp == old(outp) + len
      ensures OnlyFrom(old(outp))
      ensures 1 <= dist <= |old(text)| && text == Copy(old(text), dist, len)
    {
      ghost var t := text;
      if 0 < wnext < op {
        CopyWrapped(dist, len, op);
      } else {
        var from := if wnext == 0 then |window| - op else wnext - op;
        if op < len {
          WindowSource(dist, op, from, op);
          CopyRun(true, from, dist, op);
          CopyTail(false, outp - dist, dist, len - op);
          CopyComposes(t, dist, op, len - op);
        } else {
          WindowSource(dist, op, from, len);
          CopyTail(true, from, dist, len);
        }
      }
    }

    /** The match copy when it starts at the end of the window and may go on at its start. */
    method CopyWrapped(dist: nat, len: nat, op0: nat)
      requires Valid() && outp + len <= limit && op0 == dist - (outp - beg) && 0 < wnext < op0 <= whave && 0 < len
      modifies this`outp, this`text, outb
      ensures Valid() && outp == old(outp) + len
      ensures OnlyFrom(old(outp))
      ensures 1 <= dist <= |old(text)| && text == Copy(old(text), dist, len)
    {
      ghost var t := text;
      var from := |window| + wnext - op0;
      var op := op0 - wnext;
      if op < len {
        WindowSource(dist, op0, from, op);
        CopyRun(true, from, dist, op);
        CopyWrappedRest(dist, len - op, t, op);
      } else {
        WindowSource(dist, op0, from, len);
        CopyTail(true, from, dist, len);
      }
    }

    /** What is left of such a match, from the start of the window on; `done` bytes of it are there. */
    method CopyWrappedRest(dist: nat, rest: nat, ghost t: seq<byte>, ghost done: nat)
      requires Valid() && outp + rest <= limit && 0 < rest && 0 < wnext && whave == |window|
      requires dist == outp - beg + wnext
      requires 1 <= dist <= |t| && text == Copy(t, dist, done)
      modifies this`outp, this`text, outb
      ensures Valid() && outp == old(outp) + rest
      ensures OnlyFrom(old(outp))
      ensures text == Copy(t, dist, done + rest)
    {
      if wnext < rest {
        WrappedSource(dist, wnext, wnext);
        CopyRun(true, 0, dist, wnext);
        CopyComposes(t, dist, done, wnext);
        CopyTail(false, outp - dist, dist, rest - wnext);
        CopyComposes(t, dist, done + wnext, rest - wnext);
      } else {
        WrappedSource(dist, wnext, rest);
        CopyTail(true, 0, dist, rest);
        CopyComposes(t, dist, done, rest);
      }
    }

    // ----- the main loop

    /** Copy the match, unless it reaches back too far. */
    method TakeMatch(dist: nat, len: nat)
      requires Valid() && mode == LEN && 3 <= len && outp + len <= limit && 1 <= dist
      modifies this`outp, this`mode, this`text, outb
      ensures Valid() && outp == old(outp) + (if dist <= |old(text)| then len else 0)
      ensures OnlyFrom(old(outp))
      ensures if dist <= |old(text)| then mode == LEN && text == Copy(old(text), dist, len)
              else mode == BAD && text == old(text)
    {
      if dist > outp - beg + whave {
        mode := BAD;
      } else {
        CopyMatch(dist, len);
      }
    }

    /** The distance part of a pass, after a length base: `len` is the match length. */
    method DecodeDistance(len: nat)
      requires Valid() && mode == LEN && bits <= 30 && Left() >= 28
      requires 3 <= len <= 258 && outp + len <= limit
      modifies this`inp, this`hold, this`bits, this`outp, this`mode, this`text, outb
      ensures Valid() && bits <= 30 && old(outp) <= outp && (mode == LEN ==> old(outp) < outp)
      ensures OnlyFrom(old(outp))
      ensures Matched(tables, old(text), len, old(Unread()), State(text, Unread(), mode))
    {
      Fill15();
      ghost var b, t := Unread(), text;
      var here := DecodeSymbol(true);
      ghost var m := |b| - |Unread()|;
      if IsBase(here) {
        var dist := Extra(here.val, here.op % 16);
        MatchTaken(tables, t, len, b, here, m, dist, Unread());
        TakeMatch(dist, len);
      } else {
        NoMatch(tables, t, len, b, here, m);
        mode := BAD;
      }
    }

    /** Append a literal to the output. */
    method Literal(v: byte)
      requires Valid() && outp < limit
      modifies this`outp, this`text, outb
      ensures Valid() && outp == old(outp) + 1 && text == old(text) + [v]
      ensures OnlyFrom(old(outp))
    {
      assert Unlock(0);
      outb[outp] := v;
      outp := outp + 1;
      text := text + [v];
    }

    /** One pass of the loop: a literal, a match, the end of the block or an error. */
    method OneSymbol()
      requires Valid() && mode == LEN && bits <= 30 && Left() >= 48 && outp + 258 <= limit
      modifies this`inp, this`hold, this`bits, this`outp, this`mode, this`text, outb
      ensures Valid() && bits <= 30 && old(outp) <= outp && (mode == LEN ==> old(outp) < outp)
      ensures OnlyFrom(old(outp))
      ensures Stepped(tables, old(text), old(Unread()), State(text, Unread(), mode))
    {
      Fill15();
      ghost var b, t := Unread(), text;
      var here := DecodeSymbol(false);
      ghost var n := |b| - |Unread()|;
      StepOther(tables, t, b, here, n);
      if here.op == 0 {
        Literal(here.val);
      } else if IsBase(here) {
        NumBound(Unread()[..here.op % 16]);
        var len := Extra(here.val, here.op % 16);
        ExtraOf(b, n, here.op % 16);
        StepMatch(tables, t, b, here, n, len);
        DecodeDistance(len);
      } else if IsEnd(here) {
        mode := TYPE;
      } else {
        mode := BAD;
      }
    }

    /** Give back the whole bytes that are still held, and clear them in the accumulator. */
    method ReturnUnused(ghost h0: nat, ghost n0: nat)
      requires Valid() && n0 < 8
      requires Suffix(Bits(h0, n0) + ByteBits(input), Unread())
      modifies this`inp, this`hold, this`bits
      ensures Valid() && bits < 8 && Unread() == old(Unread())
      ensures inp == old(inp) - old(bits) / 8
    {
      assert Unlock(0);
      GivenBack(input, h0, n0, inp, hold, bits);
      var len := bits / 8;
      inp := inp - len;
      bits := bits - 8 * len;
      hold := Low(hold, bits);
    }

    /** The loop over the symbols, as long as there is enough input and output space for a whole pass. */
    method Loop() returns (ghost k: nat)
      requires Valid() && mode == LEN && bits < 8 && inp + 6 <= |input| && outp + 258 <= limit
      modifies this`inp, this`hold, this`bits, this`outp, this`mode, this`text, outb
      ensures Valid() && bits <= 30 && old(outp) <= outp && k > 0
      ensures (mode != LEN || inp + 6 > |input| || outp + 258 > limit)
      ensures OnlyFrom(old(outp))
      ensures Suffix(old(Unread()), Unread())
      ensures Reached(tables, old(text), old(Unread()), k, State(text, Unread(), mode))
    {
      ghost var t0, b0 := text, Unread();
      Start(tables, t0, b0);
      k := 0;
      var again := true;
      while again
        invariant Valid() && bits <= 30 && Suffix(b0, Unread()) && old(outp) <= outp && OnlyFrom(old(outp))
        invariant Reached(tables, t0, b0, k, State(text, Unread(), mode))
        invariant again ==> mode == LEN && inp + 6 <= |input| && outp + 258 <= limit
        invariant !again ==> k > 0 && (mode != LEN || inp + 6 > |input| || outp + 258 > limit)
        decreases again, limit - outp
      {
        ghost var t, b := text, Unread();
        OneSymbol();
        OneMore(tables, t0, b0, k, t, b, State(text, Unread(), mode));
        k := k + 1;
        again := mode == LEN && inp + 5 < |input| && outp + 257 < limit;
      }
    }

    /** The input and output space left, counted from the two sentinels of the loop. */
    method Remaining() returns (availIn: nat, availOut: nat)
      requires inp <= |input| && outp <= limit
      ensures availIn == |input| - inp && availOut == limit - outp
    {
      var last, end := |input| - 5, limit - 257;
      availIn := if inp < last then 5 + (last - inp) else 5 - (inp - last);
      availOut := if outp < end then 257 + (end - outp) else 257 - (outp - end);
    }

    /** The loop and the return of unused bytes. */
    method LoopAndReturn() returns (ghost k: nat)
      requires Valid() && mode == LEN && bits < 8 && inp == 0 && 6 <= |input| && outp + 258 <= limit
      modifies this`inp, this`hold, this`bits, this`outp, this`mode, this`text, outb
      ensures Valid() && bits < 8 && old(outp) <= outp && k > 0
      ensures (mode != LEN || inp + 9 > |input| || outp + 258 > limit)
      ensures OnlyFrom(old(outp))
      ensures Reached(tables, old(text), old(Unread()), k, State(text, Unread(), mode))
    {
      ghost var h0, n0 := hold, bits;
      assert Unread() == Bits(h0, n0) + ByteBits(input) by { assert input[0..] == input; }
      k := Loop();
      ReturnUnused(h0, n0);
    }

    /**
     * The whole function. What is decoded is what the symbol-by-symbol definition decodes, neither buffer is
     * overrun, and afterwards fewer than 8 bits are held: they and the input not taken are the unread stream.
     */
    method Run(availIn: nat, availOut: nat) returns (availIn': nat, availOut': nat, ghost k: nat)
      requires Valid() && mode == LEN && bits < 8 && inp == 0
      requires availIn == |input| >= 6 && availOut == limit - outp >= 258
      modifies this`inp, this`hold, this`bits, this`outp, this`mode, this`text, outb
      ensures Valid() && bits < 8 && hold < 0x100
      ensures availIn' == |input| - inp && availOut' == limit - outp
      ensures old(outp) <= outp <= limit
      ensures forall j :: 0 <= j < outb.Length && !(old(outp) <= j < outp) ==> outb[j] == old(outb[j])
      ensures GoodTables(tables)
      ensures State(text, Unread(), mode) == Deflate.Run(tables, old(text), old(Unread()), k)
      ensures k > 0 && (mode != LEN || availIn' < 9 || availOut' < 258)
    {
      k := LoopAndReturn();
      SmallHold();
      availIn', availOut' := Remaining();
      assert Unlock(0);
      forall j | 0 <= j < outb.Length && !(old(outp) <= j < outp)
        ensures outb[j] == old(outb[j])
      {
        assert Slot(j);
      }
    }
  }

  // ----- one pass, on values; the definitions are unfolded only here

  ghost predicate Decoded(t: Tables, dist: bool, b: seq<bool>, here: Code, n: nat) {
    forall i {:trigger Unlock(i)} :: Unlock(i) ==>
      && GoodTables(t) && |b| >= 15
      && (here, n) == Resolve(if dist then t.dcode else t.lcode, if dist then t.droot else t.lroot, dist, b)
  }

  /** The same for one table. */
  ghost predicate Found(codes: seq<Code>, root: nat, dist: bool, b: seq<bool>, here: Code, n: nat) {
    forall i {:trigger Unlock(i)} :: Unlock(i) ==>
      GoodTable(codes, root, dist) && |b| >= 15 && (here, n) == Resolve(codes, root, dist, b)
  }

  ghost predicate Matched(t: Tables, text: seq<byte>, len: nat, b: seq<bool>, s: State) {
    forall i {:trigger Unlock(i)} :: Unlock(i) ==> GoodTables(t) && |b| >= 28 && s == Distance(t, text, len, b)
  }

  ghost predicate Stepped(t: Tables, text: seq<byte>, b: seq<bool>, s: State) {
    forall i {:trigger Unlock(i)} :: Unlock(i) ==> GoodTables(t) && |b| >= 48 && s == Step(t, text, b)
  }

  ghost predicate Reached(t: Tables, text: seq<byte>, b: seq<bool>, k: nat, s: State) {
    forall i {:trigger Unlock(i)} :: Unlock(i) ==> GoodTables(t) && s == Run(t, text, b, k)
  }

  lemma RootIndex(codes: seq<Code>, root: nat, dist: bool, b: seq<bool>)
    requires GoodTable(codes, root, dist) && |b| >= 15
    ensures Num(b[..root]) < Shl(1, root) && GoodEntry(codes, codes[Num(b[..root])], dist)
  {
    NumBound(b[..root]);
  }

  lemma ExtraOf(b: seq<bool>, n: nat, y: nat)
    requires n + y <= |b|
    ensures b[n..][..y] == b[n..n + y] && b[n..][y..] == b[n + y..]
  {
  }

  lemma NoMatch(t: Tables, text: seq<byte>, len: nat, b: seq<bool>, d: Code, m: nat)
    requires Decoded(t, true, b, d, m) && !IsBase(d) && |b| >= 28 && m <= |b|
    ensures Matched(t, text, len, b, State(text, b[m..], BAD))
  {
    assert Unlock(0);
  }

  lemma MatchTaken(t: Tables, text: seq<byte>, len: nat, b: seq<bool>, d: Code, m: nat, dist: nat, rest: seq<bool>)
    requires Decoded(t, true, b, d, m) && IsBase(d) && |b| >= 28 && m + d.op % 16 <= |b|
    requires dist == d.val + Num(b[m..][..d.op % 16]) && rest == b[m..][d.op % 16..]
    ensures dist > |text| ==> Matched(t, text, len, b, State(text, rest, BAD))
    ensures 1 <= dist <= |text| ==> Matched(t, text, len, b, State(Copy(text, dist, len), rest, LEN))
  {
    assert Unlock(0);
  }

  lemma StepOther(t: Tables, text: seq<byte>, b: seq<bool>, e: Code, n: nat)
    requires Decoded(t, false, b, e, n) && |b| >= 48 && n <= |b| && GoodLeaf(e, false)
    ensures e.op == 0 ==> Stepped(t, text, b, State(text + [e.val], b[n..], LEN))
    ensures e.op != 0 && !IsBase(e) ==> Stepped(t, text, b, State(text, b[n..], if IsEnd(e) then TYPE else BAD))
  {
    assert Unlock(0);
  }

  lemma StepMatch(t: Tables, text: seq<byte>, b: seq<bool>, e: Code, n: nat, len: nat)
    requires Decoded(t, false, b, e, n) && |b| >= 48 && IsBase(e) && n + e.op % 16 <= 20
    requires len == e.val + Num(b[n..][..e.op % 16])
    ensures forall s {:trigger Matched(t, text, len, b[n..][e.op % 16..], s)} ::
              Matched(t, text, len, b[n..][e.op % 16..], s) ==> Stepped(t, text, b, s)
  {
    forall s | Matched(t, text, len, b[n..][e.op % 16..], s)
      ensures Stepped(t, text, b, s)
    {
      StepMatched(t, text, b, e, n, len, s);
    }
  }

  /** A length base is followed by the distance. */
  lemma StepIsDistance(t: Tables, text: seq<byte>, b: seq<bool>, e: Code, n: nat, len: nat)
    requires GoodTables(t) && |b| >= 48 && IsBase(e) && n + e.op % 16 <= 20
    requires (e, n) == Resolve(t.lcode, t.lroot, false, b) && len == e.val + Num(b[n..][..e.op % 16])
    ensures Step(t, text, b) == Distance(t, text, len, b[n..][e.op % 16..])
  {
  }

  lemma ResolvedIsDecoded(t: Tables, dist: bool, b: seq<bool>, here: Code, n: nat)
    requires forall i {:trigger Unlock(i)} :: Unlock(i) ==> GoodTables(t)
    requires Found(if dist then t.dcode else t.lcode, if dist then t.droot else t.lroot, dist, b, here, n)
    ensures Decoded(t, dist, b, here, n)
  {
  }

  lemma StepMatched(t: Tables, text: seq<byte>, b: seq<bool>, e: Code, n: nat, len: nat, s: State)
    requires Decoded(t, false, b, e, n) && |b| >= 48 && IsBase(e) && n + e.op % 16 <= 20
    requires len == e.val + Num(b[n..][..e.op % 16])
    requires Matched(t, text, len, b[n..][e.op % 16..], s)
    ensures Stepped(t, text, b, s)
  {
    assert Unlock(0);
    StepIsDistance(t, text, b, e, n, len);
  }

  /** `c` is what is left of `b` after some bits. */
  ghost predicate Suffix(b: seq<bool>, c: seq<bool>) {
    |c| <= |b| && forall i {:trigger Unlock(i)} :: Unlock(i) ==> c == b[|b| - |c|..]
  }

  lemma Dropped(a: seq<bool>, b: seq<bool>, n: nat)
    requires Suffix(a, b) && n <= |b|
    ensures Suffix(a, b[n..])
  {
    assert Unlock(0);
  }

  lemma DistanceDrops(t: Tables, text: seq<byte>, len: nat, a: seq<bool>, b: seq<bool>)
    requires GoodTables(t) && |b| >= 28 && Suffix(a, b)
    ensures Suffix(a, Distance(t, text, len, b).rest)
  {
    var (d, m) := Resolve(t.dcode, t.droot, true, b);
    Dropped(a, b, m);
    if IsBase(d) {
      Dropped(a, b[m..], d.op % 16);
    }
  }

  /** Decoding only drops bits from the front. */
  lemma StepDrops(t: Tables, text: seq<byte>, a: seq<bool>, b: seq<bool>)
    requires GoodTables(t) && |b| >= 48 && Suffix(a, b)
    ensures Suffix(a, Step(t, text, b).rest)
  {
    var (e, n) := Resolve(t.lcode, t.lroot, false, b);
    Dropped(a, b, n);
    if e.op != 0 && IsBase(e) {
      var x := e.op % 16;
      Dropped(a, b[n..], x);
      DistanceDrops(t, text, e.val + Num(b[n..][..x]), a, b[n..][x..]);
    }
  }

  lemma Start(t: Tables, text: seq<byte>, b: seq<bool>)
    requires forall i {:trigger Unlock(i)} :: Unlock(i) ==> GoodTables(t)
    ensures Suffix(b, b) && Reached(t, text, b, 0, State(text, b, LEN))
  {
    assert Unlock(0);
  }

  lemma OneMore(t: Tables, t0: seq<byte>, b0: seq<bool>, k: nat, text: seq<byte>, b: seq<bool>, s: State)
    requires Reached(t, t0, b0, k, State(text, b, LEN)) && Stepped(t, text, b, s)
    requires Suffix(b0, b) && |b| >= 48
    ensures Reached(t, t0, b0, k + 1, s) && Suffix(b0, s.rest)
  {
    assert Unlock(0);
    StepDrops(t, text, b0, b);
  }

  /** Whole bytes still held are the last bytes taken from the input. */
  lemma GivenBack(input: seq<byte>, h0: nat, n0: nat, inp: nat, hold: nat, bits: nat)
    requires n0 < 8 && inp <= |input| && Shr(hold, bits) == 0 && bits <= n0 + 8 * inp
    requires Bits(hold, bits) + ByteBits(input[inp..]) == (Bits(h0, n0) + ByteBits(input))[n0 + 8 * inp - bits..]
    ensures bits / 8 <= inp && Shr(Low(hold, bits % 8), bits % 8) == 0
    ensures Bits(Low(hold, bits % 8), bits % 8) + ByteBits(input[inp - bits / 8..]) ==
              Bits(hold, bits) + ByteBits(input[inp..])
  {
    var n, i := bits % 8, inp - bits / 8;
    LowKeeps(hold, bits, n);
    ByteBitsSuffix(input, i);
    var whole := Bits(h0, n0) + ByteBits(input);
    var unread := Bits(hold, bits) + ByteBits(input[inp..]);
    DropTwice(whole, unread, n0 + 8 * inp - bits, n);
    DropFront(Bits(h0, n0), ByteBits(input), 8 * i);
    assert unread[..n] == Bits(hold, bits)[..n];
    assert unread == unread[..n] + unread[n..];
  }

  lemma DropTwice(w: seq<bool>, u: seq<bool>, a: nat, n: nat)
    requires a + n <= |w| && u == w[a..]
    ensures u[n..] == w[a + n..]
  {
  }

  lemma DropFront(a: seq<bool>, b: seq<bool>, k: nat)
    requires k <= |b|
    ensures (a + b)[|a| + k..] == b[k..]
  {
  }

  lemma ByteIsSmall(b: byte)
    ensures Shr(b, 8) == 0
  {
    assert b / 2 / 2 / 2 / 2 / 2 / 2 / 2 / 2 == 0;
    assert Shr(b, 8) == Shr(b / 2 / 2 / 2 / 2, 4);
  }
}
