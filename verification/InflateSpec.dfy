/** Bit strings, least significant bit first, as deflate packs them into bytes. */
module BitString {
  import opened Bytes

  /** `v` shifted right by `k`. */
  function Shr(v: nat, k: nat): nat
    decreases k
  {
    if k == 0 then v else Shr(v / 2, k - 1)
  }

  /** `v` shifted left by `k`. */
  function Shl(v: nat, k: nat): nat {
    if k == 0 then v else 2 * Shl(v, k - 1)
  }

  /** The `k` lowest bits of `v`. */
  function Low(v: nat, k: nat): nat
    decreases k
  {
    if k == 0 then 0 else v % 2 + 2 * Low(v / 2, k - 1)
  }

  /** The lowest `n` bits of `v`. */
  function Bits(v: nat, n: nat): (r: seq<bool>)
    ensures |r| == n
  {
    if n == 0 then [] else [v % 2 == 1] + Bits(v / 2, n - 1)
  }

  /** The number a bit string stands for. */
  function Num(b: seq<bool>): nat {
    if b == [] then 0 else (if b[0] then 1 else 0) + 2 * Num(b[1..])
  }

  /** The bits of a byte string. */
  function ByteBits(s: seq<byte>): (r: seq<bool>)
    ensures |r| == 8 * |s|
  {
    if s == [] then [] else Bits(s[0], 8) + ByteBits(s[1..])
  }

  lemma {:induction false} NumBound(b: seq<bool>)
    ensures Num(b) < Shl(1, |b|)
  {
    if b != [] {
      NumBound(b[1..]);
    }
  }

  lemma {:induction false} SmallFits(v: nat, n: nat)
    ensures Shr(v, n) == 0 <==> v < Shl(1, n)
    decreases n
  {
    if n > 0 {
      SmallFits(v / 2, n - 1);
    }
  }

  lemma {:induction false} ShlMono(a: nat, b: nat)
    requires a <= b
    ensures Shl(1, a) <= Shl(1, b)
  {
    if a < b {
      ShlMono(a, b - 1);
    }
  }

  /** Shifting right drops the first bits. */
  lemma {:induction false} ShiftDrops(v: nat, n: nat, k: nat)
    requires k <= n
    ensures Bits(Shr(v, k), n - k) == Bits(v, n)[k..]
    ensures Shr(Shr(v, k), n - k) == Shr(v, n)
    decreases k
  {
    if k > 0 {
      ShiftDrops(v / 2, n - 1, k - 1);
    }
  }

  /** The low bits, as a number. */
  lemma {:induction false} LowIsNum(v: nat, n: nat, k: nat)
    requires k <= n
    ensures Low(v, k) == Num(Bits(v, n)[..k])
    decreases k
  {
    if k > 0 {
      LowIsNum(v / 2, n - 1, k - 1);
      assert Bits(v, n)[..k][1..] == Bits(v / 2, n - 1)[..k - 1];
    }
  }

  /** Masking keeps the first bits and nothing else. */
  lemma {:induction false} LowKeeps(v: nat, n: nat, k: nat)
    requires k <= n
    ensures Bits(Low(v, k), k) == Bits(v, n)[..k]
    ensures Shr(Low(v, k), k) == 0
    decreases k
  {
    if k > 0 {
      LowKeeps(v / 2, n - 1, k - 1);
      var l := Low(v / 2, k - 1);
      assert (v % 2 + 2 * l) / 2 == l && (v % 2 + 2 * l) % 2 == v % 2;
    }
  }

  /** Adding a byte above the held bits appends its bits. */
  lemma {:induction false} LoadAppends(v: nat, n: nat, b: nat, k: nat)
    requires Shr(v, n) == 0
    ensures Bits(v + Shl(b, n), n + k) == Bits(v, n) + Bits(b, k)
    ensures Shr(v + Shl(b, n), n + k) == Shr(b, k)
    decreases n
  {
    if n > 0 {
      var l := Shl(b, n - 1);
      assert (v + 2 * l) / 2 == v / 2 + l && (v + 2 * l) % 2 == v % 2;
      LoadAppends(v / 2, n - 1, b, k);
    }
  }

  lemma {:induction false} ByteBitsSuffix(s: seq<byte>, i: nat)
    requires i <= |s|
    ensures ByteBits(s)[8 * i..] == ByteBits(s[i..])
  {
    if i > 0 {
      ByteBitsSuffix(s[1..], i - 1);
      assert s[1..][i - 1..] == s[i..];
    } else {
      assert s[0..] == s;
    }
  }
}

/** Deflate decoding of one symbol at a time, on bit strings (RFC 1951, sections 3.2.3 and 3.2.5). */
module Deflate {
  import opened Bytes
  import opened BitString

  /** A decoding table entry: operation or extra bits, code bits used, value or offset. */
  datatype Code = Code(op: nat, bits: nat, val: nat)

  datatype Tables = Tables(lcode: seq<Code>, lroot: nat, dcode: seq<Code>, droot: nat)

  datatype Mode = LEN | TYPE | BAD

  datatype State = State(text: seq<byte>, rest: seq<bool>, mode: Mode)

  /** Bit 4 of the operation: a length or distance base. */
  predicate IsBase(c: Code) {
    c.op / 16 % 2 == 1
  }

  /** Neither bit 4 nor bit 6 of the operation, which is not 0: an entry that leads to a second-level table. */
  predicate IsLink(c: Code) {
    c.op != 0 && !IsBase(c) && c.op / 64 % 2 == 0
  }

  predicate IsEnd(c: Code) {
    c.op / 32 % 2 == 1
  }

  /** A value of a length or distance code that may occur in deflate data. */
  predicate GoodLeaf(c: Code, dist: bool) {
    && !IsLink(c)
    && (dist ==> c.op != 0)
    && (c.op == 0 ==> c.val < 0x100)
    && (IsBase(c) ==>
      if dist then 1 <= c.val && c.op % 16 <= 13 else 3 <= c.val && c.op % 16 <= 5 && c.val + Shl(1, c.op % 16) <= 259)
  }

  /** Entry `j` of the second-level table that `c` leads to. */
  function SubEntry(codes: seq<Code>, c: Code, j: nat): Code
    requires c.val + j < |codes|
  {
    codes[c.val + j]
  }

  /** An entry of the first-level table, with what it leads to. */
  ghost predicate GoodEntry(codes: seq<Code>, c: Code, dist: bool) {
    if IsLink(c) then
      && c.bits + c.op <= 15
      && c.val + Shl(1, c.op) <= |codes|
      && forall j: nat {:trigger SubEntry(codes, c, j)} :: j < Shl(1, c.op) ==>
           GoodLeaf(SubEntry(codes, c, j), dist) && c.bits + SubEntry(codes, c, j).bits <= 15
    else c.bits <= 15 && GoodLeaf(c, dist)
  }

  /** What the table builder guarantees: codes of at most 15 bits, two levels, lengths up to 258. */
  ghost predicate GoodTable(codes: seq<Code>, root: nat, dist: bool) {
    && root <= 15 && Shl(1, root) <= |codes|
    && forall i {:trigger codes[i]} :: 0 <= i < Shl(1, root) ==> GoodEntry(codes, codes[i], dist)
  }

  ghost predicate GoodTables(t: Tables) {
    GoodTable(t.lcode, t.lroot, false) && GoodTable(t.dcode, t.droot, true)
  }

  /** The leaf entry for the next code in `b`, and the bits of the code. */
  ghost function Resolve(codes: seq<Code>, root: nat, dist: bool, b: seq<bool>): (r: (Code, nat))
    requires GoodTable(codes, root, dist) && |b| >= 15
    ensures GoodLeaf(r.0, dist) && r.1 <= 15
  {
    NumBound(b[..root]);
    var c := codes[Num(b[..root])];
    assert GoodEntry(codes, c, dist);
    if IsLink(c) then
      NumBound(b[c.bits..c.bits + c.op]);
      var d := SubEntry(codes, c, Num(b[c.bits..c.bits + c.op]));
      (d, c.bits + d.bits)
    else (c, c.bits)
  }

  /** `text` followed by `n` bytes, each equal to the one `dist` positions before it. */
  function Copy(text: seq<byte>, dist: nat, n: nat): (r: seq<byte>)
    requires 1 <= dist <= |text|
    ensures |r| == |text| + n && text <= r
  {
    if n == 0 then text
    else
      var u := Copy(text, dist, n - 1);
      u + [u[|u| - dist]]
  }

  /** The rule of RFC 1951 for every copied byte, overlapping or not. */
  lemma {:induction false} CopyAt(text: seq<byte>, dist: nat, n: nat, k: nat)
    requires 1 <= dist <= |text| && k < n
    ensures Copy(text, dist, n)[|text| + k] == Copy(text, dist, n)[|text| + k - dist]
  {
    var u := Copy(text, dist, n - 1);
    if k < n - 1 {
      CopyAt(text, dist, n - 1, k);
    }
  }

  /** The first `dist` bytes of a match are the last `dist` bytes of the text before it. */
  lemma {:induction false} CopyShort(text: seq<byte>, dist: nat, n: nat, k: nat)
    requires 1 <= dist <= |text| && k < n && k < dist
    ensures Copy(text, dist, n)[|text| + k] == text[|text| - dist + k]
  {
    if k < n - 1 {
      CopyShort(text, dist, n - 1, k);
    } else {
      assert text <= Copy(text, dist, n - 1);
    }
  }

  /** Decode the distance of a match of length `len` and copy it. A distance may not reach behind `text`. */
  ghost function Distance(t: Tables, text: seq<byte>, len: nat, b: seq<bool>): State
    requires GoodTables(t) && |b| >= 28
  {
    var (d, m) := Resolve(t.dcode, t.droot, true, b);
    var b1 := b[m..];
    if IsBase(d) then
      var y := d.op % 16;
      var dist := d.val + Num(b1[..y]);
      if dist > |text| then State(text, b1[y..], BAD) else State(Copy(text, dist, len), b1[y..], LEN)
    else State(text, b1, BAD)
  }

  /** Decode one literal, match, end of block or error. */
  ghost function Step(t: Tables, text: seq<byte>, b: seq<bool>): State
    requires GoodTables(t) && |b| >= 48
  {
    var (e, n) := Resolve(t.lcode, t.lroot, false, b);
    var b1 := b[n..];
    if e.op == 0 then State(text + [e.val], b1, LEN)
    else if IsBase(e) then
      var x := e.op % 16;
      var len := e.val + Num(b1[..x]);
      Distance(t, text, len, b1[x..])
    else State(text, b1, if IsEnd(e) then TYPE else BAD)
  }

  /** After `k` symbols, as long as there is input for the next one and decoding goes on. */
  ghost function Run(t: Tables, text: seq<byte>, b: seq<bool>, k: nat): State
    requires GoodTables(t)
  {
    if k == 0 then State(text, b, LEN)
    else
      var s := Run(t, text, b, k - 1);
      if s.mode == LEN && |s.rest| >= 48 then Step(t, s.text, s.rest) else s
  }
}
