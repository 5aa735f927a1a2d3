/** Any sequence of calls on one open file, against a plain byte array. */
module FileSession {
  import opened Bytes
  import opened FatTable
  import opened FatWindow
  import opened FatAlloc
  import opened FileMap
  import opened FatFile

  datatype Op = Read(n: nat) | Write(data: seq<byte>) | Seek(ofs: nat)

  datatype Event = DidRead(data: seq<byte>) | DidWrite(count: nat) | DidSeek

  /** A plain byte array with a position. */
  datatype Plain = Plain(bytes: seq<byte>, pos: nat)

  /**
   * What one call does to the plain byte array. A write may be short only at 4 GiB or when the volume has no `room`,
   * and only then may a seek stop early; a seek behind the end makes the file longer, with any contents.
   */
  ghost predicate Follows(op: Op, event: Event, s: Plain, t: Plain, room: bool) {
    && s.pos <= |s.bytes| && t.pos <= |t.bytes|
    && match (op, event)
       case (Read(n), DidRead(data)) =>
         && t == Plain(s.bytes, if s.pos + n <= |s.bytes| then s.pos + n else |s.bytes|)
         && data == s.bytes[s.pos..t.pos]
       case (Write(data), DidWrite(count)) =>
         && count <= |data|
         && t == Plain(Overwrite(s.bytes, s.pos, data[..count]), s.pos + count)
         && (count == |data| || t.pos == 0xFFFF_FFFF || !room)
       case (Seek(ofs), DidSeek) =>
         if ofs <= |s.bytes| then t == Plain(s.bytes, ofs) else
           && s.bytes <= t.bytes && |t.bytes| == t.pos <= ofs
           && (t.pos == ofs || t.pos == 0xFFFF_FFFF || !room)
       case _ => false
  }

  ghost predicate Trace(ops: seq<Op>, events: seq<Event>, states: seq<Plain>, room: bool) {
    && |events| <= |ops| && |states| == |events| + 1
    && forall i :: 0 <= i < |events| ==> Follows(ops[i], events[i], states[i], states[i + 1], room)
  }

  /** Some cluster is free, and the stored count does not deny it. */
  ghost predicate HasRoom(v: Volume)
    reads v`fat, v`freeClst
  {
    !(Full(v.fat) || v.freeClst == 0)
  }

  /** One call of f_read, f_write or f_lseek. */
  method Call(f: File, op: Op) returns (res: FResult, event: Event)
    requires f.Valid() && f.err == Ok && f.canRead && f.canWrite
    requires op.Write? ==> |op.data| <= 0xFFFF_FFFF
    modifies f, f.buf, f.vol`disk, f.vol`rest, f.vol`wflag, f.vol`winsect, f.vol`readCount, f.vol`writeCount
    modifies f.vol`sectors, f.vol`image, f.vol`fat, f.vol`freeClst, f.vol`lastClst, f.vol.win
    modifies f.vol`readMark, f.vol`writeMark, f.vol`differed
    ensures f.vol.Valid() && res == f.err
    ensures res == Ok ==>
              f.Valid() && Follows(op, event, Plain(old(f.bytes), old(f.fptr)), Plain(f.bytes, f.fptr), HasRoom(f.vol))
    ensures HasRoom(f.vol) ==> old(HasRoom(f.vol))
    ensures old(f.vol.readCount) <= f.vol.readCount && old(f.vol.writeCount) <= f.vol.writeCount
    ensures || res == Ok
            || (res == DiskErr && f.vol.FailedSince(old(f.vol.readCount), old(f.vol.writeCount)))
            || (res == IntErr && BadEntry(f.vol.fat))
  {
    f.vol.Mark();
    res, event := Perform(f, op);
    f.vol.MarkedBefore();
  }

  /** The call itself */
  method Perform(f: File, op: Op) returns (res: FResult, event: Event)
    requires f.Valid() && f.err == Ok && f.canRead && f.canWrite
    requires op.Write? ==> |op.data| <= 0xFFFF_FFFF
    modifies f, f.buf, f.vol`disk, f.vol`rest, f.vol`wflag, f.vol`winsect, f.vol`readCount, f.vol`writeCount
    modifies f.vol`sectors, f.vol`image, f.vol`fat, f.vol`freeClst, f.vol`lastClst, f.vol.win
    ensures f.vol.Valid() && res == f.err
    ensures res == Ok ==>
              f.Valid() && Follows(op, event, Plain(old(f.bytes), old(f.fptr)), Plain(f.bytes, f.fptr), HasRoom(f.vol))
    ensures HasRoom(f.vol) ==> old(HasRoom(f.vol))
    ensures res == Ok || (res == DiskErr && f.vol.Failed()) || (res == IntErr && BadEntry(f.vol.fat))
  {
    match op {
      case Read(n) =>
        var denied, buff;
        res, denied, buff := f.FRead(n);
        event := DidRead(buff);
      case Write(data) =>
        var denied, bw;
        res, denied, bw := f.FWrite(data);
        event := DidWrite(bw);
      case Seek(ofs) =>
        res := f.FLseek(ofs);
        event := DidSeek;
    }
  }

  /**
   * Every interleaving of reads, writes and seeks behaves as on a plain byte array, until an error. If the volume has
   * room at the end, no write below 4 GiB was short and no seek stopped early; an error is the medium's or a bad FAT's.
   */
  method Session(f: File, ops: seq<Op>) returns (res: FResult, events: seq<Event>, ghost states: seq<Plain>)
    requires f.Valid() && f.err == Ok && f.canRead && f.canWrite
    requires forall i :: 0 <= i < |ops| && ops[i].Write? ==> |ops[i].data| <= 0xFFFF_FFFF
    modifies f, f.buf, f.vol`disk, f.vol`rest, f.vol`wflag, f.vol`winsect, f.vol`readCount, f.vol`writeCount
    modifies f.vol`sectors, f.vol`image, f.vol`fat, f.vol`freeClst, f.vol`lastClst, f.vol.win
    modifies f.vol`readMark, f.vol`writeMark, f.vol`differed
    ensures f.vol.Valid() && res == f.err
    ensures Trace(ops, events, states, HasRoom(f.vol)) && states[0] == Plain(old(f.bytes), old(f.fptr))
    ensures || res == Ok
            || (res == DiskErr && f.vol.FailedSince(old(f.vol.readCount), old(f.vol.writeCount)))
            || (res == IntErr && BadEntry(f.vol.fat))
    ensures res == Ok ==> |events| == |ops| && f.Valid() && states[|ops|] == Plain(f.bytes, f.fptr)
  {
    res, events := Ok, [];
    states := [Plain(f.bytes, f.fptr)];
    while |events| < |ops| && res == Ok
      invariant f.vol.Valid() && res == f.err
      invariant Trace(ops, events, states, HasRoom(f.vol)) && states[0] == Plain(old(f.bytes), old(f.fptr))
      invariant old(f.vol.readCount) <= f.vol.readCount && old(f.vol.writeCount) <= f.vol.writeCount
      invariant || res == Ok
                || (res == DiskErr && f.vol.FailedSince(old(f.vol.readCount), old(f.vol.writeCount)))
                || (res == IntErr && BadEntry(f.vol.fat))
      invariant res == Ok ==> f.Valid() && states[|events|] == Plain(f.bytes, f.fptr)
      decreases |ops| - |events|, res == Ok
    {
      var event;
      res, event := Call(f, ops[|events|]);
      if res == Ok {
        events, states := events + [event], states + [Plain(f.bytes, f.fptr)];
      }
    }
  }

  /**
   * No session on a file changes a sector or a link of another chain, whatever the calls and whatever the medium does.
   */
  method SessionKeepsOthers(f: File, ops: seq<Op>, ghost other: seq<nat>) returns (res: FResult)
    requires f.Valid() && f.err == Ok && f.canRead && f.canWrite
    requires forall i :: 0 <= i < |ops| && ops[i].Write? ==> |ops[i].data| <= 0xFFFF_FFFF
    requires IsChain(f.vol.fat, other) && Disjoint(other, f.chain)
    modifies f, f.buf, f.vol, f.vol.win
    ensures IsChain(f.vol.fat, other)
    ensures forall q: nat {:trigger At(q)} :: At(q) && q < |Sectors(f.vol.database, f.vol.csize, other)| ==>
              var s := Sectors(f.vol.database, f.vol.csize, other)[q];
              0 <= s < |f.vol.rest| && s < |old(f.vol.rest)| && f.vol.rest[s] == old(f.vol.rest)[s]
  {
    f.Guard(other);
    ghost var guard, links, fat0 := f.vol.guard, f.vol.links, f.vol.fat;
    var events;
    ghost var states;
    res, events, states := Session(f, ops);
    assert f.vol.guard == guard && f.vol.kept == old(f.vol.rest);
    assert f.vol.links == links && f.vol.keptFat == fat0;
    f.vol.StillKept();
    forall c | c in other
      ensures c < |f.vol.fat| && f.vol.fat[c] == fat0[c]
    {
      assert c in f.vol.links;
    }
    ChainFrame(fat0, f.vol.fat, other);
    forall q: nat {:trigger At(q)} | At(q) && q < |Sectors(f.vol.database, f.vol.csize, other)|
      ensures var s := Sectors(f.vol.database, f.vol.csize, other)[q];
              0 <= s < |f.vol.rest| && s < |old(f.vol.rest)| && f.vol.rest[s] == old(f.vol.rest)[s]
    {
      var s := Sectors(f.vol.database, f.vol.csize, other)[q];
      assert s in guard;
      assert s in f.vol.guard;
    }
  }

  /** The plain byte array after a trace without seeks behind its end, computed from the calls alone. */
  ghost function Replay(ops: seq<Op>, events: seq<Event>, s: Plain): Plain
    requires |ops| == |events|
  {
    if ops == [] then s
    else
      var n := |ops| - 1;
      var t := Replay(ops[..n], events[..n], s);
      match (ops[n], events[n])
      case (Read(k), DidRead(data)) => Plain(t.bytes, t.pos + |data|)
      case (Write(data), DidWrite(count)) =>
        if t.pos <= |t.bytes| && count <= |data| then
          Plain(Overwrite(t.bytes, t.pos, data[..count]), t.pos + count)
        else t
      case (Seek(ofs), DidSeek) => Plain(t.bytes, ofs)
      case _ => t
  }

  /** Without seeks behind the end, a trace is determined by the calls: reads return what earlier writes put there. */
  lemma {:induction false} TraceIsReplay(ops: seq<Op>, events: seq<Event>, states: seq<Plain>, room: bool, i: nat)
    requires Trace(ops, events, states, room) && |ops| == |events| && i < |states|
    requires forall k :: 0 <= k < |ops| && ops[k].Seek? ==> ops[k].ofs <= |states[k].bytes|
    ensures states[i] == Replay(ops[..i], events[..i], states[0])
  {
    if i > 0 {
      TraceIsReplay(ops, events, states, room, i - 1);
      assert ops[..i][..i - 1] == ops[..i - 1] && events[..i][..i - 1] == events[..i - 1];
      assert Follows(ops[i - 1], events[i - 1], states[i - 1], states[i], room);
    }
  }
}
