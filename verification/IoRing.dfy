/** The submission and completion rings of io_uring: free-running 32-bit counters over power-of-two arrays. */
module IoRing {
  import opened Bytes
  import opened BitString

  /** An unsigned counter that wraps around. */
  function Wrap(x: nat): (r: nat)
    ensures r < 0x1_0000_0000
  {
    x % 0x1_0000_0000
  }

  lemma {:induction false} LowBound(v: nat, k: nat)
    ensures Low(v, k) < Shl(1, k)
    decreases k
  {
    if k > 0 {
      LowBound(v / 2, k - 1);
    }
  }

  lemma {:induction false} LowDrops(v: nat, n: nat, k: nat)
    requires k <= n && v >= Shl(1, n)
    ensures Low(v - Shl(1, n), k) == Low(v, k)
    decreases k
  {
    if k > 0 {
      var h := Shl(1, n - 1);
      assert Shl(1, n) == 2 * h && (v - 2 * h) / 2 == v / 2 - h && (v - 2 * h) % 2 == v % 2;
      LowDrops(v / 2, n - 1, k - 1);
    }
  }

  lemma Shl32()
    ensures Shl(1, 32) == 0x1_0000_0000
  {
    assert Shl(1, 8) == 0x100 by {
      assert Shl(1, 2) == 4 && Shl(1, 4) == 4 * Shl(1, 2) && Shl(1, 6) == 4 * Shl(1, 4);
    }
    assert Shl(1, 16) == 0x1_0000 by {
      assert Shl(1, 10) == 4 * Shl(1, 8) && Shl(1, 12) == 4 * Shl(1, 10) && Shl(1, 14) == 4 * Shl(1, 12);
    }
    assert Shl(1, 24) == 0x100_0000 by {
      assert Shl(1, 18) == 4 * Shl(1, 16) && Shl(1, 20) == 4 * Shl(1, 18) && Shl(1, 22) == 4 * Shl(1, 20);
    }
    assert Shl(1, 26) == 4 * Shl(1, 24) && Shl(1, 28) == 4 * Shl(1, 26) && Shl(1, 30) == 4 * Shl(1, 28);
  }

  lemma WrapOnce(x: nat)
    ensures Wrap(x + 0x1_0000_0000) == Wrap(x)
  {
  }

  /** The slot of a counter does not depend on how often it wrapped around. */
  lemma {:induction false} SlotOfWrapped(x: nat, k: nat)
    requires k <= 32
    ensures Low(Wrap(x), k) == Low(x, k)
    decreases x
  {
    if x >= 0x1_0000_0000 {
      Shl32();
      LowDrops(x, 32, k);
      WrapOnce(x - 0x1_0000_0000);
      SlotOfWrapped(x - 0x1_0000_0000, k);
    }
  }

  /** Two counters less than the ring size apart have different slots. */
  lemma {:induction false} SlotsDiffer(x: nat, y: nat, k: nat)
    requires x < y < x + Shl(1, k)
    ensures Low(x, k) != Low(y, k)
    decreases k
  {
    if k > 0 && x % 2 == y % 2 {
      SlotsDiffer(x / 2, y / 2, k - 1);
    }
  }

  lemma {:induction false} LowTwice(v: nat, i: nat, k: nat)
    ensures Low(Low(v, k) + i, k) == Low(v + i, k)
    decreases k
  {
    if k > 0 {
      var l, r, c := Low(v / 2, k - 1), v % 2, (v % 2 + i % 2) / 2;
      assert (r + 2 * l + i) / 2 == l + (i / 2 + c) && (r + 2 * l + i) % 2 == (v + i) % 2;
      assert (v + i) / 2 == v / 2 + (i / 2 + c);
      LowTwice(v / 2, i / 2 + c, k - 1);
    }
  }

  /** The distance of two counters, as the wrapped ones show it. */
  lemma WrappedDistance(h: nat, t: nat)
    requires h <= t < h + 0x1_0000_0000
    ensures (Wrap(t) - Wrap(h)) % 0x1_0000_0000 == t - h
    ensures Wrap(t) == Wrap(h) <==> t == h
  {
  }

  lemma WrapNext(t: nat, n: nat)
    ensures Wrap(Wrap(t) + n) == Wrap(t + n)
  {
  }

  // ----- the rings

  datatype Sqe = Sqe(opcode: nat, fd: int, userData: nat)

  datatype Cqe = Cqe(userData: nat, res: int)

  /** What a completion is for: its context, found through user_data. */
  datatype Context = Timer(fd: int) | Io(fd: int, eventMask: nat) | Other

  /** A timer event, or an entry of the completion queue: descriptor, bytes, error, events. */
  datatype Event = TimerEvent(fd: int) | Completion(fd: int, bytes: nat, error: nat, events: nat)

  const SOCKET_CONNECT: nat := 4   // XSocketAct_Connect

  /** What processOneCompletion makes of a completion. */
  function Outcome(c: Cqe, contexts: map<nat, Context>): seq<Event> {
    if c.userData == 0 || c.userData !in contexts then []
    else match contexts[c.userData]
         case Timer(fd) => if fd != -1 then [TimerEvent(fd)] else []
         case Io(fd, mask) => [Completion(fd, if c.res >= 0 then c.res else 0, if c.res < 0 then -c.res else 0,
                                          if c.res < 0 && mask == 0 then SOCKET_CONNECT else mask)]
         case Other => []
  }

  function Outcomes(cs: seq<Cqe>, contexts: map<nat, Context>): seq<Event> {
    if cs == [] then [] else Outcomes(cs[..|cs| - 1], contexts) + Outcome(cs[|cs| - 1], contexts)
  }

  /** A completion of an I/O operation that is still known. */
  predicate Known(c: Cqe, contexts: map<nat, Context>) {
    c.userData != 0 && c.userData in contexts && contexts[c.userData].Io?
  }

  /** The event reports the completion: its descriptor, its result as bytes or as an error, and never nothing. */
  predicate Reports(e: Event, c: Cqe, contexts: map<nat, Context>)
    requires Known(c, contexts)
  {
    && e.Completion? && e.fd == contexts[c.userData].fd
    && e.bytes - e.error == c.res && (e.bytes == 0 || e.error == 0)
    && (contexts[c.userData].eventMask != 0 ==> e.events == contexts[c.userData].eventMask)
    && (c.res < 0 ==> e.events != 0)
  }

  /** Every completion of an I/O operation is reported by one event, in the order of the completions. */
  lemma {:induction false} AllReported(cs: seq<Cqe>, contexts: map<nat, Context>)
    requires forall i :: 0 <= i < |cs| ==> Known(cs[i], contexts)
    ensures |Outcomes(cs, contexts)| == |cs|
    ensures forall i :: 0 <= i < |cs| ==> Reports(Outcomes(cs, contexts)[i], cs[i], contexts)
  {
    if cs != [] {
      AllReported(cs[..|cs| - 1], contexts);
    }
  }

  /** Anything else, a wake-up for one, is no event of an I/O operation. */
  lemma NothingInvented(c: Cqe, contexts: map<nat, Context>, e: Event)
    requires e in Outcome(c, contexts) && e.Completion?
    ensures Known(c, contexts) && Reports(e, c, contexts)
  {
  }

  class Ring {
    const k: nat                 // the submission ring has 2^k entries
    const ck: nat                // the completion ring has 2^ck entries
    const sqArray: array<nat>
    const sqes: array<Sqe>
    const cqes: array<Cqe>
    var sqHead: nat              // written by the kernel
    var sqTail: nat
    var cqHead: nat
    var cqTail: nat              // written by the kernel

    ghost var head: nat          // the counters without wrap-around
    ghost var tail: nat
    ghost var first: nat
    ghost var last: nat
    ghost var pending: seq<Sqe>  // submitted and not yet consumed by the kernel
    ghost var unread: seq<Cqe>   // posted and not yet taken
    ghost var submitted: seq<Sqe>
    ghost var consumed: seq<Sqe>
    ghost var posted: seq<Cqe>
    ghost var taken: seq<Cqe>
    var delivered: seq<Event>    // what processOneCompletion passed on

    function Entries(): nat {
      Shl(1, k)
    }

    function Slot(x: nat): nat {
      Low(x, k)
    }

    ghost predicate Valid()
      reads this`sqTail, this`sqHead, this`tail, this`head, this`pending, sqArray, sqes
      reads this`cqTail, this`cqHead, this`last, this`first, this`unread, cqes
    {
      SqValid() && CqValid()
    }

    /** Both rings are queues: what went in came out, in order, or is still inside. */
    ghost predicate Fifo()
      reads this`pending, this`unread, this`submitted, this`consumed, this`posted, this`taken
    {
      consumed + pending == submitted && taken + unread == posted
    }

    ghost predicate SqValid()
      reads this`sqTail, this`sqHead, this`tail, this`head, this`pending, sqArray, sqes
    {
      && k <= 31 && Shl(1, k) <= 0x8000_0000 && sqArray.Length == Shl(1, k) == sqes.Length
      && sqTail == Wrap(tail) && sqHead == Wrap(head)
      && head <= tail <= head + Shl(1, k) && |pending| == tail - head
      && forall i: nat {:trigger Low(i, k)} :: head <= i < tail ==>
           Low(i, k) < Shl(1, k) && sqArray[Low(i, k)] == Low(i, k) && sqes[Low(i, k)] == pending[i - head]
    }

    ghost predicate CqValid()
      reads this`cqTail, this`cqHead, this`last, this`first, this`unread, cqes
    {
      && ck <= 31 && Shl(1, ck) <= 0x8000_0000 && cqes.Length == Shl(1, ck)
      && cqTail == Wrap(last) && cqHead == Wrap(first)
      && first <= last <= first + Shl(1, ck) && |unread| == last - first
      && forall i: nat {:trigger Low(i, ck)} :: first <= i < last ==>
           Low(i, ck) < Shl(1, ck) && cqes[Low(i, ck)] == unread[i - first]
    }

    /** The invariant as the polling loop sees it. */
    ghost predicate Ready()
      reads this`sqTail, this`sqHead, this`tail, this`head, this`pending, sqArray, sqes
      reads this`cqTail, this`cqHead, this`last, this`first, this`unread, cqes
      reads this`submitted, this`consumed, this`posted, this`taken
    {
      forall i {:trigger Unlock(i)} :: Unlock(i) ==> Valid() && Fifo()
    }

    constructor (sqBits: nat, cqBits: nat)
      requires sqBits <= 31 && cqBits <= 31
      ensures Ready() && submitted == [] && posted == [] && delivered == [] && k == sqBits && ck == cqBits
    {
      k, ck := sqBits, cqBits;
      sqArray := new nat[Shl(1, sqBits)](i => 0);
      sqes := new Sqe[Shl(1, sqBits)](i => Sqe(0, 0, 0));
      cqes := new Cqe[Shl(1, cqBits)](i => Cqe(0, 0));
      sqHead, sqTail, cqHead, cqTail, head, tail, first, last, pending, unread := 0, 0, 0, 0, 0, 0, 0, 0, [], [];
      submitted, consumed, posted, taken, delivered := [], [], [], [], [];
      new;
      Shl31(sqBits);
      Shl31(cqBits);
    }

    /** getSqe: a slot no pending entry uses, or none when the ring is full */
    method GetSqe() returns (full: bool, index: nat)
      requires SqValid()
      ensures full <==> |pending| == Entries()
      ensures !full ==>
                && index == Slot(tail) < sqes.Length
                && forall i {:trigger Slot(i)} :: head <= i < tail ==> Slot(i) != index
    {
      var next := Wrap(sqTail + 1);
      full, index := (next - sqHead) % 0x1_0000_0000 > Shl(1, k), 0;
      WrapNext(tail, 1);
      WrappedDistance(head, tail + 1);
      if !full {
        index := Low(sqTail, k);
        SlotOfWrapped(tail, k);
        LowBound(tail, k);
        forall i | head <= i < tail
          ensures Slot(i) != index
        {
          SlotsDiffer(i, tail, k);
        }
      }
    }

    /** The caller fills in the entry it was given. */
    method Fill(index: nat, e: Sqe)
      requires SqValid() && |pending| < Entries() && index == Slot(tail)
      modifies sqes
      ensures SqValid() && index < sqes.Length && sqes[index] == e
    {
      LowBound(tail, k);
      forall i: nat | head <= i < tail
        ensures Low(i, k) != index
      {
        SlotsDiffer(i, tail, k);
      }
      sqes[index] := e;
    }

    /** The index array maps the new positions to the entries of the same slots. */
    method MapSlots(startIndex: nat, toSubmit: nat)
      requires toSubmit == 1 && startIndex == Low(tail, k) < sqArray.Length
      modifies sqArray
      ensures sqArray[Low(tail, k)] == Low(tail, k)
      ensures forall s :: 0 <= s < sqArray.Length && s != Low(tail, k) ==> sqArray[s] == old(sqArray[s])
    {
      LowTwice(tail, 0, k);
      var i: nat := 0;
      while i < toSubmit
        invariant i <= toSubmit
        invariant i > 0 ==> sqArray[Low(tail, k)] == Low(tail, k)
        invariant forall s :: 0 <= s < sqArray.Length && s != Low(tail, k) ==> sqArray[s] == old(sqArray[s])
      {
        sqArray[Low(startIndex + i, k)] := Low(startIndex + i, k);
        i := i + 1;
      }
    }

    /** submitSqe of one entry, as every caller does it: the filled entry is queued last */
    method SubmitSqe(e: Sqe)
      requires SqValid() && |pending| < Entries() && Slot(tail) < sqes.Length && sqes[Slot(tail)] == e
      modifies this`sqTail, this`tail, this`pending, this`submitted, sqArray
      ensures SqValid() && pending == old(pending) + [e] && submitted == old(submitted) + [e]
    {
      SlotOfWrapped(tail, k);
      MapSlots(Low(sqTail, k), 1);
      sqTail := Wrap(sqTail + 1);
      WrapNext(tail, 1);
      tail, pending, submitted := tail + 1, pending + [e], submitted + [e];
      forall i: nat | head <= i < tail
        ensures Low(i, k) < Shl(1, k) && sqArray[Low(i, k)] == Low(i, k) && sqes[Low(i, k)] == pending[i - head]
      {
        LowBound(i, k);
        if i < tail - 1 {
          assert sqes[Low(i, k)] == old(pending)[i - head];
        }
      }
    }

    /** The kernel takes the next entry through the index array. */
    method KernelConsume() returns (e: Sqe)
      requires SqValid() && pending != []
      modifies this`sqHead, this`head, this`pending, this`consumed
      ensures SqValid() && e == old(pending)[0] && pending == old(pending)[1..] && consumed == old(consumed) + [e]
    {
      SlotOfWrapped(head, k);
      assert Low(head, k) < Shl(1, k) && sqes[Low(head, k)] == pending[0];
      e := sqes[sqArray[Low(sqHead, k)]];
      sqHead := Wrap(sqHead + 1);
      WrapNext(head, 1);
      head, pending, consumed := head + 1, pending[1..], consumed + [e];
    }

    /** The kernel posts a completion, if there is room for one. */
    method KernelPost(c: Cqe) returns (ok: bool)
      requires CqValid()
      modifies this`cqTail, this`last, this`unread, this`posted, cqes
      ensures CqValid() && (ok <==> |old(unread)| < Shl(1, ck))
      ensures unread == if ok then old(unread) + [c] else old(unread)
      ensures posted == if ok then old(posted) + [c] else old(posted)
    {
      WrappedDistance(first, last);
      ok := (cqTail - cqHead) % 0x1_0000_0000 < Shl(1, ck);
      if ok {
        SlotOfWrapped(last, ck);
        LowBound(last, ck);
        forall i: nat | first <= i < last
          ensures Low(i, ck) != Low(last, ck)
        {
          SlotsDiffer(i, last, ck);
        }
        cqes[Low(cqTail, ck)] := c;
        cqTail := Wrap(cqTail + 1);
        WrapNext(last, 1);
        last, unread, posted := last + 1, unread + [c], posted + [c];
      }
    }

    /** peekCqe: the oldest completion, if any */
    method PeekCqe() returns (some: bool, c: Cqe)
      requires CqValid()
      ensures some <==> unread != []
      ensures some ==> c == unread[0]
    {
      WrappedDistance(first, last);
      some, c := cqHead != cqTail, Cqe(0, 0);
      if some {
        SlotOfWrapped(first, ck);
        LowBound(first, ck);
        assert cqes[Low(first, ck)] == unread[0];
        c := cqes[Low(cqHead, ck)];
      }
    }

    /** advanceCq */
    method AdvanceCq()
      requires CqValid() && unread != []
      modifies this`cqHead, this`first, this`unread, this`taken
      ensures CqValid() && unread == old(unread)[1..] && taken == old(taken) + [old(unread)[0]]
    {
      cqHead := Wrap(cqHead + 1);
      WrapNext(first, 1);
      first, unread, taken := first + 1, unread[1..], taken + [unread[0]];
    }

    /** The kernel goes on by itself: it consumes entries and posts completions, as far as the rings allow. */
    method KernelRuns()
      requires Ready()
      modifies this`sqHead, this`head, this`pending, this`consumed, this`cqTail, this`last, this`unread, this`posted
      modifies cqes
      ensures Ready() && old(posted) <= posted && |old(unread)| <= |unread| && |pending| <= |old(pending)|
    {
      var steps: nat := *;
      while steps > 0
        invariant Ready() && old(posted) <= posted && |old(unread)| <= |unread| && |pending| <= |old(pending)|
      {
        assert Unlock(0);
        if * {
          WrappedDistance(head, tail);
          if sqHead != sqTail {
            var e := KernelConsume();
          }
        } else {
          var c: Cqe := *;
          var ok := KernelPost(c);
        }
        steps := steps - 1;
      }
    }

    /** Get an entry, fill it in and submit it, while the kernel runs. */
    method Submit(e: Sqe) returns (full: bool)
      requires Ready()
      modifies this`sqTail, this`tail, this`submitted, this`sqHead, this`head, this`pending, this`consumed, this`cqTail
      modifies this`last, this`unread, this`posted, sqArray, sqes, cqes
      ensures full <==> |old(pending)| == Entries()
      ensures Ready() && submitted == (if full then old(submitted) else old(submitted) + [e])
    {
      assert Unlock(0);
      var index;
      full, index := GetSqe();
      KernelRuns();
      if !full {
        assert Unlock(1);
        Fill(index, e);
        SubmitSqe(e);
        KernelRuns();
      }
    }

    /** processOneCompletion */
    method ProcessOneCompletion(c: Cqe, contexts: map<nat, Context>)
      modifies this`delivered
      ensures delivered == old(delivered) + Outcome(c, contexts)
    {
      if c.userData == 0 || c.userData !in contexts {
        return;
      }
      match contexts[c.userData] {
        case Timer(fd) =>
          if fd != -1 {
            delivered := delivered + [TimerEvent(fd)];
          }
        case Io(fd, mask) =>
          var events := mask;
          if c.res < 0 && mask == 0 {
            events := SOCKET_CONNECT;
          }
          var result, error := if c.res >= 0 then c.res else 0, if c.res < 0 then -c.res else 0;
          delivered := delivered + [Completion(fd, result, error, events)];
        case Other =>
      }
    }

    /** The oldest completion, if there is one, is delivered and taken off. */
    method DeliverOne(contexts: map<nat, Context>) returns (some: bool)
      requires Ready()
      modifies this`cqHead, this`first, this`unread, this`taken, this`delivered
      ensures Ready()
      ensures if some then
                && |taken| == |old(taken)| + 1 && old(taken) <= taken
                && delivered == old(delivered) + Outcome(taken[|old(taken)|], contexts)
              else unread == [] && taken == old(taken) && delivered == old(delivered)
    {
      assert Unlock(0);
      var c;
      some, c := PeekCqe();
      if some {
        ProcessOneCompletion(c, contexts);
        AdvanceCq();
      }
    }

    /** One pass of the loop of pollPlatform, after the kernel has been running. */
    method PollOne(contexts: map<nat, Context>) returns (some: bool)
      requires Ready()
      modifies this`sqHead, this`head, this`pending, this`consumed, this`cqTail, this`last, this`unread, this`posted
      modifies this`cqHead, this`first, this`taken, this`delivered, cqes
      ensures Ready() && old(posted) <= posted
      ensures if some then
                && |taken| == |old(taken)| + 1 && old(taken) <= taken
                && delivered == old(delivered) + Outcome(taken[|old(taken)|], contexts)
              else unread == [] && taken == old(taken) && delivered == old(delivered)
    {
      KernelRuns();
      some := DeliverOne(contexts);
    }

    /**
     * pollPlatform, while the kernel runs: the oldest completions are delivered, each once and in order, at most 64 of
     * them, and fewer only if there were no more.
     */
    method PollPlatform(contexts: map<nat, Context>)
      requires Ready()
      modifies this`sqHead, this`head, this`pending, this`consumed, this`cqTail, this`last, this`unread, this`posted
      modifies this`cqHead, this`first, this`taken, this`delivered, cqes
      ensures Ready() && old(posted) <= posted
      ensures |old(taken)| <= |taken| <= |old(taken)| + 64 && old(taken) <= taken
      ensures delivered == old(delivered) + Outcomes(taken[|old(taken)|..], contexts)
      ensures |taken| < |old(taken)| + 64 ==> unread == []
    {
      var batchCount: nat := 0;
      var more := true;
      assert taken[|taken|..] == [];
      while batchCount < 64 && more
        invariant Ready() && old(posted) <= posted
        invariant batchCount <= 64 && |taken| == |old(taken)| + batchCount && old(taken) <= taken
        invariant delivered == old(delivered) + Outcomes(taken[|old(taken)|..], contexts)
        invariant !more ==> unread == []
        decreases 64 - batchCount, more
      {
        ghost var before := taken;
        more := PollOne(contexts);
        if more {
          OutcomesGrow(before, taken, |old(taken)|, contexts);
          batchCount := batchCount + 1;
        }
      }
    }
  }

  lemma OutcomesGrow(before: seq<Cqe>, now: seq<Cqe>, from: nat, contexts: map<nat, Context>)
    requires from <= |before| && |now| == |before| + 1 && before <= now
    ensures Outcomes(now[from..], contexts) == Outcomes(before[from..], contexts) + Outcome(now[|before|], contexts)
  {
    var t := now[from..];
    assert t[..|t| - 1] == before[from..] && t[|t| - 1] == now[|before|];
  }

  lemma {:induction false} Shl31(n: nat)
    requires n <= 31
    ensures Shl(1, n) <= 0x8000_0000
  {
    ShlMono(n, 31);
    Shl32();
  }
}
