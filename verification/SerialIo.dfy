/** Asynchronous reads and writes of a Windows serial port, whose operation contexts can outlive the port. */
module SerialIo {
  import opened Bytes

  const BUFFSIZE := 2048

  /** How the port is to be opened, and whether the device and the memory for the contexts can be had. */
  datatype Opening = Opening(reading: bool, writing: bool, device: bool, readMemory: bool, writeMemory: bool)

  /**
   * What a slot may do, or the program: call the port, or let the event loop run, which delivers the completion of some
   * pending operation or dispatches an event.
   */
  datatype Act = DoClose | DoOpen(o: Opening) | DoWrite(bytes: seq<byte>, room: nat)
               | DoComplete(count: nat, arrived: seq<byte>) | DoDispatch(e: Event)

  /**
   * A dispatched event: the sides it is for, whether their ring buffers can be had, the room in the read buffer,
   * and what the slots of the signals do.
   */
  datatype Event = Event(forRead: bool, forWrite: bool, hasRead: bool, hasWrite: bool, room: nat,
                         onRead: seq<Act>, onWritten: seq<Act>, onChannelWritten: seq<Act>)

  predicate Simple(act: Act) {
    act.DoClose? || act.DoOpen? || act.DoWrite?
  }

  /** The slots only call the port. */
  predicate Plain(acts: seq<Act>) {
    forall i :: 0 <= i < |acts| ==> Simple(acts[i])
  }

  predicate PlainEvent(e: Event) {
    Plain(e.onRead) && Plain(e.onWritten) && Plain(e.onChannelWritten)
  }

  /** The port is closed by the call, or by a slot under it, however deep. */
  predicate Closes(act: Act)
    decreases act, 0
  {
    act.DoClose? || (act.DoDispatch? && ClosesIn(act.e))
  }

  predicate ClosesIn(e: Event)
    decreases e, 1
  {
    SomeCloses(e.onRead) || SomeCloses(e.onWritten) || SomeCloses(e.onChannelWritten)
  }

  predicate SomeCloses(acts: seq<Act>)
    decreases acts, 1
  {
    exists i :: 0 <= i < |acts| && Closes(acts[i])
  }

  lemma ClosesHere(acts: seq<Act>)
    ensures DoClose in acts ==> SomeCloses(acts)
    ensures Plain(acts) && SomeCloses(acts) ==> DoClose in acts
  {
    if DoClose in acts {
      var i :| 0 <= i < |acts| && acts[i] == DoClose;
      assert Closes(acts[i]);
    }
    if Plain(acts) && SomeCloses(acts) {
      var i :| 0 <= i < |acts| && Closes(acts[i]);
      assert acts[i] == DoClose;
    }
  }

  /** One asynchronous operation, with its own buffer. */
  class Io {
    const isRead: bool
    var owner: SerialPort?
    var pending: bool          // the device may use the buffer; its completion will come
    var closing: bool
    var data: seq<byte>
    var bufferSize: nat
    var finishedBytes: nat
    var freed: bool            // its memory has been given back

    constructor (o: SerialPort, r: bool)
      ensures owner == o && isRead == r && !pending && !closing && !freed && bufferSize == BUFFSIZE
      ensures finishedBytes == 0
      ensures |data| == BUFFSIZE
    {
      isRead, owner, pending, closing, freed := r, o, false, false, false;
      data, bufferSize, finishedBytes := seq(BUFFSIZE, i => 0), BUFFSIZE, 0;
    }

    /** XFree_System: at most once, and never while the device may still use the memory */
    method Free()
      requires !freed && !pending
      modifies this`freed
      ensures freed
    {
      freed := true;
    }

    /** The buffer is written by the program only when no operation is pending. */
    method Store(bytes: seq<byte>)
      requires !freed && !pending && |bytes| <= BUFFSIZE == |data|
      modifies this`data
      ensures data == bytes + old(data)[|bytes|..]
    {
      data := bytes + data[|bytes|..];
    }

    /**
      XSerialPortIo_submit: ReadFile or WriteFile, which may fail at once; a submitted operation is pending, and a write
      gives the device the first `bufferSize` bytes of the buffer.
      */
    method Submit(port: SerialPort) returns (ok: bool)
      requires !freed && (owner == null || owner == port) && bufferSize <= |data|
      modifies this`pending, this`finishedBytes, port`submitted, port`calls
      ensures ok <==> owner != null && port.isOpen && !old(pending) && port.deviceTakes(old(port.calls))
      ensures pending == (old(pending) || ok)
      ensures finishedBytes <= old(finishedBytes) && (ok ==> finishedBytes == 0)
      ensures port.submitted == old(port.submitted) + if ok && !isRead then data[..bufferSize] else []
      ensures port.calls == old(port.calls) + if owner != null && port.isOpen && !old(pending) then 1 else 0
    {
      if owner == null || !port.isOpen || pending {
        return false;
      }
      finishedBytes := 0;
      pending := true;
      ok := port.deviceTakes(port.calls);
      port.calls := port.calls + 1;
      if !ok {
        pending := false;
      } else if !isRead {
        port.submitted := port.submitted + data[..bufferSize];
      }
    }

    /** XSerialPortIo_cancel: a context that is not pending is freed, the other one waits for its completion */
    method Cancel()
      requires !freed
      modifies this`owner, this`closing, this`freed
      ensures owner == null && closing && freed == !pending
    {
      owner := null;
      closing := true;
      if !pending {
        Free();
      }
    }
  }

  class SerialPort {
    var isOpen: bool
    var handleOpen: bool
    var bytesWrittenTriggered: bool
    var read: Io?
    var write: Io?
    var readBuf: seq<byte>
    var writeBuf: seq<byte>     // bytes accepted and not yet handed to a write operation

    const deviceTakes: nat -> bool  // which of all operations the device takes, one by one
    var calls: nat              // operations given to it so far
    var wild: bool              // the event handler has used a context that was freed
    var ios: set<Io>            // every context ever created
    ghost var ordered: bool     // the session did not start with bytes that a write could overtake
    ghost var accepted: seq<byte>
    ghost var submitted: seq<byte>  // what the device was given
    ghost var lost: seq<byte>   // taken from the ring for a write operation that could not be submitted

    /** Freed contexts are idle; a context that is not the port's own any more is pending and has no owner. */
    ghost predicate IoOk(io: Io)
      reads this`read, this`write, io
    {
      && (io.freed ==> !io.pending && io != read && io != write)
      && (!io.freed && io != read && io != write ==> io.pending && io.owner == null)
      && |io.data| == BUFFSIZE && io.bufferSize <= BUFFSIZE && io.finishedBytes <= BUFFSIZE
    }

    ghost predicate Attached(io: Io, r: bool)
      reads this`ios, this`isOpen, io
    {
      io in ios && io.owner == this && io.isRead == r && !io.closing && isOpen
    }

    /** The bytes handed to write operations, then the ring, are the accepted bytes in order. */
    ghost predicate InOrder()
      reads this`ordered, this`accepted, this`submitted, this`lost, this`writeBuf, this`bytesWrittenTriggered
      reads this`write
    {
      ordered ==>
        && submitted + lost + writeBuf == accepted
        && (write != null ==> lost == [])
        && (write != null && bytesWrittenTriggered ==> writeBuf == [])
    }

    ghost predicate Valid()
      reads this, ios, if read == null then {} else {read}, if write == null then {} else {write}
    {
      && (forall io {:trigger io in ios} :: io in ios ==> IoOk(io))
      && (read != null ==> Attached(read, true))
      && (write != null ==> Attached(write, false))
      && (!isOpen ==> read == null && write == null) && handleOpen == isOpen
      && (write != null && (write.pending || write.finishedBytes > 0) ==> !bytesWrittenTriggered)
      && InOrder()
    }

    constructor (takes: nat -> bool)
      ensures Valid() && ios == {} && !isOpen && bytesWrittenTriggered && writeBuf == [] && !wild
      ensures deviceTakes == takes && calls == 0
    {
      deviceTakes, calls, wild := takes, 0, false;
      isOpen, handleOpen, bytesWrittenTriggered := false, false, true;
      read, write, readBuf, writeBuf := null, null, [], [];
      ios, ordered, accepted, submitted, lost := {}, true, [], [], [];
    }

    /** The device has refused an operation since it had been given `from` of them. */
    ghost predicate Refused(from: nat)
      reads this`calls
    {
      exists i {:trigger deviceTakes(i)} :: from <= i < calls && !deviceTakes(i)
    }

    /** XSerialPortIo_completion: the completion of a pending operation; true if an event is to be dispatched */
    method Completion(io: Io, bytes: nat, arrived: seq<byte>) returns (dispatch: bool)
      requires Valid() && io in ios && io.pending && bytes <= BUFFSIZE && |arrived| == BUFFSIZE
      modifies io
      ensures Valid() && !io.pending
      ensures dispatch <==> io == read || io == write
      ensures io.freed <==> !dispatch
      ensures io.owner == old(io.owner) && io.finishedBytes == bytes && (io.isRead ==> io.data == arrived)
    {
      if io.isRead {
        io.data := arrived;
      }
      io.finishedBytes := bytes;
      io.pending := false;
      if io.owner == null || !isOpen || io.closing {
        io.Free();
        return false;
      }
      dispatch := true;
    }

    /** The completion of some pending operation arrives, if there is one; the device fills no more than the buffer. */
    method CompleteSome(bytes: nat, arrived: seq<byte>)
      requires Valid()
      modifies ios
      ensures Valid() && FreedStay()
    {
      if bytes <= BUFFSIZE == |arrived| && exists io {:trigger io in ios} :: io in ios && io.pending {
        var io :| io in ios && io.pending;
        var dispatch := Completion(io, bytes, arrived);
      }
    }

    /** XSerialPort_platform_close */
    method Close()
      requires Valid()
      modifies this`isOpen, this`handleOpen, this`read, this`write, read, write
      ensures Valid() && !isOpen
      ensures forall io {:trigger io in ios} :: io in ios ==> (io.freed || io.pending)
      ensures old(isOpen) && old(read) != null ==> old(read).freed == !old(read.pending)
      ensures old(isOpen) && old(write) != null ==> old(write).freed == !old(write.pending)
    {
      if !isOpen {
        return;
      }
      isOpen, handleOpen := false, false;
      if read != null {
        read.Cancel();
      }
      if write != null {
        write.Cancel();
      }
      read, write := null, null;
    }

    /** XSerialPortPrivate_delete: what is pending is left to its completion */
    method Destroy()
      requires Valid()
      modifies this`read, this`write, read, write
      ensures Valid() && read == null && write == null
      ensures forall io {:trigger io in ios} :: io in ios ==> (io.freed || (io.pending && io.owner == null))
    {
      if read != null {
        read.owner := null;
        if !read.pending {
          read.Free();
        }
      }
      if write != null {
        write.owner := null;
        if !write.pending {
          write.Free();
        }
      }
      read, write := null, null;
    }

    /**
      XSerialPort_platform_open: the device, the contexts, and the first read. Bytes left in the ring from an earlier
      session are in order with new ones only if they cannot be overtaken.
      */
    method Open(o: Opening) returns (ok: bool)
      requires Valid() && !isOpen
      modifies this`isOpen, this`handleOpen, this`read, this`write, this`ios, this`ordered, this`accepted
      modifies this`submitted, this`lost, this`calls
      ensures Valid() && old(ios) <= ios && fresh(ios - old(ios)) && old(calls) <= calls
      ensures ok == isOpen
      ensures ok <==>
                && o.device && (o.reading ==> o.readMemory && deviceTakes(old(calls)))
                && (o.writing ==> o.writeMemory)
      ensures ok ==> (read != null <==> o.reading) && (write != null <==> o.writing) && (o.reading ==> read.pending)
      ensures ok ==> calls == old(calls) + if o.reading then 1 else 0
      ensures accepted == writeBuf == old(writeBuf) && submitted == [] && lost == []
      ensures ordered <==> (old(bytesWrittenTriggered) ==> old(writeBuf) == [])
    {
      ordered := bytesWrittenTriggered ==> writeBuf == [];
      accepted, submitted, lost := writeBuf, [], [];
      ok := o.device;
      if ok {
        ok := OpenDevice(o);
      }
    }

    /** The part of it after the device is open. */
    method OpenDevice(o: Opening) returns (ok: bool)
      requires Valid() && !isOpen && lost == [] && (ordered && bytesWrittenTriggered ==> writeBuf == [])
      modifies this`isOpen, this`handleOpen, this`read, this`write, this`ios, this`submitted, this`calls
      ensures Valid() && old(ios) <= ios && fresh(ios - old(ios)) && submitted == old(submitted) && old(calls) <= calls
      ensures ok == isOpen
      ensures ok <==> (o.reading ==> o.readMemory && deviceTakes(old(calls))) && (o.writing ==> o.writeMemory)
      ensures ok ==> (read != null <==> o.reading) && (write != null <==> o.writing) && (o.reading ==> read.pending)
      ensures ok ==> calls == old(calls) + if o.reading then 1 else 0
    {
      isOpen, handleOpen := true, true;
      ok := OpenContexts(o);
      if !ok {
        Close();
      }
    }

    /** The contexts of a port just opened. */
    method OpenContexts(o: Opening) returns (ok: bool)
      requires Valid() && isOpen && read == null && write == null && lost == []
      requires ordered && bytesWrittenTriggered ==> writeBuf == []
      modifies this`read, this`write, this`ios, this`submitted, this`calls
      ensures Valid() && old(ios) <= ios && fresh(ios - old(ios)) && submitted == old(submitted) && old(calls) <= calls
      ensures ok <==> (o.reading ==> o.readMemory && deviceTakes(old(calls))) && (o.writing ==> o.writeMemory)
      ensures ok ==> (read != null <==> o.reading) && (write != null <==> o.writing) && (o.reading ==> read.pending)
      ensures ok ==> calls == old(calls) + if o.reading then 1 else 0
    {
      ok := true;
      if o.reading {
        ok := OpenReader(o.readMemory);
      }
      if ok && o.writing {
        ok := OpenWriter(o.writeMemory);
      }
    }

    /** Create the write context; there is nothing to submit yet. */
    method OpenWriter(memory: bool) returns (ok: bool)
      requires Valid() && isOpen && write == null && lost == []
      requires ordered && bytesWrittenTriggered ==> writeBuf == []
      modifies this`write, this`ios
      ensures Valid() && old(ios) <= ios && fresh(ios - old(ios))
      ensures ok == memory == (write != null)
      ensures ok ==> fresh(write)
    {
      ok := memory;
      if ok {
        var io := new Io(this, false);
        ios := ios + {io};
        write := io;
      }
    }

    /** Create the read context and submit the first read; on failure the context is freed here. */
    method OpenReader(memory: bool) returns (ok: bool)
      requires Valid() && isOpen && read == null
      modifies this`read, this`ios, this`submitted, this`calls
      ensures Valid() && old(ios) <= ios && fresh(ios - old(ios)) && submitted == old(submitted)
      ensures ok <==> memory && deviceTakes(old(calls))
      ensures ok <==> read != null
      ensures ok ==> read.pending && fresh(read)
      ensures calls == old(calls) + if memory then 1 else 0
    {
      ok := memory;
      if !ok {
        return;
      }
      var io := new Io(this, true);
      ok := io.Submit(this);
      ios := ios + {io};
      if ok {
        read := io;
      } else {
        io.Free();
      }
    }

    /** XRingBuffer_write, which takes as much as it can get memory for. */
    method RingWrite(data: seq<byte>, room: nat) returns (n: nat)
      modifies this`writeBuf
      ensures n == Least(room, |data|) && writeBuf == old(writeBuf) + data[..n]
    {
      n := Least(room, |data|);
      writeBuf := writeBuf + data[..n];
    }

    /** Nothing is under way: the next bytes go straight to a write operation. */
    ghost predicate Direct()
      reads this`write, this`bytesWrittenTriggered, write
    {
      write != null && bytesWrittenTriggered && !write.pending
    }

    /** Bytes accepted then, of `n`: what fits into the buffer of the operation, and what the ring takes of the rest. */
    function DirectCount(n: nat, room: nat): nat {
      if n <= BUFFSIZE then n else BUFFSIZE + Least(room, n - BUFFSIZE)
    }

    /** XSerialPort_platform_write: how many bytes are accepted, or -1: nothing to write or to write to, or refused. */
    method Write(data: seq<byte>, room: nat) returns (n: int)
      requires Valid()
      modifies this`writeBuf, this`bytesWrittenTriggered, this`accepted, this`submitted, this`calls, write
      ensures n == -1 <==> data == [] || old(write) == null || (old(Direct()) && !deviceTakes(old(calls)))
      ensures n >= 0 ==> n == if old(Direct()) then DirectCount(|data|, room) else Least(room, |data|)
      ensures old(calls) <= calls
      ensures Valid() && -1 <= n <= |data|
      ensures Finished(write) <==> old(Finished(write))
      ensures accepted == old(accepted) + data[..if n < 0 then 0 else n]
      ensures n < 0 ==>
                && writeBuf == old(writeBuf) && submitted == old(submitted)
                && bytesWrittenTriggered == old(bytesWrittenTriggered)
    {
      if data == [] || write == null {
        return -1;
      }
      if !bytesWrittenTriggered || write.pending {
        n := RingWrite(data, room);
        accepted := accepted + data[..n];
        return;
      }
      n := WriteDirect(data, room);
    }

    /** Nothing is under way: the first bytes go straight to a write operation, the rest to the ring. */
    method WriteDirect(data: seq<byte>, room: nat) returns (n: int)
      requires Valid() && data != [] && write != null && bytesWrittenTriggered
      modifies this`writeBuf, this`bytesWrittenTriggered, this`accepted, this`submitted, this`calls, write
      ensures n == if deviceTakes(old(calls)) then DirectCount(|data|, room) else -1
      ensures old(calls) <= calls
      ensures Valid() && -1 <= n <= |data|
      ensures Finished(write) <==> old(Finished(write))
      ensures accepted == old(accepted) + data[..if n < 0 then 0 else n]
      ensures n < 0 ==>
                && writeBuf == old(writeBuf) && submitted == old(submitted)
                && bytesWrittenTriggered == old(bytesWrittenTriggered)
    {
      var toWrite := Least(|data|, BUFFSIZE);
      var ok := WriteFirst(data[..toWrite]);
      n := -1;
      if ok {
        n := toWrite;
        if |data| > toWrite {
          var more := RingWrite(data[toWrite..], room);
          accepted := accepted + data[toWrite..][..more];
          assert data[..toWrite] + data[toWrite..][..more] == data[..toWrite + more];
          n := toWrite + more;
        }
      }
    }

    /** The bytes for the device. */
    method WriteFirst(bytes: seq<byte>) returns (ok: bool)
      requires Valid() && Direct() && |bytes| <= BUFFSIZE
      modifies this`bytesWrittenTriggered, this`accepted, this`submitted, this`calls, write
      ensures Valid() && calls == old(calls) + 1
      ensures ok <==> deviceTakes(old(calls))
      ensures ok ==> !bytesWrittenTriggered && accepted == old(accepted) + bytes
      ensures !ok ==> accepted == old(accepted) && submitted == old(submitted) && bytesWrittenTriggered
      ensures !Finished(write)
    {
      ok := HandOver(bytes);
      if ok {
        accepted := accepted + bytes;
      }
    }

    /** Fill the buffer of the idle write operation and submit it. */
    method HandOver(bytes: seq<byte>) returns (ok: bool)
      requires Valid() && write != null && !write.pending && |bytes| <= BUFFSIZE
      modifies this`bytesWrittenTriggered, this`submitted, this`calls
      modifies write`data, write`bufferSize, write`pending, write`finishedBytes
      ensures ok <==> deviceTakes(old(calls))
      ensures calls == old(calls) + 1
      ensures forall io {:trigger io in ios} :: io in ios ==> IoOk(io)
      ensures write.finishedBytes <= old(write.finishedBytes)
      ensures write.pending == ok && submitted == (if ok then old(submitted) + bytes else old(submitted))
      ensures bytesWrittenTriggered == (old(bytesWrittenTriggered) && !ok)
    {
      assert write in ios;
      write.Store(bytes);
      write.bufferSize := |bytes|;
      assert write.data[..write.bufferSize] == bytes;
      ok := write.Submit(this);
      if ok {
        bytesWrittenTriggered := false;
      }
    }

    /** What has been freed stays freed. */
    twostate predicate FreedStay()
      reads this, ios
    {
      old(ios) <= ios && forall io {:trigger io in old(ios)} :: io in old(ios) && old(io.freed) ==> io.freed
    }

    /** The port is open on its contexts `r` and `w`; an idle read, and a write that has just finished, are so still. */
    twostate predicate StillThere(r: Io?, w: Io?)
      reads this, r, w
    {
      && isOpen && handleOpen == old(handleOpen) && read == r && write == w && old(accepted) <= accepted
      && lost == old(lost)
      && (r != null ==> r.pending == old(r.pending) && r.finishedBytes == old(r.finishedBytes) && r.data == old(r.data))
      && (old(Finished(w)) <==> Finished(w))
    }

    /** An idle read `r`, and a write `w` that had just finished, are freed. */
    twostate predicate Gone(r: Io?, w: Io?)
      reads this, r, w
    {
      && (r != null && !old(r.pending) ==> r.freed && read != r)
      && (old(Finished(w)) ==> w.freed && write != w)
    }

    /** A write operation whose completion has come, and has not been reported. */
    ghost predicate Finished(io: Io?)
      reads io
    {
      io != null && !io.pending && io.finishedBytes > 0
    }

    /** A read event without slots whose next read the device refuses. */
    ghost predicate Refusing(e: Event)
      reads this, read
    {
      isOpen && e.forRead && !e.forWrite && e.hasRead && e.onRead == [] && Finished(read) && !deviceTakes(calls)
    }

    /** The slots of a signal do no more than to have such an event dispatched. */
    ghost predicate RefusingUnder(acts: seq<Act>)
      reads this, read
    {
      |acts| == 1 && acts[0].DoDispatch? && Refusing(acts[0].e)
    }

    /** The slots connected to a signal run while it is emitted, and call back into the port. */
    method Emit(acts: seq<Act>)
      requires Valid() && !wild
      modifies this, ios
      ensures FreedStay() && fresh(ios - old(ios)) && old(calls) <= calls
      ensures !wild ==> Valid()
      ensures Undisturbed(old(isOpen), SomeCloses(acts), old(calls), old(read), old(write))
      ensures Plain(acts) ==> !wild && readBuf == old(readBuf)
      ensures Plain(acts) && old(isOpen) ==>
                if DoClose in acts then Gone(old(read), old(write)) else StillThere(old(read), old(write))
      ensures acts == [] ==> calls == old(calls)
      ensures old(RefusingUnder(acts)) ==> !wild && old(read).freed
      decreases acts, 1
    {
      var i := 0;
      while i < |acts| && !wild
        invariant 0 <= i <= |acts| && FreedStay() && fresh(ios - old(ios)) && old(calls) <= calls
        invariant !wild ==> Valid()
        invariant wild ==> !Plain(acts)
        invariant Undisturbed(old(isOpen), SomeCloses(acts), old(calls), old(read), old(write))
        invariant Plain(acts) ==> readBuf == old(readBuf)
        invariant Plain(acts) && old(isOpen) ==>
                    if DoClose in acts[..i] then Gone(old(read), old(write)) else StillThere(old(read), old(write))
        invariant i == 0 ==>
                    && !wild && calls == old(calls) && read == old(read)
                    && (old(RefusingUnder(acts)) ==> RefusingUnder(acts))
        invariant i == 1 && old(RefusingUnder(acts)) ==> !wild && old(read).freed
        decreases |acts| - i
      {
        assert acts[..i + 1] == acts[..i] + [acts[i]];
        Do(acts[i]);
        i := i + 1;
      }
      assert !wild ==> acts[..i] == acts;
    }

    /** As long as nothing closes the port and the device takes everything, the contexts are those it had. */
    twostate predicate Undisturbed(open: bool, closed: bool, from: nat, r: Io?, w: Io?)
      reads this
    {
      open && !closed && !Refused(from) ==> !wild && isOpen && read == r && write == w
    }

    /** One call of the program. */
    method Do(act: Act)
      requires Valid() && !wild
      modifies this, ios
      ensures FreedStay() && fresh(ios - old(ios)) && old(calls) <= calls
      ensures !wild ==> Valid()
      ensures Undisturbed(old(isOpen), Closes(act), old(calls), old(read), old(write))
      ensures Simple(act) ==> !wild && readBuf == old(readBuf)
      ensures Simple(act) && old(isOpen) ==>
                if act.DoClose? then Gone(old(read), old(write)) else StillThere(old(read), old(write))
      ensures act.DoDispatch? && old(Refusing(act.e)) ==> !wild && old(read).freed
      ensures wild ==> act.DoDispatch? && (ClosesIn(act.e) || (Refused(old(calls)) && !PlainEvent(act.e)))
      decreases act, 1
    {
      match act {
        case DoClose => Close();
        case DoOpen(o) =>
          if !isOpen {
            var ok := Open(o);
          }
        case DoWrite(bytes, room) =>
          var n := Write(bytes, room);
        case DoComplete(count, arrived) => CompleteSome(count, arrived);
        case DoDispatch(e) => OnEvent(e);
      }
    }

    /**
      The read half of XSerialPort_platform_XChildEvent_handler. It goes on with the context it has loaded before the
      signals. With slots that only call the port, a freed context is used exactly when one of them closes it;
      with slots that let the event loop run, only if one closes it or the device refuses an operation under them.
      */
    method OnRead(e: Event) returns (go: bool, ghost n: nat)
      requires Valid() && isOpen && !wild
      modifies this, ios
      ensures FreedStay() && fresh(ios - old(ios)) && old(calls) <= calls
      ensures !wild ==> Valid()
      ensures go <==> !wild && !(old(Finished(read)) && !e.hasRead)
      ensures n == if old(Finished(read)) && e.hasRead then Least(e.room, old(read.finishedBytes)) else 0
      ensures n > 0 ==> n <= |old(read.data)| && (Plain(e.onRead) ==> readBuf == old(readBuf) + old(read.data)[..n])
      ensures n == 0 ==> !wild && readBuf == old(readBuf)
      ensures n > 0 && Plain(e.onRead) ==> (wild <==> DoClose in e.onRead)
      ensures Undisturbed(true, n > 0 && SomeCloses(e.onRead), old(calls), old(read), old(write))
      ensures !wild && (n == 0 || Plain(e.onRead)) ==>
                && isOpen && old(accepted) <= accepted && write == old(write)
                && (old(Finished(write)) <==> Finished(write))
      ensures go && old(read) != null && !old(read.pending) ==> old(read).pending || old(read).freed
      ensures old(Refusing(e)) ==> !wild && old(read).freed
      ensures n > 0 && old(RefusingUnder(e.onRead)) ==> wild
      decreases e, 0
    {
      var io := read;
      go, n := true, 0;
      if io != null && !io.pending && io.finishedBytes > 0 {
        if !e.hasRead {
          go := false;
          return;
        }
        assert io in ios;
        var taken := Least(e.room, io.finishedBytes);
        readBuf, n := readBuf + io.data[..taken], taken;
        if taken > 0 {
          Emit(e.onRead);
          if wild || io.freed {   // the next use of the context is to look whether it is pending
            go, wild := false, true;
            return;
          }
        }
      }
      if io != null && !io.pending {
        ReadAgain();
      }
    }

    /** Submit the next read; if the device refuses it, its context goes. */
    method ReadAgain()
      requires Valid() && isOpen && read != null && !read.pending
      modifies this`read, this`submitted, this`calls, read
      ensures Valid() && submitted == old(submitted) && calls == old(calls) + 1
      ensures if deviceTakes(old(calls)) then read == old(read) && read.pending else read == null && old(read).freed
    {
      var io := read;
      io.finishedBytes := 0;
      var ok := io.Submit(this);
      if !ok {
        read := null;
        io.owner := null;
        io.Free();
      }
    }

    /**
      The write half of XSerialPort_platform_XChildEvent_handler. It uses its context after the first of two signals,
      since the second one is given its byte count, and after the second one, if there is a ring to write from.
      */
    method OnWrite(e: Event)
      requires Valid() && !wild
      modifies this, ios
      ensures FreedStay() && fresh(ios - old(ios)) && old(calls) <= calls
      ensures !wild ==> Valid()
      ensures wild ==> old(Finished(write))
      ensures old(Finished(write)) && Plain(e.onWritten) && Plain(e.onChannelWritten) ==> (wild <==> CutBy(e))
      ensures Undisturbed(old(isOpen),
                          old(Finished(write)) && (SomeCloses(e.onWritten) || SomeCloses(e.onChannelWritten)),
                          old(calls), old(read), old(write))
      ensures && PlainEvent(e)
              && !(old(Finished(write)) && (SomeCloses(e.onWritten) || SomeCloses(e.onChannelWritten))) ==>
                isOpen == old(isOpen) && old(accepted) <= accepted
      ensures !wild && e.hasWrite && old(write) != null && !old(write.pending) && PlainEvent(e) ==>
                write == null || write.pending || (bytesWrittenTriggered && writeBuf == [])
      ensures !wild && PlainEvent(e) && write != null ==> lost == old(lost) || old(write) != write
      decreases e, 0
    {
      var io := write;
      ClosesHere(e.onWritten);
      ClosesHere(e.onChannelWritten);
      if io != null && !io.pending && io.finishedBytes > 0 {
        Emit(e.onWritten);
        if wild || io.freed {
          wild := true;
          return;
        }
        Emit(e.onChannelWritten);
        if wild || (e.hasWrite && io.freed) {
          wild := true;
          return;
        }
      }
      if e.hasWrite && io != null && !io.pending {
        WriteMore();
      }
    }

    /** A slot closes the port before the write half has used its context for the last time. */
    predicate CutBy(e: Event) {
      DoClose in e.onWritten || (e.hasWrite && DoClose in e.onChannelWritten)
    }

    /** Submit the front of the ring, or note that nothing is under way. */
    method WriteMore()
      requires Valid() && isOpen && write != null && !write.pending
      modifies this`write, this`writeBuf, this`bytesWrittenTriggered, this`submitted, this`lost, this`calls, write
      ensures Valid() && (write != null ==> lost == old(lost)) && old(calls) <= calls
      ensures write == null || write.pending || (bytesWrittenTriggered && writeBuf == [])
      ensures if Refused(old(calls)) then write == null else write == old(write)
    {
      write.finishedBytes := 0;
      if writeBuf == [] {
        bytesWrittenTriggered := true;
      } else {
        SendFront();
      }
    }

    /** Hand the front of the ring to the idle write operation. */
    method SendFront()
      requires Valid() && isOpen && write != null && !write.pending && writeBuf != []
      modifies this`write, this`writeBuf, this`bytesWrittenTriggered, this`submitted, this`lost, this`calls, write
      ensures Valid() && calls == old(calls) + 1
      ensures if deviceTakes(old(calls)) then write == old(write) && write.pending && lost == old(lost)
              else write == null && bytesWrittenTriggered
    {
      var k := Least(|writeBuf|, BUFFSIZE);
      var front := writeBuf[..k];
      Front(submitted, lost, writeBuf, k);
      var ok := HandOver(front);
      writeBuf := writeBuf[k..];
      if !ok {
        DropWrite(front);
      }
    }

    /** A write operation that cannot be submitted: its context goes, and the bytes in it are lost. */
    method DropWrite(ghost front: seq<byte>)
      requires write != null && !write.pending && write in ios && !write.isRead
      requires forall io {:trigger io in ios} :: io in ios ==> IoOk(io)
      requires (read != null ==> Attached(read, true)) && isOpen && handleOpen
      requires ordered ==> submitted + lost + front + writeBuf == accepted
      modifies this`write, this`bytesWrittenTriggered, this`lost, write
      ensures Valid() && write == null && bytesWrittenTriggered && lost == old(lost) + front
    {
      lost := lost + front;
      var io := write;
      write := null;
      io.owner := null;
      io.Free();
      bytesWrittenTriggered := true;
    }

    /** A slot closes the port while the handler of the event is still to use one of its contexts. */
    ghost predicate Cut(e: Event)
      reads this, read, write
    {
      && isOpen
      && if e.forRead && Finished(read) then e.hasRead && ((e.room > 0 && DoClose in e.onRead) || CutWrite(e))
         else CutWrite(e)
    }

    ghost predicate CutWrite(e: Event)
      reads this, write
    {
      e.forWrite && Finished(write) && CutBy(e)
    }

    /**
      XSerialPort_platform_XChildEvent_handler: any event, at any time, also one that is out of date. With slots that
      only call the port a freed context is used if and only if one of them closes it under the handler. With slots that
      let the event loop run it takes one that closes the port, or an operation the device refuses under them.
      */
    method OnEvent(e: Event)
      requires Valid() && !wild
      modifies this, ios
      ensures FreedStay() && fresh(ios - old(ios)) && old(calls) <= calls
      ensures !wild ==> Valid()
      ensures PlainEvent(e) ==> (wild <==> old(Cut(e)))
      ensures old(Refusing(e)) ==> !wild && old(read).freed
      ensures e.forRead && e.hasRead && e.room > 0 && old(RefusingUnder(e.onRead)) ==> wild
      ensures wild ==> ClosesIn(e) || (Refused(old(calls)) && !PlainEvent(e))
      ensures PlainEvent(e) && !ClosesIn(e) ==> isOpen == old(isOpen) && old(accepted) <= accepted
      ensures Undisturbed(old(isOpen), ClosesIn(e), old(calls), old(read), old(write))
      decreases e, 1
    {
      if !isOpen || !handleOpen {
        return;
      }
      var go := true;
      ClosesHere(e.onRead);
      ClosesHere(e.onWritten);
      ClosesHere(e.onChannelWritten);
      if e.forRead {
        ghost var n;
        go, n := OnRead(e);
      }
      if go && e.forWrite {
        OnWrite(e);
      }
    }
  }

  /**
   * Over every run of calls, completions and events, in any order, contexts are freed at most once, never while the
   * device may use them, and never used afterwards, unless a slot closes the port under the event handler, or
   * dispatches an event under which the device refuses an operation.
   */
  method Run(port: SerialPort, acts: seq<Act>)
    requires port.Valid() && !port.wild
    modifies port, port.ios
    ensures !port.wild ==> port.Valid()
    ensures port.wild ==>
              exists i :: 0 <= i < |acts| && acts[i].DoDispatch?
                          && (ClosesIn(acts[i].e) || (port.Refused(old(port.calls)) && !PlainEvent(acts[i].e)))
  {
    var i := 0;
    while i < |acts| && !port.wild
      invariant !port.wild ==> port.Valid() && old(port.ios) <= port.ios && fresh(port.ios - old(port.ios))
      invariant 0 <= i <= |acts| && old(port.calls) <= port.calls
      invariant port.wild ==>
                  && i > 0 && acts[i - 1].DoDispatch?
                  && (ClosesIn(acts[i - 1].e) || (port.Refused(old(port.calls)) && !PlainEvent(acts[i - 1].e)))
      decreases |acts| - i
    {
      port.Do(acts[i]);
      i := i + 1;
    }
  }

  /** And then it does happen: a port is opened, one byte arrives, and the slot of the signal closes the port. */
  method FailingRun() returns (port: SerialPort)
    ensures port.wild
  {
    port := new SerialPort(i => true);
    var ok := port.Open(Opening(true, false, true, true, true));
    var dispatch := port.Completion(port.read, 1, seq(BUFFSIZE, i => 0));
    port.OnEvent(Event(true, false, true, true, 1, [DoClose], [], []));
  }

  /** The other way: the slot has the next read event dispatched, and the device refuses the read it submits. */
  method NestedFailingRun() returns (port: SerialPort)
    ensures port.wild
  {
    port := new SerialPort(i => i == 0);
    var ok := port.Open(Opening(true, false, true, true, true));
    var dispatch := port.Completion(port.read, 1, seq(BUFFSIZE, i => 0));
    var inner := Event(true, false, true, true, 1, [], [], []);
    port.OnEvent(Event(true, false, true, true, 1, [DoDispatch(inner)], [], []));
  }

  lemma Front(a: seq<byte>, b: seq<byte>, w: seq<byte>, k: nat)
    requires k <= |w|
    ensures a + b + w[..k] + w[k..] == a + b + w
    ensures b == [] ==> a + w[..k] + b + w[k..] == a + b + w
  {
  }

  function Least(a: nat, b: nat): nat {
    if a < b then a else b
  }
}
