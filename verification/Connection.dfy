/** One end of an RPC connection as the library runs it: a send queue with one armed write
    operation, and a receive buffer with the deframing loop. */
module Connections {
  import opened Wrappers
  import opened Bytes
  import opened DynamicBuffers
  import opened FramedStream

  const READ_SIZE: nat := 4096

  /** The write operation registered with the reactor: the remaining view and the bytes sent so far. */
  datatype Pending = Pending(view: bytes, sendBytes: nat)

  class Connection {
    var queue: seq<bytes>
    var write: Option<Pending>
    const readBuf: DynamicBuffer
    var delivered: seq<bytes>
    var closed: bool

    /** The sending side as a value of the stream model. */
    ghost function Sending(): Sender
      reads this
    {
      match write
      case None => Sender(queue, [], 0)
      case Some(w) => Sender(queue, w.view, w.sendBytes)
    }

    /** A write operation is armed exactly while there is something to send. */
    ghost predicate Valid()
      reads this, readBuf, readBuf.chars
    {
      && readBuf.Valid()
      && (queue == [] <==> write.None?)
      && Sending().Valid()
    }

    ghost function Received(): bytes
      requires Valid()
      reads this, readBuf, readBuf.chars
    {
      readBuf.Contents()
    }

    constructor ()
      ensures Valid() && fresh(readBuf) && fresh(readBuf.chars)
      ensures Sending() == IDLE && Received() == [] && delivered == [] && !closed
    {
      queue, write, delivered, closed := [], None, [], false;
      readBuf := new DynamicBuffer(1024);
    }

    method StartQueueSend()
      requires queue != [] && write.None?
      modifies this`write
      ensures write == Some(Pending(queue[0], 0))
    {
      write := Some(Pending(queue[0], 0));
    }

    method Send(data: bytes)
      requires Valid()
      modifies this`queue, this`write
      ensures Valid() && Sending() == old(Sending()).Push(data)
    {
      var idle := queue == [];
      queue := queue + [data];
      if idle {
        StartQueueSend();
      }
    }

    method OnSendCompleted()
      requires queue != [] && write.None?
      modifies this`queue, this`write
      ensures Sending() == Sender(old(queue)[1..], [], 0).Armed()
      ensures queue == [] <==> write.None?
    {
      queue := queue[1..];
      if queue != [] {
        StartQueueSend();
      }
    }

    /** The socket is writable and the kernel accepts `n` bytes: the operation is taken out, and
        registered again for the rest unless the whole view went out. */
    method OnWritable(n: nat) returns (taken: bytes)
      requires Valid() && write.Some? && n <= |write.value.view|
      modifies this`queue, this`write
      ensures Valid() && Sending() == old(Sending()).Accept(n)
      ensures taken == old(write).value.view[..n]
    {
      AcceptSends(Sending(), n);
      var w := write.value;
      write := None;
      taken := w.view[..n];
      var sendBytes := w.sendBytes + n;
      if n != |w.view| {
        write := Some(Pending(w.view[n..], sendBytes));
        return;
      }
      OnSendCompleted();
    }

    /** The write fails: the completion drops the element all the same. */
    method OnWriteError()
      requires Valid() && write.Some?
      modifies this`queue, this`write
      ensures Valid() && Sending() == old(Sending()).Fail()
    {
      ArmedSends(queue[1..]);
      write := None;
      OnSendCompleted();
    }

    method StartRecv()
      requires Valid()
      modifies readBuf, readBuf.chars
      ensures Valid() && (readBuf.chars == old(readBuf.chars) || fresh(readBuf.chars))
      ensures Received() == old(Received()) && readBuf.AvailableBytes() > READ_SIZE
    {
      readBuf.Reserve(READ_SIZE);
    }

    /** Cuts one frame off the buffer, if there is a whole one. */
    method NextMessage() returns (found: bool, data: bytes)
      requires Valid()
      modifies readBuf
      ensures Valid() && readBuf.chars == old(readBuf.chars)
      ensures found == HasFrame(old(Received()))
      ensures found ==> data == old(Received())[PREFIX..FrameLength(old(Received()))]
      ensures found ==> Received() == old(Received())[FrameLength(old(Received()))..]
      ensures !found ==> Received() == old(Received())
    {
      data := [];
      if readBuf.DataBytes() < PREFIX {
        return false, data;
      }
      ghost var content := Received();
      ghost var all := readBuf.chars[..];
      var at := readBuf.ReadBegin();
      assert content == all[at..readBuf.writeIndex];
      SliceOfSlice(all, at, readBuf.writeIndex, 0, PREFIX);
      assert readBuf.chars[at..at + PREFIX] == all[at..at + PREFIX];
      var len := FromBigEndian(readBuf.chars[at..at + PREFIX]);
      if readBuf.DataBytes() < len + PREFIX {
        return false, data;
      }
      SliceOfSlice(all, at, readBuf.writeIndex, PREFIX, PREFIX + len);
      data := readBuf.chars[at + PREFIX..at + PREFIX + len];
      assert data == all[at + PREFIX..at + PREFIX + len];
      readBuf.Read(len + PREFIX);
      found := true;
    }

    /** What has been handed on and what the buffer still leads to add up to `whole`. */
    static ghost predicate LeadsTo(seen: seq<bytes>, b: bytes, whole: Deframed) {
      Deframed(seen + Deframe(b).msgs, Deframe(b).rest) == whole
    }

    static lemma DeframeBegins(seen: seq<bytes>, b: bytes)
      ensures LeadsTo(seen, b, Deframed(seen + Deframe(b).msgs, Deframe(b).rest))
    {
    }

    static lemma DeframeEnds(seen: seq<bytes>, b: bytes, whole: Deframed)
      requires LeadsTo(seen, b, whole) && !HasFrame(b)
      ensures whole == Deframed(seen, b)
    {
      assert seen + [] == seen;
    }

    static lemma DeframeStep(b: bytes, m: bytes, seen: seq<bytes>, whole: Deframed)
      requires LeadsTo(seen, b, whole) && HasFrame(b) && m == b[PREFIX..FrameLength(b)]
      ensures LeadsTo(seen + [m], b[FrameLength(b)..], whole)
    {
      var d := Deframe(b[FrameLength(b)..]);
      assert (seen + [m]) + d.msgs == seen + Deframe(b).msgs;
    }

    /** The deframing loop. */
    method HandOn()
      requires Valid()
      modifies this`delivered, readBuf
      ensures Valid() && readBuf.chars == old(readBuf.chars)
      ensures delivered == old(delivered) + Deframe(old(Received())).msgs
      ensures Received() == Deframe(old(Received())).rest
    {
      hide Deframe;
      hide LeadsTo;
      ghost var whole := Deframed(delivered + Deframe(Received()).msgs, Deframe(Received()).rest);
      DeframeBegins(delivered, Received());
      var more := true;
      while more
        invariant Valid() && readBuf.chars == old(readBuf.chars)
        invariant LeadsTo(delivered, Received(), whole)
        invariant !more ==> !HasFrame(Received())
        decreases more, |Received()|
      {
        ghost var b, seen := Received(), delivered;
        var message;
        more, message := NextMessage();
        if more {
          DeframeStep(b, message, seen, whole);
          delivered := delivered + [message];
        }
      }
      DeframeEnds(delivered, Received(), whole);
    }

    /** The bytes a receive stored, committed to the buffer. */
    method TakeIn(data: bytes)
      requires Valid() && |data| <= readBuf.AvailableBytes()
      modifies readBuf, readBuf.chars
      ensures Valid() && readBuf.chars == old(readBuf.chars)
      ensures Received() == old(Received()) + data
    {
      readBuf.Store(data);
      readBuf.Write(|data|);
    }

    /** The callback of a receive that brought `data`: an empty one is the peer's close; otherwise
        every complete message is handed on, in order, and the next receive is started. */
    method OnRecvMessage(data: bytes)
      requires Valid() && |data| <= readBuf.AvailableBytes()
      modifies this`delivered, this`closed, readBuf, readBuf.chars
      ensures Valid() && (readBuf.chars == old(readBuf.chars) || fresh(readBuf.chars))
      ensures data == [] ==> closed && Received() == old(Received()) && delivered == old(delivered)
      ensures data != [] ==>
                var d := Deframe(old(Received()) + data);
                && closed == old(closed)
                && Received() == d.rest
                && delivered == old(delivered) + d.msgs
                && readBuf.AvailableBytes() > READ_SIZE
    {
      if data == [] {
        closed := true;
        return;
      }
      TakeIn(data);
      HandOn();
      StartRecv();
    }
  }
}
