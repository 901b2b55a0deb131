/** A message stream over a byte connection: length-prefixed frames, a queue of pending sends
    drained by partial writes, a first-in first-out wire, and a receiver that cuts frames out
    of whatever arrives. One run is a sequence of steps of the three parties. */
module FramedStream {
  import opened Bytes
  import Seqs

  // ---------------------------------------------------------------- frames

  const PREFIX: nat := 4

  function Frame(m: bytes): (f: bytes)
    ensures |f| == PREFIX + |m|
  {
    BigEndian(|m|, PREFIX) + m
  }

  function Frames(ms: seq<bytes>): bytes {
    if ms == [] then [] else Frame(ms[0]) + Frames(ms[1..])
  }

  predicate Fits(m: bytes) {
    |m| < Pow256(PREFIX)
  }

  predicate AllFit(ms: seq<bytes>) {
    forall i :: 0 <= i < |ms| ==> Fits(ms[i])
  }

  /** The bytes of a frame: four of length in network order, then the message. */
  lemma FrameLayout(m: bytes)
    ensures Fits(m) <==> |m| < 0x1_0000_0000
    ensures Fits(m) ==> var f := Frame(m);
                        && |f| == 4 + |m| && f[4..] == m
                        && f[0] == |m| / 0x100_0000 && f[1] == |m| / 0x1_0000 % 0x100
                        && f[2] == |m| / 0x100 % 0x100 && f[3] == |m| % 0x100
  {
    hide BigEndian;
    hide Pow256;
    Pow256Values();
    BigEndianAt(|m|, 4, 0);
    BigEndianAt(|m|, 4, 1);
    BigEndianAt(|m|, 4, 2);
    BigEndianAt(|m|, 4, 3);
  }

  lemma {:induction false} FramesAppend(a: seq<bytes>, b: seq<bytes>)
    ensures Frames(a + b) == Frames(a) + Frames(b)
    decreases |a|
  {
    if a == [] {
      assert a + b == b;
    } else {
      assert (a + b)[1..] == a[1..] + b;
      FramesAppend(a[1..], b);
    }
  }

  lemma FramesOne(m: bytes)
    ensures Frames([m]) == Frame(m)
  {
    assert [m][1..] == [];
    assert Frames([]) == [];
  }

  predicate HasFrame(b: bytes) {
    |b| >= PREFIX && |b| >= PREFIX + FromBigEndian(b[..PREFIX])
  }

  function FrameLength(b: bytes): (n: nat)
    requires HasFrame(b)
    ensures PREFIX <= n <= |b|
  {
    PREFIX + FromBigEndian(b[..PREFIX])
  }

  /** What the deframing loop hands on, and what it leaves in the buffer. */
  datatype Deframed = Deframed(msgs: seq<bytes>, rest: bytes)

  function Deframe(b: bytes): (d: Deframed)
    ensures !HasFrame(d.rest)
    decreases |b|
  {
    if !HasFrame(b) then Deframed([], b)
    else
      var d := Deframe(b[FrameLength(b)..]);
      d.(msgs := [b[PREFIX..FrameLength(b)]] + d.msgs)
  }

  /** A frame in front is cut off exactly when its message's length fits in the prefix. */
  lemma FrameInFront(m: bytes, tail: bytes)
    ensures HasFrame(Frame(m) + tail) && FrameLength(Frame(m) + tail) == |Frame(m)| <==> Fits(m)
    ensures Fits(m) ==> var b := Frame(m) + tail; b[PREFIX..FrameLength(b)] == m && b[FrameLength(b)..] == tail
  {
    var b := Frame(m) + tail;
    assert b[..PREFIX] == BigEndian(|m|, PREFIX);
    BigEndianRoundTrip(|m|, PREFIX);
  }

  lemma DeframeOne(m: bytes, tail: bytes)
    requires Fits(m)
    ensures Deframe(Frame(m) + tail) == Deframed([m] + Deframe(tail).msgs, Deframe(tail).rest)
  {
    FrameInFront(m, tail);
  }

  lemma FramesCons(ms: seq<bytes>, tail: bytes)
    requires ms != []
    ensures Frames(ms) + tail == Frame(ms[0]) + (Frames(ms[1..]) + tail)
  {
  }

  /** Deframing undoes framing, and goes on with whatever follows. */
  lemma {:induction false} DeframeFrames(ms: seq<bytes>, tail: bytes)
    requires AllFit(ms)
    ensures Deframe(Frames(ms) + tail) == Deframed(ms + Deframe(tail).msgs, Deframe(tail).rest)
    decreases |ms|
  {
    var d := Deframe(tail);
    if ms == [] {
      assert Frames(ms) + tail == tail && ms + d.msgs == d.msgs;
    } else {
      var rest := Frames(ms[1..]) + tail;
      FramesCons(ms, tail);
      DeframeOne(ms[0], rest);
      DeframeFrames(ms[1..], tail);
      Seqs.HeadAndTail(ms, d.msgs);
    }
  }

  lemma FrameExtends(a: bytes, b: bytes)
    requires HasFrame(a)
    ensures var n := FrameLength(a);
            && HasFrame(a + b) && FrameLength(a + b) == n
            && (a + b)[PREFIX..n] == a[PREFIX..n] && (a + b)[n..] == a[n..] + b
  {
    assert (a + b)[..PREFIX] == a[..PREFIX];
  }

  /** Deframing in two helpings is deframing in one. */
  lemma {:induction false} DeframeAppend(a: bytes, b: bytes)
    ensures var d := Deframe(a);
            var e := Deframe(d.rest + b);
            Deframe(a + b) == Deframed(d.msgs + e.msgs, e.rest)
    decreases |a|
  {
    if HasFrame(a) {
      var n := FrameLength(a);
      FrameExtends(a, b);
      DeframeAppend(a[n..], b);
      var d := Deframe(a[n..]);
      var m := a[PREFIX..n];
      assert [m] + (d.msgs + Deframe(d.rest + b).msgs) == ([m] + d.msgs) + Deframe(d.rest + b).msgs;
    } else {
      var e := Deframe(a + b);
      assert [] + e.msgs == e.msgs;
    }
  }

  /** A frame that is cut off was printed as one. */
  lemma CutFrame(b: bytes)
    requires HasFrame(b)
    ensures var n := FrameLength(b);
            Fits(b[PREFIX..n]) && b == Frame(b[PREFIX..n]) + b[n..]
  {
    FromBigEndianInverse(b[..PREFIX]);
    assert b == b[..PREFIX] + b[PREFIX..FrameLength(b)] + b[FrameLength(b)..];
  }

  lemma Reassemble(m: bytes, ms: seq<bytes>, rest: bytes, b: bytes)
    requires Fits(m) && AllFit(ms) && b == Frame(m) + (Frames(ms) + rest)
    ensures Frames([m] + ms) + rest == b && AllFit([m] + ms)
  {
    assert ([m] + ms)[1..] == ms;
  }

  /** The bytes of the messages found and the bytes left are the bytes given. */
  lemma {:induction false} DeframeConserves(b: bytes)
    ensures Frames(Deframe(b).msgs) + Deframe(b).rest == b
    ensures AllFit(Deframe(b).msgs)
    decreases |b|
  {
    if HasFrame(b) {
      var n := FrameLength(b);
      var m, d := b[PREFIX..n], Deframe(b[n..]);
      DeframeConserves(b[n..]);
      CutFrame(b);
      Reassemble(m, d.msgs, d.rest, b);
      assert Deframe(b) == Deframed([m] + d.msgs, d.rest);
    }
  }

  // ---------------------------------------------------------------- the sending side

  /** The send queue, and the write operation that is armed for its first element: the view of
      what remains of it and the count of bytes already accepted by the kernel. */
  datatype Sender = Sender(queue: seq<bytes>, view: bytes, sendBytes: nat) {

    predicate Valid() {
      if queue == [] then view == [] && sendBytes == 0
      else (sendBytes == 0 || sendBytes < |queue[0]|) && view == queue[0][sendBytes..]
    }

    /** The bytes that are still to go out. */
    function Outstanding(): bytes {
      if queue == [] then [] else view + Concat(queue[1..])
    }

    function Armed(): Sender {
      if queue == [] then Sender([], [], 0) else Sender(queue, queue[0], 0)
    }

    function Push(data: bytes): Sender {
      if queue == [] then Sender([data], data, 0) else this.(queue := queue + [data])
    }

    /** The kernel accepts `n` bytes of the view. */
    function Accept(n: nat): Sender
      requires queue != [] && n <= |view|
    {
      if n == |view| then Sender(queue[1..], [], 0).Armed()
      else Sender(queue, view[n..], sendBytes + n)
    }

    /** The write fails: the element is dropped as if it had been sent. */
    function Fail(): Sender
      requires queue != []
    {
      Sender(queue[1..], [], 0).Armed()
    }
  }

  const IDLE: Sender := Sender([], [], 0)

  lemma PushSends(s: Sender, data: bytes)
    requires s.Valid()
    ensures s.Push(data).Valid()
    ensures s.Push(data).Outstanding() == s.Outstanding() + data
  {
    if s.queue == [] {
      assert s.Push(data).queue[1..] == [];
      assert s.Push(data).Outstanding() == data + [] == [] + data;
    } else {
      var q := s.queue;
      assert (q + [data])[1..] == q[1..] + [data];
      ConcatAppend(q[1..], [data]);
      assert [data][1..] == [] && Concat([data]) == data + [];
      assert s.view + (Concat(q[1..]) + data) == (s.view + Concat(q[1..])) + data;
    }
  }

  lemma ArmedSends(queue: seq<bytes>)
    ensures Sender(queue, [], 0).Armed().Valid()
    ensures Sender(queue, [], 0).Armed().Outstanding() == Concat(queue)
  {
  }

  /** However the kernel cuts the writes, the accepted bytes are the front of what was outstanding;
      a write that completes has sent its whole element, one that does not keeps count of the rest. */
  lemma AcceptSends(s: Sender, n: nat)
    requires s.Valid() && s.queue != [] && n <= |s.view|
    ensures var s' := s.Accept(n);
            && s'.Valid()
            && s.Outstanding() == s.view[..n] + s'.Outstanding()
            && (if n == |s.view| then s.sendBytes + n == |s.queue[0]| && s'.queue == s.queue[1..]
                else s'.queue == s.queue && s'.sendBytes + |s'.view| == |s.queue[0]| && s'.sendBytes == s.sendBytes + n)
  {
    var s' := s.Accept(n);
    ArmedSends(s.queue[1..]);
    assert s.view == s.view[..n] + s.view[n..];
    if n == |s.view| {
      assert s.view[..n] == s.view;
    } else {
      assert s.queue[0][s.sendBytes..][n..] == s.queue[0][s.sendBytes + n..];
      assert s.view + Concat(s.queue[1..]) == s.view[..n] + (s.view[n..] + Concat(s.queue[1..]));
    }
  }

  // ---------------------------------------------------------------- whole runs

  /** `pushed` lists the messages given to the sender and not dropped, `delivered` those
      given to the receiver's callback. */
  datatype Stream = Stream(sender: Sender, wire: bytes, buf: bytes, pushed: seq<bytes>, delivered: seq<bytes>)

  const EMPTY: Stream := Stream(IDLE, [], [], [], [])

  datatype Step =
    | Push(m: bytes)
    | Accept(n: nat)
    | Fail
    | Recv(n: nat)

  predicate Enabled(s: Stream, step: Step) {
    match step
    case Push(m) => Fits(m)
    case Accept(n) => s.sender.queue != [] && n <= |s.sender.view|
    case Fail => s.sender.queue != []
    case Recv(n) => 1 <= n <= |s.wire|
  }

  function DropAt(ms: seq<bytes>, i: nat): seq<bytes>
    requires i < |ms|
  {
    ms[..i] + ms[i + 1..]
  }

  function Apply(s: Stream, step: Step): Stream
    requires Enabled(s, step)
  {
    match step
    case Push(m) => s.(sender := s.sender.Push(Frame(m)), pushed := s.pushed + [m])
    case Accept(n) => s.(sender := s.sender.Accept(n), wire := s.wire + s.sender.view[..n])
    case Fail =>
      s.(sender := s.sender.Fail(),
         pushed := if |s.sender.queue| <= |s.pushed| then DropAt(s.pushed, |s.pushed| - |s.sender.queue|) else s.pushed)
    case Recv(n) =>
      var d := Deframe(s.buf + s.wire[..n]);
      s.(wire := s.wire[n..], buf := d.rest, delivered := s.delivered + d.msgs)
  }

  function FrameEach(ms: seq<bytes>): (fs: seq<bytes>)
    ensures |fs| == |ms|
  {
    seq(|ms|, i requires 0 <= i < |ms| => Frame(ms[i]))
  }

  /** Every byte of every pushed message is delivered, buffered, on the wire or outstanding, in
      this order; the queue holds the last frames; the buffer holds no whole frame. */
  ghost predicate Inv(s: Stream) {
    && s.sender.Valid()
    && AllFit(s.pushed)
    && AllFit(s.delivered)
    && !HasFrame(s.buf)
    && |s.sender.queue| <= |s.pushed|
    && s.sender.queue == FrameEach(s.pushed[|s.pushed| - |s.sender.queue|..])
    && Frames(s.pushed) == Frames(s.delivered) + (s.buf + s.wire + s.sender.Outstanding())
  }

  lemma InitInv()
    ensures Inv(EMPTY)
  {
  }

  lemma {:induction false} ConcatFrameEach(ms: seq<bytes>)
    ensures Concat(FrameEach(ms)) == Frames(ms)
    decreases |ms|
  {
    if ms != [] {
      assert FrameEach(ms)[1..] == FrameEach(ms[1..]);
      ConcatFrameEach(ms[1..]);
    }
  }

  lemma FrameEachAppend(ms: seq<bytes>, m: bytes)
    ensures FrameEach(ms + [m]) == FrameEach(ms) + [Frame(m)]
  {
  }

  lemma Regroup(a: bytes, b: bytes, c: bytes, d: bytes)
    ensures a + (b + c) + d == a + (b + (c + d))
  {
  }

  lemma PushKeeps(s: Stream, m: bytes)
    requires Inv(s) && Fits(m)
    ensures Inv(Apply(s, Push(m)))
  {
    PushSends(s.sender, Frame(m));
    FramesAppend(s.pushed, [m]);
    FramesOne(m);
    var k := |s.pushed| - |s.sender.queue|;
    assert (s.pushed + [m])[k..] == s.pushed[k..] + [m];
    FrameEachAppend(s.pushed[k..], m);
    Regroup(Frames(s.delivered), s.buf + s.wire, s.sender.Outstanding(), Frame(m));
  }

  lemma AcceptBytes(d: bytes, buf: bytes, wire: bytes, sent: bytes, o: bytes)
    ensures d + (buf + wire + (sent + o)) == d + (buf + (wire + sent) + o)
  {
  }

  lemma AcceptKeeps(s: Stream, n: nat)
    requires Inv(s) && Enabled(s, Accept(n))
    ensures Inv(Apply(s, Accept(n)))
  {
    var s' := Apply(s, Accept(n));
    AcceptSends(s.sender, n);
    AcceptBytes(Frames(s.delivered), s.buf, s.wire, s.sender.view[..n], s'.sender.Outstanding());
    var k := |s.pushed| - |s.sender.queue|;
    assert FrameEach(s.pushed[k..])[1..] == FrameEach(s.pushed[k + 1..]);
  }

  /** Received bytes move from the wire through the buffer into messages, keeping their order. */
  lemma RecvBytes(d0: bytes, buf: bytes, wire: bytes, o: bytes, n: nat, d1: bytes, rest: bytes)
    requires n <= |wire| && d1 + rest == buf + wire[..n]
    ensures d0 + (buf + wire + o) == d0 + d1 + (rest + wire[n..] + o)
  {
    assert wire == wire[..n] + wire[n..];
    assert buf + wire == d1 + rest + wire[n..];
  }

  lemma RecvKeeps(s: Stream, n: nat)
    requires Inv(s) && Enabled(s, Recv(n))
    ensures Inv(Apply(s, Recv(n)))
  {
    var b := s.buf + s.wire[..n];
    var d := Deframe(b);
    DeframeConserves(b);
    FramesAppend(s.delivered, d.msgs);
    RecvBytes(Frames(s.delivered), s.buf, s.wire, s.sender.Outstanding(), n, Frames(d.msgs), d.rest);
  }

  /** What a failed write removes, in bytes. */
  lemma FailBytes(s: Stream, k: nat)
    requires Inv(s) && s.sender.queue != [] && k == |s.pushed| - |s.sender.queue|
    ensures s.sender.queue[0] == Frame(s.pushed[k])
    ensures |Frames(s.pushed)| == |Frames(DropAt(s.pushed, k))| + |s.sender.queue[0]|
    ensures |s.sender.Outstanding()| == |s.sender.Fail().Outstanding()| + |s.sender.view|
  {
    var m := s.pushed[k];
    ArmedSends(s.sender.queue[1..]);
    assert s.pushed == s.pushed[..k] + ([m] + s.pushed[k + 1..]);
    FramesAppend(s.pushed[..k], [m] + s.pushed[k + 1..]);
    FramesAppend([m], s.pushed[k + 1..]);
    FramesOne(m);
    FramesAppend(s.pushed[..k], s.pushed[k + 1..]);
  }

  lemma FailQueue(s: Stream, k: nat)
    requires Inv(s) && s.sender.queue != [] && k == |s.pushed| - |s.sender.queue|
    ensures var s' := Apply(s, Fail);
            && s'.sender.Valid() && s'.pushed == DropAt(s.pushed, k)
            && |s'.sender.queue| <= |s'.pushed|
            && s'.sender.queue == FrameEach(s'.pushed[|s'.pushed| - |s'.sender.queue|..])
  {
    var s' := Apply(s, Fail);
    ArmedSends(s.sender.queue[1..]);
    assert FrameEach(s.pushed[k..])[1..] == FrameEach(s.pushed[k + 1..]);
    assert s'.pushed[|s'.pushed| - |s'.sender.queue|..] == s.pushed[k + 1..];
  }

  lemma FailFits(s: Stream, k: nat)
    requires AllFit(s.pushed) && k < |s.pushed|
    ensures AllFit(DropAt(s.pushed, k))
  {
    hide Fits;
  }

  lemma FailShort(s: Stream, k: nat)
    requires Inv(s) && s.sender.queue != [] && k == |s.pushed| - |s.sender.queue| && s.sender.sendBytes > 0
    ensures Frames(DropAt(s.pushed, k)) != Frames(s.delivered) + (s.buf + s.wire + s.sender.Fail().Outstanding())
  {
    hide Frames;
    hide Frame;
    hide FrameEach;
    hide Concat;
    hide DropAt;
    hide HasFrame;
    FailBytes(s, k);
  }

  /** A failed write keeps the invariant exactly when none of the element's bytes had been accepted:
      otherwise the rest of its frame is missing in the middle of the byte stream. */
  lemma FailInvExact(s: Stream)
    requires Inv(s) && s.sender.queue != []
    ensures Inv(Apply(s, Fail)) <==> s.sender.sendBytes == 0
  {
    hide Frames;
    hide Frame;
    hide FrameEach;
    hide Concat;
    hide DropAt;
    var k := |s.pushed| - |s.sender.queue|;
    FailQueue(s, k);
    FailFits(s, k);
    if s.sender.sendBytes == 0 {
      FailWhole(s, k);
    } else {
      FailShort(s, k);
    }
  }

  /** With nothing of the first element accepted, what has left the sender is the messages before it. */
  lemma SentWhole(s: Stream, k: nat)
    requires Inv(s) && s.sender.queue != [] && s.sender.sendBytes == 0 && k == |s.pushed| - |s.sender.queue|
    ensures Frames(s.pushed[..k]) == Frames(s.delivered) + (s.buf + s.wire)
  {
    var sent := Frames(s.delivered) + (s.buf + s.wire);
    var queued := Frames(s.pushed[k..]);
    assert s.pushed == s.pushed[..k] + s.pushed[k..];
    FramesAppend(s.pushed[..k], s.pushed[k..]);
    ConcatFrameEach(s.pushed[k..]);
    assert s.sender.view == s.sender.queue[0];
    assert s.sender.Outstanding() == queued;
    assert Frames(s.pushed[..k]) + queued == sent + queued;
    SuffixCancels(Frames(s.pushed[..k]), sent, queued);
  }

  lemma FailWhole(s: Stream, k: nat)
    requires Inv(s) && s.sender.queue != [] && s.sender.sendBytes == 0 && k == |s.pushed| - |s.sender.queue|
    ensures Frames(DropAt(s.pushed, k)) == Frames(s.delivered) + (s.buf + s.wire + s.sender.Fail().Outstanding())
  {
    var sent := Frames(s.delivered) + (s.buf + s.wire);
    SentWhole(s, k);
    FramesAppend(s.pushed[..k], s.pushed[k + 1..]);
    ConcatFrameEach(s.pushed[k + 1..]);
    assert s.sender.queue[1..] == FrameEach(s.pushed[k + 1..]);
    ArmedSends(s.sender.queue[1..]);
    Seqs.Assoc(Frames(s.delivered), s.buf + s.wire, Frames(s.pushed[k + 1..]));
  }

  lemma SuffixCancels(a: bytes, b: bytes, c: bytes)
    requires a + c == b + c
    ensures a == b
  {
    assert |a| == |b|;
    assert a == (a + c)[..|a|];
    assert b == (b + c)[..|b|];
  }

  lemma FirstByteThenFail(m: bytes, f: bytes)
    requires Fits(m) && f == Frame(m)
    ensures Apply(Apply(Apply(EMPTY, Push(m)), Accept(1)), Fail) == Stream(IDLE, f[..1], [], [], [])
  {
  }

  lemma SendWhole(w: bytes, m: bytes, f: bytes)
    requires Fits(m) && f == Frame(m)
    ensures Apply(Apply(Stream(IDLE, w, [], [], []), Push(m)), Accept(|f|)) == Stream(IDLE, w + f, [], [m], [])
  {
    assert f[..|f|] == f;
  }

  lemma RecvWhole(w: bytes, pushed: seq<bytes>)
    requires w != []
    ensures Apply(Stream(IDLE, w, [], pushed, []), Recv(|w|))
         == Stream(IDLE, [], Deframe(w).rest, pushed, Deframe(w).msgs)
  {
    var msgs := Deframe(w).msgs;
    assert w[..|w|] == w && w[|w|..] == [];
    assert [] + w == w && [] + msgs == msgs;
  }

  lemma Misread()
    ensures Deframe([0, 0, 0, 0, 1, 9]) == Deframed([[]], [1, 9])
  {
    var b: bytes := [0, 0, 0, 0, 1, 9];
    ZeroPrefix(b);
    assert b[4..] == [1, 9];
    assert !HasFrame([1, 9]);
    assert Deframe([1, 9]) == Deframed([], [1, 9]);
    assert b[4..4] == [];
  }

  /** One byte of a message goes out, the rest is dropped, and the next message goes out whole. */
  function MidMessage(m: bytes, next: bytes): Stream
    requires Fits(m) && Fits(next)
  {
    var s0 := Apply(Apply(Apply(EMPTY, Push(m)), Accept(1)), Fail);
    Apply(Apply(Apply(s0, Push(next)), Accept(PREFIX + |next|)), Recv(1 + PREFIX + |next|))
  }

  lemma MidMessageReads(m: bytes, next: bytes, w: bytes)
    requires Fits(m) && Fits(next) && w == Frame(m)[..1] + Frame(next)
    ensures MidMessage(m, next) == Stream(IDLE, [], Deframe(w).rest, [next], Deframe(w).msgs)
  {
    FirstByteThenFail(m, Frame(m));
    SendWhole(Frame(m)[..1], next, Frame(next));
    RecvWhole(w, [next]);
  }

  /** The failure shown on bytes: the next message is read with a length taken from the middle of
      the stream, so that an empty message is delivered which nobody sent. */
  lemma FailMidMessage() returns (m: bytes, next: bytes)
    ensures Fits(m) && Fits(next)
    ensures MidMessage(m, next).pushed == [next] && next != []
    ensures MidMessage(m, next).delivered == [[]]
  {
    m, next := [7], [9];
    FrameOfByte(7);
    FrameOfByte(9);
    var w: bytes := [0, 0, 0, 0, 1, 9];
    assert Frame(m)[..1] == [0] && Frame(m)[..1] + Frame(next) == w;
    Misread();
    MidMessageReads(m, next, w);
  }

  lemma FrameOfByte(x: byte)
    ensures Frame([x]) == [0, 0, 0, 1, x]
  {
    assert BigEndian(0, 3) == [0, 0, 0] by {
      assert BigEndian(0, 1) == [0];
      assert BigEndian(0, 2) == [0, 0];
    }
    assert BigEndian(1, 4) == BigEndian(0, 3) + [1];
  }

  lemma ZeroPrefix(b: bytes)
    requires |b| >= 4 && b[..4] == [0, 0, 0, 0]
    ensures HasFrame(b) && FrameLength(b) == 4
  {
    var z: bytes := [0, 0, 0, 0];
    assert z[..3] == [0, 0, 0] && z[..3][..2] == [0, 0] && z[..3][..2][..1] == [0] && z[..3][..2][..1][..0] == [];
    assert FromBigEndian(z[..3][..2][..1]) == 0;
    assert FromBigEndian(z[..3][..2]) == 0;
    assert FromBigEndian(z[..3]) == 0;
  }

  /** A run of steps from `s`. */
  predicate Runs(s: Stream, steps: seq<Step>)
    decreases |steps|
  {
    steps == [] || (Enabled(s, steps[0]) && Runs(Apply(s, steps[0]), steps[1..]))
  }

  function After(s: Stream, steps: seq<Step>): Stream
    requires Runs(s, steps)
    decreases |steps|
  {
    if steps == [] then s else After(Apply(s, steps[0]), steps[1..])
  }

  /** No write fails in the middle of a message. */
  predicate Clean(s: Stream, steps: seq<Step>)
    requires Runs(s, steps)
    decreases |steps|
  {
    steps == []
    || ((steps[0] == Fail ==> s.sender.sendBytes == 0) && Clean(Apply(s, steps[0]), steps[1..]))
  }

  lemma StepKeeps(s: Stream, step: Step)
    requires Inv(s) && Enabled(s, step) && (step == Fail ==> s.sender.sendBytes == 0)
    ensures Inv(Apply(s, step))
  {
    match step
    case Push(m) => PushKeeps(s, m);
    case Accept(n) => AcceptKeeps(s, n);
    case Fail => FailInvExact(s);
    case Recv(n) => RecvKeeps(s, n);
  }

  lemma {:induction false} RunKeeps(s: Stream, steps: seq<Step>)
    requires Inv(s) && Runs(s, steps) && Clean(s, steps)
    ensures Inv(After(s, steps))
    decreases |steps|
  {
    if steps != [] {
      StepKeeps(s, steps[0]);
      RunKeeps(Apply(s, steps[0]), steps[1..]);
    }
  }

  /** In every state with the invariant, the receiver has seen a prefix of the pushed messages,
      and all of them once queue, wire and receive buffer are drained. */
  lemma InvSafe(s: Stream)
    requires Inv(s)
    ensures s.delivered <= s.pushed
    ensures s.sender.queue == [] && s.wire == [] && s.buf == [] ==> s.delivered == s.pushed
  {
    var tail := s.buf + s.wire + s.sender.Outstanding();
    DeframeFrames(s.delivered, tail);
    DeframeFrames(s.pushed, []);
    assert Frames(s.pushed) + [] == Frames(s.pushed);
    assert Deframe([]) == Deframed([], []);
    assert s.pushed + [] == s.pushed;
    assert s.pushed == s.delivered + Deframe(tail).msgs;
    if s.sender.queue == [] && s.wire == [] && s.buf == [] {
      assert tail == [];
    }
  }

  function Pushes(steps: seq<Step>): seq<bytes> {
    if steps == [] then []
    else (if steps[0].Push? then [steps[0].m] else []) + Pushes(steps[1..])
  }

  predicate ErrorFree(steps: seq<Step>) {
    forall i :: 0 <= i < |steps| ==> steps[i] != Fail
  }

  lemma PushedNow(s: Stream, step: Step)
    requires Enabled(s, step) && step != Fail
    ensures Apply(s, step).pushed == s.pushed + if step.Push? then [step.m] else []
  {
    Seqs.NoMore(s.pushed);
  }

  lemma {:induction false} PushedInRun(s: Stream, steps: seq<Step>)
    requires Runs(s, steps) && ErrorFree(steps)
    ensures After(s, steps).pushed == s.pushed + Pushes(steps)
    ensures Clean(s, steps)
    decreases |steps|
  {
    if steps == [] {
      Seqs.NoMore(s.pushed);
    } else {
      var now := if steps[0].Push? then [steps[0].m] else [];
      PushedNow(s, steps[0]);
      PushedInRun(Apply(s, steps[0]), steps[1..]);
      Seqs.Assoc(s.pushed, now, Pushes(steps[1..]));
    }
  }

  /** End-to-end safety of every error-free run, for any cutting of writes and reads. */
  lemma EndToEnd(steps: seq<Step>)
    requires Runs(EMPTY, steps) && ErrorFree(steps)
    ensures var s := After(EMPTY, steps);
            && s.delivered <= Pushes(steps)
            && (s.sender.queue == [] && s.wire == [] && s.buf == [] ==> s.delivered == Pushes(steps))
  {
    InitInv();
    PushedInRun(EMPTY, steps);
    RunKeeps(EMPTY, steps);
    InvSafe(After(EMPTY, steps));
    assert [] + Pushes(steps) == Pushes(steps);
  }

  // ---------------------------------------------------------------- after a failed write

  /** Whatever error-free steps follow, the receiver sees nothing but a prefix of what was pushed. */
  ghost predicate Safe(s: Stream) {
    forall steps :: Runs(s, steps) && ErrorFree(steps) ==> After(s, steps).delivered <= After(s, steps).pushed
  }

  /** The bytes on their way to the receiver. */
  function Coming(s: Stream): bytes {
    s.buf + s.wire + s.sender.Outstanding()
  }

  lemma RunsCons(s: Stream, step: Step, steps: seq<Step>)
    requires Enabled(s, step) && Runs(Apply(s, step), steps)
    ensures Runs(s, [step] + steps) && After(s, [step] + steps) == After(Apply(s, step), steps)
    ensures step != Fail && ErrorFree(steps) ==> ErrorFree([step] + steps)
  {
    hide Apply;
    hide Enabled;
    assert ([step] + steps)[1..] == steps;
  }

  /** Everything that is coming can be brought to the receiver. */
  lemma {:induction false} Drain(s: Stream) returns (steps: seq<Step>)
    requires s.sender.Valid() && !HasFrame(s.buf)
    ensures Runs(s, steps) && ErrorFree(steps)
    ensures After(s, steps).delivered == s.delivered + Deframe(Coming(s)).msgs && After(s, steps).pushed == s.pushed
    decreases |s.sender.queue|
  {
    hide HasFrame;
    hide Deframe;
    hide Runs;
    hide After;
    if s.sender.queue != [] {
      var n := |s.sender.view|;
      var s' := Apply(s, Accept(n));
      AcceptSends(s.sender, n);
      AcceptComing(s, n);
      var rest := Drain(s');
      RunsCons(s, Accept(n), rest);
      steps := [Accept(n)] + rest;
    } else {
      steps := DrainWire(s);
    }
  }

  lemma AcceptComing(s: Stream, n: nat)
    requires s.sender.Valid() && Enabled(s, Accept(n))
    ensures Coming(Apply(s, Accept(n))) == Coming(s)
  {
    var s' := Apply(s, Accept(n));
    AcceptSends(s.sender, n);
    AcceptBytes([], s.buf, s.wire, s.sender.view[..n], s'.sender.Outstanding());
    assert [] + Coming(s) == Coming(s) && [] + Coming(s') == Coming(s');
  }

  lemma DrainWire(s: Stream) returns (steps: seq<Step>)
    requires s.sender.queue == [] && !HasFrame(s.buf)
    ensures Runs(s, steps) && ErrorFree(steps)
    ensures After(s, steps).delivered == s.delivered + Deframe(Coming(s)).msgs && After(s, steps).pushed == s.pushed
  {
    hide HasFrame;
    Seqs.NoMore(s.buf + s.wire);
    if s.wire == [] {
      steps := [];
      Seqs.NoMore(s.buf);
      Seqs.NoMore(s.delivered);
      NothingToCut(s.buf);
    } else {
      steps := [Recv(|s.wire|)];
      assert s.wire[..|s.wire|] == s.wire;
      var s' := Apply(s, steps[0]);
      assert steps[1..] == [] && Runs(s', []) && After(s', []) == s';
    }
  }

  lemma NothingToCut(b: bytes)
    requires !HasFrame(b)
    ensures Deframe(b).msgs == []
  {
  }

  /** What has left the sender when the write failed: the messages before the element, and a part of it. */
  lemma SentPart(s: Stream, k: nat, x: bytes)
    requires Inv(s) && s.sender.queue != [] && k == |s.pushed| - |s.sender.queue|
    requires x == s.sender.queue[0][..s.sender.sendBytes]
    ensures Frames(s.pushed[..k]) + x == Frames(s.delivered) + (s.buf + s.wire)
    ensures s.sender.Fail().Outstanding() == Frames(s.pushed[k + 1..])
    ensures s.sender.queue[0] == Frame(s.pushed[k])
  {
    hide Frames;
    hide Frame;
    var q := s.pushed[k + 1..];
    QueueLater(s, k);
    ElementParts(s.sender, x);
    FailLeaves(s.sender, q);
    AllAccounted(s, q);
    hide Inv;
    hide FrameEach;
    hide Sender.Valid;
    hide Sender.Outstanding;
    hide Sender.Fail;
    FramesAround(s.pushed, k);
    SplitAround(Frames(s.pushed[..k]), x, s.sender.view, Frames(q));
    SuffixCancels(Frames(s.pushed[..k]) + x, Frames(s.delivered) + (s.buf + s.wire), s.sender.view + Frames(q));
  }

  /** The element at the front of the queue is what has been accepted of it and the view. */
  lemma ElementParts(a: Sender, x: bytes)
    requires a.Valid() && a.queue != [] && x == a.queue[0][..a.sendBytes]
    ensures a.queue[0] == x + a.view
  {
  }

  lemma FailLeaves(a: Sender, q: seq<bytes>)
    requires a.queue != [] && a.queue[1..] == FrameEach(q)
    ensures a.Fail().Outstanding() == Frames(q)
  {
    ArmedSends(a.queue[1..]);
    ConcatFrameEach(q);
  }

  /** All bytes of all messages, the queue behind its first element being that of the messages `q`. */
  lemma AllAccounted(s: Stream, q: seq<bytes>)
    requires Inv(s) && s.sender.queue != [] && s.sender.queue[1..] == FrameEach(q)
    ensures Frames(s.pushed) == Frames(s.delivered) + (s.buf + s.wire) + (s.sender.view + Frames(q))
  {
    hide Frames;
    hide FrameEach;
    ConcatFrameEach(q);
    var later := s.sender.view + Frames(q);
    assert s.sender.Outstanding() == later;
    Seqs.Assoc(Frames(s.delivered), s.buf + s.wire, later);
  }

  lemma SplitAround(p: bytes, x: bytes, v: bytes, q: bytes)
    ensures p + ((x + v) + q) == (p + x) + (v + q)
  {
  }

  lemma QueueLater(s: Stream, k: nat)
    requires Inv(s) && s.sender.queue != [] && k == |s.pushed| - |s.sender.queue|
    ensures s.sender.queue[0] == Frame(s.pushed[k]) && s.sender.queue[1..] == FrameEach(s.pushed[k + 1..])
  {
  }

  lemma FramesAround(ms: seq<bytes>, k: nat)
    requires k < |ms|
    ensures Frames(ms) == Frames(ms[..k]) + (Frame(ms[k]) + Frames(ms[k + 1..]))
  {
    assert ms == ms[..k] + ms[k..];
    FramesAppend(ms[..k], ms[k..]);
    assert ms[k..][0] == ms[k] && ms[k..][1..] == ms[k + 1..];
  }

  const LONGEST: nat := 0xffff_ffff

  /** The longest message, all zeros but for a last byte of 1. */
  function Marker(): (y: bytes)
    ensures |y| == LONGEST && y[LONGEST - 1] == 1 && forall i :: 0 <= i < LONGEST - 1 ==> y[i] == 0
  {
    seq(LONGEST, i => if i == LONGEST - 1 then 1 else 0)
  }

  lemma LongestPrefix()
    ensures Pow256(PREFIX) == LONGEST + 1 && BigEndian(LONGEST, PREFIX) == [255, 255, 255, 255]
  {
    assert Pow256(1) == 0x100 && Pow256(2) == 0x1_0000 && Pow256(3) == 0x100_0000;
    assert BigEndian(0xff, 1) == [255];
    assert BigEndian(0xffff, 2) == [255, 255];
    assert BigEndian(0xff_ffff, 3) == [255, 255, 255];
  }

  lemma MarkerFits()
    ensures Fits(Marker()) && |Frame(Marker())| == LONGEST + 4
  {
    LongestPrefix();
  }

  /** The last byte of the marker's frame differs from every byte up to a frame's length before it. */
  lemma MarkerTells(q: bytes, d: nat)
    requires 0 < d <= LONGEST + 3
    ensures var g := q + Frame(Marker());
            g[|g| - 1] != g[|g| - 1 - d]
  {
    var y := Marker();
    LongestPrefix();
    var f := Frame(y);
    assert f == [255, 255, 255, 255] + y;
    var g := q + f;
    var j := |f| - 1 - d;
    assert g[|g| - 1] == f[|f| - 1] == y[LONGEST - 1];
    assert g[|g| - 1 - d] == f[j];
    assert j >= 4 ==> f[j] == y[j - 4];
  }

  lemma NoFrameIsShort(b: bytes)
    requires !HasFrame(b)
    ensures |b| < LONGEST + 4
  {
    LongestPrefix();
    if |b| >= PREFIX {
      FromBigEndianInverse(b[..PREFIX]);
    }
  }

  lemma {:induction false} LastFrameIn(ms: seq<bytes>)
    requires ms != []
    ensures |Frames(ms)| >= |Frame(ms[|ms| - 1])|
    decreases |ms|
  {
    if |ms| > 1 {
      LastFrameIn(ms[1..]);
    }
  }

  /** If bytes too many in front of a stream of frames did not show in what is cut from it, the stream
      would repeat itself at their distance. */
  lemma Repeats(x: bytes, r: seq<bytes>)
    requires r != [] && r[|r| - 1] == Marker() && 0 < |x| < LONGEST + 4
    requires Deframe(x + Frames(r)).msgs <= r
    ensures var g := Frames(r);
            |g| >= LONGEST + 4 && g[|g| - 1] == g[|g| - 1 - |x|]
  {
    hide HasFrame;
    hide Deframe;
    hide Frame;
    hide Frames;
    hide Marker;
    var g := Frames(r);
    var d := Deframe(x + g);
    var ms, left := d.msgs, r[|d.msgs|..];
    DeframeConserves(x + g);
    NoFrameIsShort(d.rest);
    MarkerFits();
    LastFrameIn(r);
    assert r == ms + left;
    FramesAppend(ms, left);
    NoneLeft(ms, left, r);
    assert left == [] && ms == r;
    SameBytes(x, g, d.rest);
  }

  lemma NoneLeft(ms: seq<bytes>, left: seq<bytes>, r: seq<bytes>)
    requires r == ms + left && r != [] && r[|r| - 1] == Marker()
    ensures left != [] ==> |Frames(left)| >= LONGEST + 4
  {
    hide Frame;
    hide Frames;
    hide Marker;
    MarkerFits();
    if left != [] {
      assert left[|left| - 1] == r[|r| - 1];
      LastFrameIn(left);
    }
  }

  lemma SameBytes(x: bytes, g: bytes, rest: bytes)
    requires g + rest == x + g && 0 < |x| < |g|
    ensures g[|g| - 1] == g[|g| - 1 - |x|]
  {
    var j := |g| - 1;
    assert (g + rest)[j] == g[j];
    assert (x + g)[j] == g[j - |x|];
  }

  /** A part of a frame in front always shows once enough follows it. */
  lemma Misaligned(x: bytes, q: seq<bytes>)
    requires 0 < |x| < LONGEST + 4
    ensures !(Deframe(x + Frames(q + [Marker()])).msgs <= q + [Marker()])
  {
    hide Deframe;
    hide Frame;
    hide Frames;
    hide Marker;
    var r := q + [Marker()];
    FramesAppend(q, [Marker()]);
    FramesOne(Marker());
    MarkerTells(Frames(q), |x|);
    if Deframe(x + Frames(r)).msgs <= r {
      Repeats(x, r);
    }
  }

  /** The run that shows it: one more message, and everything brought to the receiver. */
  lemma FailShows(s: Stream) returns (steps: seq<Step>)
    requires Inv(s) && s.sender.queue != [] && s.sender.sendBytes > 0
    ensures var s' := Apply(s, Fail);
            Runs(s', steps) && ErrorFree(steps) && !(After(s', steps).delivered <= After(s', steps).pushed)
  {
    hide Deframe;
    hide Frame;
    hide Frames;
    hide HasFrame;
    hide Marker;
    hide Runs;
    hide After;
    var k := |s.pushed| - |s.sender.queue|;
    var y, p, q := Marker(), s.pushed[..k], s.pushed[k + 1..];
    var x := s.sender.queue[0][..s.sender.sendBytes];
    var s1 := Apply(s, Fail);
    FailQueue(s, k);
    MarkerFits();
    var s2 := Apply(s1, Push(y));
    PushSends(s1.sender, Frame(y));
    var rest := Drain(s2);
    RunsCons(s1, Push(y), rest);
    steps := [Push(y)] + rest;
    SentPart(s, k, x);
    PartLength(s, k, x);
    FramesAppend(q, [y]);
    FramesOne(y);
    ShiftedMessages(s, p, x, q + [y], Coming(s2));
    Misaligned(x, q);
    assert s2.pushed == p + (q + [y]);
    PrefixBehind(p, Deframe(x + Frames(q + [y])).msgs, q + [y]);
  }

  lemma PartLength(s: Stream, k: nat, x: bytes)
    requires Inv(s) && s.sender.queue != [] && k == |s.pushed| - |s.sender.queue| && s.sender.sendBytes > 0
    requires x == s.sender.queue[0][..s.sender.sendBytes]
    ensures 0 < |x| < LONGEST + 4
  {
    QueueLater(s, k);
    LongestPrefix();
    assert Fits(s.pushed[k]);
  }

  /** Messages delivered so far, and those cut from what is coming, are those cut from all bytes sent. */
  lemma ShiftedMessages(s: Stream, p: seq<bytes>, x: bytes, r: seq<bytes>, coming: bytes)
    requires AllFit(s.delivered) && AllFit(p)
    requires Frames(p) + x == Frames(s.delivered) + (s.buf + s.wire)
    requires coming == s.buf + s.wire + Frames(r)
    ensures s.delivered + Deframe(coming).msgs == p + Deframe(x + Frames(r)).msgs
  {
    hide Deframe;
    hide Frame;
    hide Frames;
    DeframeFrames(s.delivered, coming);
    DeframeFrames(p, x + Frames(r));
    Seqs.Assoc(Frames(s.delivered), s.buf + s.wire, Frames(r));
    Seqs.Assoc(Frames(p), x, Frames(r));
  }

  lemma PrefixBehind(p: seq<bytes>, a: seq<bytes>, b: seq<bytes>)
    ensures p + a <= p + b <==> a <= b
  {
    if p + a <= p + b {
      assert forall i :: 0 <= i < |a| ==> a[i] == (p + a)[|p| + i] == (p + b)[|p| + i] == b[i];
    }
  }

  /** A failed write is harmless exactly when none of the element's bytes had been accepted: then no
      error-free continuation delivers anything but a prefix of what was pushed; otherwise one does. */
  lemma FailExact(s: Stream)
    requires Inv(s) && s.sender.queue != []
    ensures Safe(Apply(s, Fail)) <==> s.sender.sendBytes == 0
  {
    hide Inv;
    hide Runs;
    hide After;
    var s' := Apply(s, Fail);
    FailInvExact(s);
    if s.sender.sendBytes == 0 {
      forall steps | Runs(s', steps) && ErrorFree(steps)
        ensures After(s', steps).delivered <= After(s', steps).pushed
      {
        PushedInRun(s', steps);
        RunKeeps(s', steps);
        InvSafe(After(s', steps));
      }
    } else {
      var steps := FailShows(s);
    }
  }
}
