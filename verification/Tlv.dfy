/** Type-length-value messages: their printer, the resumable parser as a function of its state, and
    what a receiver that parses, drops the parsed bytes and starts over makes of a byte stream. */
module Tlv {
  import opened Bytes
  import Seqs

  const TYPE_BYTES: nat := 2
  const LENGTH_BYTES: nat := 4
  const HEAD: nat := 6

  /** A two-byte type, a four-byte length, and a value that need not have that length. */
  datatype Msg = Msg(kind: nat, length: nat, value: bytes)

  predicate Typed(m: Msg) {
    m.kind < Pow256(TYPE_BYTES) && m.length < Pow256(LENGTH_BYTES)
  }

  /** Nothing at all for a value shorter than the declared length; a longer one is cut. */
  function Dump(m: Msg): bytes {
    if |m.value| < m.length then []
    else BigEndian(m.kind, TYPE_BYTES) + BigEndian(m.length, LENGTH_BYTES) + m.value[..m.length]
  }

  datatype RetCode = READY | WAITING_DATA

  datatype Tag = TYPE | LENGTH | VALUE | COMPLETE

  /** The parser's fields, and the message it is filling. */
  datatype PState = PState(tag: Tag, already: nat, msg: Msg)

  datatype Outcome = Outcome(code: RetCode, state: PState)

  function Fresh(m: Msg): PState {
    PState(TYPE, 0, m)
  }

  /** States that calls and resets lead to. */
  predicate Valid(s: PState) {
    match s.tag
    case TYPE => s.already == 0
    case LENGTH => s.already == TYPE_BYTES
    case VALUE => s.already == HEAD
    case COMPLETE => s.already >= HEAD
  }

  function Stage(t: Tag): nat {
    match t
    case TYPE => 3
    case LENGTH => 2
    case VALUE => 1
    case COMPLETE => 0
  }

  /** One call on everything received so far since the last reset. */
  function Resume(s: PState, data: bytes): (o: Outcome)
    requires s.already <= |data|
    ensures s.already <= o.state.already <= |data|
    ensures o.code == READY <==> o.state.tag == COMPLETE
    ensures Valid(s) ==> Valid(o.state)
    decreases Stage(s.tag)
  {
    var here := data[s.already..];
    match s.tag
    case TYPE =>
      if |here| < TYPE_BYTES then Outcome(WAITING_DATA, s)
      else
        var kind := FromBigEndian(here[..TYPE_BYTES]);
        Resume(PState(LENGTH, s.already + TYPE_BYTES, s.msg.(kind := kind)), data)
    case LENGTH =>
      if |here| < LENGTH_BYTES then Outcome(WAITING_DATA, s)
      else
        var length := FromBigEndian(here[..LENGTH_BYTES]);
        Resume(PState(VALUE, s.already + LENGTH_BYTES, s.msg.(length := length)), data)
    case VALUE =>
      if |here| < s.msg.length then Outcome(WAITING_DATA, s)
      else
        var value := here[..s.msg.length];
        Resume(PState(COMPLETE, s.already + s.msg.length, s.msg.(value := value)), data)
    case COMPLETE => Outcome(READY, s)
  }

  // ---------------------------------------------------------------- one message

  /** The bytes begin with a whole message. */
  predicate Whole(b: bytes) {
    |b| >= HEAD && |b| >= HEAD + FromBigEndian(b[TYPE_BYTES..HEAD])
  }

  function First(b: bytes): (m: Msg)
    requires Whole(b)
    ensures HEAD + |m.value| <= |b| && m.length == |m.value|
  {
    var length := FromBigEndian(b[TYPE_BYTES..HEAD]);
    Msg(FromBigEndian(b[..TYPE_BYTES]), length, b[HEAD..HEAD + length])
  }

  /** A first call is ready exactly on a whole message, which it reads and measures; whatever the
      caller's message held before does not matter. */
  lemma FreshCall(was: Msg, b: bytes)
    ensures Resume(Fresh(was), b).code == READY <==> Whole(b)
    ensures Whole(b) ==> Resume(Fresh(was), b).state == PState(COMPLETE, HEAD + First(b).length, First(b))
  {
    assert b[0..] == b;
    if |b| >= HEAD {
      assert b[TYPE_BYTES..][..LENGTH_BYTES] == b[TYPE_BYTES..HEAD];
      var kind, length := FromBigEndian(b[..TYPE_BYTES]), FromBigEndian(b[TYPE_BYTES..HEAD]);
      var typed := was.(kind := kind);
      assert Resume(Fresh(was), b) == Resume(PState(LENGTH, TYPE_BYTES, typed), b);
      assert Resume(Fresh(was), b) == Resume(PState(VALUE, HEAD, typed.(length := length)), b);
      if |b| >= HEAD + length {
        assert b[HEAD..][..length] == b[HEAD..HEAD + length];
      }
    }
  }

  /** A call on part of the data and then one on all of it end as one call on all of it does. */
  lemma {:induction false} CallContinues(s: PState, a: bytes, b: bytes)
    requires s.already <= |a|
    ensures Resume(Resume(s, a).state, a + b) == Resume(s, a + b)
    decreases Stage(s.tag)
  {
    var here := a[s.already..];
    assert (a + b)[s.already..] == here + b;
    match s.tag
    case TYPE =>
      if |here| >= TYPE_BYTES {
        assert (here + b)[..TYPE_BYTES] == here[..TYPE_BYTES];
        var kind := FromBigEndian(here[..TYPE_BYTES]);
        CallContinues(PState(LENGTH, s.already + TYPE_BYTES, s.msg.(kind := kind)), a, b);
      }
    case LENGTH =>
      if |here| >= LENGTH_BYTES {
        assert (here + b)[..LENGTH_BYTES] == here[..LENGTH_BYTES];
        var length := FromBigEndian(here[..LENGTH_BYTES]);
        CallContinues(PState(VALUE, s.already + LENGTH_BYTES, s.msg.(length := length)), a, b);
      }
    case VALUE =>
      if |here| >= s.msg.length {
        assert (here + b)[..s.msg.length] == here[..s.msg.length];
      }
    case COMPLETE =>
  }

  /** What parsing gives back of a printed message: the value cut to the declared length. */
  function Cut(m: Msg): Msg
    requires |m.value| >= m.length
  {
    m.(value := m.value[..m.length])
  }

  lemma DumpIsWhole(m: Msg, rest: bytes)
    requires Typed(m) && |m.value| >= m.length
    ensures Whole(Dump(m) + rest) && First(Dump(m) + rest) == Cut(m)
    ensures (Dump(m) + rest)[HEAD + m.length..] == rest
  {
    var b := Dump(m) + rest;
    assert b[..TYPE_BYTES] == BigEndian(m.kind, TYPE_BYTES);
    assert b[TYPE_BYTES..HEAD] == BigEndian(m.length, LENGTH_BYTES);
    BigEndianRoundTrip(m.kind, TYPE_BYTES);
    BigEndianRoundTrip(m.length, LENGTH_BYTES);
    assert b[HEAD..HEAD + m.length] == m.value[..m.length];
  }

  /** The bytes of a printed message, one by one: two of type, four of length, then the value. */
  lemma DumpLayout(m: Msg)
    requires m.kind < 0x1_0000 && m.length < 0x1_0000_0000 && |m.value| >= m.length
    ensures Typed(m)
    ensures var b := Dump(m);
            && |b| == 6 + m.length && b[6..] == m.value[..m.length]
            && b[0] == m.kind / 0x100 && b[1] == m.kind % 0x100
            && b[2] == m.length / 0x100_0000 && b[3] == m.length / 0x1_0000 % 0x100
            && b[4] == m.length / 0x100 % 0x100 && b[5] == m.length % 0x100
  {
    hide BigEndian;
    hide Pow256;
    Pow256Values();
    BigEndianAt(m.kind, 2, 0);
    BigEndianAt(m.kind, 2, 1);
    BigEndianAt(m.length, 4, 0);
    BigEndianAt(m.length, 4, 1);
    BigEndianAt(m.length, 4, 2);
    BigEndianAt(m.length, 4, 3);
  }

  function Spelled(a: nat, b: nat, c: nat, d: nat): nat {
    a * 0x100_0000 + b * 0x1_0000 + c * 0x100 + d
  }

  /** The number that four bytes spell in network order. */
  lemma FourBytes(b: bytes)
    requires |b| == 4
    ensures FromBigEndian(b) == Spelled(b[0], b[1], b[2], b[3])
  {
    hide FromBigEndian;
    TwoBytes(b[..2]);
    Seqs.TakeOfTake(b, 3, 2);
    LastByte(b[..3]);
    LastByte(b);
  }

  lemma LastByte(b: bytes)
    requires b != []
    ensures FromBigEndian(b) == 256 * FromBigEndian(b[..|b| - 1]) + b[|b| - 1]
  {
  }

  lemma TwoBytes(b: bytes)
    requires |b| == 2
    ensures FromBigEndian(b) == Spelled(0, 0, b[0], b[1])
  {
    assert b[..1] == [b[0]] && [b[0]][..0] == [];
    assert FromBigEndian([b[0]]) == b[0];
  }

  /** What a first call makes of its bytes, in plain numbers: how far it comes, and what it has set. */
  lemma ParseLayout(was: Msg, b: bytes)
    ensures var o := Resume(Fresh(was), b);
            if |b| < 2 then o == Outcome(WAITING_DATA, PState(TYPE, 0, was))
            else
              var kind := Spelled(0, 0, b[0], b[1]);
              if |b| < 6 then o == Outcome(WAITING_DATA, PState(LENGTH, 2, Msg(kind, was.length, was.value)))
              else
                var length := Spelled(b[2], b[3], b[4], b[5]);
                if |b| < 6 + length then o == Outcome(WAITING_DATA, PState(VALUE, 6, Msg(kind, length, was.value)))
                else o == Outcome(READY, PState(COMPLETE, 6 + length, Msg(kind, length, b[6..6 + length])))
  {
    hide FromBigEndian;
    Seqs.AllOf(b);
    if |b| >= 2 {
      TwoBytes(b[..2]);
      TypeRead(was, b);
    }
    if |b| >= 6 {
      Seqs.DropThenTake(b, 2, 4);
      FourBytes(b[2..6]);
      LengthRead(was.(kind := FromBigEndian(b[..2])), b);
    }
  }

  lemma TypeRead(was: Msg, b: bytes)
    requires |b| >= 2
    ensures Resume(Fresh(was), b) == Resume(PState(LENGTH, 2, was.(kind := FromBigEndian(b[..2]))), b)
  {
    Seqs.AllOf(b);
  }

  lemma LengthRead(was: Msg, b: bytes)
    requires |b| >= 6
    ensures Resume(PState(LENGTH, 2, was), b) == Resume(PState(VALUE, 6, was.(length := FromBigEndian(b[2..6]))), b)
  {
    Seqs.DropThenTake(b, 2, 4);
  }

  /** Printing and parsing restores a message, and its length, exactly when its value has the declared
      length: a longer one is cut, a shorter one prints nothing. */
  lemma DumpRoundTrip(was: Msg, m: Msg, rest: bytes)
    requires Typed(m)
    ensures var o := Resume(Fresh(was), Dump(m) + rest);
            && (o == Outcome(READY, PState(COMPLETE, |Dump(m)|, m)) <==> |m.value| == m.length)
            && (|m.value| >= m.length ==> o == Outcome(READY, PState(COMPLETE, |Dump(m)|, Cut(m))))
  {
    hide Resume;
    if |m.value| < m.length {
      Seqs.NoneBefore(rest);
      FreshCall(was, rest);
    } else {
      DumpIsWhole(m, rest);
      FreshCall(was, Dump(m) + rest);
      assert |m.value| == m.length ==> m.value[..m.length] == m.value;
    }
  }

  // ---------------------------------------------------------------- a stream

  /** Messages handed on, the parser's state, and the bytes still buffered. */
  datatype Drained = Drained(msgs: seq<Msg>, state: PState, rest: bytes)

  /** The receiver's loop: parse, hand the message on, drop what was parsed, reset. */
  function Drain(s: PState, buf: bytes): (d: Drained)
    requires Valid(s) && s.already <= |buf|
    ensures Valid(d.state) && d.state.already <= |d.rest| && |d.rest| <= |buf|
    decreases |buf|
  {
    var o := Resume(s, buf);
    if o.code == WAITING_DATA then Drained([], o.state, buf)
    else
      var d := Drain(Fresh(o.state.msg), buf[o.state.already..]);
      Drained([o.state.msg] + d.msgs, d.state, d.rest)
  }

  /** The same with the bytes arriving in pieces, the loop running after each. */
  function Feed(s: PState, buf: bytes, pieces: seq<bytes>): (d: Drained)
    requires Valid(s) && s.already <= |buf|
    decreases |pieces|
  {
    if pieces == [] then Drained([], s, buf)
    else
      var d := Drain(s, buf + pieces[0]);
      var f := Feed(d.state, d.rest, pieces[1..]);
      Drained(d.msgs + f.msgs, f.state, f.rest)
  }

  lemma {:induction false} DrainSplit(s: PState, a: bytes, b: bytes)
    requires Valid(s) && s.already <= |a|
    ensures var d := Drain(s, a);
            var e := Drain(d.state, d.rest + b);
            Drain(s, a + b) == Drained(d.msgs + e.msgs, e.state, e.rest)
    decreases |a|
  {
    var o := Resume(s, a);
    CallContinues(s, a, b);
    if o.code == READY {
      var k := o.state.already;
      assert (a + b)[k..] == a[k..] + b;
      DrainSplit(Fresh(o.state.msg), a[k..], b);
      var d := Drain(Fresh(o.state.msg), a[k..]);
      Seqs.Assoc([o.state.msg], d.msgs, Drain(d.state, d.rest + b).msgs);
    }
  }

  /** Nothing more comes out of what a receiver has been left with. */
  predicate Settled(s: PState, buf: bytes)
    requires Valid(s) && s.already <= |buf|
  {
    Resume(s, buf) == Outcome(WAITING_DATA, s)
  }

  lemma {:induction false} DrainSettles(s: PState, buf: bytes)
    requires Valid(s) && s.already <= |buf|
    ensures Settled(Drain(s, buf).state, Drain(s, buf).rest)
    decreases |buf|
  {
    var o := Resume(s, buf);
    if o.code == WAITING_DATA {
      CallContinues(s, buf, []);
      assert buf + [] == buf;
    } else {
      DrainSettles(Fresh(o.state.msg), buf[o.state.already..]);
    }
  }

  /** However the bytes are cut into pieces, the messages, the state and the bytes left are those of
      one run of the loop on all of them. */
  lemma {:induction false} SegmentationIndependence(s: PState, buf: bytes, pieces: seq<bytes>)
    requires Valid(s) && s.already <= |buf| && Settled(s, buf)
    ensures Feed(s, buf, pieces) == Drain(s, buf + Concat(pieces))
    decreases |pieces|
  {
    if pieces == [] {
      Seqs.NoMore(buf);
    } else {
      var p, more := pieces[0], Concat(pieces[1..]);
      var d := Drain(s, buf + p);
      DrainSettles(s, buf + p);
      SegmentationIndependence(d.state, d.rest, pieces[1..]);
      DrainSplit(s, buf + p, more);
      Seqs.Assoc(buf, p, more);
    }
  }

  // ---------------------------------------------------------------- the stream's meaning

  function Dumps(ms: seq<Msg>): bytes {
    if ms == [] then [] else Dump(ms[0]) + Dumps(ms[1..])
  }

  /** What can be received of a list of messages: those with enough value, cut. */
  function Received(ms: seq<Msg>): seq<Msg> {
    if ms == [] then []
    else (if |ms[0].value| < ms[0].length then [] else [Cut(ms[0])]) + Received(ms[1..])
  }

  lemma {:induction false} DrainDumps(was: Msg, ms: seq<Msg>, tail: bytes)
    requires (forall m :: m in ms ==> Typed(m)) && !Whole(tail)
    ensures Drain(Fresh(was), Dumps(ms) + tail).msgs == Received(ms)
    ensures Drain(Fresh(was), Dumps(ms) + tail).rest == tail
    decreases |ms|
  {
    if ms == [] {
      assert Dumps(ms) + tail == tail;
      FreshCall(was, tail);
    } else {
      var m, more := ms[0], Dumps(ms[1..]) + tail;
      assert Dumps(ms) + tail == Dump(m) + more;
      if |m.value| < m.length {
        assert Dump(m) + more == more;
        DrainDumps(was, ms[1..], tail);
      } else {
        DumpIsWhole(m, more);
        FreshCall(was, Dump(m) + more);
        DrainDumps(Cut(m), ms[1..], tail);
      }
    }
  }

  /** Any messages, printed one after the other with an unfinished one behind them, arrive in order
      and cut to their lengths however the bytes are split, and leave exactly the unfinished one. */
  lemma StreamRoundTrip(was: Msg, ms: seq<Msg>, tail: bytes, pieces: seq<bytes>)
    requires (forall m :: m in ms ==> Typed(m)) && !Whole(tail)
    requires Concat(pieces) == Dumps(ms) + tail
    ensures Feed(Fresh(was), [], pieces).msgs == Received(ms)
    ensures Feed(Fresh(was), [], pieces).rest == tail
  {
    SegmentationIndependence(Fresh(was), [], pieces);
    assert [] + Concat(pieces) == Concat(pieces);
    DrainDumps(was, ms, tail);
  }

  lemma FirstDumps(b: bytes)
    requires Whole(b)
    ensures Typed(First(b)) && Dump(First(b)) == b[..HEAD + First(b).length]
  {
    var m := First(b);
    FromBigEndianInverse(b[..TYPE_BYTES]);
    FromBigEndianInverse(b[TYPE_BYTES..HEAD]);
    assert m.value[..m.length] == m.value;
    assert b[..HEAD + m.length] == b[..TYPE_BYTES] + b[TYPE_BYTES..HEAD] + b[HEAD..HEAD + m.length];
  }

  lemma Rejoin(b: bytes, k: nat)
    requires k <= |b|
    ensures b[..k] + b[k..] == b
  {
  }

  lemma {:induction false} DumpsCons(m: Msg, ms: seq<Msg>, rest: bytes)
    ensures Dumps([m] + ms) + rest == Dump(m) + (Dumps(ms) + rest)
  {
    assert ([m] + ms)[1..] == ms;
  }

  /** The other way round, for any bytes at all: printing what came out, and adding what is left,
      gives the bytes back. No byte is lost, invented or moved. */
  lemma {:induction false} DrainConserves(was: Msg, buf: bytes)
    ensures Dumps(Drain(Fresh(was), buf).msgs) + Drain(Fresh(was), buf).rest == buf
    ensures !Whole(Drain(Fresh(was), buf).rest)
    decreases |buf|
  {
    FreshCall(was, buf);
    if Whole(buf) {
      var m := First(buf);
      var k := HEAD + m.length;
      FirstDumps(buf);
      DrainConserves(m, buf[k..]);
      var d := Drain(Fresh(m), buf[k..]);
      assert Drain(Fresh(was), buf) == Drained([m] + d.msgs, d.state, d.rest);
      DumpsCons(m, d.msgs, d.rest);
      Rejoin(buf, k);
    }
  }
}
