/** The message and parser objects: the fields they update, and the parser's loop over its tag. */
module TlvParsing {
  import opened Bytes
  import opened Tlv

  class Message {
    var kind: nat
    var length: nat
    var value: bytes

    ghost function Value(): Msg
      reads this
    {
      Msg(kind, length, value)
    }

    constructor ()
      ensures Value() == Msg(0, 0, [])
    {
      kind, length, value := 0, 0, [];
    }

    /** Builds the six header bytes in a buffer of its own, then appends the value. */
    method Dumped() returns (text: bytes)
      ensures text == Dump(Value())
    {
      if |value| < length {
        return [];
      }
      var head := new byte[HEAD];
      var kindBytes, lengthBytes := BigEndian(kind, TYPE_BYTES), BigEndian(length, LENGTH_BYTES);
      forall i | 0 <= i < TYPE_BYTES {
        head[i] := kindBytes[i];
      }
      forall i | 0 <= i < LENGTH_BYTES {
        head[TYPE_BYTES + i] := lengthBytes[i];
      }
      assert head[..] == kindBytes + lengthBytes;
      text := head[..] + value[..length];
    }
  }

  method ParseType(here: bytes, msg: Message) returns (code: RetCode, nparse: nat)
    modifies msg
    ensures |here| < TYPE_BYTES ==> code == WAITING_DATA && msg.Value() == old(msg.Value())
    ensures |here| >= TYPE_BYTES ==>
      code == READY && nparse == TYPE_BYTES
      && msg.Value() == old(msg.Value()).(kind := FromBigEndian(here[..TYPE_BYTES]))
  {
    if |here| < TYPE_BYTES {
      return WAITING_DATA, 0;
    }
    msg.kind := FromBigEndian(here[..TYPE_BYTES]);
    return READY, TYPE_BYTES;
  }

  method ParseLength(here: bytes, msg: Message) returns (code: RetCode, nparse: nat)
    modifies msg
    ensures |here| < LENGTH_BYTES ==> code == WAITING_DATA && msg.Value() == old(msg.Value())
    ensures |here| >= LENGTH_BYTES ==>
      code == READY && nparse == LENGTH_BYTES
      && msg.Value() == old(msg.Value()).(length := FromBigEndian(here[..LENGTH_BYTES]))
  {
    if |here| < LENGTH_BYTES {
      return WAITING_DATA, 0;
    }
    msg.length := FromBigEndian(here[..LENGTH_BYTES]);
    return READY, LENGTH_BYTES;
  }

  method ParseValue(here: bytes, msg: Message) returns (code: RetCode, nparse: nat)
    modifies msg
    ensures |here| < old(msg.length) ==> code == WAITING_DATA && msg.Value() == old(msg.Value())
    ensures |here| >= old(msg.length) ==>
      code == READY && nparse == old(msg.length)
      && msg.Value() == old(msg.Value()).(value := here[..old(msg.length)])
  {
    if |here| < msg.length {
      return WAITING_DATA, 0;
    }
    msg.value := here[..msg.length];
    return READY, msg.length;
  }

  class Parser {
    var tag: Tag
    var already: nat

    ghost function State(msg: Message): PState
      reads this, msg
    {
      PState(tag, already, msg.Value())
    }

    constructor ()
      ensures tag == TYPE && already == 0
    {
      tag, already := TYPE, 0;
    }

    method Reset()
      modifies this
      ensures tag == TYPE && already == 0
    {
      tag, already := TYPE, 0;
    }

    /** `data` is everything received since the last reset, so it never shrinks below `already`. */
    method Parse(data: bytes, msg: Message) returns (code: RetCode)
      requires already <= |data|
      modifies this, msg
      ensures Outcome(code, State(msg)) == Resume(old(State(msg)), data)
    {
      while tag != COMPLETE
        invariant already <= |data|
        invariant Resume(State(msg), data) == Resume(old(State(msg)), data)
        decreases Stage(tag)
      {
        var nparse;
        match tag
        case TYPE =>
          code, nparse := ParseType(data[already..], msg);
          if code != READY {
            return;
          }
          already, tag := already + nparse, LENGTH;
        case LENGTH =>
          code, nparse := ParseLength(data[already..], msg);
          if code != READY {
            return;
          }
          already, tag := already + nparse, VALUE;
        case VALUE =>
          code, nparse := ParseValue(data[already..], msg);
          if code != READY {
            return;
          }
          already, tag := already + nparse, COMPLETE;
      }
      return READY;
    }
  }
}
