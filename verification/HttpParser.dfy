/** The incremental HTTP parser as the library runs it: an object with an offset, a body
    accumulator and a framing mode, and nested loops over header lines and chunks. */
module HttpParser {
  import opened Wrappers
  import opened HttpText
  import opened HttpMethods
  import opened HttpMessage
  import opened HttpParserSpec

  method ParseStartLineInto(line: string, msg: Message) returns (ok: bool)
    modifies msg
    ensures ok == ParseStartLine(line, old(msg.Value())).Some?
    ensures ok ==> msg.Value() == ParseStartLine(line, old(msg.Value())).value
    ensures !ok ==> msg.Value() == old(msg.Value())
  {
    var split, field1, field2, field3 := LineSplit(line);
    if !split {
      return false;
    }
    if msg.kind == REQUEST {
      if !ValidUri(field2) || !ValidVersion(field3) {
        return false;
      }
      var m := StringToMethod(field1);
      if m == INVALID {
        return false;
      }
      msg.method_ := m;
      msg.uri := field2;
      msg.version := StringToVersion(field3);
      return true;
    }
    if msg.kind == RESPONSE {
      if !ValidVersion(field1) {
        return false;
      }
      var state := Atoi(field2);
      if !KnownState(state) {
        return false;
      }
      msg.version := StringToVersion(field1);
      msg.state := state;
      return true;
    }
    return false;
  }

  method ParseLineInto(s: string, msg: Message) returns (code: RetCode, nparse: nat)
    modifies msg
    ensures Part(code, nparse, msg.Value()) == ParseLine(s, old(msg.Value()))
  {
    nparse := 0;
    var crlf := Crlf(s);
    if crlf.None? {
      return WAITING_DATA, nparse;
    }
    var ok := ParseStartLineInto(s[..crlf.value], msg);
    code := if ok then READY else ERROR;
    if code == READY {
      nparse := crlf.value + 2;
    }
  }

  /** `n` bytes of header lines are consumed, the message is `m`, and what remains leads to `whole`. */
  ghost predicate HeaderAt(s: string, n: nat, m: Msg, whole: Part) {
    n <= |s| && Behind(ParseHeader(s[n..], m), n) == whole
  }

  lemma HeaderBegins(s: string, m: Msg)
    ensures HeaderAt(s, 0, m, ParseHeader(s, m))
  {
    assert s[0..] == s;
  }

  /** One accepted header line, as the loop below consumes it. */
  lemma HeaderStep(s: string, n: nat, m: Msg, whole: Part, i: nat, key: string, value: string, m': Msg)
    requires HeaderAt(s, n, m, whole)
    requires n <= |s| && FindCrlf(s[n..]) == Some(i) && i > 0
    requires SplitHeader(s[n..][..i]) == Some((key, value)) && m' == Store(m, s[n..][..i])
    ensures HeaderAt(s, n + i + 2, m', whole)
  {
    assert s[n..][i + 2..] == s[n + i + 2..];
  }

  /** Where the loop below stops. */
  lemma HeaderStops(s: string, n: nat, m: Msg, whole: Part)
    requires HeaderAt(s, n, m, whole) && n <= |s|
    ensures FindCrlf(s[n..]) == None ==> whole == Part(WAITING_DATA, n, m)
    ensures FindCrlf(s[n..]) == Some(0) ==> whole == Part(READY, n + 2, m)
    ensures var r := FindCrlf(s[n..]);
            r.Some? && r.value > 0 && SplitHeader(s[n..][..r.value]).None? ==> whole == Part(ERROR, n, m)
  {
  }

  method ParseHeaderInto(s: string, msg: Message) returns (code: RetCode, nparse: nat)
    modifies msg
    ensures Part(code, nparse, msg.Value()) == ParseHeader(s, old(msg.Value()))
  {
    hide ParseHeader;
    hide HeaderAt;
    hide FindCrlf;
    hide SplitHeader;
    nparse := 0;
    ghost var whole := ParseHeader(s, msg.Value());
    HeaderBegins(s, msg.Value());
    while true
      invariant nparse <= |s| && HeaderAt(s, nparse, msg.Value(), whole)
      decreases |s| - nparse
    {
      ghost var m := msg.Value();
      HeaderStops(s, nparse, m, whole);
      var crlf := Crlf(s[nparse..]);
      if crlf.None? {
        return WAITING_DATA, nparse;
      }
      if crlf.value == 0 {
        nparse := nparse + 2;
        return READY, nparse;
      }
      var ok, key, value := HeaderSplit(s[nparse..][..crlf.value]);
      if !ok {
        return ERROR, nparse;
      }
      msg.SetHeader(key, value);
      HeaderStep(s, nparse, m, whole, crlf.value, key, value, msg.Value());
      nparse := nparse + crlf.value + 2;
    }
  }

  /** `n` bytes of chunks are consumed into `body`, and what remains leads to `whole`. */
  ghost predicate ChunksAt(s: string, n: nat, body: string, whole: BodyPart) {
    n <= |s| && Shift(ParseChunks(s[n..], body), n) == whole
  }

  /** The size line at the front of `s`, and whether its chunk can be taken now. */
  method ReadSizeLine(s: string) returns (stop: bool, code: RetCode, lineLen: nat, size: nat)
    requires s != ""
    ensures stop ==> code in {WAITING_DATA, ERROR} && forall b :: ParseChunks(s, b) == BodyPart(code, 0, b)
    ensures !stop ==> lineLen + 2 <= |s| && Wrap(lineLen + 2 + size + 2) <= |s|
    ensures !stop ==> forall b :: ParseChunks(s, b) == ParseChunkBehind(s, lineLen + 2, size, b)
  {
    stop, code, lineLen, size := true, WAITING_DATA, 0, 0;
    var crlf := Crlf(s);
    if crlf.None? {
      return;
    }
    lineLen := crlf.value;
    if lineLen == 0 {
      code := ERROR;
      return;
    }
    var number := ReadChunkSize(s[..lineLen]);
    if number.None? {
      code := ERROR;
      return;
    }
    size := number.value;
    stop := Wrap(lineLen + 2 + size + 2) > |s|;
  }

  lemma ChunkStep(s: string, n: nat, body: string, whole: BodyPart, ptr: nat, size: nat, n': nat, body': string)
    requires ChunksAt(s, n, body, whole)
    requires n < ptr && 0 < size && size + 2 < SIZE_T && n' == ptr + size + 2 <= |s|
    requires ParseChunks(s[n..], body) == ParseChunkBehind(s[n..], ptr - n, size, body)
    requires CrlfAt(s[ptr..], size) && body' == body + s[ptr..][..size]
    ensures ChunksAt(s, n', body', whole)
  {
    assert s[n..][ptr - n..] == s[ptr..];
    assert s[ptr..][size + 2..] == s[n'..];
  }

  /** The parser stands at `p` with the message `m`, and continuing on `data` leads to `whole`. */
  ghost predicate ParseAt(p: PState, data: string, m: Msg, whole: Outcome) {
    p.Valid() && p.already <= |data| && Resume(p, data, m) == whole
  }

  lemma LineStep(p: PState, data: string, m: Msg, whole: Outcome, p': PState, m': Msg)
    requires ParseAt(p, data, m, whole) && p.tag == LINE && ParseLine(data, m).code == READY
    requires p' == p.(tag := HEADER, already := ParseLine(data, m).nparse) && m' == ParseLine(data, m).msg
    ensures ParseAt(p', data, m', whole)
  {
  }

  lemma HeadersStep(p: PState, data: string, m: Msg, whole: Outcome, p': PState, m': Msg)
    requires ParseAt(p, data, m, whole) && p.tag == HEADER
    requires var h := ParseHeader(data[p.already..], m);
             h.code == READY && p' == StartBody(p, h.nparse, h.msg) && m' == h.msg
    ensures if DeclaredLength(m') < 0 then whole == Outcome(LENGTH_ERROR, p', m')
            else ParseAt(p', data, m', whole)
  {
    hide ParseHeader;
    hide ResumeBody;
  }

  lemma HeadersStop(p: PState, data: string, m: Msg, whole: Outcome)
    requires ParseAt(p, data, m, whole) && p.tag == HEADER
    ensures var h := ParseHeader(data[p.already..], m);
            (h.code == WAITING_DATA ==> whole == Outcome(WAITING_DATA, p.(already := p.already + h.nparse), h.msg))
            && (h.code in {ERROR, LENGTH_ERROR} ==> whole == Outcome(h.code, p, h.msg))
  {
    hide ParseHeader;
    hide ResumeBody;
  }

  lemma BodyStep(p: PState, data: string, m: Msg, whole: Outcome, p': PState, m': Msg)
    requires ParseAt(p, data, m, whole) && p.tag == BODY
    requires var b := ParseBody(data[p.already..], p.contentLength, p.chunked, p.bodyBuf);
             && b.code == READY && m' == m.(body := b.body)
             && p' == p.(tag := DONE, already := p.already + b.nparse, bodyBuf := "")
    ensures ParseAt(p', data, m', whole)
  {
  }

  class Parser {
    var tag: Tag
    var already: nat
    var contentLength: nat
    var chunked: bool
    var bodyBuf: string

    function State(): PState
      reads this
    {
      PState(tag, already, contentLength, chunked, bodyBuf)
    }

    constructor ()
      ensures State() == FRESH
      ensures tag == LINE && already == 0 && contentLength == 0 && !chunked && bodyBuf == ""
    {
      tag, already, contentLength, chunked, bodyBuf := LINE, 0, 0, false, "";
    }

    method Reset()
      modifies this
      ensures State() == FRESH
      ensures tag == LINE && already == 0 && contentLength == 0 && !chunked && bodyBuf == ""
    {
      tag, already, contentLength, chunked, bodyBuf := LINE, 0, 0, false, "";
    }

    /** The loop over trailer lines, entered behind the zero chunk. */
    method SkipTrailer(s: string, start: nat) returns (code: RetCode, nparse: nat)
      requires start <= |s|
      ensures var b := ParseTrailer(s[start..], bodyBuf);
              code == b.code && nparse == start + b.nparse
    {
      nparse := start;
      while |s| - nparse >= 2
        invariant start <= nparse <= |s|
        invariant var b, b0 := ParseTrailer(s[nparse..], bodyBuf), ParseTrailer(s[start..], bodyBuf);
                  b.code == b0.code && nparse + b.nparse == start + b0.nparse
        decreases |s| - nparse
      {
        var rest := s[nparse..];
        var crlf := Crlf(rest);
        if crlf.None? {
          return WAITING_DATA, nparse;
        }
        if crlf.value == 0 {
          nparse := nparse + 2;
          return READY, nparse;
        }
        var _, _, _ := HeaderSplit(rest[..crlf.value]);
        assert rest[crlf.value + 2..] == s[nparse + crlf.value + 2..];
        nparse := nparse + crlf.value + 2;
      }
      code := WAITING_DATA;
    }

    /** One chunk behind its size line, with the checks in front of and behind its data. */
    method TakeChunk(s: string, size: nat) returns (code: RetCode)
      requires 0 < size
      modifies this`bodyBuf
      ensures code == READY <==> |s| >= Wrap(size + 2) && size + 2 < SIZE_T && CrlfAt(s, size)
      ensures code == READY ==> bodyBuf == old(bodyBuf) + s[..size]
      ensures code != READY ==> forall t: string, n: nat :: 0 < n <= |t| && t[n..] == s ==>
                var b := ParseChunkBehind(t, n, size, old(bodyBuf));
                b.code == code && b.body == bodyBuf && (code == WAITING_DATA ==> b.nparse == n)
    {
      if |s| < Wrap(size + 2) {
        return WAITING_DATA;
      }
      if size + 2 >= SIZE_T {
        return LENGTH_ERROR;
      }
      bodyBuf := bodyBuf + s[..size];
      if s[size] != '\r' || s[size + 1] != '\n' {
        return ERROR;
      }
      code := READY;
    }

    /** One turn of the chunk loop: the chunk at offset `n`, or the reason to stop there. */
    method NextChunk(s: string, n: nat, ghost whole: BodyPart) returns (more: bool, code: RetCode, nparse: nat)
      requires n < |s| && ChunksAt(s, n, bodyBuf, whole)
      modifies this`bodyBuf
      ensures more ==> n < nparse && ChunksAt(s, nparse, bodyBuf, whole)
      ensures !more ==> code == whole.code && bodyBuf == whole.body
      ensures !more && code in {READY, WAITING_DATA} ==> nparse == whole.nparse
    {
      hide ParseChunks;
      hide ParseTrailer;
      ghost var body := bodyBuf;
      var stop, c, lineLen, size := ReadSizeLine(s[n..]);
      if stop {
        return false, c, n;
      }
      var ptr := n + lineLen + 2;
      assert s[n..][lineLen + 2..] == s[ptr..];
      if size == 0 {
        code, nparse := SkipTrailer(s, ptr);
        return false, code, nparse;
      }
      code := TakeChunk(s[ptr..], size);
      if code != READY {
        return false, code, ptr;
      }
      nparse := ptr + size + 2;
      ChunkStep(s, n, body, whole, ptr, size, nparse, bodyBuf);
      more := true;
    }

    method ReadChunks(s: string) returns (code: RetCode, nparse: nat)
      modifies this`bodyBuf
      ensures var b := ParseChunks(s, old(bodyBuf));
              code == b.code && bodyBuf == b.body && (code in {READY, WAITING_DATA} ==> nparse == b.nparse)
    {
      nparse := 0;
      ghost var whole := ParseChunks(s, bodyBuf);
      assert s[0..] == s;
      while nparse < |s|
        invariant ChunksAt(s, nparse, bodyBuf, whole)
        decreases |s| - nparse
      {
        var more;
        more, code, nparse := NextChunk(s, nparse, whole);
        if !more {
          return;
        }
      }
      code := WAITING_DATA;
    }

    method ReadBody(s: string, msg: Message) returns (code: RetCode, nparse: nat)
      requires !chunked ==> |bodyBuf| <= contentLength
      modifies this`bodyBuf, msg
      ensures var b := ParseBody(s, contentLength, chunked, old(bodyBuf));
              && code == b.code
              && (code in {READY, WAITING_DATA} ==> nparse == b.nparse)
              && bodyBuf == (if code == READY then "" else b.body)
              && msg.Value() == (if code == READY then old(msg.Value()).(body := b.body) else old(msg.Value()))
    {
      nparse := 0;
      if !chunked {
        if contentLength == 0 {
          msg.SetBody(bodyBuf);
          bodyBuf := "";
          return READY, nparse;
        }
        var need := contentLength - |bodyBuf|;
        var readLen := Min(need, |s|);
        if readLen > 0 {
          bodyBuf := bodyBuf + s[..readLen];
          nparse := readLen;
        }
        if |bodyBuf| >= contentLength {
          msg.SetBody(bodyBuf);
          bodyBuf := "";
          return READY, nparse;
        }
        return WAITING_DATA, nparse;
      }
      code, nparse := ReadChunks(s);
      if code == READY {
        msg.SetBody(bodyBuf);
        bodyBuf := "";
      }
    }

    method LineTurn(data: string, msg: Message, ghost whole: Outcome) returns (code: RetCode)
      requires ParseAt(State(), data, msg.Value(), whole) && tag == LINE
      modifies this, msg
      ensures if code == READY then ParseAt(State(), data, msg.Value(), whole) && tag == HEADER
              else whole == Outcome(code, State(), msg.Value())
    {
      ghost var p, m := State(), msg.Value();
      var nparse;
      code, nparse := ParseLineInto(data, msg);
      if code == READY {
        already := already + nparse;
        tag := HEADER;
        LineStep(p, data, m, whole, State(), msg.Value());
      }
    }

    method HeaderTurn(data: string, msg: Message, ghost whole: Outcome) returns (code: RetCode)
      requires ParseAt(State(), data, msg.Value(), whole) && tag == HEADER
      modifies this, msg
      ensures if code == READY then ParseAt(State(), data, msg.Value(), whole) && tag == BODY
              else whole == Outcome(code, State(), msg.Value())
    {
      hide Resume;
      hide ParseHeader;
      ghost var p, m := State(), msg.Value();
      HeadersStop(p, data, m, whole);
      var nparse;
      code, nparse := ParseHeaderInto(data[already..], msg);
      if code == READY {
        already := already + nparse;
        tag := BODY;
        contentLength := SizeOf(Atoi(GetHeader(msg.Value(), "Content-Length", "0")));
        if GetHeader(msg.Value(), "Transfer-Encoding", "No Transfer-Encoding") == "chunked" {
          chunked := true;
        }
        HeadersStep(p, data, m, whole, State(), msg.Value());
        if contentLength >= SIZE_T / 2 {
          code := LENGTH_ERROR;
        }
      } else if code == WAITING_DATA {
        already := already + nparse;
      }
    }

    method BodyTurn(data: string, msg: Message, ghost whole: Outcome) returns (code: RetCode)
      requires ParseAt(State(), data, msg.Value(), whole) && tag == BODY
      modifies this, msg
      ensures if code == READY then ParseAt(State(), data, msg.Value(), whole) && tag == DONE
              else whole == Outcome(code, State(), msg.Value())
    {
      ghost var p, m := State(), msg.Value();
      var nparse;
      code, nparse := ReadBody(data[already..], msg);
      if code == READY {
        already := already + nparse;
        tag := DONE;
        BodyStep(p, data, m, whole, State(), msg.Value());
      } else if code == WAITING_DATA {
        already := already + nparse;
      }
    }

    /** One call. The caller passes all bytes received so far, from the first byte of the message. */
    method Parse(data: string, msg: Message) returns (code: RetCode)
      requires State().Valid() && already <= |data|
      modifies this, msg
      ensures var o := Resume(old(State()), data, old(msg.Value()));
              code == o.code && State() == o.p && msg.Value() == o.msg
      ensures State().Valid() && old(already) <= already <= |data|
    {
      ghost var whole := Resume(State(), data, msg.Value());
      while tag != DONE
        invariant ParseAt(State(), data, msg.Value(), whole)
        decreases match tag case LINE => 3 case HEADER => 2 case BODY => 1 case DONE => 0
      {
        match tag {
          case LINE => code := LineTurn(data, msg, whole);
          case HEADER => code := HeaderTurn(data, msg, whole);
          case BODY => code := BodyTurn(data, msg, whole);
        }
        if code != READY {
          return;
        }
      }
      code := READY;
    }
  }
}
