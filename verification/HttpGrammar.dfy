/** The messages the HTTP parser accepts, line by line: how lines, chunks and trailers make up a
    message, each single line being judged by the library's line scanners. What the lines are
    made of, without the scanners, is in HttpTokens; HttpSyntax puts the two together. */
module HttpGrammar {
  import Seqs
  import opened Wrappers
  import opened HttpText
  import opened HttpMessage
  import opened HttpParserSpec

  datatype RawChunk = RawChunk(sizeLine: string, data: string)
  datatype RawFraming = RawPlain(data: string) | RawChunked(chunks: seq<RawChunk>, last: string, trailers: seq<string>)
  datatype Wire = Wire(startLine: string, headerLines: seq<string>, framing: RawFraming)

  // ---------------------------------------------------------------- printed form

  function RawChunkText(c: RawChunk): string {
    c.sizeLine + CRLF + c.data + CRLF
  }

  function RawChunksText(cs: seq<RawChunk>): string {
    if cs == [] then "" else RawChunkText(cs[0]) + RawChunksText(cs[1..])
  }

  function TailText(last: string, trailers: seq<string>): string {
    last + CRLF + (Lines(trailers) + CRLF)
  }

  function RawFramingText(f: RawFraming): string {
    match f
    case RawPlain(data) => data
    case RawChunked(chunks, last, trailers) => RawChunksText(chunks) + TailText(last, trailers)
  }

  function HeadersText(lines: seq<string>): string {
    Lines(lines) + CRLF
  }

  function WireText(w: Wire): string {
    w.startLine + CRLF + (HeadersText(w.headerLines) + RawFramingText(w.framing))
  }

  // ---------------------------------------------------------------- meaning

  function RawChunksData(cs: seq<RawChunk>): string {
    if cs == [] then "" else cs[0].data + RawChunksData(cs[1..])
  }

  function RawFramingData(f: RawFraming): string {
    match f
    case RawPlain(data) => data
    case RawChunked(chunks, _, _) => RawChunksData(chunks)
  }

  predicate FieldLine(l: string) {
    l != "" && OneLine(l) && SplitHeader(l).Some?
  }

  predicate FieldLines(ls: seq<string>) {
    forall i :: 0 <= i < |ls| ==> FieldLine(ls[i])
  }

  predicate TrailerLine(l: string) {
    l != "" && OneLine(l)
  }

  predicate TrailerLines(ls: seq<string>) {
    forall i :: 0 <= i < |ls| ==> TrailerLine(ls[i])
  }

  predicate SizeLine(l: string, size: nat) {
    l != "" && OneLine(l) && ChunkSize(l) == Some(size)
  }

  predicate GoodRawChunk(c: RawChunk) {
    c.data != "" && SizeLine(c.sizeLine, |c.data|)
  }

  predicate GoodRawChunks(cs: seq<RawChunk>) {
    forall i :: 0 <= i < |cs| ==> GoodRawChunk(cs[i])
  }

  /** The header map after all lines, the last occurrence of a key winning. */
  function StoreAll(m: Msg, lines: seq<string>): Msg
    requires FieldLines(lines)
    decreases |lines|
  {
    if lines == [] then m else StoreAll(Store(m, lines[0]), lines[1..])
  }

  /** The framing that the headers of `m` call for. */
  predicate Framed(m: Msg, f: RawFraming) {
    && DeclaredLength(m) >= 0
    && match f
       case RawPlain(data) => !DeclaresChunked(m) && |data| == DeclaredLength(m)
       case RawChunked(chunks, last, trailers) =>
         DeclaresChunked(m) && GoodRawChunks(chunks) && SizeLine(last, 0) && TrailerLines(trailers)
  }

  predicate GoodWire(w: Wire, m: Msg) {
    && OneLine(w.startLine)
    && ParseStartLine(w.startLine, m).Some?
    && FieldLines(w.headerLines)
    && Framed(StoreAll(ParseStartLine(w.startLine, m).value, w.headerLines), w.framing)
  }

  function WireMeaning(w: Wire, m: Msg): Msg
    requires GoodWire(w, m)
  {
    StoreAll(ParseStartLine(w.startLine, m).value, w.headerLines).(body := RawFramingData(w.framing))
  }

  predicate HasTrailers(f: RawFraming) {
    f.RawChunked? && f.trailers != []
  }

  // ---------------------------------------------------------------- every printed form is parsed

  lemma {:induction false} HeadersParse(lines: seq<string>, rest: string, m: Msg)
    requires FieldLines(lines)
    ensures ParseHeader(HeadersText(lines) + rest, m) == Part(READY, |HeadersText(lines)|, StoreAll(m, lines))
    decreases |lines|
  {
    var s := HeadersText(lines) + rest;
    if lines == [] {
      FirstCrlf(s, 0);
    } else {
      var l, s' := lines[0], HeadersText(lines[1..]) + rest;
      assert s == l + CRLF + s';
      CrlfEndsLine(l, s');
      assert s[..|l|] == l && s[|l| + 2..] == s';
      HeaderField(s, m, |l|);
      HeadersParse(lines[1..], rest, Store(m, l));
    }
  }

  lemma {:induction false} TrailersParse(ls: seq<string>, rest: string, body: string)
    requires TrailerLines(ls)
    ensures ParseTrailer(HeadersText(ls) + rest, body) == BodyPart(READY, |HeadersText(ls)|, body)
    decreases |ls|
  {
    var s := HeadersText(ls) + rest;
    if ls == [] {
      FirstCrlf(s, 0);
    } else {
      var l, s' := ls[0], HeadersText(ls[1..]) + rest;
      assert s == l + CRLF + s';
      CrlfEndsLine(l, s');
      assert s[|l| + 2..] == s';
      TrailersParse(ls[1..], rest, body);
    }
  }

  lemma TailParses(last: string, trailers: seq<string>, rest: string, body: string)
    requires SizeLine(last, 0) && TrailerLines(trailers) && |TailText(last, trailers)| < MAX_BUFFER
    ensures ParseChunks(TailText(last, trailers) + rest, body)
         == BodyPart(READY, |TailText(last, trailers)|, body)
  {
    var t := HeadersText(trailers) + rest;
    var s := TailText(last, trailers) + rest;
    assert s == last + CRLF + t;
    CrlfEndsLine(last, t);
    assert s[..|last|] == last && s[|last| + 2..] == t;
    TrailersParse(trailers, rest, body);
  }

  lemma ChunkTextParts(c: RawChunk, rest: string, s: string)
    requires s == RawChunkText(c) + rest
    ensures s == c.sizeLine + CRLF + (c.data + CRLF + rest)
    ensures s[..|c.sizeLine|] == c.sizeLine && s[|RawChunkText(c)|..] == rest
    ensures s[|c.sizeLine| + 2..] == c.data + CRLF + rest
  {
    Seqs.Cut(RawChunkText(c), rest);
    Seqs.Cut(c.sizeLine + CRLF, c.data + CRLF + rest);
  }

  lemma ChunkParses(c: RawChunk, rest: string, body: string)
    requires GoodRawChunk(c) && |RawChunkText(c)| < MAX_BUFFER
    ensures ParseChunks(RawChunkText(c) + rest, body) == Shift(ParseChunks(rest, body + c.data), |RawChunkText(c)|)
  {
    hide ParseChunks;
    hide FindCrlf;
    hide ChunkSize;
    hide OneLine;
    var s := RawChunkText(c) + rest;
    ChunkTextParts(c, rest, s);
    CrlfEndsLine(c.sizeLine, c.data + CRLF + rest);
    Seqs.Cut(c.data, CRLF + rest);
    Seqs.Assoc(c.data, CRLF, rest);
    ChunkInFront(s, body, |c.sizeLine|, |c.data|, c.data, |RawChunkText(c)|);
  }

  lemma {:induction false} ChunksParse(cs: seq<RawChunk>, last: string, trailers: seq<string>, rest: string,
                                       body: string)
    requires GoodRawChunks(cs) && SizeLine(last, 0) && TrailerLines(trailers)
    requires |RawFramingText(RawChunked(cs, last, trailers))| < MAX_BUFFER
    ensures ParseChunks(RawFramingText(RawChunked(cs, last, trailers)) + rest, body)
         == BodyPart(READY, |RawFramingText(RawChunked(cs, last, trailers))|, body + RawChunksData(cs))
    decreases |cs|
  {
    var text := RawFramingText(RawChunked(cs, last, trailers));
    if cs == [] {
      TailParses(last, trailers, rest, body);
      assert text == TailText(last, trailers) && body + "" == body;
    } else {
      var text' := RawFramingText(RawChunked(cs[1..], last, trailers));
      assert text == RawChunkText(cs[0]) + text';
      assert text + rest == RawChunkText(cs[0]) + (text' + rest);
      ChunkParses(cs[0], text' + rest, body);
      ChunksParse(cs[1..], last, trailers, rest, body + cs[0].data);
      assert body + cs[0].data + RawChunksData(cs[1..]) == body + RawChunksData(cs);
    }
  }

  lemma PlainParses(data: string, rest: string)
    ensures ParsePlain(data + rest, |data|, "") == BodyPart(READY, |data|, data)
  {
    assert (data + rest)[..|data|] == data && "" + data == data;
  }

  /** The body state that the headers of `m` lead to, `n` bytes into the message. */
  function BodyState(n: nat, m: Msg): (p: PState)
    requires DeclaredLength(m) >= 0
    ensures p.Valid()
  {
    PState(BODY, n, DeclaredLength(m), DeclaresChunked(m), "")
  }

  lemma FramingParses(f: RawFraming, rest: string, m: Msg)
    requires Framed(m, f) && |RawFramingText(f)| < MAX_BUFFER
    ensures ParseBody(RawFramingText(f) + rest, DeclaredLength(m), DeclaresChunked(m), "")
         == BodyPart(READY, |RawFramingText(f)|, RawFramingData(f))
  {
    match f
    case RawPlain(text) => PlainParses(text, rest);
    case RawChunked(chunks, last, trailers) =>
      ChunksParse(chunks, last, trailers, rest, "");
      assert "" + RawChunksData(chunks) == RawChunksData(chunks);
  }

  /** The header state `n` bytes into the message. */
  function HeaderState(n: nat): (p: PState)
    ensures p.Valid()
  {
    PState(HEADER, n, 0, false, "")
  }

  lemma LineParses(s: string, line: string, s1: string, m: Msg, m1: Msg, n: nat)
    requires s == line + CRLF + s1 && n == |line| + 2
    requires OneLine(line) && ParseStartLine(line, m) == Some(m1)
    ensures s[n..] == s1
    ensures Resume(FRESH, s, m) == ResumeHeader(HeaderState(n), s, m1)
  {
    CrlfEndsLine(line, s1);
    assert s[..|line|] == line;
  }

  lemma HeadParses(n: nat, s: string, lines: seq<string>, rest: string, m: Msg, k: nat)
    requires n <= |s| && s[n..] == HeadersText(lines) + rest && FieldLines(lines) && k == n + |HeadersText(lines)|
    requires DeclaredLength(StoreAll(m, lines)) >= 0
    ensures k <= |s| && s[k..] == rest
    ensures ResumeHeader(HeaderState(n), s, m) == ResumeBody(BodyState(k, StoreAll(m, lines)), s, StoreAll(m, lines))
  {
    HeadersParse(lines, rest, m);
    var m' := StoreAll(m, lines);
    assert StartBody(HeaderState(n), |HeadersText(lines)|, m') == BodyState(k, m');
    var text := HeadersText(lines);
    Seqs.DropOfDrop(s, n, |text|, k);
    assert (text + rest)[|text|..] == rest;
  }

  /** The outcome that a well-formed message promises. */
  ghost predicate Accepted(o: Outcome, w: Wire, m: Msg) {
    && GoodWire(w, m)
    && o.code == READY
    && o.p.tag == DONE
    && o.p.already == |WireText(w)|
    && o.msg == WireMeaning(w, m)
  }

  /** The outcome of a message of `n` bytes whose headers leave `m` and whose body is framed by `f`. */
  function Finished(n: nat, m: Msg, f: RawFraming): Outcome
    requires DeclaredLength(m) >= 0
  {
    Outcome(READY, BodyState(n, m).(tag := DONE), m.(body := RawFramingData(f)))
  }

  lemma HeaderAccepts(n: nat, s: string, lines: seq<string>, f: RawFraming, rest: string, m: Msg, k: nat)
    requires n <= |s| && s[n..] == HeadersText(lines) + (RawFramingText(f) + rest) && k == n + |HeadersText(lines)|
    requires FieldLines(lines) && Framed(StoreAll(m, lines), f) && |RawFramingText(f)| < MAX_BUFFER
    ensures ResumeHeader(HeaderState(n), s, m) == Finished(k + |RawFramingText(f)|, StoreAll(m, lines), f)
  {
    HeadParses(n, s, lines, RawFramingText(f) + rest, m, k);
    FramingParses(f, rest, StoreAll(m, lines));
    BodyAccepts(k, s, f, rest, StoreAll(m, lines));
  }

  lemma FinishedAccepted(w: Wire, m: Msg, n: nat)
    requires GoodWire(w, m) && n == |WireText(w)|
    ensures Accepted(Finished(n, StoreAll(ParseStartLine(w.startLine, m).value, w.headerLines), w.framing), w, m)
  {
  }

  lemma WireSplits(w: Wire, rest: string)
    ensures WireText(w) + rest == w.startLine + CRLF + (HeadersText(w.headerLines) + (RawFramingText(w.framing) + rest))
  {
  }

  lemma WireFinishes(s: string, w: Wire, rest: string, m: Msg, m1: Msg)
    requires s == WireText(w) + rest && |WireText(w)| < MAX_BUFFER
    requires OneLine(w.startLine) && ParseStartLine(w.startLine, m) == Some(m1)
    requires FieldLines(w.headerLines) && Framed(StoreAll(m1, w.headerLines), w.framing)
    ensures Resume(FRESH, s, m) == Finished(|WireText(w)|, StoreAll(m1, w.headerLines), w.framing)
  {
    var s1 := HeadersText(w.headerLines) + (RawFramingText(w.framing) + rest);
    var n := |w.startLine| + 2;
    WireSplits(w, rest);
    LineParses(s, w.startLine, s1, m, m1, n);
    HeaderAccepts(n, s, w.headerLines, w.framing, rest, m1, n + |HeadersText(w.headerLines)|);
  }

  /** Completeness: a well-formed message at the front of the data is accepted whatever
      follows, takes exactly its own bytes and yields its meaning. */
  lemma Completeness(w: Wire, rest: string, m: Msg)
    requires GoodWire(w, m) && |WireText(w)| < MAX_BUFFER
    ensures Accepted(Resume(FRESH, WireText(w) + rest, m), w, m)
  {
    WireFinishes(WireText(w) + rest, w, rest, m, ParseStartLine(w.startLine, m).value);
    FinishedAccepted(w, m, |WireText(w)|);
  }

  lemma BodyAccepts(k: nat, s: string, f: RawFraming, rest: string, m: Msg)
    requires k <= |s| && s[k..] == RawFramingText(f) + rest && DeclaredLength(m) >= 0
    requires ParseBody(RawFramingText(f) + rest, DeclaredLength(m), DeclaresChunked(m), "")
          == BodyPart(READY, |RawFramingText(f)|, RawFramingData(f))
    ensures ResumeBody(BodyState(k, m), s, m) == Finished(k + |RawFramingText(f)|, m, f)
  {
  }

  // ---------------------------------------------------------------- everything parsed is a printed form

  /** A line and its line end in front of a text. */
  lemma LineAndRest(s: string, i: nat, k: nat)
    requires CrlfAt(s, i) && i + 2 + k <= |s|
    ensures s[..i + 2 + k] == s[..i] + CRLF + s[i + 2..][..k]
  {
    assert s[i..i + 2] == CRLF;
  }

  lemma OneMoreLine(l: string, ls: seq<string>)
    ensures HeadersText([l] + ls) == l + CRLF + HeadersText(ls)
  {
    assert ([l] + ls)[1..] == ls;
  }

  lemma OneMoreField(m: Msg, l: string, ls: seq<string>)
    requires FieldLine(l) && FieldLines(ls)
    ensures FieldLines([l] + ls) && StoreAll(m, [l] + ls) == StoreAll(Store(m, l), ls)
  {
    hide FieldLine;
    hide SplitHeader;
    assert ([l] + ls)[1..] == ls;
  }

  lemma HeaderFound(s: string, m: Msg)
    requires ParseHeader(s, m).code == READY
    ensures FindCrlf(s).Some?
    ensures FindCrlf(s) == Some(0) ==> ParseHeader(s, m) == Part(READY, 2, m)
    ensures FindCrlf(s) != Some(0) ==> FieldAt(s, FindCrlf(s).value)
  {
    hide FindCrlf;
    hide SplitHeader;
  }

  lemma {:induction false} HeadersParsed(s: string, m: Msg) returns (lines: seq<string>)
    requires ParseHeader(s, m).code == READY
    ensures FieldLines(lines)
    ensures s[..ParseHeader(s, m).nparse] == HeadersText(lines)
    ensures ParseHeader(s, m).msg == StoreAll(m, lines)
    decreases |s|
  {
    hide ParseHeader;
    hide FindCrlf;
    hide SplitHeader;
    hide HeadersText;
    HeaderFound(s, m);
    LineBeforeCrlf(s);
    var i := FindCrlf(s).value;
    if i == 0 {
      lines := [];
      EmptyHeaders(s);
    } else {
      var l, s' := s[..i], s[i + 2..];
      HeaderField(s, m, i);
      var rest := HeadersParsed(s', Store(m, l));
      lines := [l] + rest;
      LineAndRest(s, i, ParseHeader(s', Store(m, l)).nparse);
      OneMoreLine(l, rest);
      OneMoreField(m, l, rest);
    }
  }

  lemma EmptyHeaders(s: string)
    requires CrlfAt(s, 0)
    ensures s[..2] == HeadersText([])
  {
    assert s[..2] == CRLF;
  }

  lemma TrailerFound(s: string, body: string)
    requires ParseTrailer(s, body).code == READY
    ensures FindCrlf(s).Some?
    ensures var i := FindCrlf(s).value;
            ParseTrailer(s, body) == if i == 0 then BodyPart(READY, 2, body)
                                     else Shift(ParseTrailer(s[i + 2..], body), i + 2)
  {
    hide FindCrlf;
  }

  lemma {:induction false} TrailersParsed(s: string, body: string) returns (ls: seq<string>)
    requires ParseTrailer(s, body).code == READY
    ensures TrailerLines(ls)
    ensures s[..ParseTrailer(s, body).nparse] == HeadersText(ls)
    decreases |s|
  {
    hide ParseTrailer;
    hide FindCrlf;
    hide HeadersText;
    TrailerFound(s, body);
    LineBeforeCrlf(s);
    var i := FindCrlf(s).value;
    if i == 0 {
      ls := [];
      EmptyHeaders(s);
    } else {
      var l, s' := s[..i], s[i + 2..];
      var rest := TrailersParsed(s', body);
      ls := [l] + rest;
      LineAndRest(s, i, ParseTrailer(s', body).nparse);
      OneMoreLine(l, rest);
    }
  }

  /** The framing that the chunk loop has read when it accepts. */
  ghost predicate Reads(f: RawFraming, text: string, body: string, b: BodyPart) {
    && f.RawChunked? && GoodRawChunks(f.chunks) && SizeLine(f.last, 0) && TrailerLines(f.trailers)
    && text == RawFramingText(f)
    && b.body == body + RawChunksData(f.chunks)
  }

  lemma TakeJoin(s: string, m: nat, n: nat, k: nat)
    requires k == m + n <= |s|
    ensures s[..k] == s[..m] + s[m..][..n]
  {
  }

  lemma TailParsed(s: string, body: string, n: nat) returns (f: RawFraming)
    requires 2 <= n <= |s| && SizeLine(s[..n - 2], 0) && s == s[..n - 2] + CRLF + s[n..]
    requires ParseTrailer(s[n..], body).code == READY
    ensures Reads(f, s[..n + ParseTrailer(s[n..], body).nparse], body, Shift(ParseTrailer(s[n..], body), n))
  {
    var line := s[..n - 2];
    var trailers := TrailersParsed(s[n..], body);
    f := RawChunked([], line, trailers);
    var k := n + ParseTrailer(s[n..], body).nparse;
    assert s[..k] == line + CRLF + s[n..][..ParseTrailer(s[n..], body).nparse];
    assert RawFramingText(f) == TailText(line, trailers);
    assert body + "" == body;
  }

  lemma ReadsChunk(c: RawChunk, f: RawFraming, s: string, m: nat, body: string, b: BodyPart, whole: BodyPart)
    returns (f': RawFraming)
    requires GoodRawChunk(c) && m + b.nparse <= |s| && s[..m] == RawChunkText(c)
    requires Reads(f, s[m..][..b.nparse], body + c.data, b) && whole == Shift(b, m)
    ensures Reads(f', s[..whole.nparse], body, whole)
  {
    f' := f.(chunks := [c] + f.chunks);
    assert f'.chunks[1..] == f.chunks;
    assert RawFramingText(f') == RawChunkText(c) + RawFramingText(f);
    assert body + c.data + RawChunksData(f.chunks) == body + RawChunksData(f'.chunks);
    TakeJoin(s, m, b.nparse, whole.nparse);
  }

  lemma AcceptedFront(s: string, body: string, i: nat, size: nat)
    requires ParseChunks(s, body).code == READY && |s| < MAX_BUFFER
    requires FindCrlf(s) == Some(i) && ChunkSize(s[..i]) == Some(size) && size > 0
    ensures i > 0 && i + 2 + size + 2 <= |s| && CrlfAt(s[i + 2..], size)
  {
    assert ParseChunks(s, body) == ParseChunkBehind(s, i + 2, size, body);
  }

  lemma ChunkTextInFront(s: string, i: nat, size: nat, c: RawChunk)
    requires CrlfAt(s, i) && i + 2 + size + 2 <= |s| && CrlfAt(s[i + 2..], size)
    requires c == RawChunk(s[..i], s[i + 2..][..size])
    ensures s[..i + 2 + size + 2] == RawChunkText(c)
  {
    var t := s[i + 2..];
    assert s[i..i + 2] == CRLF && t[size..size + 2] == CRLF;
    assert s[..i + 2 + size + 2] == s[..i] + s[i..i + 2] + t[..size] + t[size..size + 2];
  }

  /** The chunk in front of an accepted chunk sequence. */
  lemma ChunkParsed(s: string, body: string) returns (c: RawChunk, m: nat)
    requires ParseChunks(s, body).code == READY && |s| < MAX_BUFFER
    requires ChunkSize(s[..FindCrlf(s).value]) != Some(0)
    ensures GoodRawChunk(c) && m <= |s| && s[..m] == RawChunkText(c)
    ensures ParseChunks(s, body) == Shift(ParseChunks(s[m..], body + c.data), m)
  {
    var i := FindCrlf(s).value;
    LineBeforeCrlf(s);
    var size := ChunkSize(s[..i]).value;
    AcceptedFront(s, body, i, size);
    var data := s[i + 2..][..size];
    c, m := RawChunk(s[..i], data), i + 2 + size + 2;
    ChunkTextInFront(s, i, size, c);
    ChunkInFront(s, body, i, size, data, m);
  }

  lemma {:induction false} ChunksParsed(s: string, body: string) returns (f: RawFraming)
    requires ParseChunks(s, body).code == READY && |s| < MAX_BUFFER
    ensures Reads(f, s[..ParseChunks(s, body).nparse], body, ParseChunks(s, body))
    decreases |s|
  {
    var i := FindCrlf(s).value;
    if ChunkSize(s[..i]) == Some(0) {
      LineBeforeCrlf(s);
      assert ParseChunks(s, body) == ParseChunkBehind(s, i + 2, 0, body);
      f := TailParsed(s, body, i + 2);
    } else {
      var c, m := ChunkParsed(s, body);
      var f' := ChunksParsed(s[m..], body + c.data);
      f := ReadsChunk(c, f', s, m, body, ParseChunks(s[m..], body + c.data), ParseChunks(s, body));
    }
  }

  lemma FramingParsed(k: nat, data: string, m: Msg) returns (f: RawFraming)
    requires k <= |data| < MAX_BUFFER && DeclaredLength(m) >= 0
    requires ResumeBody(BodyState(k, m), data, m).code == READY
    ensures Framed(m, f)
    ensures data[k..ResumeBody(BodyState(k, m), data, m).p.already] == RawFramingText(f)
    ensures ResumeBody(BodyState(k, m), data, m).msg == m.(body := RawFramingData(f))
  {
    hide FieldLines;
    hide ParseChunks;
    hide RawChunksText;
    hide RawChunksData;
    hide TailText;
    var s := data[k..];
    if DeclaresChunked(m) {
      f := ChunksParsed(s, "");
      Seqs.NoneBefore(RawChunksData(f.chunks));
      Seqs.DropOfTake(data, k + ParseChunks(s, "").nparse, k);
    } else {
      f := RawPlain(s[..DeclaredLength(m)]);
      Seqs.NoneBefore(f.data);
      Seqs.DropOfTake(data, k + DeclaredLength(m), k);
    }
  }

  lemma LineParsed(s: string, m: Msg) returns (n: nat)
    requires Resume(FRESH, s, m).code == READY
    ensures 2 <= n <= |s| && s == s[..n - 2] + CRLF + s[n..]
    ensures OneLine(s[..n - 2]) && ParseStartLine(s[..n - 2], m).Some?
    ensures Resume(FRESH, s, m) == ResumeHeader(HeaderState(n), s, ParseStartLine(s[..n - 2], m).value)
  {
    hide OneLine;
    hide FindCrlf;
    hide ParseStartLine;
    hide ResumeHeader;
    LineBeforeCrlf(s);
    n := FindCrlf(s).value + 2;
  }

  lemma HeadParsed(n: nat, s: string, m: Msg) returns (k: nat, lines: seq<string>)
    requires n <= |s| && ResumeHeader(HeaderState(n), s, m).code == READY
    ensures n <= k <= |s| && s[n..k] == HeadersText(lines)
    ensures FieldLines(lines) && DeclaredLength(StoreAll(m, lines)) >= 0
    ensures ResumeHeader(HeaderState(n), s, m) == ResumeBody(BodyState(k, StoreAll(m, lines)), s, StoreAll(m, lines))
  {
    hide ParseHeader;
    hide FieldLines;
    hide StoreAll;
    hide HeadersText;
    hide ResumeBody;
    HeaderEntered(n, s, m);
    var h := ParseHeader(s[n..], m);
    lines := HeadersParsed(s[n..], m);
    k := n + h.nparse;
    TakeDropped(s, n, h.nparse, k);
  }

  lemma HeaderEntered(n: nat, s: string, m: Msg)
    requires n <= |s| && ResumeHeader(HeaderState(n), s, m).code == READY
    ensures var h := ParseHeader(s[n..], m);
            && h.code == READY && DeclaredLength(h.msg) >= 0
            && ResumeHeader(HeaderState(n), s, m) == ResumeBody(BodyState(n + h.nparse, h.msg), s, h.msg)
  {
    hide ParseHeader;
    hide ResumeBody;
    var h := ParseHeader(s[n..], m);
    if h.code == READY && DeclaredLength(h.msg) >= 0 {
      assert StartBody(HeaderState(n), h.nparse, h.msg) == BodyState(n + h.nparse, h.msg);
    }
  }

  lemma TakeDropped(s: string, n: nat, k: nat, m: nat)
    requires m == n + k <= |s|
    ensures s[n..m] == s[n..][..k]
  {
  }

  lemma Parts(s: string, n: nat, k: nat, end: nat)
    requires 2 <= n <= k <= end <= |s| && s == s[..n - 2] + CRLF + s[n..]
    ensures s[..end] == s[..n - 2] + CRLF + (s[n..k] + s[k..end])
  {
  }

  /** Soundness: whatever the parser accepts is a well-formed message with that meaning. */
  lemma Soundness(s: string, m: Msg) returns (w: Wire)
    requires |s| < MAX_BUFFER && Resume(FRESH, s, m).code == READY
    ensures GoodWire(w, m)
    ensures Resume(FRESH, s, m).msg == WireMeaning(w, m)
    ensures s[..Resume(FRESH, s, m).p.already] == WireText(w)
  {
    var n := LineParsed(s, m);
    var m1 := ParseStartLine(s[..n - 2], m).value;
    var k, lines := HeadParsed(n, s, m1);
    var m2 := StoreAll(m1, lines);
    var f := FramingParsed(k, s, m2);
    var end := ResumeBody(BodyState(k, m2), s, m2).p.already;
    w := Wire(s[..n - 2], lines, f);
    Parts(s, n, k, end);
  }
}
