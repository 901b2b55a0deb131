/** Printing and parsing: a request printed by the library's `dump`, and a chunked request
    printed as section 4.1 of RFC 7230 asks, are read back. */
module HttpRoundTrip {
  import Wrappers
  import opened HttpText
  import opened HttpMethods
  import opened HttpMessage
  import opened HttpParserSpec
  import opened HttpGrammar

  // ---------------------------------------------------------------- the printed head

  predicate CleanHeaders(headers: map<string, string>) {
    forall k :: k in headers ==> CleanKey(k) && CleanValue(headers[k])
  }

  /** A request whose start line and headers survive the trip. */
  predicate CleanHead(m: Msg) {
    && m.kind == REQUEST
    && m.state == NO_STATE
    && m.method_ != INVALID
    && ValidUri(m.uri)
    && m.version != HTTP_ERR
    && CleanHeaders(m.headers)
  }

  lemma VersionIsPlain(v: Version)
    ensures var t := VersionToString(v); t != "" && ValidVersion(t) && !Has(t, ' ') && !Has(t, '\r')
  {
    var t := VersionToString(v);
    assert |t| == 8 && t[5] as int == '1' as int && t[6] == '.' && (t[7] == '0' || t[7] == '1');
    assert t[..5] == "HTTP/";
    IndexOfIs(t, '.', 5, 6);
  }

  lemma NoReturnOneLine(s: string)
    requires !Has(s, '\r')
    ensures OneLine(s)
  {
  }

  /** The start line after a parse into an empty request. */
  function LineOf(m: Msg): Msg {
    Cleared(REQUEST).(method_ := m.method_, uri := m.uri, version := m.version)
  }

  lemma LinePrinted(m: Msg)
    requires CleanHead(m)
    ensures OneLine(DumpLine(m))
    ensures ParseStartLine(DumpLine(m), Cleared(REQUEST)) == Wrappers.Some(LineOf(m))
  {
    hide ValidVersion;
    hide SplitLine;
    hide OneLine;
    hide CleanHeaders;
    hide VersionToString;
    hide StringToVersion;
    hide MethodToString;
    hide StringToMethod;
    var name, version := MethodToString(m.method_), VersionToString(m.version);
    NameIsPlain(m.method_);
    MethodRoundTrip(m.method_);
    VersionIsPlain(m.version);
    VersionRoundTrip(m.version);
    SplitLineJoins(name, m.uri, version);
    LineHasNoReturn(m, name, version);
    NoReturnOneLine(DumpLine(m));
  }

  lemma LineHasNoReturn(m: Msg, name: string, version: string)
    requires DumpLine(m) == name + " " + m.uri + " " + version
    requires !Has(name, '\r') && !Has(m.uri, '\r') && !Has(version, '\r')
    ensures !Has(DumpLine(m), '\r')
  {
    hide DumpLine;
    hide MethodToString;
  }

  lemma OneLineJoins(a: string, b: string)
    requires OneLine(a) && OneLine(b) && (a == "" || a[|a| - 1] != '\r')
    ensures OneLine(a + b)
  {
    assert forall j: nat :: CrlfAt(a + b, j) ==>
             (j + 1 < |a| && CrlfAt(a, j)) || (j + 1 == |a| && a[|a| - 1] == '\r') || (|a| <= j && CrlfAt(b, j - |a|));
  }

  lemma FieldPrinted(key: string, value: string)
    requires CleanKey(key) && CleanValue(value)
    ensures FieldLine(HeaderLine(key, value))
    ensures SplitHeader(HeaderLine(key, value)) == Wrappers.Some((key, value))
  {
    SplitHeaderJoins(key, value);
    NoReturnOneLine(": ");
    var k := key + ": ";
    assert forall j: nat :: CrlfAt(k, j) ==> CrlfAt(key, j);
    OneLineJoins(k, value);
    assert HeaderLine(key, value) == k + value;
  }

  /** The part of a header map that `order` lists. */
  function Listed(headers: map<string, string>, order: seq<string>): map<string, string>
    requires forall k :: k in order ==> k in headers
  {
    map k | k in order :: headers[k]
  }

  lemma ListedStep(h0: map<string, string>, headers: map<string, string>, order: seq<string>)
    requires order != [] && forall k :: k in order ==> k in headers
    ensures h0[order[0] := headers[order[0]]] + Listed(headers, order[1..]) == h0 + Listed(headers, order)
  {
    assert forall k :: k in order <==> k == order[0] || k in order[1..];
  }

  lemma HeaderLinesStep(m: Msg, order: seq<string>)
    requires order != [] && forall k :: k in order ==> k in m.headers
    ensures HeaderLines(m, order)[0] == HeaderLine(order[0], m.headers[order[0]])
    ensures HeaderLines(m, order)[1..] == HeaderLines(m, order[1..])
  {
  }

  lemma FieldLinesStep(lines: seq<string>)
    requires lines != [] && FieldLine(lines[0]) && FieldLines(lines[1..])
    ensures FieldLines(lines)
  {
    assert lines == [lines[0]] + lines[1..];
  }

  lemma {:induction false} HeadersPrinted(m: Msg, order: seq<string>, m0: Msg)
    requires CleanHeaders(m.headers) && forall k :: k in order ==> k in m.headers
    ensures FieldLines(HeaderLines(m, order))
    ensures StoreAll(m0, HeaderLines(m, order)) == m0.(headers := m0.headers + Listed(m.headers, order))
    decreases |order|
  {
    var lines := HeaderLines(m, order);
    if order == [] {
      assert m0.headers + Listed(m.headers, order) == m0.headers;
    } else {
      var k := order[0];
      FieldPrinted(k, m.headers[k]);
      HeaderLinesStep(m, order);
      var m1 := m0.(headers := m0.headers[k := m.headers[k]]);
      HeadersPrinted(m, order[1..], m1);
      FieldLinesStep(lines);
      ListedStep(m0.headers, m.headers, order);
    }
  }

  /** A printed clean head, in whatever order the headers come, is read back whole. */
  lemma HeadPrinted(m: Msg, order: seq<string>)
    requires CleanHead(m) && Enumerates(order, m.headers)
    ensures FieldLines(HeaderLines(m, order))
    ensures StoreAll(LineOf(m), HeaderLines(m, order)) == m.(body := "")
  {
    HeadersPrinted(m, order, LineOf(m));
    ListedAll(m.headers, order);
  }

  lemma ListedAll(headers: map<string, string>, order: seq<string>)
    requires Enumerates(order, headers)
    ensures map[] + Listed(headers, order) == headers
  {
  }

  lemma Printed(m: Msg, order: seq<string>, f: RawFraming)
    requires Enumerates(order, m.headers)
    ensures DumpHead(m, order) + RawFramingText(f) == WireText(Wire(DumpLine(m), HeaderLines(m, order), f))
  {
  }

  // ---------------------------------------------------------------- requests with a plain body

  /** A request that the printer can transmit: one that a caller can recognise before the call. */
  predicate Transmittable(m: Msg) {
    CleanHead(m) && !DeclaresChunked(m) && DeclaredLength(m) == |m.body|
  }

  /** The parse of a printed request, followed by any bytes, into an empty request. */
  ghost predicate Restores(m: Msg, order: seq<string>, rest: string)
    requires Enumerates(order, m.headers)
  {
    var o := Resume(FRESH, DumpText(m, order) + rest, Cleared(REQUEST));
    o.code == READY && o.msg == m && o.p.already == |DumpText(m, order)|
  }

  /** A message printed with its length is a well-formed text without trailers. */
  lemma PlainWire(m: Msg, order: seq<string>) returns (w: Wire)
    requires Transmittable(m) && Enumerates(order, m.headers)
    ensures GoodWire(w, Cleared(REQUEST)) && WireMeaning(w, Cleared(REQUEST)) == m && w.framing.RawPlain?
    ensures WireText(w) == DumpText(m, order)
  {
    hide OneLine;
    hide ParseStartLine;
    hide FieldLines;
    hide StoreAll;
    hide DumpLine;
    hide DumpHead;
    hide HeaderLines;
    hide WireText;
    hide CleanHead;
    w := Wire(DumpLine(m), HeaderLines(m, order), RawPlain(m.body));
    LinePrinted(m);
    HeadPrinted(m, order);
    Printed(m, order, w.framing);
  }

  lemma TransmittableRestores(m: Msg, order: seq<string>, rest: string)
    requires Transmittable(m) && Enumerates(order, m.headers) && |DumpText(m, order)| < MAX_BUFFER
    ensures Restores(m, order, rest)
  {
    hide Resume;
    hide DumpText;
    hide WireText;
    hide GoodWire;
    hide Transmittable;
    var w := PlainWire(m, order);
    Completeness(w, rest, Cleared(REQUEST));
  }

  /** Whatever headers the parser stores are clean. */
  lemma {:induction false} StoredClean(m: Msg, lines: seq<string>)
    requires FieldLines(lines) && CleanHeaders(m.headers)
    ensures CleanHeaders(StoreAll(m, lines).headers)
    ensures StoreAll(m, lines) == m.(headers := StoreAll(m, lines).headers)
    decreases |lines|
  {
    if lines != [] {
      SplitHeaderClean(lines[0]);
      StoredClean(Store(m, lines[0]), lines[1..]);
    }
  }

  lemma RestoredClean(m: Msg, s: string)
    requires |s| < MAX_BUFFER
    requires var o := Resume(FRESH, s, Cleared(REQUEST)); o.code == READY && o.msg == m
    ensures CleanHead(m)
  {
    var w := Soundness(s, Cleared(REQUEST));
    StoredClean(ParseStartLine(w.startLine, Cleared(REQUEST)).value, w.headerLines);
  }

  lemma {:induction false} CodingCosts(cs: seq<RawChunk>)
    ensures |RawChunksData(cs)| <= |RawChunksText(cs)|
    decreases |cs|
  {
    if cs != [] {
      CodingCosts(cs[1..]);
    }
  }

  /** Chunk coding always adds bytes. */
  lemma FramingCosts(f: RawFraming)
    requires f.RawChunked?
    ensures |RawFramingData(f)| < |RawFramingText(f)|
  {
    CodingCosts(f.chunks);
  }

  lemma BodyRestored(k: nat, s: string, m: Msg, body: string, rest: string)
    requires k <= |s| < MAX_BUFFER && s[k..] == body + rest && DeclaredLength(m) >= 0
    requires var o := ResumeBody(BodyState(k, m), s, m);
             o.code == READY && o.p.already == k + |body| && o.msg == m.(body := body)
    ensures !DeclaresChunked(m) && DeclaredLength(m) == |body|
  {
    var f := FramingParsed(k, s, m);
    assert RawFramingData(f) == body;
    if f.RawChunked? {
      FramingCosts(f);
    }
  }

  lemma HeadSplits(m: Msg, order: seq<string>, rest: string)
    requires forall k :: k in order ==> k in m.headers
    ensures DumpHead(m, order) + rest == DumpLine(m) + CRLF + (HeadersText(HeaderLines(m, order)) + rest)
    ensures |DumpHead(m, order)| == |DumpLine(m)| + 2 + |HeadersText(HeaderLines(m, order))|
  {
  }

  /** A printed clean head leads the parser to the header lines ... */
  lemma LineConsumed(m: Msg, order: seq<string>, rest: string, s: string, n: nat)
    requires CleanHead(m) && Enumerates(order, m.headers)
    requires s == DumpHead(m, order) + rest && n == |DumpLine(m)| + 2
    ensures n <= |s| && s[n..] == HeadersText(HeaderLines(m, order)) + rest
    ensures Resume(FRESH, s, Cleared(REQUEST)) == ResumeHeader(HeaderState(n), s, LineOf(m))
  {
    LinePrinted(m);
    HeadSplits(m, order, rest);
    LineParses(s, DumpLine(m), HeadersText(HeaderLines(m, order)) + rest, Cleared(REQUEST), LineOf(m), n);
  }

  /** ... and from there to the body, with the message restored so far. */
  lemma HeadersConsumed(m: Msg, order: seq<string>, rest: string, s: string, n: nat, k: nat)
    requires CleanHead(m) && Enumerates(order, m.headers)
    requires n <= |s| && s[n..] == HeadersText(HeaderLines(m, order)) + rest
    requires k == n + |HeadersText(HeaderLines(m, order))|
    requires ResumeHeader(HeaderState(n), s, LineOf(m)).code == READY
    ensures k <= |s| && s[k..] == rest && DeclaredLength(m) >= 0
    ensures ResumeHeader(HeaderState(n), s, LineOf(m)) == ResumeBody(BodyState(k, m.(body := "")), s, m.(body := ""))
  {
    var lines := HeaderLines(m, order);
    HeadPrinted(m, order);
    HeaderLengthKnown(n, s, lines, rest, LineOf(m));
    HeadParses(n, s, lines, rest, LineOf(m), k);
  }

  /** What a restored request says about the outcome of its header and body stages. */
  lemma StagesTransmittable(m: Msg, order: seq<string>, rest: string, s: string, n: nat, k: nat)
    requires CleanHead(m) && Enumerates(order, m.headers) && |s| < MAX_BUFFER
    requires n <= |s| && s[n..] == HeadersText(HeaderLines(m, order)) + (m.body + rest)
    requires k == n + |HeadersText(HeaderLines(m, order))|
    requires var o := ResumeHeader(HeaderState(n), s, LineOf(m));
             o.code == READY && o.msg == m && o.p.already == k + |m.body|
    ensures Transmittable(m)
  {
    HeadersConsumed(m, order, m.body + rest, s, n, k);
    BodyRestored(k, s, m.(body := ""), m.body, rest);
  }

  lemma RestoredStages(m: Msg, order: seq<string>, rest: string, s: string)
    requires CleanHead(m) && Enumerates(order, m.headers) && |s| < MAX_BUFFER
    requires s == DumpHead(m, order) + (m.body + rest)
    requires var o := Resume(FRESH, s, Cleared(REQUEST));
             o.code == READY && o.msg == m && o.p.already == |DumpHead(m, order)| + |m.body|
    ensures Transmittable(m)
  {
    HeadSplits(m, order, m.body + rest);
    var n := |DumpLine(m)| + 2;
    LineConsumed(m, order, m.body + rest, s, n);
    StagesTransmittable(m, order, rest, s, n, |DumpHead(m, order)|);
  }

  lemma RestoresTransmittable(m: Msg, order: seq<string>, rest: string)
    requires Enumerates(order, m.headers) && |DumpText(m, order) + rest| < MAX_BUFFER
    requires Restores(m, order, rest)
    ensures Transmittable(m)
  {
    DumpSplits(m, order, rest);
    RestoredClean(m, DumpText(m, order) + rest);
    RestoredStages(m, order, rest, DumpText(m, order) + rest);
  }

  lemma DumpSplits(m: Msg, order: seq<string>, rest: string)
    requires forall k :: k in order ==> k in m.headers
    ensures DumpText(m, order) + rest == DumpHead(m, order) + (m.body + rest)
    ensures |DumpText(m, order)| == |DumpHead(m, order)| + |m.body|
  {
  }

  /** A negative Content-Length ends in the exception, not in an accepted message. */
  lemma HeaderLengthKnown(n: nat, s: string, lines: seq<string>, rest: string, m: Msg)
    requires n <= |s| && s[n..] == HeadersText(lines) + rest && FieldLines(lines)
    requires ResumeHeader(HeaderState(n), s, m).code == READY
    ensures DeclaredLength(StoreAll(m, lines)) >= 0
  {
    HeadersParse(lines, rest, m);
  }

  /** The round trip, exactly: parsing a printed request, whatever bytes follow and in whatever
      order its headers were enumerated, restores the request and consumes precisely its text
      if and only if the request is transmittable. */
  lemma RequestRoundTrip(m: Msg, order: seq<string>, rest: string)
    requires Enumerates(order, m.headers) && |DumpText(m, order) + rest| < MAX_BUFFER
    ensures Restores(m, order, rest) <==> Transmittable(m)
  {
    if Transmittable(m) {
      TransmittableRestores(m, order, rest);
    }
    if Restores(m, order, rest) {
      RestoresTransmittable(m, order, rest);
    }
  }

  /** A Content-Length printed from the body's length is always right. */
  lemma PrintedLengthDeclares(m: Msg)
    requires "Content-Length" in m.headers && m.headers["Content-Length"] == Decimal(|m.body|) && |m.body| < 0x8000_0000
    ensures DeclaredLength(m) == |m.body|
  {
    AtoiReadsDecimal(|m.body|);
  }

  // ---------------------------------------------------------------- requests with a chunked body

  /** A chunk as a sender prints it: its bytes, the case of its hexadecimal size, an extension. */
  datatype Piece = Piece(data: string, upper: bool, ext: string)

  predicate GoodPiece(p: Piece) {
    p.data != "" && |p.data| < SIZE_T && Extension(p.ext)
  }

  function PieceText(p: Piece): string {
    Hex(|p.data|, p.upper) + p.ext + CRLF + p.data + CRLF
  }

  function PiecesText(ps: seq<Piece>): string {
    if ps == [] then "" else PieceText(ps[0]) + PiecesText(ps[1..])
  }

  function PiecesData(ps: seq<Piece>): string {
    if ps == [] then "" else ps[0].data + PiecesData(ps[1..])
  }

  /** The whole body: the pieces, the zero chunk with its own extension, and a trailer section. */
  function ChunkedText(ps: seq<Piece>, ext: string, trailers: seq<string>): string {
    PiecesText(ps) + ("0" + ext + CRLF + (Lines(trailers) + CRLF))
  }

  function ChunkOf(p: Piece): RawChunk {
    RawChunk(Hex(|p.data|, p.upper) + p.ext, p.data)
  }

  lemma {:induction false} PiecesAreChunks(ps: seq<Piece>) returns (cs: seq<RawChunk>)
    requires forall i :: 0 <= i < |ps| ==> GoodPiece(ps[i])
    ensures GoodRawChunks(cs) && RawChunksText(cs) == PiecesText(ps) && RawChunksData(cs) == PiecesData(ps)
    decreases |ps|
  {
    if ps == [] {
      cs := [];
    } else {
      var p := ps[0];
      var rest := PiecesAreChunks(ps[1..]);
      ChunkSizeReadsHex(|p.data|, p.upper, p.ext);
      cs := [ChunkOf(p)] + rest;
      assert cs[1..] == rest;
    }
  }

  lemma ZeroLine(ext: string)
    requires Extension(ext)
    ensures SizeLine("0" + ext, 0)
  {
    ChunkSizeReadsHex(0, true, ext);
    assert Hex(0, true) == "0";
  }

  /** The printed chunked request, as a message of the grammar. */
  lemma ChunkedWire(m: Msg, order: seq<string>, ps: seq<Piece>, ext: string, trailers: seq<string>) returns (w: Wire)
    requires CleanHead(m) && Enumerates(order, m.headers) && DeclaresChunked(m) && DeclaredLength(m) >= 0
    requires forall i :: 0 <= i < |ps| ==> GoodPiece(ps[i])
    requires Extension(ext) && TrailerLines(trailers)
    ensures GoodWire(w, Cleared(REQUEST)) && WireMeaning(w, Cleared(REQUEST)) == m.(body := PiecesData(ps))
    ensures WireText(w) == DumpHead(m, order) + ChunkedText(ps, ext, trailers)
    ensures HasTrailers(w.framing) == (trailers != [])
  {
    var cs := PiecesAreChunks(ps);
    ZeroLine(ext);
    var f := RawChunked(cs, "0" + ext, trailers);
    assert RawFramingText(f) == ChunkedText(ps, ext, trailers);
    LinePrinted(m);
    HeadPrinted(m, order);
    Printed(m, order, f);
    w := Wire(DumpLine(m), HeaderLines(m, order), f);
  }

  /** The chunked round trip: the pieces come back joined, the offset stands exactly behind the
      terminator, a trailer section that is wholly there is skipped exactly. */
  lemma ChunkedRoundTrip(m: Msg, order: seq<string>, ps: seq<Piece>, ext: string, trailers: seq<string>, rest: string)
    requires CleanHead(m) && Enumerates(order, m.headers) && DeclaresChunked(m) && DeclaredLength(m) >= 0
    requires forall i :: 0 <= i < |ps| ==> GoodPiece(ps[i])
    requires Extension(ext) && TrailerLines(trailers)
    requires |DumpHead(m, order) + ChunkedText(ps, ext, trailers)| < MAX_BUFFER
    ensures var text := DumpHead(m, order) + ChunkedText(ps, ext, trailers);
            var o := Resume(FRESH, text + rest, Cleared(REQUEST));
            && o.code == READY
            && o.msg == m.(body := PiecesData(ps))
            && o.p.already == |text|
  {
    var w := ChunkedWire(m, order, ps, ext, trailers);
    Completeness(w, rest, Cleared(REQUEST));
  }
}
