/** HTTP messages as a grammar: a printed form and its meaning, defined without the parser (section 3
    and section 4.1 of RFC 7230, with the library's own liberties). The parser accepts exactly the byte
    strings that start with such a form, takes exactly its bytes, and delivers exactly its meaning. */
module HttpSyntax {
  import Seqs
  import G = HttpGrammar
  import opened HttpText
  import opened HttpMessage
  import opened HttpParserSpec
  import opened HttpTokens

  datatype Chunk = Chunk(size: Size, data: string)
  datatype Framing = Plain(data: string) | Chunked(chunks: seq<Chunk>, last: Size, trailers: seq<string>)
  datatype Message = Message(start: Start, fields: seq<Field>, framing: Framing)

  // ---------------------------------------------------------------- printed form

  function ChunkText(c: Chunk): string {
    SizeText(c.size) + CRLF + c.data + CRLF
  }

  function ChunksText(cs: seq<Chunk>): string {
    if cs == [] then "" else ChunkText(cs[0]) + ChunksText(cs[1..])
  }

  function FramingText(f: Framing): string {
    match f
    case Plain(data) => data
    case Chunked(chunks, last, trailers) => ChunksText(chunks) + (SizeText(last) + CRLF + (Lines(trailers) + CRLF))
  }

  function FieldsText(fs: seq<Field>): string {
    if fs == [] then "" else FieldText(fs[0]) + CRLF + FieldsText(fs[1..])
  }

  function Text(w: Message): string {
    StartText(w.start) + CRLF + (FieldsText(w.fields) + CRLF + FramingText(w.framing))
  }

  // ---------------------------------------------------------------- well-formedness and meaning

  function ChunksData(cs: seq<Chunk>): string {
    if cs == [] then "" else cs[0].data + ChunksData(cs[1..])
  }

  function Content(f: Framing): string {
    match f
    case Plain(data) => data
    case Chunked(chunks, _, _) => ChunksData(chunks)
  }

  predicate GoodSize(z: Size, n: nat) {
    Sizes(z, n) && SizeText(z) != "" && OneLine(SizeText(z))
  }

  predicate GoodChunks(cs: seq<Chunk>) {
    forall i :: 0 <= i < |cs| ==> cs[i].data != "" && GoodSize(cs[i].size, |cs[i].data|)
  }

  predicate GoodFields(fs: seq<Field>) {
    forall i :: 0 <= i < |fs| ==> GoodField(fs[i])
  }

  predicate GoodTrailers(ls: seq<string>) {
    forall i :: 0 <= i < |ls| ==> ls[i] != "" && OneLine(ls[i])
  }

  /** The header map behind all fields: of several with one key, the last. */
  function Stored(m: Msg, fs: seq<Field>): Msg
    decreases |fs|
  {
    if fs == [] then m else Stored(m.(headers := m.headers[fs[0].key := fs[0].value]), fs[1..])
  }

  ghost predicate SaysLength(m: Msg, n: int) {
    if "Content-Length" in m.headers then Declares(m.headers["Content-Length"], n) else n == 0
  }

  predicate SaysChunked(m: Msg) {
    "Transfer-Encoding" in m.headers && m.headers["Transfer-Encoding"] == "chunked"
  }

  /** The framing that the headers call for: a length of at least 0, without which nothing is
      accepted, and "chunked" as the transfer coding or a body of that length. */
  ghost predicate CallsFor(m: Msg, f: Framing) {
    exists n :: 0 <= n && SaysLength(m, n) && FramedBy(m, f, n)
  }

  predicate FramedBy(m: Msg, f: Framing, n: int) {
    match f
    case Plain(data) =>
      !SaysChunked(m) && |data| == n
    case Chunked(chunks, last, trailers) =>
      && SaysChunked(m)
      && GoodChunks(chunks) && GoodSize(last, 0) && GoodTrailers(trailers)
  }

  ghost predicate WellFormed(w: Message, m: Msg) {
    && GoodStart(w.start, m.kind)
    && GoodFields(w.fields)
    && CallsFor(Stored(Started(w.start, m), w.fields), w.framing)
  }

  function Meaning(w: Message, m: Msg): Msg {
    Stored(Started(w.start, m), w.fields).(body := Content(w.framing))
  }

  predicate Trailed(w: Message) {
    w.framing.Chunked? && w.framing.trailers != []
  }

  // ---------------------------------------------------------------- the same, line by line

  function FieldTexts(fs: seq<Field>): (ls: seq<string>)
    ensures |ls| == |fs|
    ensures forall i :: 0 <= i < |fs| ==> ls[i] == FieldText(fs[i])
  {
    seq(|fs|, i requires 0 <= i < |fs| => FieldText(fs[i]))
  }

  function ChunkLines(cs: seq<Chunk>): (ds: seq<G.RawChunk>)
    ensures |ds| == |cs|
    ensures forall i :: 0 <= i < |cs| ==> ds[i] == G.RawChunk(SizeText(cs[i].size), cs[i].data)
  {
    seq(|cs|, i requires 0 <= i < |cs| => G.RawChunk(SizeText(cs[i].size), cs[i].data))
  }

  function FramingLines(f: Framing): G.RawFraming {
    match f
    case Plain(data) => G.RawPlain(data)
    case Chunked(chunks, last, trailers) => G.RawChunked(ChunkLines(chunks), SizeText(last), trailers)
  }

  function WireOf(w: Message): G.Wire {
    G.Wire(StartText(w.start), FieldTexts(w.fields), FramingLines(w.framing))
  }

  lemma {:induction false} FieldTextsJoin(fs: seq<Field>)
    ensures Lines(FieldTexts(fs)) == FieldsText(fs)
    decreases |fs|
  {
    hide FieldText;
    if fs != [] {
      assert FieldTexts(fs)[1..] == FieldTexts(fs[1..]);
      FieldTextsJoin(fs[1..]);
    }
  }

  lemma {:induction false} ChunkLinesText(cs: seq<Chunk>)
    ensures G.RawChunksText(ChunkLines(cs)) == ChunksText(cs) && G.RawChunksData(ChunkLines(cs)) == ChunksData(cs)
    decreases |cs|
  {
    hide SizeText;
    if cs != [] {
      assert ChunkLines(cs)[1..] == ChunkLines(cs[1..]);
      ChunkLinesText(cs[1..]);
    }
  }

  lemma FramingLinesText(f: Framing)
    ensures G.RawFramingText(FramingLines(f)) == FramingText(f) && G.RawFramingData(FramingLines(f)) == Content(f)
  {
    match f
    case Plain(_) =>
    case Chunked(chunks, _, _) => ChunkLinesText(chunks);
  }

  lemma WireOfText(w: Message)
    ensures G.WireText(WireOf(w)) == Text(w)
  {
    hide StartText;
    hide FramingText;
    FieldTextsJoin(w.fields);
    FramingLinesText(w.framing);
  }

  // ---------------------------------------------------------------- its parts agree

  lemma StoreField(m: Msg, f: Field)
    requires GoodField(f)
    ensures SplitHeader(FieldText(f)).Some?
    ensures Store(m, FieldText(f)) == m.(headers := m.headers[f.key := f.value])
  {
    hide GoodField;
    hide FieldText;
    hide SplitHeader;
    FieldRead(f);
  }

  lemma {:induction false} StoredAll(m: Msg, fs: seq<Field>)
    requires GoodFields(fs)
    ensures G.FieldLines(FieldTexts(fs)) && G.StoreAll(m, FieldTexts(fs)) == Stored(m, fs)
    decreases |fs|
  {
    FieldTextsGood(fs);
    if fs != [] {
      hide GoodField;
      hide FieldText;
      hide SplitHeader;
      hide Store;
      StoreField(m, fs[0]);
      assert FieldTexts(fs)[1..] == FieldTexts(fs[1..]);
      StoredAll(m.(headers := m.headers[fs[0].key := fs[0].value]), fs[1..]);
    }
  }

  lemma FieldTextsGood(fs: seq<Field>)
    requires GoodFields(fs)
    ensures G.FieldLines(FieldTexts(fs))
  {
    hide SplitHeader;
    hide OneLine;
    forall i | 0 <= i < |fs| ensures G.FieldLine(FieldText(fs[i])) {
      FieldRead(fs[i]);
    }
  }

  lemma SizesAlike(z: Size, n: nat)
    requires Sizes(z, n)
    ensures G.SizeLine(SizeText(z), n) <==> GoodSize(z, n)
  {
    SizeRead(z, n);
  }

  lemma ChunksAlike(cs: seq<Chunk>)
    requires GoodChunks(cs)
    ensures G.GoodRawChunks(ChunkLines(cs))
  {
    hide SizeText;
    hide ChunkSize;
    hide OneLine;
    hide Sizes;
    forall i | 0 <= i < |cs| ensures G.GoodRawChunk(ChunkLines(cs)[i]) {
      SizesAlike(cs[i].size, |cs[i].data|);
    }
  }

  lemma ChunkedAlike(m: Msg)
    ensures DeclaresChunked(m) <==> SaysChunked(m)
  {
  }

  lemma LengthAlike(m: Msg, n: int)
    ensures SaysLength(m, n) <==> DeclaredLength(m) == n
  {
    if "Content-Length" in m.headers {
      DeclaresAtoi(m.headers["Content-Length"], n);
    } else {
      hide Atoi;
      AtoiReadsDecimal(0);
      assert Decimal(0) == "0";
    }
  }

  lemma FramingFits(m: Msg, f: Framing)
    requires CallsFor(m, f)
    ensures G.Framed(m, FramingLines(f))
  {
    hide Declares;
    hide SizeText;
    hide ChunkSize;
    hide OneLine;
    var n :| 0 <= n && SaysLength(m, n) && FramedBy(m, f, n);
    LengthAlike(m, n);
    ChunkedAlike(m);
    match f
    case Plain(_) =>
    case Chunked(chunks, last, _) =>
      ChunksAlike(chunks);
      SizesAlike(last, 0);
  }

  lemma WireOfWellFormed(w: Message, m: Msg)
    requires WellFormed(w, m)
    ensures G.GoodWire(WireOf(w), m) && G.WireMeaning(WireOf(w), m) == Meaning(w, m)
  {
    hide GoodStart;
    hide ParseStartLine;
    hide CallsFor;
    hide G.Framed;
    hide G.StoreAll;
    StartOneLine(w.start, m.kind);
    StartRead(w.start, m);
    StoredAll(Started(w.start, m), w.fields);
    FramingFits(Stored(Started(w.start, m), w.fields), w.framing);
    FramingLinesText(w.framing);
  }

  lemma StartOneLine(st: Start, kind: Kind)
    requires GoodStart(st, kind)
    ensures OneLine(StartText(st))
  {
  }

  // ---------------------------------------------------------------- every line is such a line

  lemma {:induction false} FieldsFound(ls: seq<string>) returns (fs: seq<Field>)
    requires G.FieldLines(ls)
    ensures GoodFields(fs) && FieldTexts(fs) == ls
    decreases |ls|
  {
    hide GoodField;
    hide FieldText;
    hide SplitHeader;
    hide OneLine;
    if ls == [] {
      fs := [];
    } else {
      var rest := FieldsFound(ls[1..]);
      var f := FieldSplits(ls[0], SplitHeader(ls[0]).value.0, SplitHeader(ls[0]).value.1);
      fs := [f] + rest;
      assert FieldTexts(fs) == [ls[0]] + ls[1..];
    }
  }

  lemma SizeFound(l: string, n: nat) returns (z: Size)
    requires G.SizeLine(l, n)
    ensures GoodSize(z, n) && SizeText(z) == l
  {
    z := SizeSplits(l, n);
  }

  lemma {:induction false} ChunksFound(ds: seq<G.RawChunk>) returns (cs: seq<Chunk>)
    requires G.GoodRawChunks(ds)
    ensures GoodChunks(cs) && ChunkLines(cs) == ds
    decreases |ds|
  {
    hide GoodSize;
    hide SizeText;
    hide G.SizeLine;
    if ds == [] {
      cs := [];
    } else {
      var rest := ChunksFound(ds[1..]);
      var z := SizeFound(ds[0].sizeLine, |ds[0].data|);
      cs := [Chunk(z, ds[0].data)] + rest;
      assert ChunkLines(cs) == [ds[0]] + ds[1..];
    }
  }

  lemma FramingFound(m: Msg, g: G.RawFraming) returns (f: Framing)
    requires G.Framed(m, g)
    ensures CallsFor(m, f) && FramingLines(f) == g
  {
    hide GoodSize;
    hide SizeText;
    hide G.SizeLine;
    hide Declares;
    LengthAlike(m, DeclaredLength(m));
    ChunkedAlike(m);
    match g {
      case RawPlain(data) => f := Plain(data);
      case RawChunked(ds, l, trailers) =>
        var cs := ChunksFound(ds);
        var last := SizeFound(l, 0);
        f := Chunked(cs, last, trailers);
        TrailersAlike(trailers);
    }
    assert FramedBy(m, f, DeclaredLength(m));
  }

  lemma TrailersAlike(ls: seq<string>)
    ensures G.TrailerLines(ls) <==> GoodTrailers(ls)
  {
  }

  lemma MessageFound(g: G.Wire, m: Msg) returns (w: Message)
    requires G.GoodWire(g, m)
    ensures WellFormed(w, m) && WireOf(w) == g
  {
    hide GoodStart;
    hide ParseStartLine;
    hide CallsFor;
    hide G.Framed;
    hide G.StoreAll;
    hide FieldTexts;
    var st := StartSplits(g.startLine, m);
    var fs := FieldsFound(g.headerLines);
    StoredAll(Started(st, m), fs);
    var f := FramingFound(Stored(Started(st, m), fs), g.framing);
    w := Message(st, fs, f);
  }

  // ---------------------------------------------------------------- the parser accepts these messages

  /** A call accepts `n` bytes as `result`. */
  predicate AcceptsAs(o: Outcome, n: nat, result: Msg) {
    o.code == READY && o.p.already == n && o.msg == result
  }

  lemma Complete(w: Message, m: Msg, rest: string)
    requires WellFormed(w, m) && |Text(w)| < MAX_BUFFER
    ensures AcceptsAs(Resume(FRESH, Text(w) + rest, m), |Text(w)|, Meaning(w, m))
  {
    hide WellFormed;
    hide Meaning;
    hide Text;
    hide G.GoodWire;
    hide G.WireMeaning;
    hide G.WireText;
    hide Resume;
    WireOfText(w);
    WireOfWellFormed(w, m);
    G.Completeness(WireOf(w), rest, m);
  }

  lemma Sound(s: string, m: Msg) returns (w: Message)
    requires |s| < MAX_BUFFER && Resume(FRESH, s, m).code == READY
    ensures WellFormed(w, m) && AcceptsAs(Resume(FRESH, s, m), |Text(w)|, Meaning(w, m))
    ensures |Text(w)| <= |s| && s[..|Text(w)|] == Text(w)
  {
    hide WellFormed;
    hide Meaning;
    hide Text;
    hide G.GoodWire;
    hide G.WireMeaning;
    hide G.WireText;
    hide Resume;
    var g := G.Soundness(s, m);
    w := MessageFound(g, m);
    WireOfText(w);
    WireOfWellFormed(w, m);
  }

  /** Both directions and every result: a call on `s` accepts `n` bytes of it as the message `result` if
      and only if these bytes are the text of a well-formed message that means `result`. */
  lemma AcceptsExactly(s: string, m: Msg, n: nat, result: Msg)
    requires |s| < MAX_BUFFER && n <= |s|
    ensures AcceptsAs(Resume(FRESH, s, m), n, result)
       <==> exists w :: WellFormed(w, m) && Text(w) == s[..n] && Meaning(w, m) == result
  {
    hide WellFormed;
    hide Meaning;
    hide Text;
    hide Resume;
    if AcceptsAs(Resume(FRESH, s, m), n, result) {
      var w := Sound(s, m);
      assert WellFormed(w, m) && Text(w) == s[..n] && Meaning(w, m) == result;
    }
    forall w | WellFormed(w, m) && Text(w) == s[..n] && Meaning(w, m) == result
      ensures AcceptsAs(Resume(FRESH, s, m), n, result)
    {
      Complete(w, m, s[n..]);
      assert s == s[..n] + s[n..];
    }
  }
}
