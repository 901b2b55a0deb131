/** Messages delivered over a connection: what is printed at one end and arrives cut up in any way
    at the other, the parser being called again on each longer prefix. */
module HttpDelivery {
  import Seqs
  import S = HttpSyntax
  import opened Wrappers
  import opened HttpText
  import opened HttpMessage
  import opened HttpParserSpec
  import opened HttpFront
  import opened HttpSegmentation
  import opened HttpGrammar
  import opened HttpRoundTrip

  /** Every way of cutting the data gives the result of one call on all of it. */
  ghost predicate CutsDoNotMatter(s: string, m: Msg) {
    forall cuts :: Cuts(FRESH, s, cuts) ==> Agree(Feed(FRESH, s, cuts, m), Resume(FRESH, s, m))
  }

  // ---------------------------------------------------------------- steady bytes in printed messages

  lemma FirstLine(line: string, rest: string, s: string, n: nat)
    requires OneLine(line) && s == line + CRLF + rest && n == |line| + 2
    ensures FindCrlf(s) == Some(|line|) && s[..|line|] == line && s[n..] == rest
  {
    CrlfEndsLine(line, rest);
  }

  /** Trailer lines that are followed by the empty line always make a difference. */
  lemma {:induction false} LinesNeverSteady(ls: seq<string>, rest: string, t: string)
    requires TrailerLines(ls) && ls != [] && t == HeadersText(ls) + rest
    ensures FindCrlf(t) == Some(|ls[0]|) && !LinesSteady(t)
    decreases |ls|
  {
    hide FrontOf;
    hide FindCrlf;
    var n, t' := |ls[0]| + 2, HeadersText(ls[1..]) + rest;
    LinesInFront(ls, rest, t, t');
    FirstLine(ls[0], t', t, n);
    FrontLine(t);
    if ls[1..] == [] {
      EmptyLine(rest, t');
      FrontLine(t');
    } else {
      LinesNeverSteady(ls[1..], rest, t');
    }
  }

  lemma LinesInFront(ls: seq<string>, rest: string, t: string, t': string)
    requires ls != [] && t == HeadersText(ls) + rest && t' == HeadersText(ls[1..]) + rest
    ensures t == ls[0] + CRLF + t'
  {
  }

  lemma EmptyLine(rest: string, t: string)
    requires t == HeadersText([]) + rest
    ensures FindCrlf(t) == Some(0)
  {
    assert HeadersText([]) == CRLF;
    FirstCrlf(t, 0);
  }

  lemma TailSteady(last: string, trailers: seq<string>, rest: string, s: string)
    requires SizeLine(last, 0) && TrailerLines(trailers) && s == TailText(last, trailers) + rest && |s| < MAX_BUFFER
    ensures ChunksSteady(s) <==> trailers == []
  {
    hide FindCrlf;
    hide ChunkSize;
    hide LinesSteady;
    var n, t := |last| + 2, HeadersText(trailers) + rest;
    assert s == last + CRLF + t;
    FirstLine(last, t, s, n);
    assert FrontOf(s) == Zero(n);
    if trailers == [] {
      EmptyLine(rest, t);
    } else {
      LinesNeverSteady(trailers, rest, t);
    }
  }

  lemma ChunkFront(c: RawChunk, more: string, s: string)
    requires GoodRawChunk(c) && s == RawChunkText(c) + more && |s| < MAX_BUFFER
    ensures FrontOf(s) == Whole(|c.sizeLine| + 2, |c.data|) && s[|c.sizeLine| + 2 + |c.data| + 2..] == more
  {
    hide FindCrlf;
    hide ChunkSize;
    var n, size := |c.sizeLine| + 2, |c.data|;
    var t := c.data + CRLF + more;
    assert s == c.sizeLine + CRLF + t;
    FirstLine(c.sizeLine, t, s, n);
    assert CrlfAt(t, size);
    Seqs.DropOfDrop(s, n, size + 2, n + size + 2);
    assert t[size + 2..] == more;
  }

  lemma ChunkInFrontOfText(cs: seq<RawChunk>, last: string, trailers: seq<string>, rest: string)
    requires cs != []
    ensures RawFramingText(RawChunked(cs, last, trailers)) + rest
         == RawChunkText(cs[0]) + (RawFramingText(RawChunked(cs[1..], last, trailers)) + rest)
  {
  }

  lemma {:induction false} ChunksTextSteady(cs: seq<RawChunk>, last: string, trailers: seq<string>, rest: string,
                                            s: string)
    requires GoodRawChunks(cs) && SizeLine(last, 0) && TrailerLines(trailers)
    requires s == RawFramingText(RawChunked(cs, last, trailers)) + rest && |s| < MAX_BUFFER
    ensures ChunksSteady(s) <==> trailers == []
    decreases |cs|
  {
    hide FrontOf;
    hide FindCrlf;
    hide RawChunkText;
    hide SizeLine;
    hide TailText;
    if cs == [] {
      assert s == TailText(last, trailers) + rest;
      TailSteady(last, trailers, rest, s);
    } else {
      var more := RawFramingText(RawChunked(cs[1..], last, trailers)) + rest;
      ChunkInFrontOfText(cs, last, trailers, rest);
      ChunkFront(cs[0], more, s);
      ChunksTextSteady(cs[1..], last, trailers, rest, more);
    }
  }

  lemma WireAtBody(w: Wire, rest: string, m: Msg, s: string, k: nat, m2: Msg)
    requires GoodWire(w, m) && s == WireText(w) + rest
    requires k == |w.startLine| + 2 + |HeadersText(w.headerLines)|
    requires m2 == StoreAll(ParseStartLine(w.startLine, m).value, w.headerLines)
    ensures k <= |s| && s[k..] == RawFramingText(w.framing) + rest
    ensures AtBody(FRESH, s, m) == Some((BodyState(k, m2), m2))
  {
    hide AtBody;
    hide ParseHeader;
    hide ParseStartLine;
    hide FindCrlf;
    hide StoreAll;
    hide FieldLines;
    hide DeclaredLength;
    hide HeadersText;
    var n, m1 := |w.startLine| + 2, ParseStartLine(w.startLine, m).value;
    var body := RawFramingText(w.framing) + rest;
    var s1 := HeadersText(w.headerLines) + body;
    WireSplits(w, rest);
    FirstLine(w.startLine, s1, s, n);
    StartsHeaders(s, m, n, m1);
    HeadersParse(w.headerLines, body, m1);
    HeadersEnd(s, n, w.headerLines, body, k);
    EntersHeader(s, n, m1, |HeadersText(w.headerLines)|, m2);
  }

  lemma StartsHeaders(s: string, m: Msg, n: nat, m1: Msg)
    requires 2 <= n <= |s| && FindCrlf(s) == Some(n - 2) && ParseStartLine(s[..n - 2], m) == Some(m1)
    ensures AtBody(FRESH, s, m) == AtBody(HeaderState(n), s, m1)
  {
    hide ParseHeader;
    hide ParseStartLine;
    hide FindCrlf;
  }

  lemma HeadersEnd(s: string, n: nat, lines: seq<string>, body: string, k: nat)
    requires n <= |s| && s[n..] == HeadersText(lines) + body && k == n + |HeadersText(lines)|
    ensures k <= |s| && s[k..] == body
  {
    var text := HeadersText(lines);
    Seqs.DropOfDrop(s, n, |text|, k);
    assert (text + body)[|text|..] == body;
  }

  lemma EntersHeader(s: string, n: nat, m1: Msg, h: nat, m2: Msg)
    requires n <= |s| && ParseHeader(s[n..], m1) == Part(READY, h, m2) && DeclaredLength(m2) >= 0
    ensures AtBody(HeaderState(n), s, m1) == Some((BodyState(n + h, m2), m2))
  {
    hide ParseHeader;
  }

  lemma WireSteady(w: Wire, rest: string, m: Msg)
    requires GoodWire(w, m) && |WireText(w) + rest| < MAX_BUFFER
    ensures Steady(FRESH, WireText(w) + rest, m) <==> !HasTrailers(w.framing)
  {
    hide AtBody;
    hide ChunksSteady;
    var s := WireText(w) + rest;
    var k := |w.startLine| + 2 + |HeadersText(w.headerLines)|;
    var m2 := StoreAll(ParseStartLine(w.startLine, m).value, w.headerLines);
    WireAtBody(w, rest, m, s, k, m2);
    match w.framing
    case RawPlain(_) =>
    case RawChunked(cs, last, trailers) => ChunksTextSteady(cs, last, trailers, rest, s[k..]);
  }

  // ---------------------------------------------------------------- delivery

  /** For well-formed messages the exact condition shows in the text: cuts do not matter if and only
      if there are no trailer lines behind the zero chunk. */
  lemma WireSegmentation(w: Wire, rest: string, m: Msg)
    requires GoodWire(w, m) && |WireText(w) + rest| < MAX_BUFFER
    ensures CutsDoNotMatter(WireText(w) + rest, m) <==> !HasTrailers(w.framing)
  {
    hide GoodWire;
    hide Steady;
    hide Agree;
    WireSteady(w, rest, m);
    SegmentationExact(FRESH, WireText(w) + rest, m);
  }

  /** The run over any cuts ends with this message, the parser standing behind `n` bytes. */
  ghost predicate DeliveredAs(s: string, into: Msg, m: Msg, n: nat) {
    forall cuts :: Cuts(FRESH, s, cuts) ==>
      var o := Feed(FRESH, s, cuts, into);
      o.code == READY && o.msg == m && o.p.already == n
  }

  /** And so does whether the message is delivered however it arrives. */
  lemma WireDelivered(w: Wire, rest: string, m: Msg)
    requires GoodWire(w, m) && |WireText(w) + rest| < MAX_BUFFER
    ensures DeliveredAs(WireText(w) + rest, m, WireMeaning(w, m), |WireText(w)|) <==> !HasTrailers(w.framing)
  {
    hide Steady;
    hide DeliveredAs;
    var s := WireText(w) + rest;
    WireSteady(w, rest, m);
    Completeness(w, rest, m);
    DeliveredExact(w, s, m);
  }

  lemma DeliveredExact(w: Wire, s: string, m: Msg)
    requires |s| < MAX_BUFFER && Accepted(Resume(FRESH, s, m), w, m)
    ensures DeliveredAs(s, m, WireMeaning(w, m), |WireText(w)|) <==> Steady(FRESH, s, m)
  {
    hide Resume;
    hide Steady;
    hide Feed;
    hide GoodWire;
    hide WireMeaning;
    hide WireText;
    if Steady(FRESH, s, m) {
      forall cuts | Cuts(FRESH, s, cuts)
        ensures var o := Feed(FRESH, s, cuts, m);
                o.code == READY && o.msg == WireMeaning(w, m) && o.p.already == |WireText(w)|
      {
        SegmentationIndependence(FRESH, s, cuts, m);
      }
    } else {
      var cuts := CutShows(FRESH, s, m);
      var o := Feed(FRESH, s, cuts, m);
      assert !(o.code == READY && o.msg == WireMeaning(w, m) && o.p.already == |WireText(w)|);
    }
  }

  /** The same of messages as HttpSyntax writes them. */
  lemma MessageSegmentation(w: S.Message, rest: string, m: Msg)
    requires S.WellFormed(w, m) && |S.Text(w) + rest| < MAX_BUFFER
    ensures CutsDoNotMatter(S.Text(w) + rest, m) <==> !S.Trailed(w)
  {
    hide CutsDoNotMatter;
    hide S.WellFormed;
    hide GoodWire;
    S.WireOfText(w);
    S.WireOfWellFormed(w, m);
    WireSegmentation(S.WireOf(w), rest, m);
  }

  lemma MessageDelivered(w: S.Message, rest: string, m: Msg)
    requires S.WellFormed(w, m) && |S.Text(w) + rest| < MAX_BUFFER
    ensures DeliveredAs(S.Text(w) + rest, m, S.Meaning(w, m), |S.Text(w)|) <==> !S.Trailed(w)
  {
    hide DeliveredAs;
    hide S.WellFormed;
    hide S.Meaning;
    hide GoodWire;
    hide WireMeaning;
    S.WireOfText(w);
    S.WireOfWellFormed(w, m);
    WireDelivered(S.WireOf(w), rest, m);
  }

  /** A printed request is restored, and its end found, however it and what follows arrive. */
  lemma RequestDelivered(m: Msg, order: seq<string>, rest: string)
    requires Transmittable(m) && Enumerates(order, m.headers) && |DumpText(m, order) + rest| < MAX_BUFFER
    ensures DeliveredAs(DumpText(m, order) + rest, Cleared(REQUEST), m, |DumpText(m, order)|)
  {
    hide DeliveredAs;
    var w := PlainWire(m, order);
    WireDelivered(w, rest, Cleared(REQUEST));
  }

  /** So is a chunked one, unless trailer lines follow its zero chunk. */
  lemma ChunkedDelivered(m: Msg, order: seq<string>, ps: seq<Piece>, ext: string, trailers: seq<string>, rest: string)
    requires CleanHead(m) && Enumerates(order, m.headers) && DeclaresChunked(m) && DeclaredLength(m) >= 0
    requires forall i :: 0 <= i < |ps| ==> GoodPiece(ps[i])
    requires Extension(ext) && TrailerLines(trailers)
    requires |DumpHead(m, order) + ChunkedText(ps, ext, trailers) + rest| < MAX_BUFFER
    ensures var text := DumpHead(m, order) + ChunkedText(ps, ext, trailers);
            DeliveredAs(text + rest, Cleared(REQUEST), m.(body := PiecesData(ps)), |text|) <==> trailers == []
  {
    hide DeliveredAs;
    hide GoodWire;
    hide WireMeaning;
    hide WireText;
    var w := ChunkedWire(m, order, ps, ext, trailers);
    WireDelivered(w, rest, Cleared(REQUEST));
  }

  /** Once a size line and its chunk are within the data, the later test for missing chunk bytes
      fires exactly when adding up the line, the size and the line end has wrapped around. */
  lemma LateTestExact(s: string, n: nat, size: nat)
    requires 0 < n <= |s| < MAX_BUFFER && 0 < size < SIZE_T && Wrap(n + size + 2) <= |s|
    ensures |s| - n < Wrap(size + 2) <==> n + size + 2 >= SIZE_T && size + 2 < SIZE_T
  {
  }
}
