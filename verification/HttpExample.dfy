/** One chunked request with a trailer line, on which the parser's verdict depends on the cut. */
module HttpExample {
  import Seqs
  import opened Wrappers
  import opened HttpText
  import opened HttpMethods
  import opened HttpMessage
  import opened HttpParserSpec
  import opened HttpSegmentation
  import opened HttpGrammar
  import opened HttpRoundTrip
  import opened HttpDelivery

  /** A printed request: start line, the headers in the order given, an empty line, the body. */
  lemma PrintExample()
    ensures var m := Msg(REQUEST, HTTP_1_0, map["A" := "b", "C" := "d"], "xyz", PUT, "/u", NO_STATE);
            DumpText(m, ["C", "A"])
            == "PUT /u HTTP/1.0" + CRLF + ("C: d" + CRLF + ("A: b" + CRLF)) + CRLF + "xyz"
  {
    var m := Msg(REQUEST, HTTP_1_0, map["A" := "b", "C" := "d"], "xyz", PUT, "/u", NO_STATE);
    assert DumpLine(m) == "PUT /u HTTP/1.0";
    assert HeaderLine("C", "d") == "C: d" && HeaderLine("A", "b") == "A: b";
    assert HeaderLines(m, ["C", "A"]) == ["C: d", "A: b"];
    TwoLines("C: d", "A: b");
  }

  lemma TwoLines(k: string, l: string)
    ensures Lines([k, l]) == k + CRLF + (l + CRLF)
  {
    assert [k, l][1..] == [l];
    OneLineText(l);
  }

  const EXAMPLE: Msg :=
    Cleared(REQUEST).(method_ := GET, uri := "/", version := HTTP_1_1, headers := map["Transfer-Encoding" := "chunked"])
  const EXAMPLE_LINE: string := "GET / HTTP/1.1"
  const EXAMPLE_FIELD: string := "Transfer-Encoding: chunked"
  const EXAMPLE_HEAD: string := EXAMPLE_LINE + CRLF + (EXAMPLE_FIELD + CRLF + CRLF)
  const EXAMPLE_BODY: string := "0" + CRLF + ("A:b" + CRLF + CRLF)
  const EXAMPLE_WIRE: Wire := Wire(EXAMPLE_LINE, [EXAMPLE_FIELD], RawChunked([], "0", ["A:b"]))

  lemma ExampleLines()
    ensures DumpLine(EXAMPLE) == EXAMPLE_LINE
    ensures HeaderLines(EXAMPLE, ["Transfer-Encoding"]) == [EXAMPLE_FIELD]
  {
    assert HeaderLine("Transfer-Encoding", "chunked") == EXAMPLE_FIELD;
  }

  lemma WordsClean()
    ensures CleanKey("Transfer-Encoding") && CleanValue("chunked")
  {
    hide OneLine;
    NoReturnOneLine("Transfer-Encoding");
    NoReturnOneLine("chunked");
  }

  lemma ExampleClean()
    ensures CleanHead(EXAMPLE) && Enumerates(["Transfer-Encoding"], EXAMPLE.headers)
  {
    hide CleanKey;
    hide CleanValue;
    WordsClean();
  }

  lemma ExampleFramed()
    ensures DeclaresChunked(EXAMPLE) && DeclaredLength(EXAMPLE) == 0
  {
    hide Atoi;
    hide Decimal;
    AtoiReadsDecimal(0);
    ZeroDecimal();
  }

  lemma ZeroDecimal()
    ensures Decimal(0) == "0"
  {
  }

  lemma ExampleGood()
    ensures GoodWire(EXAMPLE_WIRE, Cleared(REQUEST))
    ensures var line := ParseStartLine(EXAMPLE_WIRE.startLine, Cleared(REQUEST)).value;
            StoreAll(line, EXAMPLE_WIRE.headerLines) == EXAMPLE
  {
    hide ParseStartLine;
    hide StoreAll;
    hide FieldLines;
    hide CleanHead;
    hide DeclaresChunked;
    hide DeclaredLength;
    hide ChunkSize;
    ExampleLines();
    ExampleClean();
    ExampleFramed();
    LinePrinted(EXAMPLE);
    HeadPrinted(EXAMPLE, ["Transfer-Encoding"]);
    ZeroLine("");
    Seqs.NoMore("0");
    assert TrailerLines(["A:b"]);
  }

  lemma ExampleText()
    ensures WireText(EXAMPLE_WIRE) == EXAMPLE_HEAD + EXAMPLE_BODY
    ensures |EXAMPLE_WIRE.startLine| + 2 + |HeadersText(EXAMPLE_WIRE.headerLines)| == |EXAMPLE_HEAD|
    ensures RawFramingText(EXAMPLE_WIRE.framing) == EXAMPLE_BODY
  {
    OneLineText("A:b");
    OneLineText(EXAMPLE_FIELD);
    Seqs.NoneBefore(EXAMPLE_BODY);
    Seqs.Assoc(EXAMPLE_LINE + CRLF, EXAMPLE_FIELD + CRLF + CRLF, EXAMPLE_BODY);
  }

  lemma OneLineText(l: string)
    ensures Lines([l]) == l + CRLF
  {
    assert Lines([l][1..]) == "";
    Seqs.NoMore(l + CRLF);
  }

  /** The first five bytes of the body: the zero chunk is consumed. */
  lemma ExampleStarts()
    ensures ParseChunks("0" + CRLF + "A:", "") == BodyPart(WAITING_DATA, 3, "")
  {
    hide FindCrlf;
    hide ChunkSize;
    hide ParseTrailer;
    var s := "0" + CRLF + "A:";
    FirstLine("0", "A:", s, 3);
    ZeroLine("");
    Seqs.NoMore("0");
    SizeLineRead(s, "", 1, 0);
    TrailerBegins();
  }

  lemma TrailerBegins()
    ensures ParseTrailer("A:", "") == BodyPart(WAITING_DATA, 0, "")
  {
  }

  /** What follows it is then taken for a size line. */
  lemma ExampleRefuses()
    ensures ParseChunks("A:b" + CRLF + CRLF, "").code == ERROR
  {
    hide FindCrlf;
    var s := "A:b" + CRLF + CRLF;
    FirstLine("A:b", CRLF, s, 5);
    assert "A:b"[1..] == ":b";
  }

  lemma ExampleCut(s: string, k: nat)
    requires s == EXAMPLE_HEAD + EXAMPLE_BODY && k == |EXAMPLE_HEAD|
    ensures s[..k + 5][k..] == "0" + CRLF + "A:" && s[k + 3..] == "A:b" + CRLF + CRLF
  {
    Seqs.DropOfTake(s, k + 5, k);
    Seqs.Cut(EXAMPLE_HEAD, EXAMPLE_BODY);
    assert EXAMPLE_BODY[..5] == "0" + CRLF + "A:";
    Seqs.DropOfDrop(s, k, 3, k + 3);
    Seqs.Cut("0" + CRLF, "A:b" + CRLF + CRLF);
  }

  /** Two calls, the first on `cut` bytes and the second on all, end in a refusal. */
  ghost predicate RefusedWhenCut(s: string, cut: nat) {
    hide Resume;
    Cuts(FRESH, s, [cut, |s|]) && Feed(FRESH, s, [cut, |s|], Cleared(REQUEST)).code == ERROR
  }

  /** A chunked request with one trailer line, cut behind the key of that line: one call on all of it
      accepts it, the second of two calls refuses it. */
  lemma TrailerCutRefused()
    ensures Resume(FRESH, EXAMPLE_HEAD + EXAMPLE_BODY, Cleared(REQUEST)).code == READY
    ensures RefusedWhenCut(EXAMPLE_HEAD + EXAMPLE_BODY, |EXAMPLE_HEAD| + 5)
  {
    hide Resume;
    hide AtBody;
    hide GoodWire;
    hide ParseChunks;
    hide StoreAll;
    hide WireText;
    hide ParseStartLine;
    hide HeadersText;
    hide DeclaredLength;
    hide DeclaresChunked;
    hide Feed;
    var s, k, m := EXAMPLE_HEAD + EXAMPLE_BODY, |EXAMPLE_HEAD|, Cleared(REQUEST);
    ExampleGood();
    ExampleText();
    ExampleFramed();
    Seqs.NoMore(s);
    Completeness(EXAMPLE_WIRE, "", m);
    WireAtBody(EXAMPLE_WIRE, "", m, s, k, EXAMPLE);
    var q := BodyState(k, EXAMPLE);
    AtBodyTruncates(FRESH, s, m, q, EXAMPLE, k + 5);
    EntersBody(FRESH, s[..k + 5], m, q, EXAMPLE);
    ExampleCut(s, k);
    ExampleStarts();
    var o := Resume(FRESH, s[..k + 5], m);
    assert o == Outcome(WAITING_DATA, q.(already := k + 3), EXAMPLE);
    AtBodyItself(o.p, s, EXAMPLE);
    ExampleRefuses();
    FeedTwo(s, k + 5, m);
  }

  lemma FeedTwo(s: string, cut: nat, m: Msg)
    requires cut <= |s| && Resume(FRESH, s[..cut], m).code == WAITING_DATA
    ensures Cuts(FRESH, s, [cut, |s|])
    ensures var o := Resume(FRESH, s[..cut], m); Feed(FRESH, s, [cut, |s|], m) == Resume(o.p, s, o.msg)
  {
    hide Resume;
    var o := Resume(FRESH, s[..cut], m);
    FeedStep(FRESH, s, [cut, |s|], m, o);
    assert [cut, |s|][1..] == [|s|] && s[..|s|] == s;
    FeedStep(o.p, s, [|s|], o.msg, Resume(o.p, s, o.msg));
  }
}
