/** What one call of a new parser does with data that it does not accept: when it refuses, when it throws,
    and how far it has come when it waits. The conditions are those of HttpSyntax, without the parser. */
module HttpRefusal {
  import Seqs
  import G = HttpGrammar
  import opened Wrappers
  import opened HttpText
  import opened HttpMessage
  import opened HttpParserSpec
  import opened HttpTokens
  import opened HttpSyntax
  import opened HttpFront

  // ---------------------------------------------------------------- single lines

  /** The line reads as a start line, as a field, as a size. */
  ghost predicate IsStart(line: string, kind: Kind) {
    exists st :: GoodStart(st, kind) && StartText(st) == line
  }

  ghost predicate IsField(line: string) {
    exists f :: GoodField(f) && FieldText(f) == line
  }

  ghost predicate IsSize(line: string, n: nat) {
    exists z :: Sizes(z, n) && SizeText(z) == line
  }

  lemma StartJudged(line: string, m: Msg)
    requires OneLine(line)
    ensures ParseStartLine(line, m).Some? <==> IsStart(line, m.kind)
  {
    hide ParseStartLine;
    hide GoodStart;
    hide OneLine;
    if ParseStartLine(line, m).Some? {
      var st := StartSplits(line, m);
    }
    if st :| GoodStart(st, m.kind) && StartText(st) == line {
      StartRead(st, m);
    }
  }

  lemma FieldJudged(line: string)
    requires OneLine(line)
    ensures SplitHeader(line).Some? <==> IsField(line)
  {
    hide SplitHeader;
    hide GoodField;
    hide OneLine;
    if SplitHeader(line).Some? {
      var f := FieldSplits(line, SplitHeader(line).value.0, SplitHeader(line).value.1);
    }
    if f :| GoodField(f) && FieldText(f) == line {
      FieldRead(f);
    }
  }

  lemma SizeJudged(line: string, n: nat)
    ensures ChunkSize(line) == Some(n) <==> IsSize(line, n)
  {
    hide ChunkSize;
    hide Sizes;
    hide SizeText;
    if ChunkSize(line) == Some(n) {
      var z := SizeSplits(line, n);
    }
    if z :| Sizes(z, n) && SizeText(z) == line {
      SizeRead(z, n);
    }
  }

  /** A first line and what is behind it. */
  lemma LineInFront(line: string, rest: string, s: string)
    requires OneLine(line) && s == line + CRLF + rest
    ensures FindCrlf(s) == Some(|line|) && s[..|line|] == line && s[|line| + 2..] == rest
  {
    CrlfEndsLine(line, rest);
  }

  lemma FirstLineOf(s: string) returns (line: string, rest: string)
    requires FindCrlf(s).Some?
    ensures line == s[..FindCrlf(s).value] && rest == s[FindCrlf(s).value + 2..]
    ensures OneLine(line) && s == line + CRLF + rest
  {
    LineBeforeCrlf(s);
    line, rest := s[..FindCrlf(s).value], s[FindCrlf(s).value + 2..];
  }

  lemma NoLine(s: string)
    ensures FindCrlf(s) == None <==> OneLine(s)
  {
  }

  // ---------------------------------------------------------------- the header section

  /** Where the header loop stops: no whole line, the empty line, or a line that is no field. */
  ghost predicate HeaderStop(more: string) {
    match FindCrlf(more)
    case None => true
    case Some(i) => i == 0 || SplitHeader(more[..i]).None?
  }

  /** The loop goes past fields, storing them. */
  lemma {:induction false} FieldsPass(fs: seq<Field>, more: string, m: Msg)
    requires GoodFields(fs)
    ensures ParseHeader(FieldsText(fs) + more, m) == Behind(ParseHeader(more, Stored(m, fs)), |FieldsText(fs)|)
    decreases |fs|
  {
    hide ParseHeader;
    hide SplitHeader;
    hide FindCrlf;
    hide Store;
    hide OneLine;
    if fs == [] {
      Seqs.NoneBefore(more);
    } else {
      var l, s, s' := FieldText(fs[0]), FieldsText(fs) + more, FieldsText(fs[1..]) + more;
      Seqs.Assoc(l + CRLF, FieldsText(fs[1..]), more);
      FieldNotEmpty(fs[0]);
      LineInFront(l, s', s);
      StoreField(m, fs[0]);
      HeaderField(s, m, |l|);
      FieldsPass(fs[1..], more, m.(headers := m.headers[fs[0].key := fs[0].value]));
    }
  }

  lemma FieldNotEmpty(f: Field)
    requires GoodField(f)
    ensures FieldText(f) != "" && OneLine(FieldText(f))
  {
  }

  /** And every data is fields and then a place to stop. */
  lemma {:induction false} FieldsStop(s: string) returns (fs: seq<Field>, more: string)
    ensures GoodFields(fs) && s == FieldsText(fs) + more && HeaderStop(more)
    decreases |s|
  {
    hide SplitHeader;
    hide OneLine;
    hide GoodField;
    if HeaderStop(s) {
      fs, more := [], s;
      Seqs.NoneBefore(s);
    } else {
      var line, rest := FirstLineOf(s);
      var f := FieldSplits(line, SplitHeader(line).value.0, SplitHeader(line).value.1);
      var fs', more' := FieldsStop(rest);
      fs, more := [f] + fs', more';
      assert fs[1..] == fs';
      Seqs.Assoc(line + CRLF, FieldsText(fs'), more);
    }
  }

  /** What stands in front of the body: start line, fields and the empty line. */
  function HeadText(st: Start, fs: seq<Field>): string {
    StartText(st) + CRLF + FieldsText(fs)
  }

  ghost predicate GoodHead(st: Start, fs: seq<Field>, kind: Kind) {
    GoodStart(st, kind) && GoodFields(fs)
  }

  /** The message when the head has been read. */
  function HeadOf(st: Start, fs: seq<Field>, m: Msg): Msg {
    Stored(Started(st, m), fs)
  }

  lemma HeadPasses(st: Start, fs: seq<Field>, more: string, m: Msg)
    requires GoodHead(st, fs, m.kind)
    ensures var s, k := HeadText(st, fs) + more, |StartText(st)| + 2;
            k <= |s| && Resume(FRESH, s, m) == ResumeHeader(G.HeaderState(k), s, Started(st, m))
            && ParseHeader(s[k..], Started(st, m)) == Behind(ParseHeader(more, HeadOf(st, fs, m)), |FieldsText(fs)|)
  {
    hide ParseStartLine;
    hide ParseHeader;
    hide GoodStart;
    hide GoodFields;
    hide OneLine;
    hide StartText;
    hide FieldsText;
    hide Started;
    var line, rest := StartText(st), FieldsText(fs) + more;
    StartRead(st, m);
    StartOneLine(st, m.kind);
    Seqs.Assoc(line + CRLF, FieldsText(fs), more);
    G.LineParses(HeadText(st, fs) + more, line, rest, m, Started(st, m), |line| + 2);
    FieldsPass(fs, more, Started(st, m));
  }

  /** Every data in which the start line is whole and good is such a head and a place to stop. */
  lemma HeadStop(s: string, m: Msg) returns (st: Start, fs: seq<Field>, more: string)
    requires FindCrlf(s).Some? && IsStart(s[..FindCrlf(s).value], m.kind)
    ensures GoodHead(st, fs, m.kind) && s == HeadText(st, fs) + more && HeaderStop(more)
  {
    hide GoodStart;
    hide StartText;
    hide GoodFields;
    hide HeaderStop;
    hide OneLine;
    hide FieldsText;
    var line, rest := FirstLineOf(s);
    st :| GoodStart(st, m.kind) && StartText(st) == line;
    fs, more := FieldsStop(rest);
    Seqs.Assoc(line + CRLF, FieldsText(fs), more);
  }

  lemma HeaderWaitsHere(more: string, m: Msg)
    requires OneLine(more)
    ensures ParseHeader(more, m) == Part(WAITING_DATA, 0, m)
  {
    NoLine(more);
  }

  lemma HeaderRefuses(line: string, rest: string, m: Msg)
    requires OneLine(line) && line != "" && !IsField(line)
    ensures ParseHeader(line + CRLF + rest, m) == Part(ERROR, 0, m)
  {
    hide IsField;
    hide SplitHeader;
    LineInFront(line, rest, line + CRLF + rest);
    FieldJudged(line);
  }

  lemma HeaderEnds(rest: string, m: Msg)
    ensures ParseHeader(CRLF + rest, m) == Part(READY, 2, m)
  {
    FirstCrlf(CRLF + rest, 0);
  }

  // ---------------------------------------------------------------- the body

  /** Behind the empty line: the length is negative, or the body begins. */
  lemma BodyEntered(st: Start, fs: seq<Field>, rest: string, m: Msg, n: int)
    requires GoodHead(st, fs, m.kind) && SaysLength(HeadOf(st, fs, m), n)
    ensures var s, m2, k := HeadText(st, fs) + (CRLF + rest), HeadOf(st, fs, m), |HeadText(st, fs)| + 2;
            && k <= |s| && s[k..] == rest
            && (n < 0 ==> Resume(FRESH, s, m).code == LENGTH_ERROR)
            && (n >= 0 ==>
                  var q := PState(BODY, k, n, SaysChunked(m2), "");
                  q.Valid() && Resume(FRESH, s, m) == ResumeBody(q, s, m2))
  {
    hide ParseHeader;
    hide GoodHead;
    hide HeadOf;
    hide SaysLength;
    hide StartText;
    hide FieldsText;
    hide ResumeBody;
    hide Resume;
    hide DeclaredLength;
    var m2 := HeadOf(st, fs, m);
    HeadPasses(st, fs, CRLF + rest, m);
    HeaderEnds(rest, m2);
    LengthAlike(m2, n);
    ChunkedAlike(m2);
    Seqs.Assoc(HeadText(st, fs), CRLF, rest);
    Seqs.Cut(HeadText(st, fs) + CRLF, rest);
  }

  lemma LengthSaid(m: Msg)
    ensures SaysLength(m, DeclaredLength(m))
  {
    LengthAlike(m, DeclaredLength(m));
  }

  // ---------------------------------------------------------------- chunks

  /** A whole size line in front: not empty, and a size by its form. */
  ghost predicate SizeLineOf(more: string, line: string, rest: string, n: nat) {
    more == line + CRLF + rest && OneLine(line) && line != "" && IsSize(line, n)
  }

  /** The length of size line, data and both line ends, as far as 64 bits hold it. */
  function ChunkLength(line: string, n: nat): nat {
    (|line| + 2 + n + 2) % 0x1_0000_0000_0000_0000
  }

  /** No whole size line yet, or not all of the chunk it announces. */
  ghost predicate FrontMissing(more: string) {
    OneLine(more) || exists line, rest, n: nat :: SizeLineOf(more, line, rest, n) && ChunkLength(line, n) > |more|
  }

  /** An empty line, a line that is no size, or data that is not followed by a line end. */
  ghost predicate FrontBroken(more: string) {
    || (exists line, rest ::
          more == line + CRLF + rest && OneLine(line) && (line == "" || forall n :: !IsSize(line, n)))
    || (exists line, rest, n: nat ::
          SizeLineOf(more, line, rest, n) && 0 < n && |line| + 2 + n + 2 <= |more| && !CrlfAt(rest, n))
  }

  /** A size so near 2^64 that the string class throws. */
  ghost predicate FrontHuge(more: string) {
    exists line, rest, n: nat ::
      SizeLineOf(more, line, rest, n) && n + 2 >= 0x1_0000_0000_0000_0000 && ChunkLength(line, n) <= |more|
  }

  /** A size that with its line adds up past 2^64, so that the chunk seems to be there. */
  ghost predicate FrontWrapped(more: string, k: nat) {
    exists line, rest, n: nat ::
      && SizeLineOf(more, line, rest, n) && k == |line| + 2 && ChunkLength(line, n) <= |more|
      && n + 2 < 0x1_0000_0000_0000_0000 <= |line| + 2 + n + 2
  }

  ghost predicate FrontZero(more: string, k: nat) {
    exists line, rest :: SizeLineOf(more, line, rest, 0) && k == |line| + 2 && k + 2 <= |more|
  }

  /** The size line at the front, judged by the loop's own steps. */
  lemma FrontSized(more: string, line: string, rest: string, n: nat)
    requires SizeLineOf(more, line, rest, n) && |more| < MAX_BUFFER
    ensures n < SIZE_T && ChunkLength(line, n) == Wrap(|line| + 2 + n + 2)
    ensures FrontOf(more) == HttpFront.Sized(more, |line| + 2, n) && more[|line| + 2..] == rest
  {
    hide IsSize;
    hide HttpFront.Sized;
    LineInFront(line, rest, more);
    SizeJudged(line, n);
  }

  lemma BrokenFails(more: string, body: string)
    requires FrontBroken(more) && |more| < MAX_BUFFER
    ensures ParseChunks(more, body).code == ERROR
  {
    hide IsSize;
    hide ChunkSize;
    if line: string, rest: string, n: nat :| SizeLineOf(more, line, rest, n) && 0 < n
                                             && |line| + 2 + n + 2 <= |more| && !CrlfAt(rest, n) {
      LineInFront(line, rest, more);
      SizeJudged(line, n);
      SizeLineRead(more, body, |line|, n);
    } else {
      var line, rest :| more == line + CRLF + rest && OneLine(line) && (line == "" || forall n :: !IsSize(line, n));
      LineInFront(line, rest, more);
      if line != "" && ChunkSize(line).Some? {
        SizeJudged(line, ChunkSize(line).value);
      }
    }
  }

  lemma HugeThrows(more: string, body: string)
    requires FrontHuge(more) && |more| < MAX_BUFFER
    ensures ParseChunks(more, body).code == LENGTH_ERROR
  {
    hide IsSize;
    var line: string, rest: string, n: nat :| SizeLineOf(more, line, rest, n)
                         && n + 2 >= 0x1_0000_0000_0000_0000 && ChunkLength(line, n) <= |more|;
    FrontSized(more, line, rest, n);
    LineInFront(line, rest, more);
    SizeJudged(line, n);
    SizeLineRead(more, body, |line|, n);
  }

  lemma MissingWaits(more: string, body: string)
    requires FrontMissing(more) && |more| < MAX_BUFFER
    ensures FrontOf(more) == Short && ParseChunks(more, body) == BodyPart(WAITING_DATA, 0, body)
  {
    hide ParseChunks;
    if OneLine(more) {
      NoLine(more);
      FrontLine(more);
    } else {
      var line: string, rest: string, n: nat :| SizeLineOf(more, line, rest, n) && ChunkLength(line, n) > |more|;
      FrontSized(more, line, rest, n);
    }
    ShortWaits(more, body);
  }

  lemma WrappedGoesOn(more: string, k: nat, body: string)
    requires FrontWrapped(more, k) && |more| < MAX_BUFFER
    ensures k <= |more| && ParseChunks(more, body) == BodyPart(WAITING_DATA, k, body)
  {
    hide ParseChunks;
    var line: string, rest: string, n: nat :| SizeLineOf(more, line, rest, n) && k == |line| + 2
                                              && ChunkLength(line, n) <= |more|
                         && n + 2 < 0x1_0000_0000_0000_0000 <= |line| + 2 + n + 2;
    FrontSized(more, line, rest, n);
    WrappedWaits(more, body, k);
  }

  lemma ZeroGoesOn(more: string, k: nat, body: string)
    requires FrontZero(more, k) && |more| < MAX_BUFFER
    ensures k <= |more| && ParseChunks(more, body) == Shift(ParseTrailer(more[k..], body), k)
  {
    hide ParseChunks;
    hide ParseTrailer;
    var line, rest :| SizeLineOf(more, line, rest, 0) && k == |line| + 2 && k + 2 <= |more|;
    FrontSized(more, line, rest, 0);
    ZeroSkips(more, body, k);
  }

  /** Every front is one of these, or a whole chunk. */
  lemma FrontKinds(more: string) returns (k: nat)
    requires |more| < MAX_BUFFER && !FrontOf(more).Whole?
    ensures FrontMissing(more) || FrontBroken(more) || FrontHuge(more) || FrontWrapped(more, k) || FrontZero(more, k)
  {
    hide IsSize;
    hide ChunkSize;
    k := 0;
    if FindCrlf(more).None? {
      NoLine(more);
    } else {
      var line, rest := FirstLineOf(more);
      if line != "" && ChunkSize(line).Some? {
        var n := ChunkSize(line).value;
        SizeJudged(line, n);
        k := |line| + 2;
        assert SizeLineOf(more, line, rest, n);
        FrontSized(more, line, rest, n);
      } else if line != "" {
        NoSize(line);
      }
    }
  }

  lemma NoSize(line: string)
    requires ChunkSize(line).None?
    ensures forall n :: !IsSize(line, n)
  {
    hide IsSize;
    hide ChunkSize;
    forall n ensures !IsSize(line, n) {
      SizeJudged(line, n);
    }
  }

  lemma ChunkPasses(c: Chunk, more: string, body: string)
    requires c.data != "" && GoodSize(c.size, |c.data|) && |ChunkText(c)| < MAX_BUFFER
    ensures ParseChunks(ChunkText(c) + more, body) == Shift(ParseChunks(more, body + c.data), |ChunkText(c)|)
  {
    hide ParseChunks;
    hide SizeText;
    hide OneLine;
    hide ChunkSize;
    SizesAlike(c.size, |c.data|);
    G.ChunkParses(G.RawChunk(SizeText(c.size), c.data), more, body);
  }

  /** The chunk loop goes past whole chunks, collecting their data. */
  lemma {:induction false} ChunksPass(cs: seq<Chunk>, more: string, body: string)
    requires GoodChunks(cs) && |ChunksText(cs) + more| < MAX_BUFFER
    ensures ParseChunks(ChunksText(cs) + more, body)
         == Shift(ParseChunks(more, body + ChunksData(cs)), |ChunksText(cs)|)
    decreases |cs|
  {
    hide ParseChunks;
    hide ChunkText;
    hide GoodSize;
    if cs == [] {
      Seqs.NoneBefore(more);
      Seqs.NoMore(body);
    } else {
      var t := ChunksText(cs[1..]) + more;
      Seqs.Assoc(ChunkText(cs[0]), ChunksText(cs[1..]), more);
      ChunkPasses(cs[0], t, body);
      ChunksPass(cs[1..], more, body + cs[0].data);
      Seqs.Assoc(body, cs[0].data, ChunksData(cs[1..]));
    }
  }

  /** What a whole chunk in front consists of. */
  lemma WholeParts(s: string, n: nat, size: nat)
    requires FrontOf(s) == Whole(n, size)
    ensures n > 2 && FindCrlf(s) == Some(n - 2) && ChunkSize(s[..n - 2]) == Some(size)
    ensures size > 0 && n + size + 2 <= |s| && CrlfAt(s[n..], size)
  {
    hide ChunkSize;
    hide FindCrlf;
  }

  lemma ChunkAtFront(s: string, n: nat, size: nat) returns (c: Chunk)
    requires FrontOf(s) == Whole(n, size) && |s| < MAX_BUFFER
    ensures c.data != "" && GoodSize(c.size, |c.data|)
    ensures s == ChunkText(c) + s[n + size + 2..]
  {
    hide ChunkSize;
    hide FindCrlf;
    hide FrontOf;
    hide GoodSize;
    hide SizeText;
    hide OneLine;
    hide CrlfAt;
    WholeParts(s, n, size);
    var line, rest := FirstLineOf(s);
    var z := SizeFound(line, size);
    c := Chunk(z, rest[..size]);
    Seqs.DropOfDrop(s, n, size + 2, n + size + 2);
    DataSplits(rest, size);
    ChunkJoins(line, c.data, rest[size + 2..]);
  }

  lemma ChunkJoins(line: string, data: string, more: string)
    ensures line + CRLF + (data + CRLF + more) == (line + CRLF + data + CRLF) + more
  {
  }

  lemma DataSplits(rest: string, size: nat)
    requires CrlfAt(rest, size)
    ensures rest == rest[..size] + CRLF + rest[size + 2..]
  {
    assert rest[size..size + 2] == CRLF;
    assert rest == rest[..size] + rest[size..size + 2] + rest[size + 2..];
  }

  /** And all chunked data is whole chunks and then something else. */
  lemma {:induction false} ChunksStop(s: string) returns (cs: seq<Chunk>, more: string)
    requires |s| < MAX_BUFFER
    ensures GoodChunks(cs) && s == ChunksText(cs) + more && !FrontOf(more).Whole?
    decreases |s|
  {
    hide FrontOf;
    hide GoodSize;
    if !FrontOf(s).Whole? {
      cs, more := [], s;
      Seqs.NoneBefore(s);
    } else {
      var f := FrontOf(s);
      var c := ChunkAtFront(s, f.n, f.size);
      var cs', more' := ChunksStop(s[f.n + f.size + 2..]);
      cs, more := [c] + cs', more';
      assert cs[1..] == cs';
      Seqs.Assoc(ChunkText(c), ChunksText(cs'), more);
    }
  }

  /** The trailer loop goes past whole lines. */
  lemma {:induction false} TrailersPass(ls: seq<string>, more: string, body: string)
    requires GoodTrailers(ls)
    ensures ParseTrailer(Lines(ls) + more, body) == Shift(ParseTrailer(more, body), |Lines(ls)|)
    decreases |ls|
  {
    hide FindCrlf;
    hide OneLine;
    if ls == [] {
      Seqs.NoneBefore(more);
    } else {
      var s, s' := Lines(ls) + more, Lines(ls[1..]) + more;
      Seqs.Assoc(ls[0] + CRLF, Lines(ls[1..]), more);
      LineInFront(ls[0], s', s);
      TrailersPass(ls[1..], more, body);
    }
  }

  lemma {:induction false} TrailersStop(s: string) returns (ls: seq<string>, more: string)
    ensures GoodTrailers(ls) && s == Lines(ls) + more
    ensures OneLine(more) || exists rest :: more == CRLF + rest
    decreases |s|
  {
    if FindCrlf(s).None? {
      ls, more := [], s;
      Seqs.NoneBefore(s);
    } else {
      hide OneLine;
      var line, rest := FirstLineOf(s);
      if line == "" {
        ls, more := [], s;
        Seqs.NoneBefore(s);
        Seqs.NoneBefore(CRLF);
      } else {
        var ls', more' := TrailersStop(rest);
        ls, more := [line] + ls', more';
        assert ls[1..] == ls';
        Seqs.Assoc(line + CRLF, Lines(ls'), more);
      }
    }
  }

  // ---------------------------------------------------------------- all data

  /** What the data of a new parser can look like; `n` is the length that the head declares, and `k` that of
      a size line behind the chunks. */
  datatype Shape =
    | StartPart
    | StartFault(line: string, rest: string)
    | HeadPart(st: Start, fs: seq<Field>, more: string)
    | HeadFault(st: Start, fs: seq<Field>, line: string, rest: string)
    | BodyShape(st: Start, fs: seq<Field>, n: int, rest: string, body: Body)

  datatype Body =
    | Negative
    | PlainData
    | ChunkPart(cs: seq<Chunk>, more: string)
    | ChunkFault(cs: seq<Chunk>, more: string)
    | ChunkHuge(cs: seq<Chunk>, more: string)
    | ChunkWrapped(cs: seq<Chunk>, more: string, k: nat)
    | Trailer(cs: seq<Chunk>, more: string, k: nat, ls: seq<string>, end: string)

  ghost predicate Fits(x: Shape, s: string, m: Msg) {
    match x
    case StartPart => OneLine(s)
    case StartFault(line, rest) => s == line + CRLF + rest && OneLine(line) && !IsStart(line, m.kind)
    case HeadPart(st, fs, more) => GoodHead(st, fs, m.kind) && s == HeadText(st, fs) + more && OneLine(more)
    case HeadFault(st, fs, line, rest) =>
      && GoodHead(st, fs, m.kind) && s == HeadText(st, fs) + (line + CRLF + rest)
      && OneLine(line) && line != "" && !IsField(line)
    case BodyShape(st, fs, n, rest, body) =>
      && GoodHead(st, fs, m.kind) && s == HeadText(st, fs) + (CRLF + rest) && SaysLength(HeadOf(st, fs, m), n)
      && (body.Negative? <==> n < 0)
      && (n >= 0 ==> (body.PlainData? <==> !SaysChunked(HeadOf(st, fs, m))) && BodyFits(body, rest))
  }

  ghost predicate BodyFits(body: Body, rest: string) {
    match body
    case Negative => true
    case PlainData => true
    case ChunkPart(cs, more) => GoodChunks(cs) && rest == ChunksText(cs) + more && FrontMissing(more)
    case ChunkFault(cs, more) => GoodChunks(cs) && rest == ChunksText(cs) + more && FrontBroken(more)
    case ChunkHuge(cs, more) => GoodChunks(cs) && rest == ChunksText(cs) + more && FrontHuge(more)
    case ChunkWrapped(cs, more, k) => GoodChunks(cs) && rest == ChunksText(cs) + more && FrontWrapped(more, k)
    case Trailer(cs, more, k, ls, end) =>
      && GoodChunks(cs) && rest == ChunksText(cs) + more && FrontZero(more, k) && k <= |more|
      && GoodTrailers(ls) && more[k..] == Lines(ls) + end
      && (OneLine(end) || exists after :: end == CRLF + after)
  }

  /** What the call has done with it: verdict, offset, framing, body so far, and message. */
  ghost predicate Meets(x: Shape, o: Outcome, s: string, m: Msg) {
    match x
    case StartPart => o == Outcome(WAITING_DATA, PState(LINE, 0, 0, false, ""), m)
    case StartFault(_, _) => o.code == ERROR && o.msg == m
    case HeadPart(st, fs, more) =>
      o == Outcome(WAITING_DATA, PState(HEADER, |HeadText(st, fs)|, 0, false, ""), HeadOf(st, fs, m))
    case HeadFault(st, fs, _, _) => o.code == ERROR && o.msg == HeadOf(st, fs, m)
    case BodyShape(st, fs, n, rest, body) =>
      BodyMeets(body, o, |HeadText(st, fs)| + 2, n, rest, HeadOf(st, fs, m))
  }

  /** The parser waits at offset `k` of a chunked body with `data` collected. */
  predicate WaitsAt(o: Outcome, k: nat, n: int, data: string, m: Msg)
  {
    n >= 0 && o == Outcome(WAITING_DATA, PState(BODY, k, n, true, data), m)
  }

  ghost predicate BodyMeets(body: Body, o: Outcome, k: nat, n: int, rest: string, m: Msg) {
    match body
    case Negative => o.code == LENGTH_ERROR
    case PlainData =>
      if |rest| < n then o == Outcome(WAITING_DATA, PState(BODY, k + |rest|, n, false, rest), m)
      else 0 <= n && o.code == READY && o.p.already == k + n && o.msg == m.(body := rest[..n])
    case ChunkPart(cs, _) => WaitsAt(o, k + |ChunksText(cs)|, n, ChunksData(cs), m)
    case ChunkFault(_, _) => o.code == ERROR && o.msg == m
    case ChunkHuge(_, _) => o.code == LENGTH_ERROR && o.msg == m
    case ChunkWrapped(cs, _, h) => WaitsAt(o, k + |ChunksText(cs)| + h, n, ChunksData(cs), m)
    case Trailer(cs, _, h, ls, end) =>
      var at := k + |ChunksText(cs)| + h + |Lines(ls)|;
      if OneLine(end) then WaitsAt(o, at, n, ChunksData(cs), m)
      else o.code == READY && o.p.already == at + 2 && o.msg == m.(body := ChunksData(cs))
  }

  lemma ChunkedMeets(body: Body, rest: string, q: PState, s: string, m: Msg)
    requires BodyFits(body, rest) && !body.Negative? && !body.PlainData? && |s| < MAX_BUFFER
    requires q.Valid() && q.tag == BODY && q.chunked && q.bodyBuf == "" && q.already <= |s| && rest == s[q.already..]
    ensures BodyMeets(body, ResumeBody(q, s, m), q.already, q.contentLength, rest, m)
  {
    hide ParseChunks;
    hide ParseTrailer;
    hide GoodChunks;
    hide FrontMissing;
    hide FrontBroken;
    hide FrontHuge;
    hide FrontWrapped;
    hide FrontZero;
    hide GoodTrailers;
    var cs, more := body.cs, body.more;
    ChunksPass(cs, more, "");
    Seqs.NoneBefore(ChunksData(cs));
    match body
    case ChunkPart(_, _) => MissingWaits(more, ChunksData(cs));
    case ChunkFault(_, _) => BrokenFails(more, ChunksData(cs));
    case ChunkHuge(_, _) => HugeThrows(more, ChunksData(cs));
    case ChunkWrapped(_, _, k) => WrappedGoesOn(more, k, ChunksData(cs));
    case Trailer(_, _, k, ls, end) =>
      ZeroGoesOn(more, k, ChunksData(cs));
      TrailersPass(ls, end, ChunksData(cs));
      TrailerEnd(end, ChunksData(cs));
  }

  lemma TrailerEnd(end: string, body: string)
    ensures OneLine(end) ==> ParseTrailer(end, body) == BodyPart(WAITING_DATA, 0, body)
    ensures (exists after :: end == CRLF + after) ==>
              !OneLine(end) && ParseTrailer(end, body) == BodyPart(READY, 2, body)
  {
    NoLine(end);
    if after :| end == CRLF + after {
      FirstCrlf(end, 0);
    }
  }

  lemma BodyShapeMeets(st: Start, fs: seq<Field>, n: int, rest: string, body: Body, s: string, m: Msg)
    requires Fits(BodyShape(st, fs, n, rest, body), s, m) && |s| < MAX_BUFFER
    ensures BodyMeets(body, Resume(FRESH, s, m), |HeadText(st, fs)| + 2, n, rest, HeadOf(st, fs, m))
  {
    hide Resume;
    hide GoodHead;
    hide HeadText;
    hide HeadOf;
    hide SaysLength;
    hide SaysChunked;
    hide BodyFits;
    hide ParseChunks;
    BodyEntered(st, fs, rest, m, n);
    var m2, k := HeadOf(st, fs, m), |HeadText(st, fs)| + 2;
    if n >= 0 {
      var q := PState(BODY, k, n, SaysChunked(m2), "");
      if !body.PlainData? {
        ChunkedMeets(body, rest, q, s, m2);
      } else {
        PlainMeets(q, s, rest, m2);
      }
    }
  }

  lemma PlainMeets(q: PState, s: string, rest: string, m: Msg)
    requires q.Valid() && q.tag == BODY && !q.chunked && q.bodyBuf == "" && q.already <= |s| && rest == s[q.already..]
    ensures BodyMeets(PlainData, ResumeBody(q, s, m), q.already, q.contentLength, rest, m)
  {
    hide ParseChunks;
    var n := q.contentLength;
    Seqs.NoneBefore(if |rest| < n then rest[..|rest|] else rest[..n]);
  }

  lemma StartMeets(line: string, rest: string, s: string, m: Msg)
    requires s == line + CRLF + rest && OneLine(line) && !IsStart(line, m.kind)
    ensures Resume(FRESH, s, m) == Outcome(ERROR, FRESH, m)
  {
    hide IsStart;
    hide OneLine;
    hide ParseStartLine;
    hide FindCrlf;
    LineInFront(line, rest, s);
    StartJudged(line, m);
  }

  /** What the header loop's stop makes of the call. */
  lemma HeadMeets(st: Start, fs: seq<Field>, more: string, s: string, m: Msg)
    requires GoodHead(st, fs, m.kind) && s == HeadText(st, fs) + more
    requires ParseHeader(more, HeadOf(st, fs, m)) in {Part(WAITING_DATA, 0, HeadOf(st, fs, m)),
                                                      Part(ERROR, 0, HeadOf(st, fs, m))}
    ensures var o, h := Resume(FRESH, s, m), ParseHeader(more, HeadOf(st, fs, m));
            && o.code == h.code && o.msg == HeadOf(st, fs, m)
            && (h.code == WAITING_DATA ==> o.p == PState(HEADER, |HeadText(st, fs)|, 0, false, ""))
  {
    hide Resume;
    hide ParseHeader;
    hide GoodHead;
    hide HeadOf;
    hide StartText;
    hide FieldsText;
    HeadPasses(st, fs, more, m);
    HeadLength(st, fs);
  }

  /** The first half: data of a shape has the outcome of that shape. */
  lemma ShapeDecides(x: Shape, s: string, m: Msg)
    requires Fits(x, s, m) && |s| < MAX_BUFFER
    ensures Meets(x, Resume(FRESH, s, m), s, m)
  {
    hide GoodHead;
    hide HeadText;
    hide HeadOf;
    hide IsStart;
    hide IsField;
    hide BodyFits;
    hide BodyMeets;
    hide OneLine;
    hide SaysLength;
    hide SaysChunked;
    hide Resume;
    hide ParseHeader;
    match x
    case StartPart => NothingRead(s, m);
    case StartFault(line, rest) => StartMeets(line, rest, s, m);
    case HeadPart(st, fs, more) =>
      HeaderWaitsHere(more, HeadOf(st, fs, m));
      HeadMeets(st, fs, more, s, m);
    case HeadFault(st, fs, line, rest) =>
      HeaderRefuses(line, rest, HeadOf(st, fs, m));
      HeadMeets(st, fs, line + CRLF + rest, s, m);
    case BodyShape(st, fs, n, rest, body) => BodyShapeMeets(st, fs, n, rest, body, s, m);
  }

  lemma NothingRead(s: string, m: Msg)
    requires OneLine(s)
    ensures Resume(FRESH, s, m) == Outcome(WAITING_DATA, FRESH, m)
  {
    NoLine(s);
  }

  lemma HeadLength(st: Start, fs: seq<Field>)
    ensures |HeadText(st, fs)| == |StartText(st)| + 2 + |FieldsText(fs)|
  {
  }

  /** The second half: all data has a shape. */
  lemma EveryShape(s: string, m: Msg) returns (x: Shape)
    requires |s| < MAX_BUFFER
    ensures Fits(x, s, m)
  {
    hide GoodHead;
    hide HeadText;
    hide HeadOf;
    hide IsStart;
    hide IsField;
    hide BodyFits;
    hide OneLine;
    hide SaysLength;
    hide SaysChunked;
    hide FindCrlf;
    if FindCrlf(s).None? {
      NoLine(s);
      return StartPart;
    }
    var line, rest := FirstLineOf(s);
    if !IsStart(line, m.kind) {
      return StartFault(line, rest);
    }
    var st, fs, more := HeadStop(s, m);
    if FindCrlf(more).None? {
      NoLine(more);
      return HeadPart(st, fs, more);
    }
    var line', rest' := FirstLineOf(more);
    if line' != "" {
      FieldJudged(line');
      return HeadFault(st, fs, line', rest');
    }
    Seqs.NoneBefore(CRLF);
    x := EveryBodyShape(st, fs, rest', s, m);
  }

  lemma EveryBodyShape(st: Start, fs: seq<Field>, rest: string, s: string, m: Msg) returns (x: Shape)
    requires GoodHead(st, fs, m.kind) && s == HeadText(st, fs) + (CRLF + rest) && |s| < MAX_BUFFER
    ensures Fits(x, s, m)
  {
    hide GoodHead;
    hide HeadText;
    hide HeadOf;
    hide BodyFits;
    hide SaysLength;
    hide SaysChunked;
    hide DeclaredLength;
    var m2 := HeadOf(st, fs, m);
    LengthSaid(m2);
    var n := DeclaredLength(m2);
    if n < 0 {
      return BodyShape(st, fs, n, rest, Negative);
    }
    if !SaysChunked(m2) {
      PlainFits(rest);
      return BodyShape(st, fs, n, rest, PlainData);
    }
    var body := EveryBody(rest);
    x := BodyShape(st, fs, n, rest, body);
  }

  lemma PlainFits(rest: string)
    ensures BodyFits(PlainData, rest)
  {
  }

  lemma EveryBody(rest: string) returns (body: Body)
    requires |rest| < MAX_BUFFER
    ensures !body.Negative? && !body.PlainData? && BodyFits(body, rest)
  {
    hide GoodChunks;
    hide FrontMissing;
    hide FrontBroken;
    hide FrontHuge;
    hide FrontWrapped;
    hide FrontZero;
    hide GoodTrailers;
    hide OneLine;
    hide FrontOf;
    var cs, more := ChunksStop(rest);
    var k := FrontKinds(more);
    if FrontMissing(more) {
      return ChunkPart(cs, more);
    } else if FrontBroken(more) {
      return ChunkFault(cs, more);
    } else if FrontHuge(more) {
      return ChunkHuge(cs, more);
    } else if FrontWrapped(more, k) {
      return ChunkWrapped(cs, more, k);
    }
    ZeroGoesOn(more, k, "");
    var ls, end := TrailersStop(more[k..]);
    body := Trailer(cs, more, k, ls, end);
  }

  // ---------------------------------------------------------------- the verdicts

  /** What is refused: a start line, a field or a chunk that is not of the form. */
  predicate Faulty(x: Shape) {
    x.StartFault? || x.HeadFault? || (x.BodyShape? && x.body.ChunkFault?)
  }

  /** What makes the string class throw: a negative length, or a chunk size near 2^64. */
  predicate Throws(x: Shape) {
    x.BodyShape? && (x.body.Negative? || x.body.ChunkHuge?)
  }

  predicate Finished(x: Shape) {
    && x.BodyShape?
    && match x.body
       case PlainData => x.n <= |x.rest|
       case Trailer(_, _, _, _, end) => !OneLine(end)
       case _ => false
  }

  lemma ShapeVerdict(x: Shape, s: string, m: Msg)
    requires Fits(x, s, m) && |s| < MAX_BUFFER
    ensures Resume(FRESH, s, m).code == if Faulty(x) then ERROR else if Throws(x) then LENGTH_ERROR
                                        else if Finished(x) then READY else WAITING_DATA
  {
    hide Resume;
    hide GoodHead;
    hide HeadText;
    hide HeadOf;
    hide OneLine;
    hide IsStart;
    hide IsField;
    hide SaysLength;
    hide SaysChunked;
    ShapeDecides(x, s, m);
  }

  /** A new parser refuses its data if and only if there is a fault in it: a whole start line that is none, a
      whole field line that is none, or behind good chunks something that is no chunk. */
  lemma RefusesExactly(s: string, m: Msg)
    requires |s| < MAX_BUFFER
    ensures Resume(FRESH, s, m).code == ERROR <==> exists x :: Faulty(x) && Fits(x, s, m)
  {
    hide Resume;
    hide Fits;
    var x := EveryShape(s, m);
    ShapeVerdict(x, s, m);
    forall y | Faulty(y) && Fits(y, s, m) ensures Resume(FRESH, s, m).code == ERROR {
      ShapeVerdict(y, s, m);
    }
  }

  lemma ThrowsExactly(s: string, m: Msg)
    requires |s| < MAX_BUFFER
    ensures Resume(FRESH, s, m).code == LENGTH_ERROR <==> exists x :: Throws(x) && Fits(x, s, m)
  {
    hide Resume;
    hide Fits;
    var x := EveryShape(s, m);
    ShapeVerdict(x, s, m);
    forall y | Throws(y) && Fits(y, s, m) ensures Resume(FRESH, s, m).code == LENGTH_ERROR {
      ShapeVerdict(y, s, m);
    }
  }

  /** And it waits if and only if all that is there is good and something is missing. */
  lemma WaitsExactly(s: string, m: Msg)
    requires |s| < MAX_BUFFER
    ensures Resume(FRESH, s, m).code == WAITING_DATA
       <==> exists x :: !Faulty(x) && !Throws(x) && !Finished(x) && Fits(x, s, m)
  {
    hide Resume;
    hide Fits;
    var x := EveryShape(s, m);
    ShapeVerdict(x, s, m);
    forall y | !Faulty(y) && !Throws(y) && !Finished(y) && Fits(y, s, m)
      ensures Resume(FRESH, s, m).code == WAITING_DATA
    {
      ShapeVerdict(y, s, m);
    }
  }
}
