/** What one call of the incremental HTTP parser does to its state and to the message,
    as functions of the bytes seen so far. The class in HttpParser is proved against
    these functions; HttpSegmentation and HttpGrammar prove what they mean. */
module HttpParserSpec {
  import Seqs
  import opened Wrappers
  import opened HttpText
  import opened HttpMethods
  import opened HttpMessage

  /** The library's three return codes, and the length_error exception that a negative
      Content-Length or a chunk size near 2^64 makes the string class throw. */
  datatype RetCode = READY | WAITING_DATA | ERROR | LENGTH_ERROR

  datatype Tag = LINE | HEADER | BODY | DONE

  datatype PState = PState(tag: Tag, already: nat, contentLength: nat, chunked: bool, bodyBuf: string) {

    /** What holds of the parser's fields between two calls. */
    predicate Valid() {
      && (tag == LINE ==> already == 0)
      && (tag == LINE || tag == HEADER ==> contentLength == 0 && !chunked && bodyBuf == "")
      && (tag == BODY && !chunked ==> |bodyBuf| < contentLength || (bodyBuf == "" && contentLength == 0))
    }
  }

  const FRESH: PState := PState(LINE, 0, 0, false, "")

  // ---------------------------------------------------------------- start line

  /** The pattern ^/\S*$. */
  predicate ValidUri(uri: string) {
    uri != "" && uri[0] == '/' && forall i :: 0 <= i < |uri| ==> !IsSpace(uri[i])
  }

  predicate AllDigits(s: string) {
    s != "" && forall i :: 0 <= i < |s| ==> IsDigit(s[i])
  }

  /** The pattern ^HTTP/\d+\.\d+$. */
  predicate ValidVersion(v: string) {
    && |v| >= 5 && v[..5] == "HTTP/"
    && var dot := IndexOf(v, '.', 5);
       dot < |v| && AllDigits(v[5..dot]) && AllDigits(v[dot + 1..])
  }

  function ParseRequestLine(line: string, m: Msg): Option<Msg> {
    match SplitLine(line)
    case None => None
    case Some((name, uri, version)) =>
      if !ValidUri(uri) || !ValidVersion(version) || StringToMethod(name) == INVALID then None
      else Some(m.(method_ := StringToMethod(name), uri := uri, version := StringToVersion(version)))
  }

  function ParseResponseLine(line: string, m: Msg): Option<Msg> {
    match SplitLine(line)
    case None => None
    case Some((version, state, description)) =>
      if !ValidVersion(version) || !KnownState(Atoi(state)) then None
      else Some(m.(version := StringToVersion(version), state := Atoi(state)))
  }

  function ParseStartLine(line: string, m: Msg): Option<Msg> {
    match m.kind
    case REQUEST => ParseRequestLine(line, m)
    case RESPONSE => ParseResponseLine(line, m)
    case UNKNOWN => None
  }

  datatype Part = Part(code: RetCode, nparse: nat, msg: Msg)

  function Behind(p: Part, n: nat): Part {
    p.(nparse := n + p.nparse)
  }

  function ParseLine(s: string, m: Msg): (p: Part)
    ensures p.nparse <= |s|
  {
    match FindCrlf(s)
    case None => Part(WAITING_DATA, 0, m)
    case Some(i) =>
      match ParseStartLine(s[..i], m)
      case None => Part(ERROR, 0, m)
      case Some(m') => Part(READY, i + 2, m')
  }

  // ---------------------------------------------------------------- header lines

  /** The message with one accepted header line stored. */
  function Store(m: Msg, line: string): Msg
    requires SplitHeader(line).Some?
  {
    var (key, value) := SplitHeader(line).value;
    m.(headers := m.headers[key := value])
  }

  function ParseHeader(s: string, m: Msg): (p: Part)
    ensures p.nparse <= |s|
    decreases |s|
  {
    match FindCrlf(s)
    case None => Part(WAITING_DATA, 0, m)
    case Some(i) =>
      if i == 0 then Part(READY, 2, m)
      else if SplitHeader(s[..i]).None? then Part(ERROR, 0, m)
      else Behind(ParseHeader(s[i + 2..], Store(m, s[..i])), i + 2)
  }

  predicate FieldAt(s: string, i: nat) {
    i > 0 && FindCrlf(s) == Some(i) && SplitHeader(s[..i]).Some?
  }

  /** One accepted header line in front. */
  lemma HeaderField(s: string, m: Msg, i: nat)
    requires FieldAt(s, i)
    ensures ParseHeader(s, m) == Behind(ParseHeader(s[i + 2..], Store(m, s[..i])), i + 2)
  {
  }

  // ---------------------------------------------------------------- body

  datatype BodyPart = BodyPart(code: RetCode, nparse: nat, body: string)

  function Shift(b: BodyPart, n: nat): BodyPart {
    b.(nparse := n + b.nparse)
  }

  /** The trailer section behind the zero chunk: its fields are ignored. */
  function ParseTrailer(s: string, body: string): (b: BodyPart)
    ensures b.nparse <= |s| && b.code in {READY, WAITING_DATA} && b.body == body
    ensures b.code == READY ==> 2 <= b.nparse
    decreases |s|
  {
    if |s| < 2 then BodyPart(WAITING_DATA, 0, body)
    else match FindCrlf(s)
         case None => BodyPart(WAITING_DATA, 0, body)
         case Some(i) =>
           if i == 0 then BodyPart(READY, 2, body)
           else Shift(ParseTrailer(s[i + 2..], body), i + 2)
  }

  /** One pass over the chunks; sums of sizes wrap at 2^64 as size_t does. */
  function ParseChunks(s: string, body: string): (b: BodyPart)
    ensures b.nparse <= |s|
    ensures b.code == READY ==> 2 <= b.nparse
    decreases |s|
  {
    if s == "" then BodyPart(WAITING_DATA, 0, body)
    else match FindCrlf(s)
         case None => BodyPart(WAITING_DATA, 0, body)
         case Some(i) =>
           if i == 0 then BodyPart(ERROR, 0, body)
           else match ChunkSize(s[..i])
                case None => BodyPart(ERROR, 0, body)
                case Some(size) =>
                  if Wrap(i + 2 + size + 2) > |s| then BodyPart(WAITING_DATA, 0, body)
                  else ParseChunkBehind(s, i + 2, size, body)
  }

  function ParseChunkBehind(s: string, n: nat, size: nat, body: string): (b: BodyPart)
    requires 0 < n <= |s|
    ensures b.nparse <= |s|
    ensures b.code == READY ==> 2 <= b.nparse
    decreases |s|, 0
  {
    var rest := s[n..];
    if size == 0 then Shift(ParseTrailer(rest, body), n)
    else if |rest| < Wrap(size + 2) then BodyPart(WAITING_DATA, n, body)
    else if size + 2 >= SIZE_T then BodyPart(LENGTH_ERROR, 0, body)
    else if rest[size] != '\r' || rest[size + 1] != '\n' then BodyPart(ERROR, n, body + rest[..size])
    else Shift(ParseChunks(rest[size + 2..], body + rest[..size]), n + size + 2)
  }

  /** A complete chunk is consumed whatever follows it. */
  lemma WholeChunk(s: string, n: nat, size: nat, body: string, data: string, m: nat)
    requires 0 < n <= |s| && 0 < size && m == n + size + 2 < SIZE_T
    requires CrlfAt(s[n..], size) && data == s[n..][..size]
    ensures m <= |s|
    ensures ParseChunkBehind(s, n, size, body) == Shift(ParseChunks(s[m..], body + data), m)
  {
    hide ParseChunks;
    hide ParseTrailer;
    Seqs.DropOfDrop(s, n, size + 2, m);
  }

  /** A size line whose chunk is within the data. */
  lemma SizeLineRead(s: string, body: string, i: nat, size: nat)
    requires FindCrlf(s) == Some(i) && i > 0 && ChunkSize(s[..i]) == Some(size) && Wrap(i + 2 + size + 2) <= |s|
    ensures ParseChunks(s, body) == ParseChunkBehind(s, i + 2, size, body)
  {
  }

  /** A complete chunk in front, size line and all. */
  lemma ChunkInFront(s: string, body: string, i: nat, size: nat, data: string, m: nat)
    requires FindCrlf(s) == Some(i) && i > 0 && ChunkSize(s[..i]) == Some(size) && size > 0
    requires m == i + 2 + size + 2 <= |s| && m < SIZE_T && CrlfAt(s[i + 2..], size) && data == s[i + 2..][..size]
    ensures ParseChunks(s, body) == Shift(ParseChunks(s[m..], body + data), m)
  {
    SizeLineRead(s, body, i, size);
    WholeChunk(s, i + 2, size, body, data, m);
  }

  function Min(a: nat, b: nat): nat {
    if a < b then a else b
  }

  /** A body of known length. */
  function ParsePlain(s: string, contentLength: nat, body: string): (b: BodyPart)
    requires |body| <= contentLength
    ensures b.nparse <= |s|
  {
    var n := Min(contentLength - |body|, |s|);
    BodyPart(if |body| + n == contentLength then READY else WAITING_DATA, n, body + s[..n])
  }

  function ParseBody(s: string, contentLength: nat, chunked: bool, body: string): (b: BodyPart)
    requires !chunked ==> |body| <= contentLength
    ensures b.nparse <= |s|
  {
    if chunked then ParseChunks(s, body) else ParsePlain(s, contentLength, body)
  }

  // ---------------------------------------------------------------- one call

  datatype Outcome = Outcome(code: RetCode, p: PState, msg: Msg)

  /** An int converted to size_t. */
  function SizeOf(n: int): nat
    requires -0x8000_0000 <= n
  {
    if n < 0 then SIZE_T + n else n
  }

  function DeclaredLength(m: Msg): int {
    Atoi(GetHeader(m, "Content-Length", "0"))
  }

  predicate DeclaresChunked(m: Msg) {
    GetHeader(m, "Transfer-Encoding", "No Transfer-Encoding") == "chunked"
  }

  /** The state and the message after a body call that came out as `b`. */
  function Finish(p: PState, b: BodyPart, m: Msg): Outcome {
    match b.code
    case READY =>
      Outcome(READY, p.(tag := DONE, already := p.already + b.nparse, bodyBuf := ""), m.(body := b.body))
    case WAITING_DATA => Outcome(WAITING_DATA, p.(already := p.already + b.nparse, bodyBuf := b.body), m)
    case _ => Outcome(b.code, p.(bodyBuf := b.body), m)
  }

  function ResumeBody(p: PState, data: string, m: Msg): (o: Outcome)
    requires p.Valid() && p.tag == BODY && p.already <= |data|
    ensures o.p.Valid() && p.already <= o.p.already <= |data|
  {
    Finish(p, ParseBody(data[p.already..], p.contentLength, p.chunked, p.bodyBuf), m)
  }

  function StartBody(p: PState, n: nat, m: Msg): PState {
    p.(tag := BODY, already := p.already + n,
       contentLength := SizeOf(DeclaredLength(m)), chunked := p.chunked || DeclaresChunked(m))
  }

  function ResumeHeader(p: PState, data: string, m: Msg): (o: Outcome)
    requires p.Valid() && p.tag == HEADER && p.already <= |data|
    ensures o.p.Valid() && p.already <= o.p.already <= |data|
  {
    var h := ParseHeader(data[p.already..], m);
    match h.code
    case READY =>
      var p' := StartBody(p, h.nparse, h.msg);
      if DeclaredLength(h.msg) < 0 then Outcome(LENGTH_ERROR, p', h.msg)
      else ResumeBody(p', data, h.msg)
    case WAITING_DATA => Outcome(WAITING_DATA, p.(already := p.already + h.nparse), h.msg)
    case _ => Outcome(h.code, p, h.msg)
  }

  /** One call on the `data` received so far, of which `p.already` bytes are done with. */
  function Resume(p: PState, data: string, m: Msg): (o: Outcome)
    requires p.Valid() && p.already <= |data|
    ensures o.p.Valid() && p.already <= o.p.already <= |data|
  {
    match p.tag
    case LINE =>
      var l := ParseLine(data, m);
      if l.code == READY then ResumeHeader(p.(tag := HEADER, already := l.nparse), data, l.msg)
      else Outcome(l.code, p, l.msg)
    case HEADER => ResumeHeader(p, data, m)
    case BODY => ResumeBody(p, data, m)
    case DONE => Outcome(READY, p, m)
  }
}
