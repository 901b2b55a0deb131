/** HTTP messages: the values a parser fills in and a printer reads, and the mutable
    object that carries them. One record holds the fields of a request and of a
    response; `kind` says which of them are meant. */
module HttpMessage {
  import opened HttpText
  import opened HttpMethods

  datatype Kind = UNKNOWN | REQUEST | RESPONSE
  datatype Version = HTTP_ERR | HTTP_1_0 | HTTP_1_1

  datatype Msg = Msg(kind: Kind, version: Version, headers: map<string, string>, body: string,
                     method_: Method, uri: string, state: int)

  const NO_STATE: int := 512

  function Cleared(kind: Kind): Msg {
    Msg(kind, HTTP_ERR, map[], "", INVALID, "", NO_STATE)
  }

  function VersionToString(v: Version): string {
    if v == HTTP_1_0 then "HTTP/1.0" else "HTTP/1.1"
  }

  function StringToVersion(s: string): Version {
    if s == "HTTP/1.0" then HTTP_1_0 else HTTP_1_1
  }

  /** Only the two real versions are read back; an unset one is printed as 1.1. */
  lemma VersionRoundTrip(v: Version)
    ensures StringToVersion(VersionToString(v)) == v <==> v != HTTP_ERR
  {
    assert VersionToString(HTTP_1_0)[7] == '0' && VersionToString(HTTP_1_1)[7] == '1';
  }

  function GetHeader(m: Msg, key: string, default: string): string {
    if key in m.headers then m.headers[key] else default
  }

  predicate KnownState(code: int) {
    100 <= code <= 102 || 200 <= code <= 208 || code == 226 || 300 <= code <= 305 || code == 307 || code == 308
    || 400 <= code <= 417 || 421 <= code <= 424 || code == 426 || code == 428 || code == 429 || code == 431
    || code == 451 || 500 <= code <= 508 || code == 510 || code == 511
  }

  // ---------------------------------------------------------------- printing

  function DumpLine(m: Msg): string {
    MethodToString(m.method_) + " " + m.uri + " " + VersionToString(m.version)
  }

  function HeaderLine(key: string, value: string): string {
    key + ": " + value
  }

  /** The header lines in the order in which the hash map happens to enumerate its keys. */
  function HeaderLines(m: Msg, order: seq<string>): (lines: seq<string>)
    requires forall k :: k in order ==> k in m.headers
    ensures |lines| == |order|
    ensures forall i :: 0 <= i < |order| ==> lines[i] == HeaderLine(order[i], m.headers[order[i]])
  {
    seq(|order|, i requires 0 <= i < |order| => HeaderLine(order[i], m.headers[order[i]]))
  }

  function Lines(ls: seq<string>): string {
    if ls == [] then "" else ls[0] + CRLF + Lines(ls[1..])
  }

  lemma LinesAppend(ls: seq<string>, l: string)
    ensures Lines(ls + [l]) == Lines(ls) + l + CRLF
  {
    if ls != [] {
      assert (ls + [l])[1..] == ls[1..] + [l];
      LinesAppend(ls[1..], l);
    }
  }

  lemma LinesGrow(line: string, ls: seq<string>, key: string, value: string)
    ensures line + Lines(ls) + key + ": " + value + CRLF == line + Lines(ls + [HeaderLine(key, value)])
  {
    LinesAppend(ls, HeaderLine(key, value));
  }

  /** An enumeration of a map visits every key once. */
  ghost predicate Enumerates(order: seq<string>, headers: map<string, string>) {
    && (forall k :: k in order <==> k in headers)
    && (forall i, j :: 0 <= i < j < |order| ==> order[i] != order[j])
  }

  function DumpHead(m: Msg, order: seq<string>): string
    requires forall k :: k in order ==> k in m.headers
  {
    DumpLine(m) + CRLF + Lines(HeaderLines(m, order)) + CRLF
  }

  function DumpText(m: Msg, order: seq<string>): string
    requires forall k :: k in order ==> k in m.headers
  {
    DumpHead(m, order) + m.body
  }

  // ---------------------------------------------------------------- the mutable message

  class Message {
    const kind: Kind
    var version: Version
    var headers: map<string, string>
    var body: string
    var method_: Method
    var uri: string
    var state: int

    function Value(): Msg
      reads this
    {
      Msg(kind, version, headers, body, method_, uri, state)
    }

    constructor (kind: Kind)
      ensures Value() == Cleared(kind)
      ensures version == HTTP_ERR && headers == map[] && body == ""
      ensures method_ == INVALID && uri == "" && state == NO_STATE
    {
      this.kind := kind;
      version, headers, body := HTTP_ERR, map[], "";
      method_, uri, state := INVALID, "", NO_STATE;
    }

    method SetHeader(key: string, value: string)
      modifies this
      ensures Value() == old(Value()).(headers := old(headers)[key := value])
    {
      headers := headers[key := value];
    }

    method RemoveHeader(key: string)
      modifies this
      ensures Value() == old(Value()).(headers := old(headers) - {key})
    {
      headers := headers - {key};
    }

    method SetBody(text: string)
      modifies this
      ensures Value() == old(Value()).(body := text)
    {
      body := text;
    }

    method Clear()
      modifies this
      ensures Value() == Cleared(kind)
      ensures version == HTTP_ERR && headers == map[] && body == ""
      ensures method_ == INVALID && uri == "" && state == NO_STATE
    {
      version, headers, body := HTTP_ERR, map[], "";
      method_, uri, state := INVALID, "", NO_STATE;
    }

    /** Request printing. `order` is the enumeration order of the header map. */
    method Dump(order: seq<string>) returns (text: string)
      requires Enumerates(order, headers)
      ensures text == DumpText(Value(), order)
    {
      text := MethodToString(method_) + " " + uri + " " + VersionToString(version) + CRLF;
      ghost var line := text;
      ghost var lines := HeaderLines(Value(), order);
      for i := 0 to |order|
        invariant text == line + Lines(lines[..i])
      {
        LinesGrow(line, lines[..i], order[i], headers[order[i]]);
        assert lines[..i + 1] == lines[..i] + [lines[i]];
        text := text + order[i] + ": " + headers[order[i]] + CRLF;
      }
      assert lines[..|order|] == lines;
      text := text + CRLF;
      text := text + body;
    }
  }
}
