/** The example server's side of a connection, as far as it reads: one parse behind each read. */
module HttpConnections {
  import Seqs
  import opened HttpMessage
  import opened HttpParserSpec
  import opened HttpParser
  import opened HttpStream

  class HttpConnection {
    const parser: Parser
    const request: Message
    var buffer: string
    var handed: seq<Msg>

    predicate Valid()
      reads this, parser
    {
      Reading(parser.State()) && parser.already <= |buffer|
    }

    constructor ()
      ensures Valid() && fresh(parser) && fresh(request)
      ensures parser.State() == FRESH && request.Value() == Cleared(REQUEST) && buffer == "" && handed == []
    {
      parser := new Parser();
      request := new Message(REQUEST);
      buffer, handed := "", [];
    }

    /** A read has brought `data`; tells whether to read again. */
    method OnRead(data: string) returns (again: bool)
      requires Valid() && request.kind == REQUEST
      modifies this, parser, request
      ensures var e := ArriveOnce(REQUEST, old(parser.State()), old(request.Value()), old(buffer), [data]);
              && handed == old(handed) + e.msgs && buffer == e.rest
              && parser.State() == e.p && request.Value() == e.msg
              && again == (e.code == WAITING_DATA)
      ensures again ==> Valid()
    {
      hide ArriveOnce;
      hide Resume;
      ghost var p, m := parser.State(), request.Value();
      buffer := buffer + data;
      ghost var b := buffer;
      OnceStep(REQUEST, p, m, old(buffer), data, b);
      var code := parser.Parse(buffer, request);
      if code == READY {
        handed := handed + [request.Value()];
        if request.version == HTTP_1_0 {
          return false;
        }
        buffer := buffer[parser.already..];
        request.Clear();
        parser.Reset();
      }
      again := code in {READY, WAITING_DATA};
    }

    static lemma OnceStep(kind: Kind, p: PState, m: Msg, buf: string, data: string, b: string)
      requires Reading(p) && p.already <= |buf| && b == buf + data
      ensures var o, e := Resume(p, b, m), ArriveOnce(kind, p, m, buf, [data]);
              match o.code
              case READY =>
                e == if o.msg.version == HTTP_1_0 then Stream([o.msg], o.p, o.msg, b, READY)
                     else Stream([o.msg], FRESH, Cleared(kind), b[o.p.already..], WAITING_DATA)
              case _ => e == Stream([], o.p, o.msg, b, o.code)
      ensures Resume(p, b, m).code == WAITING_DATA ==> Reading(Resume(p, b, m).p)
    {
      hide Resume;
      Progress(p, b, m);
      assert [data][1..] == [];
      Seqs.NoMore([Resume(p, b, m).msg]);
    }
  }
}
