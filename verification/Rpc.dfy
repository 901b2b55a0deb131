/** The two RPC endpoints as the library runs them, on top of a connection. */
module Rpc {
  import Bytes
  import opened FramedStream
  import opened Connections
  import opened RpcMatching

  /** The calling side: hands out ids, remembers which closure waits under which id. */
  class Channel {
    const codec: Codec
    const conn: Connection
    var idAllocator: nat
    var idMethod: map<nat, nat>
    var ran: seq<Done>
    var missed: bool

    ghost function Value(): Client
      reads this
    {
      Client(idAllocator, idMethod, ran, missed)
    }

    ghost predicate Valid()
      reads this, conn, conn.readBuf, conn.readBuf.chars
    {
      conn.Valid() && idAllocator < ID_RANGE
    }

    constructor (codec: Codec)
      ensures Valid() && fresh(conn) && fresh(conn.readBuf) && fresh(conn.readBuf.chars)
      ensures Value() == Client(0, map[], [], false) && conn.Sending() == IDLE
    {
      this.codec := codec;
      conn := new Connection();
      idAllocator, idMethod, ran, missed := 0, map[], [], false;
    }

    /** `closure` is the number of the call whose closure is to run. */
    method CallMethod(call: Call, closure: nat)
      requires Valid()
      modifies this`idAllocator, this`idMethod, conn`queue, conn`write
      ensures Valid() && Value() == old(Value()).Start(closure)
      ensures conn.Sending() == old(conn.Sending()).Push(Frame(codec.enc(RequestOf(old(idAllocator), call))))
    {
      var id := idAllocator;
      idAllocator := (idAllocator + 1) % ID_RANGE;
      idMethod := idMethod[id := closure];
      var text := codec.enc(RequestOf(id, call));
      conn.Send(Bytes.BigEndian(|text|, PREFIX) + text);
    }

    method OnMessageOp(data: Bytes.bytes)
      modifies this`idMethod, this`ran, this`missed
      ensures Value() == old(Value()).OnMessage(codec, data)
    {
      var parsed := codec.dec(data);
      if parsed.None? {
        return;
      }
      var message := parsed.value;
      if message.tp != RESPONSE {
        return;
      }
      if message.id !in idMethod {
        missed := true;
        return;
      }
      var closure := idMethod[message.id];
      idMethod := idMethod - {message.id};
      ran := ran + [Done(closure, message.args)];
    }
  }

  /** The serving side: services by name, each a table of methods. */
  class Server {
    const codec: Codec
    var services: Services

    constructor (codec: Codec)
      ensures services == map[] && this.codec == codec
    {
      this.codec := codec;
      services := map[];
    }

    method RegisterService(name: string, methods: map<string, Handler>)
      modifies this
      ensures services == old(services)[name := methods]
    {
      services := services[name := methods];
    }

    method SendResponse(conn: Connection, response: RpcMessage)
      requires conn.Valid()
      modifies conn`queue, conn`write
      ensures conn.Valid() && conn.Sending() == old(conn.Sending()).Push(Frame(codec.enc(response)))
    {
      var text := codec.enc(response);
      conn.Send(Bytes.BigEndian(|text|, PREFIX) + text);
    }

    /** Every request that parses is answered once, under its own id. */
    method OnConnectionMessage(conn: Connection, data: Bytes.bytes)
      requires conn.Valid()
      modifies conn`queue, conn`write
      ensures conn.Valid()
      ensures conn.Sending() == match Reply(codec, services, data)
                                case None => old(conn.Sending())
                                case Some(r) => old(conn.Sending()).Push(Frame(r))
    {
      var parsed := codec.dec(data);
      if parsed.None? {
        return;
      }
      var message := parsed.value;
      if message.tp != REQUEST {
        SendResponse(conn, ResponseOf(message.id, NOT_SUPPORT, []));
        return;
      }
      if message.service !in services {
        SendResponse(conn, ResponseOf(message.id, NO_SERVICE, []));
        return;
      }
      var methods := services[message.service];
      if message.method_ !in methods {
        SendResponse(conn, ResponseOf(message.id, NO_METHOD, []));
        return;
      }
      var result := methods[message.method_](message.args);
      if result.None? {
        SendResponse(conn, ResponseOf(message.id, INVALID_REQUEST, []));
        return;
      }
      SendResponse(conn, ResponseOf(message.id, SUCCESS, result.value));
    }
  }
}
