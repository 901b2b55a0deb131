/** Remote calls over two framed streams: the client numbers its calls and remembers them by
    number, the server answers every request under the number it came with. A run interleaves
    calls with the partial writes and arbitrary reads of both connections. */
module RpcMatching {
  import opened Wrappers
  import opened Bytes
  import F = FramedStream

  const ID_RANGE: nat := 0x1_0000_0000_0000_0000

  // ---------------------------------------------------------------- messages

  datatype MessageType = REQUEST | RESPONSE
  datatype Err = SUCCESS | NO_SERVICE | NO_METHOD | INVALID_REQUEST | NOT_SUPPORT

  datatype RpcMessage =
    RpcMessage(id: nat, tp: MessageType, service: string, method_: string, args: bytes, errcode: Err)

  /** Serialisation, of which only invertibility matters. */
  datatype Codec = Codec(enc: RpcMessage -> bytes, dec: bytes -> Option<RpcMessage>)

  ghost predicate Invertible(c: Codec) {
    forall m: RpcMessage :: c.dec(c.enc(m)) == Some(m)
  }

  datatype Call = Call(service: string, method_: string, args: bytes)

  function RequestOf(id: nat, call: Call): RpcMessage {
    RpcMessage(id, REQUEST, call.service, call.method_, call.args, SUCCESS)
  }

  function ResponseOf(id: nat, errcode: Err, args: bytes): RpcMessage {
    RpcMessage(id, RESPONSE, "", "", args, errcode)
  }

  // ---------------------------------------------------------------- the server

  /** A method that calls `done` once and synchronously; None when its request does not parse. */
  type Handler = bytes -> Option<bytes>
  type Services = map<string, map<string, Handler>>

  function Respond(sv: Services, m: RpcMessage): (r: RpcMessage)
    ensures r.id == m.id && r.tp == RESPONSE
  {
    if m.tp != REQUEST then ResponseOf(m.id, NOT_SUPPORT, [])
    else if m.service !in sv then ResponseOf(m.id, NO_SERVICE, [])
    else if m.method_ !in sv[m.service] then ResponseOf(m.id, NO_METHOD, [])
    else match sv[m.service][m.method_](m.args)
         case None => ResponseOf(m.id, INVALID_REQUEST, [])
         case Some(result) => ResponseOf(m.id, SUCCESS, result)
  }

  /** The bytes that a call's closure should be run with: the handler's result, or nothing if there is no such
      method or its request does not parse; the library does not look at the error code. */
  function AnswerTo(sv: Services, call: Call): bytes {
    if call.service in sv && call.method_ in sv[call.service] && sv[call.service][call.method_](call.args).Some?
    then sv[call.service][call.method_](call.args).value
    else []
  }

  /** The error for the first thing that is missing. */
  function ErrorOf(sv: Services, call: Call): Err {
    if call.service !in sv then NO_SERVICE
    else if call.method_ !in sv[call.service] then NO_METHOD
    else if sv[call.service][call.method_](call.args).None? then INVALID_REQUEST
    else SUCCESS
  }

  /** What a call is answered with: the result of the method it names, run on its own arguments, or the
      error for the first thing that is missing. */
  lemma CallAnswered(sv: Services, id: nat, call: Call)
    ensures Respond(sv, RequestOf(id, call))
         == RpcMessage(id, RESPONSE, "", "", AnswerTo(sv, call), ErrorOf(sv, call))
  {
  }

  /** Bytes that parse as anything but a request are answered too, with an error. */
  lemma OthersRefused(c: Codec, sv: Services, m: RpcMessage)
    requires Invertible(c) && m.tp == RESPONSE
    ensures Reply(c, sv, c.enc(m)) == Some(c.enc(RpcMessage(m.id, RESPONSE, "", "", [], NOT_SUPPORT)))
  {
  }

  /** The bytes sent back for the bytes of one message; nothing for bytes that do not parse. */
  function Reply(c: Codec, sv: Services, data: bytes): Option<bytes> {
    match c.dec(data)
    case None => None
    case Some(m) => Some(c.enc(Respond(sv, m)))
  }

  function PushReply(down: F.Stream, reply: Option<bytes>): F.Stream
    requires reply.Some? ==> F.Fits(reply.value)
  {
    match reply
    case None => down
    case Some(r) => F.Apply(down, F.Push(r))
  }

  predicate RepliesFit(c: Codec, sv: Services, msgs: seq<bytes>) {
    forall i :: 0 <= i < |msgs| ==> var r := Reply(c, sv, msgs[i]); r.Some? ==> F.Fits(r.value)
  }

  function Serve(c: Codec, sv: Services, down: F.Stream, msgs: seq<bytes>): F.Stream
    requires RepliesFit(c, sv, msgs)
    decreases |msgs|
  {
    if msgs == [] then down
    else
      assert forall i :: 0 <= i < |msgs[1..]| ==> msgs[1..][i] == msgs[i + 1];
      Serve(c, sv, PushReply(down, Reply(c, sv, msgs[0])), msgs[1..])
  }

  // ---------------------------------------------------------------- the client

  /** A finished call: which one, and the response bytes its closure was run with. */
  datatype Done = Done(call: nat, args: bytes)

  /** `pending` maps a message id to the number of the call that waits for it; `missed` says that
      a response named an id that nobody waits for, on which the library would fail. */
  datatype Client = Client(idAllocator: nat, pending: map<nat, nat>, done: seq<Done>, missed: bool) {

    function Start(call: nat): Client {
      Client((idAllocator + 1) % ID_RANGE, pending[idAllocator := call], done, missed)
    }

    function OnMessage(c: Codec, data: bytes): Client {
      match c.dec(data)
      case None => this
      case Some(m) =>
        if m.tp != RESPONSE then this
        else if m.id !in pending then this.(missed := true)
        else this.(pending := pending - {m.id}, done := done + [Done(pending[m.id], m.args)])
    }

    function OnMessages(c: Codec, msgs: seq<bytes>): Client
      decreases |msgs|
    {
      if msgs == [] then this else OnMessage(c, msgs[0]).OnMessages(c, msgs[1..])
    }
  }

  /** What a message does to the client: bytes that do not parse and requests are ignored, a response runs the
      closure that waits under its id, once and with its bytes, whatever its error code, and one that nobody
      waits for is where the library fails. */
  lemma MessageDoes(c: Codec, client: Client, m: RpcMessage)
    requires Invertible(c)
    ensures var after := client.OnMessage(c, c.enc(m));
            && (m.tp == REQUEST ==> after == client)
            && (m.tp == RESPONSE && m.id in client.pending ==>
                  after == Client(client.idAllocator, client.pending - {m.id},
                                  client.done + [Done(client.pending[m.id], m.args)], client.missed))
            && (m.tp == RESPONSE && m.id !in client.pending ==> after.missed && after.done == client.done)
  {
  }

  lemma NonsenseIgnored(c: Codec, sv: Services, client: Client, data: bytes)
    requires c.dec(data).None?
    ensures client.OnMessage(c, data) == client && Reply(c, sv, data) == None
  {
  }

  // ---------------------------------------------------------------- runs

  datatype State = State(calls: seq<Call>, client: Client, up: F.Stream, down: F.Stream)

  const START: State := State([], Client(0, map[], [], false), F.EMPTY, F.EMPTY)

  datatype Step =
    | Invoke(call: Call)
    | Up(step: F.Step)
    | Down(step: F.Step)

  function NewMessages(was: F.Stream, now: F.Stream): seq<bytes>
    requires |was.delivered| <= |now.delivered|
  {
    now.delivered[|was.delivered|..]
  }

  predicate Transport(step: F.Step) {
    step.Accept? || step.Recv?
  }

  lemma DeliveredGrows(s: F.Stream, step: F.Step)
    requires F.Enabled(s, step)
    ensures s.delivered <= F.Apply(s, step).delivered
  {
  }

  /** Fewer than 2^64 calls are outstanding, and no message reaches 4 GiB. */
  predicate Enabled(c: Codec, sv: Services, s: State, step: Step) {
    match step
    case Invoke(call) =>
      |s.calls| - |s.client.done| < ID_RANGE && F.Fits(c.enc(RequestOf(s.client.idAllocator, call)))
    case Up(st) =>
      Transport(st) && F.Enabled(s.up, st)
      && (DeliveredGrows(s.up, st); RepliesFit(c, sv, NewMessages(s.up, F.Apply(s.up, st))))
    case Down(st) => Transport(st) && F.Enabled(s.down, st)
  }

  function Apply(c: Codec, sv: Services, s: State, step: Step): State
    requires Enabled(c, sv, s, step)
  {
    match step
    case Invoke(call) =>
      State(s.calls + [call], s.client.Start(|s.calls|),
            F.Apply(s.up, F.Push(c.enc(RequestOf(s.client.idAllocator, call)))), s.down)
    case Up(st) =>
      DeliveredGrows(s.up, st);
      var up := F.Apply(s.up, st);
      s.(up := up, down := Serve(c, sv, s.down, NewMessages(s.up, up)))
    case Down(st) =>
      DeliveredGrows(s.down, st);
      var down := F.Apply(s.down, st);
      s.(down := down, client := s.client.OnMessages(c, NewMessages(s.down, down)))
  }

  predicate Runs(c: Codec, sv: Services, s: State, steps: seq<Step>)
    decreases |steps|
  {
    steps == [] || (Enabled(c, sv, s, steps[0]) && Runs(c, sv, Apply(c, sv, s, steps[0]), steps[1..]))
  }

  function After(c: Codec, sv: Services, s: State, steps: seq<Step>): State
    requires Runs(c, sv, s, steps)
    decreases |steps|
  {
    if steps == [] then s else After(c, sv, Apply(c, sv, s, steps[0]), steps[1..])
  }

  // ---------------------------------------------------------------- the invariant

  function IdOf(i: nat): nat {
    i % ID_RANGE
  }

  function RequestAt(calls: seq<Call>, i: nat): RpcMessage
    requires i < |calls|
  {
    RequestOf(IdOf(i), calls[i])
  }

  function ResponseAt(sv: Services, calls: seq<Call>, i: nat): (r: RpcMessage)
    requires i < |calls|
    ensures r.id == IdOf(i) && r.tp == RESPONSE
  {
    Respond(sv, RequestAt(calls, i))
  }

  /** The calls `lo` to `hi` are the ones waited for, each under its own id. */
  ghost predicate Waiting(pending: map<nat, nat>, lo: nat, hi: nat) {
    && (forall i :: lo <= i < hi ==> IdOf(i) in pending && pending[IdOf(i)] == i)
    && (forall k :: k in pending ==> lo <= pending[k] < hi && IdOf(pending[k]) == k)
  }

  /** The messages are the requests of the calls from number `n` on. */
  ghost predicate RequestsFrom(c: Codec, calls: seq<Call>, msgs: seq<bytes>, n: nat) {
    && n + |msgs| <= |calls|
    && forall i :: 0 <= i < |msgs| ==> msgs[i] == c.enc(RequestAt(calls, n + i))
  }

  /** The messages are the responses to the calls from number `n` on. */
  ghost predicate ResponsesFrom(c: Codec, sv: Services, calls: seq<Call>, msgs: seq<bytes>, n: nat) {
    && n + |msgs| <= |calls|
    && forall i :: 0 <= i < |msgs| ==> msgs[i] == c.enc(ResponseAt(sv, calls, n + i))
  }

  ghost predicate Completed(sv: Services, calls: seq<Call>, done: seq<Done>) {
    && |done| <= |calls|
    && forall i :: 0 <= i < |done| ==> done[i] == Done(i, ResponseAt(sv, calls, i).args)
  }

  /** Requests carry consecutive ids; responses answer the requests that arrived, in order; finished
      calls are the responses that arrived, in order; the ids in between are exactly the pending ones. */
  ghost predicate Matched(c: Codec, sv: Services, calls: seq<Call>, client: Client,
                          requests: seq<bytes>, arrived: nat, responses: seq<bytes>, finished: nat) {
    && !client.missed
    && client.idAllocator == IdOf(|calls|)
    && |requests| == |calls| && RequestsFrom(c, calls, requests, 0)
    && |responses| == arrived && ResponsesFrom(c, sv, calls, responses, 0)
    && |client.done| == finished && Completed(sv, calls, client.done)
    && Waiting(client.pending, finished, |calls|)
    && |calls| - finished <= ID_RANGE
  }

  ghost predicate Inv(c: Codec, sv: Services, s: State) {
    && F.Inv(s.up) && F.Inv(s.down)
    && Matched(c, sv, s.calls, s.client, s.up.pushed, |s.up.delivered|, s.down.pushed, |s.down.delivered|)
  }

  /** Ids of a window narrower than the range are distinct. */
  lemma IdsDistinct(i: nat, j: nat)
    requires i < j < i + ID_RANGE
    ensures IdOf(i) != IdOf(j)
  {
  }

  lemma WaitingAdd(pending: map<nat, nat>, lo: nat, hi: nat)
    requires Waiting(pending, lo, hi) && lo <= hi < lo + ID_RANGE
    ensures Waiting(pending[IdOf(hi) := hi], lo, hi + 1)
  {
    forall i | lo <= i < hi ensures IdOf(i) != IdOf(hi) {
      IdsDistinct(i, hi);
    }
  }

  lemma WaitingRemove(pending: map<nat, nat>, lo: nat, hi: nat)
    requires Waiting(pending, lo, hi) && lo < hi <= lo + ID_RANGE
    ensures Waiting(pending - {IdOf(lo)}, lo + 1, hi)
  {
    forall i | lo < i < hi ensures IdOf(i) != IdOf(lo) {
      IdsDistinct(lo, i);
    }
  }

  lemma NextId(n: nat)
    ensures (IdOf(n) + 1) % ID_RANGE == IdOf(n + 1)
  {
  }

  /** What was sent and finished stays what it was when a call is added. */
  lemma RequestsLonger(c: Codec, calls: seq<Call>, call: Call, up: seq<bytes>)
    requires RequestsFrom(c, calls, up, 0) && |up| == |calls|
    ensures RequestsFrom(c, calls + [call], up + [c.enc(RequestOf(IdOf(|calls|), call))], 0)
  {
    assert forall i :: 0 <= i < |calls| ==> RequestAt(calls + [call], i) == RequestAt(calls, i);
  }

  lemma ResponsesLonger(c: Codec, sv: Services, calls: seq<Call>, call: Call, down: seq<bytes>)
    requires ResponsesFrom(c, sv, calls, down, 0)
    ensures ResponsesFrom(c, sv, calls + [call], down, 0)
  {
    assert forall i :: 0 <= i < |calls| ==> ResponseAt(sv, calls + [call], i) == ResponseAt(sv, calls, i);
  }

  lemma CompletedLonger(sv: Services, calls: seq<Call>, call: Call, done: seq<Done>)
    requires Completed(sv, calls, done)
    ensures |done| <= |calls| && Completed(sv, calls + [call], done)
  {
    assert forall i :: 0 <= i < |calls| ==> ResponseAt(sv, calls + [call], i) == ResponseAt(sv, calls, i);
  }

  lemma MatchedInvoke(c: Codec, sv: Services, calls: seq<Call>, client: Client,
                      up: seq<bytes>, n: nat, down: seq<bytes>, k: nat, call: Call)
    requires Matched(c, sv, calls, client, up, n, down, k) && |calls| - k < ID_RANGE
    ensures Matched(c, sv, calls + [call], client.Start(|calls|),
                    up + [c.enc(RequestOf(client.idAllocator, call))], n, down, k)
  {
    hide Waiting;
    hide RequestsFrom;
    hide ResponsesFrom;
    hide Completed;
    hide RequestOf;
    CompletedLonger(sv, calls, call, client.done);
    WaitingAdd(client.pending, k, |calls|);
    NextId(|calls|);
    RequestsLonger(c, calls, call, up);
    ResponsesLonger(c, sv, calls, call, down);
  }

  lemma InvokeKeeps(c: Codec, sv: Services, s: State, call: Call)
    requires Inv(c, sv, s) && Enabled(c, sv, s, Invoke(call))
    ensures Inv(c, sv, Apply(c, sv, s, Invoke(call)))
  {
    F.PushKeeps(s.up, c.enc(RequestOf(s.client.idAllocator, call)));
    MatchedInvoke(c, sv, s.calls, s.client, s.up.pushed, |s.up.delivered|, s.down.pushed, |s.down.delivered|, call);
  }

  /** A step of a stream hands on the next of the messages pushed into it. */
  lemma NewMessagesArePushed(s: F.Stream, st: F.Step) returns (now: F.Stream)
    requires F.Inv(s) && F.Enabled(s, st) && Transport(st)
    ensures now == F.Apply(s, st) && F.Inv(now) && s.delivered <= now.delivered && now.pushed == s.pushed
    ensures var n := |s.delivered|;
            n + |NewMessages(s, now)| == |now.delivered| <= |s.pushed|
            && NewMessages(s, now) == s.pushed[n..|now.delivered|]
  {
    hide F.Inv;
    hide F.Deframe;
    now := F.Apply(s, st);
    DeliveredGrows(s, st);
    F.StepKeeps(s, st);
    F.InvSafe(now);
  }

  lemma RequestsSlice(c: Codec, calls: seq<Call>, pushed: seq<bytes>, lo: nat, hi: nat)
    requires RequestsFrom(c, calls, pushed, 0) && lo <= hi <= |pushed|
    ensures RequestsFrom(c, calls, pushed[lo..hi], lo)
  {
  }

  lemma ResponsesSlice(c: Codec, sv: Services, calls: seq<Call>, pushed: seq<bytes>, lo: nat, hi: nat)
    requires ResponsesFrom(c, sv, calls, pushed, 0) && lo <= hi <= |pushed|
    ensures ResponsesFrom(c, sv, calls, pushed[lo..hi], lo)
  {
  }

  lemma RequestsTail(c: Codec, calls: seq<Call>, msgs: seq<bytes>, n: nat)
    requires RequestsFrom(c, calls, msgs, n) && msgs != []
    ensures msgs[0] == c.enc(RequestAt(calls, n)) && RequestsFrom(c, calls, msgs[1..], n + 1)
  {
    assert forall i :: 0 <= i < |msgs[1..]| ==> msgs[1..][i] == msgs[i + 1];
  }

  lemma ResponsesTail(c: Codec, sv: Services, calls: seq<Call>, msgs: seq<bytes>, n: nat)
    requires ResponsesFrom(c, sv, calls, msgs, n) && msgs != []
    ensures msgs[0] == c.enc(ResponseAt(sv, calls, n)) && ResponsesFrom(c, sv, calls, msgs[1..], n + 1)
  {
    assert forall i :: 0 <= i < |msgs[1..]| ==> msgs[1..][i] == msgs[i + 1];
  }

  lemma ServeNext(c: Codec, sv: Services, calls: seq<Call>, down: F.Stream, n: nat)
    requires Invertible(c) && F.Inv(down) && ResponsesFrom(c, sv, calls, down.pushed, 0) && |down.pushed| == n < |calls|
    requires F.Fits(c.enc(ResponseAt(sv, calls, n)))
    ensures Reply(c, sv, c.enc(RequestAt(calls, n))) == Some(c.enc(ResponseAt(sv, calls, n)))
    ensures var down' := PushReply(down, Reply(c, sv, c.enc(RequestAt(calls, n))));
            && F.Inv(down') && ResponsesFrom(c, sv, calls, down'.pushed, 0)
            && |down'.pushed| == n + 1 && down'.delivered == down.delivered
  {
    var x := c.enc(ResponseAt(sv, calls, n));
    ReplyIs(c, sv, calls, n);
    F.PushKeeps(down, x);
    ResponsesGrow(c, sv, calls, down.pushed, x);
  }

  lemma ReplyIs(c: Codec, sv: Services, calls: seq<Call>, n: nat)
    requires Invertible(c) && n < |calls|
    ensures Reply(c, sv, c.enc(RequestAt(calls, n))) == Some(c.enc(ResponseAt(sv, calls, n)))
  {
  }

  lemma ResponsesGrow(c: Codec, sv: Services, calls: seq<Call>, pushed: seq<bytes>, x: bytes)
    requires ResponsesFrom(c, sv, calls, pushed, 0) && |pushed| < |calls|
    requires x == c.enc(ResponseAt(sv, calls, |pushed|))
    ensures ResponsesFrom(c, sv, calls, pushed + [x], 0)
  {
  }

  lemma {:induction false} ServeKeeps(c: Codec, sv: Services, calls: seq<Call>, down: F.Stream,
                                      msgs: seq<bytes>, n: nat)
    requires Invertible(c) && RepliesFit(c, sv, msgs) && F.Inv(down)
    requires ResponsesFrom(c, sv, calls, down.pushed, 0) && |down.pushed| == n
    requires RequestsFrom(c, calls, msgs, n)
    ensures var down' := Serve(c, sv, down, msgs);
            && F.Inv(down') && ResponsesFrom(c, sv, calls, down'.pushed, 0)
            && |down'.pushed| == n + |msgs| && down'.delivered == down.delivered
    decreases |msgs|
  {
    hide F.Inv;
    hide ResponsesFrom;
    hide RequestAt;
    hide ResponseAt;
    hide Reply;
    hide PushReply;
    if msgs != [] {
      RequestsTail(c, calls, msgs, n);
      RepliesTail(c, sv, msgs);
      ReplyIs(c, sv, calls, n);
      ServeNext(c, sv, calls, down, n);
      ServeKeeps(c, sv, calls, PushReply(down, Reply(c, sv, msgs[0])), msgs[1..], n + 1);
    }
  }

  lemma RepliesTail(c: Codec, sv: Services, msgs: seq<bytes>)
    requires RepliesFit(c, sv, msgs) && msgs != []
    ensures RepliesFit(c, sv, msgs[1..])
    ensures Reply(c, sv, msgs[0]).Some? ==> F.Fits(Reply(c, sv, msgs[0]).value)
  {
    assert forall i :: 0 <= i < |msgs[1..]| ==> msgs[1..][i] == msgs[i + 1];
  }

  lemma UpKeeps(c: Codec, sv: Services, s: State, st: F.Step)
    requires Invertible(c) && Inv(c, sv, s) && Enabled(c, sv, s, Up(st))
    ensures Inv(c, sv, Apply(c, sv, s, Up(st)))
  {
    var up := NewMessagesArePushed(s.up, st);
    RequestsSlice(c, s.calls, s.up.pushed, |s.up.delivered|, |up.delivered|);
    ServeKeeps(c, sv, s.calls, s.down, NewMessages(s.up, up), |s.up.delivered|);
  }

  lemma OnMessageNext(c: Codec, sv: Services, calls: seq<Call>, client: Client, n: nat)
    requires Invertible(c) && !client.missed && |client.done| == n < |calls| <= n + ID_RANGE
    requires Completed(sv, calls, client.done) && Waiting(client.pending, n, |calls|)
    ensures var client' := client.OnMessage(c, c.enc(ResponseAt(sv, calls, n)));
            && !client'.missed && client'.idAllocator == client.idAllocator
            && |client'.done| == n + 1 && Completed(sv, calls, client'.done)
            && Waiting(client'.pending, n + 1, |calls|)
  {
    WaitingRemove(client.pending, n, |calls|);
  }

  lemma {:induction false} OnMessagesKeeps(c: Codec, sv: Services, calls: seq<Call>, client: Client,
                                           msgs: seq<bytes>, n: nat)
    requires Invertible(c) && !client.missed && |client.done| == n && |calls| - n <= ID_RANGE
    requires Completed(sv, calls, client.done) && Waiting(client.pending, n, |calls|)
    requires ResponsesFrom(c, sv, calls, msgs, n)
    ensures var client' := client.OnMessages(c, msgs);
            && !client'.missed && client'.idAllocator == client.idAllocator
            && |client'.done| == n + |msgs| && Completed(sv, calls, client'.done)
            && Waiting(client'.pending, n + |msgs|, |calls|)
    decreases |msgs|
  {
    if msgs != [] {
      ResponsesTail(c, sv, calls, msgs, n);
      OnMessageNext(c, sv, calls, client, n);
      OnMessagesKeeps(c, sv, calls, client.OnMessage(c, msgs[0]), msgs[1..], n + 1);
    }
  }

  lemma DownKeeps(c: Codec, sv: Services, s: State, st: F.Step)
    requires Invertible(c) && Inv(c, sv, s) && Enabled(c, sv, s, Down(st))
    ensures Inv(c, sv, Apply(c, sv, s, Down(st)))
  {
    var down := NewMessagesArePushed(s.down, st);
    ResponsesSlice(c, sv, s.calls, s.down.pushed, |s.down.delivered|, |down.delivered|);
    OnMessagesKeeps(c, sv, s.calls, s.client, NewMessages(s.down, down), |s.down.delivered|);
  }

  lemma {:induction false} RunKeeps(c: Codec, sv: Services, s: State, steps: seq<Step>)
    requires Invertible(c) && Inv(c, sv, s) && Runs(c, sv, s, steps)
    ensures Inv(c, sv, After(c, sv, s, steps))
    decreases |steps|
  {
    if steps != [] {
      match steps[0] {
        case Invoke(call) => InvokeKeeps(c, sv, s, call);
        case Up(st) => UpKeeps(c, sv, s, st);
        case Down(st) => DownKeeps(c, sv, s, st);
      }
      RunKeeps(c, sv, Apply(c, sv, s, steps[0]), steps[1..]);
    }
  }

  predicate Drained(s: F.Stream) {
    s.sender.queue == [] && s.wire == [] && s.buf == []
  }

  /** In every run: no response is ever unexpected; the finished calls are the first ones, in call
      order, each once and with what the method it named made of its arguments; the pending ids are exactly
      those of the others, all different; and when both connections are drained, every call is finished. */
  lemma CallsMatched(c: Codec, sv: Services, steps: seq<Step>)
    requires Invertible(c) && Runs(c, sv, START, steps)
    ensures var s := After(c, sv, START, steps);
            && !s.client.missed
            && |s.client.done| <= |s.up.delivered| <= |s.calls|
            && (forall i :: 0 <= i < |s.client.done| ==> s.client.done[i] == Done(i, AnswerTo(sv, s.calls[i])))
            && s.client.pending.Keys == (set i | |s.client.done| <= i < |s.calls| :: IdOf(i))
            && (forall i, j :: |s.client.done| <= i < j < |s.calls| ==> IdOf(i) != IdOf(j))
            && (Drained(s.up) && Drained(s.down) ==> |s.client.done| == |s.calls|)
  {
    F.InitInv();
    RunKeeps(c, sv, START, steps);
    var s := After(c, sv, START, steps);
    F.InvSafe(s.up);
    F.InvSafe(s.down);
    WaitingIsKeys(s.client.pending, |s.client.done|, |s.calls|);
    AnswersCome(sv, s.calls, s.client.done);
    forall i, j | |s.client.done| <= i < j < |s.calls| ensures IdOf(i) != IdOf(j) {
      IdsDistinct(i, j);
    }
  }

  lemma AnswersCome(sv: Services, calls: seq<Call>, done: seq<Done>)
    requires Completed(sv, calls, done)
    ensures forall i :: 0 <= i < |done| ==> i < |calls| && done[i] == Done(i, AnswerTo(sv, calls[i]))
  {
    hide Respond;
    hide RequestOf;
    hide AnswerTo;
    hide ErrorOf;
    forall i | 0 <= i < |done| ensures ResponseAt(sv, calls, i).args == AnswerTo(sv, calls[i]) {
      CallAnswered(sv, IdOf(i), calls[i]);
    }
  }

  /** The requests on the wire: one for each call, its parts where they belong. */
  ghost predicate RequestsSent(c: Codec, calls: seq<Call>, msgs: seq<bytes>) {
    && |msgs| == |calls|
    && forall i :: 0 <= i < |msgs| ==>
         msgs[i] == c.enc(RpcMessage(i % 0x1_0000_0000_0000_0000, REQUEST,
                                     calls[i].service, calls[i].method_, calls[i].args, SUCCESS))
  }

  /** The responses: one for each request that has arrived, with its result or error. */
  ghost predicate ResponsesSent(c: Codec, sv: Services, calls: seq<Call>, msgs: seq<bytes>) {
    && |msgs| <= |calls|
    && forall i :: 0 <= i < |msgs| ==>
         msgs[i] == c.enc(RpcMessage(i % 0x1_0000_0000_0000_0000, RESPONSE, "", "",
                                     AnswerTo(sv, calls[i]), ErrorOf(sv, calls[i])))
  }

  /** In every run: what has been sent each way, message by message. */
  lemma MessagesSent(c: Codec, sv: Services, steps: seq<Step>)
    requires Invertible(c) && Runs(c, sv, START, steps)
    ensures var s := After(c, sv, START, steps);
            RequestsSent(c, s.calls, s.up.pushed) && ResponsesSent(c, sv, s.calls, s.down.pushed)
  {
    hide Runs;
    hide After;
    hide F.Inv;
    hide RequestsFrom;
    hide ResponsesFrom;
    hide Completed;
    hide Waiting;
    hide RequestsSent;
    hide ResponsesSent;
    F.InitInv();
    StartInv(c, sv);
    RunKeeps(c, sv, START, steps);
    var s := After(c, sv, START, steps);
    RequestsAre(c, s.calls, s.up.pushed);
    ResponsesAre(c, sv, s.calls, s.down.pushed);
  }

  lemma StartInv(c: Codec, sv: Services)
    ensures Inv(c, sv, START)
  {
    F.InitInv();
  }

  lemma RequestsAre(c: Codec, calls: seq<Call>, msgs: seq<bytes>)
    requires RequestsFrom(c, calls, msgs, 0) && |msgs| == |calls|
    ensures RequestsSent(c, calls, msgs)
  {
  }

  lemma ResponsesAre(c: Codec, sv: Services, calls: seq<Call>, msgs: seq<bytes>)
    requires ResponsesFrom(c, sv, calls, msgs, 0)
    ensures ResponsesSent(c, sv, calls, msgs)
  {
    hide Respond;
    hide RequestOf;
    hide AnswerTo;
    hide ErrorOf;
    forall i | 0 <= i < |msgs|
      ensures ResponseAt(sv, calls, i) == RpcMessage(IdOf(i), RESPONSE, "", "",
                                                     AnswerTo(sv, calls[i]), ErrorOf(sv, calls[i]))
    {
      CallAnswered(sv, IdOf(i), calls[i]);
    }
  }

  lemma WaitingIsKeys(pending: map<nat, nat>, lo: nat, hi: nat)
    requires Waiting(pending, lo, hi)
    ensures pending.Keys == set i | lo <= i < hi :: IdOf(i)
  {
    forall k | k in pending ensures k in (set i | lo <= i < hi :: IdOf(i)) {
      assert lo <= pending[k] < hi && IdOf(pending[k]) == k;
    }
  }
}
