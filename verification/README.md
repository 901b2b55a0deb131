# Verified model of the asio-style network library

A Dafny model of the stateful parts of the library: the incremental HTTP/1.x parser and the request
printer, the framed message stream with RPC call matching on top, the timer service, the reactor
with its socket operations, the binary codecs, and the task bridge between threads. Everything the
source does by updating fields in place is a class here, and each method is proved against a
function of the old state; the theorems are about those functions and about whole runs of them.

| layer | files |
|---|---|
| HTTP scanners, methods, message | `HttpText.dfy`, `HttpMethods.dfy`, `HttpMessage.dfy` |
| HTTP parser: functions and class | `HttpParserSpec.dfy`, `HttpParser.dfy` |
| HTTP theorems: cuts | `HttpFront.dfy`, `HttpSegmentation.dfy`, `HttpExample.dfy` |
| HTTP theorems: what is accepted, by lines and by fields | `HttpGrammar.dfy`, `HttpTokens.dfy`, `HttpSyntax.dfy` |
| HTTP theorems: what is refused, what throws, what waits | `HttpRefusal.dfy` |
| HTTP theorems: round trips, delivery | `HttpRoundTrip.dfy`, `HttpDelivery.dfy` |
| HTTP over a connection | `HttpStream.dfy`, `HttpConnection.dfy` |
| byte buffer, framed stream, connection | `Bytes.dfy`, `DynamicBuffer.dfy`, `FramedStream.dfy`, `Connection.dfy` |
| RPC | `RpcMatching.dfy`, `Rpc.dfy` |
| timers | `TimerModel.dfy`, `TimerService.dfy` |
| reactor, sockets | `ReactorModel.dfy`, `ReactorService.dfy`, `TcpSocketModel.dfy`, `TcpSocket.dfy` |
| codecs | `Varint.dfy`, `Zigzag.dfy`, `Tlv.dfy`, `TlvParser.dfy` |
| task bridge | `BridgeModel.dfy`, `BridgeService.dfy` |
| small shared facts | `Wrappers.dfy`, `Seqs.dfy`, `Modular.dfy` |

`dafny verify dfyconfig.toml` checks the whole project.

## How the environment appears

System calls are parameters and small kernel models: the epoll interest set is a map, a registration
the kernel denies is a parameter, the timerfd is an armed deadline and expiry, the eventfd is a
counter that saturates, a byte connection is a first-in first-out sequence, the clock is a number of
nanoseconds that only grows. HTTP text is `seq<char>` with a character for each byte; the binary parts
use numbers 0 to 255. The header map's enumeration order is a parameter of the printer. Serialising
an RPC message is an invertible pair of functions; a service method is a function of its argument bytes.

## Where the code does not do what it is for

Each of these is proved with the exact condition under which the code is right.

* A trailer section behind the zero chunk is skipped when it is wholly there in the call that reads
  the zero chunk, but the zero size line is consumed before the trailer is complete, so that a later
  call takes a trailer line for a size line. The result is independent of how the bytes are cut if and
  only if they are `Steady`: behind the zero size line there is no whole line yet, or the empty line, or
  lines that a chunk loop would consume just as well; and a size line whose sum wraps around has no
  further one behind it (`HttpSegmentation.SegmentationExact`, for all data, finished or not). For
  well-formed messages this says: if and only if there are no trailer lines (`HttpDelivery.WireSegmentation`,
  and `HttpDelivery.ChunkedDelivered` for the printed form; `HttpExample.TrailerCutRefused` is one).
* A request is restored from its print if and only if it is `Transmittable`: known method and version,
  clean header keys and values (no spaces, since trimming keeps one token, and no line ends), not declared
  chunked, and a Content-Length, if any, equal to the body's length (`HttpRoundTrip.RequestRoundTrip`).
* A write that fails after part of a frame has gone out drops the rest of that frame and goes on, and the
  receiver loses its place; every error-free continuation delivers a prefix of what was pushed if and only
  if no byte of the dropped frame had gone out (`FramedStream.FailExact`, with `FramedStream.FailMidMessage`
  as the instance).
* Cancelling all operations runs the read callback before it looks at the write slot. The kernel's
  interest stays right if and only if that callback has not re-armed writing on the same descriptor
  (`ReactorModel.CancelAllWriteExact`, `ReactorModel.RearmDuringCancelAll`).
* A timer whose timeout is negative can be due before timers that have already run. Callbacks run in order
  if and only if no timer runs that was overtaken in this way when it was registered, which a caller sees
  by comparing deadlines (`TimerModel.OrderExact`); without negative timeouts none is
  (`TimerModel.TimersFireInOrder`). With the clock at 5 ms, timeouts 0 and then -3 break the order
  (`TimerModel.NegativeTimeoutOvertaken`).
* A hang-up runs the callback of an operation and leaves it registered, so that it may run again. Each
  operation's callback runs once if and only if no hang-up met a registered operation
  (`TcpSocketModel.OneCallbackEach`, with `TcpSocketModel.HangUpTellsTwice` as the instance).
* A deadline of exactly 0 cannot be armed, since 0 means to disarm. The kernel timer is armed for the least
  deadline, in time, exactly while a timer is live, if and only if the least deadline is not 0
  (`TimerModel.AlarmExact`); a timeout of minus the clock's reading makes it so, and no timer then wakes the
  service (`TimerModel.ZeroDeadlineSleeps`). Without a registration for the millisecond 0 it never is
  (`TimerModel.AlwaysArmed`).
* The example server parses once behind each read, so that messages which arrive together wait, all but the
  first, for further bytes (`HttpStream.OneReadStalls`); none is lost (`HttpStream.OnceConserves`).
* The RPC client does not look at the error code of a response, so that a call that the server refused ends
  with empty arguments (`RpcMatching.MessageDoes`, `RpcMatching.CallsMatched`).
* Zigzag is not a bijection at the least value of the 32-bit and 64-bit types, where the C++ negation
  overflows; the model lets it wrap around. Encoding it is then right (`Zigzag.EncodeIs`); only decoding
  loses it (`Zigzag.DecodeEncode`, `Zigzag.EncodeDecode`).
* A TLV message whose value is shorter than its declared length prints nothing, and a longer value is
  cut (`Tlv.DumpRoundTrip`, `Tlv.StreamRoundTrip`).

## Model

| member | source | states |
|---|---|---|
| `HttpText.Crlf` | protocol/src/http/parser.cc:143-157 | finds the first line end of the buffer, or that there is none; no two-byte line end is missed across a repeated CR |
| `HttpText.LineSplit` | protocol/src/http/parser.cc:25-51 | the scanning loop gives the three fields of a line, or refuses it, as `SplitLine` says |
| `HttpText.SplitLineJoins` | protocol/src/http/parser.cc:25-51 | splitting undoes joining with single spaces if and only if no field holds a space and the third is not empty |
| `HttpText.SplitLineFields` | protocol/src/http/parser.cc:25-51 | whatever is split is the joining of its fields |
| `HttpText.TrimInPlace` | protocol/src/http/parser.cc:53-69 | the two trimming scans leave `Trim` of the text |
| `HttpText.TrimKeeps` | protocol/src/http/parser.cc:53-69 | a text is kept by trimming exactly when it holds no space, with or without a space in front |
| `HttpText.HeaderSplit` | protocol/src/http/parser.cc:71-90 | the colon scan gives key and value, or refuses the line, as `SplitHeader` says |
| `HttpText.SplitHeaderJoins` | protocol/src/http/parser.cc:71-90 | a printed header line splits back into key and value if and only if neither holds a space and the key no colon |
| `HttpText.SplitHeaderClean` | protocol/src/http/parser.cc:71-90 | whatever a header line is split into holds no space, no line end, and no colon in the key |
| `HttpText.AtoiReadsDecimal` | protocol/src/http/parser.cc:447 | the decimal print of a body length is read back as that length |
| `HttpText.ReadChunkSize` | protocol/src/http/parser.cc:281-299 | the hexadecimal loop, stopping at a semicolon, computes the chunk size with size_t wrap-around |
| `HttpText.ChunkSizeReadsHex` | protocol/src/http/parser.cc:281-299 | every size below 2^64, printed in either case and with any extension, is read back, and its line is one line |
| `HttpMethods.MethodRoundTrip` | protocol/src/http/request.cc:9-25 | no two methods share a name, so each is read back from its name |
| `HttpMethods.FirstNamed` | protocol/src/http/request.cc:18-25 | the lookup answers a method of that name, and INVALID only if the table holds none |
| `HttpMethods.NameTable` | protocol/src/http/request.h:15-56 | the thirty-four names, spelled out, each with the code of its method; no other method has a name |
| `HttpTokens.KnownCodes` | protocol/src/http/response.h:13-72 | the status codes of the table, listed |
| `HttpTokens.CharacterClasses` | protocol/src/http/parser.cc:281-299 | digits, white space and hexadecimal digits, listed |
| `HttpTokens.HexDigitValues` | protocol/src/http/parser.cc:281-299 | the value of each hexadecimal digit, in both cases |
| `HttpMessage.VersionRoundTrip` | protocol/src/http/message.cc:7-27 | each version other than the error value is read back from its text |
| `HttpMessage.Message.SetHeader` | protocol/src/http/message.cc:101-104 | the header map is updated at one key, everything else unchanged |
| `HttpMessage.Message.RemoveHeader` | protocol/src/http/message.cc:96-99 | one key leaves the header map, everything else unchanged |
| `HttpMessage.Message.Clear` | protocol/src/http/request.cc:59-64 | the message is as new |
| `HttpMessage.Message.Dump` | protocol/src/http/request.cc:66-82 | the appending loop prints start line, the headers in enumeration order, an empty line and the body |
| `HttpExample.PrintExample` | protocol/src/http/request.cc:66-82 | a request with two headers and a body, printed, byte by byte |
| `HttpParser.ParseLineInto` | protocol/src/http/parser.cc:161-187 | the start line is read into the message object exactly as `ParseLine` says, or nothing changes |
| `HttpParser.ParseHeaderInto` | protocol/src/http/parser.cc:189-220 | the header loop terminates and agrees with the recursive `ParseHeader` in verdict, bytes consumed and headers stored, also when it stops for want of data |
| `HttpParser.ReadSizeLine` | protocol/src/http/parser.cc:270-309 | one size line: the verdict, the length of the line and the size that the chunk loop goes on with |
| `HttpParser.Parser.SkipTrailer` | protocol/src/http/parser.cc:311-341 | the trailer loop agrees with `ParseTrailer` |
| `HttpParser.Parser.TakeChunk` | protocol/src/http/parser.cc:343-356 | a chunk is appended to the body accumulator, or refused, or throws, by its size and line end |
| `HttpParser.Parser.ReadChunks` | protocol/src/http/parser.cc:267-360 | the chunk loop terminates and agrees with `ParseChunks` in verdict, bytes consumed and accumulated body |
| `HttpParser.Parser.ReadBody` | protocol/src/http/parser.cc:222-360 | both framings: agreement with `ParseBody` |
| `HttpParser.Parser.Parse` | protocol/src/http/parser.cc:416-496 | a call changes tag, offset, framing fields, accumulator and message exactly as `Resume` says and returns its verdict; it terminates on every input |
| `HttpParser.Parser.Reset` | protocol/src/http/parser.cc:402-409 | the parser is as new |
| `HttpParserSpec.Resume` | protocol/src/http/parser.cc:416-496 | the offset never decreases and never passes the end of the data; in length mode the accumulator stays below the declared length between calls |
| `HttpParserSpec.WholeChunk` | protocol/src/http/parser.cc:343-356 | a complete chunk is consumed, and its data appended, whatever follows it |
| `HttpSegmentation.CallContinues` | protocol/src/http/parser.cc:416-496 | if the whole is steady, a call on a prefix followed by a call on the whole ends as one call on the whole: same verdict and message, same offset and body so far unless it is an error; a final verdict on a prefix is final in any case |
| `HttpSegmentation.VerdictStable` | protocol/src/http/parser.cc:416-496 | a verdict other than WAITING_DATA does not change when bytes are appended |
| `HttpSegmentation.SegmentationIndependence` | protocol/src/http/parser.cc:416-496 | for steady data and every list of growing prefixes, called until the first final verdict, the run ends as one call on the whole |
| `HttpSegmentation.SegmentationExact` | protocol/src/http/parser.cc:267-360 | for all data, finished or not, and every parser state: all cuts agree with one call on the whole if and only if the data is steady, a condition on its bytes |
| `HttpSegmentation.CutShows` | protocol/src/http/parser.cc:301-341 | if it is not, there is a cut that the caller sees in the verdict, the message, the offset or the body so far |
| `HttpExample.TrailerCutRefused` | protocol/src/http/parser.cc:301-341 | a chunked request with the trailer line A:b is accepted by one call, and refused when the first of two calls ends behind the key of that line |
| `HttpFront.FrontExtends` | protocol/src/http/parser.cc:267-360 | what stands in front of chunked data, once it is not merely short, is the same with more bytes behind it |
| `HttpTokens.SizeRead` | protocol/src/http/parser.cc:281-299 | hexadecimal digits, none of them included, up to an optional semicolon, are read as their value modulo 2^64; so a bare extension is a size of 0 |
| `HttpTokens.SizeSplits` | protocol/src/http/parser.cc:281-299 | every size line that is accepted is written so |
| `HttpTokens.DeclaresAtoi` | protocol/src/http/parser.cc:447 | spaces, an optional sign and digits, written in one maximal way, declare exactly the length that is read |
| `HttpTokens.FieldRead` | protocol/src/http/parser.cc:53-90 | key and value, with the spaces and further words that trimming drops around them, are read from a field line |
| `HttpTokens.FieldSplits` | protocol/src/http/parser.cc:53-90 | every field line that is accepted is written so |
| `HttpTokens.StartRead` | protocol/src/http/parser.cc:92-141 | method, path and version, or version, code and phrase, each between single spaces, are read from a start line |
| `HttpTokens.StartSplits` | protocol/src/http/parser.cc:92-141 | every start line that is accepted is written so, and sets those fields |
| `HttpSyntax.Complete` | protocol/src/http/parser.cc:161-360 | every well-formed message, followed by any bytes, is accepted, its own bytes exactly are consumed, and its meaning is delivered |
| `HttpSyntax.Sound` | protocol/src/http/parser.cc:161-360 | whatever is accepted is a well-formed message with that meaning and that length |
| `HttpSyntax.AcceptsExactly` | protocol/src/http/parser.cc:161-360 | a fresh parser accepts `n` bytes of its data with a result if and only if they are the text of a well-formed message that means it; text, well-formedness and meaning are defined without the parser |
| `HttpRefusal.ShapeDecides` | protocol/src/http/parser.cc:161-360 | data of each shape - where the good part ends, and what stands there - has the verdict, the offset, the body so far and the message of that shape |
| `HttpRefusal.EveryShape` | protocol/src/http/parser.cc:161-360 | all data has a shape |
| `HttpRefusal.RefusesExactly` | protocol/src/http/parser.cc:416-496 | a fresh parser refuses its data if and only if, behind a good part, a whole line is no start line or no field, or an empty line, a line that is no size or data without a line end behind it stands where a chunk should |
| `HttpRefusal.ThrowsExactly` | protocol/src/http/parser.cc:222-360 | it throws if and only if the declared length is negative or a chunk size within the data is less than two below 2^64 |
| `HttpRefusal.WaitsExactly` | protocol/src/http/parser.cc:416-496 | it waits if and only if everything there is good and something is missing |
| `HttpRoundTrip.RequestRoundTrip` | protocol/src/http/request.cc:66-82 | parsing a printed request, its headers in any order and any bytes behind it, restores it and consumes its text exactly, if and only if the request is transmittable |
| `HttpRoundTrip.PrintedLengthDeclares` | protocol/src/http/parser.cc:447 | a Content-Length printed from a body below 2^31 bytes declares that length |
| `HttpRoundTrip.ChunkedRoundTrip` | examples/protocol_examples/http_examples/chunked_client.py:233-258 | any non-empty pieces, printed as chunks in either case with any extensions and a trailer section, come back joined; the offset stands exactly behind the terminator |
| `HttpDelivery.WireSegmentation` | protocol/src/http/parser.cc:267-360 | for a well-formed message and any bytes behind it, cuts do not matter if and only if no trailer lines follow its zero chunk |
| `HttpDelivery.WireDelivered` | protocol/src/http/parser.cc:267-360 | it is delivered with its meaning and its length, however it is cut, if and only if it has no trailer lines |
| `HttpDelivery.MessageSegmentation` | protocol/src/http/parser.cc:267-360 | the same condition for messages written without the scanners |
| `HttpDelivery.MessageDelivered` | protocol/src/http/parser.cc:267-360 | and the same delivery |
| `HttpDelivery.RequestDelivered` | protocol/src/http/request.cc:66-82 | a transmittable request, printed and cut up in any way, is restored and its end found |
| `HttpDelivery.ChunkedDelivered` | examples/protocol_examples/http_examples/chunked_client.py:233-258 | a chunked request, cut up in any way, is restored if and only if it has no trailer lines |
| `HttpDelivery.LateTestExact` | protocol/src/http/parser.cc:301-345 | behind an accepted size line the second length test fires exactly when line, size and line end add up past 2^64 |
| `HttpStream.StreamIndependence` | protocol/src/http/parser.cc:402-496 | parse, drop, clear and reset until the parser waits, run behind each piece of a steady stream, give the messages, state and unread bytes of one pass over all the bytes |
| `HttpStream.WiresDelivered` | protocol/src/http/parser.cc:402-496 | any well-formed messages without trailer lines and an unfinished one, cut anywhere, come out in order with their meanings, and the unfinished bytes are left |
| `HttpStream.MessagesDelivered` | protocol/src/http/parser.cc:402-496 | the same for messages written without the scanners |
| `HttpStream.RequestsDelivered` | protocol/src/http/request.cc:66-82 | any transmittable requests printed in a row, and the beginning of another, cut anywhere, come out in order, and the beginning is left |
| `HttpStream.OnceConserves` | examples/protocol_examples/http_examples/http_connection.cc:38-74 | with one parse behind each read, what was handed on and what the full loop would take from the buffer are the messages of the stream; a message of version 1.0 ends it early |
| `HttpStream.WiresOnce` | examples/protocol_examples/http_examples/http_connection.cc:38-74 | so well-formed messages are handed on in order, and those that are not are still in the buffer |
| `HttpStream.OneReadStalls` | examples/protocol_examples/http_examples/http_connection.cc:38-74 | messages that arrive in one read wait, all but the first, until something else arrives |
| `HttpStream.OnceCloses` | examples/protocol_examples/http_examples/http_connection.cc:38-74 | reading ends for a finished message exactly at the first of version 1.0 |
| `HttpConnections.HttpConnection.OnRead` | examples/protocol_examples/http_examples/http_connection.cc:38-74 | a read parses once, hands a ready request on, drops its bytes and starts anew, as in the stream model; a refusal or a request of version 1.0 ends reading |
| `Bytes.BigEndianRoundTrip` | rpc/src/channel.cc:82-86 | a number written in network order is read back if and only if it fits the width |
| `Bytes.BigEndianAt` | rpc/src/channel.cc:82-86 | where each byte of a number goes in network order |
| `Bytes.LittleEndianAt` | asio/src/dynamic_buffer.cc:90-93 | and in the order of the host |
| `DynamicBuffers.DynamicBuffer.Read` | asio/src/dynamic_buffer.cc:30-38 | the first bytes leave the content; an emptied buffer goes back to its front |
| `DynamicBuffers.DynamicBuffer.Write` | asio/src/dynamic_buffer.cc:40-43 | stored bytes join the content at its end |
| `DynamicBuffers.DynamicBuffer.MoveToFront` | asio/src/dynamic_buffer.cc:73-77 | the move to the front is right although source and destination overlap |
| `DynamicBuffers.DynamicBuffer.Reserve` | asio/src/dynamic_buffer.cc:60-78 | the content is kept and strictly more than the asked bytes are free: nothing happens if they were, the content moves to the front if that is enough, and else the vector grows by whole steps |
| `DynamicBuffers.DynamicBuffer.ReadBegin` | asio/src/dynamic_buffer.cc:25-28 | the read position is always inside the buffer, so the access never fails |
| `DynamicBuffers.DynamicBuffer.ReadAllToString` | asio/src/dynamic_buffer.cc:80-86 | returns the whole content and leaves none |
| `DynamicBuffers.DynamicBuffer.WriteValue` | asio/src/dynamic_buffer.cc:90-93 | the bytes of a typed value join the content |
| `DynamicBuffers.DynamicBuffer.ReadValue` | asio/src/dynamic_buffer.cc:139-145 | the value in front is returned and leaves the content, if the content is long enough |
| `DynamicBuffers.DynamicBuffer.PeekValue` | asio/src/dynamic_buffer.cc:191-196 | the value at an offset is returned, exactly if the content reaches that far, and nothing changes |
| `DynamicBuffers.TypedQueue` | asio/src/dynamic_buffer.cc:90-145 | any values of any widths, written one after the other and read back with the same widths, come back in order, and the bytes behind them remain |
| `DynamicBuffers.WriteAll` | asio/src/dynamic_buffer.cc:90-137 | writing typed values to a buffer one after the other appends their bytes to its content |
| `DynamicBuffers.ReadAll` | asio/src/dynamic_buffer.cc:139-189 | reading typed values from a buffer takes them off the front of its content, up to the first that is not all there |
| `DynamicBuffers.PassThrough` | asio/src/dynamic_buffer.cc:90-189 | on a buffer, values written, then others, then read back with the widths of the first, come out as they went in and leave the others |
| `FramedStream.FrameInFront` | rpc/src/channel.cc:82-86 | a frame in front of any bytes is cut off exactly when its message fits the length prefix |
| `FramedStream.FrameLayout` | rpc/src/channel.cc:82-86 | a frame is four bytes of length in network order, spelled out, and the message; a message fits below 2^32 bytes |
| `FramedStream.DeframeFrames` | rpc/src/details/connection.cc:80-113 | deframing printed messages gives these messages and goes on with what follows |
| `FramedStream.DeframeAppend` | rpc/src/details/connection.cc:80-113 | deframing what arrives in two helpings is deframing all of it |
| `FramedStream.DeframeConserves` | rpc/src/details/connection.cc:80-113 | the messages handed on, framed again, and the rest are the bytes received |
| `FramedStream.AcceptSends` | asio/src/ip/details/tcp_socket.cc:84-123 | a partial write moves a prefix of the outstanding bytes, and the sender goes to the next element exactly when the view is used up |
| `FramedStream.FailInvExact` | rpc/src/details/connection.cc:125-132 | after a failed write the stream invariant holds if and only if none of the dropped element had been accepted |
| `FramedStream.FailExact` | rpc/src/details/connection.cc:125-132 | after a failed write every error-free continuation delivers a prefix of what was pushed if and only if none of the dropped element had been accepted |
| `FramedStream.FailShows` | rpc/src/details/connection.cc:125-132 | otherwise there is an error-free continuation after which a message was delivered that was not sent in its place |
| `FramedStream.FailMidMessage` | rpc/src/details/connection.cc:125-132 | two messages on which a failed write makes the receiver deliver a message that nobody sent |
| `FramedStream.RunKeeps` | rpc/src/details/connection.cc:35-132 | every run of sends, partial writes, failures before any byte and receipts of any size keeps the invariant |
| `FramedStream.EndToEnd` | rpc/src/details/connection.cc:35-132 | in every error-free run the messages delivered are a prefix of those sent, and all of them once queue, wire and buffer are empty |
| `Connections.Connection.Send` | rpc/src/details/connection.cc:35-43 | the element joins the queue, and a write operation is armed exactly if none was |
| `Connections.Connection.OnWritable` | asio/src/ip/details/tcp_socket.cc:84-123 | a partial write is a step of the stream model and returns the bytes it took |
| `Connections.Connection.OnWriteError` | rpc/src/details/connection.cc:125-132 | a failed write is the dropping step of the stream model |
| `Connections.Connection.StartRecv` | rpc/src/details/connection.cc:25-33 | room for a read is made, the received bytes are kept |
| `Connections.Connection.NextMessage` | rpc/src/details/connection.cc:80-113 | one whole frame is cut off the buffer if and only if there is one |
| `Connections.Connection.OnRecvMessage` | rpc/src/details/connection.cc:80-113 | the deframing loop hands on exactly the messages of `Deframe` and leaves its rest |
| `RpcMatching.IdsDistinct` | rpc/src/channel.cc:65-77 | call ids wrap around at 2^64 and are distinct within any narrower window |
| `RpcMatching.ServeKeeps` | rpc/src/server.cc:108-193 | serving a batch of requests pushes one response for each, in order, under the id of the request |
| `RpcMatching.RunKeeps` | rpc/src/channel.cc:55-137 | every run of calls and of both byte streams keeps requests, responses and pending ids matched |
| `RpcMatching.CallsMatched` | rpc/src/channel.cc:55-137 | in every run no response is unexpected; finished calls are the first ones in call order, each once and with what the method it named made of its arguments (nothing, if there is no such service or method or it refused them); pending ids are exactly those of the others, all different; drained connections mean every call is finished |
| `RpcMatching.MessagesSent` | rpc/src/channel.cc:55-87 | in every run the requests sent are, field by field, those of the calls, and the responses sent are, field by field, their answers |
| `RpcMatching.CallAnswered` | rpc/src/server.cc:108-193 | a request is answered with its own id and the result of the method it names on its arguments, or with the error for the first thing that is missing |
| `RpcMatching.OthersRefused` | rpc/src/server.cc:112-115 | a message that is no request is answered with an error |
| `RpcMatching.MessageDoes` | rpc/src/channel.cc:113-137 | a response runs the closure that waits under its id with its arguments, whatever its error code; a request is ignored; a response nobody waits for is marked |
| `RpcMatching.NonsenseIgnored` | rpc/src/channel.cc:115-118 | bytes that do not parse change nothing, on either side |
| `Rpc.Channel.CallMethod` | rpc/src/channel.cc:55-87 | a fresh id is bound to the closure and the framed request is sent under it |
| `Rpc.Channel.OnMessageOp` | rpc/src/channel.cc:113-137 | the closure that waits under the response's id is run once and forgotten |
| `Rpc.Server.OnConnectionMessage` | rpc/src/server.cc:108-177 | a message that parses is answered once, under its own id, with the result or one of four errors; others are ignored |
| `Rpc.Server.SendResponse` | rpc/src/server.cc:179-193 | the framed response joins the connection's queue |
| `Rpc.Server.RegisterService` | rpc/src/server.cc:88-94 | the service table is updated at one name |
| `TimerModel.MsExact` | asio/src/steady_timer.cc:49-51 | milliseconds survive the way through seconds and nanoseconds, for every timeout, negative ones included |
| `TimerModel.FromMsExact` | asio/src/steady_timer.cc:49-51 | seconds and nanoseconds amount to the milliseconds asked for and have one sign |
| `TimerModel.AlarmNotEarly` | asio/src/details/timer_service.cc:35-69 | an armed timer is not readable before its millisecond, although the clock is rounded down; a deadline ahead is met within that millisecond |
| `TimerModel.RegisterCoherent` | asio/src/details/timer_service.cc:219-241 | registration keeps the sorted list, the index and the id allocator coherent, and hands out an id that was not in use |
| `TimerModel.RegisterPuts` | asio/src/details/timer_service.cc:219-241 | registration adds exactly one timer, for this caller and due when its timeout has passed, under the id it gives out, or refuses and changes nothing else |
| `TimerModel.RegisterFollows` | asio/src/details/timer_service.cc:238-240 | the kernel timer goes on following the list: armed for the least deadline and in time, disarmed if there is none or if it is exactly 0 |
| `TimerModel.RegisterArmsExact` | asio/src/details/timer_service.cc:236-240 | with the kernel timer armed as callers rely on, a registration leaves it so if and only if it is refused, or its deadline is not 0, or an earlier deadline is pending |
| `TimerModel.CancelCoherent` | asio/src/details/timer_service.cc:243-267 | cancellation keeps list and index coherent |
| `TimerModel.CancelTakes` | asio/src/details/timer_service.cc:243-267 | cancellation takes the timer with the id out of list and index, that one and no other, and tells its registration |
| `TimerModel.CancelUnknown` | asio/src/details/timer_service.cc:245-248 | an id that is not in use changes nothing |
| `TimerModel.CancelFollows` | asio/src/details/timer_service.cc:250-263 | and the kernel timer following the list |
| `TimerModel.CollectCoherent` | asio/src/details/timer_service.cc:269-292 | so does collecting the due timers, before any callback runs, for list and index |
| `TimerModel.CollectTakes` | asio/src/details/timer_service.cc:269-292 | collecting takes exactly the timers that are due, in order, and their ids |
| `TimerModel.CollectFollows` | asio/src/details/timer_service.cc:287-292 | which sets the kernel timer anew, whatever it was |
| `TimerModel.ExpiryFindsTimer` | asio/src/details/timer_service.cc:269-285 | when the kernel timer is readable the first timer is due, so no expiry is in vain |
| `TimerModel.OrderExact` | asio/src/details/timer_service.cc:219-304 | in every run, with timeouts of any sign, the callbacks run in order if and only if none belongs to a registration whose deadline was before that of a timer already run or collected |
| `TimerModel.NegativeTimeoutOvertaken` | asio/src/details/timer_service.cc:219-241 | a run with a negative timeout whose callbacks are out of order |
| `TimerModel.RunKeeps` | asio/src/details/timer_service.cc:219-304 | every run of clock ticks, registrations, cancellations, collections and callbacks keeps the invariant |
| `TimerModel.AlarmExact` | asio/src/details/timer_service.cc:49-69 | in every run the kernel timer is armed if and only if a timer is live and the least deadline is not 0; what callers rely on, armed in time for the least deadline exactly while a timer is live, fails exactly at a least deadline of 0 |
| `TimerModel.AlwaysArmed` | asio/src/details/timer_service.cc:49-69 | in every run in which no registration asks for the millisecond 0 of the clock, it is armed in time for the least deadline exactly while a timer is live |
| `TimerModel.ZeroDeadlineSleeps` | asio/src/details/timer_service.cc:49-69 | at 5 ms, timeouts of -5 and 100: two live timers, and the kernel timer disarmed however long the clock runs |
| `TimerModel.TimersFireDue` | asio/src/details/timer_service.cc:219-304 | in every run, with timeouts of any sign, list and index are coherent, no success callback runs before its deadline or before its timeout has elapsed, nor is one recorded ahead of the clock |
| `TimerModel.CanceledByName` | asio/src/details/timer_service.cc:243-267 | in every run each registration that was told of a cancellation had the id that it was given named by one |
| `TimerModel.TimersFireInOrder` | asio/src/details/timer_service.cc:219-304 | in every run without negative timeouts success callbacks are strictly ordered by deadline and registration |
| `TimerModel.EachRegistrationOnce` | asio/src/details/timer_service.cc:219-304 | in every run each registration is in exactly one place: pending, run, canceled or refused |
| `TimerServices.TimerService.UpdateTimerfd` | asio/src/details/timer_service.cc:49-69 | the kernel timer is armed as `Arm` says |
| `TimerServices.TimerService.RegisterTimer` | asio/src/details/timer_service.cc:219-241 | the new state and the id given out are those of the model; an id in use is refused with EOPEXISTS at once |
| `TimerServices.TimerService.CancelTimer` | asio/src/details/timer_service.cc:243-267 | the new state is that of the model; the callback is told exactly if the timer was pending |
| `TimerServices.TimerService.CollectExpired` | asio/src/details/timer_service.cc:269-292 | the loop takes exactly the due timers, in order, out of list and index, and re-arms |
| `TimerServices.TimerService.RunExpired` | asio/src/details/timer_service.cc:294-297 | the first collected timer runs |
| `TimerServices.SteadyTimer.AsyncWait` | asio/src/steady_timer.cc:47-56 | the timeout reaches the service unchanged, with the start time read before it |
| `TimerServices.SteadyTimer.Cancel` | asio/src/steady_timer.cc:41-45 | the pending wait is canceled and the id slot emptied |
| `TimerServices.ReportsTimeout` | asio/src/steady_timer.cc:9-24 | in every run the elapsed time that a success callback is given is at least the timeout its caller asked for |
| `TimerServices.ElapsedExact` | asio/src/steady_timer.cc:9-24 | on success the time between the two clock readings is reported, within a millisecond; with an error nothing is |
| `ReactorModel.RegisterExact` | asio/src/details/reactor_service.cc:314-345 | a free direction is registered if and only if its descriptor is not in the middle of cancelling all; then the kernel answers ENOENT |
| `ReactorModel.RegisterReadDoes` | asio/src/details/reactor_service.cc:314-345 | slot, kernel interest and callback after a read registration, the refusals with their codes and in the order of the tests |
| `ReactorModel.RegisterWriteDoes` | asio/src/details/reactor_service.cc:389-420 | the same for writing |
| `ReactorModel.RemoveDoes` | asio/src/details/reactor_service.cc:347-366 | removal empties one slot, leaves the kernel the interest of the other, and tells nobody |
| `ReactorModel.CancelDoes` | asio/src/details/reactor_service.cc:368-387 | cancellation is removal, and then the callback of that operation |
| `ReactorModel.RemoveAllDoes` | asio/src/details/reactor_service.cc:464-476 | both slots and the interest are gone, nobody is told, other descriptors are untouched |
| `ReactorModel.CancelAllReadDoes` | asio/src/details/reactor_service.cc:478-490 | the first half tells the read operation, out of its slot and with the interest gone |
| `ReactorModel.CancelAllWriteDoes` | asio/src/details/reactor_service.cc:478-490 | the second half tells whatever write operation it finds and leaves the kernel alone |
| `ReactorModel.FireRuns` | asio/src/details/reactor_service.cc:165-170 | an event runs the operation of its own direction, with its code, and changes nothing else |
| `ReactorModel.RegisterKeeps` | asio/src/details/reactor_service.cc:389-420 | registration, granted or denied by the kernel, keeps the agreement |
| `ReactorModel.RemoveKeeps` | asio/src/details/reactor_service.cc:422-441 | so does removal of one direction |
| `ReactorModel.CancelKeeps` | asio/src/details/reactor_service.cc:443-462 | so does its cancellation, at the moment the callback runs |
| `ReactorModel.CancelAllWriteExact` | asio/src/details/reactor_service.cc:478-490 | cancelling all keeps the agreement if and only if its read callback has not re-armed writing on that descriptor |
| `ReactorModel.RearmDuringCancelAll` | asio/src/details/reactor_service.cc:478-490 | such a callback on descriptor 3: an interest without an operation stays in the kernel |
| `ReactorModel.StaleInterestRefuses` | asio/src/details/reactor_service.cc:329-342 | no operation can be registered on that descriptor any more: each is told that it exists |
| `ReactorModel.KernelAgrees` | asio/src/details/reactor_service.cc:266-490 | in every run without such re-arming, kernel interest and operations agree on every descriptor outside a pending cancellation |
| `ReactorServices.ReactorService.RegisterReadOperation` | asio/src/details/reactor_service.cc:314-345 | a free direction gets the operation and the kernel the wanted interest; a taken one answers EOPEXISTS, a denied one the kernel's error; agreement is kept by `RegisterKeeps` |
| `ReactorServices.ReactorService.RegisterWriteOperation` | asio/src/details/reactor_service.cc:389-420 | the same for writing |
| `ReactorServices.ReactorService.RemoveReadOperation` | asio/src/details/reactor_service.cc:347-366 | the slot is empty and the kernel's interest is what the other direction calls for |
| `ReactorServices.ReactorService.RemoveWriteOperation` | asio/src/details/reactor_service.cc:422-441 | the same for writing |
| `ReactorServices.ReactorService.CancelReadOperation` | asio/src/details/reactor_service.cc:368-387 | as removal, and the callback is told EOPCANCELED once, after the slot is empty |
| `ReactorServices.ReactorService.CancelWriteOperation` | asio/src/details/reactor_service.cc:443-462 | the same for writing |
| `ReactorServices.ReactorService.RemoveAllOperations` | asio/src/details/reactor_service.cc:464-476 | both slots empty, the descriptor gone from the kernel |
| `ReactorServices.ReactorService.CancelAllOperations` | asio/src/details/reactor_service.cc:478-490 | the first half of the cancellation, up to and with the read callback |
| `ReactorServices.ReactorService.FinishCancelAll` | asio/src/details/reactor_service.cc:478-490 | the second half, with the write callback |
| `ReactorServices.ReactorService.DoOperation` | asio/src/details/reactor_service.cc:266-312 | a dispatched event runs the operation of its direction, if there is one, and leaves it registered |
| `TcpSocketModel.OneCallbackEach` | asio/src/ip/details/tcp_socket.cc:37-123 | after a run each operation is registered in one slot or has told its caller once, but not both, if and only if no hang-up met a registered operation |
| `TcpSocketModel.HangUpTellsTwice` | asio/src/ip/details/tcp_socket.cc:37-65 | a read that meets a hang-up and then data has its callback run twice |
| `TcpSocketModel.WritesConserved` | asio/src/ip/details/tcp_socket.cc:84-123 | in every run in which no hang-up met an operation, bytes sent and view left make up the buffer, completions report the bytes sent, success means all |
| `TcpSocketModel.PartialWriteContinues` | asio/src/ip/details/tcp_socket.cc:84-123 | a partial write leaves the same operation registered and runs no callback |
| `TcpSocketModel.StartReadDoes` | asio/src/ip/details/tcp_socket.cc:37-65 | a read waits in its slot, or its caller is told no bytes and why |
| `TcpSocketModel.StartWriteDoes` | asio/src/ip/details/tcp_socket.cc:84-123 | the same for a write |
| `TcpSocketModel.ReadTells` | asio/src/ip/details/tcp_socket.cc:37-65 | the read leaves its slot and its caller is told what recv gave, bytes on success only |
| `TcpSocketModel.WriteAdvances` | asio/src/ip/details/tcp_socket.cc:84-123 | what is accepted moves from the view to the sent part; the caller is told of the whole buffer exactly when the view is used up |
| `TcpSocketModel.WriteDenied` | asio/src/ip/details/tcp_socket.cc:106-111 | if the rest cannot be registered the caller is told of the bytes sent, these included |
| `TcpSocketModel.WriteErrorTells` | asio/src/ip/details/tcp_socket.cc:99-102 | a failed send tells the caller the bytes sent before it |
| `TcpSocketModel.CancelTells` | asio/src/ip/details/tcp_socket.cc:351-369 | cancelling a direction tells its operation: a read of no bytes, a write of those sent before |
| `TcpSocketModel.CancelAllTellsRead` | asio/src/ip/details/tcp_socket.cc:338-341 | cancelling both tells the read first |
| `TcpSocketModel.CancelAllTellsWrite` | asio/src/details/reactor_service.cc:478-490 | and then whatever write it finds, of the bytes sent before |
| `TcpSocketModel.HangUpDoes` | asio/src/details/reactor_service.cc:291-294 | a hang-up tells the operation of the direction and changes nothing else |
| `TcpSockets.TcpSocketLayer.AsyncRead` | asio/src/ip/details/tcp_socket.cc:229-234 | the operation is registered, or its callback told why not, as in the model's step |
| `TcpSockets.TcpSocketLayer.AsyncWrite` | asio/src/ip/details/tcp_socket.cc:236-241 | the operation is registered with the whole buffer as its view, or its callback told why not |
| `TcpSockets.TcpSocketLayer.ReadWrap` | asio/src/ip/details/tcp_socket.cc:37-65 | the operation is removed and its callback told the outcome of recv |
| `TcpSockets.TcpSocketLayer.WriteWrap` | asio/src/ip/details/tcp_socket.cc:84-123 | the view advances; the operation is registered again for the rest, or completes with the full length |
| `TcpSockets.TcpSocketLayer.WriteWrapError` | asio/src/ip/details/tcp_socket.cc:99-102 | a failed send completes with the bytes sent before |
| `TcpSockets.TcpSocketLayer.CancelRead` | asio/src/ip/details/tcp_socket.cc:351-354 | the read leaves its slot and its callback is told, as in the model's step |
| `TcpSockets.TcpSocketLayer.CancelWrite` | asio/src/ip/details/tcp_socket.cc:361-364 | the same for the write, with the bytes sent before |
| `TcpSockets.TcpSocketLayer.CancelAll` | asio/src/ip/details/tcp_socket.cc:338-341 | both leave the kernel, and the read's callback is told |
| `TcpSockets.TcpSocketLayer.FinishCancelAll` | asio/src/details/reactor_service.cc:478-490 | behind that callback the write's is told |
| `TcpSockets.TcpSocketLayer.HangUp` | asio/src/details/reactor_service.cc:291-294 | a hang-up tells the operation of a direction, which stays registered |
| `Varint.VariantEncode` | protocol/src/tlv/variant_encode.cc:63-75 | the encoding is written at the front and nothing behind it is touched; a buffer below the width's limit gives 0 and is left alone |
| `Varint.VariantDecode` | protocol/src/tlv/variant_encode.cc:78-93 | the loop agrees with `Decode` on every input, and leaves the caller's variable alone on failure |
| `Varint.EncodingFits` | protocol/src/tlv/variant_encode.h:24-27 | every value of a width fits in that width's buffer |
| `Varint.WidthValues` | protocol/src/tlv/variant_encode.h:24-27 | the limits of the four widths, as numbers |
| `Varint.EncodeAt` | protocol/src/tlv/variant_encode.cc:63-75 | each byte of an encoding: seven bits, the least significant first, the top bit on all but the last |
| `Varint.DecodeDigits` | protocol/src/tlv/variant_encode.cc:78-93 | the value of every accepted input, overlong ones included: its seven-bit digits, cut to the width |
| `Varint.RoundTrip` | protocol/src/tlv/variant_encode.cc:63-134 | decoding an encoding, whatever follows it, gives the value, at all four widths |
| `Varint.PrefixRejected` | protocol/src/tlv/variant_encode.cc:78-93 | every strict prefix of an encoding is rejected |
| `Varint.PrefixFree` | protocol/src/tlv/variant_encode.cc:63-75 | no encoding is a prefix of another value's |
| `Varint.Shortest` | protocol/src/tlv/variant_encode.cc:63-134 | of all byte strings that decode to a value its encoding is the shortest |
| `Varint.AcceptsExactly` | protocol/src/tlv/variant_encode.cc:78-93 | an input is accepted if and only if a byte without the top bit stands within the width's limit |
| `Zigzag.EncodeIs` | protocol/src/tlv/variant_encode.cc:7-9 | the wrapping C++ expression is the zigzag order for every value, the least included |
| `Zigzag.DecodeIs` | protocol/src/tlv/variant_encode.cc:12-14 | and its inverse for every code but the greatest at 32 and 64 bits |
| `Zigzag.DecodeEncode` | protocol/src/tlv/variant_encode.cc:7-55 | decoding undoes encoding if and only if the value is not the least of the 32-bit or 64-bit type, which comes back as 0 |
| `Zigzag.EncodeDecode` | protocol/src/tlv/variant_encode.cc:7-55 | encoding undoes decoding if and only if the code is not the greatest at 32 or 64 bits |
| `Zigzag.KeepsMagnitude` | protocol/src/tlv/variant_encode.cc:7-9 | smaller magnitudes have smaller codes; a negative number stands right before its negation |
| `Tlv.FreshCall` | protocol/src/tlv/parser.cc:112-173 | a first call is ready if and only if the data holds a whole message; it reads that message and its length, whatever the message object held |
| `Tlv.CallContinues` | protocol/src/tlv/parser.cc:112-173 | a call on part of the data and one on all of it end as one call on all of it |
| `Tlv.DumpRoundTrip` | protocol/src/tlv/message.cc:51-81 | a printed message, followed by any bytes, parses to itself behind its own bytes if and only if its value has the declared length; a longer value comes back cut |
| `Tlv.DumpLayout` | protocol/src/tlv/message.cc:51-81 | the bytes of a printed message: two of type, four of length, in network order, and the value |
| `Tlv.ParseLayout` | protocol/src/tlv/parser.cc:112-173 | how far a first call comes on any bytes, what it has set, and when it is ready, in plain numbers of its bytes |
| `Tlv.SegmentationIndependence` | protocol/src/tlv/parser.cc:101-173 | parse, drop and reset over any pieces give the messages, parser state and unread bytes of one pass over all the bytes |
| `Tlv.StreamRoundTrip` | protocol/src/tlv/message.cc:51-81 | any list of messages, printed one after the other and delivered in any pieces, arrives in order, cut to the lengths, and leaves exactly the unfinished tail |
| `Tlv.DrainConserves` | protocol/src/tlv/parser.cc:101-173 | for any bytes, printing the messages that came out and adding what is left gives the bytes back |
| `TlvParsing.Message.Dumped` | protocol/src/tlv/message.cc:51-81 | the header buffer and the cut value are printed; nothing if the value is too short |
| `TlvParsing.ParseType` | protocol/src/tlv/parser.cc:11-27 | the type is set from two bytes, or nothing changes |
| `TlvParsing.ParseLength` | protocol/src/tlv/parser.cc:29-45 | the length is set from four bytes, or nothing changes |
| `TlvParsing.ParseValue` | protocol/src/tlv/parser.cc:47-64 | the value is set to as many bytes as the length says, or nothing changes |
| `TlvParsing.Parser.Parse` | protocol/src/tlv/parser.cc:112-173 | the loop over the tag agrees with `Resume` in verdict, tag, offset and message, and terminates |
| `TlvParsing.Parser.Reset` | protocol/src/tlv/parser.cc:101-105 | the parser is at the type of a new message |
| `BridgeModel.NoLostWakeup` | asio/src/details/bridge_service.cc:56-95 | after any interleaving of locked steps, tasks in the list outside the lock mean that the event counter is up, and a thread with nothing to wake it has run everything pushed |
| `BridgeModel.RunsInOrder` | asio/src/details/bridge_service.cc:56-95 | what has run, been taken, been listed and is being appended make up what was pushed, in the order of lock acquisition; each task runs at most once |
| `BridgeModel.PushCounts` | asio/src/details/bridge_service.cc:56-66 | a push puts its tasks behind those in the list, with one wake-up, up to where the event counter stops |
| `BridgeModel.OneCallDrains` | asio/src/details/bridge_service.cc:73-88 | one undisturbed call runs everything pushed before it and leaves exactly what those tasks pushed, with the counter at their number |
| `BridgeServices.BridgeService.Push` | asio/src/details/bridge_service.cc:56-66 | a call does what its run of locked steps does |
| `BridgeServices.BridgeService.Batch` | asio/src/details/bridge_service.ipp:4-21 | the appending loop does so for a range, with one wake-up |
| `BridgeServices.BridgeService.Execute` | asio/src/details/bridge_service.cc:73-95 | so does taking and running, re-entrant pushes included; a call with an error changes nothing |

## Left out

- Response dump round trip: the start-line split refuses more than two spaces, so a reason phrase of several words does not parse back; `HttpText.SplitLineJoins` is the exact condition on the split.
- Response and Request objects: one `Message` class with a kind field stands for both.
- HTTP regular expressions: the two patterns are predicates, `ValidUri` and `ValidVersion`.
- `atoi` of a Content-Length outside the int range: taken as glibc does it, through a saturating long cut to 32 bits; a negative length makes the string class throw, which is a verdict of its own here.
- The CRLF scan's int index: buffers of 2^31 bytes or more, where it would overflow, are not treated apart; lengths are below 2^63.
- TcpSocketModel.WritesConserved: runs in which a hang-up met an operation are excluded; `OneCallbackEach` shows what then goes wrong.
- HttpConnections.HttpConnection.OnRead: the answers that the example server sends back, and the closing of the connection, are left out.
- FramedStream.EndToEnd: runs without write errors; `FailExact` covers the step that fails. Shutdown and reconnecting are not modelled.
- RpcMatching.CallsMatched: services answer once and synchronously, and fewer than 2^64 calls are pending at a time; the network streams are error-free.
- Protobuf: the generated classes are an abstract invertible codec, so the case of bytes that parse in two ways does not exist.
- TimerModel.RunKeeps: timer ids do not wrap at 2^63.
- SteadyTimer re-armed from its own cancel callback, which then has its id overwritten.
- ReactorModel.KernelAgrees: runs in which a cancel-all callback re-arms writing on the same descriptor are excluded, as `CancelAllWriteExact` shows they must be; cancelling all is two steps so that callbacks can come between.
- Varint and zigzag functions: one definition with a width parameter stands for the four the macros produce; the or of disjoint bit ranges is a sum.
- Typed buffer operations: generic over the width, on a little-endian host.
- BridgeModel: the mutex is taken to be fair enough that a step of its holder is possible; a single thread calls `execute`. The eventfd is written with 1 each time.
- Memory: allocation failure, destructors, and object lifetime across callbacks.
- The thread pool, acceptor, connector, UDP sockets, endpoints, signal set, HTTP servlet, status-code texts and the other examples: input/output or tables that would add only easy members.
