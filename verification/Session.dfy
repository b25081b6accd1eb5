/** The daemon and its client over one ordered socket (src/bin/pgosd.rs, src/client.rs). */
module Session {
  import opened Basics
  import opened Grep
  import opened Framing

  const VERSION := 13

  const STREAM_FRAME := 262144

  datatype Output = Data(bytes: Bytes) | SearchDone(matched: bool) | Other(value: Bytes)

  datatype Response = Response(version: nat, result: Result<Output, string>)

  /** The operations that stream their output are told apart from those with a single answer. */
  datatype Operation = Operation(streaming: bool, detail: Bytes)

  datatype Request = Request(version: nat, volume: string, operation: Operation)

  /** What the database makes of a request: a stream of writes that ends with a flag or an error,
      or one answer. */
  datatype Reply = Streamed(writes: seq<Bytes>, found: Result<bool, string>) | Answered(result: Result<Output, string>)

  class Socket {
    var toServer: Bytes
    var toClient: Bytes
    var open: bool

    constructor ()
      ensures toServer == [] && toClient == [] && open
    {
      toServer, toClient, open := [], [], true;
    }

    /** Between calls nothing is under way on an open socket. */
    predicate InStep()
      reads this
    {
      open ==> toServer == [] && toClient == []
    }
  }

  function DataResponse(chunk: Bytes): Response { Response(VERSION, Success(Data(chunk))) }

  /** Every data frame of the allowed length is small enough to be sent. */
  ghost predicate Compact(codec: Codec<Response>) {
    forall chunk: Bytes :: |chunk| <= STREAM_FRAME ==> Fits(codec, DataResponse(chunk))
  }

  function DataFrames(codec: Codec<Response>, chunks: seq<Bytes>): Bytes {
    if chunks == [] then [] else FrameOf(codec, DataResponse(chunks[0])) + DataFrames(codec, chunks[1..])
  }

  lemma {:induction false} DataFramesSnoc(codec: Codec<Response>, chunks: seq<Bytes>, chunk: Bytes)
    ensures DataFrames(codec, chunks + [chunk]) == DataFrames(codec, chunks) + FrameOf(codec, DataResponse(chunk))
  {
    hide FrameOf;
    if chunks == [] {
      var one := [chunk];
      assert chunks + [chunk] == one && one[1..] == [];
    } else {
      assert (chunks + [chunk])[0] == chunks[0] && (chunks + [chunk])[1..] == chunks[1..] + [chunk];
      DataFramesSnoc(codec, chunks[1..], chunk);
      AppendAssociates(FrameOf(codec, DataResponse(chunks[0])), DataFrames(codec, chunks[1..]), FrameOf(codec, DataResponse(chunk)));
    }
  }

  lemma {:induction false} FlattenSnoc(chunks: seq<Bytes>, chunk: Bytes)
    ensures Flatten(chunks + [chunk]) == Flatten(chunks) + chunk
  {
    var one := [chunk];
    FlattenAppend(chunks, one);
    assert one[1..] == [] && Flatten(one) == chunk + [];
  }

  // ---- The response buffer ----

  /** Every chunk is a full frame. */
  predicate AllFull(chunks: seq<Bytes>) { forall i :: 0 <= i < |chunks| ==> |chunks[i]| == STREAM_FRAME }

  class ResponseBuffer {
    const stream: Socket
    const codec: Codec<Response>
    var data: Bytes
    ghost var sent: seq<Bytes>
    ghost const before: Bytes

    constructor (s: Socket, c: Codec<Response>)
      ensures stream == s && codec == c && data == [] && sent == [] && before == s.toClient && Valid()
    {
      stream, codec, data, sent, before := s, c, [], [], s.toClient;
    }

    /** Full frames have gone out; less than one is held back. */
    ghost predicate Valid()
      reads this, stream
    {
      |data| < STREAM_FRAME && AllFull(sent) && stream.toClient == before + DataFrames(codec, sent)
    }

    /** Everything written so far. */
    ghost function Written(): Bytes
      reads this
    {
      Flatten(sent) + data
    }

    /** `flush`: what is held back goes out as one frame. */
    method Flush() returns (ok: bool)
      requires Compact(codec) && |data| <= STREAM_FRAME && stream.toClient == before + DataFrames(codec, sent)
      modifies this, stream`toClient
      ensures ok && data == [] && Flatten(sent) == old(Written())
      ensures sent == if old(data) == [] then old(sent) else old(sent) + [old(data)]
      ensures stream.toClient == before + DataFrames(codec, sent)
    {
      hide FrameOf, Flatten, DataFrames;
      if data == [] {
        assert Flatten(sent) + data == Flatten(sent);
        return true;
      }
      var written, after := WriteFrame(codec, DataResponse(data), stream.toClient);
      DataFramesSnoc(codec, sent, data);
      FlattenSnoc(sent, data);
      AppendAssociates(before, DataFrames(codec, sent), FrameOf(codec, DataResponse(data)));
      stream.toClient := after;
      sent := sent + [data];
      data := [];
      ok := written;
    }

    /** `write`: the bytes are re-cut into full frames. */
    method Write(bytes: Bytes) returns (ok: bool)
      requires Compact(codec) && Valid()
      modifies this, stream`toClient
      ensures ok && Valid() && Written() == old(Written()) + bytes
    {
      hide Compact, Flatten, DataFrames;
      var rest := bytes;
      assert Written() + rest == old(Written()) + bytes;
      while rest != []
        invariant Valid() && Written() + rest == old(Written()) + bytes
        decreases |rest|
      {
        var available := STREAM_FRAME - |data|;
        var length := Min(available, |rest|);
        assert Flatten(sent) + (data + rest[..length]) + rest[length..] == Flatten(sent) + data + rest by {
          Recut(Flatten(sent), data, rest, length);
        }
        data := data + rest[..length];
        rest := rest[length..];
        if |data| == STREAM_FRAME {
          var flushed := Flush();
          assert Flatten(sent) + data == Flatten(sent);
          if !flushed {
            return false;
          }
        }
      }
      assert Written() + [] == Written();
      ok := true;
    }
  }

  lemma Recut(a: Bytes, b: Bytes, c: Bytes, n: nat)
    requires n <= |c|
    ensures a + (b + c[..n]) + c[n..] == a + b + c
  {
    assert c[..n] + c[n..] == c;
  }

  // ---- What the daemon sends ----

  /** The full frames of a text, without what is left over. */
  function FullChunks(data: Bytes): seq<Bytes>
    decreases |data|
  {
    if |data| < STREAM_FRAME then [] else [data[..STREAM_FRAME]] + FullChunks(data[STREAM_FRAME..])
  }

  /** Full chunks and a smaller remainder are the full frames of their bytes. */
  lemma {:induction false} FullChunksAre(chunks: seq<Bytes>, rest: Bytes)
    requires AllFull(chunks) && |rest| < STREAM_FRAME
    ensures FullChunks(Flatten(chunks) + rest) == chunks
    decreases |chunks|
  {
    var all := Flatten(chunks) + rest;
    if chunks != [] {
      FullChunksAre(chunks[1..], rest);
      assert all == chunks[0] + (Flatten(chunks[1..]) + rest);
      assert all[..STREAM_FRAME] == chunks[0] && all[STREAM_FRAME..] == Flatten(chunks[1..]) + rest;
    }
  }

  /** With the remainder, if any, they are the chunks of their bytes. */
  lemma {:induction false} ChunksAre(chunks: seq<Bytes>, rest: Bytes)
    requires AllFull(chunks) && |rest| < STREAM_FRAME
    ensures Chunks(Flatten(chunks) + rest, STREAM_FRAME) == chunks + if rest == [] then [] else [rest]
    decreases |chunks|
  {
    var all := Flatten(chunks) + rest;
    if chunks == [] {
      assert all == rest;
      if rest != [] {
        assert rest[..|rest|] == rest && rest[|rest|..] == [];
        assert Chunks([], STREAM_FRAME) == [];
      }
    } else {
      ChunksAre(chunks[1..], rest);
      assert all == chunks[0] + (Flatten(chunks[1..]) + rest);
      assert all[..STREAM_FRAME] == chunks[0] && all[STREAM_FRAME..] == Flatten(chunks[1..]) + rest;
      assert chunks == [chunks[0]] + chunks[1..];
    }
  }

  /** All chunks but the last are exactly one frame, and none is empty. */
  lemma {:induction false} ChunkShape(data: Bytes)
    ensures var chunks := Chunks(data, STREAM_FRAME);
            && Flatten(chunks) == data
            && (forall i :: 0 <= i < |chunks| - 1 ==> |chunks[i]| == STREAM_FRAME)
            && forall i :: 0 <= i < |chunks| ==> 0 < |chunks[i]| <= STREAM_FRAME
    decreases |data|
  {
    if data != [] {
      var n := Min(STREAM_FRAME, |data|);
      ChunkShape(data[n..]);
      var tail := Chunks(data[n..], STREAM_FRAME);
      assert Chunks(data, STREAM_FRAME) == [data[..n]] + tail;
      assert data[n..] == [] ==> tail == [];
    }
  }

  /** The database answers every request in the way its operation asks for. */
  ghost predicate Answers(database: Request -> Reply) {
    forall request: Request :: request.operation.streaming <==> database(request).Streamed?
  }

  /** The chunks the daemon sends ahead of the last frame; after an error what is held back is lost. */
  function SentChunks(request: Request, reply: Reply): seq<Bytes> {
    if request.version != VERSION then []
    else
      match reply
      case Streamed(writes, found) => if found.Success? then Chunks(Flatten(writes), STREAM_FRAME) else FullChunks(Flatten(writes))
      case Answered(_) => []
  }

  function Finished(found: Result<bool, string>): Result<Output, string> {
    match found
    case Success(b) => Success(SearchDone(b))
    case Failure(e) => Failure(e)
  }

  /** The last frame of a response. */
  function LastResponse(request: Request, reply: Reply): Response {
    if request.version != VERSION then Response(VERSION, Failure("unsupported protocol version"))
    else
      match reply
      case Streamed(_, found) => Response(VERSION, Finished(found))
      case Answered(result) => Response(VERSION, result)
  }

  // ---- The daemon ----

  class Daemon {
    const requests: Codec<Request>
    const responses: Codec<Response>
    const socket: Socket

    constructor (a: Codec<Request>, b: Codec<Response>, s: Socket)
      ensures requests == a && responses == b && socket == s
    {
      requests, responses, socket := a, b, s;
    }

    /** The streaming branch: the writes go through the buffer, which is flushed at the end. */
    method Stream(writes: seq<Bytes>, found: Result<bool, string>) returns (result: Result<Output, string>)
      requires Compact(responses)
      modifies socket`toClient
      ensures result == Finished(found)
      ensures socket.toClient == old(socket.toClient) +
              DataFrames(responses, if found.Success? then Chunks(Flatten(writes), STREAM_FRAME) else FullChunks(Flatten(writes)))
    {
      hide Compact, Flatten, DataFrames, Chunks, FullChunks;
      var buffer := new ResponseBuffer(socket, responses);
      FlattenNothing();
      assert writes[..0] == [];
      for i := 0 to |writes|
        invariant buffer.Valid() && fresh(buffer) && buffer.stream == socket && buffer.codec == responses
        invariant buffer.before == old(socket.toClient) && buffer.Written() == Flatten(writes[..i])
      {
        var ok := buffer.Write(writes[i]);
        assert writes[..i + 1] == writes[..i] + [writes[i]];
        FlattenSnoc(writes[..i], writes[i]);
      }
      assert writes[..|writes|] == writes;
      FullChunksAre(buffer.sent, buffer.data);
      ChunksAre(buffer.sent, buffer.data);
      if found.Failure? {
        return Failure(found.error);
      }
      ghost var sent, data := buffer.sent, buffer.data;
      var flushed := buffer.Flush();
      assert data == [] ==> sent + [] == sent;
      result := Success(SearchDone(found.value));
    }

    /** One round of `serve_connection`: a request is read, the database's reply to it is written; a
        response too large to send ends the connection. */
    method ServeOne(ghost request: Request, database: Request -> Reply)
      requires Lawful(requests) && Compact(responses) && Fits(requests, request)
      requires socket.open && socket.toServer == FrameOf(requests, request)
      requires Answers(database)
      modifies socket
      ensures socket.toServer == []
      ensures var reply := database(request); var last := LastResponse(request, reply);
              && socket.open == Fits(responses, last)
              && socket.toClient == old(socket.toClient) + DataFrames(responses, SentChunks(request, reply)) +
                                    if socket.open then FrameOf(responses, last) else []
    {
      hide Lawful, Compact, FrameOf, DataFrames, Chunks, FullChunks, Flatten, FrameRead;
      assert FrameOf(requests, request) + [] == FrameOf(requests, request);
      var read, rest := ReadFrame(requests, socket.toServer);
      FrameRoundTrip(requests, request, [], read, rest);
      socket.toServer := rest;
      assert read == Success(request) && DataFrames(responses, []) == [] by { NoFrames(responses); }
      var result: Result<Output, string>;
      if read.value.version == VERSION && read.value.operation.streaming {
        var reply := database(read.value);
        result := Stream(reply.writes, reply.found);
      } else if read.value.version == VERSION {
        result := database(read.value).result;
        assert old(socket.toClient) + [] == socket.toClient;
      } else {
        result := Failure("unsupported protocol version");
        assert old(socket.toClient) + [] == socket.toClient;
      }
      var written, after := WriteFrame(responses, Response(VERSION, result), socket.toClient);
      socket.toClient := after;
      socket.open := written;
      assert !written ==> after + [] == after;
    }
  }

  lemma NoFrames(codec: Codec<Response>)
    ensures DataFrames(codec, []) == []
  {
  }

  // ---- The client ----

  datatype ClientError = Io | TooLarge | Remote(message: string) | WrongVersion(version: nat) | UnexpectedResponse

  /** An output that accepts so many bytes and then fails. */
  class Sink {
    var written: Bytes
    const capacity: nat

    constructor (limit: nat)
      ensures written == [] && capacity == limit && Valid()
    {
      written, capacity := [], limit;
    }

    predicate Valid()
      reads this
    {
      |written| <= capacity
    }

    method WriteAll(bytes: Bytes) returns (ok: bool)
      requires Valid()
      modifies this
      ensures Valid()
      ensures ok <==> |old(written) + bytes| <= capacity
      ensures if ok then written == old(written) + bytes else old(written) <= written <= old(written) + bytes
    {
      if |written| + |bytes| <= capacity {
        written := written + bytes;
        return true;
      }
      written := written + bytes[..capacity - |written|];
      ok := false;
    }
  }

  /** The bytes of a response as the client finds them. */
  function ResponseBytes(codec: Codec<Response>, chunks: seq<Bytes>, last: Response, open: bool): Bytes {
    DataFrames(codec, chunks) + if open then FrameOf(codec, last) else []
  }

  /** What the client reads off a response that still has data frames. */
  lemma NextChunk(codec: Codec<Response>, chunks: seq<Bytes>, i: nat, last: Response, open: bool, r: Result<Response, FrameError>, rest: Bytes)
    requires Lawful(codec) && Compact(codec) && i < |chunks| && |chunks[i]| <= STREAM_FRAME
    requires FrameRead(codec, ResponseBytes(codec, chunks[i..], last, open), r, rest)
    ensures r == Success(DataResponse(chunks[i])) && rest == ResponseBytes(codec, chunks[i + 1..], last, open)
  {
    hide FrameRead, FrameOf, Lawful;
    var end := if open then FrameOf(codec, last) else [];
    assert chunks[i..][0] == chunks[i] && chunks[i..][1..] == chunks[i + 1..];
    AppendAssociates(FrameOf(codec, DataResponse(chunks[i])), DataFrames(codec, chunks[i + 1..]), end);
    FrameRoundTrip(codec, DataResponse(chunks[i]), ResponseBytes(codec, chunks[i + 1..], last, open), r, rest);
  }

  /** What the client reads when the data frames are through. */
  lemma LastFrame(codec: Codec<Response>, last: Response, open: bool, r: Result<Response, FrameError>, rest: Bytes)
    requires Lawful(codec) && open == Fits(codec, last) && FrameRead(codec, ResponseBytes(codec, [], last, open), r, rest)
    ensures r == (if open then Success(last) else Failure(EndOfStream)) && rest == []
  {
    hide FrameRead, FrameOf;
    assert [] + FrameOf(codec, last) == FrameOf(codec, last) && FrameOf(codec, last) + [] == FrameOf(codec, last);
    var nothing: Bytes := [];
    assert nothing + nothing == nothing;
    if open { FrameRoundTrip(codec, last, [], r, rest); } else { EmptyStream(codec, r, rest); }
  }

  /** Everything the stream sends. */
  lemma SentBytes(request: Request, reply: Reply)
    requires request.version == VERSION && reply.Streamed?
    ensures var chunks := SentChunks(request, reply);
            && (reply.found.Success? ==> Flatten(chunks) == Flatten(reply.writes))
            && Flatten(chunks) <= Flatten(reply.writes)
            && forall i :: 0 <= i < |chunks| ==> |chunks[i]| <= STREAM_FRAME
  {
    hide Flatten, Chunks;
    ChunkShape(Flatten(reply.writes));
    FullChunksArePrefix(Flatten(reply.writes));
  }

  lemma {:induction false} FullChunksArePrefix(data: Bytes)
    ensures Flatten(FullChunks(data)) <= data && AllFull(FullChunks(data))
    decreases |data|
  {
    if |data| >= STREAM_FRAME {
      FullChunksArePrefix(data[STREAM_FRAME..]);
      assert data == data[..STREAM_FRAME] + data[STREAM_FRAME..];
      assert FullChunks(data)[1..] == FullChunks(data[STREAM_FRAME..]);
      PrefixBehind(data[..STREAM_FRAME], Flatten(FullChunks(data[STREAM_FRAME..])), data[STREAM_FRAME..]);
    }
  }

  lemma PrefixBehind(a: Bytes, b: Bytes, c: Bytes)
    requires b <= c
    ensures a + b <= a + c
  {
    assert (a + c)[..|a + b|] == a + c[..|b|];
  }

  lemma FlattenPrefix(chunks: seq<Bytes>, i: nat)
    requires i <= |chunks|
    ensures Flatten(chunks[..i]) <= Flatten(chunks)
  {
    hide Flatten;
    FlattenAppend(chunks[..i], chunks[i..]);
    assert chunks[..i] + chunks[i..] == chunks;
  }

  lemma TakeOneMore(chunks: seq<Bytes>, i: nat)
    requires i < |chunks|
    ensures Flatten(chunks[..i + 1]) == Flatten(chunks[..i]) + chunks[i]
  {
    hide Flatten;
    assert chunks[..i + 1] == chunks[..i] + [chunks[i]];
    FlattenSnoc(chunks[..i], chunks[i]);
  }

  /** The last frame of a stream says that the search is done, or what failed. */
  predicate EndsStream(last: Response) {
    last.version == VERSION && (last.result.Success? ==> last.result.value.SearchDone?)
  }

  class Client {
    const daemon: Daemon
    const volume: string

    constructor (d: Daemon, v: string)
      ensures daemon == d && volume == v
    {
      daemon, volume := d, v;
    }

    /** The connection works as it should. */
    ghost predicate Sane()
      reads this, daemon
    {
      Lawful(daemon.requests) && Lawful(daemon.responses) && Compact(daemon.responses)
    }

    /** The request is written and the daemon answers it from its database. */
    method Ask(operation: Operation, database: Request -> Reply) returns (sent: bool)
      requires Sane() && daemon.socket.InStep() && daemon.socket.open && Answers(database)
      modifies daemon.socket
      ensures sent == Fits(daemon.requests, Request(VERSION, volume, operation)) && daemon.socket.toServer == []
      ensures !sent ==> daemon.socket.InStep() && daemon.socket.open
      ensures var request := Request(VERSION, volume, operation);
              var reply := database(request); var last := LastResponse(request, reply);
              sent ==>
                && daemon.socket.open == Fits(daemon.responses, last)
                && daemon.socket.toClient == ResponseBytes(daemon.responses, SentChunks(request, reply), last, daemon.socket.open)
    {
      hide Lawful, Compact, FrameOf, DataFrames, SentChunks, LastResponse;
      var request := Request(VERSION, volume, operation);
      var written, after := WriteFrame(daemon.requests, request, daemon.socket.toServer);
      daemon.socket.toServer := after;
      sent := written;
      if sent {
        assert [] + FrameOf(daemon.requests, request) == after;
        daemon.ServeOne(request, database);
        assert [] + DataFrames(daemon.responses, SentChunks(request, database(request))) ==
               DataFrames(daemon.responses, SentChunks(request, database(request)));
      }
    }

    /** `call`: one request, one response, handed on unchanged. */
    method Call(operation: Operation, database: Request -> Reply) returns (r: Result<Output, ClientError>)
      requires Sane() && daemon.socket.InStep() && !operation.streaming && Answers(database)
      modifies daemon.socket
      ensures daemon.socket.InStep()
      ensures r == Failure(Io) <==> !daemon.socket.open
      ensures daemon.socket.open && !Fits(daemon.requests, Request(VERSION, volume, operation)) ==> r == Failure(TooLarge)
      ensures daemon.socket.open && Fits(daemon.requests, Request(VERSION, volume, operation)) ==>
                match database(Request(VERSION, volume, operation)).result
                case Success(output) => r == Success(output)
                case Failure(message) => r == Failure(Remote(message))
      ensures daemon.socket.open <==>
                && old(daemon.socket.open)
                && var request := Request(VERSION, volume, operation);
                   Fits(daemon.requests, request) ==> Fits(daemon.responses, Response(VERSION, database(request).result))
    {
      hide Lawful, Compact, FrameOf, DataFrames, FrameRead;
      if !daemon.socket.open {
        return Failure(Io);
      }
      var sent := Ask(operation, database);
      if !sent {
        return Failure(TooLarge);
      }
      ghost var request := Request(VERSION, volume, operation);
      ghost var reply := database(request);
      ghost var last := LastResponse(request, reply);
      assert ResponseBytes(daemon.responses, SentChunks(request, reply), last, daemon.socket.open) ==
             ResponseBytes(daemon.responses, [], last, daemon.socket.open);
      NoFrames(daemon.responses);
      var response, rest := ReadFrame(daemon.responses, daemon.socket.toClient);
      LastFrame(daemon.responses, last, daemon.socket.open, response, rest);
      daemon.socket.toClient := rest;
      if response.Failure? {
        return Failure(Io);
      }
      var version, result := response.value.version, response.value.result;
      if version != VERSION {
        return Failure(WrongVersion(version));
      }
      r := match result
        case Success(output) => Success(output)
        case Failure(message) => Failure(Remote(message));
    }

    /** The next frame of a streamed response. */
    method Receive(ghost chunks: seq<Bytes>, ghost i: nat, ghost last: Response, ghost alive: bool)
      returns (response: Result<Response, FrameError>)
      requires Sane() && i <= |chunks| && alive == Fits(daemon.responses, last)
      requires forall j :: 0 <= j < |chunks| ==> |chunks[j]| <= STREAM_FRAME
      requires daemon.socket.toClient == ResponseBytes(daemon.responses, chunks[i..], last, alive)
      modifies daemon.socket`toClient
      ensures i < |chunks| ==>
                response == Success(DataResponse(chunks[i])) && daemon.socket.toClient == ResponseBytes(daemon.responses, chunks[i + 1..], last, alive)
      ensures i == |chunks| ==>
                response == (if alive then Success(last) else Failure(EndOfStream)) && daemon.socket.toClient == []
    {
      hide Lawful, Compact, FrameOf, DataFrames, FrameRead, ResponseBytes;
      var read, rest := ReadFrame(daemon.responses, daemon.socket.toClient);
      if i < |chunks| {
        NextChunk(daemon.responses, chunks, i, last, alive, read, rest);
      } else {
        assert chunks[i..] == [];
        LastFrame(daemon.responses, last, alive, read, rest);
      }
      daemon.socket.toClient := rest;
      response := read;
    }

    /** Data frames go to the output until the stream ends. A failing output shuts the socket down,
        since the rest of the response must not answer the next request. */
    method Drain(sink: Sink, ghost chunks: seq<Bytes>, ghost last: Response) returns (r: Result<bool, ClientError>)
      requires Sane() && EndsStream(last) && daemon.socket.toServer == [] && sink.Valid()
      requires daemon.socket.open == Fits(daemon.responses, last)
      requires forall j :: 0 <= j < |chunks| ==> |chunks[j]| <= STREAM_FRAME
      requires daemon.socket.toClient == ResponseBytes(daemon.responses, chunks, last, daemon.socket.open)
      modifies daemon.socket`toClient, daemon.socket`open, sink
      ensures old(sink.written) <= sink.written <= old(sink.written) + Flatten(chunks)
      ensures daemon.socket.open ==> daemon.socket.toClient == []
      ensures !daemon.socket.open ==> r == Failure(Io)
      ensures r.Success? ==> last.result == Success(SearchDone(r.value)) && sink.written == old(sink.written) + Flatten(chunks)
      ensures daemon.socket.open && r.Failure? ==> last.result.Failure? && r.error == Remote(last.result.error)
      ensures daemon.socket.open <==> old(daemon.socket.open) && |old(sink.written)| + |Flatten(chunks)| <= sink.capacity
      ensures daemon.socket.open ==> sink.written == old(sink.written) + Flatten(chunks)
    {
      hide Lawful, Compact, FrameOf, DataFrames, Flatten, ResponseBytes;
      ghost var i: nat, alive := 0, daemon.socket.open;
      assert chunks[0..] == chunks && chunks[..0] == [];
      FlattenNothing();
      while true
        invariant i <= |chunks| && daemon.socket.open == alive && daemon.socket.toServer == []
        invariant daemon.socket.toClient == ResponseBytes(daemon.responses, chunks[i..], last, alive)
        invariant sink.Valid() && sink.written == old(sink.written) + Flatten(chunks[..i])
        decreases |chunks| - i
      {
        FlattenPrefix(chunks, i);
        if i < |chunks| {
          TakeOneMore(chunks, i);
          FlattenPrefix(chunks, i + 1);
        }
        assert chunks[..|chunks|] == chunks;
        var response := Receive(chunks, i, last, alive);
        if response.Failure? {
          return Failure(Io);
        }
        var version, result := response.value.version, response.value.result;
        if version != VERSION {
          return Failure(WrongVersion(version));
        }
        if result.Failure? {
          return Failure(Remote(result.error));
        }
        match result.value {
          case Data(data) =>
            var written := sink.WriteAll(data);
            if !written {
              daemon.socket.open := false;
              return Failure(Io);
            }
            i := i + 1;
          case SearchDone(matched) =>
            return Success(matched);
          case Other(_) =>
            return Failure(UnexpectedResponse);
        }
      }
    }

    /** `stream_output`: one request, a stream of frames. The socket stays open exactly when the
        request was not sent, or the end of the response and all its data could be delivered. */
    method StreamOutput(operation: Operation, database: Request -> Reply, sink: Sink) returns (r: Result<bool, ClientError>)
      requires Sane() && daemon.socket.InStep() && operation.streaming && Answers(database) && sink.Valid()
      modifies daemon.socket, sink
      ensures daemon.socket.InStep()
      ensures r == Failure(Io) <==> !daemon.socket.open
      ensures var request := Request(VERSION, volume, operation); var reply := database(request);
              var chunks := SentChunks(request, reply);
              && old(sink.written) <= sink.written <= old(sink.written) + Flatten(reply.writes)
              && (daemon.socket.open && !Fits(daemon.requests, request) ==> r == Failure(TooLarge) && sink.written == old(sink.written))
              && (daemon.socket.open && Fits(daemon.requests, request) ==>
                    && sink.written == old(sink.written) + Flatten(chunks)
                    && r == match reply.found case Success(b) => Success(b) case Failure(e) => Failure(Remote(e)))
              && (r.Success? ==> sink.written == old(sink.written) + Flatten(reply.writes))
              && (daemon.socket.open <==>
                    && old(daemon.socket.open)
                    && (Fits(daemon.requests, request) ==>
                          && Fits(daemon.responses, LastResponse(request, reply))
                          && |old(sink.written)| + |Flatten(chunks)| <= sink.capacity))
    {
      hide Lawful, Compact, FrameOf, DataFrames, Flatten, Chunks, FullChunks, SentChunks, ResponseBytes;
      if !daemon.socket.open {
        return Failure(Io);
      }
      var sent := Ask(operation, database);
      if !sent {
        return Failure(TooLarge);
      }
      ghost var request := Request(VERSION, volume, operation);
      ghost var reply := database(request);
      SentBytes(request, reply);
      r := Drain(sink, SentChunks(request, reply), LastResponse(request, reply));
    }
  }

  // ---- Sessions ----

  /** One call of a session: what is asked, what the database makes of requests at the time, and how
      much the output of a stream accepts. */
  datatype Exchange = Exchange(operation: Operation, database: Request -> Reply, capacity: nat)

  datatype Outcome = Outcome(result: Result<Output, ClientError>, written: Bytes)

  /** The call breaks the connection: its request is sent, and the end of its response is too large
      for a frame or its data for the output. */
  predicate Breaks(client: Client, exchange: Exchange) {
    var request := Request(VERSION, client.volume, exchange.operation);
    var reply := exchange.database(request);
    && Fits(client.daemon.requests, request)
    && (|| !Fits(client.daemon.responses, LastResponse(request, reply))
        || |Flatten(SentChunks(request, reply))| > exchange.capacity)
  }

  /** What the call returns on a connection it does not break: a request too large is not sent, any
      other gets exactly what the database made of it, and nothing of another call. */
  function OwnOutcome(client: Client, exchange: Exchange): Outcome {
    var request := Request(VERSION, client.volume, exchange.operation);
    if !Fits(client.daemon.requests, request) then Outcome(Failure(TooLarge), [])
    else
      match exchange.database(request)
      case Answered(Success(output)) => Outcome(Success(output), [])
      case Answered(Failure(e)) => Outcome(Failure(Remote(e)), [])
      case Streamed(writes, Success(b)) => Outcome(Success(SearchDone(b)), Flatten(writes))
      case Streamed(writes, Failure(e)) => Outcome(Failure(Remote(e)), Flatten(FullChunks(Flatten(writes))))
  }

  /** What a call may still have written when the connection broke: a beginning of its own data. */
  predicate CutOff(client: Client, exchange: Exchange, outcome: Outcome) {
    && outcome.result == Failure(Io)
    && match exchange.database(Request(VERSION, client.volume, exchange.operation))
       case Answered(_) => outcome.written == []
       case Streamed(writes, _) => outcome.written <= Flatten(writes)
  }

  /** Over any sequence of calls and any splits of the daemon's writes, every call up to the first
      that breaks the connection returns exactly its own outcome; from that one on every call ends
      with a broken connection, and none before. */
  method RunSession(client: Client, exchanges: seq<Exchange>) returns (outcomes: seq<Outcome>)
    requires client.Sane() && client.daemon.socket.InStep()
    requires forall i :: 0 <= i < |exchanges| ==> Answers(exchanges[i].database)
    modifies client.daemon.socket
    ensures |outcomes| == |exchanges| && client.daemon.socket.InStep()
    ensures forall n :: 0 <= n < |exchanges| ==>
              if old(client.daemon.socket.open) && forall i :: 0 <= i <= n ==> !Breaks(client, exchanges[i])
              then outcomes[n] == OwnOutcome(client, exchanges[n])
              else CutOff(client, exchanges[n], outcomes[n])
  {
    hide Lawful, Compact, Flatten, Breaks, OwnOutcome, CutOff;
    outcomes := [];
    var socket := client.daemon.socket;
    for k := 0 to |exchanges|
      invariant client.Sane() && socket.InStep() && |outcomes| == k
      invariant socket.open <==> old(socket.open) && forall i :: 0 <= i < k ==> !Breaks(client, exchanges[i])
      invariant forall n :: 0 <= n < k ==>
                  if old(socket.open) && forall i :: 0 <= i <= n ==> !Breaks(client, exchanges[i])
                  then outcomes[n] == OwnOutcome(client, exchanges[n])
                  else CutOff(client, exchanges[n], outcomes[n])
    {
      var outcome := Exchanged(client, exchanges[k]);
      outcomes := outcomes + [outcome];
    }
  }

  /** One call of the session. */
  method Exchanged(client: Client, exchange: Exchange) returns (outcome: Outcome)
    requires client.Sane() && client.daemon.socket.InStep() && Answers(exchange.database)
    modifies client.daemon.socket
    ensures client.daemon.socket.InStep()
    ensures client.daemon.socket.open <==> old(client.daemon.socket.open) && !Breaks(client, exchange)
    ensures if client.daemon.socket.open then outcome == OwnOutcome(client, exchange) else CutOff(client, exchange, outcome)
  {
    hide Lawful, Compact, Flatten, Chunks, FullChunks;
    var operation, database := exchange.operation, exchange.database;
    if operation.streaming {
      ghost var request := Request(VERSION, client.volume, operation);
      ghost var reply := database(request);
      SentBytes(request, reply);
      var sink := new Sink(exchange.capacity);
      var streamed := client.StreamOutput(operation, database, sink);
      assert [] + Flatten(reply.writes) == Flatten(reply.writes);
      assert [] + Flatten(SentChunks(request, reply)) == Flatten(SentChunks(request, reply));
      var result: Result<Output, ClientError>;
      if streamed.Success? {
        result := Success(SearchDone(streamed.value));
      } else {
        result := Failure(streamed.error);
      }
      outcome := Outcome(result, sink.written);
    } else {
      FlattenNothing();
      var result := client.Call(operation, database);
      outcome := Outcome(result, []);
    }
  }
}
