/** The keep-alive loop of connection_handlers.cpp (`handle_connection`,
    which `BlockingHttpConnectionHandler` calls unchanged): read requests
    off one buffered connection and write one response to each, until the
    peer stops sending, asks to close, or sends something unacceptable.

    The loop reads and writes through `HttpConnection`, whose source
    (http_connection.cpp) is not part of this model; it is taken to do what
    its asynchronous counterpart in async_http_connection.cpp does: read up
    to the blank line, parse the text before it, stamp the peer address,
    and write a response as its serialised packed frame. */
module ConnectionHandlers {
  import opened Base
  import opened Util
  import opened Http
  import Mocks
  import Connection
  import HttpVectors

  const HOST := "Host"
  const CONNECTION := "Connection"
  const CLOSE := "close"

  /** `HttpConnection::read_request`: the next request on the connection,
      carrying the connection's peer address. */
  function ReadRequest(bc: Connection.BufferedConnection): (r: (Result<Request>, Connection.BufferedConnection))
    requires bc.conn.Some?
    ensures r.1.conn.Some? && r.1.conn.value == bc.conn.value.(unread := r.1.conn.value.unread)
    ensures r.0.Ok? ==> r.0.value.remoteIp == bc.conn.value.remoteIp
  {
    var (frame, next) := Connection.ReadUntil(bc, CRLFCRLF);
    match frame
    case Err(e) => (Err(e), next)
    case Ok(content) =>
      match ParseRequestFrame(Frame(content))
      case Err(e) => (Err(e), next)
      case Ok(request) => (Ok(request.(remoteIp := Connection.RemoteIp(bc))), next)
  }

  /** `HttpConnection::write_response`. */
  function WriteResponse(bc: Connection.BufferedConnection, response: Response): (r: Connection.BufferedConnection)
    requires bc.conn.Some?
    ensures r.conn.Some? && r.buffer == bc.buffer
    ensures r.conn.value == bc.conn.value.(written := bc.conn.value.written + Serialize(PackResponse(response)))
  {
    Connection.Write(bc, Serialize(PackResponse(response)))
  }

  /** The `catch` clauses: a parse error answers 400, a closed connection
      ends quietly, and anything else answers 500. */
  function OnError(bc: Connection.BufferedConnection, e: Exception): (r: Connection.BufferedConnection)
    requires bc.conn.Some?
    ensures r.conn.Some? && r.buffer == bc.buffer
    ensures e == ConnectionClosed ==> r == bc
    ensures e == HttpRequestParseError ==> r == WriteResponse(bc, BadRequestResponse())
    ensures e != ConnectionClosed && e != HttpRequestParseError ==> r == WriteResponse(bc, InternalServerErrorResponse())
  {
    match e
    case HttpRequestParseError => WriteResponse(bc, BadRequestResponse())
    case ConnectionClosed => bc
    case _ => WriteResponse(bc, InternalServerErrorResponse())
  }

  /** The connection and the request handler's state when the loop ends. */
  datatype Served<H> = Served(conn: Connection.BufferedConnection, handler: H)

  /** `handle_connection`, over a request handler with state `H` whose
      `handle_request` may raise an error of its own. Each turn consumes
      at least the blank line of the pending bytes, so the loop ends. */
  function HandleConnection<H>(handle: (H, Request) -> Result<(Response, H)>, h: H, bc: Connection.BufferedConnection): (r: Served<H>)
    requires bc.conn.Some?
    ensures r.conn.conn.Some?
    decreases |Connection.Pending(bc)|
  {
    var (request, next) := ReadRequest(bc);
    Connection.ReadUntilConsumes(bc, CRLFCRLF);
    match request
    case Err(e) => Served(OnError(next, e), h)
    case Ok(request) =>
      if !HasHeader(request.headers, HOST) then Served(WriteResponse(next, BadRequestResponse()), h)
      else
        match handle(h, request)
        case Err(e) => Served(OnError(next, e), h)
        case Ok((response, h')) =>
          var written := WriteResponse(next, response);
          if GetHeader(request.headers, CONNECTION).value == CLOSE then Served(written, h')
          else HandleConnection(handle, h', written)
  }

  /** `after` is `before` having been read from and written to: only the
      unread payload and the bytes sent differ, and the bytes sent before
      are a prefix of those sent after. */
  predicate Extends(before: Mocks.MockConnection, after: Mocks.MockConnection) {
    after == before.(unread := after.unread, written := after.written) && before.written <= after.written
  }

  /** The loop only reads from the connection and appends to what it has
      sent: the peer address, the read size and the closed flag are left
      alone, and what was written before stays a prefix of what is
      written after. */
  lemma {:induction false} HandleConnectionOnlyAppends<H>(handle: (H, Request) -> Result<(Response, H)>, h: H,
                                                           bc: Connection.BufferedConnection)
    requires bc.conn.Some?
    ensures Extends(bc.conn.value, HandleConnection(handle, h, bc).conn.conn.value)
    decreases |Connection.Pending(bc)|
  {
    var (request, next) := ReadRequest(bc);
    Connection.ReadUntilConsumes(bc, CRLFCRLF);
    var r := HandleConnection(handle, h, bc);
    var c := bc.conn.value;
    assert Extends(c, next.conn.value);
    match request
    case Err(e) =>
      assert r == Served(OnError(next, e), h);
      ErrorExtends(next, e);
      ExtendsTransitive(c, next.conn.value, r.conn.conn.value);
    case Ok(request) =>
      if !HasHeader(request.headers, HOST) {
        assert r == Served(WriteResponse(next, BadRequestResponse()), h);
        WriteExtends(next, BadRequestResponse());
        ExtendsTransitive(c, next.conn.value, r.conn.conn.value);
      } else {
        match handle(h, request)
        case Err(e) =>
          assert r == Served(OnError(next, e), h);
          ErrorExtends(next, e);
          ExtendsTransitive(c, next.conn.value, r.conn.conn.value);
        case Ok((response, h')) =>
          var written := WriteResponse(next, response);
          WriteExtends(next, response);
          ExtendsTransitive(c, next.conn.value, written.conn.value);
          if GetHeader(request.headers, CONNECTION).value == CLOSE {
            assert r == Served(written, h');
          } else {
            assert r == HandleConnection(handle, h', written);
            HandleConnectionOnlyAppends(handle, h', written);
            ExtendsTransitive(c, written.conn.value, r.conn.conn.value);
          }
      }
  }

  lemma WriteExtends(bc: Connection.BufferedConnection, response: Response)
    requires bc.conn.Some?
    ensures Extends(bc.conn.value, WriteResponse(bc, response).conn.value)
  {
    var w := Serialize(PackResponse(response));
    assert (bc.conn.value.written + w)[..|bc.conn.value.written|] == bc.conn.value.written;
  }

  lemma ErrorExtends(bc: Connection.BufferedConnection, e: Exception)
    requires bc.conn.Some?
    ensures Extends(bc.conn.value, OnError(bc, e).conn.value)
  {
    if e == HttpRequestParseError {
      WriteExtends(bc, BadRequestResponse());
    } else if e != ConnectionClosed {
      WriteExtends(bc, InternalServerErrorResponse());
    }
  }

  lemma ExtendsTransitive(a: Mocks.MockConnection, b: Mocks.MockConnection, c: Mocks.MockConnection)
    requires Extends(a, b) && Extends(b, c)
    ensures Extends(a, c)
  {
    assert c.written[..|a.written|] == b.written[..|a.written|];
  }

  // ---------------------------------------------------------------------
  // One request at the head of the stream
  // ---------------------------------------------------------------------

  /** A request head whose first blank line is the one that ends it. */
  predicate HeadEnds(frame: string) {
    Find(frame + CRLFCRLF, CRLFCRLF) == Some(|frame|)
  }

  /** The pending bytes a connection offers for a series of request heads:
      each followed by its blank line. */
  function Framed(frames: seq<string>): string {
    if frames == [] then "" else frames[0] + CRLFCRLF + Framed(frames[1..])
  }

  /** With a request head at the front of the pending bytes, `read_request`
      reads exactly that head and leaves exactly what follows it. */
  lemma ReadsFirstFrame(bc: Connection.BufferedConnection, frame: string, rest: string)
    requires bc.conn.Some? && bc.conn.value.readSize > 0
    requires HeadEnds(frame) && Connection.Pending(bc) == frame + CRLFCRLF + rest
    ensures var (request, next) := ReadRequest(bc);
            request == (match ParseRequestFrame(Frame(frame))
                        case Ok(parsed) => Ok(parsed.(remoteIp := bc.conn.value.remoteIp))
                        case Err(e) => Err(e)) &&
            Connection.Pending(next) == rest &&
            next.conn.value == bc.conn.value.(unread := next.conn.value.unread)
  {
    Connection.ReadUntilIsStream(bc, CRLFCRLF);
    FindAppend(frame + CRLFCRLF, rest, CRLFCRLF);
    var split := SplitFirst(frame + CRLFCRLF + rest, CRLFCRLF).value;
    assert split.0 == (frame + CRLFCRLF + rest)[..|frame|];
    assert split.0 == frame;
  }

  /** A head that fails to parse is answered 400 and ends the loop; the
      request handler is not asked. */
  lemma MalformedIsBadRequest<H>(handle: (H, Request) -> Result<(Response, H)>, h: H,
                                 bc: Connection.BufferedConnection, frame: string, rest: string)
    requires bc.conn.Some? && bc.conn.value.readSize > 0
    requires HeadEnds(frame) && Connection.Pending(bc) == frame + CRLFCRLF + rest
    requires ParseRequestFrame(Frame(frame)).Err?
    ensures var r := HandleConnection(handle, h, bc);
            r.handler == h &&
            r.conn.conn.value.written == bc.conn.value.written + Serialize(PackResponse(BadRequestResponse()))
  {
    ReadsFirstFrame(bc, frame, rest);
  }

  /** A request without a `Host` header, in any letter case, is answered
      400 and ends the loop; the request handler is not asked. */
  lemma MissingHostIsBadRequest<H>(handle: (H, Request) -> Result<(Response, H)>, h: H,
                                   bc: Connection.BufferedConnection, frame: string, rest: string)
    requires bc.conn.Some? && bc.conn.value.readSize > 0
    requires HeadEnds(frame) && Connection.Pending(bc) == frame + CRLFCRLF + rest
    requires ParseRequestFrame(Frame(frame)).Ok?
    requires !HasHeader(ParseRequestFrame(Frame(frame)).value.headers, HOST)
    ensures var r := HandleConnection(handle, h, bc);
            r.handler == h &&
            r.conn.conn.value.written == bc.conn.value.written + Serialize(PackResponse(BadRequestResponse()))
  {
    ReadsFirstFrame(bc, frame, rest);
  }

  /** A request that asks to close is answered with the handler's response
      and ends the loop, leaving the rest of the stream unread. */
  lemma CloseEndsLoop<H>(handle: (H, Request) -> Result<(Response, H)>, h: H,
                         bc: Connection.BufferedConnection, frame: string, rest: string)
    requires bc.conn.Some? && bc.conn.value.readSize > 0
    requires HeadEnds(frame) && Connection.Pending(bc) == frame + CRLFCRLF + rest
    requires ParseRequestFrame(Frame(frame)).Ok?
    requires var request := ParseRequestFrame(Frame(frame)).value;
             HasHeader(request.headers, HOST) && GetHeader(request.headers, CONNECTION).value == CLOSE
    requires var request := ParseRequestFrame(Frame(frame)).value.(remoteIp := bc.conn.value.remoteIp);
             handle(h, request).Ok?
    ensures var request := ParseRequestFrame(Frame(frame)).value.(remoteIp := bc.conn.value.remoteIp);
            var (response, h') := handle(h, request).value;
            var r := HandleConnection(handle, h, bc);
            r.handler == h' && Connection.Pending(r.conn) == rest &&
            r.conn.conn.value.written == bc.conn.value.written + Serialize(PackResponse(response))
  {
    ReadsFirstFrame(bc, frame, rest);
  }

  /** A handler that throws ends the loop with the handler state it was
      called with: a parse error it throws answers 400, a closed connection
      writes nothing, and any other exception answers 500. */
  lemma HandlerErrorAnswers<H>(handle: (H, Request) -> Result<(Response, H)>, h: H,
                               bc: Connection.BufferedConnection, frame: string, rest: string)
    requires bc.conn.Some? && bc.conn.value.readSize > 0
    requires HeadEnds(frame) && Connection.Pending(bc) == frame + CRLFCRLF + rest
    requires ParseRequestFrame(Frame(frame)).Ok?
    requires HasHeader(ParseRequestFrame(Frame(frame)).value.headers, HOST)
    requires var request := ParseRequestFrame(Frame(frame)).value.(remoteIp := bc.conn.value.remoteIp);
             handle(h, request).Err?
    ensures var request := ParseRequestFrame(Frame(frame)).value.(remoteIp := bc.conn.value.remoteIp);
            var e := handle(h, request).error;
            var r := HandleConnection(handle, h, bc);
            r.handler == h &&
            (e == ConnectionClosed ==> r.conn.conn.value.written == bc.conn.value.written) &&
            (e == HttpRequestParseError ==>
               r.conn.conn.value.written == bc.conn.value.written + Serialize(PackResponse(BadRequestResponse()))) &&
            (e != ConnectionClosed && e != HttpRequestParseError ==>
               r.conn.conn.value.written == bc.conn.value.written + Serialize(PackResponse(InternalServerErrorResponse())))
  {
    ReadsFirstFrame(bc, frame, rest);
  }

  /** A request that has a `Host` header and does not ask to close is
      answered with the handler's response, and the loop goes on with the
      rest of the stream and the handler's new state. */
  lemma KeepAlive<H>(handle: (H, Request) -> Result<(Response, H)>, h: H,
                     bc: Connection.BufferedConnection, frame: string, rest: string)
    requires bc.conn.Some? && bc.conn.value.readSize > 0
    requires HeadEnds(frame) && Connection.Pending(bc) == frame + CRLFCRLF + rest
    requires ParseRequestFrame(Frame(frame)).Ok?
    requires var request := ParseRequestFrame(Frame(frame)).value;
             HasHeader(request.headers, HOST) && GetHeader(request.headers, CONNECTION).value != CLOSE
    requires var request := ParseRequestFrame(Frame(frame)).value.(remoteIp := bc.conn.value.remoteIp);
             handle(h, request).Ok?
    ensures var request := ParseRequestFrame(Frame(frame)).value.(remoteIp := bc.conn.value.remoteIp);
            var (response, h') := handle(h, request).value;
            var next := ReadRequest(bc).1;
            var written := WriteResponse(next, response);
            Connection.Pending(written) == rest &&
            written.conn.value == bc.conn.value.(unread := written.conn.value.unread,
                                                 written := bc.conn.value.written + Serialize(PackResponse(response))) &&
            HandleConnection(handle, h, bc) == HandleConnection(handle, h', written)
  {
    ReadsFirstFrame(bc, frame, rest);
  }

  /** An exhausted connection ends the loop without writing anything. */
  lemma ExhaustedEndsQuietly<H>(handle: (H, Request) -> Result<(Response, H)>, h: H, bc: Connection.BufferedConnection)
    requires bc.conn.Some? && bc.conn.value.readSize > 0
    requires Find(Connection.Pending(bc), CRLFCRLF).None?
    ensures var r := HandleConnection(handle, h, bc);
            r.handler == h && r.conn.conn.value.written == bc.conn.value.written
  {
    Connection.ExhaustedThrows(bc, CRLFCRLF);
    Connection.ReadUntilIsStream(bc, CRLFCRLF);
  }

  // ---------------------------------------------------------------------
  // Pipelining
  // ---------------------------------------------------------------------

  /** `MockHttpRequestHandler::handle_request`, which never fails. */
  function MockHandle(h: Mocks.MockHandler, request: Request): Result<(Response, Mocks.MockHandler)> {
    Ok(Mocks.HandleRequest(h, request))
  }

  /** `n` copies of one string, end to end. */
  function Times(s: string, n: nat): (r: string)
    ensures |r| == |s| * n
  {
    if n == 0 then "" else s + Times(s, n - 1)
  }

  /** The requests as the loop hands them on: stamped with the peer. */
  function Stamped(requests: seq<Request>, ip: Addr): (r: seq<Request>)
    ensures |r| == |requests|
    ensures forall i :: 0 <= i < |requests| ==> r[i] == requests[i].(remoteIp := ip)
  {
    if requests == [] then [] else [requests[0].(remoteIp := ip)] + Stamped(requests[1..], ip)
  }

  /** Request heads that each end at their own blank line, parse to the
      given requests, have a `Host` header and do not ask to close. */
  predicate KeepAliveScript(frames: seq<string>, requests: seq<Request>) {
    |frames| == |requests| &&
    (frames != [] ==> KeepAliveEntry(frames[0], requests[0]) && KeepAliveScript(frames[1..], requests[1..]))
  }

  /** One request head of a keep-alive script and the request it parses to. */
  predicate KeepAliveEntry(frame: string, request: Request) {
    HeadEnds(frame) && ParseRequestFrame(Frame(frame)) == Ok(request) &&
    HasHeader(request.headers, HOST) && GetHeader(request.headers, CONNECTION).value != CLOSE
  }

  lemma StampedCons(prior: seq<Request>, requests: seq<Request>, ip: Addr)
    requires requests != []
    ensures prior + [requests[0].(remoteIp := ip)] + Stamped(requests[1..], ip) == prior + Stamped(requests, ip)
  {
  }

  lemma TimesCons(w: string, s: string, n: nat)
    requires n > 0
    ensures w + s + Times(s, n - 1) == w + Times(s, n)
  {
  }

  /** The mock handler's turn in the loop: it records the stamped request,
      its fixed response is written, and the loop goes on with the rest. */
  lemma MockTurn(h: Mocks.MockHandler, bc: Connection.BufferedConnection,
                 frames: seq<string>, requests: seq<Request>)
    requires bc.conn.Some? && bc.conn.value.readSize > 0 && frames != []
    requires KeepAliveScript(frames, requests) && Connection.Pending(bc) == Framed(frames)
    ensures var ip := bc.conn.value.remoteIp;
            var h' := h.(requests := h.requests + [requests[0].(remoteIp := ip)]);
            var written := WriteResponse(ReadRequest(bc).1, h.response);
            HandleConnection(MockHandle, h, bc) == HandleConnection(MockHandle, h', written) &&
            written.conn.Some? && written.conn.value.readSize == bc.conn.value.readSize &&
            written.conn.value.remoteIp == ip &&
            written.conn.value.written == bc.conn.value.written + Serialize(PackResponse(h.response)) &&
            Connection.Pending(written) == Framed(frames[1..]) &&
            KeepAliveScript(frames[1..], requests[1..])
  {
    assert Connection.Pending(bc) == frames[0] + CRLFCRLF + Framed(frames[1..]);
    assert ParseRequestFrame(Frame(frames[0])) == Ok(requests[0]);
    var request := requests[0].(remoteIp := bc.conn.value.remoteIp);
    assert MockHandle(h, request) == Ok((h.response, h.(requests := h.requests + [request])));
    KeepAlive(MockHandle, h, bc, frames[0], Framed(frames[1..]));
  }

  /** Pipelined requests sent back to back on one connection reach the
      handler in the order sent, and the responses are written in the
      same order, one per request, before the loop ends at the end of the
      stream. */
  lemma {:induction false} Pipelined(h: Mocks.MockHandler, bc: Connection.BufferedConnection,
                                     frames: seq<string>, requests: seq<Request>)
    requires bc.conn.Some? && bc.conn.value.readSize > 0
    requires KeepAliveScript(frames, requests) && Connection.Pending(bc) == Framed(frames)
    ensures var r := HandleConnection(MockHandle, h, bc);
            r.handler.requests == h.requests + Stamped(requests, bc.conn.value.remoteIp) &&
            r.handler.response == h.response &&
            r.conn.conn.value.written ==
              bc.conn.value.written + Times(Serialize(PackResponse(h.response)), |requests|) &&
            Connection.Pending(r.conn) == ""
    decreases |frames|
  {
    var ip := bc.conn.value.remoteIp;
    if frames == [] {
      ExhaustedEndsQuietly(MockHandle, h, bc);
      Connection.ExhaustedThrows(bc, CRLFCRLF);
      assert h.requests + Stamped(requests, ip) == h.requests;
    } else {
      MockTurn(h, bc, frames, requests);
      var h' := h.(requests := h.requests + [requests[0].(remoteIp := ip)]);
      var written := WriteResponse(ReadRequest(bc).1, h.response);
      Pipelined(h', written, frames[1..], requests[1..]);
      StampedCons(h.requests, requests, ip);
      TimesCons(bc.conn.value.written, Serialize(PackResponse(h.response)), |requests|);
    }
  }

  // ---------------------------------------------------------------------
  // Packed requests on the wire
  // ---------------------------------------------------------------------

  /** The head of a packed request: its lines joined by CRLF. */
  function Head(req: Request): string {
    Join(CRLF, [RequestLine(req)] + HeaderLines(req.headers))
  }

  /** A packed well-formed request without a body is its head and the
      blank line, and that blank line is the first one. */
  lemma PackedHeadEnds(req: Request)
    requires WellFormedRequest(req) && req.body == ""
    ensures Serialize(PackRequest(req)) == Head(req) + CRLFCRLF
    ensures HeadEnds(Head(req))
  {
    var lines := [RequestLine(req)] + HeaderLines(req.headers);
    PackRequestLines(req);
    WellFormedLinesFree(req);
    forall i | 0 <= i < |lines|
      ensures lines[i] != ""
    {
      if i == 0 {
        assert |RequestLine(req)| >= 2;
      } else {
        assert lines[i] == HeaderLine(req.headers[i - 1]);
      }
    }
    FirstBlankLine(lines);
  }

  /** ... and the head parses back to the request. */
  lemma PackedHead(req: Request)
    requires WellFormedRequest(req) && req.body == ""
    ensures Serialize(PackRequest(req)) == Head(req) + CRLFCRLF
    ensures HeadEnds(Head(req))
    ensures ParseRequestFrame(Frame(Head(req))) == Ok(req.(remoteIp := ZERO_ADDR))
  {
    PackedHeadEnds(req);
    PackParseRoundTrip(req, Frame(Head(req)));
  }

  /** Requests packed back to back, as a client pipelines them. */
  function PackedStream(requests: seq<Request>): string {
    if requests == [] then "" else Serialize(PackRequest(requests[0])) + PackedStream(requests[1..])
  }

  function Heads(requests: seq<Request>): (r: seq<string>)
    ensures |r| == |requests|
    ensures forall i :: 0 <= i < |requests| ==> r[i] == Head(requests[i])
  {
    if requests == [] then [] else [Head(requests[0])] + Heads(requests[1..])
  }

  function Zeroed(requests: seq<Request>): (r: seq<Request>)
    ensures |r| == |requests|
    ensures forall i :: 0 <= i < |requests| ==> r[i] == requests[i].(remoteIp := ZERO_ADDR)
  {
    if requests == [] then [] else [requests[0].(remoteIp := ZERO_ADDR)] + Zeroed(requests[1..])
  }

  /** A request a client may pipeline: well formed, without a body, with a
      `Host` header and without asking to close. */
  ghost predicate Pipelinable(req: Request) {
    Packable(req) &&
    HasHeader(req.headers, HOST) && GetHeader(req.headers, CONNECTION).value != CLOSE
  }

  /** A request that packs to a head and its blank line. */
  ghost predicate Packable(req: Request) {
    WellFormedRequest(req) && req.body == ""
  }

  lemma {:induction false} PackedStreamIsFramed(requests: seq<Request>)
    requires forall i :: 0 <= i < |requests| ==> Packable(requests[i])
    ensures PackedStream(requests) == Framed(Heads(requests))
    decreases |requests|
  {
    if requests != [] {
      PackedHeadEnds(requests[0]);
      assert forall i :: 0 <= i < |requests[1..]| ==> requests[1..][i] == requests[i + 1];
      PackedStreamIsFramed(requests[1..]);
      assert Heads(requests)[1..] == Heads(requests[1..]);
    }
  }

  /** The head of a pipelinable request is one entry of a keep-alive script. */
  lemma PackedEntry(req: Request)
    requires Pipelinable(req)
    ensures KeepAliveEntry(Head(req), req.(remoteIp := ZERO_ADDR))
  {
    PackedHead(req);
  }

  /** An entry in front of a keep-alive script makes a longer one. */
  lemma ScriptCons(frame: string, frames: seq<string>, request: Request, requests: seq<Request>)
    requires KeepAliveEntry(frame, request) && KeepAliveScript(frames, requests)
    ensures KeepAliveScript([frame] + frames, [request] + requests)
  {
    assert ([frame] + frames)[1..] == frames && ([request] + requests)[1..] == requests;
  }

  /** Requests whose heads are each an entry of a keep-alive script, for
      the request with the address zeroed, make a whole script. */
  lemma {:induction false} PackedScript(requests: seq<Request>)
    requires forall i :: 0 <= i < |requests| ==> KeepAliveEntry(Head(requests[i]), requests[i].(remoteIp := ZERO_ADDR))
    ensures KeepAliveScript(Heads(requests), Zeroed(requests))
    decreases |requests|
  {
    if requests != [] {
      assert forall i :: 0 <= i < |requests[1..]| ==> requests[1..][i] == requests[i + 1];
      PackedScript(requests[1..]);
      ScriptCons(Head(requests[0]), Heads(requests[1..]), requests[0].(remoteIp := ZERO_ADDR), Zeroed(requests[1..]));
      assert Heads(requests) == [Head(requests[0])] + Heads(requests[1..]);
      assert Zeroed(requests) == [requests[0].(remoteIp := ZERO_ADDR)] + Zeroed(requests[1..]);
    }
  }

  /** test.cpp:473-492, for any number of requests: a client that sends
      packed requests back to back on one connection gets every one of
      them to the handler, in order and carrying the peer address, and
      gets one response per request, in the same order, whatever the read
      size of the connection. */
  lemma PipelinedRequests(h: Mocks.MockHandler, requests: seq<Request>, readSize: nat, ip: Addr)
    requires readSize > 0
    requires forall i :: 0 <= i < |requests| ==> Pipelinable(requests[i])
    ensures var bc := Connection.NewBufferedConnection(Mocks.NewMockConnection(PackedStream(requests), readSize, ip));
            var r := HandleConnection(MockHandle, h, bc);
            r.handler.requests == h.requests + Stamped(requests, ip) &&
            r.conn.conn.value.written == Times(Serialize(PackResponse(h.response)), |requests|)
  {
    var bc := Connection.NewBufferedConnection(Mocks.NewMockConnection(PackedStream(requests), readSize, ip));
    assert forall i :: 0 <= i < |requests| ==> Packable(requests[i]);
    PackedStreamIsFramed(requests);
    forall i | 0 <= i < |requests|
      ensures KeepAliveEntry(Head(requests[i]), requests[i].(remoteIp := ZERO_ADDR))
    {
      PackedEntry(requests[i]);
    }
    PackedScript(requests);
    assert bc.conn.value.written == "" && bc.conn.value.remoteIp == ip;
    assert Connection.Pending(bc) == Framed(Heads(requests));
    Pipelined(h, bc, Heads(requests), Zeroed(requests));
    StampedZeroed(requests, ip);
  }

  /** Stamping overwrites the zeroed address. */
  lemma StampedZeroed(requests: seq<Request>, ip: Addr)
    ensures Stamped(Zeroed(requests), ip) == Stamped(requests, ip)
  {
  }

  // ---------------------------------------------------------------------
  // The server vectors of test.cpp:440-471
  // ---------------------------------------------------------------------

  /** A connection whose payload is one packed request without a `Host`
      header gets a 400 and nothing else; the handler is not asked. */
  lemma MissingHostVector<H>(handle: (H, Request) -> Result<(Response, H)>, h: H,
                             req: Request, readSize: nat, ip: Addr)
    requires readSize > 0 && WellFormedRequest(req) && req.body == "" && !HasHeader(req.headers, HOST)
    ensures var bc := Connection.NewBufferedConnection(Mocks.NewMockConnection(Serialize(PackRequest(req)), readSize, ip));
            var r := HandleConnection(handle, h, bc);
            r.handler == h && r.conn.conn.value.written == Serialize(PackResponse(BadRequestResponse()))
  {
    var bc := Connection.NewBufferedConnection(Mocks.NewMockConnection(Serialize(PackRequest(req)), readSize, ip));
    PackedHead(req);
    assert Connection.Pending(bc) == Head(req) + CRLFCRLF + "";
    MissingHostIsBadRequest(handle, h, bc, Head(req), "");
  }

  /** A connection whose payload is one line that fails to parse, and a
      blank line, gets a 400 and nothing else; the handler is not asked. */
  lemma MalformedLine<H>(handle: (H, Request) -> Result<(Response, H)>, h: H,
                         line: string, readSize: nat, ip: Addr)
    requires readSize > 0 && ParseRequestFrame(Frame(line)).Err?
    requires forall i :: 0 <= i < |line| ==> line[i] != '\r'
    ensures var bc := Connection.NewBufferedConnection(Mocks.NewMockConnection(line + CRLFCRLF, readSize, ip));
            var r := HandleConnection(handle, h, bc);
            r.handler == h && r.conn.conn.value.written == Serialize(PackResponse(BadRequestResponse()))
  {
    var bc := Connection.NewBufferedConnection(Mocks.NewMockConnection(line + CRLFCRLF, readSize, ip));
    assert Free(line, CRLF) by {
      forall j: nat
        ensures !OccursAt(line, CRLF, j)
      {
        if j + 2 <= |line| {
          assert line[j..j + 2][0] == line[j];
        }
      }
    }
    if line == "" {
      assert Find(CRLFCRLF, CRLFCRLF) == Some(0);
    } else {
      FirstBlankLine([line]);
      assert Join(CRLF, [line]) == line;
    }
    assert Connection.Pending(bc) == line + CRLFCRLF + "";
    MalformedIsBadRequest(handle, h, bc, line, "");
  }

  lemma ShortLineSingle()
    ensures forall i :: 0 <= i < |"foo bar"| ==> "foo bar"[i] != '\r'
  {
  }

  /** The request line `foo bar` of test.cpp:450 is answered 400. */
  lemma MalformedVector<H>(handle: (H, Request) -> Result<(Response, H)>, h: H, readSize: nat, ip: Addr)
    requires readSize > 0
    ensures var bc := Connection.NewBufferedConnection(Mocks.NewMockConnection("foo bar" + CRLFCRLF, readSize, ip));
            var r := HandleConnection(handle, h, bc);
            r.handler == h && r.conn.conn.value.written == Serialize(PackResponse(BadRequestResponse()))
  {
    HttpVectors.RejectsShortRequestLine();
    ShortLineSingle();
    MalformedLine(handle, h, "foo bar", readSize, ip);
  }
}
