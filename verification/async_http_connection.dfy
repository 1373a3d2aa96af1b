/** `AsyncHttpConnection` of async_http_connection.cpp: reading one request
    frame with the asynchronous buffered reader, parsing it, and writing a
    response, with the errors of either turned into error responses. */
module AsyncHttpConnection {
  import opened Base
  import opened Util
  import opened Http
  import opened AsyncConnection
  import Connection
  import ConnectionHandlers

  /** What the frame callback of `read_request` hands back when it does
      not hand back a null pointer: the pollable the request callback
      returned, or a write pollable sending an error response (whose own
      callback is empty, so nothing follows it). */
  datatype Reply<P> = Continue(result: P) | Respond(writer: WritePollable)

  /** `write_response`: a write pollable for the serialised response. */
  function WriteResponse(response: Response): (w: WritePollable)
    ensures w.totalSent == 0 && !w.done
  {
    Write(Serialize(PackResponse(response)))
  }

  /** The `catch` clauses of the frame callback: a parse error answers 400,
      a closed connection ends quietly with a null pollable (`None`), and
      anything else answers 500. */
  function OnError<P>(e: Exception): (r: Option<Reply<P>>)
    ensures r.None? <==> e == ConnectionClosed
    ensures e == HttpRequestParseError ==> r == Some(Respond(WriteResponse(BadRequestResponse())))
    ensures e != HttpRequestParseError && e != ConnectionClosed ==>
              r == Some(Respond(WriteResponse(InternalServerErrorResponse())))
  {
    match e
    case HttpRequestParseError => Some(Respond(WriteResponse(BadRequestResponse())))
    case ConnectionClosed => None
    case _ => Some(Respond(WriteResponse(InternalServerErrorResponse())))
  }

  /** The frame callback `read_request` passes to `read_until`: parse the
      text before the blank line, stamp the peer address, and call the
      request callback; the callback's own exceptions are caught by the
      same clauses as the parser's. */
  function OnFrame<P>(content: string, ip: Addr, cb: Request -> Result<P>): (r: Option<Reply<P>>)
    ensures ParseRequestFrame(Frame(content)).Err? ==> r == Some(Respond(WriteResponse(BadRequestResponse())))
    ensures ParseRequestFrame(Frame(content)).Ok? ==>
              var request := ParseRequestFrame(Frame(content)).value.(remoteIp := ip);
              r == (match cb(request) case Ok(p) => Some(Continue(p)) case Err(e) => OnError(e))
  {
    match ParseRequestFrame(Frame(content))
    case Err(e) => OnError(e)
    case Ok(request) =>
      match cb(request.(remoteIp := ip))
      case Ok(p) => Some(Continue(p))
      case Err(e) => OnError(e)
  }

  /** The frame callback `read_request` hands to `read_until`. */
  function FrameCallback<P>(ip: Addr, cb: Request -> Result<P>): string -> Option<Reply<P>> {
    (content: string) => OnFrame(content, ip, cb)
  }

  /** What the frame callback hands on for a head that parses to `req`:
      the request callback's pollable for `req` stamped with the peer
      address, or the answer to the error it raised. */
  function Answer<P>(req: Request, ip: Addr, cb: Request -> Result<P>): Option<Reply<P>> {
    match cb(req.(remoteIp := ip))
    case Ok(p) => Some(Continue(p))
    case Err(e) => OnError(e)
  }

  /** `read_request`: `read_until` the blank line, with `OnFrame` as its
      callback. A blank line already buffered is served at once, from the
      text before it; otherwise a reader starts on the unchanged buffer. */
  function ReadRequest<P>(buffer: string, ip: Addr, cb: Request -> Result<P>): (r: Started<Option<Reply<P>>>)
    ensures r.Immediate? <==> Find(buffer, CRLFCRLF).Some?
    ensures r.Reading? ==> r.buffer == buffer
    ensures r.Immediate? ==>
              var (head, rest) := SplitFirst(buffer, CRLFCRLF).value;
              r.result == OnFrame(head, ip, cb) && r.buffer == rest
  {
    ReadUntil(buffer, CRLFCRLF, FrameCallback(ip, cb))
  }

  /** The text before the first blank line of a packed well-formed
      request followed by anything is the request's head, and what follows
      that blank line is the rest. */
  lemma PackedSplit(req: Request, rest: string)
    requires WellFormedRequest(req) && req.body == ""
    ensures SplitFirst(Serialize(PackRequest(req)) + rest, CRLFCRLF) == Some((ConnectionHandlers.Head(req), rest))
  {
    var head := ConnectionHandlers.Head(req);
    ConnectionHandlers.PackedHead(req);
    FindAppend(head + CRLFCRLF, rest, CRLFCRLF);
    var split := SplitFirst(head + CRLFCRLF + rest, CRLFCRLF).value;
    assert |split.0| == |head|;
    assert split.0 == (head + CRLFCRLF + rest)[..|head|] == head;
    assert split.1 == (head + CRLFCRLF + rest)[|head| + |CRLFCRLF|..] == rest;
  }

  /** The frame callback on the head of a packed well-formed request calls
      the request callback on that request, stamped with the peer address. */
  lemma PackedHeadAnswered<P>(req: Request, ip: Addr, cb: Request -> Result<P>)
    requires WellFormedRequest(req) && req.body == ""
    ensures OnFrame(ConnectionHandlers.Head(req), ip, cb) == Answer(req, ip, cb)
  {
    ConnectionHandlers.PackedHead(req);
    assert req.(remoteIp := ZERO_ADDR).(remoteIp := ip) == req.(remoteIp := ip);
  }

  /** A packed request already buffered is read at once: the request
      callback runs on it, stamped with the peer address, and the bytes
      after it stay buffered. */
  lemma ReadRequestBuffered<P>(req: Request, rest: string, ip: Addr, cb: Request -> Result<P>)
    requires WellFormedRequest(req) && req.body == ""
    ensures ReadRequest(Serialize(PackRequest(req)) + rest, ip, cb) == Immediate(Answer(req, ip, cb), rest)
  {
    PackedSplit(req, rest);
    PackedHeadAnswered(req, ip, cb);
  }

  /** The asynchronous counterpart of `ConnectionHandlers.ReadsFirstFrame`,
      for the corrected reader of `Drive`: when `read_request` had to start
      a reader and the bytes then received, in any chunking and with any
      would-blocks between, complete
      a packed well-formed request, the reader delivers that request's head
      and the frame callback hands on what the request callback returns for
      the request stamped with the peer address; what stays buffered is a
      prefix of the bytes after the request. */
  lemma ReadRequestArrives<P>(buffer: string, req: Request, rest: string, ip: Addr, cb: Request -> Result<P>,
                              recvs: seq<Recv>)
    requires WellFormedRequest(req) && req.body == ""
    requires Find(buffer, CRLFCRLF).None?
    requires buffer + Payload(recvs) == Serialize(PackRequest(req)) + rest
    ensures var d := Drive(buffer, CRLFCRLF, FrameCallback(ip, cb), recvs);
            d.Delivered? && d.content == ConnectionHandlers.Head(req) &&
            d.result == Answer(req, ip, cb) && d.buffer <= rest
  {
    DriveIsStream(buffer, CRLFCRLF, FrameCallback(ip, cb), recvs);
    PackedSplit(req, rest);
    PackedHeadAnswered(req, ip, cb);
  }

  /** `ReadRequestArrives` for the reader as written, when no `recv` would
      block: the bytes received, in any chunking, complete a packed
      well-formed request, and the one reader delivers its head and hands
      on the request callback's answer. */
  lemma ReadRequestArrivesAsWritten<P>(buffer: string, req: Request, rest: string, ip: Addr, cb: Request -> Result<P>,
                                       recvs: seq<Recv>)
    requires WellFormedRequest(req) && req.body == ""
    requires Find(buffer, CRLFCRLF).None? && NoWouldBlock(recvs)
    requires buffer + Payload(recvs) == Serialize(PackRequest(req)) + rest
    ensures var d := DriveAsWritten(buffer, CRLFCRLF, FrameCallback(ip, cb), recvs);
            d.Delivered? && d.content == ConnectionHandlers.Head(req) &&
            d.result == Answer(req, ip, cb) && d.buffer <= rest
  {
    NoWouldBlockAgrees(buffer, CRLFCRLF, FrameCallback(ip, cb), recvs);
    ReadRequestArrives(buffer, req, rest, ip, cb, recvs);
  }

  /** A proper prefix of a packed well-formed request holds no blank line:
      the first one ends the head, at the very end. */
  lemma NoEarlyBlankLine(req: Request, got: string)
    requires WellFormedRequest(req) && req.body == ""
    requires got < Serialize(PackRequest(req))
    ensures Find(got, CRLFCRLF).None?
  {
    var packed := Serialize(PackRequest(req));
    if Find(got, CRLFCRLF).Some? {
      var tail := packed[|got|..];
      assert got + tail == packed;
      FindAppend(got, tail, CRLFCRLF);
      ConnectionHandlers.PackedHead(req);
      assert false;
    }
  }

  /** For the corrected reader of `Drive`, until the whole head and its
      blank line have arrived the request callback is not called: bytes
      that are a proper prefix of a packed well-formed request leave the
      reader undelivered. */
  lemma ReadRequestWaitsForHead<P>(buffer: string, req: Request, ip: Addr, cb: Request -> Result<P>, recvs: seq<Recv>)
    requires WellFormedRequest(req) && req.body == ""
    requires Find(buffer, CRLFCRLF).None?
    requires buffer + Payload(recvs) < Serialize(PackRequest(req))
    ensures !Drive(buffer, CRLFCRLF, FrameCallback(ip, cb), recvs).Delivered?
  {
    DriveIsStream(buffer, CRLFCRLF, FrameCallback(ip, cb), recvs);
    NoEarlyBlankLine(req, buffer + Payload(recvs));
  }

  /** The request callback only ever sees a request that parsed, carrying
      the connection's peer address: a frame that fails to parse is
      answered 400 whatever the callback, so the callback is not called,
      and one that parses reaches the callback exactly once, unchanged but
      for the address. */
  lemma RequestCallbackOnlyOnParse<P>(content: string, ip: Addr, cb1: Request -> Result<P>, cb2: Request -> Result<P>)
    ensures ParseRequestFrame(Frame(content)).Err? ==> OnFrame(content, ip, cb1) == OnFrame(content, ip, cb2)
    ensures ParseRequestFrame(Frame(content)).Ok? ==>
              var request := ParseRequestFrame(Frame(content)).value.(remoteIp := ip);
              request.remoteIp == ip && RequestEq(request, ParseRequestFrame(Frame(content)).value) &&
              (cb1(request) == cb2(request) ==> OnFrame(content, ip, cb1) == OnFrame(content, ip, cb2))
  {
  }

  /** A write pollable for a response, notified until done, puts exactly
      the packed response on the wire, once, and then hands back what its
      callback returns. */
  lemma WriteResponseSendsPacked<R>(response: Response, rounds: seq<seq<SendResult>>, cb: () -> R)
    ensures var r := WriteRounds(WriteResponse(response), rounds, cb);
            r.Some? && r.value.0.done ==>
              r.value.1 == Serialize(PackResponse(response)) && r.value.2 == Some(cb())
  {
    var w := WriteResponse(response);
    WriteRoundsSendMessageOnce(w, rounds, cb);
    assert w.message[0..|w.message|] == w.message;
  }
}
