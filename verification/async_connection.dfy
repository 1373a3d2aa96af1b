/** The continuation-passing connection of async_connection.cpp: read and
    write pollables over a non-blocking socket, and the buffered
    `read_until` built on them. What `recv` and `send` report is an input;
    a callback is a function whose result is the pollable it hands back. */
module AsyncConnection {
  import opened Base
  import opened Util
  import opened EventLoop
  import Mocks
  import Connection

  /** The size of the stack buffers `recv` and `send` work through. */
  const BUFSIZE: nat := 1024 * 1024

  // ---------------------------------------------------------------------
  // Reading
  // ---------------------------------------------------------------------

  /** What one `recv` reports: the bytes received (none when the peer has
      shut down), or a failure, which is would-block or something else. */
  datatype Recv = Received(bytes: string) | RecvFailed(wouldBlock: bool)

  /** `try_read`: would-block reads as the empty string, an orderly
      shutdown throws `ConnectionClosed`, any other failure throws
      `ConnectionError`. The empty string therefore never stands for data. */
  function TryRead(recv: Recv): (r: Result<string>)
    ensures r == Ok("") <==> recv == RecvFailed(true)
    ensures r.Ok? && r.value != "" <==> recv.Received? && recv.bytes != ""
    ensures r.Ok? && r.value != "" ==> r.value == recv.bytes
    ensures r.Err? ==> r.error == (if recv.Received? then ConnectionClosed else ConnectionError)
  {
    match recv
    case RecvFailed(wouldBlock) => if wouldBlock then Ok("") else Err(ConnectionError)
    case Received(bytes) => if bytes == "" then Err(ConnectionClosed) else Ok(bytes)
  }

  /** What the `make_read_into_buffer` continuation decides: the buffer now
      holds `sep`, and the callback gets the text before it, or it does not,
      and a fresh read pollable is returned. */
  datatype ReadNext = Found(content: string) | Missing

  /** The `make_read_into_buffer` continuation: append the chunk at the end
      of the shared buffer and rescan the whole buffer for the first `sep`;
      when found, the text before it and the `sep` leave the buffer. */
  function IntoBuffer(buffer: string, sep: string, chunk: string): (r: (ReadNext, string))
    ensures r.0.Found? <==> Find(buffer + chunk, sep).Some?
    ensures r.0.Found? ==> r.0.content + sep + r.1 == buffer + chunk &&
                           Find(buffer + chunk, sep) == Some(|r.0.content|)
    ensures r.0.Missing? ==> r.1 == buffer + chunk
  {
    match SplitFirst(buffer + chunk, sep)
    case Some((before, after)) => (Found(before), after)
    case None => (Missing, buffer + chunk)
  }

  /** What `read_until` returns: the callback's pollable, when `sep` was
      already buffered, or a fresh read pollable. */
  datatype Started<R> = Immediate(result: R, buffer: string) | Reading(buffer: string)

  /** `AsyncBufferedConnection::read_until`: a `sep` already in the buffer
      is served at once, calling the callback synchronously; otherwise the
      buffer is left alone and a read pollable is returned. */
  function ReadUntil<R>(buffer: string, sep: string, cb: string -> R): (r: Started<R>)
    ensures r.Immediate? <==> Find(buffer, sep).Some?
    ensures r.Reading? ==> r.buffer == buffer
  {
    match SplitFirst(buffer, sep)
    case Some((before, after)) => Immediate(cb(before), after)
    case None => Reading(buffer)
  }

  /** A buffered hit is answered exactly as the blocking `read_until` of
      connection.cpp answers it, with the callback invoked once on that
      answer and the buffer left as the blocking reader leaves it. */
  lemma ReadUntilAgreesWithBlocking<R>(bc: Connection.BufferedConnection, sep: string, cb: string -> R)
    requires bc.conn.Some? && Find(bc.buffer, sep).Some?
    ensures var blocking := Connection.ReadUntil(bc, sep);
            blocking.0.Ok? &&
            ReadUntil(bc.buffer, sep, cb) == Immediate(cb(blocking.0.value), blocking.1.buffer)
  {
  }

  /** The pollables of one `read_until` in flight: a `SocketReadPollable`
      (with its done flag) whose continuation is that `read_until`'s, or
      the pollable the callback handed back. */
  datatype ReadPollable<R> = Reader(done: bool) | FromCallback(result: R)

  /** One notification of a reader: its outcome for the event loop, the
      shared buffer afterwards, and the strings the callback was called
      with, in order. */
  datatype ReadNotify<R> = ReadNotify(outcome: Outcome<ReadPollable<R>>, buffer: string, calls: seq<string>)

  /** The successor a notification hands the event loop once the callback
      has run: the pollable the callback returned, or none when it returned
      a null pointer (which the loop does not register). */
  function Successor<R>(p: Option<R>): Option<ReadPollable<R>> {
    match p
    case None => None
    case Some(q) => Some(FromCallback(q))
  }

  /** `SocketReadPollable::notify` as written: the reader is done exactly
      when it received data, and it hands every read, including the empty
      string of a would-block, to the continuation. On a would-block the
      continuation rescans the buffer and, finding no `sep`, returns a
      fresh reader, while the old reader, not being done, stays registered.
      The callback returns a pollable or null (`None`). */
  function NotifyReadAsWritten<R>(buffer: string, sep: string, cb: string -> Option<R>, recv: Recv): (r: ReadNotify<R>)
    ensures r.outcome.Threw? <==> TryRead(recv).Err?
    ensures r.outcome.Threw? ==> r.buffer == buffer && r.calls == []
    ensures r.outcome.Returned? ==> r.outcome.after == Reader(r.outcome.done)
    ensures r.outcome.Returned? ==> (r.outcome.done <==> recv.Received?)
    ensures |r.calls| <= 1
    ensures r.outcome.Returned? ==> (r.outcome.next.None? <==> r.calls != [] && cb(r.calls[0]).None?)
    ensures r.calls != [] ==> r.outcome.Returned?
    ensures r.calls != [] && cb(r.calls[0]).Some? ==> r.outcome.next == Some(FromCallback(cb(r.calls[0]).value))
    ensures r.calls == [] && r.outcome.Returned? ==> r.outcome.next == Some(Reader(false))
  {
    match TryRead(recv)
    case Err(e) => ReadNotify(Threw(e), buffer, [])
    case Ok(s) =>
      var done := s != "";
      match IntoBuffer(buffer, sep, s)
      case (Found(content), rest) =>
        ReadNotify(Returned(Reader(done), done, Successor(cb(content))), rest, [content])
      case (Missing, grown) =>
        ReadNotify(Returned(Reader(done), done, Some(Reader(false))), grown, [])
  }

  /** `SocketReadPollable::notify` as evidently intended: a would-block
      leaves the reader registered, hands back no successor, leaves the
      buffer alone and does not call the callback; received data is handled
      as written. */
  function NotifyRead<R>(buffer: string, sep: string, cb: string -> Option<R>, recv: Recv): (r: ReadNotify<R>)
    ensures r.outcome.Threw? <==> TryRead(recv).Err?
    ensures r.outcome.Threw? ==> r.buffer == buffer && r.calls == []
    ensures recv == RecvFailed(true) ==> r == ReadNotify(Returned(Reader(false), false, None), buffer, [])
    ensures recv.Received? && recv.bytes != "" ==> r == NotifyReadAsWritten(buffer, sep, cb, recv)
  {
    match TryRead(recv)
    case Err(e) => ReadNotify(Threw(e), buffer, [])
    case Ok(s) =>
      if s == "" then ReadNotify(Returned(Reader(false), false, None), buffer, [])
      else NotifyReadAsWritten(buffer, sep, cb, recv)
  }

  /** The single reader of a `read_until` in flight is never asked to
      serve a `sep` already buffered (`read_until` serves those at once),
      so a notification that finds no `sep` leaves the buffer still free of
      one. Exactly one reader is live afterwards unless it threw or
      delivered; after a delivery what is live is the pollable the callback
      returned, or nothing when it returned null. */
  lemma NotifyReadKeepsOneReader<R>(buffer: string, sep: string, cb: string -> Option<R>, recv: Recv)
    requires Find(buffer, sep).None?
    ensures var n := NotifyRead(buffer, sep, cb, recv);
            n.outcome.Returned? && n.calls == [] ==>
              Contribution(n.outcome) == [Reader(false)] && Find(n.buffer, sep).None?
    ensures var n := NotifyRead(buffer, sep, cb, recv);
            n.calls != [] ==>
              Contribution(n.outcome) == (if cb(n.calls[0]).Some? then [FromCallback(cb(n.calls[0]).value)] else [])
    ensures |Contribution(NotifyRead(buffer, sep, cb, recv).outcome)| <= 1
  {
  }

  // ---------------------------------------------------------------------
  // The reader over a sequence of readiness notifications
  // ---------------------------------------------------------------------

  /** Where a `read_until` stands after its reader was notified with some
      `recv` results: the callback ran on `content` and returned `result`,
      it is still waiting, or it threw. */
  datatype ReadProgress<R> =
    | Delivered(content: string, result: R, buffer: string)
    | Waiting(buffer: string)
    | Aborted(error: Exception, buffer: string)

  /** The corrected reader of one `read_until` (`NotifyRead`, not
      `NotifyReadAsWritten`), notified once per `recv` result in turn,
      until the callback runs or `try_read` throws. A reader that
      received data without finding `sep` is done and its successor
      carries on, so one reader is live throughout. */
  function Drive<R>(buffer: string, sep: string, cb: string -> Option<R>, recvs: seq<Recv>): ReadProgress<Option<R>>
    decreases |recvs|
  {
    if recvs == [] then Waiting(buffer)
    else
      var n := NotifyRead(buffer, sep, cb, recvs[0]);
      match n.outcome
      case Threw(e) => Aborted(e, n.buffer)
      case Returned(_, _, next) =>
        if n.calls != [] then Delivered(n.calls[0], cb(n.calls[0]), n.buffer)
        else Drive(n.buffer, sep, cb, recvs[1..])
  }

  /** The bytes a sequence of `recv` results delivers before the first one
      that makes `try_read` throw. */
  function Payload(recvs: seq<Recv>): string
    decreases |recvs|
  {
    if recvs == [] then ""
    else
      match TryRead(recvs[0])
      case Err(_) => ""
      case Ok(s) => s + Payload(recvs[1..])
  }

  /** True when some `recv` result makes `try_read` throw. */
  predicate Interrupted(recvs: seq<Recv>) {
    exists i :: 0 <= i < |recvs| && TryRead(recvs[i]).Err?
  }

  /** One notification of the reader of `Drive`, unfolded. */
  lemma DriveStep<R>(buffer: string, sep: string, cb: string -> Option<R>, recvs: seq<Recv>)
    requires recvs != []
    ensures TryRead(recvs[0]).Err? ==> Drive(buffer, sep, cb, recvs) == Aborted(TryRead(recvs[0]).error, buffer)
    ensures TryRead(recvs[0]) == Ok("") ==> Drive(buffer, sep, cb, recvs) == Drive(buffer, sep, cb, recvs[1..])
    ensures TryRead(recvs[0]).Ok? && TryRead(recvs[0]).value != "" ==>
              var (next, rest) := IntoBuffer(buffer, sep, TryRead(recvs[0]).value);
              Drive(buffer, sep, cb, recvs) ==
                if next.Found? then Delivered(next.content, cb(next.content), rest)
                else Drive(rest, sep, cb, recvs[1..])
  {
  }

  /** The bytes of a first `recv` result that does not throw come first. */
  lemma PayloadStep(recvs: seq<Recv>)
    requires recvs != [] && TryRead(recvs[0]).Ok?
    ensures Payload(recvs) == TryRead(recvs[0]).value + Payload(recvs[1..])
  {
  }

  /** A first `recv` result that does not throw leaves the question of an
      interruption to the rest. */
  lemma InterruptedStep(recvs: seq<Recv>)
    requires recvs != [] && TryRead(recvs[0]).Ok?
    ensures Interrupted(recvs) <==> Interrupted(recvs[1..])
  {
    if Interrupted(recvs[1..]) {
      var i :| 0 <= i < |recvs[1..]| && TryRead(recvs[1..][i]).Err?;
      assert TryRead(recvs[i + 1]).Err?;
    }
    if Interrupted(recvs) {
      var i :| 0 <= i < |recvs| && TryRead(recvs[i]).Err?;
      assert TryRead(recvs[1..][i - 1]).Err?;
    }
  }

  /** What `DriveIsStream` states of a reader that started on `buffer` and
      was offered `payload`. */
  ghost predicate AgreesWithStream<R>(d: ReadProgress<R>, buffer: string, payload: string, sep: string, cb: string -> R) {
    var (expected, left) := Connection.StreamReadUntil(buffer + payload, sep);
    (d.Delivered? <==> expected.Ok?) &&
    (d.Delivered? ==> d.content == expected.value && d.result == cb(d.content) && d.buffer <= left) &&
    (!d.Delivered? ==> d.buffer == buffer + payload)
  }

  /** The corrected reader delivers exactly what reading the buffer and
      the bytes received as one stream gives, whatever their chunking and
      however many would-blocks come between (as written, a would-block
      registers a second reader; `DriveAsWrittenIsStream` carries this over
      to input without one): the callback runs once, on the text
      before the first `sep`, exactly when the stream holds one, and what
      stays buffered is a prefix of what follows that `sep`. Short of a
      `sep`, the buffer holds everything received. */
  lemma {:induction false} DriveIsStream<R>(buffer: string, sep: string, cb: string -> Option<R>, recvs: seq<Recv>)
    requires Find(buffer, sep).None?
    ensures AgreesWithStream(Drive(buffer, sep, cb, recvs), buffer, Payload(recvs), sep, cb)
    decreases |recvs|
  {
    if recvs == [] || TryRead(recvs[0]).Err? {
      DriveStops(buffer, sep, cb, recvs);
    } else {
      var chunk := TryRead(recvs[0]).value;
      if chunk == "" {
        DriveIsStream(buffer, sep, cb, recvs[1..]);
        DriveSkipsEmpty(buffer, sep, cb, recvs);
      } else if Find(buffer + chunk, sep).Some? {
        DriveDelivers(buffer, sep, cb, recvs);
      } else {
        DriveIsStream(buffer + chunk, sep, cb, recvs[1..]);
        DriveBuffers(buffer, sep, cb, recvs, chunk);
      }
    }
  }

  /** No `recv` results, or a first one that throws: the reader holds the
      buffer and the stream has no `sep` yet. */
  lemma DriveStops<R>(buffer: string, sep: string, cb: string -> Option<R>, recvs: seq<Recv>)
    requires Find(buffer, sep).None? && (recvs == [] || TryRead(recvs[0]).Err?)
    ensures AgreesWithStream(Drive(buffer, sep, cb, recvs), buffer, Payload(recvs), sep, cb)
  {
    if recvs != [] {
      DriveStep(buffer, sep, cb, recvs);
    }
    assert buffer + Payload(recvs) == buffer;
  }

  /** A would-block or empty chunk changes nothing. */
  lemma DriveSkipsEmpty<R>(buffer: string, sep: string, cb: string -> Option<R>, recvs: seq<Recv>)
    requires recvs != [] && TryRead(recvs[0]) == Ok("")
    requires AgreesWithStream(Drive(buffer, sep, cb, recvs[1..]), buffer, Payload(recvs[1..]), sep, cb)
    ensures AgreesWithStream(Drive(buffer, sep, cb, recvs), buffer, Payload(recvs), sep, cb)
  {
    DriveStep(buffer, sep, cb, recvs);
    PayloadStep(recvs);
    assert Payload(recvs) == Payload(recvs[1..]);
  }

  /** A chunk that completes no `sep` is buffered and the reader goes on. */
  lemma DriveBuffers<R>(buffer: string, sep: string, cb: string -> Option<R>, recvs: seq<Recv>, chunk: string)
    requires recvs != [] && TryRead(recvs[0]) == Ok(chunk) && chunk != "" && Find(buffer + chunk, sep).None?
    requires AgreesWithStream(Drive(buffer + chunk, sep, cb, recvs[1..]), buffer + chunk, Payload(recvs[1..]), sep, cb)
    ensures AgreesWithStream(Drive(buffer, sep, cb, recvs), buffer, Payload(recvs), sep, cb)
  {
    BufferingStep(buffer, sep, cb, recvs, chunk);
    PayloadRegroup(buffer, recvs, chunk);
    AgreesRegroup(Drive(buffer, sep, cb, recvs), buffer, Payload(recvs), buffer + chunk, Payload(recvs[1..]), sep, cb);
  }

  /** The step of `DriveBuffers`: the reader goes on from the longer
      buffer. */
  lemma BufferingStep<R>(buffer: string, sep: string, cb: string -> Option<R>, recvs: seq<Recv>, chunk: string)
    requires recvs != [] && TryRead(recvs[0]) == Ok(chunk) && chunk != "" && Find(buffer + chunk, sep).None?
    ensures Drive(buffer, sep, cb, recvs) == Drive(buffer + chunk, sep, cb, recvs[1..])
  {
    DriveStep(buffer, sep, cb, recvs);
    var (next, rest) := IntoBuffer(buffer, sep, chunk);
    assert next.Missing? && rest == buffer + chunk;
  }

  /** A first chunk that does not throw may as well have been buffered. */
  lemma PayloadRegroup(buffer: string, recvs: seq<Recv>, chunk: string)
    requires recvs != [] && TryRead(recvs[0]) == Ok(chunk)
    ensures buffer + Payload(recvs) == (buffer + chunk) + Payload(recvs[1..])
  {
    PayloadStep(recvs);
  }

  /** Only the whole stream matters, not where the buffer ends. */
  lemma AgreesRegroup<R>(d: ReadProgress<R>, b1: string, p1: string, b2: string, p2: string, sep: string, cb: string -> R)
    requires b1 + p1 == b2 + p2 && AgreesWithStream(d, b2, p2, sep, cb)
    ensures AgreesWithStream(d, b1, p1, sep, cb)
  {
  }

  /** A chunk that completes a `sep` delivers. */
  lemma DriveDelivers<R>(buffer: string, sep: string, cb: string -> Option<R>, recvs: seq<Recv>)
    requires recvs != [] && TryRead(recvs[0]).Ok? && TryRead(recvs[0]).value != ""
    requires Find(buffer + TryRead(recvs[0]).value, sep).Some?
    ensures AgreesWithStream(Drive(buffer, sep, cb, recvs), buffer, Payload(recvs), sep, cb)
  {
    var chunk := TryRead(recvs[0]).value;
    DriveStep(buffer, sep, cb, recvs);
    PayloadStep(recvs);
    DeliverIsStream(buffer, sep, cb, chunk, Payload(recvs[1..]));
  }

  /** The chunk that completes a `sep` delivers the stream's answer. */
  lemma DeliverIsStream<R>(buffer: string, sep: string, cb: string -> R, chunk: string, rest: string)
    requires Find(buffer + chunk, sep).Some?
    ensures var (next, left) := IntoBuffer(buffer, sep, chunk);
            AgreesWithStream(Delivered(next.content, cb(next.content), left), buffer, chunk + rest, sep, cb)
  {
    var (before, after) := SplitFirst(buffer + chunk, sep).value;
    SplitFirstAppend(buffer + chunk, rest, sep);
    assert buffer + (chunk + rest) == (buffer + chunk) + rest;
    assert after <= after + rest;
  }

  /** The corrected reader stops short of delivering by throwing exactly
      when some `recv` result made `try_read` throw. */
  lemma {:induction false} DriveAbortsOnlyOnError<R>(buffer: string, sep: string, cb: string -> Option<R>, recvs: seq<Recv>)
    ensures Drive(buffer, sep, cb, recvs).Aborted? ==> Interrupted(recvs)
    ensures Drive(buffer, sep, cb, recvs).Waiting? ==> !Interrupted(recvs)
    decreases |recvs|
  {
    if recvs != [] {
      DriveStep(buffer, sep, cb, recvs);
      var got := TryRead(recvs[0]);
      if got.Ok? {
        InterruptedStep(recvs);
        var (_, rest) := IntoBuffer(buffer, sep, got.value);
        DriveAbortsOnlyOnError(buffer, sep, cb, recvs[1..]);
        DriveAbortsOnlyOnError(rest, sep, cb, recvs[1..]);
      }
    }
  }

  /** For the corrected reader, how the received bytes are chunked, and
      where would-blocks fall, does not change what the callback gets. */
  lemma ChunkingIrrelevant<R>(buffer: string, sep: string, cb: string -> Option<R>, recvs1: seq<Recv>, recvs2: seq<Recv>)
    requires Find(buffer, sep).None? && Payload(recvs1) == Payload(recvs2)
    ensures Drive(buffer, sep, cb, recvs1).Delivered? <==> Drive(buffer, sep, cb, recvs2).Delivered?
    ensures Drive(buffer, sep, cb, recvs1).Delivered? ==>
              Drive(buffer, sep, cb, recvs1).content == Drive(buffer, sep, cb, recvs2).content
  {
    DriveIsStream(buffer, sep, cb, recvs1);
    DriveIsStream(buffer, sep, cb, recvs2);
  }

  /** The corrected asynchronous reader and the blocking reader of
      connection.cpp agree: given the same buffer and the same bytes to come, the callback
      gets what the blocking `read_until` returns, and both deliver exactly
      when those bytes hold a `sep`. */
  lemma DriveAgreesWithBlocking<R>(buffer: string, sep: string, cb: string -> Option<R>, recvs: seq<Recv>, readSize: nat, ip: Addr)
    requires Find(buffer, sep).None? && readSize > 0
    ensures var bc := Connection.BufferedConnection(Some(Mocks.NewMockConnection(Payload(recvs), readSize, ip)), buffer);
            var blocking := Connection.ReadUntil(bc, sep).0;
            var d := Drive(buffer, sep, cb, recvs);
            (d.Delivered? <==> blocking.Ok?) && (d.Delivered? ==> d.content == blocking.value)
  {
    var bc := Connection.BufferedConnection(Some(Mocks.NewMockConnection(Payload(recvs), readSize, ip)), buffer);
    Connection.ReadUntilIsStream(bc, sep);
    DriveIsStream(buffer, sep, cb, recvs);
  }

  // ---------------------------------------------------------------------
  // The would-block reader, as written and as intended
  // ---------------------------------------------------------------------

  /** As written, a would-block with no `sep` buffered leaves two readers
      registered where there was one: the old one, not done, and the fresh
      one its continuation returned. */
  lemma WouldBlockDuplicatesReaderAsWritten<R>(buffer: string, sep: string, cb: string -> Option<R>)
    requires Find(buffer, sep).None?
    ensures var n := NotifyReadAsWritten(buffer, sep, cb, RecvFailed(true));
            n.calls == [] && n.buffer == buffer && Contribution(n.outcome) == [Reader(false), Reader(false)]
  {
    assert buffer + "" == buffer;
  }

  /** As written, a reader that would block serves a `sep` already in the
      shared buffer, calling the callback on the text before it. */
  lemma WouldBlockServesBufferAsWritten<R>(buffer: string, sep: string, cb: string -> Option<R>)
    requires Find(buffer, sep).Some?
    ensures var n := NotifyReadAsWritten(buffer, sep, cb, RecvFailed(true));
            n.calls == [SplitFirst(buffer, sep).value.0] && n.buffer == SplitFirst(buffer, sep).value.1
  {
    assert buffer + "" == buffer;
  }

  /** As written, one `read_until` can call its callback twice. A reader
      that would block registers a second reader beside itself; when data
      holding two `sep`s then arrives, the first reader delivers the text
      before the first `sep`, and the second, notified in the same tick,
      would block, rescans the shared buffer and delivers the text before
      the second. */
  lemma DoubleDeliveryAsWritten<R>(sep: string, r1: string, r2: string, cb: string -> Option<R>)
    requires sep != ""
    requires forall j :: 0 <= j < |r1| ==> r1[j] != sep[0]
    requires forall j :: 0 <= j < |r2| ==> r2[j] != sep[0]
    ensures var first := NotifyReadAsWritten("", sep, cb, RecvFailed(true));
            first.calls == [] && first.buffer == "" &&
            Contribution(first.outcome) == [Reader(false), Reader(false)]
    ensures var a := NotifyReadAsWritten("", sep, cb, Received(r1 + sep + r2 + sep));
            var b := NotifyReadAsWritten(a.buffer, sep, cb, RecvFailed(true));
            a.calls + b.calls == [r1, r2] && b.buffer == ""
  {
    assert Find("", sep).None?;
    WouldBlockDuplicatesReaderAsWritten("", sep, cb);
    ArrivalAsWritten(sep, r1, r2, cb);
    SecondReaderAsWritten(sep, r2, cb);
  }

  /** The arrival of `r1 + sep + r2 + sep` on an empty buffer delivers
      `r1` and buffers the rest. */
  lemma ArrivalAsWritten<R>(sep: string, r1: string, r2: string, cb: string -> Option<R>)
    requires sep != ""
    requires forall j :: 0 <= j < |r1| ==> r1[j] != sep[0]
    ensures var a := NotifyReadAsWritten("", sep, cb, Received(r1 + sep + r2 + sep));
            a.calls == [r1] && a.buffer == r2 + sep
  {
    assert "" + (r1 + sep + r2 + sep) == r1 + sep + (r2 + sep);
    SplitFirstAfterHeadFree(r1, sep, r2 + sep);
  }

  /** A reader that would block on `r2 + sep` delivers `r2` and empties
      the buffer. */
  lemma SecondReaderAsWritten<R>(sep: string, r2: string, cb: string -> Option<R>)
    requires sep != ""
    requires forall j :: 0 <= j < |r2| ==> r2[j] != sep[0]
    ensures var b := NotifyReadAsWritten(r2 + sep, sep, cb, RecvFailed(true));
            b.calls == [r2] && b.buffer == ""
  {
    assert r2 + sep == r2 + sep + "";
    SplitFirstAfterHeadFree(r2, sep, "");
    WouldBlockServesBufferAsWritten(r2 + sep, sep, cb);
  }

  /** As intended, the would-block registers nothing new, and the same
      arrival calls the callback once, on the text before the first `sep`,
      leaving the rest buffered for the next `read_until`. */
  lemma SingleDelivery<R>(sep: string, r1: string, r2: string, cb: string -> Option<R>)
    requires sep != ""
    requires forall j :: 0 <= j < |r1| ==> r1[j] != sep[0]
    ensures var first := NotifyRead("", sep, cb, RecvFailed(true));
            first.calls == [] && first.buffer == "" && Contribution(first.outcome) == [Reader(false)]
    ensures var a := NotifyRead("", sep, cb, Received(r1 + sep + r2 + sep));
            a.calls == [r1] && a.buffer == r2 + sep &&
            Contribution(a.outcome) == (if cb(r1).Some? then [FromCallback(cb(r1).value)] else [])
  {
    assert Find("", sep).None?;
    assert "" + (r1 + sep + r2 + sep) == r1 + sep + (r2 + sep);
    SplitFirstAfterHeadFree(r1, sep, r2 + sep);
  }

  /** True when no `recv` result is a would-block. */
  predicate NoWouldBlock(recvs: seq<Recv>) {
    forall i :: 0 <= i < |recvs| ==> recvs[i] != RecvFailed(true)
  }

  /** The reader of one `read_until` as written, followed along the one
      reader it leaves live after each notification: `Drive` with
      `NotifyReadAsWritten` for `NotifyRead`. */
  function DriveAsWritten<R>(buffer: string, sep: string, cb: string -> Option<R>, recvs: seq<Recv>): ReadProgress<Option<R>>
    decreases |recvs|
  {
    if recvs == [] then Waiting(buffer)
    else
      var n := NotifyReadAsWritten(buffer, sep, cb, recvs[0]);
      match n.outcome
      case Threw(e) => Aborted(e, n.buffer)
      case Returned(_, _, next) =>
        if n.calls != [] then Delivered(n.calls[0], cb(n.calls[0]), n.buffer)
        else DriveAsWritten(n.buffer, sep, cb, recvs[1..])
  }

  /** Short of a would-block, the reader as written and the corrected
      reader are notified alike: the correction changes nothing else. */
  lemma NotifyAgreesWithoutWouldBlock<R>(buffer: string, sep: string, cb: string -> Option<R>, recv: Recv)
    requires recv != RecvFailed(true)
    ensures NotifyRead(buffer, sep, cb, recv) == NotifyReadAsWritten(buffer, sep, cb, recv)
  {
  }

  /** When no `recv` would block, the reader as written is the corrected
      reader of `Drive`, step for step: no second reader is ever
      registered, so what is proved of `Drive` holds of the source as
      written for such input. */
  lemma {:induction false} NoWouldBlockAgrees<R>(buffer: string, sep: string, cb: string -> Option<R>, recvs: seq<Recv>)
    requires NoWouldBlock(recvs)
    ensures Drive(buffer, sep, cb, recvs) == DriveAsWritten(buffer, sep, cb, recvs)
    decreases |recvs|
  {
    if recvs != [] {
      assert recvs[0] != RecvFailed(true);
      NotifyAgreesWithoutWouldBlock(buffer, sep, cb, recvs[0]);
      var n := NotifyRead(buffer, sep, cb, recvs[0]);
      assert NoWouldBlock(recvs[1..]) by {
        forall i | 0 <= i < |recvs[1..]| ensures recvs[1..][i] != RecvFailed(true) {
          assert recvs[1..][i] == recvs[i + 1];
        }
      }
      NoWouldBlockAgrees(n.buffer, sep, cb, recvs[1..]);
    }
  }

  /** As written, a reader that never would block delivers exactly what
      reading the buffer and the bytes received as one stream gives,
      whatever their chunking: the callback runs once, on the text before
      the first `sep`, exactly when the stream holds one. */
  lemma DriveAsWrittenIsStream<R>(buffer: string, sep: string, cb: string -> Option<R>, recvs: seq<Recv>)
    requires Find(buffer, sep).None? && NoWouldBlock(recvs)
    ensures AgreesWithStream(DriveAsWritten(buffer, sep, cb, recvs), buffer, Payload(recvs), sep, cb)
  {
    NoWouldBlockAgrees(buffer, sep, cb, recvs);
    DriveIsStream(buffer, sep, cb, recvs);
  }

  // ---------------------------------------------------------------------
  // Writing
  // ---------------------------------------------------------------------

  /** What one `send` reports: a byte count, or a failure. Every failure
      is handled alike, since the would-block test
      `errno == EAGAIN || EWOULDBLOCK` holds whatever `errno` is. */
  datatype SendResult = Sent(count: nat) | SendFailed

  /** `SocketWritePollable`: the message, how much of it has gone out, and
      the done flag. */
  datatype WritePollable = WritePollable(message: string, totalSent: nat, done: bool)

  /** `AsyncBufferedConnection::write`: a write pollable with nothing sent. */
  function Write(message: string): (w: WritePollable)
    ensures w.message == message && w.totalSent == 0 && !w.done
  {
    WritePollable(message, 0, false)
  }

  /** The result of one `try_write`: whether it finished, the new
      `total_sent`, the bytes that went out, in order, and how many `send`
      results it used. */
  datatype WriteAttempt = WriteAttempt(done: bool, totalSent: nat, wire: string, used: nat)

  /** `try_write`: its `do ... while` loop asks `send` for the rest of the
      message from `total_sent`, at most `BUFSIZE` bytes at a time, and
      advances by what was sent, until all is sent or a `send` fails. A
      `send` never reports more than it was asked for, so a larger count is
      read as the amount asked. `None` when the `send` results given run
      out before the loop ends. Even an empty message makes one `send`. */
  function TryWrite(message: string, totalSent: nat, sends: seq<SendResult>): (r: Option<WriteAttempt>)
    requires totalSent <= |message|
    ensures r.Some? ==> totalSent <= r.value.totalSent <= |message|
    ensures r.Some? ==> r.value.wire == message[totalSent..r.value.totalSent]
    ensures r.Some? ==> 0 < r.value.used <= |sends| && |r.value.wire| <= r.value.used * BUFSIZE
    ensures r.Some? && r.value.done ==> r.value.totalSent == |message|
    ensures r.Some? && totalSent < |message| ==> (r.value.done <==> r.value.totalSent == |message|)
    ensures r.Some? && !r.value.done ==> sends[r.value.used - 1] == SendFailed
    ensures sends != [] && sends[0] == SendFailed ==> r == Some(WriteAttempt(false, totalSent, "", 1))
    decreases |sends|
  {
    if sends == [] then None
    else
      var amount := Min(|message| - totalSent, BUFSIZE);
      match sends[0]
      case SendFailed => Some(WriteAttempt(false, totalSent, "", 1))
      case Sent(count) =>
        var total := totalSent + Min(count, amount);
        var bytes := message[totalSent..total];
        if total < |message| then
          match TryWrite(message, total, sends[1..])
          case None => None
          case Some(a) => Some(a.(wire := bytes + a.wire, used := a.used + 1))
        else Some(WriteAttempt(true, total, bytes, 1))
  }

  /** `SocketWritePollable::notify`: runs `try_write`, records whether it
      finished, and calls the callback, handing back its pollable, exactly
      when it did; otherwise it hands back null. */
  function NotifyWrite<R>(w: WritePollable, sends: seq<SendResult>, cb: () -> R): (r: Option<(WritePollable, Option<R>)>)
    requires w.totalSent <= |w.message|
    ensures r.Some? ==> r.value.0.message == w.message && w.totalSent <= r.value.0.totalSent <= |w.message|
    ensures r.Some? ==> (r.value.1.Some? <==> r.value.0.done)
    ensures r.Some? && r.value.1.Some? ==> r.value.1.value == cb() && r.value.0.totalSent == |w.message|
  {
    match TryWrite(w.message, w.totalSent, sends)
    case None => None
    case Some(a) =>
      Some((w.(totalSent := a.totalSent, done := a.done), if a.done then Some(cb()) else None))
  }

  /** A write pollable notified once per tick, each time with its own
      `send` results, until it is done: the bytes sent and the callback's
      pollable, if it ran. `None` when some tick's `send` results run out. */
  function WriteRounds<R>(w: WritePollable, rounds: seq<seq<SendResult>>, cb: () -> R): (r: Option<(WritePollable, string, Option<R>)>)
    requires w.totalSent <= |w.message|
    decreases |rounds|
  {
    if rounds == [] || w.done then Some((w, "", None))
    else
      match TryWrite(w.message, w.totalSent, rounds[0])
      case None => None
      case Some(a) =>
        if a.done then Some((w.(totalSent := a.totalSent, done := true), a.wire, Some(cb())))
        else
          match WriteRounds(w.(totalSent := a.totalSent), rounds[1..], cb)
          case None => None
          case Some((last, wire, called)) => Some((last, a.wire + wire, called))
  }

  /** Over any number of ticks the bytes on the wire are the message, in
      order, from where the pollable stood, with nothing skipped or sent
      twice; the callback runs at most once, and exactly when the whole
      message has gone out. */
  lemma {:induction false} WriteRoundsSendMessageOnce<R>(w: WritePollable, rounds: seq<seq<SendResult>>, cb: () -> R)
    requires w.totalSent <= |w.message| && !w.done
    ensures var r := WriteRounds(w, rounds, cb);
            r.Some? ==>
              r.value.0.message == w.message && w.totalSent <= r.value.0.totalSent <= |w.message| &&
              r.value.1 == w.message[w.totalSent..r.value.0.totalSent] &&
              (r.value.2.Some? <==> r.value.0.done) &&
              (r.value.2.Some? ==> r.value.2.value == cb() && r.value.0.totalSent == |w.message|)
    decreases |rounds|
  {
    if rounds != [] {
      match TryWrite(w.message, w.totalSent, rounds[0])
      case None =>
      case Some(a) =>
        if a.done {
          assert WriteRounds(w, rounds, cb) == Some((w.(totalSent := a.totalSent, done := true), a.wire, Some(cb())));
        } else {
          var w' := w.(totalSent := a.totalSent);
          WriteRoundsSendMessageOnce(w', rounds[1..], cb);
          var r := WriteRounds(w', rounds[1..], cb);
          if r.Some? {
            assert WriteRounds(w, rounds, cb) == Some((r.value.0, a.wire + r.value.1, r.value.2));
            AdjacentSlices(w.message, w.totalSent, a.totalSent, r.value.0.totalSent);
          }
        }
    }
  }

  /** Two adjacent slices of a string make the slice that spans both. */
  lemma AdjacentSlices(s: string, i: nat, j: nat, k: nat)
    requires i <= j <= k <= |s|
    ensures s[i..j] + s[j..k] == s[i..k]
  {
  }
}
