/** The environment the rest of the server runs against: the in-memory
    connection, listener, request handler, file repository and DNS client
    of mocks.cpp. The socket-backed implementations are not part of this
    model; these are the connections, files and lookups it reasons about. */
module Mocks {
  import opened Base
  import opened Util
  import opened Http

  // ---------------------------------------------------------------------
  // MockConnection
  // ---------------------------------------------------------------------

  /** The read size a `MockConnection` gets when none is given. */
  const DEFAULT_READ_SIZE: nat := 100

  /** `MockConnection`: the part of its payload not yet read, how many bytes
      one `read` takes, everything written to it, the closed flag and the
      peer address. Payloads are taken to be free of NUL bytes. */
  datatype MockConnection = MockConnection(
    unread: string,
    readSize: nat,
    written: string,
    closed: bool,
    remoteIp: Addr)

  function NewMockConnection(payload: string, readSize: nat, remoteIp: Addr): MockConnection {
    MockConnection(payload, readSize, "", false, remoteIp)
  }

  /** `MockConnection::read`: the next at most `readSize` bytes of the
      payload; a read that would return nothing throws `ConnectionClosed`
      and leaves the connection as it was. A read only comes up short at
      the end of the payload. */
  function Read(c: MockConnection): (r: (Result<string>, MockConnection))
    ensures r.0.Err? <==> c.readSize == 0 || c.unread == ""
    ensures r.0.Err? ==> r.0.error == ConnectionClosed && r.1 == c
    ensures r.0.Ok? ==> r.0.value != "" && r.0.value + r.1.unread == c.unread
    ensures r.0.Ok? ==> |r.0.value| == c.readSize || r.1.unread == ""
    ensures r.1 == c.(unread := r.1.unread)
  {
    var received := Min(c.readSize, |c.unread|);
    if received == 0 then (Err(ConnectionClosed), c)
    else (Ok(c.unread[..received]), c.(unread := c.unread[received..]))
  }

  /** The chunks successive reads return, up to the first `ConnectionClosed`. */
  function ReadAll(c: MockConnection): (chunks: seq<string>)
    decreases |c.unread|
  {
    match Read(c)
    case (Err(_), _) => []
    case (Ok(chunk), next) => [chunk] + ReadAll(next)
  }

  /** Reading a mock to exhaustion delivers its payload, in order, in
      chunks of exactly `readSize` bytes except possibly the last; a mock
      with a zero read size delivers nothing. */
  lemma {:induction false} ReadAllDeliversPayload(c: MockConnection)
    requires c.readSize > 0
    ensures Flatten(ReadAll(c)) == c.unread
    ensures forall i :: 0 <= i < |ReadAll(c)| ==> 0 < |ReadAll(c)[i]| <= c.readSize
    ensures forall i :: 0 <= i < |ReadAll(c)| - 1 ==> |ReadAll(c)[i]| == c.readSize
    decreases |c.unread|
  {
    match Read(c)
    case (Err(_), _) =>
    case (Ok(chunk), next) =>
      ReadAllDeliversPayload(next);
      var rest := ReadAll(next);
      assert ReadAll(c) == [chunk] + rest;
      assert Flatten(ReadAll(c)) == chunk + Flatten(rest);
      if rest != [] {
        assert next.unread != "";
      }
      forall i | 0 < i < |ReadAll(c)|
        ensures ReadAll(c)[i] == rest[i - 1]
      {
      }
  }

  /** Once a mock is exhausted, every further read throws `ConnectionClosed`. */
  lemma ExhaustedStaysClosed(c: MockConnection)
    requires Read(c).0.Err?
    ensures Read(Read(c).1) == (Err(ConnectionClosed), c)
  {
  }

  /** `MockConnection::write`: appends to what `written()` reports. */
  function Write(c: MockConnection, s: string): MockConnection {
    c.(written := c.written + s)
  }

  /** Writes in sequence. */
  function WriteAll(c: MockConnection, parts: seq<string>): MockConnection
    decreases |parts|
  {
    if parts == [] then c else WriteAll(Write(c, parts[0]), parts[1..])
  }

  /** `written()` after a series of writes is their concatenation, and
      writing never disturbs what is left to read. */
  lemma {:induction false} WritesAccumulate(c: MockConnection, parts: seq<string>)
    ensures WriteAll(c, parts).written == c.written + Flatten(parts)
    ensures WriteAll(c, parts) == c.(written := WriteAll(c, parts).written)
    decreases |parts|
  {
    if parts != [] {
      WritesAccumulate(Write(c, parts[0]), parts[1..]);
    }
  }

  /** `MockConnection::close` and `is_closed`. */
  function Close(c: MockConnection): MockConnection {
    c.(closed := true)
  }

  predicate IsClosed(c: MockConnection) {
    c.closed
  }

  // ---------------------------------------------------------------------
  // MockListener
  // ---------------------------------------------------------------------

  /** `MockListener`: the connections still to hand out, kept reversed so
      the next one is at the back. */
  datatype MockListener<C> = MockListener(stack: seq<C>)

  function Reverse<T>(s: seq<T>): (r: seq<T>)
    ensures |r| == |s|
    ensures forall i :: 0 <= i < |s| ==> r[i] == s[|s| - 1 - i]
  {
    if s == [] then [] else Reverse(s[1..]) + [s[0]]
  }

  /** The constructor reverses its argument. */
  function NewMockListener<C>(connections: seq<C>): MockListener<C> {
    MockListener(Reverse(connections))
  }

  /** `MockListener::accept`: pops the back connection; with none left it
      throws `ListenerError`. */
  function Accept<C>(l: MockListener<C>): (r: (Result<C>, MockListener<C>))
    ensures r.0.Err? <==> l.stack == []
    ensures r.0.Err? ==> r.0.error == ListenerError && r.1 == l
    ensures r.0.Ok? ==> r.1.stack + [r.0.value] == l.stack
  {
    if l.stack == [] then (Err(ListenerError), l)
    else (Ok(l.stack[|l.stack| - 1]), MockListener(l.stack[..|l.stack| - 1]))
  }

  /** What successive calls to `accept` return until the first error. */
  function AcceptAll<C>(l: MockListener<C>): seq<C>
    decreases |l.stack|
  {
    match Accept(l)
    case (Err(_), _) => []
    case (Ok(c), next) => [c] + AcceptAll(next)
  }

  /** A listener hands out its connections in the order it was given them,
      then throws `ListenerError`. */
  lemma {:induction false} AcceptInOrder<C>(connections: seq<C>)
    ensures AcceptAll(NewMockListener(connections)) == connections
    decreases |connections|
  {
    if connections != [] {
      var l := NewMockListener(connections);
      var next := Accept(l).1;
      assert Accept(l).0 == Ok(connections[0]);
      assert next.stack == Reverse(connections[1..]);
      AcceptInOrder(connections[1..]);
      assert AcceptAll(l) == [connections[0]] + connections[1..];
    }
  }

  // ---------------------------------------------------------------------
  // MockHttpRequestHandler
  // ---------------------------------------------------------------------

  /** `MockHttpRequestHandler`: a fixed response and a copy of every
      request it was asked to handle. */
  datatype MockHandler = MockHandler(response: Response, requests: seq<Request>)

  function HandleRequest(h: MockHandler, req: Request): (r: (Response, MockHandler))
    ensures r.0 == h.response
    ensures r.1.response == h.response && |r.1.requests| == |h.requests| + 1
    ensures r.1.requests[..|h.requests|] == h.requests && r.1.requests[|h.requests|] == req
  {
    (h.response, h.(requests := h.requests + [req]))
  }

  /** Handling a series of requests. */
  function HandleAll(h: MockHandler, reqs: seq<Request>): (r: (seq<Response>, MockHandler))
    decreases |reqs|
  {
    if reqs == [] then ([], h)
    else
      var (resp, h') := HandleRequest(h, reqs[0]);
      var (rest, last) := HandleAll(h', reqs[1..]);
      ([resp] + rest, last)
  }

  /** The handler records the requests in the order they came and answers
      each with its fixed response. */
  lemma {:induction false} HandlerRecordsInOrder(h: MockHandler, reqs: seq<Request>)
    ensures HandleAll(h, reqs).1.requests == h.requests + reqs
    ensures HandleAll(h, reqs).1.response == h.response
    ensures |HandleAll(h, reqs).0| == |reqs|
    ensures forall i :: 0 <= i < |reqs| ==> HandleAll(h, reqs).0[i] == h.response
    decreases |reqs|
  {
    if reqs != [] {
      var h' := HandleRequest(h, reqs[0]).1;
      HandlerRecordsInOrder(h', reqs[1..]);
      assert h.requests + [reqs[0]] + reqs[1..] == h.requests + reqs;
    }
  }

  // ---------------------------------------------------------------------
  // Files and DNS
  // ---------------------------------------------------------------------

  /** `File`: whether others may read it, its bytes and its modification
      time, the last kept as the header text it is rendered to. */
  datatype File = File(worldReadable: bool, contents: string, lastModified: string)

  /** `MockFileRepository`: files by path. */
  type FileRepository = map<string, File>

  /** `get_file`: a null pointer for a path that is not stored. */
  function GetFile(repo: FileRepository, path: string): (r: Option<File>)
    ensures r.Some? <==> path in repo
    ensures r.Some? ==> r.value == repo[path]
  {
    if path in repo then Some(repo[path]) else None
  }

  /** `MockDnsClient`: addresses by domain name. */
  type DnsTable = map<string, seq<Addr>>

  /** `MockDnsClient::lookup`: no addresses for an unknown name. */
  function Lookup(table: DnsTable, domain: string): (r: seq<Addr>)
    ensures domain in table ==> r == table[domain]
    ensures domain !in table ==> r == []
  {
    if domain in table then table[domain] else []
  }
}
