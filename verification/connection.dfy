/** `BufferedConnection` of connection.cpp: a connection wrapped with a
    string buffer so callers can read up to a delimiter. The wrapped
    connection is the in-memory one of mocks.cpp. */
module Connection {
  import opened Base
  import opened Util
  import opened Mocks

  /** The wrapped connection (absent after default construction or a
      move) and the bytes read from it but not yet handed out. */
  datatype BufferedConnection = BufferedConnection(conn: Option<MockConnection>, buffer: string)

  function NewBufferedConnection(conn: MockConnection): BufferedConnection {
    BufferedConnection(Some(conn), "")
  }

  /** `is_closed`: true when there is no wrapped connection or it is closed. */
  predicate IsClosed(bc: BufferedConnection) {
    bc.conn.None? || Mocks.IsClosed(bc.conn.value)
  }

  /** `close`: closes the wrapped connection unless it is already closed. */
  function Close(bc: BufferedConnection): (r: BufferedConnection)
    ensures IsClosed(r)
    ensures r.buffer == bc.buffer
    ensures IsClosed(bc) ==> r == bc
    ensures r.conn.Some? ==> bc.conn.Some? && r.conn.value == bc.conn.value.(closed := true)
  {
    if !IsClosed(bc) then bc.(conn := Some(Mocks.Close(bc.conn.value))) else bc
  }

  /** `write`: forwards the bytes to the wrapped connection unchanged. */
  function Write(bc: BufferedConnection, s: string): (r: BufferedConnection)
    requires bc.conn.Some?
    ensures r.conn.Some? && r.buffer == bc.buffer
    ensures r.conn.value == bc.conn.value.(written := bc.conn.value.written + s)
  {
    bc.(conn := Some(Mocks.Write(bc.conn.value, s)))
  }

  /** `remote_ip`: the peer of the wrapped connection. */
  function RemoteIp(bc: BufferedConnection): Addr
    requires bc.conn.Some?
  {
    bc.conn.value.remoteIp
  }

  /** The `do ... while` loop of `read_until`: read a chunk, append it,
      rescan the whole buffer for the first `sep`. A read that throws
      propagates with everything read so far left in the buffer; an empty
      chunk ends the loop and hands out the whole buffer. */
  function ReadMore(conn: MockConnection, buffer: string, sep: string): (r: (Result<string>, MockConnection, string))
    ensures r.1 == conn.(unread := r.1.unread)
    ensures r.0.Err? ==> r.0.error == ConnectionClosed
    decreases |conn.unread|
  {
    match Read(conn)
    case (Err(e), next) => (Err(e), next, buffer)
    case (Ok(chunk), next) =>
      var grown := buffer + chunk;
      match SplitFirst(grown, sep)
      case Some((before, after)) => (Ok(before), next, after)
      case None =>
        if chunk != "" then ReadMore(next, grown, sep)
        else (Ok(grown), next, "")
  }

  /** `read_until(sep)`: the text before the first `sep`, removing it and
      the `sep` from the buffer; the wrapped connection is read only when
      the buffer does not already hold a `sep`. */
  function ReadUntil(bc: BufferedConnection, sep: string): (r: (Result<string>, BufferedConnection))
    requires bc.conn.Some?
    ensures r.1.conn.Some? && r.1.conn.value == bc.conn.value.(unread := r.1.conn.value.unread)
    ensures SplitFirst(bc.buffer, sep).Some? ==>
              r == (Ok(SplitFirst(bc.buffer, sep).value.0),
                    bc.(buffer := SplitFirst(bc.buffer, sep).value.1))
  {
    match SplitFirst(bc.buffer, sep)
    case Some((before, after)) => (Ok(before), bc.(buffer := after))
    case None =>
      var (result, conn, buffer) := ReadMore(bc.conn.value, bc.buffer, sep);
      (result, BufferedConnection(Some(conn), buffer))
  }

  // ---------------------------------------------------------------------
  // Independence from chunking
  // ---------------------------------------------------------------------

  /** `read_until` on the whole byte stream at once: the text before the
      first `sep` and what follows it, or `ConnectionClosed` when the
      stream holds no `sep`. */
  function StreamReadUntil(stream: string, sep: string): (Result<string>, string) {
    match SplitFirst(stream, sep)
    case Some((before, after)) => (Ok(before), after)
    case None => (Err(ConnectionClosed), stream)
  }

  /** Everything a buffered connection still has to offer: its buffer and
      then the unread payload. */
  function Pending(bc: BufferedConnection): string
    requires bc.conn.Some?
  {
    bc.buffer + bc.conn.value.unread
  }

  /** The read loop answers from the buffer and the unread payload taken
      as one stream, and it only ever consumes payload. */
  lemma {:induction false} ReadMoreIsStream(conn: MockConnection, buffer: string, sep: string)
    requires conn.readSize > 0 && SplitFirst(buffer, sep).None?
    ensures var (result, next, rest) := ReadMore(conn, buffer, sep);
            var (expected, left) := StreamReadUntil(buffer + conn.unread, sep);
            result == expected && rest + next.unread == left &&
            next == conn.(unread := next.unread)
    decreases |conn.unread|
  {
    var (got, next) := Read(conn);
    if got.Err? {
      assert buffer + conn.unread == buffer;
    } else {
      var grown := buffer + got.value;
      assert buffer + conn.unread == grown + next.unread;
      if SplitFirst(grown, sep).Some? {
        SplitFirstAppend(grown, next.unread, sep);
      } else {
        ReadMoreIsStream(next, grown, sep);
      }
    }
  }

  /** The outcome of `read_until`, and what is left to read after it,
      depend only on the pending bytes and not on how reads chunk them:
      the buffered hit and the read loop agree with the whole-stream
      reading, whatever the read size. Nothing is written. */
  lemma ReadUntilIsStream(bc: BufferedConnection, sep: string)
    requires bc.conn.Some? && bc.conn.value.readSize > 0
    ensures var (result, next) := ReadUntil(bc, sep);
            var (expected, left) := StreamReadUntil(Pending(bc), sep);
            next.conn.Some? && result == expected && Pending(next) == left &&
            next.conn.value == bc.conn.value.(unread := next.conn.value.unread)
  {
    match SplitFirst(bc.buffer, sep)
    case Some((before, after)) =>
      SplitFirstAppend(bc.buffer, bc.conn.value.unread, sep);
    case None =>
      ReadMoreIsStream(bc.conn.value, bc.buffer, sep);
  }

  /** `n` successive `read_until(sep)` calls. */
  function ReadUntilMany(bc: BufferedConnection, sep: string, n: nat): (r: seq<Result<string>>)
    requires bc.conn.Some?
    ensures |r| == n
    decreases n
  {
    if n == 0 then []
    else
      var (result, next) := ReadUntil(bc, sep);
      [result] + ReadUntilMany(next, sep, n - 1)
  }

  /** `n` successive whole-stream readings. */
  function StreamReadUntilMany(stream: string, sep: string, n: nat): (r: seq<Result<string>>)
    ensures |r| == n
    decreases n
  {
    if n == 0 then []
    else
      var (result, left) := StreamReadUntil(stream, sep);
      [result] + StreamReadUntilMany(left, sep, n - 1)
  }

  /** One whole-stream reading that finds a `sep`, followed by the rest. */
  lemma StreamReadUntilStep(stream: string, sep: string, n: nat, before: string, after: string)
    requires SplitFirst(stream, sep) == Some((before, after))
    ensures StreamReadUntilMany(stream, sep, n + 1) == [Ok(before)] + StreamReadUntilMany(after, sep, n)
  {
  }

  /** Any number of successive `read_until` calls give the same results as
      reading the pending bytes as one stream, so two connections with the
      same pending bytes give the same results whatever their read sizes. */
  lemma {:induction false} ReadUntilManyIsStream(bc: BufferedConnection, sep: string, n: nat)
    requires bc.conn.Some? && bc.conn.value.readSize > 0
    ensures ReadUntilMany(bc, sep, n) == StreamReadUntilMany(Pending(bc), sep, n)
    decreases n
  {
    if n > 0 {
      var next := ReadUntil(bc, sep).1;
      ReadUntilIsStream(bc, sep);
      ReadUntilManyIsStream(next, sep, n - 1);
      assert ReadUntilMany(bc, sep, n) == [ReadUntil(bc, sep).0] + ReadUntilMany(next, sep, n - 1);
      assert StreamReadUntilMany(Pending(bc), sep, n) ==
             [StreamReadUntil(Pending(bc), sep).0] + StreamReadUntilMany(StreamReadUntil(Pending(bc), sep).1, sep, n - 1);
    }
  }

  /** Chunk-size independence stated directly. */
  lemma ReadSizeIrrelevant(payload: string, size1: nat, size2: nat, ip: Addr, sep: string, n: nat)
    requires size1 > 0 && size2 > 0
    ensures ReadUntilMany(NewBufferedConnection(NewMockConnection(payload, size1, ip)), sep, n) ==
            ReadUntilMany(NewBufferedConnection(NewMockConnection(payload, size2, ip)), sep, n)
  {
    ReadUntilManyIsStream(NewBufferedConnection(NewMockConnection(payload, size1, ip)), sep, n);
    ReadUntilManyIsStream(NewBufferedConnection(NewMockConnection(payload, size2, ip)), sep, n);
  }

  /** An exhausted stream without a `sep` keeps throwing `ConnectionClosed`,
      including when leftover bytes remain in the buffer. */
  lemma ExhaustedThrows(bc: BufferedConnection, sep: string)
    requires bc.conn.Some? && bc.conn.value.readSize > 0
    requires Find(Pending(bc), sep).None?
    ensures ReadUntil(bc, sep).0 == Err(ConnectionClosed)
    ensures Pending(ReadUntil(bc, sep).1) == Pending(bc)
  {
    ReadUntilIsStream(bc, sep);
  }

  /** A read loop that answers consumes at least one `sep` of the pending
      bytes, whatever the read size. */
  lemma {:induction false} ReadMoreConsumes(conn: MockConnection, buffer: string, sep: string)
    ensures var (result, next, rest) := ReadMore(conn, buffer, sep);
            result.Ok? ==> |rest| + |next.unread| + |sep| <= |buffer| + |conn.unread|
    decreases |conn.unread|
  {
    var (got, next) := Read(conn);
    if got.Ok? {
      var grown := buffer + got.value;
      if SplitFirst(grown, sep).None? {
        ReadMoreConsumes(next, grown, sep);
      }
    }
  }

  /** A successful `read_until` leaves fewer pending bytes, by at least the
      length of `sep`. */
  lemma ReadUntilConsumes(bc: BufferedConnection, sep: string)
    requires bc.conn.Some?
    ensures var (result, next) := ReadUntil(bc, sep);
            result.Ok? ==> |Pending(next)| + |sep| <= |Pending(bc)|
  {
    if SplitFirst(bc.buffer, sep).None? {
      ReadMoreConsumes(bc.conn.value, bc.buffer, sep);
    }
  }
}
