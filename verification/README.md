# A verified model of a small HTTP/1.x file server

This project is a Dafny model of the request-serving core of a small C++
HTTP/1.x file server. The server has a blocking, thread-per-connection front
end and a single-threaded, poll-based asynchronous front end. Both read
request heads up to the first blank line, parse them, filter requests with
`.htaccess` allow/deny rules over CIDR blocks, and serve files from a
repository with 404/403/200 answers.

The model is functional. Requests, responses, CIDR blocks, rules,
connections and pollables are immutable datatypes, and every operation is a
pure function over explicit inputs:

- the environment is the in-memory connection, listener, handler and file
  repository of `mocks.cpp`;
- name resolution is a `Resolver` parameter: the blocking filter's DNS
  client, whichever it is given, and the network client the asynchronous
  filter always builds for itself are both that one parameter;
- the results of `recv`, `send` and `poll`, and the clock, are parameters;
- continuations (`Callback<...>::F`) are Dafny function values. "The
  callback is invoked exactly once with `v`" is stated as `r == cb(v)`.

Modules follow the source files:

| module | source |
|---|---|
| `Base` | optional values, the exception classes, results, IPv4 addresses as 32 bits |
| `Util` | `util.h` / `util.cpp`: search, buffer pop, `split`, `split_n`, `join`, `ends_with`, `canonicalize_path` |
| `Http` | `http.cpp`: packing, parsing, header lookup, response builders, content types |
| `Htaccess` | `htaccess.cpp`: masks, CIDR blocks, first-match rules, the rules-file parser |
| `Mocks` | `mocks.cpp`: the environment |
| `Connection` | `connection.cpp`: the blocking buffered reader |
| `AsyncConnection` | `async_connection.cpp`: read and write pollables, the continuation reader |
| `EventLoop` | `async_event_loop.cpp`: registration and one tick of the reactor |
| `AsyncHttpConnection` | `async_http_connection.cpp` |
| `RequestFilters`, `AsyncRequestFilters` | the `.htaccess` request filter, blocking and asynchronous |
| `AsyncFiles` | the asynchronous file interface of `async_file_repository.h` |
| `RequestHandlers`, `AsyncRequestHandlers` | the file-serving handlers and the filter middleware |
| `ConnectionHandlers` | the keep-alive loop `handle_connection` |
| `UtilVectors`, `HttpVectors`, `HtaccessVectors`, `ConnectionVectors` | the unit-test expectations of `test.cpp`, as lemmas |

Where the code and its documentation disagree, the model follows the code:

- `util.cpp` defines a two-argument `pop_n_sstream`. Every caller uses the
  three-argument form declared in `util.h`, which also drops the separator
  after the prefix. `Util.PopN` models the three-argument form.
- The bodies of `split`, `split_n`, `join`, `ends_with`,
  `canonicalize_path` and `to_lowercase` are not shown. They are defined here
  and pinned down by the expectations in `test.cpp`. For `to_lowercase`,
  which the header lookups of `http.cpp` use, ASCII case folding is assumed:
  only `A`-`Z` change, as the C locale's `tolower` does.

## Model

| member | source | states |
|---|---|---|
| Util.Find | util.h:31-41 | The position returned is an occurrence of the separator with none before it; no position means it occurs nowhere. |
| Util.FindAppend | connection.cpp:135-144 | Appending bytes does not move a separator already in the buffer, so rescanning the whole buffer after each chunk finds the same first occurrence. |
| Util.PopN | util.h:35 | The popped prefix has the requested length, and prefix, discarded bytes and remaining buffer concatenate back to the old buffer. |
| Util.SstreamSize | util.cpp:17-23 | The size reported is the stream's whole length and the stream, read position included, is left as it was. |
| Util.SplitFirst | connection.cpp:128-131 | The buffer is the prefix, the separator and the rest, with the prefix ending at the separator's first occurrence; absent exactly when the separator does not occur. |
| Util.SplitFirstAppend | async_connection.cpp:157-165 | Once a buffer holds the separator, more appended bytes change only the remainder, never the popped prefix. |
| Util.SplitN | util.h:33 | `split_n` yields at least one and at most `k + 1` parts. |
| Util.JoinSplitN | util.h:31-33 | Joining the parts of `split_n` with the separator gives back the input, for every split count. |
| Util.JoinSplit | util.h:31 | Joining the parts of `split` with the separator gives back the input. |
| Util.SplitJoin | util.h:31 | Splitting a join of separator-free parts on a border-free separator gives back the parts. |
| Util.SplitNIsSplit | test.cpp:127-129 | With at least as many splits allowed as there are characters, `split_n` is `split`. |
| Util.SplitNZero | test.cpp:131-133 | `split_n` with zero splits returns the whole input as one part. |
| Util.SplitTrailingSeparator | test.cpp:142 | A trailing separator yields a trailing empty part. |
| Util.SplitNAtJoin | test.cpp:135-137 | `split_n` cuts at the first separator and leaves the remainder to at most `k - 1` more splits. |
| Util.SplitPartsFree | util.h:31 | No part of `split` contains the separator. |
| Util.EndsWith | util.h:41 | True exactly when some suffix of the string equals the given suffix. |
| Util.CanonicalShape | util.h:39 | A canonical path is empty or `/` followed by a `/`-join of real names (no empty, `.` or `..` component). |
| Util.CanonicalFixedPoint | test.cpp:153-154 | A rooted path of real names is its own canonical form. |
| Util.CanonicalizeIdempotent | util.h:39 | Canonicalizing twice gives what canonicalizing once gives. |
| Util.CanonicalizeTrailingSlash | test.cpp:160-161 | A trailing `/` does not change the canonical form. |
| Util.CanonicalizeLeadingSlash | test.cpp:159 | A missing leading `/` does not change the canonical form. |
| Util.CanonicalizeRepeatedSlash | test.cpp:162 | A run of `/` canonicalizes like a single `/`. |
| Util.CanonicalizeDot | test.cpp:155 | A `.` component is dropped. |
| Util.CanonicalizeParent | test.cpp:156-157 | A name followed by `..` cancels out. |
| Util.CanonicalizeEscape | test.cpp:164-165 | A path that climbs above the root canonicalizes to the empty string. |
| Util.FirstBlankLine | async_http_connection.cpp:14 | In CRLF-joined non-empty lines followed by a blank line, the first CRLF CRLF is the one that ends the head. |
| Util.DecimalRoundTrip | http.cpp:150-162 | Reading back the decimal rendering of a number gives the number. |
| UtilVectors.SplitVectors | test.cpp:117-147 | The empty-input and empty-separator expectations of the split tests. |
| UtilVectors.CanonicalizeVectors | test.cpp:151-156 | The empty path, the root and `/foo/../bar` canonicalize as the tests expect. |
| UtilVectors.EndsWithVectors | test.cpp:174-179 | The four `ends_with` expectations. |
| Http.RequestEqIgnoresAddress | http.cpp:94-97 | Request equality holds exactly when the requests differ at most in the peer address. |
| Http.ResponseEqIgnoresStatusName | http.cpp:108-139 | Response equality holds exactly when the responses differ at most in the status name. |
| Http.HasHeader | http.cpp:50-59 | True exactly when some header's key equals the given key ignoring ASCII case. |
| Http.GetHeader | http.cpp:61-70 | Returns the first header whose key matches ignoring case, or the empty header when none does. |
| Http.HasHeaderIffGetMatches | http.cpp:50-70 | For a non-empty key, `has_header` holds exactly when `get_header` returns a matching header. |
| Http.GetHeaderFirstWins | http.cpp:63-66 | A matching header in front shadows every later one. |
| Http.PackRequestLines | http.cpp:73-87 | A packed request is the request line and the `key: value` lines in order, CRLF-joined, then a blank line and the body. |
| Http.PackResponseLines | http.cpp:117-131 | A packed response is the status line and the header lines in order, CRLF-joined, then a blank line and the body. |
| HttpVectors.ResponseBytes | test.cpp:379-385 | The exact bytes of a packed two-header response. |
| Http.OkResponse | http.cpp:150-162 | A 200 is HTTP/1.1 with the body given, the Server header first, four headers, and `Content-Type` and `Last-Modified` as given. |
| Http.OkContentLength | http.cpp:150-162 | The `Content-Length` of a 200 is the decimal length of its body. |
| Http.ErrorResponse | http.cpp:164-171 | An error response is HTTP/1.1 with the given status, exactly the headers Server and `Content-Length: 0`, and an empty body. |
| Http.ErrorContentLength | http.cpp:164-187 | The `Content-Length` of every error response is the decimal length of its (empty) body. |
| Http.InferContentType | http.cpp:189-198 | The type is one of the four the server knows, and it is `text/plain` exactly when the name ends in none of `.html`, `.jpg` and `.png`. |
| Http.InferContentTypeBySuffix | http.cpp:189-198 | Names ending in `.html`, `.jpg` or `.png` get `text/html`, `image/jpeg` or `image/png`. |
| Http.ParseHeaders | http.cpp:240-256 | Parsing succeeds exactly when every line contains `": "`; each header then prints back to its line, in order, with a key free of `": "`; a failure is a parse error. |
| Http.SplitHeaderLine | test.cpp:144 | A header line splits at the first `": "` only, so the value keeps any later colons. |
| Http.ParseRequestFrame | http.cpp:201-234 | A parsed request has an empty body, the zero peer address and a URI starting with `/`; every failure is a parse error. |
| Http.ParseRejects | http.cpp:215-249 | Parsing fails exactly when the request line does not split into three parts on its first two spaces, the URI is empty or not rooted, or a header line lacks `": "`. |
| HttpVectors.RejectsShortRequestLine | test.cpp:391-393 | The request line `foo bar` is rejected. |
| Http.PackParseRoundTrip | http.cpp:201-234 | Parsing a packed well-formed request with an empty body, without its final CRLF CRLF, gives the request back with the peer address zeroed, equal to it under request equality. |
| Http.ParsePackInverse | http.cpp:73-87 | Packing any request that parsed gives back the frame it came from plus CRLF CRLF. |
| Htaccess.MakeMask | htaccess.cpp:21-33 | The mask has exactly the top `length` bits set, in network order; length 0 gives the zero mask. |
| Htaccess.ValidBlockHostBits | htaccess.cpp:35-41 | A block is valid exactly when no host bit of its prefix is set. |
| Htaccess.NewCidrBlock | htaccess.cpp:35-41 | Construction succeeds exactly when the length is in range and the prefix has no bit outside the mask; otherwise it raises `runtime_error`. |
| HtaccessVectors.PrefixLongerThanLength | test.cpp:559 | `192.0.0.0/0` is rejected. |
| Htaccess.MatchesLeadingBits | htaccess.cpp:43-46 | An address matches exactly when its first `length` bits equal the prefix's. |
| Htaccess.MatchesEverything | htaccess.cpp:43-46 | A `/0` block matches every address. |
| Htaccess.MatchesExactly | htaccess.cpp:43-46 | A `/32` block matches only its own address. |
| HtaccessVectors.RootBlockMatchesAll | test.cpp:523-526 | `0.0.0.0/0` matches every address. |
| HtaccessVectors.NonAClassMatches | test.cpp:544-545 | `128.0.0.0/1` matches 192.0.0.0. |
| HtaccessVectors.NonAClassRejects | test.cpp:550 | `128.0.0.0/1` does not match 64.0.0.0. |
| HtaccessVectors.ClassCMatches | test.cpp:555 | `192.0.0.0/3` matches 193.0.0.1. |
| HtaccessVectors.LocalBlockMatches | test.cpp:530 | `192.0.0.0/8` matches 192.1.2.3. |
| HtaccessVectors.LocalBlockRejects | test.cpp:534 | `192.0.0.0/8` does not match 0.0.0.192. |
| Htaccess.AnyMatch | htaccess.cpp:84-94 | True exactly when some rule's block matches the address. |
| Htaccess.Allows | htaccess.cpp:84-94 | An address is turned away only when some `deny` rule matches it. |
| Htaccess.AllowsFirstMatch | htaccess.cpp:84-94 | The decision is the allow flag of the first rule, in list order, whose block matches. |
| Htaccess.AllowsNoMatch | htaccess.cpp:93 | An address no rule matches is allowed. |
| Htaccess.AllowsLoop | htaccess.cpp:84-94 | The loop over the rules computes the first-match decision. |
| Htaccess.AllowsAppend | htaccess.cpp:84-94 | Rules after a matching prefix of the list are never consulted. |
| Htaccess.ParseIp | htaccess.cpp:56-67 | An address that does not parse raises `runtime_error`; one that does is the converter's result. |
| Htaccess.ParseCidr | htaccess.cpp:69-79 | Text that is not exactly two `/`-parts raises `runtime_error`; otherwise the block is built from the parsed address and length, and a length that does not parse raises `invalid_argument`. |
| Htaccess.ParseCidrOf | htaccess.cpp:69-79 | `ip/len` with both parts parseable gives the block constructor's result for them. |
| Htaccess.HostBlocks | htaccess.cpp:114-116 | One valid `/32` block per address, in order. |
| Htaccess.HostBlockMatches | htaccess.cpp:115 | The block made for a looked-up address matches only that address. |
| Htaccess.ParseCidrOrDomain | htaccess.cpp:107-119 | A parseable CIDR gives its one block; an `invalid_argument` escapes; any other failure falls back to DNS, one `/32` per looked-up address in lookup order. |
| Htaccess.ParseAllowDeny | htaccess.cpp:97-105 | Exactly `allow` and `deny` parse, to the flag whose word they are; anything else raises `runtime_error`. |
| Htaccess.AllowDenyRoundTrip | htaccess.cpp:97-105 | Parsing the word for a flag gives the flag back. |
| Htaccess.ParseRuleLine | htaccess.cpp:126-140 | An empty line gives no rules; a line that is not two parts around ` from ` raises `runtime_error`; parsed rules have valid blocks. |
| Htaccess.ParseRuleLineOf | htaccess.cpp:130-140 | `allow from h` or `deny from h` gives one rule per block `h` parses to, all carrying that flag, in order. |
| Htaccess.Concat | htaccess.cpp:125-141 | Rule lists from successive lines concatenate; the first error wins. |
| Htaccess.ConcatLaws | htaccess.cpp:125-141 | Concatenating line results is associative with the empty list as unit. |
| Htaccess.ParseRuleLinesAppend | htaccess.cpp:125-141 | The rules of a list of lines are those of its first part followed by those of the rest. |
| Htaccess.ParseHtAccessRules | htaccess.cpp:121-144 | Every rule a rules file parses to carries a valid CIDR block: a length of at most 32 and no host bits set. |
| Htaccess.ParseHtAccessRulesJoin | htaccess.cpp:121-144 | The rules of two texts joined by a newline are the rules of the first followed by the rules of the second. |
| Htaccess.ParseSingleLine | htaccess.cpp:124-141 | A text without a newline parses as its single line. |
| Htaccess.ParseSkipsBlankLine | htaccess.cpp:126-128 | An empty line contributes nothing. |
| Mocks.Read | mocks.cpp:24-35 | A read returns the next at most `read_size` bytes, short only at the end of the payload; an exhausted connection raises `ConnectionClosed` and is left unchanged. |
| Mocks.ReadAllDeliversPayload | test.cpp:191-211 | Reading until exhausted delivers the whole payload in order, in chunks of `read_size` with only the last one shorter. |
| Mocks.ExhaustedStaysClosed | mocks.cpp:29-31 | Once exhausted, every later read raises `ConnectionClosed` again. |
| Mocks.WritesAccumulate | mocks.cpp:37-39 | Successive writes append, in order, to what was written, and change nothing else. |
| Mocks.Accept | mocks.cpp:73-81 | Accepting hands out the back connection, or raises `ListenerError` when none remain and leaves the listener as it was. |
| Mocks.AcceptInOrder | mocks.cpp:58-81 | Accepting until empty returns the connections in construction order. |
| Mocks.HandleRequest | mocks.cpp:86-89 | The handler returns its fixed response and appends the request to its record. |
| Mocks.HandlerRecordsInOrder | mocks.cpp:86-93 | After a series of requests the record is the old one followed by the requests in order, each answered with the fixed response. |
| Mocks.GetFile | mocks.cpp:114-120 | The repository returns the stored file for a known path and null otherwise. |
| Mocks.Lookup | mocks.cpp:125-131 | The DNS client returns the stored addresses for a known domain and none otherwise. |
| Connection.Close | connection.cpp:110-120 | After `close` the connection is closed; an already-closed one is unchanged; otherwise only the inner closed flag is set. |
| Connection.Write | connection.cpp:122-124 | The bytes are appended unchanged to what the inner connection was sent; the buffer is untouched. |
| Connection.ReadMore | connection.cpp:133-149 | The read loop only reads from the connection, leaving everything but the unread payload alone, and the only error it raises is `ConnectionClosed`. |
| Connection.ReadMoreIsStream | connection.cpp:133-149 | The read loop answers as splitting the buffer followed by the unread payload at the first separator, and consumes only payload. |
| Connection.ReadUntil | connection.cpp:126-131 | A separator already buffered is served from the buffer without reading: the text before it is returned and it and the text are removed. |
| Connection.ReadUntilIsStream | connection.cpp:126-149 | `read_until` behaves as splitting the buffered bytes followed by the unread payload at the first separator: the same result, the rest left pending, nothing but the unread payload of the inner connection changed. |
| Connection.ExhaustedThrows | test.cpp:338-354 | With no separator in what is buffered and unread, `read_until` raises `ConnectionClosed` and loses no pending byte. |
| Connection.ReadUntilConsumes | connection.cpp:126-149 | A successful read consumes at least the separator from the pending bytes. |
| Connection.ReadUntilManyIsStream | connection.cpp:126-149 | Any number of successive reads give the results of successive splits of the pending stream. |
| Connection.ReadSizeIrrelevant | test.cpp:331-355 | The results of successive reads do not depend on the mock's read size. |
| ConnectionVectors.BigCatAnyReadSize | test.cpp:331-341 | For every read size, `the big cat` split on a space gives `the`, `big`, then `ConnectionClosed` three times. |
| ConnectionVectors.HalloweenAnyReadSize | test.cpp:343-355 | For every read size, the `ab`-separated payload gives `halloween`, `full cat stuff`, `melody`, ``, then `ConnectionClosed` three times. |
| ConnectionVectors.EmptyMockThrows | test.cpp:319-322 | Reading an empty connection raises `ConnectionClosed` and writes nothing. |
| AsyncConnection.TryRead | async_connection.cpp:29-43 | A would-block read yields the empty string, data yields the data, end of stream raises `ConnectionClosed` and any other failure raises `ConnectionError`. |
| AsyncConnection.IntoBuffer | async_connection.cpp:157-168 | The chunk is appended and the whole buffer rescanned; the separator is found exactly when it occurs, and then the content is the text before its first occurrence and the rest stays buffered. |
| AsyncConnection.ReadUntil | async_connection.cpp:172-181 | The callback runs at once exactly when the separator is already buffered; otherwise a read is started with the buffer unchanged. |
| AsyncConnection.ReadUntilAgreesWithBlocking | async_connection.cpp:172-178 | With the separator buffered, the continuation reader calls its callback on exactly what the blocking reader returns, leaving the same buffer. |
| AsyncConnection.NotifyReadAsWritten | async_connection.cpp:60-66 | As written: a read error propagates; otherwise the callback runs even on would-block, the reader stays registered unless it got data, and the successor is the callback's pollable, none exactly when the callback returned null. |
| AsyncConnection.WouldBlockDuplicatesReaderAsWritten | async_connection.cpp:60-66 | As written, a would-block notification leaves two readers registered for one `read_until`. |
| AsyncConnection.DoubleDeliveryAsWritten | async_connection.cpp:60-66 | As written, a would-block followed by data holding two separators invokes the one `read_until` callback twice. |
| AsyncConnection.NotifyRead | async_connection.cpp:60-66 | Corrected: a would-block keeps the one reader and calls nothing; a read with data behaves as written; errors propagate. |
| AsyncConnection.NotifyReadKeepsOneReader | async_connection.cpp:156-170 | Corrected: each notification leaves at most one live pollable: the one pending reader, or the callback's result, or nothing when the callback returned null or the read threw. |
| AsyncConnection.SingleDelivery | async_connection.cpp:156-170 | Corrected: the same inputs invoke the callback once, with the first record, keep the rest buffered, and register only the callback's result, if it is not null. |
| AsyncConnection.DriveIsStream | async_connection.cpp:156-170 | Corrected: however the bytes arrive, the reader delivers exactly when the stream holds the separator, with the text before its first occurrence, and calls the callback once on it. |
| AsyncConnection.DriveAbortsOnlyOnError | async_connection.cpp:32-39 | Corrected: the reader aborts only when some read failed, and waits only when none did. |
| AsyncConnection.ChunkingIrrelevant | async_connection.cpp:156-170 | Corrected: two chunkings of the same bytes deliver alike and the same content. |
| AsyncConnection.DriveAgreesWithBlocking | async_connection.cpp:156-170 | Corrected: the continuation reader delivers exactly when the blocking reader over the same payload succeeds, and the same content. |
| AsyncConnection.NoWouldBlockAgrees | async_connection.cpp:60-66 | When no `recv` would block, the reader as written and the corrected reader agree at every notification, so the corrected results hold of the source as written for such input. |
| AsyncConnection.DriveAsWrittenIsStream | async_connection.cpp:156-170 | As written, with no would-block, the one reader delivers exactly when buffer plus received bytes hold the separator, on the text before its first occurrence, whatever the chunking. |
| AsyncConnection.Write | async_connection.cpp:183-185 | A write pollable starts with the message and nothing sent. |
| AsyncConnection.TryWrite | async_connection.cpp:77-94 | The offset only grows, up to the message length; the bytes sent are the message from the old offset to the new one, at most `BUFSIZE` per `send`; done means everything was sent; any failed `send` stops the attempt not done. |
| AsyncConnection.NotifyWrite | async_connection.cpp:111-118 | The callback runs, exactly once, exactly when the write is done; otherwise null is returned. |
| AsyncConnection.WriteRoundsSendMessageOnce | async_connection.cpp:77-118 | Over any number of notifications, the bytes on the wire are the message from the starting offset on, in order and without repetition, and the callback runs only once all is sent. |
| EventLoop.RegisterPollable | async_event_loop.cpp:16-18 | Registration appends at the end and keeps everything before it. |
| EventLoop.ContributionShape | async_event_loop.cpp:28-44 | A notification that threw registers nothing; otherwise the pollable is re-registered iff not done, followed by its successor if there is one. |
| EventLoop.ProcessAppends | async_event_loop.cpp:28-44 | Processing a pollable only appends to the registered list. |
| EventLoop.NotifiedExactlyOnce | async_event_loop.cpp:64-72 | The notified indices are exactly those with non-zero `revents`, each once, in snapshot order. |
| EventLoop.NotifyReady | async_event_loop.cpp:64-72 | The notify loop registers what processing each ready pollable in order registers, sets aside the others in order, and notifies the ready ones. |
| EventLoop.DropExpired | async_event_loop.cpp:80-85 | The deadline loop keeps exactly the set-aside pollables not past their deadline, in order. |
| EventLoop.RunTick | async_event_loop.cpp:47-91 | A failed `poll` raises `runtime_error` and notifies nobody; otherwise the new list is the live set-aside pollables followed by everything registered during the tick. |
| EventLoop.SkippedMembers | async_event_loop.cpp:64-72 | A pollable is set aside exactly when it had zero `revents`. |
| EventLoop.NotifiedNeverDeadlineChecked | async_event_loop.cpp:67-85 | The tick does not depend on the deadline of any notified pollable. |
| EventLoop.ThrowIsDone | async_event_loop.cpp:35-43 | A pollable whose notification threw is dropped with no successor, as if it had finished. |
| EventLoop.Run | async_event_loop.cpp:46-92 | The loop stops with an empty list whenever fuel remains, and at once when it starts empty. |
| AsyncHttpConnection.WriteResponse | async_http_connection.cpp:32-34 | A response write starts with nothing sent. |
| AsyncHttpConnection.WriteResponseSendsPacked | async_http_connection.cpp:32-34 | A response write that finishes put exactly the packed response on the wire and then runs its callback. |
| AsyncHttpConnection.OnError | async_http_connection.cpp:21-28 | A parse error answers 400, a closed connection ends with no pollable, and any other error answers 500. |
| AsyncHttpConnection.OnFrame | async_http_connection.cpp:14-28 | A head that fails to parse answers 400 without the request callback; one that parses reaches the callback once, stamped with the peer address. |
| AsyncHttpConnection.ReadRequest | async_http_connection.cpp:13-30 | A blank line already buffered is served at once, the text before it going through the frame callback and the text after it staying buffered; otherwise a reader starts on the unchanged buffer. |
| AsyncHttpConnection.ReadRequestBuffered | async_http_connection.cpp:13-30 | A packed well-formed request already buffered reaches the request callback at once, stamped with the peer address, and the bytes after it stay buffered. |
| AsyncHttpConnection.ReadRequestArrives | async_http_connection.cpp:13-30 | Corrected: when the bytes received, in any chunking and with any would-blocks between, complete a packed well-formed request, the reader delivers its head and hands on what the request callback returns for the request stamped with the peer address. |
| AsyncHttpConnection.ReadRequestArrivesAsWritten | async_http_connection.cpp:13-30 | As written, with no would-block, bytes that complete a packed well-formed request in any chunking deliver its head and the request callback's answer for the stamped request. |
| AsyncHttpConnection.ReadRequestWaitsForHead | async_http_connection.cpp:14 | Corrected: bytes that are a proper prefix of a packed well-formed request do not reach the frame callback. |
| AsyncHttpConnection.RequestCallbackOnlyOnParse | async_http_connection.cpp:17-22 | The request callback is not consulted for a bad head, and sees the parsed request unchanged but for the peer address. |
| RequestFilters.HtaccessPathFromFilePath | request_filters.cpp:11-21 | There is no rules path exactly when the path splits into fewer than two parts; otherwise it is the directory part, a `/`, and `.htaccess`. |
| RequestFilters.AllowRequest | request_filters.cpp:27-40 | A request is let in when its directory has no rules path or no rules file; an error comes only from parsing an existing rules file; a denial only from a parsed rules file whose rules turn the peer away. |
| RequestFilters.HtaccessPathEmpty | request_filters.cpp:11-15 | The rules path is empty exactly when the path has no `/`. |
| RequestFilters.HtaccessPathReplacesName | request_filters.cpp:17-20 | The rules path is the file's directory followed by `/.htaccess`. |
| RequestFilters.OwnDirectoryDecides | request_filters.cpp:27-40 | A request is allowed when its directory has no rules file, and otherwise decided by the parsed rules for its peer address; a parse error propagates. |
| RequestFilters.SingleRuleDecides | test.cpp:582-600 | With one `allow from` or `deny from` CIDR rule in the file's directory, the request gets the rule's flag when the block matches its address and is allowed otherwise. |
| RequestFilters.EmptyRepositoryAllows | test.cpp:568-570 | A filter over an empty repository allows every request. |
| RequestFilters.OtherFilesIrrelevant | request_filters.cpp:28-37 | Only the one rules file a request maps to affects its decision. |
| AsyncRequestFilters.AllowRequest | async_request_filters.cpp:16-34 | The callback is invoked exactly once, with the decision the blocking filter reaches over the same repository and the same (network) resolver; a rules parse error propagates instead. |
| RequestHandlers.ServedPath | request_handlers.cpp:13-20 | No path is served exactly when canonicalization fails; a served path is canonical and never the bare root. |
| RequestHandlers.HandleRequestDecides | request_handlers.cpp:11-32 | 404 exactly when the path fails to canonicalize or the file is missing, 403 exactly when it exists but is not world-readable, and otherwise 200 with its contents, inferred type and modification time. |
| RequestHandlers.RootIsIndex | request_handlers.cpp:18-20 | `/` is answered from `/index.html`. |
| RequestHandlers.ServesCanonicalPath | request_handlers.cpp:11-32 | A rooted path of real names is served from exactly that file. |
| RequestHandlers.PublicFileVector | test.cpp:505-507 | A world-readable `/foo.html` is answered 200 with its contents as `text/html`. |
| RequestHandlers.PrivateFileVector | test.cpp:509-511 | A private file is answered 403. |
| RequestHandlers.MissingFileVector | test.cpp:513-515 | A missing file is answered 404. |
| RequestHandlers.NestedFileVector | test.cpp:517-519 | A nested file without a known suffix is answered 200 as `text/plain`. |
| AsyncRequestHandlers.TestHandler | async_request_handlers.cpp:12-14 | The test handler answers 403 through its callback, once. |
| AsyncRequestHandlers.FileHandler | async_request_handlers.cpp:19-46 | The callback is invoked exactly once, with the synchronous file handler's response, along every branch. |
| AsyncRequestHandlers.Middleware | async_request_handlers.cpp:52-60 | An allowed request goes to the handler with the same callback; a denied one calls the callback once with 403; a filter error propagates. |
| AsyncRequestHandlers.GuardedFileServing | async_request_handlers.cpp:52-60 | Filtered file serving answers 403 when the rules deny and otherwise as the file handler does. |
| ConnectionHandlers.ReadRequest | connection_handlers.cpp:17 | A request read from a connection carries the connection's peer address, and reading changes only the unread payload. |
| ConnectionHandlers.WriteResponse | connection_handlers.cpp:19-23 | Writing a response appends its packed, serialised frame to what was sent and changes nothing else. |
| ConnectionHandlers.OnError | connection_handlers.cpp:30-37 | A parse error writes 400, a closed connection writes nothing, any other error writes 500. |
| ConnectionHandlers.ReadsFirstFrame | connection_handlers.cpp:17 | With a request head at the front of the pending bytes, the request read is that head parsed and stamped, and the rest stays pending. |
| ConnectionHandlers.MalformedIsBadRequest | connection_handlers.cpp:30-31 | A head that fails to parse is answered 400, the handler is not called and the loop ends. |
| ConnectionHandlers.MissingHostIsBadRequest | connection_handlers.cpp:18-20 | A request without a `Host` header in any letter case is answered 400, the handler is not called and the loop ends. |
| ConnectionHandlers.CloseEndsLoop | connection_handlers.cpp:22-28 | A request with `Connection: close` gets the handler's response and ends the loop. |
| ConnectionHandlers.HandlerErrorAnswers | connection_handlers.cpp:22-37 | A handler that throws ends the loop with its state unchanged: a parse error answers 400, a closed connection writes nothing, any other error answers 500. |
| ConnectionHandlers.KeepAlive | connection_handlers.cpp:16-29 | Any other request gets the handler's response and the loop goes on with the rest of the bytes. |
| ConnectionHandlers.ExhaustedEndsQuietly | connection_handlers.cpp:32-33 | An exhausted connection ends the loop without writing anything. |
| ConnectionHandlers.HandleConnectionOnlyAppends | connection_handlers.cpp:14-38 | The loop leaves the peer address, read size and closed flag alone, and only appends to what was sent before. |
| ConnectionHandlers.Pipelined | connection_handlers.cpp:14-38 | Back-to-back request heads reach the handler in order, stamped with the peer address, and one response each is written in the same order. |
| ConnectionHandlers.PackedHead | http.cpp:73-87 | A packed well-formed request is a head followed by its first blank line, and reads back as the request with the peer address zeroed. |
| ConnectionHandlers.PipelinedRequests | test.cpp:473-492 | Packed requests sent back to back, with any read size, are all handled in order and answered in order. |
| ConnectionHandlers.MissingHostVector | test.cpp:441-464 | A request without `Host` is answered with exactly the bytes of a packed 400. |
| ConnectionHandlers.MalformedVector | test.cpp:450-470 | The head `foo bar` is answered with exactly the bytes of a packed 400. |

## Left out

- Sockets and the operating system are not modelled: `SocketConnection`, the listeners, the real DNS client, the disk-backed file repositories and the stub asynchronous repository. The mocks of `mocks.cpp` stand in for them, and the asynchronous file repository is a map whose operations call their continuation with the stored value.
- `poll()` and `system_clock::now()` are inputs of a tick: per-index `revents`, per-index notification outcomes, and a deadline predicate.
- Concurrency is not modelled: the thread-spawning and thread-pool connection handlers and the synchronized queue. `BlockingHttpConnectionHandler` is `handle_connection` itself.
- `http_connection.cpp` is not part of this model. `HttpConnection::read_request` is taken to read up to the first CRLF CRLF, parse the head and stamp the peer address, as the asynchronous version does.
- Time formatting (`to_http_date`, `make_time_point`) is left out. `Last-Modified` is an opaque, already-rendered string.
- `inet_pton`, `stoi` and DNS lookup are the parameters `parseIp`, `parseLength` and `lookup` of `Htaccess.Resolver`. Addresses are 32 bits in network order, so `htonl` is implicit.
- Htaccess.NewCidrBlock: rejects lengths outside 0..32 with `runtime_error`, where the C++ shift is undefined behaviour.
- Fixed-size stack buffers and the NUL truncation of `string(buf)` are not modelled; payloads are taken to be NUL-free. This includes the write of `buf[received]` one past the end when `recv` fills `BUFSIZE` bytes.
- AsyncConnection.TryWrite: a `send` count larger than the amount asked is read as the amount asked, and the function returns no result when the `send` results given run out before the loop ends.
- Every failed `send` is would-block, because `errno == EAGAIN || EWOULDBLOCK` is always true; the `cerr` branch is unreachable.
- AsyncRequestFilters.AllowRequest: the asynchronous filter always resolves names through a fresh `NetworkDnsClient` (async_request_filters.cpp:23), while the blocking filter uses the client it was constructed with. Both take the same `Resolver` here, so the stated agreement with the blocking filter covers a blocking filter built over the network client, not one built over another client such as the mock.
- EventLoop.Run: runs at most `fuel` ticks; a loop that never empties is not modelled beyond the fuel given.
- ConnectionHandlers.HandleConnection: the request handler is a function returning a response or an exception. Its own contract says only that the connection stays open; the loop is described by the lemmas that follow it (`ReadsFirstFrame`, `MalformedIsBadRequest`, `MissingHostIsBadRequest`, `CloseEndsLoop`, `KeepAlive`, `HandlerErrorAnswers`, `ExhaustedEndsQuietly`, `HandleConnectionOnlyAppends`, `Pipelined`).
- Logging to `cerr`, the command line of `main.cpp`, and the wiring in `handlers.cpp`, `httpd.cpp`, `server.cpp`, `async_http_server.cpp` and `async_main.cpp` are left out.
- The stale declarations in some headers that disagree with the implementation files are not modelled; the implementation files are followed.
- `integration_test.py` runs against real sockets and is not modelled.

## Findings

| source | as written | input that shows it | evidently intended | confidence | as-written member | corrected member |
|---|---|---|---|---|---|---|
| async_connection.cpp:60-66 | `SocketReadPollable::notify` calls the read continuation with `""` on would-block and stays registered because it is not done. The continuation built by `make_read_into_buffer` (lines 156-170) finds no separator and starts a second reader. | An empty buffer, a would-block notification, then a `recv` of `r1 + sep + r2 + sep` in the next tick: the old reader receives all the bytes and delivers `r1`, leaving `r2 + sep` in the shared buffer; the duplicate reader's own `recv` would block, and its `""` continuation delivers `r2` from that buffer. The one `read_until` callback is invoked twice. | A would-block notification calls nothing and keeps the single reader, so each `read_until` invokes its callback once. | not executed | AsyncConnection.DoubleDeliveryAsWritten | AsyncConnection.SingleDelivery |
