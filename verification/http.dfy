/** HTTP messages (http.h, http.cpp): frames, headers, requests, statuses and
    responses; serialising them; parsing a request frame; case-insensitive
    header lookup; and the canned responses the server sends. */
module Http {
  import opened Base
  import opened Util

  const HTTP_0_9: string := "HTTP/0.9"
  const HTTP_1_0: string := "HTTP/1.0"
  const HTTP_1_1: string := "HTTP/1.1"

  /** A serialised request or response. */
  datatype Frame = Frame(contents: string)

  /** `HttpFrame::serialize`. */
  function Serialize(f: Frame): string {
    f.contents
  }

  datatype Header = Header(key: string, value: string)

  /** `HttpRequest`; `remoteIp` is the peer address the connection stamps. */
  datatype Request = Request(
    httpMethod: string,
    uri: string,
    version: string,
    headers: seq<Header>,
    body: string,
    remoteIp: Addr)

  datatype Status = Status(code: int, name: string)

  datatype Response = Response(version: string, status: Status, headers: seq<Header>, body: string)

  const OK_STATUS := Status(200, "OK")
  const BAD_REQUEST_STATUS := Status(400, "Bad Request")
  const FORBIDDEN_STATUS := Status(403, "Forbidden")
  const NOT_FOUND_STATUS := Status(404, "Not Found")
  const INTERNAL_SERVER_ERROR_STATUS := Status(500, "Internal Server Error")

  const SERVER_HEADER := Header("Server", "TritonHTTP/0.1")
  const EMPTY_CONTENT_LENGTH := Header("Content-Length", "0")

  // ---------------------------------------------------------------------
  // Equality as the C++ operators define it
  // ---------------------------------------------------------------------

  /** Request equality compares every field except the peer address. */
  predicate RequestEq(a: Request, b: Request) {
    a.httpMethod == b.httpMethod && a.uri == b.uri && a.version == b.version
    && a.headers == b.headers && a.body == b.body
  }

  /** Status equality compares the code only. */
  predicate StatusEq(a: Status, b: Status) {
    a.code == b.code
  }

  predicate ResponseEq(a: Response, b: Response) {
    a.version == b.version && StatusEq(a.status, b.status)
    && a.headers == b.headers && a.body == b.body
  }

  /** Two requests are equal exactly when they differ at most in the peer
      address. */
  lemma RequestEqIgnoresAddress(a: Request, b: Request)
    ensures RequestEq(a, b) <==> a.(remoteIp := b.remoteIp) == b
  {
  }

  /** Two responses are equal exactly when they differ at most in the
      status name. */
  lemma ResponseEqIgnoresStatusName(a: Response, b: Response)
    ensures ResponseEq(a, b) <==> a.(status := a.status.(name := b.status.name)) == b
  {
  }

  // ---------------------------------------------------------------------
  // Header lookup
  // ---------------------------------------------------------------------

  /** The header's key equals `key` up to ASCII case. */
  predicate KeyMatches(h: Header, key: string) {
    ToLower(h.key) == ToLower(key)
  }

  function HasHeaderFrom(headers: seq<Header>, key: string, i: nat): (r: bool)
    requires i <= |headers|
    ensures r <==> exists j :: i <= j < |headers| && KeyMatches(headers[j], key)
    decreases |headers| - i
  {
    if i == |headers| then false
    else if KeyMatches(headers[i], key) then true
    else HasHeaderFrom(headers, key, i + 1)
  }

  /** `has_header`: some header's key matches `key` ignoring case. */
  function HasHeader(headers: seq<Header>, key: string): (r: bool)
    ensures r <==> exists j :: 0 <= j < |headers| && KeyMatches(headers[j], key)
  {
    HasHeaderFrom(headers, key, 0)
  }

  function GetHeaderFrom(headers: seq<Header>, key: string, i: nat): (h: Header)
    requires i <= |headers|
    ensures (forall j :: i <= j < |headers| ==> !KeyMatches(headers[j], key)) ==> h == Header("", "")
    ensures (exists j :: i <= j < |headers| && KeyMatches(headers[j], key)) ==>
              exists j :: i <= j < |headers| && KeyMatches(headers[j], key) && h == headers[j]
                          && forall k :: i <= k < j ==> !KeyMatches(headers[k], key)
    decreases |headers| - i
  {
    if i == |headers| then Header("", "")
    else if KeyMatches(headers[i], key) then headers[i]
    else GetHeaderFrom(headers, key, i + 1)
  }

  /** `get_header`: the first header whose key matches `key` ignoring case,
      or a header with empty key and value when none does. */
  function GetHeader(headers: seq<Header>, key: string): (h: Header)
    ensures (forall j :: 0 <= j < |headers| ==> !KeyMatches(headers[j], key)) ==> h == Header("", "")
    ensures (exists j :: 0 <= j < |headers| && KeyMatches(headers[j], key)) ==>
              exists j :: 0 <= j < |headers| && KeyMatches(headers[j], key) && h == headers[j]
                          && forall k :: 0 <= k < j ==> !KeyMatches(headers[k], key)
  {
    GetHeaderFrom(headers, key, 0)
  }

  /** The lookup functions agree: a header is present exactly when the one
      `get_header` returns matches the key. */
  lemma HasHeaderIffGetMatches(headers: seq<Header>, key: string)
    requires ToLower(key) != ""
    ensures HasHeader(headers, key) <==> KeyMatches(GetHeader(headers, key), key)
  {
  }

  /** Only the first matching header counts: anything after it is ignored. */
  lemma GetHeaderFirstWins(headers: seq<Header>, h: Header, key: string)
    requires KeyMatches(h, key)
    ensures GetHeader([h] + headers, key) == h
  {
    var hs := [h] + headers;
    assert KeyMatches(hs[0], key);
  }

  // ---------------------------------------------------------------------
  // Serialisation
  // ---------------------------------------------------------------------

  /** `key ": " value`, one header line without its line ending. */
  function HeaderLine(h: Header): string {
    h.key + ": " + h.value
  }

  function HeaderLines(headers: seq<Header>): (lines: seq<string>)
    ensures |lines| == |headers|
    ensures forall i :: 0 <= i < |headers| ==> lines[i] == HeaderLine(headers[i])
  {
    if headers == [] then [] else [HeaderLine(headers[0])] + HeaderLines(headers[1..])
  }

  /** Every header line followed by CRLF, in order. */
  function HeaderBlock(headers: seq<Header>): string {
    if headers == [] then "" else HeaderLine(headers[0]) + CRLF + HeaderBlock(headers[1..])
  }

  /** A first line, CRLF, the header block and a blank line are the
      CRLF-join of the first line and the header lines, then CRLF CRLF. */
  lemma {:induction false} HeaderBlockJoin(first: string, headers: seq<Header>)
    ensures first + CRLF + HeaderBlock(headers) + CRLF ==
            Join(CRLF, [first] + HeaderLines(headers)) + CRLF + CRLF
    decreases |headers|
  {
    if headers != [] {
      var line := HeaderLine(headers[0]);
      HeaderBlockJoin(line, headers[1..]);
      assert HeaderBlock(headers) == line + CRLF + HeaderBlock(headers[1..]);
      assert first + CRLF + HeaderBlock(headers) + CRLF ==
             first + CRLF + (line + CRLF + HeaderBlock(headers[1..]) + CRLF);
      assert HeaderLines(headers) == [line] + HeaderLines(headers[1..]);
      assert ([first] + HeaderLines(headers))[1..] == [line] + HeaderLines(headers[1..]);
      assert Join(CRLF, [first] + HeaderLines(headers)) ==
             first + CRLF + Join(CRLF, [line] + HeaderLines(headers[1..]));
    } else {
      assert [first] + HeaderLines(headers) == [first];
    }
  }

  /** `method SP uri SP version`. */
  function RequestLine(req: Request): string {
    req.httpMethod + " " + req.uri + " " + req.version
  }

  /** `HttpRequest::pack`: the request line, one line per header in order,
      a blank line, then the body; every line ends in CRLF. */
  function PackRequest(req: Request): Frame {
    Frame(RequestLine(req) + CRLF + HeaderBlock(req.headers) + CRLF + req.body)
  }

  /** A packed request is its lines joined by CRLF, a blank line, and the
      body. */
  lemma PackRequestLines(req: Request)
    ensures PackRequest(req).contents ==
            Join(CRLF, [RequestLine(req)] + HeaderLines(req.headers)) + CRLF + CRLF + req.body
  {
    HeaderBlockJoin(RequestLine(req), req.headers);
  }

  /** `version SP code SP name`, the code in decimal. */
  function StatusLine(resp: Response): string {
    resp.version + " " + IntToString(resp.status.code) + " " + resp.status.name
  }

  /** `HttpResponse::pack`: the status line, the headers, a blank line and
      the body. */
  function PackResponse(resp: Response): Frame {
    Frame(StatusLine(resp) + CRLF + HeaderBlock(resp.headers) + CRLF + resp.body)
  }

  /** A packed response is its lines joined by CRLF, a blank line, and the
      body. */
  lemma PackResponseLines(resp: Response)
    ensures PackResponse(resp).contents ==
            Join(CRLF, [StatusLine(resp)] + HeaderLines(resp.headers)) + CRLF + CRLF + resp.body
  {
    HeaderBlockJoin(StatusLine(resp), resp.headers);
  }

  // ---------------------------------------------------------------------
  // Canned responses
  // ---------------------------------------------------------------------

  /** `ok_response`: a 200 carrying the body, its length, its content type
      and the pre-rendered Last-Modified date. */
  function OkResponse(body: string, contentType: string, lastModified: string): (r: Response)
    ensures r.version == HTTP_1_1 && r.status == OK_STATUS && r.body == body
    ensures GetHeader(r.headers, "Content-Type").value == contentType
    ensures GetHeader(r.headers, "Last-Modified").value == lastModified
    ensures |r.headers| == 4 && r.headers[0] == SERVER_HEADER
  {
    var headers := [
      SERVER_HEADER,
      Header("Content-Length", NatToString(|body|)),
      Header("Content-Type", contentType),
      Header("Last-Modified", lastModified)
    ];
    assert KeyMatches(headers[2], "Content-Type") && KeyMatches(headers[3], "Last-Modified");
    Response(HTTP_1_1, OK_STATUS, headers, body)
  }

  /** `error_response`: the status with a Server header, a zero
      Content-Length and no body. */
  function ErrorResponse(status: Status): (r: Response)
    ensures r.version == HTTP_1_1 && r.status == status && r.body == ""
    ensures r.headers == [SERVER_HEADER, EMPTY_CONTENT_LENGTH]
  {
    Response(HTTP_1_1, status, [SERVER_HEADER, EMPTY_CONTENT_LENGTH], "")
  }

  function BadRequestResponse(): Response { ErrorResponse(BAD_REQUEST_STATUS) }
  function ForbiddenResponse(): Response { ErrorResponse(FORBIDDEN_STATUS) }
  function NotFoundResponse(): Response { ErrorResponse(NOT_FOUND_STATUS) }
  function InternalServerErrorResponse(): Response { ErrorResponse(INTERNAL_SERVER_ERROR_STATUS) }

  /** The Content-Length header of a 200 is the decimal length of its
      body. */
  lemma OkContentLength(body: string, contentType: string, lastModified: string)
    ensures var r := OkResponse(body, contentType, lastModified);
            var cl := GetHeader(r.headers, "Content-Length").value;
            (forall i :: 0 <= i < |cl| ==> IsDigit(cl[i])) && DecimalValue(cl) == |r.body|
  {
    var r := OkResponse(body, contentType, lastModified);
    assert KeyMatches(r.headers[1], "Content-Length");
    DecimalRoundTrip(|body|);
  }

  /** The Content-Length header of an error response is `0`, the length of
      its empty body. */
  lemma ErrorContentLength(status: Status)
    ensures var r := ErrorResponse(status);
            var cl := GetHeader(r.headers, "Content-Length").value;
            (forall i :: 0 <= i < |cl| ==> IsDigit(cl[i])) && DecimalValue(cl) == |r.body|
  {
    var r := ErrorResponse(status);
    assert KeyMatches(r.headers[1], "Content-Length");
    assert EMPTY_CONTENT_LENGTH.value == NatToString(0);
    DecimalRoundTrip(0);
  }

  /** `infer_content_type`: `.html`, then `.jpg`, then `.png`, else plain
      text. */
  function InferContentType(filename: string): (r: string)
    ensures r in {"text/html", "image/jpeg", "image/png", "text/plain"}
    ensures r == "text/plain" <==>
              !EndsWith(filename, ".html") && !EndsWith(filename, ".jpg") && !EndsWith(filename, ".png")
  {
    if EndsWith(filename, ".html") then "text/html"
    else if EndsWith(filename, ".jpg") then "image/jpeg"
    else if EndsWith(filename, ".png") then "image/png"
    else "text/plain"
  }

  /** The suffix decides the type, and `.html` wins over the others when a
      name could be read either way. */
  lemma InferContentTypeBySuffix(stem: string)
    ensures InferContentType(stem + ".html") == "text/html"
    ensures InferContentType(stem + ".jpg") == "image/jpeg"
    ensures InferContentType(stem + ".png") == "image/png"
  {
    assert (stem + ".html")[|stem|..] == ".html";
    assert (stem + ".jpg")[|stem|..] == ".jpg";
    assert (stem + ".png")[|stem|..] == ".png";
    assert !EndsWith(stem + ".jpg", ".html") by {
      if |stem + ".jpg"| >= 5 {
        assert (stem + ".jpg")[|stem + ".jpg"| - 1] == 'g';
      }
    }
    assert !EndsWith(stem + ".png", ".html") by {
      if |stem + ".png"| >= 5 {
        assert (stem + ".png")[|stem + ".png"| - 1] == 'g';
      }
    }
    assert !EndsWith(stem + ".png", ".jpg") by {
      assert (stem + ".png")[|stem + ".png"| - 3] == 'p';
    }
  }

  // ---------------------------------------------------------------------
  // Parsing
  // ---------------------------------------------------------------------

  /** One split at the first occurrence of a non-empty separator succeeds
      exactly when the separator occurs, and yields the text around it. */
  lemma SplitNOnce(s: string, sep: string)
    requires sep != []
    ensures |SplitN(s, sep, 1)| == 2 <==> Find(s, sep).Some?
    ensures Find(s, sep).Some? ==>
              var p := Find(s, sep).value;
              SplitN(s, sep, 1) == [s[..p], s[p + |sep|..]]
              && s == s[..p] + sep + s[p + |sep|..] && Free(s[..p], sep)
  {
    match Find(s, sep)
    case None =>
    case Some(p) =>
      assert s == s[..p] + s[p..p + |sep|] + s[p + |sep|..];
      forall j: nat
        ensures !OccursAt(s[..p], sep, j)
      {
        if j + |sep| <= p {
          assert s[..p] + s[p..] == s;
          OccursInPrefix(s[..p], s[p..], sep, j);
        }
      }
  }

  /** `parse_headers`: each line must contain `": "`; the key is the text
      before its first occurrence and the value everything after. */
  function ParseHeaders(lines: seq<string>): (r: Result<seq<Header>>)
    ensures r.Ok? <==> forall i :: 0 <= i < |lines| ==> Find(lines[i], ": ").Some?
    ensures r.Err? ==> r.error == HttpRequestParseError
    ensures r.Ok? ==> |r.value| == |lines|
    ensures r.Ok? ==> forall i :: 0 <= i < |lines| ==>
                        HeaderLine(r.value[i]) == lines[i] && Free(r.value[i].key, ": ")
  {
    if lines == [] then Ok([])
    else
      var parts := SplitN(lines[0], ": ", 1);
      SplitNOnce(lines[0], ": ");
      if |parts| != 2 then Err(HttpRequestParseError)
      else
        match ParseHeaders(lines[1..])
        case Err(e) => Err(e)
        case Ok(rest) =>
          assert forall i :: 1 <= i < |lines| ==> lines[i] == lines[1..][i - 1];
          Ok([Header(parts[0], parts[1])] + rest)
  }

  /** A header line is the line of exactly one header whose key is free of
      `": "`. */
  lemma HeaderLineInjective(a: Header, b: Header)
    requires Free(a.key, ": ") && Free(b.key, ": ")
    requires HeaderLine(a) == HeaderLine(b)
    ensures a == b
  {
    BorderFreeSeparators();
    FindAtJoin(a.key, ": ", a.value);
    FindAtJoin(b.key, ": ", b.value);
    assert |a.key| == |b.key|;
    assert a.key == HeaderLine(a)[..|a.key|];
    assert b.key == HeaderLine(b)[..|b.key|];
    assert a.value == HeaderLine(a)[|a.key| + 2..];
    assert b.value == HeaderLine(b)[|b.key| + 2..];
  }

  /** A header line splits back into its key and value. */
  lemma SplitHeaderLine(h: Header)
    requires Free(h.key, ": ")
    ensures SplitN(HeaderLine(h), ": ", 1) == [h.key, h.value]
  {
    BorderFreeSeparators();
    SplitNAtJoin(h.key, ": ", h.value, 1);
  }

  /** Parsing the lines of headers with `": "`-free keys gives them back. */
  lemma {:induction false} ParseHeaderLines(headers: seq<Header>)
    requires forall i :: 0 <= i < |headers| ==> Free(headers[i].key, ": ")
    ensures ParseHeaders(HeaderLines(headers)) == Ok(headers)
    decreases |headers|
  {
    if headers != [] {
      var lines := HeaderLines(headers);
      assert lines == [HeaderLine(headers[0])] + HeaderLines(headers[1..]);
      assert lines[1..] == HeaderLines(headers[1..]);
      assert forall i :: 0 <= i < |headers[1..]| ==> headers[1..][i] == headers[i + 1];
      ParseHeaderLines(headers[1..]);
      SplitHeaderLine(headers[0]);
      assert headers == [headers[0]] + headers[1..];
    }
  }

  /** A request URI must be non-empty and begin with `/`. */
  predicate ValidUri(uri: string) {
    uri != "" && uri[0] == '/'
  }

  /** `parse_request_frame`: split on CRLF; the first line must split on its
      first two spaces into method, URI and version; the URI must be valid;
      the remaining lines are headers. The body is empty and the peer
      address zero. */
  function ParseRequestFrame(frame: Frame): (r: Result<Request>)
    ensures r.Err? ==> r.error == HttpRequestParseError
    ensures r.Ok? ==> r.value.body == "" && r.value.remoteIp == ZERO_ADDR && ValidUri(r.value.uri)
  {
    var lines := Split(frame.contents, CRLF);
    var parts := SplitN(lines[0], " ", 2);
    if |parts| != 3 then Err(HttpRequestParseError)
    else if !ValidUri(parts[1]) then Err(HttpRequestParseError)
    else
      match ParseHeaders(lines[1..])
      case Err(e) => Err(e)
      case Ok(headers) => Ok(Request(parts[0], parts[1], parts[2], headers, "", ZERO_ADDR))
  }

  /** A request that survives serialisation: method and URI free of spaces,
      a valid URI, no field containing CRLF, and header keys free of
      `": "`. */
  ghost predicate WellFormedRequest(req: Request) {
    Free(req.httpMethod, " ") && Free(req.uri, " ") && ValidUri(req.uri)
    && Free(req.httpMethod, CRLF) && Free(req.uri, CRLF) && Free(req.version, CRLF)
    && forall i :: 0 <= i < |req.headers| ==>
         Free(req.headers[i].key, ": ") && Free(req.headers[i].key, CRLF)
         && Free(req.headers[i].value, CRLF)
  }

  lemma FreeEmpty(sep: string)
    requires sep != []
    ensures Free("", sep)
  {
  }

  /** The request line and header lines of a well-formed request contain
      no CRLF. */
  lemma WellFormedLinesFree(req: Request)
    requires WellFormedRequest(req)
    ensures forall i :: 0 <= i < |[RequestLine(req)] + HeaderLines(req.headers)| ==>
              Free(([RequestLine(req)] + HeaderLines(req.headers))[i], CRLF)
  {
    FreeAroundChar(req.httpMethod, ' ', req.uri, CRLF);
    FreeAroundChar(req.httpMethod + " " + req.uri, ' ', req.version, CRLF);
    var lines := [RequestLine(req)] + HeaderLines(req.headers);
    forall i | 0 <= i < |lines|
      ensures Free(lines[i], CRLF)
    {
      if i > 0 {
        var h := req.headers[i - 1];
        FreeEmpty(CRLF);
        FreeAroundChar("", ' ', h.value, CRLF);
        assert "" + " " + h.value == " " + h.value;
        FreeAroundChar(h.key, ':', " " + h.value, CRLF);
        assert h.key + ":" + (" " + h.value) == HeaderLine(h);
      }
    }
  }

  /** The request line of a well-formed request splits back into method,
      URI and version. */
  lemma SplitRequestLine(req: Request)
    requires WellFormedRequest(req)
    ensures SplitN(RequestLine(req), " ", 2) == [req.httpMethod, req.uri, req.version]
  {
    BorderFreeSeparators();
    assert RequestLine(req) == req.httpMethod + " " + (req.uri + " " + req.version);
    SplitNAtJoin(req.httpMethod, " ", req.uri + " " + req.version, 2);
    SplitNAtJoin(req.uri, " ", req.version, 1);
  }

  /** Round trip: the frame `read_until("\r\n\r\n")` delivers for a
      packed well-formed request with no body parses back to that request,
      with the peer address zeroed. */
  lemma PackParseRoundTrip(req: Request, frame: Frame)
    requires WellFormedRequest(req) && req.body == ""
    requires PackRequest(req).contents == frame.contents + CRLF + CRLF
    ensures ParseRequestFrame(frame) == Ok(req.(remoteIp := ZERO_ADDR))
    ensures RequestEq(ParseRequestFrame(frame).value, req)
  {
    PackedFrameIsHead(req, frame);
    ParseHead(req, frame);
  }

  /** The frame before the blank line of a packed request without a body
      is its head: the request line and header lines joined by CRLF. */
  lemma PackedFrameIsHead(req: Request, frame: Frame)
    requires req.body == "" && PackRequest(req).contents == frame.contents + CRLF + CRLF
    ensures frame.contents == Join(CRLF, [RequestLine(req)] + HeaderLines(req.headers))
  {
    var x := Join(CRLF, [RequestLine(req)] + HeaderLines(req.headers));
    PackRequestLines(req);
    assert x + CRLF + CRLF == frame.contents + CRLF + CRLF;
    assert x == (x + CRLF + CRLF)[..|x|];
    assert frame.contents == (frame.contents + CRLF + CRLF)[..|frame.contents|];
  }

  /** The head of a well-formed request parses back to it. */
  lemma ParseHead(req: Request, frame: Frame)
    requires WellFormedRequest(req) && req.body == ""
    requires frame.contents == Join(CRLF, [RequestLine(req)] + HeaderLines(req.headers))
    ensures ParseRequestFrame(frame) == Ok(req.(remoteIp := ZERO_ADDR))
  {
    var lines := [RequestLine(req)] + HeaderLines(req.headers);
    WellFormedLinesFree(req);
    BorderFreeSeparators();
    SplitJoin(lines, CRLF);
    assert Split(frame.contents, CRLF)[0] == RequestLine(req);
    assert Split(frame.contents, CRLF)[1..] == HeaderLines(req.headers);
    SplitRequestLine(req);
    ParseHeaderLines(req.headers);
  }

  lemma JoinThree(parts: seq<string>)
    requires |parts| == 3
    ensures Join(" ", parts) == parts[0] + " " + parts[1] + " " + parts[2]
  {
    assert parts[1..][1..] == [parts[2]];
    assert Join(" ", parts[1..]) == parts[1] + " " + parts[2];
  }

  /** The request line of a parsed frame is its first line. */
  lemma ParsedRequestLine(frame: Frame)
    requires ParseRequestFrame(frame).Ok?
    ensures var r := ParseRequestFrame(frame).value;
            RequestLine(r) == Split(frame.contents, CRLF)[0]
            && Free(r.httpMethod, " ") && Free(r.uri, " ")
  {
    var lines := Split(frame.contents, CRLF);
    var parts := SplitN(lines[0], " ", 2);
    JoinSplitN(lines[0], " ", 2);
    SplitNPartsFree(lines[0], " ", 2);
    JoinThree(parts);
  }

  /** The converse: whatever parses is exactly the packed form of the
      result with its terminating blank line removed, and its method and
      URI contain no space. */
  lemma ParsePackInverse(frame: Frame)
    requires ParseRequestFrame(frame).Ok?
    ensures PackRequest(ParseRequestFrame(frame).value).contents == frame.contents + CRLF + CRLF
    ensures var r := ParseRequestFrame(frame).value; Free(r.httpMethod, " ") && Free(r.uri, " ")
  {
    var r := ParseRequestFrame(frame).value;
    var lines := Split(frame.contents, CRLF);
    PackRequestLines(r);
    JoinSplit(frame.contents, CRLF);
    ParsedRequestLine(frame);
    assert HeaderLines(r.headers) == lines[1..];
    assert [RequestLine(r)] + HeaderLines(r.headers) == lines;
  }

  /** Exactly the three ways a frame is rejected: a first line that does
      not split into three parts on its first two spaces, an invalid URI,
      or a header line lacking `": "`. */
  lemma ParseRejects(frame: Frame)
    ensures var lines := Split(frame.contents, CRLF);
            var parts := SplitN(lines[0], " ", 2);
            ParseRequestFrame(frame).Err? <==>
              |parts| != 3 || !ValidUri(parts[1])
              || exists i :: 1 <= i < |lines| && Find(lines[i], ": ").None?
  {
    var lines := Split(frame.contents, CRLF);
    assert forall i :: 1 <= i < |lines| ==> lines[i] == lines[1..][i - 1];
  }
}
