/** `FileServingHttpHandler` of request_handlers.cpp: serve the file a
    request names from the repository, answering 404 for a path that
    escapes the root or names no file, 403 for a file others may not read,
    and 200 with the file otherwise. */
module RequestHandlers {
  import opened Base
  import opened Util
  import opened Http
  import opened Mocks

  const INDEX := "/index.html"

  /** The repository path a URI is served from: its canonical form, with
      the root standing for `/index.html`; none when the URI escapes the
      root. */
  function ServedPath(uri: string): (r: Option<string>)
    ensures r.None? <==> CanonicalizePath(uri) == ""
    ensures r.Some? ==> r.value != "/" && CanonicalizePath(r.value) == r.value
  {
    var path := CanonicalizePath(uri);
    CanonicalizeIdempotent(uri);
    IndexIsCanonical();
    if path == "" then None
    else if path == "/" then Some(INDEX)
    else Some(path)
  }

  /** `/index.html` is its own canonical form. */
  lemma IndexIsCanonical()
    ensures CanonicalizePath(INDEX) == INDEX
  {
    assert INDEX == "/" + Join("/", ["index.html"]);
    assert Free("index.html", "/") by {
      FreeOfChar("index.html", '/');
    }
    CanonicalFixedPoint(["index.html"]);
  }

  /** The answer for the file looked up at a served path. */
  function FileResponse(path: string, file: Option<File>): Response {
    if file.None? then NotFoundResponse()
    else if !file.value.worldReadable then ForbiddenResponse()
    else OkResponse(file.value.contents, Http.InferContentType(path), file.value.lastModified)
  }

  /** `FileServingHttpHandler::handle_request`. */
  function HandleRequest(repo: FileRepository, request: Request): Response {
    var path := ServedPath(request.uri);
    if path.None? then NotFoundResponse()
    else FileResponse(path.value, GetFile(repo, path.value))
  }

  /** The handler's three answers: 404 exactly when the URI escapes the
      root or names no stored file; 403 exactly when the file is stored but
      not readable by others; otherwise 200 with the file's bytes, its
      modification time, and a content type from its name. A file's
      contents leave only in a 200, and only when others may read it. */
  lemma HandleRequestDecides(repo: FileRepository, request: Request)
    ensures var r := HandleRequest(repo, request);
            var path := ServedPath(request.uri);
            (r == NotFoundResponse() <==> path.None? || path.value !in repo) &&
            (r == ForbiddenResponse() <==> path.Some? && path.value in repo && !repo[path.value].worldReadable) &&
            (r.status == OK_STATUS <==> path.Some? && path.value in repo && repo[path.value].worldReadable) &&
            (r.status == OK_STATUS ==>
               r == OkResponse(repo[path.value].contents, Http.InferContentType(path.value), repo[path.value].lastModified))
  {
    assert NOT_FOUND_STATUS != FORBIDDEN_STATUS;
  }

  /** The root is served as `/index.html`. */
  lemma RootIsIndex(repo: FileRepository, request: Request)
    ensures HandleRequest(repo, request.(uri := "/")) == HandleRequest(repo, request.(uri := INDEX))
  {
    CanonicalRoot();
    IndexIsCanonical();
  }

  /** Only the URI matters: the method, version, headers, body and peer of
      a request do not change the answer. */
  lemma OnlyUriMatters(repo: FileRepository, a: Request, b: Request)
    requires a.uri == b.uri
    ensures HandleRequest(repo, a) == HandleRequest(repo, b)
  {
  }

  // ---------------------------------------------------------------------
  // The file-serving vectors of test.cpp
  // ---------------------------------------------------------------------

  /** A file name without a slash that is neither `.` nor `..`. */
  lemma PlainName(name: string)
    requires name != "" && name != "." && name != ".."
    requires forall j :: 0 <= j < |name| ==> name[j] != '/'
    ensures CanonicalNames([name])
  {
    FreeOfChar(name, '/');
  }

  /** A path made of plain names is served as itself: the stored file's
      contents when others may read it, 403 when they may not, and 404
      when nothing is stored there. */
  lemma ServesCanonicalPath(repo: FileRepository, request: Request, names: seq<string>)
    requires CanonicalNames(names) && names != []
    ensures var path := "/" + Join("/", names);
            HandleRequest(repo, request.(uri := path)) ==
              if path !in repo then NotFoundResponse()
              else if !repo[path].worldReadable then ForbiddenResponse()
              else OkResponse(repo[path].contents, Http.InferContentType(path), repo[path].lastModified)
  {
    CanonicalFixedPoint(names);
    var path := "/" + Join("/", names);
    assert path != "/" by {
      SplitRooted(names);
    }
  }

  /** A name whose last character differs from a suffix's does not end
      with it. */
  lemma LastCharDiffers(s: string, suffix: string)
    requires s != [] && suffix != [] && s[|s| - 1] != suffix[|suffix| - 1]
    ensures !EndsWith(s, suffix)
  {
  }

  /** The repository of test.cpp:496-500, with `t` the one modification
      time the test sets. */
  function TestRepository(t: string): FileRepository {
    map["/foo.html" := File(true, "foo.html contents here", t),
        "/bar" := File(false, "bar contents here", ""),
        "/baz/car/tar" := File(true, "baz/car/tar contents here", "")]
  }

  /** `/foo.html` is typed as HTML. */
  lemma HtmlName()
    ensures Http.InferContentType("/foo.html") == "text/html"
  {
    InferContentTypeBySuffix("/foo");
    assert "/foo" + ".html" == "/foo.html";
  }

  /** test.cpp:505-507: a public file is served with its type and time. */
  lemma PublicFileVector(t: string, request: Request)
    ensures HandleRequest(TestRepository(t), request.(uri := "/foo.html"))
            == OkResponse("foo.html contents here", "text/html", t)
  {
    PlainName("foo.html");
    assert "/foo.html" == "/" + Join("/", ["foo.html"]);
    ServesCanonicalPath(TestRepository(t), request, ["foo.html"]);
    HtmlName();
  }

  /** test.cpp:509-511: a private file is refused. */
  lemma PrivateFileVector(t: string, request: Request)
    ensures HandleRequest(TestRepository(t), request.(uri := "/bar")) == ForbiddenResponse()
  {
    PlainName("bar");
    assert "/bar" == "/" + Join("/", ["bar"]);
    ServesCanonicalPath(TestRepository(t), request, ["bar"]);
  }

  /** test.cpp:513-515: a missing file is not found. */
  lemma MissingFileVector(t: string, request: Request)
    ensures HandleRequest(TestRepository(t), request.(uri := "/missing")) == NotFoundResponse()
  {
    PlainName("missing");
    assert "/missing" == "/" + Join("/", ["missing"]);
    ServesCanonicalPath(TestRepository(t), request, ["missing"]);
  }

  /** `/baz/car/tar` is made of three plain names. */
  lemma NestedPath()
    ensures CanonicalNames(["baz", "car", "tar"]) && "/baz/car/tar" == "/" + Join("/", ["baz", "car", "tar"])
  {
    var names := ["baz", "car", "tar"];
    PlainName("baz");
    PlainName("car");
    PlainName("tar");
    assert CanonicalNames(names) by {
      assert names == ["baz"] + ["car"] + ["tar"];
    }
    assert Join("/", names[1..]) == "car/tar" by {
      assert names[1..] == ["car", "tar"];
      assert ["car", "tar"][1..] == ["tar"];
    }
  }

  /** `/baz/car/tar` has none of the known suffixes, so it is plain text. */
  lemma NestedIsPlain()
    ensures Http.InferContentType("/baz/car/tar") == "text/plain"
  {
    LastCharDiffers("/baz/car/tar", ".html");
    LastCharDiffers("/baz/car/tar", ".jpg");
    LastCharDiffers("/baz/car/tar", ".png");
  }

  /** test.cpp:517-519: a nested file is served as plain text. */
  lemma NestedFileVector(t: string, request: Request)
    ensures HandleRequest(TestRepository(t), request.(uri := "/baz/car/tar"))
            == OkResponse("baz/car/tar contents here", "text/plain", "")
  {
    NestedPath();
    ServesCanonicalPath(TestRepository(t), request, ["baz", "car", "tar"]);
    NestedIsPlain();
  }
}
