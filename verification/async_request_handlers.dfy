/** The asynchronous request handlers of async_request_handlers.cpp. Each
    hands its response to a callback and returns what the callback returns;
    the contracts below say which response, and that the callback is called
    exactly once, by stating the result as one application of it. */
module AsyncRequestHandlers {
  import opened Base
  import opened Util
  import opened Http
  import opened Htaccess
  import opened Mocks
  import opened AsyncFiles
  import RequestFilters
  import RequestHandlers
  import AsyncRequestFilters

  /** `TestAsyncHttpRequestHandler`: refuses every request. */
  function TestHandler<R>(request: Request, cb: Response -> R): (r: R)
    ensures r == cb(ForbiddenResponse())
  {
    cb(ForbiddenResponse())
  }

  /** The continuation `read_contents` is given: read the modification
      time and call back with the 200 response. */
  function OnContents<R>(path: string, file: File, contents: string, cb: Response -> R): (r: R)
    ensures r == cb(OkResponse(contents, InferContentType(path), file.lastModified))
  {
    ReadLastModified(file, (lastModified: string) => cb(OkResponse(contents, InferContentType(path), lastModified)))
  }

  /** The continuation `is_world_readable` is given: 403 for a private
      file, otherwise read its contents. */
  function OnReadable<R>(path: string, file: File, worldReadable: bool, cb: Response -> R): (r: R)
    ensures r == cb(RequestHandlers.FileResponse(path, Some(file.(worldReadable := worldReadable))))
  {
    if !worldReadable then cb(ForbiddenResponse())
    else ReadContents(file, (contents: string) => OnContents(path, file, contents, cb))
  }

  /** The continuation `read_file` is given: 404 for no file, otherwise
      ask whether others may read it. */
  function OnFile<R>(path: string, file: Option<File>, cb: Response -> R): (r: R)
    ensures r == cb(RequestHandlers.FileResponse(path, file))
  {
    if file.None? then cb(NotFoundResponse())
    else
      assert file.value.(worldReadable := file.value.worldReadable) == file.value;
      IsWorldReadable(file.value, (worldReadable: bool) => OnReadable(path, file.value, worldReadable, cb))
  }

  /** `FileServingAsyncHttpRequestHandler::handle_request`: the synchronous
      handler's decisions taken one continuation at a time, calling back
      exactly once with the synchronous handler's response. */
  function FileHandler<R>(repo: FileRepository, request: Request, cb: Response -> R): (r: R)
    ensures r == cb(RequestHandlers.HandleRequest(repo, request))
  {
    var canonical := CanonicalizePath(request.uri);
    if canonical == "" then cb(NotFoundResponse())
    else
      var path := if canonical == "/" then RequestHandlers.INDEX else canonical;
      assert RequestHandlers.ServedPath(request.uri) == Some(path);
      ReadFile(repo, path, (file: Option<File>) => OnFile(path, file, cb))
  }

  /** `AsyncRequestFilterMiddleware::handle_request` over the `.htaccess`
      filter: pass the same request and callback on to `handler` when the
      filter lets the request in, and call back with 403 when it does not. */
  function Middleware<R>(repo: FileRepository, env: Resolver, handler: (Request, Response -> R) -> R,
                         request: Request, cb: Response -> R): (r: Result<R>)
    ensures r == match RequestFilters.AllowRequest(repo, env, request)
                 case Ok(true) => Ok(handler(request, cb))
                 case Ok(false) => Ok(cb(ForbiddenResponse()))
                 case Err(e) => Err(e)
  {
    AsyncRequestFilters.AllowRequest(repo, env, request, (allowed: bool) =>
      if allowed then handler(request, cb) else cb(ForbiddenResponse()))
  }

  /** The middleware in front of the file handler calls back exactly once:
      with the file handler's response when the rules let the peer in, and
      with 403 when they turn it away. */
  lemma GuardedFileServing<R>(repo: FileRepository, env: Resolver, request: Request, cb: Response -> R)
    ensures var r := Middleware(repo, env, (q: Request, k: Response -> R) => FileHandler(repo, q, k), request, cb);
            match RequestFilters.AllowRequest(repo, env, request)
            case Ok(allowed) =>
              r == Ok(cb(if allowed then RequestHandlers.HandleRequest(repo, request) else ForbiddenResponse()))
            case Err(e) => r == Err(e)
  {
  }
}
