/** `AsyncHtAccessRequestFilter` of async_request_filters.cpp: the
    `.htaccess` decision of request_filters.cpp, delivered to a callback. */
module AsyncRequestFilters {
  import opened Base
  import opened Util
  import opened Http
  import opened Htaccess
  import opened Mocks
  import opened AsyncFiles
  import RequestFilters

  /** `allow_request`: look for the rules file of the requested file's
      directory, and call back with `true` when there is none, or with the
      parsed rules' verdict on the peer address. A rules file that fails to
      parse raises its error and the callback is never called. Names are
      resolved through `env`, which stands for the `NetworkDnsClient` this
      filter builds for every rules file. */
  function AllowRequest<R>(repo: FileRepository, env: Resolver, request: Request, cb: bool -> R): (r: Result<R>)
    ensures r == match RequestFilters.AllowRequest(repo, env, request)
                 case Ok(allowed) => Ok(cb(allowed))
                 case Err(e) => Err(e)
  {
    var path := RequestFilters.HtaccessPathFromFilePath(CanonicalizePath(request.uri));
    if path != "" then
      ReadFile(repo, path, (file: Option<File>) =>
        if file.Some? then
          ReadContents(file.value, (contents: string) =>
            match ParseHtAccessRules(env, contents)
            case Ok(rules) => Ok(cb(Allows(rules, request.remoteIp)))
            case Err(e) => Err(e))
        else Ok(cb(true)))
    else Ok(cb(true))
  }
}
