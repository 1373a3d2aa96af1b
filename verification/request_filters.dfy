/** The `.htaccess` filter of request_filters.cpp: the rules file that
    governs a request is the one in the directory of the file it asks for,
    and a request is let in unless that file exists and its rules turn the
    peer address away. */
module RequestFilters {
  import opened Base
  import opened Util
  import opened Http
  import opened Htaccess
  import opened Mocks

  const HTACCESS := ".htaccess"

  /** `htaccess_path_from_file_path`: the path with its last `/`-separated
      component replaced by `.htaccess`, or `""` when there is no `/`. */
  function HtaccessPathFromFilePath(path: string): (r: string)
    ensures r == "" <==> |Split(path, "/")| < 2
    ensures var parts := Split(path, "/");
            r != "" ==> r == Join("/", parts[..|parts| - 1]) + "/" + HTACCESS
  {
    var parts := Split(path, "/");
    if |parts| < 2 then ""
    else
      JoinSnoc("/", parts[..|parts| - 1], HTACCESS);
      Join("/", parts[..|parts| - 1] + [HTACCESS])
  }

  /** There is a rules file to look for exactly when the path has a `/`. */
  lemma HtaccessPathEmpty(path: string)
    ensures HtaccessPathFromFilePath(path) == "" <==> Find(path, "/").None?
  {
    if Find(path, "/").Some? {
      var p := Find(path, "/").value;
      assert Split(path, "/") == [path[..p]] + Split(path[p + 1..], "/");
      var parts := Split(path, "/");
      JoinSnoc("/", parts[..|parts| - 1], HTACCESS);
    }
  }

  /** The rules file sits beside the file: in `dir + "/" + name`, where
      `name` has no `/`, it is `dir + "/.htaccess"`. */
  lemma HtaccessPathReplacesName(dir: string, name: string)
    requires Free(name, "/")
    ensures HtaccessPathFromFilePath(dir + "/" + name) == dir + "/" + HTACCESS
  {
    SplitSlash(dir, name);
    SplitWhole(name, "/");
    var parts := Split(dir + "/" + name, "/");
    assert parts[..|parts| - 1] == Split(dir, "/");
    JoinSnoc("/", Split(dir, "/"), HTACCESS);
    JoinSplit(dir, "/");
  }

  /** `HtAccessRequestFilter::allow_request`: find the rules file for the
      canonical form of the URI; with none, or no such file, let the request
      in; otherwise parse it, throwing what the parser throws, and ask its
      rules about the peer address. */
  function AllowRequest(repo: FileRepository, env: Resolver, request: Request): (r: Result<bool>)
    ensures var path := HtaccessPathFromFilePath(CanonicalizePath(request.uri));
            path == "" || GetFile(repo, path).None? ==> r == Ok(true)
    ensures var path := HtaccessPathFromFilePath(CanonicalizePath(request.uri));
            r.Err? ==> path != "" && GetFile(repo, path).Some? &&
                       ParseHtAccessRules(env, GetFile(repo, path).value.contents) == Err(r.error)
    ensures var path := HtaccessPathFromFilePath(CanonicalizePath(request.uri));
            r == Ok(false) ==> path != "" && GetFile(repo, path).Some? &&
                               var rules := ParseHtAccessRules(env, GetFile(repo, path).value.contents);
                               rules.Ok? && !Allows(rules.value, request.remoteIp)
  {
    var path := HtaccessPathFromFilePath(CanonicalizePath(request.uri));
    var file := if path != "" then GetFile(repo, path) else None;
    if file.None? then Ok(true)
    else
      match ParseHtAccessRules(env, file.value.contents)
      case Ok(rules) => Ok(Allows(rules, request.remoteIp))
      case Err(e) => Err(e)
  }

  /** With no rules files at all, every request is let in. */
  lemma EmptyRepositoryAllows(env: Resolver, request: Request)
    ensures AllowRequest(map[], env, request) == Ok(true)
  {
  }

  /** Only the rules file of the requested file's own directory counts: a
      request for `dir/name` is decided by `dir/.htaccess` alone, which
      lets it in when absent and otherwise answers as its first matching
      rule does. Rules files of other directories, parent directories
      included, play no part. */
  lemma OwnDirectoryDecides(repo: FileRepository, env: Resolver, request: Request, dir: string, name: string)
    requires CanonicalizePath(request.uri) == dir + "/" + name && Free(name, "/")
    ensures var rulesFile := dir + "/" + HTACCESS;
            AllowRequest(repo, env, request) ==
              if rulesFile !in repo then Ok(true)
              else match ParseHtAccessRules(env, repo[rulesFile].contents)
                   case Ok(rules) => Ok(Allows(rules, request.remoteIp))
                   case Err(e) => Err(e)
  {
    HtaccessPathReplacesName(dir, name);
    assert (dir + "/" + HTACCESS)[|dir|] == '/';
  }

  /** A rules file of one line, `allow from ip/len` or `deny from ip/len`,
      in the requested file's directory: a peer inside the block gets that
      verdict, and any other peer is let in. */
  lemma SingleRuleDecides(repo: FileRepository, env: Resolver, request: Request, dir: string, name: string,
                          allow: bool, ip: string, len: string)
    requires CanonicalizePath(request.uri) == dir + "/" + name && Free(name, "/")
    requires Free(ip, "/") && Free(len, "/") && Free(ip + "/" + len, FROM)
    requires Free(AllowDenyWord(allow) + FROM + (ip + "/" + len), "\n")
    requires env.parseIp(ip).Some? && env.parseLength(len).Some?
    requires NewCidrBlock(env.parseIp(ip).value, env.parseLength(len).value).Ok?
    requires dir + "/" + HTACCESS in repo
    requires repo[dir + "/" + HTACCESS].contents == AllowDenyWord(allow) + FROM + (ip + "/" + len)
    ensures var block := NewCidrBlock(env.parseIp(ip).value, env.parseLength(len).value).value;
            AllowRequest(repo, env, request) == Ok(if Matches(block, request.remoteIp) then allow else true)
  {
    var block := NewCidrBlock(env.parseIp(ip).value, env.parseLength(len).value).value;
    OwnDirectoryDecides(repo, env, request, dir, name);
    SingleRuleFile(env, allow, ip, len);
    assert Allows([Rule(block, allow)], request.remoteIp) == if Matches(block, request.remoteIp) then allow else true;
  }

  /** The rules a one-line rules file parses to. */
  lemma SingleRuleFile(env: Resolver, allow: bool, ip: string, len: string)
    requires Free(ip, "/") && Free(len, "/") && Free(ip + "/" + len, FROM)
    requires Free(AllowDenyWord(allow) + FROM + (ip + "/" + len), "\n")
    requires env.parseIp(ip).Some? && env.parseLength(len).Some?
    requires NewCidrBlock(env.parseIp(ip).value, env.parseLength(len).value).Ok?
    ensures ParseHtAccessRules(env, AllowDenyWord(allow) + FROM + (ip + "/" + len)) ==
            Ok([Rule(NewCidrBlock(env.parseIp(ip).value, env.parseLength(len).value).value, allow)])
  {
    var line := AllowDenyWord(allow) + FROM + (ip + "/" + len);
    ParseSingleLine(env, line);
    ParseRuleLineOf(env, allow, ip + "/" + len);
    ParseCidrOf(env, ip, len);
    var block := NewCidrBlock(env.parseIp(ip).value, env.parseLength(len).value).value;
    assert ParseCidrOrDomain(env, ip + "/" + len) == Ok([block]);
    assert RulesFor([block], allow) == [Rule(block, allow)];
  }

  /** Two repositories that agree on the one rules file a request looks at
      decide it alike. */
  lemma OtherFilesIrrelevant(repo1: FileRepository, repo2: FileRepository, env: Resolver, request: Request)
    requires var path := HtaccessPathFromFilePath(CanonicalizePath(request.uri));
             path != "" ==> GetFile(repo1, path) == GetFile(repo2, path)
    ensures AllowRequest(repo1, env, request) == AllowRequest(repo2, env, request)
  {
  }
}
