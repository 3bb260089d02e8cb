/** The request handler: the `/api/env` endpoint, then asset resolution with
    the single-page-application fallback, all inside one catch-all that turns
    any thrown error into a bare 500. */
module Server {
  import opened Outcomes
  import opened Strings
  import opened NodePath
  import opened ContentTypes
  import opened EnvEndpoint
  import opened AssetTarget

  newtype byte = x: int | 0 <= x < 256

  /** What the handler can observe of the disk: the paths that exist, those
      of them that are regular files, and the bytes of each readable file. */
  datatype FileSystem = FileSystem(present: set<Path>, regular: set<Path>, contents: map<Path, seq<byte>>) {

    /** `fs.existsSync(p) && fs.statSync(p).isFile()`. */
    predicate IsRegularFile(p: Path) {
      p in present && p in regular
    }

    /** `fs.readFileSync(p)` succeeds: the entry exists and has contents.
        A directory has none; a character device or a FIFO may have some,
        so readability does not depend on being a regular file. */
    predicate Readable(p: Path) {
      p in present && p in contents
    }

    /** `fs.readFileSync(p)`, with the exception as a failure. */
    function Read(p: Path): (r: Result<seq<byte>>)
      ensures r.Ok? <==> Readable(p)
      ensures r.Ok? ==> r.value == contents[p]
      ensures r.Err? ==> r.failure == ReadFailed(p)
    {
      if Readable(p) then Ok(contents[p]) else Err(ReadFailed(p))
    }
  }

  datatype Body =
    | Bytes(data: seq<byte>)   // a file's contents
    | Text(text: string)       // a plain-text message
    | Json(fields: Env)        // the object passed to `JSON.stringify`

  datatype Response = Response(status: nat, contentType: string, body: Body)

  /** A request: its raw `req.url`, and the pathname the handler derives from
      it with `new URL` and `decodeURIComponent` (`None` when either throws). */
  datatype Request = Request(url: string, pathname: Option<string>)

  const JsonType := "application/json"
  const NotFound := Response(404, "text/plain", Text("Not Found"))
  const InternalError := Response(500, "text/plain", Text("Internal Server Error"))

  /** `path.join(DIST, 'index.html')`, the fallback document. */
  function IndexPath(dist: Path): (index: Path)
    ensures index == dist + [IndexFile]
  {
    JoinIndexFile(dist);
    JoinPath(dist, [IndexFile])
  }

  /** Everything between decoding and the `catch`: probe the target, then the
      fallback document, then give up with a 404. */
  function ServeAsset(dist: Path, fs: FileSystem, urlPath: string): (r: Result<Response>)
    ensures r.Ok? ==> r.value == NotFound || (r.value.status == 200 && r.value.body.Bytes?)
    ensures r.Err? ==> r.failure.path == TargetPath(dist, urlPath) || r.failure.path == dist + [IndexFile]
  {
    var target := TargetPath(dist, urlPath);
    if fs.IsRegularFile(target) then
      match fs.Read(target)
      case Err(e) => Err(e)
      case Ok(data) => Ok(Response(200, ContentType(PathString(target)), Bytes(data)))
    else
      var index := IndexPath(dist);
      if index in fs.present then
        match fs.Read(index)
        case Err(e) => Err(e)
        case Ok(data) => Ok(Response(200, Html, Bytes(data)))
      else Ok(NotFound)
  }

  /** The whole handler. Exactly one response per request; a 500 carries
      nothing but the generic message. */
  function Handle(dist: Path, env: Env, fs: FileSystem, req: Request): (r: Response)
    ensures r.status == 200 || r.status == 404 || r.status == 500
    ensures r.status == 404 ==> r == NotFound
    ensures r.status == 500 ==> r == InternalError
    ensures r.body.Json? <==> req.url == EnvRoute
  {
    if req.url == EnvRoute then Response(200, JsonType, Json(PublicEnv(env)))
    else
      match req.pathname
      case None => InternalError
      case Some(urlPath) =>
        match ServeAsset(dist, fs, urlPath)
        case Ok(resp) => resp
        case Err(_) => InternalError
  }

  /** The outcome of asset resolution in each of its three branches. */
  lemma {:induction false} ServeAssetCases(dist: Path, fs: FileSystem, urlPath: string)
    ensures var t := TargetPath(dist, urlPath);
      var index := dist + [IndexFile];
      var r := ServeAsset(dist, fs, urlPath);
      && (fs.IsRegularFile(t) && fs.Readable(t) ==> r == Ok(Response(200, ContentType(PathString(t)), Bytes(fs.contents[t]))))
      && (fs.IsRegularFile(t) && !fs.Readable(t) ==> r == Err(ReadFailed(t)))
      && (!fs.IsRegularFile(t) && fs.Readable(index) ==> r == Ok(Response(200, Html, Bytes(fs.contents[index]))))
      && (!fs.IsRegularFile(t) && index in fs.present && !fs.Readable(index) ==> r == Err(ReadFailed(index)))
      && (!fs.IsRegularFile(t) && index !in fs.present ==> r == Ok(NotFound))
  {
    var t := TargetPath(dist, urlPath);
    var index := IndexPath(dist);
    if fs.IsRegularFile(t) {
      assert fs.Readable(t) ==> fs.Read(t) == Ok(fs.contents[t]);
    } else if index in fs.present {
      assert fs.Readable(index) ==> fs.Read(index) == Ok(fs.contents[index]);
    }
  }

  // ---------------------------------------------------------------------
  // The configuration endpoint

  /** `/api/env` answers 200 with JSON holding exactly the allowed variables,
      values unchanged. */
  lemma {:induction false} EnvRouteExposesAllowList(dist: Path, env: Env, fs: FileSystem, req: Request)
    requires req.url == EnvRoute
    ensures var r := Handle(dist, env, fs, req);
      && r.status == 200 && r.contentType == JsonType && r.body.Json?
      && (forall k :: k in r.body.fields <==> Exposed(env, k))
      && (forall k :: k in r.body.fields ==> r.body.fields[k] == env[k])
  {
  }

  /** Only the exact URL `/api/env` reaches the endpoint; a query string or a
      trailing slash sends the request to asset resolution. */
  lemma {:induction false} EnvRouteIsExact(dist: Path, env: Env, fs: FileSystem, p: Option<string>)
    ensures !Handle(dist, env, fs, Request("/api/env?x=1", p)).body.Json?
    ensures !Handle(dist, env, fs, Request("/api/env/", p)).body.Json?
  {
    assert "/api/env?x=1" != EnvRoute by {
      assert |"/api/env?x=1"| != |EnvRoute|;
    }
    assert "/api/env/" != EnvRoute by {
      assert |"/api/env/"| != |EnvRoute|;
    }
  }

  /** The endpoint reads neither the disk nor the pathname. */
  lemma {:induction false} EnvRouteIgnoresDisk(dist: Path, env: Env, fs1: FileSystem, fs2: FileSystem, p1: Option<string>, p2: Option<string>)
    ensures Handle(dist, env, fs1, Request(EnvRoute, p1)) == Handle(dist, env, fs2, Request(EnvRoute, p2))
  {
  }

  /** Asset responses never depend on the environment. */
  lemma {:induction false} AssetsIgnoreEnv(dist: Path, env1: Env, env2: Env, fs: FileSystem, req: Request)
    requires req.url != EnvRoute
    ensures Handle(dist, env1, fs, req) == Handle(dist, env2, fs, req)
  {
  }

  // ---------------------------------------------------------------------
  // The fallback chain

  /** A readable regular file at the target is served as is, typed by its
      extension. */
  lemma {:induction false} ServesExistingFile(dist: Path, env: Env, fs: FileSystem, url: string, urlPath: string)
    requires url != EnvRoute
    requires fs.IsRegularFile(TargetPath(dist, urlPath)) && fs.Readable(TargetPath(dist, urlPath))
    ensures var t := TargetPath(dist, urlPath);
      Handle(dist, env, fs, Request(url, Some(urlPath)))
        == Response(200, ContentType(PathString(t)), Bytes(fs.contents[t]))
  {
    var t := TargetPath(dist, urlPath);
    assert fs.Read(t) == Ok(fs.contents[t]);
    assert ServeAsset(dist, fs, urlPath) == Ok(Response(200, ContentType(PathString(t)), Bytes(fs.contents[t])));
  }

  /** Any target that is not a regular file hands over to the fallback
      document when it can be read. */
  lemma {:induction false} FallsBackToIndex(dist: Path, env: Env, fs: FileSystem, url: string, urlPath: string)
    requires url != EnvRoute
    requires !fs.IsRegularFile(TargetPath(dist, urlPath))
    requires fs.Readable(dist + [IndexFile])
    ensures Handle(dist, env, fs, Request(url, Some(urlPath)))
      == Response(200, Html, Bytes(fs.contents[dist + [IndexFile]]))
  {
    var index := IndexPath(dist);
    assert fs.Read(index) == Ok(fs.contents[index]);
    assert ServeAsset(dist, fs, urlPath) == Ok(Response(200, Html, Bytes(fs.contents[index])));
  }

  /** A 404 happens exactly when neither the target is a regular file nor the
      fallback document exists. */
  lemma {:induction false} NotFoundIff(dist: Path, env: Env, fs: FileSystem, req: Request)
    ensures Handle(dist, env, fs, req).status == 404 <==>
      && req.url != EnvRoute
      && req.pathname.Some?
      && !fs.IsRegularFile(TargetPath(dist, req.pathname.value))
      && dist + [IndexFile] !in fs.present
  {
    if req.url != EnvRoute && req.pathname.Some? {
      ServeAssetCases(dist, fs, req.pathname.value);
    }
  }

  /** A 500 happens exactly when the pathname cannot be decoded or the file
      chosen to be sent cannot be read. */
  lemma {:induction false} InternalErrorIff(dist: Path, env: Env, fs: FileSystem, req: Request)
    ensures Handle(dist, env, fs, req).status == 500 <==>
      && req.url != EnvRoute
      && (|| req.pathname.None?
          || (var t := TargetPath(dist, req.pathname.value);
              if fs.IsRegularFile(t) then !fs.Readable(t)
              else dist + [IndexFile] in fs.present && !fs.Readable(dist + [IndexFile])))
  {
    if req.url != EnvRoute && req.pathname.Some? {
      ServeAssetCases(dist, fs, req.pathname.value);
    }
  }

  /** The fallback only asks whether `index.html` exists, so a directory of
      that name (an entry without contents) makes every unmatched route fail
      with a 500 instead of a 404. */
  lemma {:induction false} IndexDirectoryFails(dist: Path, env: Env, fs: FileSystem, url: string, urlPath: string)
    requires url != EnvRoute
    requires !fs.IsRegularFile(TargetPath(dist, urlPath))
    requires dist + [IndexFile] in fs.present && dist + [IndexFile] !in fs.contents
    ensures Handle(dist, env, fs, Request(url, Some(urlPath))) == InternalError
  {
  }

  /** Every file the handler sends is either the target itself or the
      fallback document. */
  lemma {:induction false} ServedBytesProvenance(dist: Path, env: Env, fs: FileSystem, req: Request)
    requires Handle(dist, env, fs, req).body.Bytes?
    ensures req.pathname.Some?
    ensures var data := Handle(dist, env, fs, req).body.data;
      var t := TargetPath(dist, req.pathname.value);
      || (fs.IsRegularFile(t) && fs.Readable(t) && data == fs.contents[t])
      || (!fs.IsRegularFile(t) && fs.Readable(dist + [IndexFile]) && data == fs.contents[dist + [IndexFile]])
  {
    assert req.url != EnvRoute;
    match req.pathname
    case None =>
      assert false;
    case Some(urlPath) =>
      var t := TargetPath(dist, urlPath);
      assert ServeAsset(dist, fs, urlPath).Ok?;
      if !fs.IsRegularFile(t) {
        assert IndexPath(dist) == dist + [IndexFile];
      }
  }

  /** A directory-style request that succeeds is always answered with HTML:
      its own `index.html` or the fallback document. */
  lemma {:induction false} DirectoryRequestsServeHtml(dist: Path, env: Env, fs: FileSystem, req: Request)
    requires req.url != EnvRoute && req.pathname.Some?
    requires IsDirectoryRequest(req.pathname.value)
    requires Handle(dist, env, fs, req).status == 200
    ensures Handle(dist, env, fs, req).contentType == Html
  {
    var urlPath := req.pathname.value;
    var t := TargetPath(dist, urlPath);
    var r := ServeAsset(dist, fs, urlPath);
    assert Handle(dist, env, fs, req) == r.value;
    if fs.IsRegularFile(t) {
      DirectoryTargetIsHtml(dist, urlPath);
      assert r.value.contentType == ContentType(PathString(t));
    }
  }

  lemma {:induction false} DirectoryTargetIsHtml(dist: Path, urlPath: string)
    requires IsDirectoryRequest(urlPath)
    ensures ContentType(PathString(TargetPath(dist, urlPath))) == Html
  {
    var t := TargetPath(dist, urlPath);
    DirectoryTargetIsIndex(dist, urlPath);
    IndexIsHtml(t[..|t| - 1]);
  }

  /** With a readable fallback document, every decodable request succeeds
      unless the file it names exists but cannot be read. */
  lemma {:induction false} ReadableIndexNeverNotFound(dist: Path, env: Env, fs: FileSystem, req: Request)
    requires fs.Readable(dist + [IndexFile])
    requires req.pathname.Some?
    requires fs.IsRegularFile(TargetPath(dist, req.pathname.value)) ==> fs.Readable(TargetPath(dist, req.pathname.value))
    ensures Handle(dist, env, fs, req).status == 200
  {
  }

  /** Nothing confines the target to the asset directory: a regular file next
      to it is served for the decoded pathname `/../<name>`. */
  lemma {:induction false} TraversalServesSibling(dist: Path, env: Env, fs: FileSystem, url: string, x: string)
    requires url != EnvRoute
    requires |dist| > 0 && IsSegment(x) && x != dist[|dist| - 1]
    requires fs.IsRegularFile(dist[..|dist| - 1] + [x]) && fs.Readable(dist[..|dist| - 1] + [x])
    ensures var r := Handle(dist, env, fs, Request(url, Some("/../" + x)));
      r.status == 200 && r.body == Bytes(fs.contents[dist[..|dist| - 1] + [x]])
  {
    ParentSegmentEscapes(dist, x);
  }
}
