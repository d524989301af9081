/** The request handler of server.js: the root-path rewrite,
    `safeResolvePath` and the MIME lookup. The file system and Node's
    `path`/`decodeURIComponent` are parameters. */
module StaticServer {
  import opened Common
  import opened JsString

  const Root: string := "/"
  const IndexPath: string := "/index.html"

  /** The parts of Node the handler calls and the model does not open up:
      `decodeURIComponent` (None when it throws), `path.normalize`,
      `path.join` and `path.extname`. */
  datatype PathOps = PathOps(
    decode: string -> Option<string>,
    normalize: string -> string,
    join: (string, string) -> string,
    extname: string -> string)

  /** The contents of the file at a path, or None when reading fails
      (missing file, directory, no permission). */
  type FileSystem = string -> Option<string>

  datatype Response =
    | BadRequest                              // 400 "Bad request"
    | NotFound                                // 404 "Not found"
    | Served(contentType: string, body: string)

  /** `s` begins with `../` or `..\`. */
  predicate StartsWithParentRef(s: string) {
    |s| >= 3 && s[0] == '.' && s[1] == '.' && (s[2] == '/' || s[2] == '\\')
  }

  /** `s.replace(/^([.][.][/\\])+/, "")`: every leading `../` or `..\` goes. */
  function StripParentRefs(s: string): (r: string)
    ensures |r| <= |s| && r == s[|s| - |r|..]
    ensures !StartsWithParentRef(r)
    ensures (|s| - |r|) % 3 == 0
    decreases |s|
  {
    if StartsWithParentRef(s) then StripParentRefs(s[3..]) else s
  }

  /** `n` parent references, each `../`. */
  function ParentRefs(n: nat): (r: string)
    ensures |r| == 3 * n
  {
    if n == 0 then [] else "../" + ParentRefs(n - 1)
  }

  /** Any number of leading parent references is removed, and nothing more. */
  lemma {:induction false} StripParentRefsRemovesExactly(n: nat, rest: string)
    requires !StartsWithParentRef(rest)
    ensures StripParentRefs(ParentRefs(n) + rest) == rest
    decreases n
  {
    if n > 0 {
      var s := ParentRefs(n) + rest;
      assert s == "../" + (ParentRefs(n - 1) + rest);
      assert StartsWithParentRef(s);
      assert s[3..] == ParentRefs(n - 1) + rest;
      StripParentRefsRemovesExactly(n - 1, rest);
    }
  }

  /** `safeResolvePath(rootDir, requestPath)`: None is the `null` of the
      source, for a path that fails to decode or resolves outside the root. */
  function SafeResolvePath(ops: PathOps, rootDir: string, requestPath: string): (r: Option<string>)
    ensures r.Some? ==> StartsWith(r.value, rootDir)
  {
    match ops.decode(BeforeFirst(requestPath, '?'))
    case None => None
    case Some(pathname) =>
      var normalized := StripParentRefs(ops.normalize(pathname));
      var resolved := ops.join(rootDir, normalized);
      if StartsWith(resolved, rootDir) then Some(resolved) else None
  }

  /** Whatever follows the first `?` has no effect on the resolved path. */
  lemma SafeResolveIgnoresQuery(ops: PathOps, rootDir: string, path: string, query: string)
    requires '?' !in path
    ensures SafeResolvePath(ops, rootDir, path + "?" + query) == SafeResolvePath(ops, rootDir, path)
  {
    BeforeFirstIgnoresTail(path, '?', query);
    assert BeforeFirst(path, '?') == path;
  }

  /** MIME_TYPES */
  const MimeTypes: map<string, string> := map[
    ".html" := "text/html; charset=utf-8",
    ".css" := "text/css; charset=utf-8",
    ".js" := "application/javascript; charset=utf-8",
    ".json" := "application/json; charset=utf-8",
    ".png" := "image/png",
    ".jpg" := "image/jpeg",
    ".jpeg" := "image/jpeg",
    ".svg" := "image/svg+xml"]

  const DefaultContentType: string := "application/octet-stream"

  /** `MIME_TYPES[ext.toLowerCase()] || "application/octet-stream"`. */
  function ContentType(ext: string): (t: string)
    ensures t == DefaultContentType <==> AsciiLower(ext) !in MimeTypes
    ensures t != DefaultContentType ==> t in MimeTypes.Values
    ensures AsciiLower(ext) in MimeTypes ==> t == MimeTypes[AsciiLower(ext)]
  {
    var lower := AsciiLower(ext);
    if lower in MimeTypes && MimeTypes[lower] != [] then MimeTypes[lower] else DefaultContentType
  }

  /** Lower-casing twice is lower-casing once. */
  lemma AsciiLowerIdempotent(s: string)
    ensures AsciiLower(AsciiLower(s)) == AsciiLower(s)
  {
    var once := AsciiLower(s);
    forall i | 0 <= i < |s|
      ensures AsciiLower(once)[i] == once[i]
    {
      assert once[i] == AsciiLowerChar(s[i]);
    }
  }

  /** The extension's case does not matter. */
  lemma ContentTypeIgnoresCase(ext: string)
    ensures ContentType(ext) == ContentType(AsciiLower(ext))
  {
    AsciiLowerIdempotent(ext);
  }

  const UpperPng: string := ".PNG"

  lemma UpperCaseExtensionFound()
    ensures ContentType(UpperPng) == "image/png"
  {
    assert AsciiLower(UpperPng) == ".png";
  }

  /** Resolve the request path, read the file, and label it by extension. */
  function ResolveAndRead(ops: PathOps, rootDir: string, files: FileSystem, requestPath: string)
    : (response: Response)
    ensures response.Served? ==>
              SafeResolvePath(ops, rootDir, requestPath).Some? &&
              var filePath := SafeResolvePath(ops, rootDir, requestPath).value;
              StartsWith(filePath, rootDir) && files(filePath) == Some(response.body)
              && response.contentType == ContentType(ops.extname(filePath))
    ensures response == BadRequest <==> SafeResolvePath(ops, rootDir, requestPath).None?
    ensures SafeResolvePath(ops, rootDir, requestPath).Some? ==>
              var filePath := SafeResolvePath(ops, rootDir, requestPath).value;
              (response == NotFound <==> files(filePath).None?) &&
              (files(filePath).Some? ==>
                 response == Served(ContentType(ops.extname(filePath)), files(filePath).value))
  {
    match SafeResolvePath(ops, rootDir, requestPath)
    case None => BadRequest
    case Some(filePath) =>
      match files(filePath)
      case None => NotFound
      case Some(data) => Served(ContentType(ops.extname(filePath)), data)
  }

  /** The handler as written: `req.url === "/"` is compared with the whole
      URL, query string included. */
  function ServeAsWritten(ops: PathOps, rootDir: string, files: FileSystem, url: string): (response: Response)
    ensures url == Root ==> response == ResolveAndRead(ops, rootDir, files, IndexPath)
  {
    var requestPath := if url == Root then IndexPath else url;
    ResolveAndRead(ops, rootDir, files, requestPath)
  }

  /** As written, `/?v=1` is not rewritten: it resolves the root directory itself. */
  lemma RootWithQueryNotRewritten(ops: PathOps, rootDir: string, files: FileSystem, query: string)
    ensures ServeAsWritten(ops, rootDir, files, Root + "?" + query) == ResolveAndRead(ops, rootDir, files, Root)
  {
    var url := Root + "?" + query;
    assert url != Root by { assert |url| > |Root|; }
    SafeResolveIgnoresQuery(ops, rootDir, Root, query);
  }

  const ServerDir: string := "/srv/app"
  const IndexFile: string := "/srv/app/index.html"
  const IndexHtml: string := "<h1>Etablissements</h1>"
  const VersionQuery: string := "v=1"

  /** Identity decoding and normalisation, concatenating join, and a root
      that holds only `index.html`. */
  const ExampleOps: PathOps := PathOps(s => Some(s), s => s, (a, b) => a + b, s => ".html")
  const ExampleFiles: FileSystem := p => if p == IndexFile then Some(IndexHtml) else None

  const HtmlExt: string := ".html"
  const HtmlType: string := "text/html; charset=utf-8"

  /** In the example, a plain path resolves to itself under the root. */
  lemma ExampleResolves(path: string)
    requires '?' !in path && !StartsWithParentRef(path)
    ensures SafeResolvePath(ExampleOps, ServerDir, path) == Some(ServerDir + path)
  {
    assert BeforeFirst(path, '?') == path;
    assert ExampleOps.decode(path) == Some(path);
    assert ExampleOps.normalize(path) == path;
    assert ExampleOps.join(ServerDir, path) == ServerDir + path;
    assert StartsWith(ServerDir + path, ServerDir);
  }

  /** `/` is served as `index.html`. */
  lemma RootServesIndex()
    ensures ServeAsWritten(ExampleOps, ServerDir, ExampleFiles, Root) == Served(HtmlType, IndexHtml)
  {
    IndexResolves();
    IndexRead();
  }

  lemma IndexResolves()
    ensures SafeResolvePath(ExampleOps, ServerDir, IndexPath) == Some(IndexFile)
  {
    IndexPathPlain();
    ExampleResolves(IndexPath);
    IndexFileUnderRoot();
  }

  lemma IndexPathPlain()
    ensures '?' !in IndexPath && !StartsWithParentRef(IndexPath)
  {
  }

  lemma IndexFileUnderRoot()
    ensures ServerDir + IndexPath == IndexFile
  {
  }

  lemma IndexRead()
    requires SafeResolvePath(ExampleOps, ServerDir, IndexPath) == Some(IndexFile)
    ensures ResolveAndRead(ExampleOps, ServerDir, ExampleFiles, IndexPath) == Served(HtmlType, IndexHtml)
  {
    assert ExampleFiles(IndexFile) == Some(IndexHtml);
    assert ExampleOps.extname(IndexFile) == HtmlExt;
    HtmlContentType();
  }

  lemma HtmlContentType()
    ensures ContentType(HtmlExt) == HtmlType
  {
    assert AsciiLower(HtmlExt) == HtmlExt;
  }

  /** `/?v=1` resolves the directory, which cannot be read: 404. */
  lemma RootWithQueryNotFound()
    ensures ServeAsWritten(ExampleOps, ServerDir, ExampleFiles, Root + "?" + VersionQuery) == NotFound
  {
    RootWithQueryNotRewritten(ExampleOps, ServerDir, ExampleFiles, VersionQuery);
    ExampleResolves(Root);
    assert ServerDir + Root != IndexFile by { assert |ServerDir + Root| != |IndexFile|; }
    assert ExampleFiles(ServerDir + Root) == None;
  }

  /** The handler with the rewrite applied to the path without its query. */
  function Serve(ops: PathOps, rootDir: string, files: FileSystem, url: string): (response: Response)
    ensures BeforeFirst(url, '?') == Root ==> response == ResolveAndRead(ops, rootDir, files, IndexPath)
  {
    var requestPath := if BeforeFirst(url, '?') == Root then IndexPath else url;
    ResolveAndRead(ops, rootDir, files, requestPath)
  }

  /** A query string never changes the response. */
  lemma ServeIgnoresQuery(ops: PathOps, rootDir: string, files: FileSystem, path: string, query: string)
    requires '?' !in path
    ensures Serve(ops, rootDir, files, path + "?" + query) == Serve(ops, rootDir, files, path)
  {
    BeforeFirstIgnoresTail(path, '?', query);
    assert BeforeFirst(path, '?') == path;
    SafeResolveIgnoresQuery(ops, rootDir, path, query);
  }

  /** Away from `/`, the handler as written already ignores the query, and
      agrees with the corrected one everywhere but on `/?…`. */
  lemma ServeAsWrittenAgreesElsewhere(ops: PathOps, rootDir: string, files: FileSystem, url: string)
    requires BeforeFirst(url, '?') != Root
    ensures ServeAsWritten(ops, rootDir, files, url) == Serve(ops, rootDir, files, url)
  {
    assert BeforeFirst(Root, '?') == Root;
  }
}
