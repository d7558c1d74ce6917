/**
 The request handler of the static file server: default-document substitution,
 resolution against the server root, content type from the extension, and the
 choice between the file's bytes and the fixed 404 page.

 The filesystem is a map from resolved paths to file contents; a path missing
 from the map stands for every way a read can fail. The server root (the
 directory the server script lives in) is a parameter.
 */
module StaticServer {
  import opened Paths
  import opened ContentTypes

  newtype byte = x: int | 0 <= x < 256

  type FileStore = map<string, seq<byte>>

  /* The request method (`verb`) is carried but never consulted. */
  datatype Request = Request(verb: string, url: string)

  /* A body is either a file's bytes, sent as they are, or a string the
     transport encodes as UTF-8. */
  datatype Body = Bytes(data: seq<byte>) | Text(text: string)

  datatype Response = Response(status: int, contentType: string, body: Body)

  const DefaultDocument := "index1.html"
  const NotFoundPage := "<h1>404 - File Not Found</h1>"

  /** The path the handler serves for a URL: the default document for the
      root URL, the URL itself for every other one. */
  function RequestPath(url: string): (p: string)
    ensures url == "/" ==> p == DefaultDocument
    ensures p != url <==> url == "/"
  {
    if url == "/" then DefaultDocument else url
  }

  /** The file location a URL resolves to. No sanitisation: `..` segments in
      the URL are passed on to the join untouched. */
  function ResolvePath(root: string, url: string): (path: string)
    ensures url != "/" ==> path == root + "/" + url
    ensures url == "/" ==> path == root + "/" + DefaultDocument
    ensures |path| > |root| && path[..|root|] == root
  {
    Join(root, RequestPath(url))
  }

  /** The handler: 200 with the file's bytes and the content type of its
      extension when the resolved file can be read, the fixed 404 page
      otherwise. */
  function Handle(root: string, store: FileStore, req: Request): (res: Response)
    ensures res.status == 200 || res.status == 404
    ensures res.status == 404 <==> ResolvePath(root, req.url) !in store
  {
    var path := ResolvePath(root, req.url);
    var contentType := ContentTypeFor(Extension(path));
    if path in store then Response(200, contentType, Bytes(store[path]))
    else Response(404, DefaultType, Text(NotFoundPage))
  }

  /** The handler written the way the source computes it: the ternary, the
      join, Node's extension scan, the switch, then the read. */
  method HandleRequest(root: string, store: FileStore, req: Request) returns (res: Response)
    ensures res.status == 200 || res.status == 404
    ensures res.status == 404 <==> ResolvePath(root, req.url) !in store
    ensures res == Handle(root, store, req)
  {
    var filePath := if req.url == "/" then DefaultDocument else req.url;
    filePath := Join(root, filePath);
    var extname := ExtName(filePath);
    var contentType := SelectContentType(extname);
    if filePath !in store {
      res := Response(404, DefaultType, Text(NotFoundPage));
      return;
    }
    res := Response(200, contentType, Bytes(store[filePath]));
  }

  /** The switch of the handler: assignments over a `text/html` default. */
  method SelectContentType(extname: string) returns (contentType: string)
    ensures contentType == ContentTypeFor(extname)
  {
    contentType := DefaultType;
    if extname == ".js" {
      contentType := "text/javascript";
    } else if extname == ".css" {
      contentType := "text/css";
    } else if extname == ".json" {
      contentType := "application/json";
    }
  }

  /** A failed read yields the fixed 404 page whatever the extension. */
  lemma NotFoundResponse(root: string, store: FileStore, req: Request)
    requires ResolvePath(root, req.url) !in store
    ensures Handle(root, store, req) ==
              Response(404, "text/html", Text("<h1>404 - File Not Found</h1>"))
  {
  }

  /** A successful read yields 200, the table's type for the extension of the
      resolved path, and exactly the file's bytes. */
  lemma FoundResponse(root: string, store: FileStore, req: Request)
    requires ResolvePath(root, req.url) in store
    ensures var path := ResolvePath(root, req.url);
            var res := Handle(root, store, req);
            && res.status == 200
            && res.body == Bytes(store[path])
            && (Extension(path) in Table ==> res.contentType == Table[Extension(path)])
            && (Extension(path) !in Table ==> res.contentType == "text/html")
  {
  }

  /** The response is determined by the URL and by the store's entry for the
      resolved path alone: the method, the rest of the store, and earlier
      requests play no part, so a repeated request against an unchanged file
      gets an identical response. */
  lemma ResponseDependsOnlyOnUrlAndFile(root: string, s1: FileStore, s2: FileStore, r1: Request, r2: Request)
    requires r1.url == r2.url
    requires var p := ResolvePath(root, r1.url);
             (p in s1 <==> p in s2) && (p in s1 ==> s1[p] == s2[p])
    ensures Handle(root, s1, r1) == Handle(root, s2, r2)
  {
  }

  /** The substitution merges exactly one pair of URLs: two URLs name the
      same path only when they are equal or are `/` and the bare default
      document name. */
  lemma RequestPathAliases(u: string, v: string)
    ensures RequestPath(u) == RequestPath(v) <==>
              u == v || (u == "/" && v == DefaultDocument) || (u == DefaultDocument && v == "/")
  {
  }

  /** A URL naming a file directly under the root resolves to a path whose
      basename is that file name, whatever the root. */
  lemma ResolvedBasename(root: string, name: string)
    requires |name| > 0 && Separator !in name
    ensures Basename(ResolvePath(root, "/" + name)) == name
  {
    var url := "/" + name;
    assert url != "/";
    assert url[1] == name[0];
    JoinBasename(root, url);
    assert url == Join("", name);
    assert name[0] != Separator;
    JoinBasename("", name);
    BasenameOfName(name);
  }

  /** The content type is a function of the URL's last segment: it does not
      depend on the root, and for every URL other than `/` it is the type of
      the URL's own extension. */
  lemma ContentTypeFollowsUrl(root: string, url: string)
    requires url != "/"
    requires exists k :: 0 <= k < |url| && url[k] != Separator
    ensures Extension(ResolvePath(root, url)) == Extension(url)
  {
    JoinBasename(root, url);
  }

  /* A separator-free file name split at its last, non-leading dot. */
  predicate DottedName(stem: string, ext: string) {
    && Separator !in stem && |stem| > 0 && stem + ext != ".."
    && |ext| > 0 && ext[0] == Dot && Separator !in ext && Dot !in ext[1..]
  }

  /** A file name `stem + ext` joined onto any root has extension `ext`. */
  lemma JoinedExtension(root: string, stem: string, ext: string)
    requires DottedName(stem, ext)
    ensures Extension(Join(root, stem + ext)) == ext
  {
    var name := stem + ext;
    assert name[0] == stem[0];
    JoinBasename(root, name);
    BasenameOfName(name);
    ExtensionOfDottedName(Join(root, name), stem, ext);
  }

  /** A URL naming `stem + ext` directly under the root resolves to a path
      with extension `ext`, whatever the root. */
  lemma UrlExtension(root: string, url: string, stem: string, ext: string)
    requires DottedName(stem, ext) && url == "/" + stem + ext
    ensures Extension(ResolvePath(root, url)) == ext
  {
    var name := stem + ext;
    assert url == "/" + name;
    ResolvedBasename(root, name);
    ExtensionOfDottedName(ResolvePath(root, url), stem, ext);
  }

  /* The default document's extension, whatever the root. */
  lemma DefaultDocumentExtension(root: string)
    ensures Extension(ResolvePath(root, "/")) == ".html"
  {
    assert DottedName("index1", ".html");
    JoinedExtension(root, "index1", ".html");
    assert "index1" + ".html" == DefaultDocument;
  }

  /** The root URL serves the default document as `text/html`, when it exists. */
  lemma RootServesDefaultDocument(root: string, store: FileStore)
    requires root + "/" + DefaultDocument in store
    ensures Handle(root, store, Request("GET", "/")) ==
              Response(200, "text/html", Bytes(store[root + "/" + DefaultDocument]))
  {
    DefaultDocumentExtension(root);
    assert ContentTypeFor(".html") == "text/html";
  }

  /** A URL naming `stem + ext` directly under the root, when that file
      exists, is served with its bytes and the table's type for `ext`, or
      `text/html` when `ext` is not in the table. */
  lemma NamedFileServed(root: string, store: FileStore, req: Request, stem: string, ext: string)
    requires DottedName(stem, ext) && req.url == "/" + stem + ext
    requires ResolvePath(root, req.url) in store
    ensures var res := Handle(root, store, req);
            && res.status == 200
            && res.body == Bytes(store[ResolvePath(root, req.url)])
            && (ext in Table ==> res.contentType == Table[ext])
            && (ext !in Table ==> res.contentType == "text/html")
  {
    UrlExtension(root, req.url, stem, ext);
  }

  /** A file whose name starts with its only dot has no extension: `/.js`
      is announced as `text/html`, not `text/javascript`. */
  lemma DotfileScenario(root: string, store: FileStore)
    requires ResolvePath(root, "/.js") in store
    ensures Handle(root, store, Request("GET", "/.js")).contentType == "text/html"
  {
    assert "/.js" == "/" + ".js";
    assert Separator !in ".js" && Dot !in ".js"[1..];
    ResolvedBasename(root, ".js");
    ExtensionOfDotfile(ResolvePath(root, "/.js"));
  }

  /** `GET /app.js` serves the bytes of `app.js` under the root verbatim, as
      `text/javascript`. */
  lemma ScriptScenario(root: string, store: FileStore)
    requires ResolvePath(root, "/app.js") in store
    ensures Handle(root, store, Request("GET", "/app.js")) ==
              Response(200, "text/javascript", Bytes(store[ResolvePath(root, "/app.js")]))
  {
    ScriptExtension(root);
    assert ContentTypeFor(".js") == "text/javascript";
  }

  lemma ScriptExtension(root: string)
    ensures Extension(ResolvePath(root, "/app.js")) == ".js"
  {
    assert DottedName("app", ".js");
    UrlExtension(root, "/app.js", "app", ".js");
  }

  /** A query string is not split off the URL: `/app.js?v=2` has the
      extension `.js?v=2`, so even when such a file exists it is announced as
      `text/html`. */
  lemma QueryStringScenario(root: string, store: FileStore)
    requires ResolvePath(root, "/app.js?v=2") in store
    ensures Handle(root, store, Request("GET", "/app.js?v=2")).contentType == "text/html"
  {
    QueryStringExtension(root);
    assert ContentTypeFor(".js?v=2") == "text/html";
  }

  lemma QueryStringExtension(root: string)
    ensures Extension(ResolvePath(root, "/app.js?v=2")) == ".js?v=2"
  {
    assert DottedName("app", ".js?v=2");
    UrlExtension(root, "/app.js?v=2", "app", ".js?v=2");
  }

  /** With `Join` as plain concatenation, a trailing `.` segment is not
      resolved away: `/app.js/.` has basename `.` and so the empty extension.
      (A normalising join removes it, giving the extension `.js`.) */
  lemma DotSegmentScenario(root: string)
    ensures Extension(ResolvePath(root, "/app.js/.")) == []
  {
    var url := "/app.js/.";
    assert url != "/" && url[1] != Separator;
    JoinBasename(root, url);
    assert url == Join("/app.js", ".");
    assert "."[0] != Separator;
    JoinBasename("/app.js", ".");
    BasenameOfName(".");
  }
}
