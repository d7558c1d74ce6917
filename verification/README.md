# Static file server: request handler model

A Dafny model of the request handler of the portfolio site's Node static file
server (`server.js`). For each request the handler

1. substitutes the default document `index1.html` when the URL is exactly `/`,
   and otherwise keeps the URL as it is (no decoding, no query-string removal,
   no rejection of `..` segments);
2. joins that path onto the server root (the script's own directory);
3. takes the extension of the joined path with Node's `path.extname` rule;
4. maps `.js`, `.css` and `.json` to `text/javascript`, `text/css` and
   `application/json`, and every other extension to `text/html`;
5. reads the file: on any read failure it answers 404, `text/html`,
   `<h1>404 - File Not Found</h1>`; otherwise 200 with the table's type and
   the file's bytes.

The filesystem is a `map<string, seq<byte>>` from resolved paths to contents;
a path missing from the map stands for every read error (missing file,
permission denied, a directory). The server root is a parameter.

Modules:

- `Paths` (`paths.dfy`): `path.join` as `root + "/" + p`; `path.basename`
  and `path.extname` as declarative definitions (`Basename`, `Extension`), and
  `ExtName`, Node's one-pass right-to-left extension scan, proved equal to
  `Extension` for every path.
- `ContentTypes` (`content_types.dfy`): the extension switch and its table.
- `StaticServer` (`static_server.dfy`): requests, responses, the handler as a
  function (`Handle`) and as the step-by-step method the source is
  (`HandleRequest`), and the properties of the response.

The extension follows Node's `path.extname`, not the looser reading "the
substring after the last dot of the final segment": a basename whose only dot
is its first character has no extension (`/.js` is served as `text/html`,
`StaticServer.DotfileScenario`), and neither does the basename `..`.

Node's `path` module is taken in its POSIX form (`path.posix`): `/` is the
only separator. On Windows `path.win32` also treats `\` as a separator and
understands drive letters; that variant is not modelled.

## Model

| member | source | states |
|---|---|---|
| StaticServer.RequestPath | server.js:9 | the default document is substituted exactly when the URL is `/`; every other URL is used unchanged |
| Paths.Join | server.js:10 | the joined path is the root, one separator, then the requested path, each readable back at its position |
| StaticServer.ResolvePath | server.js:9-10 | `/` resolves to `<root>/index1.html` and every other URL is joined to the root unchanged; for URLs with no `..` segment the resolved path starts with the root |
| StaticServer.RequestPathAliases | server.js:9 | the substitution merges exactly one pair of URLs: two URLs name the same path exactly when they are equal or are `/` and the bare default document name `index1.html` |
| Paths.Extension | server.js:13 | the extension is empty or a dot followed by dot-free, separator-free text |
| Paths.ExtensionSuffix | server.js:13 | the extension is a suffix of the path's basename (its final segment, trailing separators ignored) |
| Paths.ExtensionEmptyIff | server.js:13 | the extension is empty exactly when the basename has no dot, has a dot only as its first character, or is `..`: the converse of `ExtensionOfDottedName` and `ExtensionOfDotfile` together |
| Paths.ExtensionOfDottedName | server.js:13 | a basename `stem + ext` other than `..`, with a non-empty stem and a dot-led, otherwise dot-free `ext`, has extension `ext` (so `..x` has extension `.x`) |
| Paths.ExtensionOfDotfile | server.js:13 | a basename whose only dot is its first character has the empty extension |
| Paths.ExtName | server.js:13 | Node's right-to-left scan (skip trailing separators, stop at the basename's separator, track the last dot and what precedes it) computes `Extension` for every path |
| Paths.JoinBasename | server.js:10-13 | the basename of a joined path is the basename of the joined part, whenever it has a non-separator character: for URLs with no `.` or `..` segment, the root never reaches the extension |
| StaticServer.ContentTypeFollowsUrl | server.js:9-13 | for every URL other than `/` with a non-separator character and no `.` or `..` segment, the resolved path's extension is the URL's own extension, whatever the root |
| StaticServer.UrlExtension | server.js:9-13 | the URL `/stem.ext` resolves to a path whose extension is `.ext` under any root |
| StaticServer.DefaultDocumentExtension | server.js:9-13 | the URL `/` resolves to a path with extension `.html` under any root |
| ContentTypes.ContentTypeFor | server.js:14-26 | the type is the table's entry for a known extension and `text/html` for every other one |
| ContentTypes.DefaultIffUnknown | server.js:14-26 | `text/html` is announced exactly for the extensions outside the table |
| ContentTypes.ContentTypeRange | server.js:14-26 | the announced type is always a value of the table or the default `text/html` |
| ContentTypes.ExactMatching | server.js:16-26 | matching is exact string equality: `.JS`, `.htm`, `.html`, `js` and the empty extension all get `text/html` |
| StaticServer.SelectContentType | server.js:14-26 | the switch, written as assignments over a `text/html` default, announces the table's type for a known extension and `text/html` otherwise |
| StaticServer.Handle | server.js:29-38 | the status is always 200 or 404, and it is 404 exactly when the resolved file cannot be read |
| StaticServer.HandleRequest | server.js:7-38 | the handler as the source computes it (ternary, join, extname scan, switch, read) answers 200 or 404, 404 exactly when the resolved file is missing, and always the same response as `Handle` |
| StaticServer.NotFoundResponse | server.js:30-33 | a failed read answers 404, `text/html`, body `<h1>404 - File Not Found</h1>`, whatever the extension |
| StaticServer.FoundResponse | server.js:36-37 | a successful read answers 200 with exactly the file's bytes and the table's type for the resolved path's extension, else `text/html` |
| StaticServer.NamedFileServed | server.js:9-37 | an existing file `/stem.ext` is served with its bytes and the table's type for `.ext`, or `text/html` |
| StaticServer.ResponseDependsOnlyOnUrlAndFile | server.js:7-38 | the response depends only on the URL and the store's entry for the resolved path: not on the method, other files or earlier requests, so a repeated request gets an identical response |
| StaticServer.RootServesDefaultDocument | server.js:9-37 | `GET /` with the default document present answers 200, `text/html`, the document's bytes |
| StaticServer.ScriptScenario | server.js:9-37 | `GET /app.js` with the file present answers 200, `text/javascript`, the file's bytes |
| StaticServer.QueryStringScenario | server.js:9-26 | `/app.js?v=2` keeps its query string, so its extension is `.js?v=2` and its type `text/html` |
| StaticServer.DotfileScenario | server.js:13-26 | `/.js` has the empty extension and is announced as `text/html` |
| StaticServer.DotSegmentScenario | server.js:9-13 | with the join as concatenation, `/app.js/.` keeps its final `.` segment and has the empty extension (see Left out: Node's normalising join gives `.js`) |

## Left out

- Normalisation in `path.join` (collapsing repeated separators, resolving `.`
  and `..`): `Paths.Join` is plain concatenation, so the store is keyed by
  un-normalised paths (`/app.js` resolves to `<root>//app.js`). The resulting
  path-traversal exposure (a URL with `..` segments escaping the root) is
  therefore not modelled; the model only shows that no URL is rejected or
  sanitised before the join.
- StaticServer.ResolvePath: the clause that the resolved path starts with the
  root holds only for the concatenating join. Node's `path.join` resolves `..`
  segments, each one removing a segment of the root, so a URL with as many
  `..` segments as the root has segments reaches the filesystem root: for a
  root such as `/srv/site`, `path.join(root, "/../../etc/passwd")` is
  `/etc/passwd`, outside the root. The program does not confine requests to
  the root, and the model does not show that escape.
- StaticServer.RequestPathAliases: states which URLs the substitution merges,
  not which URLs read one file. After `path.join` normalisation more URLs
  meet: `/`, `/index1.html` and `//index1.html` all read `<root>/index1.html`,
  and `/a.js` and `//a.js` both read `<root>/a.js`; with concatenation the
  model keeps them apart.
- StaticServer.ContentTypeFollowsUrl, Paths.JoinBasename: the content type of
  a URL with a `.` or `..` segment can differ from the program's, because
  normalisation changes the final segment. `GET /app.js/.` joins in Node to
  `<root>/app.js`, extension `.js`, type `text/javascript`; in the model the
  final segment stays `.`, so the extension is empty and the type `text/html`
  (`StaticServer.DotSegmentScenario`).
- The asynchronous `fs.readFile` callback and concurrent requests: the read is
  a total lookup in the store; the store's contents are a parameter.
- UTF-8 encoding of response bodies: a body is either the file's bytes or the
  404 page as a string (`StaticServer.Body`); the transport's encoding of the
  string is not modelled.
- Response headers other than `Content-Type`, and the HTTP transport itself.
- Binding the socket on port 8080 and the startup banner (server.js:41-44): I/O.
- `server.py`: it delegates to Python's `SimpleHTTPRequestHandler`, which is
  not part of this model; its own logic is the same `/` rewrite and a constant
  `Cache-Control` header.
- `script.js`: a WebGL scene with floating-point animation and random star
  placement, with no logic to state.
