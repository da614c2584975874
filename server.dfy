/** The request handlers of server/server.go: `handleRequest` (92-114),
    `handleFileRequest` (116-143) and `handleDirRequest` (145-195), over a
    snapshot of the filesystem and the library functions they call. */
module Server {
  import opened Model
  import opened Text
  import opened Listing
  import opened Render

  /** The path join of server/server.go:95, 118 and 151:
      `TrimRight(root, "/") + "/" + TrimLeft(url, "/")`. */
  function ResolvePath(root: string, url: string): (p: string)
    ensures |p| == |TrimRight(root, '/')| + 1 + |TrimLeft(url, '/')|
  {
    TrimRight(root, '/') + "/" + TrimLeft(url, '/')
  }

  /** The joined path is the root without its trailing slashes, exactly one
      `/`, and the URL without its leading slashes: the character after the root
      part is `/`, the next one (if any) is not, and the two parts are what is
      left of `root` and `url` once those runs of slashes are cut. */
  lemma ResolvePathShape(root: string, url: string)
    ensures var base := TrimRight(root, '/');
      var p := ResolvePath(root, url);
      p[..|base|] == base
      && p[|base|] == '/'
      && (|p| > |base| + 1 ==> p[|base| + 1] != '/')
      && (base == [] || base[|base| - 1] != '/')
      && root == base + Repeat('/', |root| - |base|)
      && url == Repeat('/', |url| - (|p| - |base| - 1)) + p[|base| + 1..]
  {
    var base, rest := TrimRight(root, '/'), TrimLeft(url, '/');
    TrimRightSpec(root, '/');
    TrimLeftSpec(url, '/');
    TrimRightSplits(root, '/');
    TrimLeftSplits(url, '/');
    var p := ResolvePath(root, url);
    assert p[|base| + 1..] == rest;
  }

  /** Conversely, any way of writing the root as a base plus trailing slashes
      and the URL as leading slashes plus a rest determines the joined path. */
  lemma ResolvePathUnique(base: string, m: nat, n: nat, rest: string)
    requires base == [] || base[|base| - 1] != '/'
    requires rest == [] || rest[0] != '/'
    ensures ResolvePath(base + Repeat('/', m), Repeat('/', n) + rest) == base + "/" + rest
  {
    TrimRightUnique(base, m, '/');
    TrimLeftUnique(n, rest, '/');
  }

  /** Extra slashes at the end of the root or the start of the URL change nothing. */
  lemma ResolvePathIgnoresExtraSlashes(root: string, url: string)
    ensures ResolvePath(root + "/", url) == ResolvePath(root, url)
    ensures ResolvePath(root, "/" + url) == ResolvePath(root, url)
  {
    assert (root + "/")[..|root|] == root;
    assert ("/" + url)[1..] == url;
  }

  /** `url.PathUnescape(r.URL.String())`, which yields `""` with its error
      (server/server.go:94, 117). */
  function DecodedPath(lib: Library, rawUrl: string): (p: string)
    ensures lib.pathUnescape(rawUrl).None? ==> p == ""
    ensures lib.pathUnescape(rawUrl).Some? ==> p == lib.pathUnescape(rawUrl).value
  {
    match lib.pathUnescape(rawUrl)
    case None => ""
    case Some(path) => path
  }

  const DispositionPrefix: string := "\"attachment; filename=\""

  /** The `Content-Disposition` value of server/server.go:127-128: the template
      `"attachment; filename="%s"` filled with the base name, stray leading
      quote included. */
  function Disposition(baseName: string): (v: string)
    ensures |v| == |baseName| + 24
    ensures v[..23] == DispositionPrefix && v[23..|v| - 1] == baseName && v[|v| - 1] == '"'
  {
    EnclosedText(DispositionPrefix, baseName, "\"");
    DispositionPrefix + baseName + "\""
  }

  /** The value is not the conventional `attachment; filename="<base>"`: it
      opens with a quote, so it differs from that form for every base name. */
  lemma DispositionHasStrayQuote(baseName: string)
    ensures Disposition(baseName)[0] == '"'
    ensures Disposition(baseName) != "attachment; filename=\"" + baseName + "\""
  {
    assert Disposition(baseName)[..23][0] == '"';
  }

  const SampleSize: nat := 250

  /** The 250-byte buffer handed to `http.DetectContentType` (server/server.go:133-135):
      the start of the file, zero-filled past its end. */
  function Sample(data: seq<byte>): (s: seq<byte>)
    ensures |s| == SampleSize
    ensures forall i :: 0 <= i < SampleSize ==> s[i] == (if i < |data| then data[i] else 0)
  {
    var n := if |data| < SampleSize then |data| else SampleSize;
    data[..n] + seq(SampleSize - n, _ => 0)
  }

  /** `handleFileRequest`: open the decoded path; on failure write an empty
      body, otherwise set the three headers and send the whole file. */
  function HandleFileRequest(cfg: Config, fs: FileSystem, lib: Library, rawUrl: string): (resp: Response)
    ensures var fullPath := ResolvePath(cfg.root, DecodedPath(lib, rawUrl));
      match Open(fs, fullPath)
      case None => resp.header == map[] && resp.writes == [Text("")]
      case Some(data) =>
        resp.writes == [Data(data)]
        && resp.header.Keys == {"Content-Disposition", "Content-Type", "Content-Length"}
        && resp.header["Content-Disposition"] == Disposition(lib.pathBase(fullPath))
        && resp.header["Content-Type"] == lib.detectContentType(Sample(data))
        && AllDigits(resp.header["Content-Length"])
        && ParseDecimal(resp.header["Content-Length"]) == |data|
  {
    var fullPath := ResolvePath(cfg.root, DecodedPath(lib, rawUrl));
    match Open(fs, fullPath)
    case None => Response(map[], [Text("")])
    case Some(data) =>
      ParseFormatDecimal(|data|);
      Response(map["Content-Disposition" := Disposition(lib.pathBase(fullPath)),
                   "Content-Type" := lib.detectContentType(Sample(data)),
                   "Content-Length" := FormatDecimal(|data|)],
               [Data(data)])
  }

  /** The page `handleDirRequest` renders. The listing is read at the path
      joined from the RAW request URL (server/server.go:151), not the decoded
      one the stat used; the links are built from the raw URL as well. */
  function DirPage(cfg: Config, fs: FileSystem, lib: Library, rawUrl: string): string
  {
    match ReadDir(fs, ResolvePath(cfg.root, rawUrl))
    case ReadDirFailed(_) => Document("")
    case Listed(es) => Document(Table(rawUrl, lib.pathEscape, Select(es, true), Select(es, false)))
  }

  /** `handleDirRequest` (server/server.go:145-195): set `Content-Type:
      text/html` and write one page — the document shell around an empty body
      if the directory cannot be read, around the table of its visible
      entries otherwise. */
  method HandleDirRequest(cfg: Config, fs: FileSystem, lib: Library, rawUrl: string)
    returns (resp: Response)
    ensures resp.header == map["Content-Type" := "text/html"]
    ensures resp.writes == [Text(DirPage(cfg, fs, lib, rawUrl))]
    ensures ReadDir(fs, ResolvePath(cfg.root, rawUrl)).ReadDirFailed? ==>
              resp.writes == [Text(Document(""))]
  {
    var header := map["Content-Type" := "text/html"];
    var body := "";
    var fullPath := ResolvePath(cfg.root, rawUrl);
    var dirs, files, err := GetDirsAndFilesList(fs, fullPath);
    if err.Some? {
      return Response(header, [Text(Document(body))]);
    }
    var table := RenderTable(rawUrl, lib.pathEscape, dirs, files);
    body := table;
    resp := Response(header, [Text(Document(body))]);
  }

  /** What `handleDirRequest` writes when the directory can be read: the page
      is the shell around a table with one row per visible entry — the
      directories, then the files, each in listing order — and an entry of the
      listing has a row exactly when it is visible. */
  lemma DirPageListsVisibleEntries(cfg: Config, fs: FileSystem, lib: Library, rawUrl: string)
    requires ReadDir(fs, ResolvePath(cfg.root, rawUrl)).Listed?
    ensures var es := ReadDir(fs, ResolvePath(cfg.root, rawUrl)).entries;
      var dirs, files := Select(es, true), Select(es, false);
      DirPage(cfg, fs, lib, rawUrl) == Document(Table(rawUrl, lib.pathEscape, dirs, files))
      && |TableRows(rawUrl, lib.pathEscape, dirs, files)| == |VisibleEntries(es)|
      && (forall e :: e in es ==> (e in dirs + files <==> Visible(e.name)))
      && (forall e :: e in dirs + files ==> e in es)
  {
    var es := ReadDir(fs, ResolvePath(cfg.root, rawUrl)).entries;
    var dirs, files := Select(es, true), Select(es, false);
    Partition(es);
    TableLayout(rawUrl, lib.pathEscape, dirs, files);
    forall e | e in es
      ensures e in dirs + files <==> Visible(e.name)
    {
      Membership(es, e);
    }
  }

  /** The part of `handleRequest` after decoding (server/server.go:95, 102-113):
      stat the joined path; on failure write an empty body and stop, otherwise
      hand over to the directory or the file responder. */
  function Dispatch(cfg: Config, fs: FileSystem, lib: Library, rawUrl: string, decoded: string): Response
  {
    match Stat(fs, ResolvePath(cfg.root, decoded))
    case None => Response(map[], [Text("")])
    case Some(isDir) =>
      if isDir then Response(map["Content-Type" := "text/html"], [Text(DirPage(cfg, fs, lib, rawUrl))])
      else HandleFileRequest(cfg, fs, lib, rawUrl)
  }

  /** The response `handleRequest` produces: a decoding error writes an empty
      string, which commits the (still empty) header, and carries on with the
      decoded path `""`. */
  function ServeRequest(cfg: Config, fs: FileSystem, lib: Library, rawUrl: string): Response
  {
    match lib.pathUnescape(rawUrl)
    case None => AfterWrites([Text("")], Dispatch(cfg, fs, lib, rawUrl, ""))
    case Some(decoded) => Dispatch(cfg, fs, lib, rawUrl, decoded)
  }

  /** `handleRequest` (server/server.go:92-114). */
  method HandleRequest(cfg: Config, fs: FileSystem, lib: Library, rawUrl: string)
    returns (resp: Response)
    ensures resp == ServeRequest(cfg, fs, lib, rawUrl)
  {
    var writes: seq<Chunk> := [];
    var newQueryUrl := DecodedPath(lib, rawUrl);
    var fullPath := ResolvePath(cfg.root, newQueryUrl);
    if lib.pathUnescape(rawUrl).None? {
      writes := writes + [Text("")];
    }
    var info := Stat(fs, fullPath);
    if info.None? {
      return Response(map[], writes + [Text("")]);
    }
    var handled: Response;
    if info.value {
      handled := HandleDirRequest(cfg, fs, lib, rawUrl);
    } else {
      handled := HandleFileRequest(cfg, fs, lib, rawUrl);
    }
    resp := AfterWrites(writes, handled);
  }

  /** A path the stat fails on gets no header and an empty body, and neither
      responder runs: both of them set a header or write something else. */
  lemma MissingPathEmptyBody(cfg: Config, fs: FileSystem, lib: Library, rawUrl: string)
    requires Stat(fs, ResolvePath(cfg.root, DecodedPath(lib, rawUrl))).None?
    ensures ServeRequest(cfg, fs, lib, rawUrl) ==
              Response(map[], (if lib.pathUnescape(rawUrl).None? then [Text("")] else []) + [Text("")])
    ensures ServeRequest(cfg, fs, lib, rawUrl).header == map[]
    ensures BodyLength(ServeRequest(cfg, fs, lib, rawUrl).writes) == 0
  {
    var r := ServeRequest(cfg, fs, lib, rawUrl);
    if lib.pathUnescape(rawUrl).None? {
      assert r.writes == [Text(""), Text("")];
      assert r.writes[1..][1..] == [];
    } else {
      assert r.writes == [Text("")];
      assert r.writes[1..] == [];
    }
  }

  /** A directory goes to the directory responder: the rendered page, with an
      HTML content type — unless a decoding error's empty write came first and
      committed an empty header, so that the content type is never sent. */
  lemma DirectoryGoesToDirResponder(cfg: Config, fs: FileSystem, lib: Library, rawUrl: string)
    requires Stat(fs, ResolvePath(cfg.root, DecodedPath(lib, rawUrl))) == Some(true)
    ensures var r := ServeRequest(cfg, fs, lib, rawUrl);
      r.header == (if lib.pathUnescape(rawUrl).None? then map[] else map["Content-Type" := "text/html"])
      && r.writes == (if lib.pathUnescape(rawUrl).None? then [Text("")] else [])
                     + [Text(DirPage(cfg, fs, lib, rawUrl))]
  {
  }

  /** Anything else the stat accepts goes to the file responder, after the
      empty write of a decoding error if there was one. If the file does not
      open, the response is one more empty write and no header. Once it opens,
      the body ends with exactly its bytes; when the URL decoded the header is
      the file responder's three fields, with a `Content-Length` that reads
      back as their number, and after a decoding error the empty write has
      committed an empty header, so none of them is sent. */
  lemma FileGoesToFileResponder(cfg: Config, fs: FileSystem, lib: Library, rawUrl: string)
    requires Stat(fs, ResolvePath(cfg.root, DecodedPath(lib, rawUrl))) == Some(false)
    ensures ServeRequest(cfg, fs, lib, rawUrl) ==
              AfterWrites(if lib.pathUnescape(rawUrl).None? then [Text("")] else [],
                          HandleFileRequest(cfg, fs, lib, rawUrl))
    ensures Open(fs, ResolvePath(cfg.root, DecodedPath(lib, rawUrl))).None? ==>
              ServeRequest(cfg, fs, lib, rawUrl) ==
                Response(map[], (if lib.pathUnescape(rawUrl).None? then [Text("")] else []) + [Text("")])
    ensures Open(fs, ResolvePath(cfg.root, DecodedPath(lib, rawUrl))).Some? ==>
      var data := Open(fs, ResolvePath(cfg.root, DecodedPath(lib, rawUrl))).value;
      var r := ServeRequest(cfg, fs, lib, rawUrl);
      r.writes[|r.writes| - 1] == Data(data)
      && BodyLength(r.writes) == |data|
      && (lib.pathUnescape(rawUrl).None? ==> r.header == map[])
      && (lib.pathUnescape(rawUrl).Some? ==>
            r.header == HandleFileRequest(cfg, fs, lib, rawUrl).header
            && "Content-Length" in r.header
            && AllDigits(r.header["Content-Length"])
            && ParseDecimal(r.header["Content-Length"]) == |data|)
  {
    var fullPath := ResolvePath(cfg.root, DecodedPath(lib, rawUrl));
    if Open(fs, fullPath).Some? {
      var data := Open(fs, fullPath).value;
      var r := ServeRequest(cfg, fs, lib, rawUrl);
      if lib.pathUnescape(rawUrl).None? {
        assert r.writes == [Text(""), Data(data)];
        assert r.writes[1..] == [Data(data)];
        assert r.writes[1..][1..] == [];
        assert BodyLength(r.writes[1..]) == |data|;
      } else {
        assert r.writes == [Data(data)];
        assert r.writes[1..] == [];
      }
    }
  }

  /** A decoding error alone does not end the request: `url.PathUnescape`
      yields `""`, so the body is the empty write followed by the body for
      the root directory itself; the empty write has committed the header, so
      no header field reaches the client. */
  lemma DecodeErrorContinues(cfg: Config, fs: FileSystem, lib: Library, rawUrl: string)
    requires lib.pathUnescape(rawUrl).None?
    ensures DecodedPath(lib, rawUrl) == ""
    ensures ServeRequest(cfg, fs, lib, rawUrl).header == map[]
    ensures ServeRequest(cfg, fs, lib, rawUrl).writes == [Text("")] + Dispatch(cfg, fs, lib, rawUrl, "").writes
    ensures Stat(fs, ResolvePath(cfg.root, "")) == Some(true) ==>
              ServeRequest(cfg, fs, lib, rawUrl).writes == [Text(""), Text(DirPage(cfg, fs, lib, rawUrl))]
  {
  }

  /** Requests whose URLs decode to the same path of a regular file get the same
      response: the file responder looks only at the decoded path. */
  lemma SameDecodedFileSameResponse(cfg: Config, fs: FileSystem, lib: Library, raw1: string, raw2: string)
    requires lib.pathUnescape(raw1) == lib.pathUnescape(raw2)
    requires Stat(fs, ResolvePath(cfg.root, DecodedPath(lib, raw1))) == Some(false)
    ensures ServeRequest(cfg, fs, lib, raw1) == ServeRequest(cfg, fs, lib, raw2)
  {
  }

  /** The directory responder does not share that: a directory `a b` under
      `/srv`, requested as `/a%20b`, passes the stat on the decoded path
      `/srv/a b`, but the listing is read at `/srv/a%20b`, where there is none,
      so the page is the empty shell although the directory holds a visible file. */
  lemma RawUrlListingMismatch()
    ensures var lib := Library(
              s => s,
              s => if s == "/a%20b" then Some("/a b") else Some(s),
              s => s,
              _ => "text/plain");
      var fs := FileSystem(map["/srv/a b" := true], map["/srv/a b" := [Entry("x", false)]], map[]);
      var cfg := Config("", "8080", "/srv");
      Stat(fs, ResolvePath(cfg.root, DecodedPath(lib, "/a%20b"))) == Some(true)
      && Select(fs.listings["/srv/a b"], false) == [Entry("x", false)]
      && ServeRequest(cfg, fs, lib, "/a%20b").writes == [Text(Document(""))]
  {
    var lib := Library(
      s => s,
      s => if s == "/a%20b" then Some("/a b") else Some(s),
      s => s,
      _ => "text/plain");
    var fs := FileSystem(map["/srv/a b" := true], map["/srv/a b" := [Entry("x", false)]], map[]);
    ResolvePathUnique("/srv", 0, 1, "a b");
    assert "/srv" + Repeat('/', 0) == "/srv";
    assert Repeat('/', 1) + "a b" == "/a b";
    assert ResolvePath("/srv", "/a b") == "/srv/a b";
    assert lib.pathUnescape("/a%20b") == Some("/a b");
    assert DecodedPath(lib, "/a%20b") == "/a b";
    ResolvePathUnique("/srv", 0, 1, "a%20b");
    assert Repeat('/', 1) + "a%20b" == "/a%20b";
    assert ResolvePath("/srv", "/a%20b") == "/srv/a%20b";
    assert "/srv/a%20b" != "/srv/a b" by { assert "/srv/a%20b"[7] != "/srv/a b"[7]; }
    var cfg := Config("", "8080", "/srv");
    assert Stat(fs, ResolvePath(cfg.root, DecodedPath(lib, "/a%20b"))) == Some(true);
    assert ReadDir(fs, ResolvePath(cfg.root, "/a%20b")).ReadDirFailed?;
    assert DirPage(cfg, fs, lib, "/a%20b") == Document("");
    var es := fs.listings["/srv/a b"];
    assert es[..0] == [];
    assert Select(es, false) == [Entry("x", false)];
  }

  /** The worked example: root `/srv/www` holding `index.html` (the two bytes
      `hi`) and a directory `docs` with `.hidden` and `readme.txt`, with
      library functions that leave URLs as they are. */
  function ExampleLibrary(): Library
  {
    Library(s => s, s => Some(s), s => s, _ => "text/plain; charset=utf-8")
  }

  function ExampleFileSystem(): FileSystem
  {
    FileSystem(
      map["/srv/www/" := true, "/srv/www/index.html" := false, "/srv/www/docs" := true],
      map["/srv/www/docs" := [Entry(".hidden", false), Entry("readme.txt", false)]],
      map["/srv/www/index.html" := [104, 105]])
  }

  function ExampleConfig(): Config
  {
    Config("localhost", "8080", "/srv/www")
  }

  /** In the worked example, a request `/rest` joins to `/srv/www/rest`. */
  lemma ExamplePath(rest: string)
    requires rest == [] || rest[0] != '/'
    ensures ResolvePath("/srv/www", "/" + rest) == "/srv/www/" + rest
  {
    assert "/srv/www" + Repeat('/', 0) == "/srv/www";
    assert Repeat('/', 1) == "/";
    ResolvePathUnique("/srv/www", 0, 1, rest);
  }

  /** `/index.html` decodes to itself and stats as a regular file, so it goes
      to the file responder. */
  lemma ExampleFileDispatch()
    ensures ServeRequest(ExampleConfig(), ExampleFileSystem(), ExampleLibrary(), "/index.html")
            == HandleFileRequest(ExampleConfig(), ExampleFileSystem(), ExampleLibrary(), "/index.html")
  {
    ExamplePath("index.html");
    assert "/" + "index.html" == "/index.html" && "/srv/www/" + "index.html" == "/srv/www/index.html";
    assert DecodedPath(ExampleLibrary(), "/index.html") == "/index.html";
    assert Stat(ExampleFileSystem(), "/srv/www/index.html") == Some(false);
  }

  /** The file responder's answer for `/index.html`. */
  lemma ExampleFileResponse()
    ensures var r := HandleFileRequest(ExampleConfig(), ExampleFileSystem(), ExampleLibrary(), "/index.html");
      r.writes == [Data([104, 105])] && "Content-Length" in r.header && r.header["Content-Length"] == "2"
  {
    ExamplePath("index.html");
    assert "/" + "index.html" == "/index.html" && "/srv/www/" + "index.html" == "/srv/www/index.html";
    assert DecodedPath(ExampleLibrary(), "/index.html") == "/index.html";
    assert Open(ExampleFileSystem(), "/srv/www/index.html") == Some([104, 105]);
    assert FormatDecimal(2) == "2";
  }

  /** In the worked example, `/index.html` is served whole with `Content-Length: 2`. */
  lemma WorkedExampleFile()
    ensures var r := ServeRequest(ExampleConfig(), ExampleFileSystem(), ExampleLibrary(), "/index.html");
      r.writes == [Data([104, 105])] && r.header["Content-Length"] == "2"
  {
    ExampleFileDispatch();
    ExampleFileResponse();
  }

  /** In the worked example, `/docs` is an HTML page whose table has the one
      row for `readme.txt`: `.hidden` is left out. */
  lemma WorkedExampleDirectory()
    ensures var lib := ExampleLibrary();
      ServeRequest(ExampleConfig(), ExampleFileSystem(), lib, "/docs") ==
        Response(map["Content-Type" := "text/html"],
                 [Text(Document(Table("/docs", lib.pathEscape, [], [Entry("readme.txt", false)])))])
      && |TableRows("/docs", lib.pathEscape, [], [Entry("readme.txt", false)])| == 1
  {
    var cfg, fs, lib := ExampleConfig(), ExampleFileSystem(), ExampleLibrary();
    var docs := [Entry(".hidden", false), Entry("readme.txt", false)];
    ExamplePath("docs");
    assert "/" + "docs" == "/docs" && "/srv/www/" + "docs" == "/srv/www/docs";
    assert docs[..1][..0] == [] && docs[..1] == [Entry(".hidden", false)];
    assert Select(docs, true) == [];
    assert Select(docs, false) == [Entry("readme.txt", false)];
    DirectoryGoesToDirResponder(cfg, fs, lib, "/docs");
  }

  /** In the worked example, `/missing.txt` gets no header and one empty write. */
  lemma WorkedExampleMissing()
    ensures ServeRequest(ExampleConfig(), ExampleFileSystem(), ExampleLibrary(), "/missing.txt")
            == Response(map[], [Text("")])
  {
    ExamplePath("missing.txt");
    assert "/" + "missing.txt" == "/missing.txt" && "/srv/www/" + "missing.txt" == "/srv/www/missing.txt";
    assert "/srv/www/missing.txt" !in ExampleFileSystem().stat by {
      assert "/srv/www/missing.txt"[9] != "/srv/www/index.html"[9];
      assert "/srv/www/missing.txt"[9] != "/srv/www/docs"[9];
      assert |"/srv/www/missing.txt"| != |"/srv/www/"|;
    }
    MissingPathEmptyBody(ExampleConfig(), ExampleFileSystem(), ExampleLibrary(), "/missing.txt");
  }
}
