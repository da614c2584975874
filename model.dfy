/** Values the server works on: the configuration, directory entries, a snapshot
    of what the filesystem answers, the library functions the handlers call but
    whose internals are not modelled, and the response a handler produces. */
module Model {
  import opened Text

  datatype Option<+T> = None | Some(value: T)

  newtype byte = x: int | 0 <= x < 256

  /** The JSON configuration (`Host`, `Port`, `Root`); only `root` is used by
      the handlers. */
  datatype Config = Config(host: string, port: string, root: string)

  /** What `ioutil.ReadDir` reports of one directory entry: `Name()` and `IsDir()`. */
  datatype Entry = Entry(name: string, isDir: bool)

  /** The outcome of `ioutil.ReadDir(path)`; `reason` is the error's text. */
  datatype ReadDirResult = Listed(entries: seq<Entry>) | ReadDirFailed(reason: string)

  /** What the filesystem answers, one map per system call. A path missing from
      `stat` is one `os.Stat` fails on (the value is `IsDir()`); missing from
      `listings`, one `ioutil.ReadDir` fails on; missing from `contents`, one
      `os.Open` fails on. The maps are independent, so the snapshot can describe
      a directory that disappears between the stat and the listing. */
  datatype FileSystem = FileSystem(
    stat: map<string, bool>,
    listings: map<string, seq<Entry>>,
    contents: map<string, seq<byte>>)

  /** Entries strictly ascending by name. */
  predicate SortedByName(es: seq<Entry>)
  {
    forall i, j :: 0 <= i < j < |es| ==> NameLess(es[i].name, es[j].name)
  }

  /** `ioutil.ReadDir` sorts what it reads by name, and the names in one
      directory are distinct, so every listing the library hands back is
      strictly ascending. */
  predicate ListingsSorted(fs: FileSystem)
  {
    forall p :: p in fs.listings ==> SortedByName(fs.listings[p])
  }

  /** `os.Stat(path)`: `None` on error, otherwise whether it is a directory. */
  function Stat(fs: FileSystem, path: string): (r: Option<bool>)
    ensures r.Some? <==> path in fs.stat
    ensures r.Some? ==> r.value == fs.stat[path]
  {
    if path in fs.stat then Some(fs.stat[path]) else None
  }

  /** `ioutil.ReadDir(path)`: the listing recorded for `path`, which is in name
      order in a snapshot satisfying `ListingsSorted`. */
  function ReadDir(fs: FileSystem, path: string): (r: ReadDirResult)
    ensures r.Listed? <==> path in fs.listings
    ensures r.Listed? ==> r.entries == fs.listings[path]
  {
    if path in fs.listings then Listed(fs.listings[path]) else ReadDirFailed("readdir " + path)
  }

  /** `os.Open(path)` followed by reading the whole file. */
  function Open(fs: FileSystem, path: string): (r: Option<seq<byte>>)
    ensures r.Some? <==> path in fs.contents
    ensures r.Some? ==> r.value == fs.contents[path]
  {
    if path in fs.contents then Some(fs.contents[path]) else None
  }

  /** The library functions the handlers call, taken as parameters:
      `url.PathEscape`, `url.PathUnescape` (`None` for a malformed escape),
      `path.Base` and `http.DetectContentType`. */
  datatype Library = Library(
    pathEscape: string -> string,
    pathUnescape: string -> Option<string>,
    pathBase: string -> string,
    detectContentType: seq<byte> -> string)

  /** One call of `w.Write`: a string converted to bytes, or raw file bytes. */
  datatype Chunk = Text(text: string) | Data(bytes: seq<byte>)

  /** What a handler leaves on the `http.ResponseWriter`: the header fields it
      set and its body writes, in order. The status is never set. */
  datatype Response = Response(header: map<string, string>, writes: seq<Chunk>)

  function ChunkLength(c: Chunk): nat
  {
    match c
    case Text(t) => |t|
    case Data(b) => |b|
  }

  /** Number of body bytes written (a string's length counted in characters). */
  function BodyLength(writes: seq<Chunk>): nat
  {
    if writes == [] then 0 else ChunkLength(writes[0]) + BodyLength(writes[1..])
  }

  /** The response of a handler that first wrote `pre` and then did what `r`
      describes. The first `w.Write` commits the header, even when it writes
      nothing, so after a non-empty `pre` the header fields `r` sets are never
      sent. */
  function AfterWrites(pre: seq<Chunk>, r: Response): (out: Response)
    ensures out.writes == pre + r.writes
    ensures out.header == (if pre == [] then r.header else map[])
  {
    if pre == [] then r else Response(map[], pre + r.writes)
  }
}
