# A verified model of a minimal Go file server's request handling

The server maps every request URL to a path under a configured root. It then
serves the path in one of two ways. A regular file is sent as a download. A
directory gets an HTML index: one table row per visible entry, directories
first, then files. This project models that request handling in Dafny and
proves what it does.

The model has five modules:

- `Text` models `strings.TrimLeft` and `strings.TrimRight` with the cutset
  `"/"`, Go's `<` on strings, and `strconv.FormatInt(n, 10)`. Each comes with
  a reference characterisation: a uniqueness lemma for the trims, a
  first-difference lemma for the order, a parse-back lemma for the numeral.
- `Model` holds the data: the configuration, directory entries, and the
  request outcome as header fields plus a sequence of body writes. It also
  holds a filesystem snapshot, one map per system call (`os.Stat`,
  `ioutil.ReadDir`, `os.Open`). Because the maps are independent, the
  snapshot can describe what the filesystem answers across a race. The
  predicate `ListingsSorted` says every listing is in name order, as
  `ioutil.ReadDir` returns it. Finally it
  holds the library functions the handlers call without this model looking
  inside them: `url.PathEscape`, `url.PathUnescape`, `path.Base` and
  `http.DetectContentType`. These are passed in as total functions in a
  `Library` value.
- `Listing` models `getDirsAndFilesList`, a loop that appends to two lists.
  It is an imperative method proved equal to two filters. Lemmas prove the
  filters partition the visible entries, keep input order (so a sorted listing
  gives sorted lists) and distribute over concatenation.
- `Render` models the two table-building loops of `handleDirRequest` as a
  method that grows a string with `+=`. It is proved equal to a table made of
  row functions. Lemmas give the row count, the folder-before-file order, the
  shape of each link, and the document shell.
- `Server` models the path join, `handleRequest`, `handleFileRequest` and
  `handleDirRequest`.

Some behaviour of the code is kept as written:

- An undecodable URL does not stop the request. The handler writes an empty
  string and carries on as if the decoded path were `""`, that is, the root.
- That empty write commits the response header in `net/http`, so every header
  field a responder sets after it is never sent. `Model.AfterWrites` models
  this, and after a decoding error the model's response has an empty header.
- The `Content-Disposition` value keeps the template's stray leading quote:
  `"attachment; filename="<base>"`.
- The status code is never set, so a missing path gets an empty body with the
  default status.
- Entry names go into the HTML unescaped.
- The stat uses the decoded URL, but the directory responder reads the
  listing, and builds its links, from the raw URL.
  `Server.RawUrlListingMismatch` shows an input where this matters. The
  directory `a b` is requested as `/a%20b`. The stat succeeds, but the listing
  is read at `/srv/a%20b` and fails, so the page comes out empty. For regular
  files, requests that decode to the same path get the same response
  (`Server.SameDecodedFileSameResponse`). So an encoded request path reaches
  the same entry for files but not for directories.
- `http.DetectContentType` does not get just a file prefix. It gets the whole
  250-byte buffer, zero-filled past the end of a shorter file
  (`Server.Sample`).

## Model

| member | source | states |
|---|---|---|
| `Text.TrimLeftSpec` | server/server.go:95 | `TrimLeft(s, '/')` is a suffix of `s`. Every character cut before it is `/`, and it does not start with `/`. |
| `Text.TrimRightSpec` | server/server.go:95 | `TrimRight(s, '/')` is a prefix of `s`. Every character cut after it is `/`, and it does not end with `/`. |
| `Text.TrimLeftUnique` | server/server.go:95 | Splitting a string into a run of `/` and a rest that does not start with `/` always yields `TrimLeft` as the rest. |
| `Text.TrimRightUnique` | server/server.go:95 | Splitting a string into a rest that does not end with `/` and a run of `/` always yields `TrimRight` as the rest. |
| `Text.TrimLeftSplits` | server/server.go:95 | Every string is its run of leading `/` followed by its `TrimLeft`. |
| `Text.TrimRightSplits` | server/server.go:95 | Every string is its `TrimRight` followed by its run of trailing `/`. |
| `Text.TrimLeftConcat` | server/server.go:168-169 | Trimming `a + b`: if `a` has a character other than `/`, only `a`'s leading run is cut. Otherwise `b` is trimmed in turn. |
| `Text.NameLessSpec` | server/server.go:198 | The name order `ioutil.ReadDir` sorts by: `a` comes before `b` if and only if `a` is a proper prefix of `b`, or they agree up to a first position where `a` has the smaller character. |
| `Text.FormatDecimal` | server/server.go:131 | The size header is a non-empty string of digits, with no leading zero unless it is `0`. |
| `Text.ParseFormatDecimal` | server/server.go:131 | Reading the decimal numeral back gives the file size. |
| `Text.FormatDecimalInjective` | server/server.go:131 | Different sizes give different numerals. |
| `Listing.Select` | server/server.go:203-211 | Every entry a list keeps comes from the listing and passes the visibility and kind test. A list is never longer than the listing. |
| `Listing.GetDirsAndFilesList` | server/server.go:197-214 | A failed read gives empty `dirs` and `files` plus the error. Otherwise there is no error, `dirs` is the visible directories and `files` the visible non-directories, each in listing order. When the listings are sorted by name, as `ioutil.ReadDir` returns them, both lists are sorted by name. |
| `Listing.SelectAppend` | server/server.go:203-211 | The lists for `a + b` are the lists for `a` followed by the lists for `b`. So the selection is an order-keeping filter. |
| `Listing.SelectComplete` | server/server.go:204-209 | A listed entry that passes a list's test appears in that list. |
| `Listing.Membership` | server/server.go:203-211 | A listed entry is in `dirs` if and only if it is visible and a directory. It is in `files` if and only if it is visible and not a directory. So each visible entry is in exactly one list and a hidden entry is in neither. |
| `Listing.Partition` | server/server.go:203-211 | `dirs` and `files` together are a permutation of the visible entries, so the number of directories plus files is the number of visible entries. |
| `Listing.SelectIsSubsequence` | server/server.go:203-211 | Each list is a subsequence of the listing: the loop does no reordering of its own. |
| `Listing.SelectSorted` | server/server.go:198-211 | A listing strictly ascending by name, as `ioutil.ReadDir` returns it, gives lists strictly ascending by name. |
| `Render.Href` | server/server.go:168-170 | Every link target starts with exactly one `/`. |
| `Render.RowLink` | server/server.go:164-172 | A row is the icon cell, then a link whose target is `Href(url, escape(name))` and whose text is the unescaped name. |
| `Render.HrefShape` | server/server.go:168-169 | If the request URL has a character other than `/`, the target is `/` + the URL without its leading slashes + `/` + the escaped name. For the root URL, the target is `/` + the escaped name without its leading slashes. |
| `Render.Rows` | server/server.go:162-188 | A list gets exactly one row per entry. |
| `Render.RowsAt` | server/server.go:162-188 | Row `i` is the row of entry `i`, so rows keep list order. |
| `Render.RenderTable` | server/server.go:160-189 | The string grown by the two loops equals `Table`: `<table>`, the directory rows, the file rows, then `</table>`. |
| `Render.FolderRowShape` | server/server.go:172 | A directory row opens with the folder icon cell, not the file icon cell. |
| `Render.FileRowShape` | server/server.go:186 | A file row opens with the file icon cell, not the folder icon cell. |
| `Render.TableLayout` | server/server.go:160-189 | The table has exactly one row per directory plus one per file. Row `i` carries the folder icon if and only if `i` is below the number of directories, and the file icon otherwise. The first rows are the directories in order, the rest the files in order. |
| `Render.TableRowAt` | server/server.go:160-189 | Row `i` of the table is the folder row of directory `i` when `i` is below the number of directories, and otherwise the file row of file `i` minus that number. |
| `Render.TableText` | server/server.go:160-189 | The table text starts with `<table>` and ends with `</table>`. Between them are the directory rows' text, then the file rows' text. |
| `Render.DocumentShape` | server/server.go:148 | The page is the fixed doctype-and-head prefix, the body, then the `</body></html>` suffix. The body can be read back out of the page. |
| `Server.ResolvePath` | server/server.go:95 | The joined path's length is the trimmed root plus one plus the trimmed URL. |
| `Server.ResolvePathShape` | server/server.go:95 | The joined path is: the root without its trailing slashes (which ends in a character other than `/`), then exactly one `/`, then the URL without its leading slashes. The character after that `/`, if any, is not `/`. |
| `Server.ResolvePathUnique` | server/server.go:95 | For a base that does not end in `/` and a rest that does not start in `/`, joining the base plus any trailing slashes with any leading slashes plus the rest gives `base + "/" + rest`. |
| `Server.ResolvePathIgnoresExtraSlashes` | server/server.go:95 | An extra `/` at the end of the root, or at the start of the URL, gives the same path. |
| `Server.Disposition` | server/server.go:127-128 | The value is the 23 characters `"attachment; filename="`, then the base name, then `"`. |
| `Server.DispositionHasStrayQuote` | server/server.go:127 | The value opens with a quote. So, for every base name, it is not the conventional `attachment; filename="<base>"`. |
| `Server.Sample` | server/server.go:133-135 | The buffer given to content detection is 250 bytes long. It holds the file's bytes where the file has them and zeros past its end. |
| `Server.HandleFileRequest` | server/server.go:116-143 | If the decoded path cannot be opened: no header and one empty write. Otherwise: exactly the three headers (disposition from the base name, detected type of the sample, a length that reads back as the size), and the whole file as the body. |
| `Server.HandleDirRequest` | server/server.go:145-195 | The content type is `text/html` and there is one write of the page. If the listing cannot be read, the page is the document shell around an empty body. |
| `Server.DirPageListsVisibleEntries` | server/server.go:151-193 | A readable listing is rendered as the shell around the table of its directories and files. The row count equals the number of visible entries, and a listed entry is in the table if and only if it is visible. |
| `Server.HandleRequest` | server/server.go:92-114 | The handler's response equals `ServeRequest`: decode, stat the joined path, then dispatch. |
| `Server.MissingPathEmptyBody` | server/server.go:97-107 | A path the stat fails on gets no header and exactly one empty write, two after a decoding error, so a zero-length body. |
| `Server.DirectoryGoesToDirResponder` | server/server.go:97-110 | A directory gets the directory page. The page is preceded only by the empty write of a decoding error, if there was one. The `text/html` header is sent when the URL decoded. After a decoding error the header is empty, because the empty write committed it. |
| `Server.FileGoesToFileResponder` | server/server.go:97-113 | Every non-directory gets exactly the file responder's response, after the empty write of a decoding error if there was one, and with its header only if nothing was written before. A file that does not open adds one more empty write and no header. A file that opens ends the body with its bytes, the body length is the file size, and when the URL decoded the header is the file responder's, with a `Content-Length` that reads back as that size. |
| `Server.DecodeErrorContinues` | server/server.go:94-100 | On a decoding error the decoded path is `""`. The body is the empty write followed by the body for that path, and the header is empty because the empty write committed it. When the root is a directory, the body is the empty write and then the directory page. |
| `Server.SameDecodedFileSameResponse` | server/server.go:117-118 | Two URLs that decode to the same path of a regular file get identical responses. |
| `Server.RawUrlListingMismatch` | server/server.go:151 | A concrete request (`/a%20b` for the directory `a b`). The stat on the decoded path succeeds, but the listing is read from the raw path, so the page is the empty shell even though the directory holds a visible file. |
| `Server.WorkedExampleFile` | server/server.go:92-143 | Root `/srv/www` holding `index.html` (the bytes `hi`) and a directory `docs`. `/index.html` is served as its two bytes with `Content-Length: 2`. |
| `Server.WorkedExampleDirectory` | server/server.go:145-214 | In the same tree, `/docs` (holding `.hidden` and `readme.txt`) gets the `text/html` header and a page whose table has only `readme.txt`, in one row. `.hidden` is left out. |
| `Server.WorkedExampleMissing` | server/server.go:102-107 | In the same tree, `/missing.txt` gets no header and one empty write. |

## Left out

- `Init` and `main.go` are not modelled. They open and JSON-decode the configuration file and build the `http.Server`, which is I/O and library work. The configuration is a parameter.
- `Run` is not modelled: it covers the listener goroutine, the interrupt signal and the graceful shutdown, which are concurrency and process lifecycle.
- The filesystem calls (`os.Stat`, `os.Open`, `file.Read`, `file.Seek`, `io.Copy`, `ioutil.ReadDir`) are replaced by a snapshot of their outcomes. Error values carry no detail beyond failure.
- The reads within the file responder are not modelled. The model assumes `file.Read` fills the 250-byte buffer as far as the file allows, and that `io.Copy` sends the whole file. The ignored `file.Stat` error, which would make `fileStat.Size()` panic, is not modelled.
- `url.PathEscape`, `url.PathUnescape`, `path.Base` and `http.DetectContentType` are parameters. Percent-encoding and content sniffing are library internals.
- `r.URL.String()` is an opaque raw URL string. How `net/url` renders it (escaped path, query) is not modelled.
- Routing through `gorilla/mux` is not modelled. The single prefix route sends every request whose path is already clean to `handleRequest`, whatever its method. A path with `//`, `.` or `..` segments gets a 301 redirect to its cleaned form from the router before any handler runs, and that redirect is not modelled.
- Logging (`log.Println`) is not modelled.
- The `http.ResponseWriter` is reduced to a header map and a list of writes. The status line is not modelled (it is never set, so it is always 200). The header is taken as committed by the first `Write`, empty or not. The fields `net/http` adds by itself when it sends the header (a sniffed `Content-Type`, an automatic `Content-Length`, `Date`) are not modelled.
- That listings come back sorted by name is a hypothesis (`Model.ListingsSorted`), not computed: the sort inside `ioutil.ReadDir` is library code. Names are compared by character, which orders like Go's byte-wise comparison of UTF-8 strings.
- The file opened at server/server.go:120 is never closed. The model has no file handles, so this leak is not modelled.
- Strings are Dafny character sequences, not Go byte strings. A body length counts characters, and page text is not UTF-8 encoded. The hidden-file test on the first byte agrees with a test on the first character, because `.` is ASCII.
- Server.MissingPathEmptyBody: states "neither responder runs" only through the response: no header and an empty body. The file responder's open-failure response looks the same, so that it is not invoked follows from the definition of `Server.ServeRequest`, not from this lemma's contract.
