/** The HTML that `handleDirRequest` (server/server.go:145-195) writes: one table
    row per directory, then one per file, inside a fixed document shell. */
module Render {
  import opened Model
  import opened Text

  /** The `HEAD` constant of server/server.go:23-31, with its tabs and newlines. */
  const Head: string :=
    "<title>Simple Server</title>\n"
    + "\t\t\t\t<meta name=\"viewport\" content=\"width=device-width, initial-scale=1\">\n"
    + "\t\t\t\t<link href=\"https://fonts.googleapis.com/icon?family=Material+Icons\" rel=\"stylesheet\">\n"
    + "\t\t\t\t<style>\n"
    + "\n"
    + "\t\t\t\t\tol {\n"
    + "\t\t\t\t\t\tlist-style-type: none;\n"
    + "\t\t\t\t\t}\n"
    + "\t\t\t\t</style>"

  const FolderHtml: string := "<i class=\"material-icons\">folder</i>"
  const FileHtml: string := "<i class=\"material-icons\">file_download</i>"

  const DocumentStart: string := "<!DOCTYPE html><html><head>" + Head + "</head><body>"
  const DocumentEnd: string := "</body></html>"
  const RowStart: string := "<tr><td>"

  /** The page template `<!DOCTYPE html><html><head>%s</head><body>%s</body></html>`
      filled with `Head` and `body`. */
  function Document(body: string): (page: string)
  {
    DocumentStart + body + DocumentEnd
  }

  /** The link target: `/` followed by `rawUrl + "/" + escapedName` with its
      leading slashes trimmed (server/server.go:168-170). */
  function Href(rawUrl: string, escapedName: string): (h: string)
    ensures |h| >= 1 && h[0] == '/'
    ensures |h| >= 2 ==> h[1] != '/'
  {
    TrimLeftSpec(rawUrl + "/" + escapedName, '/');
    "/" + TrimLeft(rawUrl + "/" + escapedName, '/')
  }

  /** The link template `<a href="/%s">%s</a>` filled with the trimmed link and
      the name. */
  function LinkHtml(actualLink: string, name: string): string
  {
    "<a href=\"/" + actualLink + "\">" + name + "</a>"
  }

  /** The row template `<tr><td>%s</td><td>%s</td></tr>` filled with an icon and
      a link. */
  function ItemHtml(icon: string, link: string): string
  {
    RowStart + icon + "</td><td>" + link + "</td></tr>"
  }

  /** One row for entry `e`; the link text is the name as the filesystem gave
      it, not escaped. */
  function Row(icon: string, rawUrl: string, escape: string -> string, e: Entry): string
  {
    ItemHtml(icon, LinkHtml(TrimLeft(rawUrl + "/" + escape(e.name), '/'), e.name))
  }

  /** The href attribute of a row is `Href` of the request URL and the escaped
      name, and the link text is the unescaped name. */
  lemma RowLink(icon: string, rawUrl: string, escape: string -> string, e: Entry)
    ensures Row(icon, rawUrl, escape, e)
         == RowStart + icon + "</td><td><a href=\"" + Href(rawUrl, escape(e.name)) + "\">"
            + e.name + "</a></td></tr>"
  {
  }

  /** The rows for `es`, one per entry and in the same order. */
  function Rows(icon: string, rawUrl: string, escape: string -> string, es: seq<Entry>): (rows: seq<string>)
    ensures |rows| == |es|
  {
    if es == [] then [] else Rows(icon, rawUrl, escape, es[..|es| - 1]) + [Row(icon, rawUrl, escape, es[|es| - 1])]
  }

  /** Row `i` is the row of entry `i`. */
  lemma {:induction false} RowsAt(icon: string, rawUrl: string, escape: string -> string, es: seq<Entry>, i: nat)
    requires i < |es|
    ensures Rows(icon, rawUrl, escape, es)[i] == Row(icon, rawUrl, escape, es[i])
  {
    if i < |es| - 1 {
      RowsAt(icon, rawUrl, escape, es[..|es| - 1], i);
    }
  }

  function Concat(ss: seq<string>): string
  {
    if ss == [] then "" else Concat(ss[..|ss| - 1]) + ss[|ss| - 1]
  }

  /** All rows of a listing: the directory rows, then the file rows. */
  function TableRows(rawUrl: string, escape: string -> string, dirs: seq<Entry>, files: seq<Entry>): seq<string>
  {
    Rows(FolderHtml, rawUrl, escape, dirs) + Rows(FileHtml, rawUrl, escape, files)
  }

  /** The table of server/server.go:160-189. */
  function Table(rawUrl: string, escape: string -> string, dirs: seq<Entry>, files: seq<Entry>): string
  {
    "<table>" + Concat(TableRows(rawUrl, escape, dirs, files)) + "</table>"
  }

  /** The two loops of server/server.go:160-189, growing `table` with `+=`. */
  method RenderTable(rawUrl: string, escape: string -> string, dirs: seq<Entry>, files: seq<Entry>)
    returns (table: string)
    ensures table == Table(rawUrl, escape, dirs, files)
  {
    table := "<table>";
    // Both loops keep the same shape of invariant, rows already in the table
    // followed by the rows of the prefix handled so far, so that one step
    // lemma serves both; for the directory rows nothing precedes them.
    var i := 0;
    while i < |dirs|
      invariant 0 <= i <= |dirs|
      invariant table == "<table>" + Concat([] + Rows(FolderHtml, rawUrl, escape, dirs[..i]))
    {
      ConcatRowsStep(FolderHtml, rawUrl, escape, [], dirs, i);
      var newDirname := escape(dirs[i].name);
      var actualLink := rawUrl + "/" + newDirname;
      actualLink := TrimLeft(actualLink, '/');
      var link := LinkHtml(actualLink, dirs[i].name);
      var item := ItemHtml(FolderHtml, link);
      assert item == Row(FolderHtml, rawUrl, escape, dirs[i]);
      AppendAssoc("<table>", Concat([] + Rows(FolderHtml, rawUrl, escape, dirs[..i])), item);
      table := table + item;
      i := i + 1;
    }
    assert dirs[..i] == dirs;
    assert [] + Rows(FolderHtml, rawUrl, escape, dirs) == Rows(FolderHtml, rawUrl, escape, dirs);
    ghost var dirRows := Rows(FolderHtml, rawUrl, escape, dirs);
    assert files[..0] == [];
    assert dirRows + Rows(FileHtml, rawUrl, escape, files[..0]) == dirRows;
    var j := 0;
    while j < |files|
      invariant 0 <= j <= |files|
      invariant table == "<table>" + Concat(dirRows + Rows(FileHtml, rawUrl, escape, files[..j]))
    {
      ConcatRowsStep(FileHtml, rawUrl, escape, dirRows, files, j);
      var newFilename := escape(files[j].name);
      var actualLink := rawUrl + "/" + newFilename;
      actualLink := TrimLeft(actualLink, '/');
      var link := LinkHtml(actualLink, files[j].name);
      var item := ItemHtml(FileHtml, link);
      assert item == Row(FileHtml, rawUrl, escape, files[j]);
      AppendAssoc("<table>", Concat(dirRows + Rows(FileHtml, rawUrl, escape, files[..j])), item);
      table := table + item;
      j := j + 1;
    }
    assert files[..j] == files;
    table := table + "</table>";
  }

  lemma AppendAssoc(a: string, b: string, c: string)
    ensures (a + b) + c == a + (b + c)
  {
  }

  /** One more loop iteration appends the next entry's row to the text. */
  lemma ConcatRowsStep(icon: string, rawUrl: string, escape: string -> string,
                       before: seq<string>, es: seq<Entry>, i: nat)
    requires i < |es|
    ensures Concat(before + Rows(icon, rawUrl, escape, es[..i + 1]))
         == Concat(before + Rows(icon, rawUrl, escape, es[..i])) + Row(icon, rawUrl, escape, es[i])
  {
    assert es[..i + 1][..i] == es[..i];
    var rows := before + Rows(icon, rawUrl, escape, es[..i + 1]);
    assert rows[..|rows| - 1] == before + Rows(icon, rawUrl, escape, es[..i]);
  }

  /** A row's icon: whether it starts with the folder icon cell. */
  predicate IsFolderRow(row: string)
  {
    |RowStart + FolderHtml| <= |row| && row[..|RowStart + FolderHtml|] == RowStart + FolderHtml
  }

  /** Whether a row starts with the file icon cell. */
  predicate IsFileRow(row: string)
  {
    |RowStart + FileHtml| <= |row| && row[..|RowStart + FileHtml|] == RowStart + FileHtml
  }

  lemma FolderRowShape(rawUrl: string, escape: string -> string, e: Entry)
    ensures IsFolderRow(Row(FolderHtml, rawUrl, escape, e))
    ensures !IsFileRow(Row(FolderHtml, rawUrl, escape, e))
  {
    var row := Row(FolderHtml, rawUrl, escape, e);
    assert row[..|RowStart + FolderHtml|] == RowStart + FolderHtml;
    assert row[35] == 'o';
  }

  lemma FileRowShape(rawUrl: string, escape: string -> string, e: Entry)
    ensures IsFileRow(Row(FileHtml, rawUrl, escape, e))
    ensures !IsFolderRow(Row(FileHtml, rawUrl, escape, e))
  {
    var row := Row(FileHtml, rawUrl, escape, e);
    assert row[..|RowStart + FileHtml|] == RowStart + FileHtml;
    assert row[35] == 'i';
  }

  /** The table has exactly one row per listed entry; the first `|dirs|` rows
      carry the folder icon and are the directories in order, every later row
      carries the file icon and is a file in order — so every folder row comes
      before every file row. */
  lemma TableLayout(rawUrl: string, escape: string -> string, dirs: seq<Entry>, files: seq<Entry>)
    ensures var rows := TableRows(rawUrl, escape, dirs, files);
      |rows| == |dirs| + |files|
      && (forall i :: 0 <= i < |rows| ==> (IsFolderRow(rows[i]) <==> i < |dirs|))
      && (forall i :: 0 <= i < |rows| ==> (IsFileRow(rows[i]) <==> |dirs| <= i))
      && (forall i :: 0 <= i < |dirs| ==> rows[i] == Row(FolderHtml, rawUrl, escape, dirs[i]))
      && (forall j :: 0 <= j < |files| ==> rows[|dirs| + j] == Row(FileHtml, rawUrl, escape, files[j]))
  {
    var rows := TableRows(rawUrl, escape, dirs, files);
    forall i | 0 <= i < |rows|
      ensures IsFolderRow(rows[i]) <==> i < |dirs|
      ensures IsFileRow(rows[i]) <==> |dirs| <= i
    {
      TableRowAt(rawUrl, escape, dirs, files, i);
    }
    forall i | 0 <= i < |dirs|
      ensures rows[i] == Row(FolderHtml, rawUrl, escape, dirs[i])
    {
      TableRowAt(rawUrl, escape, dirs, files, i);
    }
    forall j | 0 <= j < |files|
      ensures rows[|dirs| + j] == Row(FileHtml, rawUrl, escape, files[j])
    {
      TableRowAt(rawUrl, escape, dirs, files, |dirs| + j);
    }
  }

  /** One row of the table: a folder row for a directory, a file row after. */
  lemma TableRowAt(rawUrl: string, escape: string -> string, dirs: seq<Entry>, files: seq<Entry>, i: nat)
    requires i < |dirs| + |files|
    ensures var rows := TableRows(rawUrl, escape, dirs, files);
      |rows| == |dirs| + |files|
      && (i < |dirs| ==>
            rows[i] == Row(FolderHtml, rawUrl, escape, dirs[i])
            && IsFolderRow(rows[i]) && !IsFileRow(rows[i]))
      && (|dirs| <= i ==>
            rows[i] == Row(FileHtml, rawUrl, escape, files[i - |dirs|])
            && IsFileRow(rows[i]) && !IsFolderRow(rows[i]))
  {
    var dirRows, fileRows := Rows(FolderHtml, rawUrl, escape, dirs), Rows(FileHtml, rawUrl, escape, files);
    if i < |dirs| {
      RowsAt(FolderHtml, rawUrl, escape, dirs, i);
      assert TableRows(rawUrl, escape, dirs, files)[i] == dirRows[i];
      FolderRowShape(rawUrl, escape, dirs[i]);
    } else {
      RowsAt(FileHtml, rawUrl, escape, files, i - |dirs|);
      assert TableRows(rawUrl, escape, dirs, files)[i] == fileRows[i - |dirs|];
      FileRowShape(rawUrl, escape, files[i - |dirs|]);
    }
  }

  lemma {:induction false} ConcatAppend(a: seq<string>, b: seq<string>)
    ensures Concat(a + b) == Concat(a) + Concat(b)
  {
    if b != [] {
      var b' := b[..|b| - 1];
      assert (a + b)[..|a + b| - 1] == a + b';
      ConcatAppend(a, b');
    } else {
      assert a + b == a;
    }
  }

  /** The table text is `<table>`, then each row's text in order, then
      `</table>`: the row texts can be read off the table one after another. */
  lemma TableText(rawUrl: string, escape: string -> string, dirs: seq<Entry>, files: seq<Entry>)
    ensures var t := Table(rawUrl, escape, dirs, files);
      |t| >= 15 && t[..7] == "<table>" && t[|t| - 8..] == "</table>"
    ensures Table(rawUrl, escape, dirs, files)
         == "<table>" + Concat(Rows(FolderHtml, rawUrl, escape, dirs))
            + Concat(Rows(FileHtml, rawUrl, escape, files)) + "</table>"
  {
    var dirRows, fileRows := Rows(FolderHtml, rawUrl, escape, dirs), Rows(FileHtml, rawUrl, escape, files);
    var d, f := Concat(dirRows), Concat(fileRows);
    var body := Concat(TableRows(rawUrl, escape, dirs, files));
    assert body == d + f by {
      ConcatAppend(dirRows, fileRows);
    }
    EnclosedText("<table>", body, "</table>");
    assert "<table>" + body == "<table>" + d + f by {
      AppendAssoc("<table>", d, f);
    }
  }

  /** Reading the three pieces back off `open + body + close`. */
  lemma EnclosedText(open: string, body: string, close: string)
    ensures var t := open + body + close;
      |t| == |open| + |body| + |close|
      && t[..|open|] == open
      && t[|open|..|t| - |close|] == body
      && t[|t| - |close|..] == close
  {
  }

  /** The link target seen from the source's two cases. When the request URL has
      a character other than `/`, the target is `/`, that URL without its leading
      slashes, `/`, the escaped name; when it is only slashes (the root `/`),
      the target is `/` followed by the escaped name without leading slashes. */
  lemma HrefShape(rawUrl: string, escapedName: string)
    ensures TrimLeft(rawUrl, '/') != [] ==>
              Href(rawUrl, escapedName) == "/" + TrimLeft(rawUrl, '/') + "/" + escapedName
    ensures TrimLeft(rawUrl, '/') == [] ==>
              Href(rawUrl, escapedName) == "/" + TrimLeft(escapedName, '/')
  {
    TrimLeftConcat(rawUrl, "/" + escapedName, '/');
    assert rawUrl + "/" + escapedName == rawUrl + ("/" + escapedName);
    assert ("/" + escapedName)[1..] == escapedName;
  }

  /** The document shell, whatever its body, starts with the doctype and the
      fixed head and ends closing body and html; the body sits in between. */
  lemma DocumentShape(body: string)
    ensures var page := Document(body);
      |page| == |DocumentStart| + |body| + |DocumentEnd|
      && page[..|DocumentStart|] == DocumentStart
      && page[|DocumentStart|..|page| - |DocumentEnd|] == body
      && page[|page| - |DocumentEnd|..] == DocumentEnd
  {
    EnclosedText(DocumentStart, body, DocumentEnd);
  }
}
