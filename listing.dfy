/** `getDirsAndFilesList` (server/server.go:197-214): read a directory, drop the
    entries that are not shown, and split the rest into directories and files,
    each in the order of the listing, which `ioutil.ReadDir` sorts by name. */
module Listing {
  import opened Model
  import opened Text

  /** The visibility test of server/server.go:204: a non-empty name, not `/`,
      whose first character is not `.`. */
  predicate Visible(name: string)
  {
    |name| > 0 && name != "/" && name[0] != '.'
  }

  /** Whether `e` belongs in the directories (`wantDir`) or the files list. */
  predicate Keep(e: Entry, wantDir: bool)
  {
    Visible(e.name) && e.isDir == wantDir
  }

  /** The entries of `es` that belong in one list, in input order. Every one it
      keeps passes `Keep`, and it never grows the input. */
  function Select(es: seq<Entry>, wantDir: bool): (r: seq<Entry>)
    ensures |r| <= |es|
    ensures forall e :: e in r ==> e in es && Keep(e, wantDir)
  {
    if es == [] then []
    else Select(es[..|es| - 1], wantDir) + (if Keep(es[|es| - 1], wantDir) then [es[|es| - 1]] else [])
  }

  /** The visible entries of `es`, in input order. */
  function VisibleEntries(es: seq<Entry>): seq<Entry>
  {
    if es == [] then []
    else VisibleEntries(es[..|es| - 1]) + (if Visible(es[|es| - 1].name) then [es[|es| - 1]] else [])
  }

  /** The imperative loop of server/server.go:197-214. A failed read gives two
      empty lists and the error; otherwise the two lists are exactly the
      directory and file selections of the listing, and so in name order when
      the listing is. */
  method GetDirsAndFilesList(fs: FileSystem, fullPath: string)
    returns (dirs: seq<Entry>, files: seq<Entry>, err: Option<string>)
    ensures ReadDir(fs, fullPath).ReadDirFailed? ==>
              dirs == [] && files == [] && err == Some(ReadDir(fs, fullPath).reason)
    ensures ReadDir(fs, fullPath).Listed? ==>
              err == None &&
              dirs == Select(ReadDir(fs, fullPath).entries, true) &&
              files == Select(ReadDir(fs, fullPath).entries, false)
    ensures ListingsSorted(fs) ==> SortedByName(dirs) && SortedByName(files)
  {
    dirs, files := [], [];
    var infos := ReadDir(fs, fullPath);
    if infos.ReadDirFailed? {
      return dirs, files, Some(infos.reason);
    }
    var es := infos.entries;
    var i := 0;
    while i < |es|
      invariant 0 <= i <= |es|
      invariant dirs == Select(es[..i], true)
      invariant files == Select(es[..i], false)
    {
      assert es[..i + 1][..i] == es[..i];
      var info := es[i];
      if |info.name| > 0 && info.name != "/" && info.name[0] != '.' {
        if info.isDir {
          dirs := dirs + [info];
        } else {
          files := files + [info];
        }
      }
      i := i + 1;
    }
    assert es[..i] == es;
    err := None;
    if ListingsSorted(fs) {
      SelectSorted(es, true);
      SelectSorted(es, false);
    }
  }

  /** Selection distributes over concatenation: the lists of a listing are the
      lists of its two halves, one after the other (order is preserved). */
  lemma {:induction false} SelectAppend(a: seq<Entry>, b: seq<Entry>, wantDir: bool)
    ensures Select(a + b, wantDir) == Select(a, wantDir) + Select(b, wantDir)
  {
    if b != [] {
      var b' := b[..|b| - 1];
      assert (a + b)[..|a + b| - 1] == a + b';
      SelectAppend(a, b', wantDir);
    } else {
      assert a + b == a;
    }
  }

  /** An entry of the listing that passes the filter for one list is in it. */
  lemma {:induction false} SelectComplete(es: seq<Entry>, e: Entry, wantDir: bool)
    requires e in es && Keep(e, wantDir)
    ensures e in Select(es, wantDir)
  {
    var last := es[|es| - 1];
    if e != last {
      var i :| 0 <= i < |es| && es[i] == e;
      assert es[..|es| - 1][i] == e;
      SelectComplete(es[..|es| - 1], e, wantDir);
    }
  }

  /** Each visible entry appears in exactly one of the two lists — the
      directories if it is one, the files otherwise — and a hidden entry in
      neither. */
  lemma Membership(es: seq<Entry>, e: Entry)
    requires e in es
    ensures e in Select(es, true) <==> Visible(e.name) && e.isDir
    ensures e in Select(es, false) <==> Visible(e.name) && !e.isDir
  {
    if Visible(e.name) {
      SelectComplete(es, e, e.isDir);
    }
  }

  /** The two lists together are a permutation of the visible entries, so their
      lengths add up to the number of visible entries. */
  lemma {:induction false} Partition(es: seq<Entry>)
    ensures multiset(Select(es, true)) + multiset(Select(es, false)) == multiset(VisibleEntries(es))
    ensures |Select(es, true)| + |Select(es, false)| == |VisibleEntries(es)|
  {
    if es != [] {
      Partition(es[..|es| - 1]);
    }
    assert |multiset(Select(es, true))| == |Select(es, true)|;
    assert |multiset(Select(es, false))| == |Select(es, false)|;
    assert |multiset(VisibleEntries(es))| == |VisibleEntries(es)|;
  }

  /** `a` can be obtained from `b` by deleting elements, without reordering. */
  predicate IsSubsequence(a: seq<Entry>, b: seq<Entry>)
  {
    if a == [] then true
    else if b == [] then false
    else if a[|a| - 1] == b[|b| - 1] then IsSubsequence(a[..|a| - 1], b[..|b| - 1])
    else IsSubsequence(a, b[..|b| - 1])
  }

  /** Each list keeps the order of the listing. */
  lemma {:induction false} SelectIsSubsequence(es: seq<Entry>, wantDir: bool)
    ensures IsSubsequence(Select(es, wantDir), es)
  {
    if es != [] {
      var init, last := es[..|es| - 1], es[|es| - 1];
      SelectIsSubsequence(init, wantDir);
      var r := Select(es, wantDir);
      if Keep(last, wantDir) {
        assert r[..|r| - 1] == Select(init, wantDir);
      } else {
        assert r == Select(init, wantDir);
        assert r != [] ==> r[|r| - 1] in r && r[|r| - 1] != last;
      }
    }
  }

  /** Each list inherits the name order of a sorted listing: it picks entries
      out without reordering them. */
  lemma {:induction false} SelectSorted(es: seq<Entry>, wantDir: bool)
    requires SortedByName(es)
    ensures SortedByName(Select(es, wantDir))
  {
    if es != [] {
      var init, last := es[..|es| - 1], es[|es| - 1];
      assert SortedByName(init) by {
        forall i, j | 0 <= i < j < |init|
          ensures NameLess(init[i].name, init[j].name)
        {
          assert init[i] == es[i] && init[j] == es[j];
        }
      }
      SelectSorted(init, wantDir);
      var r0 := Select(init, wantDir);
      if Keep(last, wantDir) {
        var r := r0 + [last];
        forall i, j | 0 <= i < j < |r|
          ensures NameLess(r[i].name, r[j].name)
        {
          if j == |r| - 1 {
            assert r[i] == r0[i] && r0[i] in r0;
            var k :| 0 <= k < |init| && init[k] == r[i];
            assert es[k] == r[i] && es[|es| - 1] == r[j];
          } else {
            assert r[i] == r0[i] && r[j] == r0[j];
          }
        }
      }
    }
  }
}
