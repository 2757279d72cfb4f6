/** The `filepath.Walk` callback of gmodfastdl.go:73-87 with the allow-list of
    gmodfastdl.go:25-31. The traversal itself is not modelled: the walk is given
    as the sequence of entries it visits, in the order it visits them. */
module AssetFilter {
  import opened Strings

  /** One visit of the walk callback: the entry's base name, its full path, whether it
      is a directory, and whether the walk handed the callback an error for it. */
  datatype Entry = Entry(name: string, path: string, isDir: bool, failed: bool)

  /** `downloadFileTypes`, in the order the callback tries them. */
  const DownloadFileTypes: seq<string> := ["mdl", "vmt", "vtf", "wav", "mp3"]

  /** `filepath.Match("*." + ext, name)`: the star matches any run of characters other
      than the OS separator, so the name must end in "." + ext and hold no separator.
      A base name never holds one, so for the walk this is "ends with . + ext". */
  predicate MatchesType(name: string, ext: string, sep: char) {
    EndsWith(name, "." + ext) && sep !in name
  }

  /** The entries the callback appends: no error, not a directory, and a name matching
      one of the allowed types. */
  predicate IsAsset(e: Entry, sep: char) {
    && !e.failed
    && !e.isDir
    && exists k :: 0 <= k < |DownloadFileTypes| && MatchesType(e.name, DownloadFileTypes[k], sep)
  }

  /** The paths the walk collects: the asset entries' paths, in walk order. */
  function Collected(entries: seq<Entry>, sep: char): seq<string>
  {
    if |entries| == 0 then []
    else (if IsAsset(entries[0], sep) then [entries[0].path] else []) + Collected(entries[1..], sep)
  }

  /** The callback for one entry: skip errors and directories, then try each type in
      turn and stop at the first that matches. */
  method Visit(e: Entry, sep: char) returns (keep: bool)
    ensures keep == IsAsset(e, sep)
  {
    if e.failed {
      return false;
    }
    if e.isDir {
      return false;
    }
    for k := 0 to |DownloadFileTypes|
      invariant forall j :: 0 <= j < k ==> !MatchesType(e.name, DownloadFileTypes[j], sep)
    {
      if MatchesType(e.name, DownloadFileTypes[k], sep) {
        return true;
      }
    }
    return false;
  }

  /** The walk feeding every entry to the callback, which appends to `fastdl`. */
  method Collect(entries: seq<Entry>, sep: char) returns (fastdl: seq<string>)
    ensures fastdl == Collected(entries, sep)
  {
    fastdl := [];
    for i := 0 to |entries|
      invariant fastdl == Collected(entries[..i], sep)
    {
      var e := entries[i];
      var keep := Visit(e, sep);
      assert entries[..i + 1] == entries[..i] + [e];
      CollectedAppend(entries[..i], [e], sep);
      if keep {
        fastdl := fastdl + [e.path];
      }
    }
    assert entries[..|entries|] == entries;
  }

  /** Collecting is compositional: each entry contributes its own path, at most once,
      and the contributions keep the order of the walk. */
  lemma {:induction false} CollectedAppend(a: seq<Entry>, b: seq<Entry>, sep: char)
    ensures Collected(a + b, sep) == Collected(a, sep) + Collected(b, sep)
  {
    if |a| == 0 {
      assert a + b == b;
    } else {
      var head := if IsAsset(a[0], sep) then [a[0].path] else [];
      assert (a + b)[0] == a[0] && (a + b)[1..] == a[1..] + b;
      assert Collected(a + b, sep) == head + Collected(a[1..] + b, sep);
      CollectedAppend(a[1..], b, sep);
      ConcatAssoc(head, Collected(a[1..], sep), Collected(b, sep));
    }
  }

  /** A path is collected if and only if some asset entry of the walk has that path. */
  lemma {:induction false} CollectedMembers(entries: seq<Entry>, sep: char, p: string)
    ensures p in Collected(entries, sep) <==>
            exists i :: 0 <= i < |entries| && IsAsset(entries[i], sep) && entries[i].path == p
  {
    if |entries| > 0 {
      var tail := entries[1..];
      CollectedMembers(tail, sep, p);
      if p in Collected(entries, sep) && !(IsAsset(entries[0], sep) && entries[0].path == p) {
        var i :| 0 <= i < |tail| && IsAsset(tail[i], sep) && tail[i].path == p;
        assert entries[i + 1] == tail[i];
      }
      if exists i :: 0 <= i < |entries| && IsAsset(entries[i], sep) && entries[i].path == p {
        var i :| 0 <= i < |entries| && IsAsset(entries[i], sep) && entries[i].path == p;
        if i > 0 {
          assert tail[i - 1] == entries[i];
        }
      }
    }
  }

  /** No name matches two of the allowed types, so which one matched first is immaterial. */
  lemma TypesExclusive(name: string, sep: char, j: int, k: int)
    requires 0 <= j < |DownloadFileTypes| && 0 <= k < |DownloadFileTypes|
    requires MatchesType(name, DownloadFileTypes[j], sep) && MatchesType(name, DownloadFileTypes[k], sep)
    ensures j == k
  {
    var tj, tk := DownloadFileTypes[j], DownloadFileTypes[k];
    assert |tj| == 3 && |tk| == 3;
    assert "." + tj == name[|name| - 4..] == "." + tk;
    assert tj == ("." + tj)[1..] == ("." + tk)[1..] == tk;
  }
}
