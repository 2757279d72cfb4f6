/** `ConcatDir` (gmodfastdl.go:181-190): joins path components with the OS separator. */
module Dirs {

  /** The joined path: components in order, one `sep` between neighbours, none at the ends. */
  function Join(dirs: seq<string>, sep: char): string
  {
    if |dirs| == 0 then ""
    else if |dirs| == 1 then dirs[0]
    else dirs[0] + [sep] + Join(dirs[1..], sep)
  }

  /** The inverse reading: cut a path at every `sep`. */
  function Split(s: string, sep: char): (parts: seq<string>)
    ensures |parts| >= 1
  {
    if |s| == 0 then [""]
    else
      var rest := Split(s[1..], sep);
      if s[0] == sep then [""] + rest else [[s[0]] + rest[0]] + rest[1..]
  }

  function TotalLength(dirs: seq<string>): nat
  {
    if |dirs| == 0 then 0 else |dirs[0]| + TotalLength(dirs[1..])
  }

  /** The loop of `ConcatDir`: append each component, then a separator unless it was the last. */
  method ConcatDir(dirs: seq<string>, sep: char) returns (finalPath: string)
    ensures finalPath == Join(dirs, sep)
  {
    finalPath := "";
    for i := 0 to |dirs|
      invariant finalPath == Join(dirs[..i], sep) + (if 0 < i < |dirs| then [sep] else [])
    {
      var dir := dirs[i];
      assert dirs[..i + 1] == dirs[..i] + [dir];
      if i > 0 {
        JoinSnoc(dirs[..i], dir, sep);
      }
      finalPath := finalPath + dir;
      if i < |dirs| - 1 {
        finalPath := finalPath + [sep];
      }
    }
    assert dirs[..|dirs|] == dirs;
  }

  /** Appending a component adds exactly one separator before it. */
  lemma {:induction false} JoinSnoc(dirs: seq<string>, d: string, sep: char)
    requires |dirs| > 0
    ensures Join(dirs + [d], sep) == Join(dirs, sep) + [sep] + d
  {
    if |dirs| == 1 {
      assert (dirs + [d])[1..] == [d];
    } else {
      assert (dirs + [d])[1..] == dirs[1..] + [d];
      JoinSnoc(dirs[1..], d, sep);
    }
  }

  /** Joining two non-empty runs of components puts one separator between their joins. */
  lemma {:induction false} JoinAppend(a: seq<string>, b: seq<string>, sep: char)
    requires |a| > 0 && |b| > 0
    ensures Join(a + b, sep) == Join(a, sep) + [sep] + Join(b, sep)
  {
    assert (a + b)[0] == a[0];
    if |a| == 1 {
      assert (a + b)[1..] == b;
    } else {
      assert (a + b)[1..] == a[1..] + b;
      JoinAppend(a[1..], b, sep);
      assert Join(a + b, sep) == a[0] + [sep] + Join(a[1..] + b, sep);
    }
  }

  /** A character in no component and other than the separator is not in the join. */
  lemma {:induction false} JoinNoChar(dirs: seq<string>, sep: char, c: char)
    requires c != sep
    requires forall k :: 0 <= k < |dirs| ==> c !in dirs[k]
    ensures c !in Join(dirs, sep)
  {
    if |dirs| > 1 {
      JoinNoChar(dirs[1..], sep, c);
      assert Join(dirs, sep) == dirs[0] + [sep] + Join(dirs[1..], sep);
    }
  }

  /** Zero components give "", one component gives itself, and n > 0 components give
      the sum of their lengths plus n - 1 separators. */
  lemma {:induction false} JoinLength(dirs: seq<string>, sep: char)
    ensures |dirs| == 0 ==> Join(dirs, sep) == ""
    ensures |dirs| == 1 ==> Join(dirs, sep) == dirs[0]
    ensures |dirs| > 0 ==> |Join(dirs, sep)| == TotalLength(dirs) + |dirs| - 1
  {
    if |dirs| > 1 {
      JoinLength(dirs[1..], sep);
    }
  }

  /** The joined path starts with the first component and ends with the last one. */
  lemma {:induction false} JoinEnds(dirs: seq<string>, sep: char)
    requires |dirs| > 0
    ensures |dirs[0]| <= |Join(dirs, sep)| && Join(dirs, sep)[..|dirs[0]|] == dirs[0]
    ensures var j, l := Join(dirs, sep), dirs[|dirs| - 1]; |l| <= |j| && j[|j| - |l|..] == l
  {
    if |dirs| > 1 {
      JoinEnds(dirs[1..], sep);
      var j, rest := Join(dirs, sep), Join(dirs[1..], sep);
      assert j == dirs[0] + [sep] + rest;
      assert j[|j| - |rest|..] == rest;
    }
  }

  lemma {:induction false} SplitNoSep(d: string, sep: char)
    requires sep !in d
    ensures Split(d, sep) == [d]
  {
    if |d| > 0 {
      SplitNoSep(d[1..], sep);
      assert [d[0]] + d[1..] == d;
    }
  }

  lemma {:induction false} SplitAfterFirst(d: string, t: string, sep: char)
    requires sep !in d
    ensures Split(d + [sep] + t, sep) == [d] + Split(t, sep)
  {
    var s := d + [sep] + t;
    if |d| == 0 {
      assert s[1..] == t;
    } else {
      assert s[1..] == d[1..] + [sep] + t;
      SplitAfterFirst(d[1..], t, sep);
      assert [s[0]] + d[1..] == d;
    }
  }

  /** Round trip: components free of `sep` are recovered by splitting the joined path,
      so exactly one separator lies between consecutive components. */
  lemma {:induction false} SplitJoin(dirs: seq<string>, sep: char)
    requires |dirs| > 0
    requires forall k :: 0 <= k < |dirs| ==> sep !in dirs[k]
    ensures Split(Join(dirs, sep), sep) == dirs
  {
    if |dirs| == 1 {
      SplitNoSep(dirs[0], sep);
    } else {
      SplitJoin(dirs[1..], sep);
      SplitAfterFirst(dirs[0], Join(dirs[1..], sep), sep);
      assert [dirs[0]] + dirs[1..] == dirs;
    }
  }

  /** The other direction: joining the pieces of any path gives the path back. */
  lemma {:induction false} JoinSplit(s: string, sep: char)
    ensures Join(Split(s, sep), sep) == s
  {
    if |s| > 0 {
      var rest := Split(s[1..], sep);
      JoinSplit(s[1..], sep);
      if s[0] == sep {
        assert ([""] + rest)[1..] == rest;
      } else {
        var parts := [[s[0]] + rest[0]] + rest[1..];
        if |rest| > 1 {
          assert parts[1..] == rest[1..];
        }
      }
    }
  }
}
