/** What the loop of gmodfastdl.go:95-108 does to one collected path: rewrite the
    separators, strip the addons prefix, drop paths under a numbered staging
    folder, and keep what follows the first '/'. The two regular expressions are
    written out by hand with Go's RE2 semantics. */
module Normalize {
  import opened Strings
  import opened Dirs

  /** Lines 96-97: the OS separator and then '\' are both replaced by '/'. */
  function Slashes(path: string, osSep: char): (r: string)
    ensures |r| == |path|
    ensures forall i :: 0 <= i < |path| ==> r[i] == (if path[i] == osSep || path[i] == '\\' then '/' else path[i])
    ensures '\\' !in r && (osSep != '/' ==> osSep !in r)
  {
    var r := ReplaceChar(ReplaceChar(path, osSep, '/'), '\\', '/');
    ReplaceCharRemoves(ReplaceChar(path, osSep, '/'), '\\', '/');
    r
  }

  /** Rewriting the separators a second time changes nothing. */
  lemma SlashesIdempotent(path: string, osSep: char)
    ensures Slashes(Slashes(path, osSep), osSep) == Slashes(path, osSep)
  {
    var once := Slashes(path, osSep);
    var twice := Slashes(once, osSep);
    forall i | 0 <= i < |path| ensures twice[i] == once[i] {
      assert once[i] == (if path[i] == osSep || path[i] == '\\' then '/' else path[i]);
    }
  }

  /** A path already in '/' form passes through unchanged. */
  lemma SlashesNoop(path: string, osSep: char)
    requires osSep == '/' || osSep !in path
    requires '\\' !in path
    ensures Slashes(path, osSep) == path
  {
    ReplaceCharNoop(path, osSep, '/');
    ReplaceCharNoop(path, '\\', '/');
  }

  /** The prefix of line 98, built with a literal "/" whatever the OS separator is. */
  function AddonsPrefix(gmodPath: string): string {
    gmodPath + "/addons/"
  }

  /** The path after lines 96-98. */
  function Normalized(path: string, osSep: char, gmodPath: string): string {
    TrimPrefix(Slashes(path, osSep), AddonsPrefix(gmodPath))
  }

  /** Reference reading of `.*_\d{6,}\/.*` with unanchored `MatchString`: some `_` is
      followed by six or more digits and then a '/'. Both `.*` may match the empty
      string, so the newline rule of `.` plays no part. */
  ghost predicate HasStagingFolder(p: string) {
    exists i, j :: 0 <= i && i + 6 < j < |p| && p[i] == '_' && p[j] == '/' &&
                   forall k :: i < k < j ==> IsDigit(p[k])
  }

  /** The number of leading digits of `s`. */
  function DigitRun(s: string): (n: nat)
    ensures n <= |s| && AllDigits(s[..n])
    ensures n < |s| ==> !IsDigit(s[n])
  {
    if |s| == 0 || !IsDigit(s[0]) then 0 else 1 + DigitRun(s[1..])
  }

  /** `\d{6,}\/` matched at the start of `s`. */
  predicate SlashAfterDigits(s: string) {
    var n := DigitRun(s);
    6 <= n < |s| && s[n] == '/'
  }

  /** The matcher: try the `_\d{6,}\/` core at every position. */
  function MatchesStaging(p: string): bool {
    |p| > 0 && ((p[0] == '_' && SlashAfterDigits(p[1..])) || MatchesStaging(p[1..]))
  }

  lemma {:induction false} DigitRunExact(s: string, m: nat)
    requires m < |s| && AllDigits(s[..m]) && !IsDigit(s[m])
    ensures DigitRun(s) == m
  {
    if m > 0 {
      assert s[1..][..m - 1] == s[1..m];
      DigitRunExact(s[1..], m - 1);
    }
  }

  /** A `_` followed by the core at the very start is a staging folder. */
  lemma StagingAtHead(p: string)
    requires |p| > 0 && p[0] == '_' && SlashAfterDigits(p[1..])
    ensures HasStagingFolder(p)
  {
    var t := p[1..];
    var n := DigitRun(t);
    assert p[n + 1] == t[n] == '/';
    forall k | 0 < k < n + 1 ensures IsDigit(p[k]) {
      assert p[k] == t[..n][k - 1];
    }
  }

  /** A staging folder after the first character is one of the whole path. */
  lemma StagingInTail(p: string)
    requires |p| > 0 && HasStagingFolder(p[1..])
    ensures HasStagingFolder(p)
  {
    var t := p[1..];
    var i, j :| 0 <= i && i + 6 < j < |t| && t[i] == '_' && t[j] == '/' &&
                forall k :: i < k < j ==> IsDigit(t[k]);
    assert p[i + 1] == '_' && p[j + 1] == '/';
    forall k | i + 1 < k < j + 1 ensures IsDigit(p[k]) {
      assert p[k] == t[k - 1];
    }
  }

  /** A staging folder either starts the path or lies in the rest of it. */
  lemma StagingCases(p: string)
    requires HasStagingFolder(p)
    ensures |p| > 0 && ((p[0] == '_' && SlashAfterDigits(p[1..])) || HasStagingFolder(p[1..]))
  {
    var t := p[1..];
    var i, j :| 0 <= i && i + 6 < j < |p| && p[i] == '_' && p[j] == '/' &&
                forall k :: i < k < j ==> IsDigit(p[k]);
    if i == 0 {
      var run := t[..j - 1];
      forall k | 0 <= k < |run| ensures IsDigit(run[k]) {
        assert run[k] == p[k + 1];
      }
      DigitRunExact(t, j - 1);
    } else {
      assert t[i - 1] == '_' && t[j - 1] == '/';
      forall k | i - 1 < k < j - 1 ensures IsDigit(t[k]) {
        assert t[k] == p[k + 1];
      }
    }
  }

  /** The matcher accepts exactly the paths the regular expression describes. */
  lemma {:induction false} MatchesStagingIff(p: string)
    ensures MatchesStaging(p) <==> HasStagingFolder(p)
  {
    if |p| > 0 {
      MatchesStagingIff(p[1..]);
      if p[0] == '_' && SlashAfterDigits(p[1..]) {
        StagingAtHead(p);
      }
      if HasStagingFolder(p[1..]) {
        StagingInTail(p);
      }
      if HasStagingFolder(p) {
        StagingCases(p);
      }
    }
  }

  /** The first submatch of `.*?\/(.*)` as `FindAllStringSubmatch` reports it, or None
      when there is no match. Under RE2's leftmost-first rule the match begins after the
      last newline before the first '/', the lazy `.*?` stops at that '/', and the group
      runs on to the next newline, since `.` never matches one. */
  function SubmatchAfterSlash(p: string): (r: Option<string>)
    ensures r.None? <==> '/' !in p
    ensures r.Some? ==> '\n' !in r.value
  {
    var head := TakeUntil(p, '/');
    if |head| == |p| then None else Some(TakeUntil(p[|head| + 1..], '\n'))
  }

  /** Without newlines the submatch is everything after the first '/'. */
  lemma SubmatchIsSuffix(p: string, k: nat)
    requires k < |p| && p[k] == '/' && '/' !in p[..k] && '\n' !in p[k + 1..]
    ensures SubmatchAfterSlash(p) == Some(p[k + 1..])
  {
    assert p == p[..k] + ['/'] + p[k + 1..];
    TakeUntilDelimited(p[..k], '/', p[k + 1..]);
    TakeUntilAbsent(p[k + 1..], '\n');
  }

  /** The declaration a collected path contributes, if any (lines 96-105). */
  function Declaration(path: string, osSep: char, gmodPath: string): Option<string>
  {
    var p := Normalized(path, osSep, gmodPath);
    if MatchesStaging(p) then None else SubmatchAfterSlash(p)
  }

  /** A path under a numbered staging folder never yields a declaration. */
  lemma StagingPathDropped(path: string, osSep: char, gmodPath: string)
    requires HasStagingFolder(Normalized(path, osSep, gmodPath))
    ensures Declaration(path, osSep, gmodPath) == None
  {
    MatchesStagingIff(Normalized(path, osSep, gmodPath));
  }

  /** Any other path yields one declaration when it holds a '/' (the text after the first
      one, up to a newline) and none when it does not. */
  lemma OtherPathDeclared(path: string, osSep: char, gmodPath: string)
    requires !HasStagingFolder(Normalized(path, osSep, gmodPath))
    ensures var p := Normalized(path, osSep, gmodPath);
            Declaration(path, osSep, gmodPath) ==
              if '/' in p then Some(TakeUntil(p[|TakeUntil(p, '/')| + 1..], '\n')) else None
  {
    MatchesStagingIff(Normalized(path, osSep, gmodPath));
  }

  /** With no newline involved, the declaration is the suffix after the first '/'. */
  lemma DeclarationIsSuffix(path: string, osSep: char, gmodPath: string, k: nat)
    requires var p := Normalized(path, osSep, gmodPath);
             !HasStagingFolder(p) && k < |p| && p[k] == '/' && '/' !in p[..k] && '\n' !in p
    ensures Declaration(path, osSep, gmodPath) == Some(Normalized(path, osSep, gmodPath)[k + 1..])
  {
    var p := Normalized(path, osSep, gmodPath);
    MatchesStagingIff(p);
    SubmatchIsSuffix(p, k);
  }

  /** A path under the content root's addons folder, already in '/' form, loses exactly
      the addons prefix. */
  lemma NormalizedUnderAddons(gmodPath: string, osSep: char, p: string)
    requires osSep == '/' || osSep == '\\'
    requires '\\' !in gmodPath && '\\' !in p
    ensures Normalized(AddonsPrefix(gmodPath) + p, osSep, gmodPath) == p
  {
    var path := AddonsPrefix(gmodPath) + p;
    assert '\\' !in path by {
      assert path == gmodPath + "/addons/" + p;
    }
    SlashesNoop(path, osSep);
    assert path[..|AddonsPrefix(gmodPath)|] == AddonsPrefix(gmodPath);
  }

  /** A file `rel` of addon folder `addon` under the content root is declared as `rel`. */
  lemma AddonFileDeclared(gmodPath: string, osSep: char, addon: string, rel: string)
    requires osSep == '/' || osSep == '\\'
    requires '\\' !in gmodPath && '\\' !in addon && '\\' !in rel
    requires '/' !in addon && '\n' !in rel
    requires !HasStagingFolder(addon + "/" + rel)
    ensures Declaration(AddonsPrefix(gmodPath) + (addon + "/" + rel), osSep, gmodPath) == Some(rel)
  {
    var p := addon + "/" + rel;
    NormalizedUnderAddons(gmodPath, osSep, p);
    MatchesStagingIff(p);
    assert p[..|addon|] == addon;
    assert p[|addon| + 1..] == rel;
    SubmatchIsSuffix(p, |addon|);
  }

  lemma StagingFolderShape(before: string, digits: string, after: string)
    requires |digits| >= 6 && AllDigits(digits)
    ensures HasStagingFolder(before + "_" + digits + "/" + after)
  {
    var p := before + "_" + digits + "/" + after;
    var i, j := |before|, |before| + 1 + |digits|;
    assert p[i] == '_' && p[j] == '/';
    forall k | i < k < j ensures IsDigit(p[k]) {
      assert p[k] == digits[k - i - 1];
    }
  }

  /** Any file below a folder whose name ends in `_` and six or more digits is dropped,
      wherever that folder sits. */
  lemma StagingFolderFileDropped(gmodPath: string, osSep: char, before: string, digits: string, after: string)
    requires osSep == '/' || osSep == '\\'
    requires '\\' !in gmodPath && '\\' !in before && '\\' !in after
    requires |digits| >= 6 && AllDigits(digits)
    ensures Declaration(AddonsPrefix(gmodPath) + (before + "_" + digits + "/" + after), osSep, gmodPath) == None
  {
    var p := before + "_" + digits + "/" + after;
    assert '\\' !in digits by {
      forall k | 0 <= k < |digits| ensures digits[k] != '\\' {
        assert IsDigit(digits[k]);
      }
    }
    assert '\\' !in p;
    NormalizedUnderAddons(gmodPath, osSep, p);
    StagingFolderShape(before, digits, after);
    StagingPathDropped(AddonsPrefix(gmodPath) + p, osSep, gmodPath);
  }

  /** Normalising a path a second time leaves it alone exactly when it does not start
      with the addons prefix once more: the separators are already '/', but `TrimPrefix`
      strips one more copy of the prefix if there is one. */
  lemma NormalizedIdempotentIff(path: string, osSep: char, gmodPath: string)
    ensures var q := Normalized(path, osSep, gmodPath);
            Normalized(q, osSep, gmodPath) == q <==> !StartsWith(q, AddonsPrefix(gmodPath))
  {
    var s := Slashes(path, osSep);
    var q := Normalized(path, osSep, gmodPath);
    var prefix := AddonsPrefix(gmodPath);
    assert |prefix| > 0;
    assert forall x :: x in q ==> x in s by {
      if StartsWith(s, prefix) {
        assert q == s[|prefix|..];
      }
    }
    SlashesNoop(q, osSep);
  }

  /** A walk path that names the addons folder twice over normalises to a path that
      normalises further, so normalisation is not idempotent in general. */
  lemma NormalizeTwiceDiffers(gmodPath: string, osSep: char, p: string)
    requires osSep == '/' || osSep == '\\'
    requires '\\' !in gmodPath && '\\' !in p
    ensures var q := Normalized(AddonsPrefix(gmodPath) + AddonsPrefix(gmodPath) + p, osSep, gmodPath);
            q == AddonsPrefix(gmodPath) + p && Normalized(q, osSep, gmodPath) == p != q
  {
    var prefix := AddonsPrefix(gmodPath);
    assert '\\' !in prefix + p by {
      assert prefix == gmodPath + "/addons/";
    }
    ConcatAssoc(prefix, prefix, p);
    NormalizedUnderAddons(gmodPath, osSep, prefix + p);
    NormalizedUnderAddons(gmodPath, osSep, p);
    assert |prefix + p| > |p|;
  }

  /** The OS separator and '\' are rewritten position by position, so the rewrite
      distributes over concatenation. */
  lemma SlashesAppend(a: string, b: string, osSep: char)
    ensures Slashes(a + b, osSep) == Slashes(a, osSep) + Slashes(b, osSep)
  {
    ReplaceCharAppend(a, b, osSep, '/');
    ReplaceCharAppend(ReplaceChar(a, osSep, '/'), ReplaceChar(b, osSep, '/'), '\\', '/');
  }

  /** A path the walk reports, its components joined by the OS separator, comes out of the
      rewrite as the same components joined by '/'. */
  lemma {:induction false} SlashesJoin(dirs: seq<string>, osSep: char)
    requires osSep == '/' || osSep == '\\'
    requires forall k :: 0 <= k < |dirs| ==> '\\' !in dirs[k]
    ensures Slashes(Join(dirs, osSep), osSep) == Join(dirs, '/')
  {
    if |dirs| == 1 {
      SlashesNoop(dirs[0], osSep);
    } else if |dirs| > 1 {
      SlashesJoin(dirs[1..], osSep);
      SlashesAppend(dirs[0] + [osSep], Join(dirs[1..], osSep), osSep);
      SlashesAppend(dirs[0], [osSep], osSep);
      SlashesNoop(dirs[0], osSep);
      assert Slashes([osSep], osSep)[0] == '/';
    }
  }

  /** As written, line 98 builds the prefix from the root exactly as the operator typed
      it. A root typed with '\' on a system whose separator is '\' can then never be a
      prefix of the rewritten path, and nothing is stripped. */
  lemma BackslashRootNeverTrimmed(path: string, gmodPath: string)
    requires '\\' in gmodPath
    ensures Normalized(path, '\\', gmodPath) == Slashes(path, '\\')
  {
    var s := Slashes(path, '\\');
    var prefix := AddonsPrefix(gmodPath);
    var k :| 0 <= k < |gmodPath| && gmodPath[k] == '\\';
    assert prefix[k] == '\\';
    assert !StartsWith(s, prefix) by {
      if |prefix| <= |s| {
        assert s[..|prefix|][k] == s[k] != '\\';
      }
    }
  }

  /** The group of `.*?\/(.*)` on folders joined by '/' is the path after the first folder. */
  lemma SubmatchAfterFirstFolder(parts: seq<string>)
    requires |parts| >= 2 && '/' !in parts[0]
    requires forall k :: 0 <= k < |parts| ==> '\n' !in parts[k]
    ensures SubmatchAfterSlash(Join(parts, '/')) == Some(Join(parts[1..], '/'))
  {
    var q, rest := Join(parts, '/'), Join(parts[1..], '/');
    JoinAppend([parts[0]], parts[1..], '/');
    assert [parts[0]] + parts[1..] == parts;
    JoinNoChar(parts[1..], '/', '\n');
    assert q[..|parts[0]|] == parts[0] && q[|parts[0]| + 1..] == rest;
    SubmatchIsSuffix(q, |parts[0]|);
  }

  /** As written: a root typed at the prompt of lines 55-59 as folders joined by '\', on a
      system whose separator is '\'. A file of the walk is then declared with the root's
      folders after the first, and `addons`, still in front of its path in the addon. */
  lemma BackslashRootDeclaresFullPath(root: seq<string>, file: seq<string>)
    requires |root| >= 2 && |file| >= 2
    requires forall k :: 0 <= k < |root + ["addons"] + file| ==>
               '\\' !in (root + ["addons"] + file)[k] && '\n' !in (root + ["addons"] + file)[k]
    requires '/' !in root[0]
    requires !HasStagingFolder(Join(root + ["addons"] + file, '/'))
    ensures Declaration(Join(root + ["addons"] + file, '\\'), '\\', Join(root, '\\')) ==
            Some(Join(root[1..] + ["addons"] + file, '/'))
  {
    var parts := root + ["addons"] + file;
    assert parts[1..] == root[1..] + ["addons"] + file;
    assert '\\' in Join(root, '\\') by {
      JoinAppend([root[0]], root[1..], '\\');
      assert [root[0]] + root[1..] == root;
      assert Join(root, '\\')[|root[0]|] == '\\';
    }
    BackslashRootNeverTrimmed(Join(parts, '\\'), Join(root, '\\'));
    SlashesJoin(parts, '\\');
    MatchesStagingIff(Join(parts, '/'));
    SubmatchAfterFirstFolder(parts);
  }

  /** The prefix as evidently intended: built from the root after the same separator
      rewrite the walk paths get. */
  function IntendedNormalized(path: string, osSep: char, gmodPath: string): string {
    TrimPrefix(Slashes(path, osSep), AddonsPrefix(Slashes(gmodPath, osSep)))
  }

  /** The declaration with the intended prefix. */
  function IntendedDeclaration(path: string, osSep: char, gmodPath: string): Option<string> {
    var p := IntendedNormalized(path, osSep, gmodPath);
    if MatchesStaging(p) then None else SubmatchAfterSlash(p)
  }

  /** For a root typed in '/' form, such as the default `garrysmod`, the intended
      declaration is the one the program computes. */
  lemma IntendedAgrees(path: string, osSep: char, gmodPath: string)
    requires '\\' !in gmodPath && (osSep == '/' || osSep !in gmodPath)
    ensures IntendedDeclaration(path, osSep, gmodPath) == Declaration(path, osSep, gmodPath)
  {
    SlashesNoop(gmodPath, osSep);
  }

  /** The rewrite around one OS separator. */
  lemma SlashesAroundSep(a: string, b: string, osSep: char)
    ensures Slashes(a + [osSep] + b, osSep) == Slashes(a, osSep) + "/" + Slashes(b, osSep)
  {
    SlashesAppend(a + [osSep], b, osSep);
    SlashesAppend(a, [osSep], osSep);
    assert Slashes([osSep], osSep)[0] == '/';
  }

  /** A walk path below `ConcatDir(root, dir)` is the root, a separator, then `dir` and
      the remaining components joined by the separator. */
  lemma WalkPathShape(root: string, dir: string, osSep: char, file: seq<string>)
    requires |file| > 0
    ensures Join([root, dir] + file, osSep) == root + [osSep] + (dir + [osSep] + Join(file, osSep))
  {
    var tail := [dir] + file;
    assert ([root, dir] + file) == [root] + tail;
    JoinAppend([root], tail, osSep);
    JoinAppend([dir], file, osSep);
  }

  /** The rewrite of a walk path below `ConcatDir(root, dir)`, for a folder name `dir`
      without separators: the root rewritten, then `/dir/`, then the remaining components
      joined by '/'. */
  lemma SlashesWalkPath(root: string, dir: string, osSep: char, file: seq<string>)
    requires osSep == '/' || osSep == '\\'
    requires '/' !in dir && '\\' !in dir
    requires |file| > 0
    requires forall k :: 0 <= k < |file| ==> '\\' !in file[k]
    ensures Slashes(Join([root, dir] + file, osSep), osSep) ==
            Slashes(root, osSep) + "/" + (dir + "/" + Join(file, '/'))
  {
    WalkPathShape(root, dir, osSep, file);
    var j := Join(file, osSep);
    SlashesAroundSep(root, dir + [osSep] + j, osSep);
    SlashesAroundSep(dir, j, osSep);
    SlashesNoop(dir, osSep);
    SlashesJoin(file, osSep);
  }

  lemma AddonsPrefixShape(sg: string, q: string)
    ensures sg + "/" + ("addons" + "/" + q) == AddonsPrefix(sg) + q
  {
    ConcatAssoc("addons", "/", q);
    ConcatAssoc(sg + "/", "addons" + "/", q);
    ConcatAssoc(sg, "/", "addons/");
  }

  /** The same for the walk of line 73, below `ConcatDir(gmodPath, "addons")`: the rewritten
      path starts with the intended prefix. */
  lemma SlashesAddonsWalkPath(gmodPath: string, osSep: char, file: seq<string>)
    requires osSep == '/' || osSep == '\\'
    requires |file| > 0
    requires forall k :: 0 <= k < |file| ==> '\\' !in file[k]
    ensures Slashes(Join([gmodPath, "addons"] + file, osSep), osSep) ==
            AddonsPrefix(Slashes(gmodPath, osSep)) + Join(file, '/')
  {
    assert '/' !in "addons" && '\\' !in "addons";
    SlashesWalkPath(gmodPath, "addons", osSep, file);
    AddonsPrefixShape(Slashes(gmodPath, osSep), Join(file, '/'));
  }

  /** With the intended prefix, a file the walk reports below the root, `ConcatDir(gmodPath,
      "addons")` and then the addon folder and the file's path in it, all joined by the OS
      separator, is declared as its path in the addon in '/' form, however the root was
      typed. */
  lemma IntendedWalkFileDeclared(gmodPath: string, osSep: char, file: seq<string>)
    requires osSep == '/' || osSep == '\\'
    requires |file| >= 2 && '/' !in file[0]
    requires forall k :: 0 <= k < |file| ==> '\\' !in file[k] && '\n' !in file[k]
    requires !HasStagingFolder(Join(file, '/'))
    ensures IntendedDeclaration(Join([gmodPath, "addons"] + file, osSep), osSep, gmodPath) ==
            Some(Join(file[1..], '/'))
  {
    var path := Join([gmodPath, "addons"] + file, osSep);
    var prefix := AddonsPrefix(Slashes(gmodPath, osSep));
    var q := Join(file, '/');
    SlashesAddonsWalkPath(gmodPath, osSep, file);
    assert (prefix + q)[..|prefix|] == prefix;
    assert IntendedNormalized(path, osSep, gmodPath) == q;
    MatchesStagingIff(q);
    SubmatchAfterFirstFolder(file);
  }

  /** The declarations of the collected paths, one per path, `None` for a path that
      contributes nothing. */
  function Declarations(paths: seq<string>, osSep: char, gmodPath: string): (ds: seq<Option<string>>)
    ensures |ds| == |paths|
    ensures forall i :: 0 <= i < |paths| ==> ds[i] == Declaration(paths[i], osSep, gmodPath)
  {
    if |paths| == 0 then [] else [Declaration(paths[0], osSep, gmodPath)] + Declarations(paths[1..], osSep, gmodPath)
  }

  /** The values present in `ds`, in order. */
  function Present(ds: seq<Option<string>>): seq<string>
  {
    if |ds| == 0 then [] else (if ds[0].Some? then [ds[0].value] else []) + Present(ds[1..])
  }

  lemma {:induction false} PresentAppend(a: seq<Option<string>>, b: seq<Option<string>>)
    ensures Present(a + b) == Present(a) + Present(b)
  {
    if |a| == 0 {
      assert a + b == b;
    } else {
      var head: seq<string> := if a[0].Some? then [a[0].value] else [];
      assert (a + b)[0] == a[0];
      assert (a + b)[1..] == a[1..] + b;
      assert Present(a + b) == head + Present(a[1..] + b);
      PresentAppend(a[1..], b);
      ConcatAssoc(head, Present(a[1..]), Present(b));
    }
  }

  /** The declarations of all collected paths, in order, duplicates kept. */
  function Accepted(paths: seq<string>, osSep: char, gmodPath: string): seq<string>
  {
    Present(Declarations(paths, osSep, gmodPath))
  }

  lemma {:induction false} DeclarationsAppend(a: seq<string>, b: seq<string>, osSep: char, gmodPath: string)
    ensures Declarations(a + b, osSep, gmodPath) == Declarations(a, osSep, gmodPath) + Declarations(b, osSep, gmodPath)
  {
    if |a| == 0 {
      assert a + b == b;
    } else {
      var head := [Declaration(a[0], osSep, gmodPath)];
      assert (a + b)[0] == a[0] && (a + b)[1..] == a[1..] + b;
      assert Declarations(a + b, osSep, gmodPath) == head + Declarations(a[1..] + b, osSep, gmodPath);
      DeclarationsAppend(a[1..], b, osSep, gmodPath);
      ConcatAssoc(head, Declarations(a[1..], osSep, gmodPath), Declarations(b, osSep, gmodPath));
    }
  }

  lemma AcceptedAppend(a: seq<string>, b: seq<string>, osSep: char, gmodPath: string)
    ensures Accepted(a + b, osSep, gmodPath) == Accepted(a, osSep, gmodPath) + Accepted(b, osSep, gmodPath)
  {
    DeclarationsAppend(a, b, osSep, gmodPath);
    PresentAppend(Declarations(a, osSep, gmodPath), Declarations(b, osSep, gmodPath));
  }

  /** One more path adds its declaration, if it has one, at the end. */
  lemma AcceptedSnoc(paths: seq<string>, path: string, osSep: char, gmodPath: string)
    ensures var d := Declaration(path, osSep, gmodPath);
            Accepted(paths + [path], osSep, gmodPath) ==
            Accepted(paths, osSep, gmodPath) + if d.Some? then [d.value] else []
  {
    AcceptedAppend(paths, [path], osSep, gmodPath);
    var ds := Declarations([path], osSep, gmodPath);
    var d := Declaration(path, osSep, gmodPath);
    assert ds == [d];
    assert ds[1..] == [];
    assert Present(ds) == (if d.Some? then [d.value] else []) + Present([]);
  }

  /** No declaration holds a newline, so each one fills exactly one script line. */
  lemma {:induction false} PresentSingleLine(ds: seq<Option<string>>)
    requires forall i :: 0 <= i < |ds| && ds[i].Some? ==> '\n' !in ds[i].value
    ensures forall d :: d in Present(ds) ==> '\n' !in d
  {
    if |ds| > 0 {
      PresentSingleLine(ds[1..]);
    }
  }

  lemma AcceptedSingleLine(paths: seq<string>, osSep: char, gmodPath: string)
    ensures forall d :: d in Accepted(paths, osSep, gmodPath) ==> '\n' !in d
  {
    PresentSingleLine(Declarations(paths, osSep, gmodPath));
  }
}
