/** The FastDL block assembled by gmodfastdl.go:94-109, and a parser for it that
    recovers the declared paths. */
module Script {
  import opened Strings
  import opened Normalize

  const Header: string := "if ( SERVER ) then\n"
  const Footer: string := "end"
  const DeclOpen: string := "    resource.AddFile('"
  const DeclClose: string := "')"

  /** One declaration line of the block (line 103). */
  function DeclarationLine(p: string): string {
    DeclOpen + p + DeclClose + "\n"
  }

  /** The declaration lines of `ps`, in order, one per element. */
  function Body(ps: seq<string>): string {
    if |ps| == 0 then "" else DeclarationLine(ps[0]) + Body(ps[1..])
  }

  /** The whole block: header, declarations, `end`. */
  function Block(ps: seq<string>): string {
    Header + Body(ps) + Footer
  }

  lemma {:induction false} BodyAppend(a: seq<string>, b: seq<string>)
    ensures Body(a + b) == Body(a) + Body(b)
  {
    if |a| == 0 {
      assert a + b == b;
    } else {
      assert (a + b)[0] == a[0] && (a + b)[1..] == a[1..] + b;
      assert Body(a + b) == DeclarationLine(a[0]) + Body(a[1..] + b);
      BodyAppend(a[1..], b);
      ConcatAssoc(DeclarationLine(a[0]), Body(a[1..]), Body(b));
    }
  }

  /** The loop of lines 94-109 over the collected paths. */
  method EmitBlock(fastdl: seq<string>, osSep: char, gmodPath: string) returns (fastdlString: string)
    ensures fastdlString == Block(Accepted(fastdl, osSep, gmodPath))
  {
    fastdlString := "if ( SERVER ) then\n";
    for i := 0 to |fastdl|
      invariant fastdlString == Header + Body(Accepted(fastdl[..i], osSep, gmodPath))
    {
      BodySnoc(fastdl, i, osSep, gmodPath);
      var path := fastdl[i];
      path := ReplaceChar(path, osSep, '/');
      path := ReplaceChar(path, '\\', '/');
      path := TrimPrefix(path, gmodPath + "/addons/");
      assert path == Normalized(fastdl[i], osSep, gmodPath);
      if !MatchesStaging(path) {
        var sm := SubmatchAfterSlash(path);
        if sm.Some? {
          ConcatAssoc(Header, Body(Accepted(fastdl[..i], osSep, gmodPath)), DeclarationLine(sm.value));
          var line := "    resource.AddFile('" + sm.value + "')\n";
          assert line == DeclarationLine(sm.value);
          fastdlString := fastdlString + line;
        }
      }
    }
    assert fastdl[..|fastdl|] == fastdl;
    fastdlString := fastdlString + "end";
  }

  /** What one more collected path adds to the body: its declaration line, or nothing. */
  lemma BodySnoc(paths: seq<string>, i: nat, osSep: char, gmodPath: string)
    requires i < |paths|
    ensures var d := Declaration(paths[i], osSep, gmodPath);
            Body(Accepted(paths[..i + 1], osSep, gmodPath)) ==
            Body(Accepted(paths[..i], osSep, gmodPath)) + if d.Some? then DeclarationLine(d.value) else ""
  {
    assert paths[..i + 1] == paths[..i] + [paths[i]];
    AcceptedSnoc(paths[..i], paths[i], osSep, gmodPath);
    var d := Declaration(paths[i], osSep, gmodPath);
    var added: seq<string> := if d.Some? then [d.value] else [];
    BodyAppend(Accepted(paths[..i], osSep, gmodPath), added);
    if d.Some? {
      assert added[1..] == [];
    }
  }

  /** The path inside one declaration line (its newline already removed). */
  function UnwrapLine(line: string): Option<string> {
    if |DeclOpen| + |DeclClose| <= |line| && StartsWith(line, DeclOpen) && EndsWith(line, DeclClose)
    then Some(line[|DeclOpen|..|line| - |DeclClose|])
    else None
  }

  /** Reads declaration lines back, each ended by a newline. */
  function ParseBody(s: string): Option<seq<string>>
    decreases |s|
  {
    if |s| == 0 then Some([])
    else
      var line := TakeUntil(s, '\n');
      if |line| == |s| then None
      else match (UnwrapLine(line), ParseBody(s[|line| + 1..]))
        case (Some(p), Some(ps)) => Some([p] + ps)
        case _ => None
  }

  /** Reads a whole block back. */
  function ParseBlock(s: string): Option<seq<string>> {
    if |Header| + |Footer| <= |s| && StartsWith(s, Header) && EndsWith(s, Footer)
    then ParseBody(s[|Header|..|s| - |Footer|])
    else None
  }

  lemma DeclarationLineSplit(p: string, rest: string)
    requires '\n' !in p
    ensures var s := DeclarationLine(p) + rest;
            TakeUntil(s, '\n') == DeclOpen + p + DeclClose &&
            s[|DeclOpen + p + DeclClose| + 1..] == rest &&
            UnwrapLine(DeclOpen + p + DeclClose) == Some(p)
  {
    var line := DeclOpen + p + DeclClose;
    assert '\n' !in line;
    assert DeclarationLine(p) + rest == line + ['\n'] + rest;
    TakeUntilDelimited(line, '\n', rest);
    assert line[..|DeclOpen|] == DeclOpen;
    assert line[|line| - |DeclClose|..] == DeclClose;
    assert line[|DeclOpen|..|line| - |DeclClose|] == p;
  }

  /** Stripping the `resource.AddFile('...')` wrapper from each body line gives back
      the declared paths, in order, with their repetitions. */
  lemma {:induction false} BodyRoundTrip(ps: seq<string>)
    requires forall p :: p in ps ==> '\n' !in p
    ensures ParseBody(Body(ps)) == Some(ps)
  {
    if |ps| > 0 {
      var rest := Body(ps[1..]);
      DeclarationLineSplit(ps[0], rest);
      BodyRoundTrip(ps[1..]);
      assert [ps[0]] + ps[1..] == ps;
    }
  }

  lemma BlockRoundTrip(ps: seq<string>)
    requires forall p :: p in ps ==> '\n' !in p
    ensures ParseBlock(Block(ps)) == Some(ps)
  {
    var s := Block(ps);
    assert s[..|Header|] == Header;
    assert s[|s| - |Footer|..] == Footer;
    assert s[|Header|..|s| - |Footer|] == Body(ps);
    BodyRoundTrip(ps);
  }

  /** The block the loop emits always parses back to the accepted declarations. */
  lemma EmittedBlockRoundTrip(fastdl: seq<string>, osSep: char, gmodPath: string)
    ensures ParseBlock(Block(Accepted(fastdl, osSep, gmodPath))) == Some(Accepted(fastdl, osSep, gmodPath))
  {
    AcceptedSingleLine(fastdl, osSep, gmodPath);
    BlockRoundTrip(Accepted(fastdl, osSep, gmodPath));
  }
}
