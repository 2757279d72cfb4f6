/** The line cleanup of `Scanln` (gmodfastdl.go:192-201). The prompt and the read from
    standard input are not modelled: the line read, and whether the read failed, are
    given. */
module Input {
  import opened Strings

  predicate IsLineEnd(c: char) {
    c == '\n' || c == '\r'
  }

  /** Lines 198-199: every '\n' is deleted, then every '\r'. */
  function StripLineEnds(input: string): (r: string)
    ensures '\n' !in r && '\r' !in r
  {
    RemoveChar(RemoveChar(input, '\n'), '\r')
  }

  /** Reference definition: a single pass that keeps every character except line ends. */
  function KeepNonLineEnds(s: string): string {
    if |s| == 0 then [] else (if IsLineEnd(s[0]) then [] else [s[0]]) + KeepNonLineEnds(s[1..])
  }

  /** The two deletions together are exactly the single pass: all other characters stay,
      in their order. */
  lemma {:induction false} StripLineEndsKeepsOthers(s: string)
    ensures StripLineEnds(s) == KeepNonLineEnds(s)
  {
    if |s| > 0 {
      var c, t := s[0], s[1..];
      StripLineEndsKeepsOthers(t);
      var head := if c == '\n' then [] else [c];
      assert RemoveChar(s, '\n') == head + RemoveChar(t, '\n');
      RemoveCharAppend(head, RemoveChar(t, '\n'), '\r');
      if !IsLineEnd(c) {
        assert RemoveChar(head, '\r') == [c] by {
          assert head == [c] && head[1..] == [];
        }
      } else if c == '\r' {
        assert RemoveChar(head, '\r') == [] by {
          assert head == [c] && head[1..] == [];
        }
      }
    }
  }

  /** A line without line ends comes through unchanged, and only such a line does;
      in particular cleaning twice is cleaning once. */
  lemma StripLineEndsUnchanged(s: string)
    ensures StripLineEnds(s) == s <==> ('\n' !in s && '\r' !in s)
    ensures StripLineEnds(StripLineEnds(s)) == StripLineEnds(s)
  {
    RemoveCharUnchanged(s, '\n');
    RemoveCharUnchanged(s, '\r');
    var once := StripLineEnds(s);
    RemoveCharUnchanged(once, '\n');
    RemoveCharUnchanged(once, '\r');
  }

  /** `Scanln`: the empty string when the read failed, the cleaned line otherwise. */
  function Scanln(input: string, readFailed: bool): (r: string)
    ensures '\n' !in r && '\r' !in r
    ensures readFailed ==> r == ""
    ensures !readFailed ==> r == KeepNonLineEnds(input)
  {
    StripLineEndsKeepsOthers(input);
    if readFailed then "" else StripLineEnds(input)
  }
}
