/** The pieces of Go's `strings` package (and the character classes of its
    `regexp` package) that the FastDL generator calls, as pure functions. */
module Strings {

  datatype Option<T> = None | Some(value: T)

  predicate StartsWith(s: string, prefix: string) {
    |prefix| <= |s| && s[..|prefix|] == prefix
  }

  predicate EndsWith(s: string, suffix: string) {
    |suffix| <= |s| && s[|s| - |suffix|..] == suffix
  }

  /** The class `\d` of Go's regexp syntax: ASCII digits only. */
  predicate IsDigit(c: char) {
    '0' <= c <= '9'
  }

  predicate AllDigits(s: string) {
    forall k :: 0 <= k < |s| ==> IsDigit(s[k])
  }

  /** Regrouping a concatenation; stated once so that long proofs need not rediscover it. */
  lemma ConcatAssoc<T>(a: seq<T>, b: seq<T>, c: seq<T>)
    ensures (a + b) + c == a + (b + c)
  {
  }

  /** `strings.TrimPrefix(s, prefix)`: removes one leading copy of `prefix`, if present. */
  function TrimPrefix(s: string, prefix: string): (r: string)
    ensures StartsWith(s, prefix) ==> prefix + r == s
    ensures !StartsWith(s, prefix) ==> r == s
  {
    if StartsWith(s, prefix) then s[|prefix|..] else s
  }

  /** `strings.Replace(s, string(from), string(to), -1)` for one-character `from` and `to`:
      every occurrence of `from` becomes `to`, everything else stays where it is. */
  function ReplaceChar(s: string, from: char, to: char): (r: string)
    ensures |r| == |s|
    ensures forall i :: 0 <= i < |s| ==> r[i] == (if s[i] == from then to else s[i])
  {
    if |s| == 0 then [] else [if s[0] == from then to else s[0]] + ReplaceChar(s[1..], from, to)
  }

  lemma ReplaceCharRemoves(s: string, from: char, to: char)
    requires from != to
    ensures from !in ReplaceChar(s, from, to)
  {
    var r := ReplaceChar(s, from, to);
    assert forall i :: 0 <= i < |r| ==> r[i] != from;
  }

  /** A replacement that finds nothing to change leaves the text as it was. */
  lemma ReplaceCharNoop(s: string, from: char, to: char)
    requires from == to || from !in s
    ensures ReplaceChar(s, from, to) == s
  {
    var r := ReplaceChar(s, from, to);
    forall i | 0 <= i < |s| ensures r[i] == s[i] {
      assert r[i] == (if s[i] == from then to else s[i]);
    }
  }

  /** Replacing distributes over concatenation. */
  lemma {:induction false} ReplaceCharAppend(a: string, b: string, from: char, to: char)
    ensures ReplaceChar(a + b, from, to) == ReplaceChar(a, from, to) + ReplaceChar(b, from, to)
  {
    if |a| == 0 {
      assert a + b == b;
    } else {
      var head := [if a[0] == from then to else a[0]];
      assert (a + b)[0] == a[0] && (a + b)[1..] == a[1..] + b;
      assert ReplaceChar(a + b, from, to) == head + ReplaceChar(a[1..] + b, from, to);
      ReplaceCharAppend(a[1..], b, from, to);
      ConcatAssoc(head, ReplaceChar(a[1..], from, to), ReplaceChar(b, from, to));
    }
  }

  /** `strings.Replace(s, string(c), "", -1)`: deletes every occurrence of `c`. */
  function RemoveChar(s: string, c: char): (r: string)
    ensures c !in r
    ensures |r| <= |s|
    ensures forall x :: x in r ==> x in s
  {
    if |s| == 0 then [] else (if s[0] == c then [] else [s[0]]) + RemoveChar(s[1..], c)
  }

  /** Deleting distributes over concatenation: the characters that remain keep their order. */
  lemma {:induction false} RemoveCharAppend(a: string, b: string, c: char)
    ensures RemoveChar(a + b, c) == RemoveChar(a, c) + RemoveChar(b, c)
  {
    if |a| == 0 {
      assert a + b == b;
    } else {
      var head := if a[0] == c then [] else [a[0]];
      assert (a + b)[0] == a[0] && (a + b)[1..] == a[1..] + b;
      assert RemoveChar(a + b, c) == head + RemoveChar(a[1..] + b, c);
      RemoveCharAppend(a[1..], b, c);
      ConcatAssoc(head, RemoveChar(a[1..], c), RemoveChar(b, c));
    }
  }

  /** Deleting `c` changes nothing exactly when `c` does not occur. */
  lemma {:induction false} RemoveCharUnchanged(s: string, c: char)
    ensures RemoveChar(s, c) == s <==> c !in s
  {
    if |s| > 0 {
      RemoveCharUnchanged(s[1..], c);
      if c !in s {
        assert c !in s[1..];
      }
    }
  }

  /** Everything before the first `c` (all of `s` when `c` does not occur). */
  function TakeUntil(s: string, c: char): (r: string)
    ensures StartsWith(s, r) && c !in r
    ensures |r| < |s| ==> s[|r|] == c
  {
    if |s| == 0 || s[0] == c then [] else [s[0]] + TakeUntil(s[1..], c)
  }

  /** The text before a delimiter that does not occur earlier is exactly what `TakeUntil` returns. */
  lemma {:induction false} TakeUntilDelimited(a: string, c: char, b: string)
    requires c !in a
    ensures TakeUntil(a + [c] + b, c) == a
  {
    var s := a + [c] + b;
    if |a| > 0 {
      assert s[1..] == a[1..] + [c] + b;
      TakeUntilDelimited(a[1..], c, b);
      assert [a[0]] + a[1..] == a;
    }
  }

  lemma {:induction false} TakeUntilAbsent(s: string, c: char)
    requires c !in s
    ensures TakeUntil(s, c) == s
  {
    if |s| > 0 {
      TakeUntilAbsent(s[1..], c);
      assert [s[0]] + s[1..] == s;
    }
  }
}
