/** Small facts about concatenation and slices. */
module Strings {
  lemma Assoc(a: string, b: string, c: string)
    ensures (a + b) + c == a + (b + c)
  {}

  lemma SplitAt(s: string, i: nat)
    requires i <= |s|
    ensures s[..i] + s[i..] == s
  {}

  lemma DropOfSum(a: string, b: string, n: nat)
    requires n <= |a| + |b|
    ensures (a + b)[n..] == if n <= |a| then a[n..] + b else b[n - |a|..]
  {}

  lemma LastApart<T>(a: seq<T>, b: seq<T>)
    requires b != []
    ensures (a + b)[..|a + b| - 1] == a + b[..|b| - 1] && (a + b)[|a + b| - 1] == b[|b| - 1]
    ensures a + b == (a + b[..|b| - 1]) + [b[|b| - 1]]
  {}

  lemma AddNothing<T>(a: seq<T>)
    ensures a + [] == a
  {}

  lemma CutAfter(before: string, a: string, b: string, n: nat)
    requires n <= |b|
    ensures before + (a + b)[..|a| + n] == (before + a) + b[..n]
    ensures (a + b)[|a| + n..] == b[n..]
    ensures a[..|a|] == a && a[|a|..] == "" && "" + b == b
  {}

  lemma Middle(a: string, b: string, c: string)
    ensures ((a + b) + c)[|a|..|a| + |b|] == b
  {}

  lemma Rejoin(a: string, s: string, n: nat)
    requires n <= |s|
    ensures (a + s[..n]) + s[n..] == a + s
  {
    assert s[..n] + s[n..] == s;
  }

  lemma CutBefore(s: string, e: nat, t: string)
    requires e < |s|
    ensures (s + t)[e..] == [s[e]] + s[e + 1..] + t
  {}

  lemma FirstAndRest(s: string, n: nat)
    requires 0 < n <= |s|
    ensures s[1..][n - 1..] == s[n..] && s[..n] == [s[0]] + s[1..][..n - 1]
  {}
}
