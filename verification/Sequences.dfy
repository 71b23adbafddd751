/** Facts about sequences that the verifier needs to be told. */
module Sequences {

  lemma Grouped<T>(a: seq<T>, b: seq<T>, d: seq<T>)
    ensures a + b + d == a + (b + d)
  {
  }

  /** What is in front of `v`, and what is left of it behind its first `k` items. */
  lemma Parts<T>(u: seq<T>, v: seq<T>, k: nat)
    requires k <= |v|
    ensures (u + v)[..|u|] == u && (u + v)[|u| + k..] == v[k..]
  {
  }

  lemma CutAt<T>(s: seq<T>, i: nat)
    requires i < |s|
    ensures s == s[..i] + ([s[i]] + s[i + 1..])
  {
  }

  lemma LastApart<T>(s: seq<T>)
    requires s != []
    ensures s == s[..|s| - 1] + [s[|s| - 1]]
  {
  }

  lemma FirstApart<T>(s: seq<T>)
    requires s != []
    ensures s == [s[0]] + s[1..]
  {
  }

  lemma Cons<T>(x: T, s: seq<T>)
    ensures ([x] + s)[0] == x && ([x] + s)[1..] == s
  {
  }

  lemma RestOfSum<T>(s: seq<T>, t: seq<T>)
    requires s != []
    ensures (s + t)[0] == s[0] && (s + t)[1..] == s[1..] + t
  {
  }

  lemma Halves<T>(s: seq<T>, n: nat)
    requires n <= |s|
    ensures s[..n] + s[n..] == s
  {
  }

  function Concat<T>(chunks: seq<seq<T>>): seq<T> {
    if chunks == [] then [] else chunks[0] + Concat(chunks[1..])
  }

  /** What `%s` copies of a text: everything before the first NUL. */
  function UntilNul<T(==)>(s: seq<T>, nul: T): (t: seq<T>)
    ensures |t| <= |s| && t == s[..|t|] && nul !in t
    ensures |t| < |s| ==> s[|t|] == nul
  {
    if s == [] || s[0] == nul then [] else [s[0]] + UntilNul(s[1..], nul)
  }

  lemma UntilNulId<T>(s: seq<T>, nul: T)
    ensures UntilNul(s, nul) == s <==> nul !in s
  {
  }
}
