/** Facts about sequence concatenation and slicing that the proofs of the other
    modules use, stated once for any element type. */
module Seqs {

  lemma AppendAssociates<T>(a: seq<T>, b: seq<T>, c: seq<T>)
    ensures (a + b) + c == a + (b + c)
  {
  }

  lemma TakeSnoc<T>(s: seq<T>, j: nat)
    requires j < |s|
    ensures s[..j + 1] == s[..j] + [s[j]]
  {
  }

  lemma SliceJoin<T>(s: seq<T>, n: nat, m: nat)
    requires n <= m <= |s|
    ensures s[..n] + s[n..m] == s[..m]
  {
  }

  lemma SliceOfAppend<T>(f: seq<T>, u: seq<T>, n: nat, m: nat)
    requires |f| <= n <= m <= |f| + |u|
    ensures (f + u)[..n] == f + u[..n - |f|]
    ensures (f + u)[n..m] == u[n - |f|..m - |f|]
  {
  }

  lemma SuffixOfSuffix<T>(s: seq<T>, k: nat, n: nat)
    requires k + n <= |s|
    ensures s[k..][|s| - k - n..] == s[|s| - n..]
  {
  }

  lemma AppendNil<T>(s: seq<T>)
    ensures s + [] == s && [] + s == s
  {
  }

  lemma ConsAppend<T>(ps: seq<T>, xs: seq<T>)
    ensures ps != [] ==> [ps[0]] + (ps[1..] + xs) == ps + xs
    ensures ps == [] ==> ps + xs == xs
  {
    if ps != [] {
      assert ps == [ps[0]] + ps[1..];
    }
  }
}
