/** Small facts about sequences shared by the table and query models. */
module Seqs {

  /** No value occurs twice: what `.distinct()` and a unique constraint promise of a set of rows. */
  ghost predicate NoDuplicates<T>(s: seq<T>)
  {
    forall i, k :: 0 <= i < k < |s| ==> s[i] != s[k]
  }

  /** Appending a value that is not there yet keeps a sequence free of duplicates. */
  lemma AppendFreshKeepsNoDuplicates<T>(s: seq<T>, x: T)
    requires x !in s
    ensures NoDuplicates(s) ==> NoDuplicates(s + [x])
  {
    if NoDuplicates(s) {
      var r := s + [x];
      forall i, k | 0 <= i < k < |r| ensures r[i] != r[k] {
        if k == |s| {
          assert r[i] == s[i];
        }
      }
    }
  }

  function Min(a: int, b: int): int
  {
    if a <= b then a else b
  }

  /** `k` copies of `x`. */
  function Repeat<T>(x: T, k: nat): (r: seq<T>)
    ensures |r| == k
    ensures forall y :: y in r ==> y == x
    ensures k > 0 ==> x in r
  {
    assert k > 0 ==> seq(k, _ => x)[0] == x;
    seq(k, _ => x)
  }

  /** Python's slice `s[:n]`: the first `n` elements, or all of `s` when it is shorter. */
  function Take<T>(s: seq<T>, n: nat): (r: seq<T>)
    ensures |r| == Min(n, |s|)
    ensures r == s[..|r|]
  {
    if |s| <= n then s else s[..n]
  }
}
