/** Sequence helpers shared by the store read path and the recent-values panel:
    reversal (pandas `iloc[::-1]`, SQL `ORDER BY ... DESC` over ascending rows)
    and the SQLite `LIMIT` clause. */
module Seqs {

  /** The sequence read back to front. */
  function Reverse<T>(s: seq<T>): (r: seq<T>)
    ensures |r| == |s|
    ensures forall k :: 0 <= k < |s| ==> r[k] == s[|s| - 1 - k]
  {
    if s == [] then [] else Reverse(s[1..]) + [s[0]]
  }

  /** SQLite `LIMIT n`: at most the first `n` rows; a negative `n` means no bound. */
  function Limit<T>(s: seq<T>, n: int): (r: seq<T>)
    ensures n < 0 ==> r == s
    ensures 0 <= n ==> |r| == if n < |s| then n else |s|
    ensures r <= s
  {
    if n < 0 || |s| <= n then s else s[..n]
  }

  lemma {:induction false} ReverseReverse<T>(s: seq<T>)
    ensures Reverse(Reverse(s)) == s
  {
    var r := Reverse(Reverse(s));
    assert |r| == |s|;
    forall k | 0 <= k < |s| ensures r[k] == s[k] {
      assert r[k] == Reverse(s)[|s| - 1 - k];
    }
  }

  /** Taking the first `k` of the reversed sequence and reversing back gives the last `k`. */
  lemma {:induction false} ReversePrefixIsSuffix<T>(s: seq<T>, k: nat)
    requires k <= |s|
    ensures Reverse(Reverse(s)[..k]) == s[|s| - k..]
  {
    var r := Reverse(Reverse(s)[..k]);
    var t := s[|s| - k..];
    assert |r| == k == |t|;
    forall i | 0 <= i < k ensures r[i] == t[i] {
      assert r[i] == Reverse(s)[..k][k - 1 - i];
      assert Reverse(s)[k - 1 - i] == s[|s| - 1 - (k - 1 - i)];
    }
  }
}
