/** Sequence helpers shared by the model: an Option type, order-preserving
    filtering, Python's prefix slice `s[:k]`, reversal and distinctness. */
module Common {

  datatype Option<+T> = None | Some(value: T)

  /** Python's `s[:k]`: a negative `k` counts from the end, a large `k` clamps. */
  function SliceLen(n: nat, k: int): (m: nat)
    ensures m <= n
    ensures 0 <= k ==> (m == k || (m == n && n < k))
    ensures k < 0 ==> (m + -k == n || (m == 0 && n <= -k))
  {
    if 0 <= k then (if k < n then k else n)
    else if n + k > 0 then n + k else 0
  }

  function Prefix<T>(s: seq<T>, k: int): (r: seq<T>)
    ensures |r| == SliceLen(|s|, k)
    ensures r <= s
  {
    s[..SliceLen(|s|, k)]
  }

  /** Python's `s[::-1]`. */
  function Reverse<T>(s: seq<T>): (r: seq<T>)
    ensures |r| == |s|
    ensures forall i :: 0 <= i < |s| ==> r[i] == s[|s| - 1 - i]
  {
    seq(|s|, i requires 0 <= i < |s| => s[|s| - 1 - i])
  }

  /** `[f(x) for x in s]` */
  function MapSeq<A, B>(s: seq<A>, f: A -> B): (r: seq<B>)
    ensures |r| == |s|
    ensures forall j :: 0 <= j < |s| ==> r[j] == f(s[j])
  {
    seq(|s|, j requires 0 <= j < |s| => f(s[j]))
  }

  lemma MapSeqAppend<A, B>(s: seq<A>, x: A, f: A -> B)
    ensures MapSeq(s + [x], f) == MapSeq(s, f) + [f(x)]
  {
  }

  predicate Distinct<T(==)>(s: seq<T>) {
    forall i, j :: 0 <= i < j < |s| ==> s[i] != s[j]
  }

  /** The elements of `s` that satisfy `keep`, in their original order
      (a Python list built by `append` inside an `if`). */
  function Filter<T(==,!new)>(s: seq<T>, keep: T -> bool): (r: seq<T>)
    ensures |r| <= |s|
    ensures forall x :: x in r <==> x in s && keep(x)
    ensures forall j :: 0 <= j < |r| ==> keep(r[j])
  {
    if |s| == 0 then []
    else
      var front := Filter(s[..|s| - 1], keep);
      var last := s[|s| - 1];
      assert forall x :: x in s <==> x in s[..|s| - 1] || x == last by {
        assert s == s[..|s| - 1] + [last];
      }
      front + (if keep(last) then [last] else [])
  }

  lemma FilterAppend<T(!new)>(s: seq<T>, x: T, keep: T -> bool)
    ensures Filter(s + [x], keep) == Filter(s, keep) + (if keep(x) then [x] else [])
  {
    assert (s + [x])[..|s|] == s;
  }

  /** `a` can be obtained from `b` by deleting elements (order preserved).
      Matching greedily from the end is complete for subsequences. */
  predicate IsSubsequence<T(==)>(a: seq<T>, b: seq<T>)
    decreases |b|
  {
    if |a| == 0 then true
    else if |b| == 0 then false
    else if a[|a| - 1] == b[|b| - 1] then IsSubsequence(a[..|a| - 1], b[..|b| - 1])
    else IsSubsequence(a, b[..|b| - 1])
  }

  /** Filtering keeps the survivors in their original relative order. */
  lemma {:induction false} FilterIsSubsequence<T(!new)>(s: seq<T>, keep: T -> bool)
    ensures IsSubsequence(Filter(s, keep), s)
    decreases |s|
  {
    if |s| == 0 {
    } else {
      var init := s[..|s| - 1];
      var last := s[|s| - 1];
      FilterIsSubsequence(init, keep);
      assert init + [last] == s;
      if keep(last) {
        var f := Filter(init, keep) + [last];
        assert f[..|f| - 1] == Filter(init, keep);
      } else {
        // the last survivor satisfies `keep`, so it cannot be `last`
        var f := Filter(init, keep);
        assert Filter(s, keep) == f;
        if |f| > 0 {
          assert f[|f| - 1] != s[|s| - 1];
          assert IsSubsequence(f, s) == IsSubsequence(f, init);
        }
      }
    }
  }
}
