/**
 * `Array.prototype.filter` on sequences, with its meaning proved: the result
 * is the order-preserving subsequence of the elements that pass the test,
 * and it is the only such subsequence that keeps all of them.
 */
module Seqs {

  /** `r` is obtained from `s` by deleting some elements, keeping the order
      of the rest. */
  ghost predicate IsSubsequence<T>(r: seq<T>, s: seq<T>)
    decreases |s|
  {
    if r == [] then true
    else if s == [] then false
    else (r[0] == s[0] && IsSubsequence(r[1..], s[1..])) || IsSubsequence(r, s[1..])
  }

  /** `s.filter(keep)`: a subsequence of `s` whose elements all pass, in
      which every passing element occurs as often as in `s` and no failing
      element occurs at all. */
  function Filter<T(!new)>(s: seq<T>, keep: T -> bool): (r: seq<T>)
    ensures |r| <= |s|
    ensures forall i :: 0 <= i < |r| ==> keep(r[i])
    ensures forall x :: multiset(r)[x] == if keep(x) then multiset(s)[x] else 0
    ensures IsSubsequence(r, s)
  {
    if s == [] then []
    else
      assert s == [s[0]] + s[1..];
      if keep(s[0]) then [s[0]] + Filter(s[1..], keep)
      else Filter(s[1..], keep)
  }

  lemma {:induction false} SubsequenceOfKeptIsShorter<T(!new)>(r: seq<T>, s: seq<T>, keep: T -> bool)
    requires IsSubsequence(r, s)
    requires forall x :: x in r ==> keep(x)
    ensures |r| <= |Filter(s, keep)|
    decreases |s|
  {
    if r != [] {
      if r[0] == s[0] && IsSubsequence(r[1..], s[1..]) {
        assert forall x :: x in r[1..] ==> x in r;
        SubsequenceOfKeptIsShorter(r[1..], s[1..], keep);
        assert keep(s[0]);
      } else {
        SubsequenceOfKeptIsShorter(r, s[1..], keep);
      }
    }
  }

  /** `Filter` is characterised by its three properties: any subsequence of
      `s` whose elements all pass `keep` and that is as long as the filtered
      sequence is the filtered sequence. */
  lemma {:induction false} FilterUnique<T(!new)>(r: seq<T>, s: seq<T>, keep: T -> bool)
    requires IsSubsequence(r, s)
    requires forall x :: x in r ==> keep(x)
    requires |r| == |Filter(s, keep)|
    ensures r == Filter(s, keep)
    decreases |s|
  {
    if r != [] {
      assert s != [];
      assert forall x :: x in r[1..] ==> x in r;
      if keep(s[0]) {
        if r[0] == s[0] && IsSubsequence(r[1..], s[1..]) {
          FilterUnique(r[1..], s[1..], keep);
          assert r == [r[0]] + r[1..];
        } else {
          SubsequenceOfKeptIsShorter(r, s[1..], keep);
          assert false;
        }
      } else {
        assert !(r[0] == s[0]) by { assert keep(r[0]); }
        FilterUnique(r, s[1..], keep);
      }
    }
  }

  /** Filtering keeps the whole sequence exactly when every element passes. */
  lemma {:induction false} FilterKeepsAllIff<T(!new)>(s: seq<T>, keep: T -> bool)
    ensures Filter(s, keep) == s <==> forall x :: x in s ==> keep(x)
    decreases |s|
  {
    if s != [] {
      FilterKeepsAllIff(s[1..], keep);
      if forall x :: x in s ==> keep(x) {
        assert forall x :: x in s[1..] ==> x in s;
        assert [s[0]] + s[1..] == s;
      }
    }
  }

  lemma {:induction false} FilterConcat<T(!new)>(a: seq<T>, b: seq<T>, keep: T -> bool)
    ensures Filter(a + b, keep) == Filter(a, keep) + Filter(b, keep)
    decreases |a|
  {
    if a == [] {
      assert a + b == b;
    } else {
      assert (a + b)[1..] == a[1..] + b;
      FilterConcat(a[1..], b, keep);
    }
  }

  /** Filtering twice with the same test is filtering once. */
  lemma {:induction false} FilterIdempotent<T(!new)>(s: seq<T>, keep: T -> bool)
    ensures Filter(Filter(s, keep), keep) == Filter(s, keep)
    decreases |s|
  {
    if s != [] {
      FilterIdempotent(s[1..], keep);
      if keep(s[0]) {
        assert ([s[0]] + Filter(s[1..], keep))[1..] == Filter(s[1..], keep);
      }
    }
  }

  /** When exactly the element at `k` fails the test, filtering deletes
      that one position and keeps the rest in order. */
  lemma {:induction false} FilterDropsOnlyAt<T(!new)>(s: seq<T>, k: int, keep: T -> bool)
    requires 0 <= k < |s|
    requires !keep(s[k])
    requires forall i :: 0 <= i < |s| && i != k ==> keep(s[i])
    ensures Filter(s, keep) == s[..k] + s[k + 1..]
    decreases |s|
  {
    var tail := s[1..];
    assert forall i :: 0 <= i < |tail| ==> tail[i] == s[i + 1];
    if k == 0 {
      KeepsAll(tail, keep);
      assert s[..0] + s[1..] == tail;
    } else {
      assert keep(s[0]);
      FilterDropsOnlyAt(tail, k - 1, keep);
      ConsWithout(s, k);
    }
  }

  /** Deleting position `k > 0` commutes with splitting off the head. */
  lemma ConsWithout<T>(s: seq<T>, k: int)
    requires 0 < k < |s|
    ensures [s[0]] + (s[1..][..k - 1] + s[1..][k..]) == s[..k] + s[k + 1..]
  {
    assert [s[0]] + s[1..][..k - 1] == s[..k];
    assert s[1..][k..] == s[k + 1..];
  }

  lemma {:induction false} KeepsAll<T(!new)>(s: seq<T>, keep: T -> bool)
    requires forall i :: 0 <= i < |s| ==> keep(s[i])
    ensures Filter(s, keep) == s
    decreases |s|
  {
    if s != [] {
      KeepsAll(s[1..], keep);
      assert [s[0]] + s[1..] == s;
    }
  }

  /** Every element passes exactly one of two complementary tests, so the
      two filtered lengths add up to the whole length. */
  lemma {:induction false} FilterPartition<T(!new)>(s: seq<T>, keep: T -> bool, drop: T -> bool)
    requires forall x :: drop(x) == !keep(x)
    ensures |Filter(s, keep)| + |Filter(s, drop)| == |s|
    decreases |s|
  {
    if s != [] {
      FilterPartition(s[1..], keep, drop);
    }
  }
}
