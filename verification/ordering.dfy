/**
 * `ORDER BY key DESC` and `LIMIT n`, as the SQL of the listing endpoints uses them.
 * The sort is a stable insertion sort: rows with equal keys keep their store order,
 * one of the orders the database is free to choose.
 */
module Ordering {

  predicate SortedDesc<T>(s: seq<T>, key: T -> int)
  {
    forall i, j :: 0 <= i < j < |s| ==> key(s[i]) >= key(s[j])
  }

  function InsertDesc<T>(x: T, s: seq<T>, key: T -> int): (r: seq<T>)
    requires SortedDesc(s, key)
    ensures SortedDesc(r, key)
    ensures multiset(r) == multiset(s) + multiset{x}
  {
    if |s| == 0 then [x]
    else if key(x) >= key(s[0]) then [x] + s
    else
      var rest := InsertDesc(x, s[1..], key);
      assert s == [s[0]] + s[1..];
      assert forall k :: 0 <= k < |rest| ==> key(rest[k]) <= key(s[0]) by {
        forall k | 0 <= k < |rest|
          ensures key(rest[k]) <= key(s[0])
        {
          assert rest[k] in multiset(rest);
          if rest[k] != x {
            assert rest[k] in multiset(s[1..]);
            var m :| 0 <= m < |s[1..]| && s[1..][m] == rest[k];
            assert s[m + 1] == rest[k];
          }
        }
      }
      [s[0]] + rest
  }

  /** A permutation of `s` with keys in non-increasing order. */
  function SortDesc<T>(s: seq<T>, key: T -> int): (r: seq<T>)
    ensures SortedDesc(r, key)
    ensures multiset(r) == multiset(s)
    ensures |r| == |s|
  {
    if |s| == 0 then []
    else
      assert s == [s[0]] + s[1..];
      InsertDesc(s[0], SortDesc(s[1..], key), key)
  }

  /** SQL `LIMIT n`: the first `n` elements, or all of them when there are fewer. */
  function Take<T>(s: seq<T>, n: nat): (r: seq<T>)
    ensures |r| == if |s| <= n then |s| else n
    ensures r == s[..|r|]
  {
    if |s| <= n then s else s[..n]
  }

  /** SQL `LIMIT n OFFSET k`: skip `k` elements, then take at most `n`. */
  function Page<T>(s: seq<T>, offset: nat, n: nat): (r: seq<T>)
    ensures |r| <= n
    ensures offset >= |s| ==> r == []
    ensures offset < |s| ==> r == Take(s[offset..], n)
  {
    if offset >= |s| then [] else Take(s[offset..], n)
  }

  /** Taking a prefix of a sorted sequence keeps it sorted and keeps its largest keys. */
  lemma TakeKeepsLargest<T>(s: seq<T>, n: nat, key: T -> int)
    requires SortedDesc(s, key)
    ensures SortedDesc(Take(s, n), key)
    ensures multiset(Take(s, n)) <= multiset(s)
    ensures forall x, y :: x in multiset(Take(s, n)) && y in multiset(s) - multiset(Take(s, n))
                           ==> key(x) >= key(y)
  {
    var t := Take(s, n);
    var rest := s[|t|..];
    assert s == t + rest;
    assert multiset(s) == multiset(t) + multiset(rest);
    forall x, y | x in multiset(t) && y in multiset(s) - multiset(t)
      ensures key(x) >= key(y)
    {
      assert y in multiset(rest);
      var i :| 0 <= i < |t| && t[i] == x;
      var j :| 0 <= j < |rest| && rest[j] == y;
      assert s[i] == x && s[|t| + j] == y;
    }
  }

  /** A page of a sorted sequence is sorted and drawn from it. */
  lemma PageKeepsOrder<T>(s: seq<T>, offset: nat, n: nat, key: T -> int)
    requires SortedDesc(s, key)
    ensures SortedDesc(Page(s, offset, n), key)
    ensures multiset(Page(s, offset, n)) <= multiset(s)
  {
    if offset < |s| {
      assert s == s[..offset] + s[offset..];
      assert multiset(s) == multiset(s[..offset]) + multiset(s[offset..]);
      TakeKeepsLargest(s[offset..], n, key);
    }
  }
}
