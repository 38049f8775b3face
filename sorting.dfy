/**
 * LINQ's `OrderBy` / `OrderByDescending` as a stable insertion sort over a
 * "may come before" relation: an element is inserted ahead of the first
 * element it may precede, so of two equivalent elements the earlier one stays
 * first.
 */
module Sorting {

  /** `le` is total and transitive: a sort key comparison. */
  ghost predicate TotalPreorder<T(!new)>(le: (T, T) -> bool)
  {
    && (forall a, b :: le(a, b) || le(b, a))
    && (forall a, b, c :: le(a, b) && le(b, c) ==> le(a, c))
  }

  ghost predicate Sorted<T>(s: seq<T>, le: (T, T) -> bool)
  {
    forall i, j :: 0 <= i < j < |s| ==> le(s[i], s[j])
  }

  function Insert<T>(x: T, s: seq<T>, le: (T, T) -> bool): (r: seq<T>)
    ensures |r| == |s| + 1
    ensures multiset(r) == multiset(s) + multiset{x}
  {
    if |s| == 0 then [x]
    else if le(x, s[0]) then [x] + s
    else
      assert s == [s[0]] + s[1..];
      [s[0]] + Insert(x, s[1..], le)
  }

  function OrderBy<T>(s: seq<T>, le: (T, T) -> bool): (r: seq<T>)
    ensures |r| == |s|
    ensures multiset(r) == multiset(s)
  {
    if |s| == 0 then []
    else
      assert s == [s[0]] + s[1..];
      Insert(s[0], OrderBy(s[1..], le), le)
  }

  lemma {:induction false} InsertSorted<T(!new)>(x: T, s: seq<T>, le: (T, T) -> bool)
    requires TotalPreorder(le)
    requires Sorted(s, le)
    ensures Sorted(Insert(x, s, le), le)
  {
    if |s| == 0 {
    } else if le(x, s[0]) {
      var r := [x] + s;
      forall i, j | 0 <= i < j < |r| ensures le(r[i], r[j]) {
        if i == 0 {
          if j > 1 { assert le(s[0], s[j - 1]); }
        } else {
          assert le(s[i - 1], s[j - 1]);
        }
      }
    } else {
      var t := Insert(x, s[1..], le);
      InsertSorted(x, s[1..], le);
      assert le(s[0], x);
      forall k | 0 <= k < |t| ensures le(s[0], t[k]) {
        assert t[k] in multiset(t);
        if t[k] != x {
          assert t[k] in multiset(s[1..]);
          var m :| 0 <= m < |s[1..]| && s[1..][m] == t[k];
          assert le(s[0], s[m + 1]);
        }
      }
      var r := [s[0]] + t;
      forall i, j | 0 <= i < j < |r| ensures le(r[i], r[j]) {
        if i == 0 {
          assert r[j] == t[j - 1];
        } else {
          assert r[i] == t[i - 1] && r[j] == t[j - 1];
        }
      }
    }
  }

  /** The sort puts every element before each element it may precede. */
  lemma {:induction false} OrderBySorted<T(!new)>(s: seq<T>, le: (T, T) -> bool)
    requires TotalPreorder(le)
    ensures Sorted(OrderBy(s, le), le)
  {
    if |s| > 0 {
      OrderBySorted(s[1..], le);
      InsertSorted(s[0], OrderBy(s[1..], le), le);
    }
  }

  /**
   * `r` holds the first `n` elements of `s` under `le`: as many as fit, taken
   * from `s`, in order, and none of the elements left out may come before a
   * chosen one.
   */
  ghost predicate IsTop<T(!new)>(r: seq<T>, s: seq<T>, le: (T, T) -> bool, n: nat)
  {
    && |r| == (if n < |s| then n else |s|)
    && multiset(r) <= multiset(s)
    && Sorted(r, le)
    && forall x, y :: x in r && y in multiset(s) - multiset(r) ==> le(x, y)
  }

  /** In a sorted sequence every element of a prefix may come before every element after it. */
  lemma PrefixPrecedesRest<T>(t: seq<T>, le: (T, T) -> bool, k: nat)
    requires Sorted(t, le) && k <= |t|
    ensures forall x, y :: x in t[..k] && y in t[k..] ==> le(x, y)
  {
    forall x, y | x in t[..k] && y in t[k..] ensures le(x, y) {
      var i :| 0 <= i < k && t[..k][i] == x;
      var j :| 0 <= j < |t| - k && t[k..][j] == y;
      assert t[i] == x && t[k + j] == y;
    }
  }

  /** `OrderBy(le).Take(n)`. */
  function Top<T(!new)>(s: seq<T>, le: (T, T) -> bool, n: nat): (r: seq<T>)
    requires TotalPreorder(le)
    ensures IsTop(r, s, le, n)
    ensures r == OrderBy(s, le)[..|r|]
  {
    var t := OrderBy(s, le);
    OrderBySorted(s, le);
    var k := if n < |t| then n else |t|;
    PrefixPrecedesRest(t, le, k);
    assert t == t[..k] + t[k..];
    assert multiset(s) - multiset(t[..k]) == multiset(t[k..]);
    assert forall y :: y in multiset(t[k..]) ==> y in t[k..];
    t[..k]
  }
}
