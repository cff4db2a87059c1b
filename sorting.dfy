/** Rust's stable `sort_by`, as insertion sort: each element in turn is placed
    after every earlier element that is not greater than it. Sorting by
    position and by brightness in the pixel sorter, and by name in the
    modifier registry, all go through this. */
module Sorting {

  /** A comparator `le` ("less or equal") that orders every pair and chains. */
  ghost predicate TotalPreorder<T(!new)>(le: (T, T) -> bool)
  {
    (forall a, b :: le(a, b) || le(b, a)) &&
    (forall a, b, c :: le(a, b) && le(b, c) ==> le(a, c))
  }

  predicate SortedBy<T>(s: seq<T>, le: (T, T) -> bool)
  {
    forall i, j :: 0 <= i < j < |s| ==> le(s[i], s[j])
  }

  /** Insert `x` after the longest prefix of elements not greater than it. */
  function InsertBy<T>(s: seq<T>, x: T, le: (T, T) -> bool): (r: seq<T>)
    ensures |r| == |s| + 1
    ensures multiset(r) == multiset(s) + multiset{x}
  {
    if s == [] then [x]
    else if le(s[0], x) then
      assert s == [s[0]] + s[1..];
      [s[0]] + InsertBy(s[1..], x, le)
    else [x] + s
  }

  /** The stable sort of `s`. */
  function SortBy<T>(s: seq<T>, le: (T, T) -> bool): (r: seq<T>)
    ensures |r| == |s|
    ensures multiset(r) == multiset(s)
  {
    if s == [] then []
    else
      assert s == s[..|s| - 1] + [s[|s| - 1]];
      InsertBy(SortBy(s[..|s| - 1], le), s[|s| - 1], le)
  }

  lemma {:induction false} InsertSorted<T(!new)>(s: seq<T>, x: T, le: (T, T) -> bool)
    requires TotalPreorder(le)
    requires SortedBy(s, le)
    ensures SortedBy(InsertBy(s, x, le), le)
  {
    if s != [] && le(s[0], x) {
      InsertSorted(s[1..], x, le);
      var r := InsertBy(s, x, le);
      var t := InsertBy(s[1..], x, le);
      assert r == [s[0]] + t;
      forall j | 0 < j < |r|
        ensures le(r[0], r[j])
      {
        assert r[j] in multiset(t);
        assert r[j] in multiset(s[1..]) + multiset{x};
        if r[j] != x {
          var k :| 0 <= k < |s[1..]| && s[1..][k] == r[j];
          assert s[1..][k] == s[k + 1];
        }
      }
    } else if s != [] {
      var r := [x] + s;
      forall i, j | 0 <= i < j < |r|
        ensures le(r[i], r[j])
      {
        if i == 0 {
          assert le(s[j - 1], s[0]) || le(s[0], s[j - 1]);
          assert le(x, s[0]);
          if j - 1 > 0 {
            assert le(s[0], s[j - 1]);
          }
        }
      }
    }
  }

  /** `sort_by` returns a sorted permutation of its input. */
  lemma {:induction false} SortBySorted<T(!new)>(s: seq<T>, le: (T, T) -> bool)
    requires TotalPreorder(le)
    ensures SortedBy(SortBy(s, le), le)
  {
    if s != [] {
      SortBySorted(s[..|s| - 1], le);
      InsertSorted(SortBy(s[..|s| - 1], le), s[|s| - 1], le);
    }
  }

  /** Inserting an element no smaller than every element appends it. */
  lemma {:induction false} InsertLast<T>(s: seq<T>, x: T, le: (T, T) -> bool)
    requires forall i :: 0 <= i < |s| ==> le(s[i], x)
    ensures InsertBy(s, x, le) == s + [x]
  {
    if s != [] {
      InsertLast(s[1..], x, le);
      assert [s[0]] + (s[1..] + [x]) == s + [x];
    }
  }

  /** Sorting an already sorted sequence changes nothing (stability). */
  lemma {:induction false} SortSortedIdentity<T>(s: seq<T>, le: (T, T) -> bool)
    requires SortedBy(s, le)
    ensures SortBy(s, le) == s
  {
    if s != [] {
      var n := |s| - 1;
      SortSortedIdentity(s[..n], le);
      InsertLast(s[..n], s[n], le);
      assert s[..n] + [s[n]] == s;
    }
  }

  /** Pushing onto a sorted sequence and sorting again is insertion. */
  lemma PushSort<T>(s: seq<T>, x: T, le: (T, T) -> bool)
    requires SortedBy(s, le)
    ensures SortBy(s + [x], le) == InsertBy(s, x, le)
  {
    assert (s + [x])[..|s|] == s;
    SortSortedIdentity(s, le);
  }
}
