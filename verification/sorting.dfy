/** Insertion sort under a total preorder. It serves both the default
    string sort of `Array.prototype.sort` and the `ORDER BY ... ASC` of the
    worker's queries: the result is an ascending permutation of the input. */
module Sorting {

  /** Any two values are ordered one way or the other. */
  ghost predicate Total<T(!new)>(le: (T, T) -> bool) {
    forall a, b :: le(a, b) || le(b, a)
  }

  ghost predicate Transitive<T(!new)>(le: (T, T) -> bool) {
    forall a, b, c :: le(a, b) && le(b, c) ==> le(a, c)
  }

  ghost predicate SortedBy<T>(s: seq<T>, le: (T, T) -> bool) {
    forall i, j :: 0 <= i < j < |s| ==> le(s[i], s[j])
  }

  /** `x` placed into the sorted `s` before the first element it does not
      follow. */
  function Insert<T(!new)>(x: T, s: seq<T>, le: (T, T) -> bool): (r: seq<T>)
    requires Total(le) && Transitive(le) && SortedBy(s, le)
    ensures SortedBy(r, le)
    ensures multiset(r) == multiset(s) + multiset{x}
    decreases |s|
  {
    if s == [] then [x]
    else if le(x, s[0]) then
      BelowHead(x, s, le);
      [x] + s
    else
      var tail := Insert(x, s[1..], le);
      assert s == [s[0]] + s[1..];
      ConsSorted(s[0], x, s[1..], tail, le);
      [s[0]] + tail
  }

  /** A value not above the head of a sorted list can go in front of it. */
  lemma BelowHead<T(!new)>(x: T, s: seq<T>, le: (T, T) -> bool)
    requires Transitive(le) && SortedBy(s, le) && s != [] && le(x, s[0])
    ensures SortedBy([x] + s, le)
  {
    forall j | 0 <= j < |s| ensures le(x, s[j]) {
      if j > 0 {
        assert le(s[0], s[j]);
      }
    }
    var r := [x] + s;
    forall i, j | 0 <= i < j < |r| ensures le(r[i], r[j]) {
      assert r[j] == s[j - 1];
      if i > 0 {
        assert r[i] == s[i - 1];
      }
    }
  }

  /** A head not above anything after it keeps a list sorted, when the rest
      is a sorted rearrangement of sorted `rest` plus `x`. */
  lemma ConsSorted<T>(h: T, x: T, rest: seq<T>, tail: seq<T>, le: (T, T) -> bool)
    requires SortedBy([h] + rest, le) && le(h, x)
    requires SortedBy(tail, le) && multiset(tail) == multiset(rest) + multiset{x}
    ensures SortedBy([h] + tail, le)
  {
    forall j | 0 <= j < |tail| ensures le(h, tail[j]) {
      assert tail[j] in multiset(tail);
      if tail[j] != x {
        assert tail[j] in multiset(rest);
        assert tail[j] in rest;
        var m :| 0 <= m < |rest| && rest[m] == tail[j];
        assert ([h] + rest)[0] == h && ([h] + rest)[m + 1] == rest[m];
        assert le(([h] + rest)[0], ([h] + rest)[m + 1]);
      }
    }
    var r := [h] + tail;
    forall i, j | 0 <= i < j < |r| ensures le(r[i], r[j]) {
      assert r[j] == tail[j - 1];
      if i > 0 {
        assert r[i] == tail[i - 1];
      }
    }
  }

  /** The values of `s`, in ascending order. */
  function Sort<T(!new)>(s: seq<T>, le: (T, T) -> bool): (r: seq<T>)
    requires Total(le) && Transitive(le)
    ensures SortedBy(r, le)
    ensures multiset(r) == multiset(s)
    ensures |r| == |s|
  {
    if s == [] then []
    else
      assert s == [s[0]] + s[1..];
      var r := Insert(s[0], Sort(s[1..], le), le);
      assert |r| == |multiset(r)|;
      r
  }
}
