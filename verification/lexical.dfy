/** The default ordering of JavaScript's `Array.prototype.sort` on strings:
    code point by code point, a proper prefix first. It is a total order, and
    `SortNames` is an insertion sort that yields a sorted permutation. */
module Lexical {
  import Sorting

  /** `a <= b` in lexical order. */
  predicate LexLe(a: string, b: string)
    decreases |a|
  {
    a == [] || (b != [] && (a[0] < b[0] || (a[0] == b[0] && LexLe(a[1..], b[1..]))))
  }

  lemma {:induction false} LexLeTotal(a: string, b: string)
    ensures LexLe(a, b) || LexLe(b, a)
    decreases |a|
  {
    if a != [] && b != [] && a[0] == b[0] {
      LexLeTotal(a[1..], b[1..]);
    }
  }

  lemma {:induction false} LexLeReflexive(a: string)
    ensures LexLe(a, a)
    decreases |a|
  {
    if a != [] {
      LexLeReflexive(a[1..]);
    }
  }

  lemma {:induction false} LexLeTransitive(a: string, b: string, c: string)
    requires LexLe(a, b) && LexLe(b, c)
    ensures LexLe(a, c)
    decreases |a|
  {
    if a != [] && a[0] == b[0] && b[0] == c[0] {
      LexLeTransitive(a[1..], b[1..], c[1..]);
    }
  }

  lemma {:induction false} LexLeAntisymmetric(a: string, b: string)
    requires LexLe(a, b) && LexLe(b, a)
    ensures a == b
    decreases |a|
  {
    if a != [] {
      LexLeAntisymmetric(a[1..], b[1..]);
      assert a == [a[0]] + a[1..] && b == [b[0]] + b[1..];
    }
  }

  /** The lexical order is a total preorder. */
  lemma LexLeOrder()
    ensures Sorting.Total(LexLe) && Sorting.Transitive(LexLe)
  {
    forall a, b ensures LexLe(a, b) || LexLe(b, a) {
      LexLeTotal(a, b);
    }
    forall a, b, c | LexLe(a, b) && LexLe(b, c) ensures LexLe(a, c) {
      LexLeTransitive(a, b, c);
    }
  }

  ghost predicate Sorted(s: seq<string>) {
    Sorting.SortedBy(s, LexLe)
  }

  /** `names.sort()`: the same names, in ascending lexical order. */
  function SortNames(names: seq<string>): (r: seq<string>)
    ensures Sorted(r)
    ensures multiset(r) == multiset(names)
    ensures |r| == |names|
  {
    LexLeOrder();
    Sorting.Sort(names, LexLe)
  }

  /** Two sorted permutations of one collection start with the same name. */
  lemma SortedSameHead(a: seq<string>, b: seq<string>)
    requires Sorted(a) && Sorted(b) && multiset(a) == multiset(b) && a != []
    ensures b != [] && a[0] == b[0]
  {
    assert a[0] in multiset(a);
    assert a[0] in b;
    assert b[0] in multiset(b);
    assert b[0] in a;
    var i :| 0 <= i < |b| && b[i] == a[0];
    var j :| 0 <= j < |a| && a[j] == b[0];
    LexLeReflexive(a[0]);
    LexLeReflexive(b[0]);
    assert LexLe(b[0], a[0]) by { assert i == 0 || LexLe(b[0], b[i]); }
    assert LexLe(a[0], b[0]) by { assert j == 0 || LexLe(a[0], a[j]); }
    LexLeAntisymmetric(a[0], b[0]);
  }

  lemma TailMultiset(a: seq<string>)
    requires a != []
    ensures multiset(a[1..]) == multiset(a) - multiset{a[0]}
  {
    assert a == [a[0]] + a[1..];
  }

  /** Ascending and holding the same names fixes the order: any two sorted
      permutations of one collection are equal. */
  lemma {:induction false} SortedUnique(a: seq<string>, b: seq<string>)
    requires Sorted(a) && Sorted(b) && multiset(a) == multiset(b)
    ensures a == b
    decreases |a|
  {
    if a != [] {
      SortedSameHead(a, b);
      TailMultiset(a);
      TailMultiset(b);
      SortedUnique(a[1..], b[1..]);
      assert a == [a[0]] + a[1..];
      assert b == [b[0]] + b[1..];
    } else {
      assert |b| == |multiset(b)| == 0;
    }
  }
}
