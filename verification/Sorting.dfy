/** Sorting by a string key, as `sort.Sort` and `sort.Strings` leave a slice: the result is a
    permutation in order, and there is only one such result when no two keys tie. */
module Sorting {
  import opened Names

  // ---------------------------------------------------------------- permutations

  lemma SameElements<T>(a: seq<T>, b: seq<T>)
    requires multiset(a) == multiset(b)
    ensures forall x :: x in a <==> x in b
  {
    assert forall x :: x in a <==> x in multiset(a);
    assert forall x :: x in b <==> x in multiset(b);
  }

  lemma MultisetSnoc<T>(s: seq<T>)
    requires |s| > 0
    ensures multiset(s) == multiset(s[..|s| - 1]) + multiset{s[|s| - 1]}
  {
    assert s == s[..|s| - 1] + [s[|s| - 1]];
  }

  lemma MultisetCancel<T>(a: multiset<T>, b: multiset<T>, x: T)
    requires a + multiset{x} == b + multiset{x}
    ensures a == b
  {
    assert a == (a + multiset{x}) - multiset{x};
  }

  lemma MultisetGrow<T>(s: set<T>, x: T)
    requires x !in s
    ensures multiset(s + {x}) == multiset(s) + multiset{x}
  {
  }

  /** Taking out one element. */
  function Without<T>(s: seq<T>, i: nat): seq<T>
    requires i < |s|
  {
    s[..i] + s[i + 1..]
  }

  lemma WithoutParts<T>(s: seq<T>, i: nat)
    requires i < |s|
    ensures s == s[..i] + ([s[i]] + s[i + 1..])
    ensures multiset(s) == multiset(Without(s, i)) + multiset{s[i]}
  {
  }

  /** Two orders of the same elements, without the last of one in both. */
  lemma SameRest<T>(a: seq<T>, b: seq<T>) returns (i: nat)
    requires |a| > 0 && multiset(a) == multiset(b)
    ensures i < |b| && b[i] == a[|a| - 1]
    ensures multiset(a[..|a| - 1]) == multiset(Without(b, i))
  {
    var x := a[|a| - 1];
    assert x in multiset(a);
    assert x in b;
    i :| 0 <= i < |b| && b[i] == x;
    WithoutParts(b, i);
    MultisetSnoc(a);
    MultisetCancel(multiset(a[..|a| - 1]), multiset(Without(b, i)), x);
  }

  lemma SameFront<T>(a: seq<T>, b: seq<T>)
    requires |a| == |b| > 0 && a[|a| - 1] == b[|b| - 1] && multiset(a) == multiset(b)
    ensures multiset(a[..|a| - 1]) == multiset(b[..|b| - 1])
  {
    MultisetSnoc(a);
    MultisetSnoc(b);
    MultisetCancel(multiset(a[..|a| - 1]), multiset(b[..|b| - 1]), a[|a| - 1]);
  }

  function Swap<T>(s: seq<T>, i: nat, j: nat): seq<T>
    requires i < |s| && j < |s|
  {
    s[i := s[j]][j := s[i]]
  }

  lemma SwapPermutes<T>(s: seq<T>, i: nat, j: nat)
    requires i < |s| && j < |s|
    ensures multiset(Swap(s, i, j)) == multiset(s)
  {
  }

  // ---------------------------------------------------------------- sorted orders

  predicate Sorted<T>(key: T -> string, s: seq<T>) {
    forall i, j | 0 <= i < j < |s| :: !Less(key(s[j]), key(s[i]))
  }

  predicate SortOf<T(==)>(key: T -> string, s: seq<T>, sorted: seq<T>) {
    multiset(sorted) == multiset(s) && Sorted(key, sorted)
  }

  /** Elements with the same key are the same. */
  predicate OnePerKey<T(==)>(key: T -> string, s: seq<T>) {
    forall x, y | x in s && y in s && key(x) == key(y) :: x == y
  }

  lemma LastIsLargest<T>(key: T -> string, a: seq<T>, x: T)
    requires Sorted(key, a) && x in a
    ensures |a| > 0 && (x == a[|a| - 1] || !Less(key(a[|a| - 1]), key(x)))
  {
  }

  lemma SameLast<T>(key: T -> string, a: seq<T>, b: seq<T>)
    requires Sorted(key, a) && Sorted(key, b) && multiset(a) == multiset(b)
    requires OnePerKey(key, a) && |a| > 0 && |b| > 0
    ensures a[|a| - 1] == b[|b| - 1]
  {
    var x, y := a[|a| - 1], b[|b| - 1];
    SameElements(a, b);
    LastIsLargest(key, a, y);
    LastIsLargest(key, b, x);
    LessTrichotomy(key(x), key(y));
  }

  /** Without ties there is only one sorted order. */
  lemma {:induction false} SortedIsUnique<T>(key: T -> string, a: seq<T>, b: seq<T>)
    requires Sorted(key, a) && Sorted(key, b) && multiset(a) == multiset(b)
    requires OnePerKey(key, a)
    ensures a == b
    decreases |a|
  {
    assert |multiset(a)| == |multiset(b)|;
    if |a| > 0 {
      SameLast(key, a, b);
      SameFront(a, b);
      SortedIsUnique(key, a[..|a| - 1], b[..|b| - 1]);
      assert a == a[..|a| - 1] + [a[|a| - 1]] && b == b[..|b| - 1] + [b[|b| - 1]];
    }
  }

  // ---------------------------------------------------------------- one sort

  function Insert<T>(key: T -> string, x: T, s: seq<T>): seq<T> {
    if |s| == 0 || !Less(key(x), key(s[|s| - 1])) then s + [x]
    else Insert(key, x, s[..|s| - 1]) + [s[|s| - 1]]
  }

  function InsertionSort<T>(key: T -> string, s: seq<T>): seq<T> {
    if |s| == 0 then [] else Insert(key, s[|s| - 1], InsertionSort(key, s[..|s| - 1]))
  }

  lemma NotLessTransitive(a: string, b: string, c: string)
    requires !Less(a, b) && (b == c || !Less(b, c))
    ensures !Less(a, c)
  {
  }

  lemma {:induction false} InsertPermutes<T>(key: T -> string, x: T, s: seq<T>)
    ensures multiset(Insert(key, x, s)) == multiset(s) + multiset{x}
  {
    if !(|s| == 0 || !Less(key(x), key(s[|s| - 1]))) {
      InsertPermutes(key, x, s[..|s| - 1]);
      assert s == s[..|s| - 1] + [s[|s| - 1]];
    }
  }

  /** Appending something no smaller than everything before it. */
  lemma SortedAppend<T>(key: T -> string, s: seq<T>, x: T)
    requires Sorted(key, s) && forall y | y in s :: !Less(key(x), key(y))
    ensures Sorted(key, s + [x])
  {
  }

  lemma {:induction false} InsertSorts<T>(key: T -> string, x: T, s: seq<T>)
    requires Sorted(key, s)
    ensures Sorted(key, Insert(key, x, s))
  {
    if |s| == 0 || !Less(key(x), key(s[|s| - 1])) {
      forall y | y in s ensures !Less(key(x), key(y)) {
        LastIsLargest(key, s, y);
        NotLessTransitive(key(x), key(s[|s| - 1]), key(y));
      }
      SortedAppend(key, s, x);
    } else {
      var front, last := s[..|s| - 1], s[|s| - 1];
      var out := Insert(key, x, front);
      InsertSorts(key, x, front);
      InsertPermutes(key, x, front);
      LessTrichotomy(key(x), key(last));
      forall y | y in out ensures !Less(key(last), key(y)) {
        assert y in multiset(out);
        if y != x {
          var i :| 0 <= i < |front| && front[i] == y;
          assert s[i] == y;
        }
      }
      SortedAppend(key, out, last);
    }
  }

  lemma {:induction false} InsertionSortSorts<T>(key: T -> string, s: seq<T>)
    ensures SortOf(key, s, InsertionSort(key, s))
  {
    if |s| > 0 {
      var front, last := s[..|s| - 1], s[|s| - 1];
      InsertionSortSorts(key, front);
      InsertSorts(key, last, InsertionSort(key, front));
      InsertPermutes(key, last, InsertionSort(key, front));
      assert s == front + [last];
    }
  }

  // ---------------------------------------------------------------- stability

  /** The elements with one key, in order. */
  function Class<T>(key: T -> string, s: seq<T>, v: string): seq<T> {
    if |s| == 0 then []
    else Class(key, s[..|s| - 1], v) + if key(s[|s| - 1]) == v then [s[|s| - 1]] else []
  }

  lemma ClassSnoc<T>(key: T -> string, s: seq<T>, x: T, v: string)
    ensures Class(key, s + [x], v) == Class(key, s, v) + if key(x) == v then [x] else []
  {
    assert (s + [x])[..|s|] == s;
  }

  /** An element goes in after the elements with its key. */
  lemma {:induction false} InsertIsStable<T>(key: T -> string, x: T, s: seq<T>, v: string)
    ensures Class(key, Insert(key, x, s), v) == Class(key, s, v) + if key(x) == v then [x] else []
  {
    if |s| == 0 || !Less(key(x), key(s[|s| - 1])) {
      ClassSnoc(key, s, x, v);
    } else {
      var front, last := s[..|s| - 1], s[|s| - 1];
      InsertIsStable(key, x, front, v);
      ClassSnoc(key, Insert(key, x, front), last, v);
      LessTrichotomy(key(x), key(last));
    }
  }

  lemma {:induction false} InsertionSortIsStable<T>(key: T -> string, s: seq<T>, v: string)
    ensures Class(key, InsertionSort(key, s), v) == Class(key, s, v)
  {
    if |s| > 0 {
      InsertionSortIsStable(key, s[..|s| - 1], v);
      InsertIsStable(key, s[|s| - 1], InsertionSort(key, s[..|s| - 1]), v);
    }
  }

  /** Where an element stands among those with its key. */
  lemma {:induction false} ClassAt<T>(key: T -> string, s: seq<T>, i: nat, v: string)
    requires i < |s| && key(s[i]) == v
    ensures |Class(key, s[..i], v)| < |Class(key, s, v)| && Class(key, s, v)[|Class(key, s[..i], v)|] == s[i]
  {
    if i < |s| - 1 {
      ClassAt(key, s[..|s| - 1], i, v);
      assert s[..|s| - 1][..i] == s[..i];
    }
  }
}
