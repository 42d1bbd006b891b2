/** Orders as Python compares them: strings by code point, tuples and path
    parts lexicographically; and `sorted`, as a stable insertion sort. */
module Ordering {

  ghost predicate StrictTotal<T(!new)>(less: (T, T) -> bool) {
    && (forall x :: !less(x, x))
    && (forall x, y :: less(x, y) || x == y || less(y, x))
    && (forall x, y, z :: less(x, y) && less(y, z) ==> less(x, z))
  }

  /** What `sorted` needs: elements with equal keys may differ. */
  ghost predicate StrictWeak<T(!new)>(less: (T, T) -> bool) {
    && (forall x :: !less(x, x))
    && (forall x, y, z :: less(x, y) && less(y, z) ==> less(x, z))
    && (forall x, y, z :: less(x, z) ==> less(x, y) || less(y, z))
  }

  lemma TotalIsWeak<T(!new)>(less: (T, T) -> bool)
    requires StrictTotal(less)
    ensures StrictWeak(less)
  {
    forall x, y, z | less(x, z) ensures less(x, y) || less(y, z) {
      assert less(x, y) || x == y || less(y, x);
    }
  }

  predicate LexLess<T(==)>(less: (T, T) -> bool, a: seq<T>, b: seq<T>)
    decreases |a|
  {
    && b != []
    && (a == [] || less(a[0], b[0]) || (a[0] == b[0] && LexLess(less, a[1..], b[1..])))
  }

  predicate CharLess(a: char, b: char) { a < b }

  predicate NatLess(a: nat, b: nat) { a < b }

  predicate StrLess(a: string, b: string) { LexLess(CharLess, a, b) }

  /** The order of `PurePosixPath` values: by their tuples of parts. */
  predicate PartsLess(a: seq<string>, b: seq<string>) { LexLess(StrLess, a, b) }

  lemma {:induction false} LexIrreflexive<T(!new)>(less: (T, T) -> bool, a: seq<T>)
    requires StrictTotal(less)
    ensures !LexLess(less, a, a)
    decreases |a|
  {
    if a != [] {
      LexIrreflexive(less, a[1..]);
    }
  }

  lemma {:induction false} LexTotal<T(!new)>(less: (T, T) -> bool, a: seq<T>, b: seq<T>)
    requires StrictTotal(less)
    ensures LexLess(less, a, b) || a == b || LexLess(less, b, a)
    decreases |a|
  {
    if a != [] && b != [] && a[0] == b[0] {
      LexTotal(less, a[1..], b[1..]);
      assert a == [a[0]] + a[1..] && b == [b[0]] + b[1..];
    }
  }

  lemma {:induction false} LexTransitive<T(!new)>(less: (T, T) -> bool, a: seq<T>, b: seq<T>, c: seq<T>)
    requires StrictTotal(less)
    requires LexLess(less, a, b) && LexLess(less, b, c)
    ensures LexLess(less, a, c)
    decreases |a|
  {
    if a != [] && a[0] == b[0] && b[0] == c[0] {
      LexTransitive(less, a[1..], b[1..], c[1..]);
    }
  }

  lemma StrLessIsTotal()
    ensures StrictTotal(StrLess)
  {
    assert StrictTotal(CharLess);
    forall a: string ensures !StrLess(a, a) { LexIrreflexive(CharLess, a); }
    forall a: string, b: string ensures StrLess(a, b) || a == b || StrLess(b, a) {
      LexTotal(CharLess, a, b);
    }
    forall a: string, b: string, c: string | StrLess(a, b) && StrLess(b, c) ensures StrLess(a, c) {
      LexTransitive(CharLess, a, b, c);
    }
  }

  lemma PartsLessIsTotal()
    ensures StrictTotal(PartsLess)
  {
    StrLessIsTotal();
    forall a: seq<string> ensures !PartsLess(a, a) { LexIrreflexive(StrLess, a); }
    forall a: seq<string>, b: seq<string> ensures PartsLess(a, b) || a == b || PartsLess(b, a) {
      LexTotal(StrLess, a, b);
    }
    forall a: seq<string>, b: seq<string>, c: seq<string> | PartsLess(a, b) && PartsLess(b, c)
      ensures PartsLess(a, c)
    {
      LexTransitive(StrLess, a, b, c);
    }
  }

  lemma PartsLessAsymmetric(a: seq<string>, b: seq<string>)
    requires PartsLess(a, b)
    ensures !PartsLess(b, a)
  {
    StrLessIsTotal();
    if PartsLess(b, a) {
      LexTransitive(StrLess, a, b, a);
      LexIrreflexive(StrLess, a);
    }
  }

  ghost predicate IsSorted<T(!new)>(less: (T, T) -> bool, s: seq<T>) {
    forall i, j :: 0 <= i < j < |s| ==> !less(s[j], s[i])
  }

  predicate StrictlyIncreasing<T>(less: (T, T) -> bool, s: seq<T>) {
    forall i, j :: 0 <= i < j < |s| ==> less(s[i], s[j])
  }

  /** The elements of a sequence. */
  function Elements<T>(s: seq<T>): set<T> { set x | x in s }

  function Insert<T>(less: (T, T) -> bool, x: T, s: seq<T>): seq<T> {
    if s == [] || !less(s[0], x) then [x] + s else [s[0]] + Insert(less, x, s[1..])
  }

  /** Python's `sorted`: equal elements keep their order. */
  function Sort<T>(less: (T, T) -> bool, s: seq<T>): seq<T> {
    if s == [] then [] else Insert(less, s[0], Sort(less, s[1..]))
  }

  lemma {:induction false} InsertKeeps<T(!new)>(less: (T, T) -> bool, x: T, s: seq<T>)
    ensures multiset(Insert(less, x, s)) == multiset{x} + multiset(s)
  {
    if s != [] {
      assert s == [s[0]] + s[1..];
      if less(s[0], x) {
        InsertKeeps(less, x, s[1..]);
      }
    }
  }

  lemma {:induction false} InsertSorted<T(!new)>(less: (T, T) -> bool, x: T, s: seq<T>)
    requires StrictWeak(less) && IsSorted(less, s)
    ensures IsSorted(less, Insert(less, x, s))
  {
    if s == [] {
    } else if !less(s[0], x) {
      forall j | 0 <= j < |s| ensures !less(s[j], x) {
        assert j == 0 || !less(s[j], s[0]);
      }
    } else {
      InsertSorted(less, x, s[1..]);
      InsertKeeps(less, x, s[1..]);
      var r := Insert(less, x, s[1..]);
      forall j | 0 <= j < |r| ensures !less(r[j], s[0]) {
        assert r[j] in multiset(r);
        assert r[j] == x || r[j] in s[1..];
      }
    }
  }

  lemma SamePermutation<T(!new)>(r: seq<T>, s: seq<T>)
    requires multiset(r) == multiset(s)
    ensures |r| == |s| && Elements(r) == Elements(s)
  {
    assert |multiset(r)| == |r| && |multiset(s)| == |s|;
    forall x ensures x in r <==> x in s {
      assert x in r <==> x in multiset(r);
      assert x in s <==> x in multiset(s);
    }
  }

  lemma {:induction false} SortSorts<T(!new)>(less: (T, T) -> bool, s: seq<T>)
    requires StrictWeak(less)
    ensures IsSorted(less, Sort(less, s)) && multiset(Sort(less, s)) == multiset(s)
  {
    if s != [] {
      SortSorts(less, s[1..]);
      InsertSorted(less, s[0], Sort(less, s[1..]));
      InsertKeeps(less, s[0], Sort(less, s[1..]));
      assert s == [s[0]] + s[1..];
    }
  }

  /** `sorted` returns a sorted permutation of its argument. */
  lemma SortCorrect<T(!new)>(less: (T, T) -> bool, s: seq<T>)
    requires StrictWeak(less)
    ensures IsSorted(less, Sort(less, s))
    ensures multiset(Sort(less, s)) == multiset(s)
    ensures |Sort(less, s)| == |s|
    ensures Elements(Sort(less, s)) == Elements(s)
  {
    SortSorts(less, s);
    SamePermutation(Sort(less, s), s);
  }

  lemma HeadIsLeast<T(!new)>(less: (T, T) -> bool, s: seq<T>, x: T)
    requires StrictlyIncreasing(less, s) && x in s
    ensures x == s[0] || less(s[0], x)
  {
  }

  lemma HasElement<T>(s: seq<T>)
    ensures s == [] || exists x :: x in s
  {
    if s != [] {
      assert s[0] in s;
    }
  }

  /** Two strictly increasing sequences with the same elements are equal. */
  lemma {:induction false} IncreasingUnique<T(!new)>(less: (T, T) -> bool, a: seq<T>, b: seq<T>)
    requires StrictWeak(less)
    requires StrictlyIncreasing(less, a) && StrictlyIncreasing(less, b)
    requires forall x :: x in a <==> x in b
    ensures a == b
    decreases |a|
  {
    HasElement(a);
    HasElement(b);
    if a != [] {
      assert a[0] in b;
      assert b[0] in a;
      HeadIsLeast(less, a, b[0]);
      HeadIsLeast(less, b, a[0]);
      assert a == [a[0]] + a[1..] && b == [b[0]] + b[1..];
      forall x ensures x in a[1..] <==> x in b[1..] {
        assert x in a[1..] <==> x in a && x != a[0];
        assert x in b[1..] <==> x in b && x != b[0];
      }
      IncreasingUnique(less, a[1..], b[1..]);
    }
  }

  /** `sorted` leaves an increasing list as it is. */
  lemma {:induction false} SortOfIncreasing<T(!new)>(less: (T, T) -> bool, s: seq<T>)
    requires StrictWeak(less) && StrictlyIncreasing(less, s)
    ensures Sort(less, s) == s
  {
    if s != [] {
      SortOfIncreasing(less, s[1..]);
      assert s == [s[0]] + s[1..];
      if |s| > 1 {
        assert less(s[0], s[1]);
      }
    }
  }

  /** A list without repetition has as many elements as entries. */
  lemma {:induction false} DistinctCount<T>(s: seq<T>)
    requires forall i, j :: 0 <= i < j < |s| ==> s[i] != s[j]
    ensures |Elements(s)| == |s|
  {
    if s != [] {
      DistinctCount(s[1..]);
      assert Elements(s) == {s[0]} + Elements(s[1..]);
      assert s[0] !in Elements(s[1..]);
    }
  }

  /** A permutation of a list without repetition has none. */
  lemma DistinctByCount<T(!new)>(a: seq<T>, b: seq<T>)
    requires multiset(a) == multiset(b)
    requires forall i, j :: 0 <= i < j < |a| ==> a[i] != a[j]
    ensures forall i, j :: 0 <= i < j < |b| ==> b[i] != b[j]
  {
    forall i, j | 0 <= i < j < |b| ensures b[i] != b[j] {
      if b[i] == b[j] {
        var x := b[i];
        assert b == b[..i] + [x] + b[i + 1..j] + [x] + b[j + 1..];
        assert multiset(b)[x] >= 2;
        OnceCounted(a, x);
        assert false;
      }
    }
  }

  lemma {:induction false} OnceCounted<T(!new)>(a: seq<T>, x: T)
    requires forall i, j :: 0 <= i < j < |a| ==> a[i] != a[j]
    ensures multiset(a)[x] <= 1
  {
    if a != [] {
      OnceCounted(a[1..], x);
      assert a == [a[0]] + a[1..];
      if x == a[0] {
        assert x !in a[1..];
        assert x !in multiset(a[1..]);
      }
    }
  }

  /** Sorting a list without repetition gives strictly increasing entries. */
  lemma SortOfDistinct<T(!new)>(less: (T, T) -> bool, s: seq<T>)
    requires StrictTotal(less)
    requires forall i, j :: 0 <= i < j < |s| ==> s[i] != s[j]
    ensures StrictlyIncreasing(less, Sort(less, s))
  {
    TotalIsWeak(less);
    SortCorrect(less, s);
    var sorted := Sort(less, s);
    DistinctByCount(s, sorted);
    forall i, j | 0 <= i < j < |sorted| ensures less(sorted[i], sorted[j]) {
      assert !less(sorted[j], sorted[i]);
    }
  }

  /** For a list without repetition, being sorted already is increasing strictly. */
  lemma SortedExactly<T(!new)>(less: (T, T) -> bool, s: seq<T>)
    requires StrictTotal(less)
    requires forall i, j :: 0 <= i < j < |s| ==> s[i] != s[j]
    ensures s == Sort(less, s) <==> StrictlyIncreasing(less, s)
  {
    TotalIsWeak(less);
    SortOfDistinct(less, s);
    if StrictlyIncreasing(less, s) {
      SortOfIncreasing(less, s);
    }
  }

  // ----- iterating over a set

  /** An order in which a set may be iterated: every element once. */
  ghost predicate Enumerates<T(!new)>(order: seq<T>, elements: set<T>) {
    && (forall x :: x in order <==> x in elements)
    && forall i, j :: 0 <= i < j < |order| ==> order[i] != order[j]
  }

  lemma EnumeratesAppend<T(!new)>(a: seq<T>, b: seq<T>, left: set<T>, right: set<T>)
    requires Enumerates(a, left) && Enumerates(b, right) && left !! right
    ensures Enumerates(a + b, left + right)
  {
    forall i, j | 0 <= i < j < |a + b| ensures (a + b)[i] != (a + b)[j] {
      if i < |a| && j >= |a| {
        assert (a + b)[i] in left && (a + b)[j] in right;
      }
    }
  }

  lemma SomeOrder<T(!new)>(elements: set<T>) returns (order: seq<T>)
    ensures Enumerates(order, elements)
  {
    if elements == {} {
      order := [];
    } else {
      var x :| x in elements;
      var rest := SomeOrder(elements - {x});
      order := [x] + rest;
    }
  }

  // ----- what the order of strings is

  /** The two agree up to i; there the first ends, or has the smaller character. */
  ghost predicate DecidedAt(a: string, b: string, i: nat) {
    i <= |a| && i < |b| && a[..i] == b[..i] && (i == |a| || a[i] < b[i])
  }

  /** A string comes before another that continues it, or that has the greater
      character at the first difference, and before no other. */
  lemma {:induction false} StrLessExactly(a: string, b: string)
    ensures StrLess(a, b) <==> exists i: nat :: DecidedAt(a, b, i)
    decreases |a|
  {
    if a != [] && b != [] && a[0] == b[0] {
      StrLessExactly(a[1..], b[1..]);
      if StrLess(a[1..], b[1..]) {
        var i: nat :| DecidedAt(a[1..], b[1..], i);
        assert a[..i + 1] == [a[0]] + a[1..][..i] && b[..i + 1] == [b[0]] + b[1..][..i];
        assert DecidedAt(a, b, i + 1);
      }
      if i: nat :| DecidedAt(a, b, i) {
        assert i > 0;
        assert a[1..][..i - 1] == a[..i][1..] && b[1..][..i - 1] == b[..i][1..];
        assert DecidedAt(a[1..], b[1..], i - 1);
      }
    } else if b != [] && (a == [] || a[0] < b[0]) {
      assert DecidedAt(a, b, 0);
    }
  }
}
