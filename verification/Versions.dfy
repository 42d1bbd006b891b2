/** Python version comparison in lock-file markers
    (scripts/finalize_release_evidence.py:453-494). */
module Versions {
  import opened Ordering

  /** Component i of a version, which is extended with zeros without end. */
  function At(v: seq<nat>, i: nat): nat { if i < |v| then v[i] else 0 }

  /** The reference order: versions as infinite sequences, first difference decides. */
  ghost predicate Precedes(a: seq<nat>, b: seq<nat>) {
    exists i: nat :: DiffersFirstAt(a, b, i) && At(a, i) < At(b, i)
  }

  ghost predicate SameVersion(a: seq<nat>, b: seq<nat>) {
    forall i: nat :: At(a, i) == At(b, i)
  }

  ghost predicate DiffersFirstAt(a: seq<nat>, b: seq<nat>, i: nat) {
    At(a, i) != At(b, i) && forall j: nat :: j < i ==> At(a, j) == At(b, j)
  }

  function StripZeros(parts: seq<nat>): seq<nat> {
    if |parts| > 1 && parts[|parts| - 1] == 0 then StripZeros(parts[..|parts| - 1]) else parts
  }

  function Zeros(n: nat): seq<nat> { seq(n, _ => 0) }

  function Pad(v: seq<nat>, width: nat): seq<nat>
    requires |v| <= width
  {
    v + Zeros(width - |v|)
  }

  function Width(a: seq<nat>, b: seq<nat>): nat { if |a| < |b| then |b| else |a| }

  /** `comparable_left < comparable_right` of the source, on stripped versions. */
  predicate PaddedLess(a: seq<nat>, b: seq<nat>) {
    LexLess(NatLess, Pad(a, Width(a, b)), Pad(b, Width(a, b)))
  }

  predicate PaddedEqual(a: seq<nat>, b: seq<nat>) {
    Pad(a, Width(a, b)) == Pad(b, Width(a, b))
  }

  lemma {:induction false} StripKeepsComponents(parts: seq<nat>, i: nat)
    ensures At(StripZeros(parts), i) == At(parts, i)
    decreases |parts|
  {
    if |parts| > 1 && parts[|parts| - 1] == 0 {
      StripKeepsComponents(parts[..|parts| - 1], i);
    }
  }

  lemma {:induction false} LexLessPointwise(a: seq<nat>, b: seq<nat>)
    requires |a| == |b|
    ensures LexLess(NatLess, a, b) <==> Precedes(a, b)
    decreases |a|
  {
    if a != [] {
      var a', b' := a[1..], b[1..];
      LexLessPointwise(a', b');
      if LexLess(NatLess, a, b) {
        if a[0] < b[0] {
          assert DiffersFirstAt(a, b, 0);
        } else {
          var i: nat :| DiffersFirstAt(a', b', i) && At(a', i) < At(b', i);
          forall j: nat | j < i + 1 ensures At(a, j) == At(b, j) {
            if j > 0 { assert At(a', j - 1) == At(b', j - 1); }
          }
          assert DiffersFirstAt(a, b, i + 1);
        }
      }
      if Precedes(a, b) {
        var i: nat :| DiffersFirstAt(a, b, i) && At(a, i) < At(b, i);
        if i > 0 {
          assert At(a, 0) == At(b, 0);
          forall j: nat | j < i - 1 ensures At(a', j) == At(b', j) {
            assert At(a, j + 1) == At(b, j + 1);
          }
          assert DiffersFirstAt(a', b', i - 1);
        }
      }
    }
  }

  lemma PrecedesByComponents(a: seq<nat>, b: seq<nat>, a': seq<nat>, b': seq<nat>)
    requires SameVersion(a, a') && SameVersion(b, b')
    requires Precedes(a, b)
    ensures Precedes(a', b')
  {
    var i: nat :| DiffersFirstAt(a, b, i) && At(a, i) < At(b, i);
    forall j: nat | j < i ensures At(a', j) == At(b', j) {
      assert At(a, j) == At(b, j);
    }
    assert DiffersFirstAt(a', b', i);
  }

  lemma PadKeepsComponents(v: seq<nat>, width: nat)
    requires |v| <= width
    ensures SameVersion(Pad(v, width), v)
  {
  }

  /** The comparison the source makes on stripped and padded tuples is the
      comparison of the versions as infinite zero-extended sequences. */
  lemma StrippedComparisonIsPointwise(a: seq<nat>, b: seq<nat>)
    ensures PaddedLess(StripZeros(a), StripZeros(b)) <==> Precedes(a, b)
    ensures PaddedEqual(StripZeros(a), StripZeros(b)) <==> SameVersion(a, b)
  {
    var sa, sb := StripZeros(a), StripZeros(b);
    var w := Width(sa, sb);
    var pa, pb := Pad(sa, w), Pad(sb, w);
    forall i: nat ensures At(sa, i) == At(a, i) && At(sb, i) == At(b, i) {
      StripKeepsComponents(a, i);
      StripKeepsComponents(b, i);
    }
    PadKeepsComponents(sa, w);
    PadKeepsComponents(sb, w);
    assert SameVersion(pa, a) && SameVersion(pb, b) && SameVersion(a, pa) && SameVersion(b, pb);
    LexLessPointwise(pa, pb);
    if Precedes(pa, pb) { PrecedesByComponents(pa, pb, a, b); }
    if Precedes(a, b) { PrecedesByComponents(a, b, pa, pb); }
    if SameVersion(a, b) {
      forall i: nat | i < w ensures pa[i] == pb[i] {
        assert At(pa, i) == At(pb, i);
      }
    }
  }

  lemma FirstDifference(a: seq<nat>, b: seq<nat>) returns (i: nat)
    requires !SameVersion(a, b)
    ensures DiffersFirstAt(a, b, i)
  {
    var n: nat :| At(a, n) != At(b, n);
    i := 0;
    while At(a, i) == At(b, i)
      invariant i <= n
      invariant forall j: nat :: j < i ==> At(a, j) == At(b, j)
      decreases n - i
    {
      i := i + 1;
    }
  }

  /** Exactly one of before, equal and after holds. */
  lemma PrecedesTrichotomy(a: seq<nat>, b: seq<nat>)
    ensures Precedes(a, b) || SameVersion(a, b) || Precedes(b, a)
    ensures !(Precedes(a, b) && Precedes(b, a))
    ensures SameVersion(a, b) ==> !Precedes(a, b) && !Precedes(b, a)
  {
    if !SameVersion(a, b) {
      var i := FirstDifference(a, b);
      assert DiffersFirstAt(b, a, i);
    }
  }

  lemma PrecedesTransitive(a: seq<nat>, b: seq<nat>, c: seq<nat>)
    requires Precedes(a, b) && Precedes(b, c)
    ensures Precedes(a, c)
  {
    var i: nat :| DiffersFirstAt(a, b, i) && At(a, i) < At(b, i);
    var j: nat :| DiffersFirstAt(b, c, j) && At(b, j) < At(c, j);
    var k := if i < j then i else j;
    forall n: nat | n < k ensures At(a, n) == At(c, n) {
      assert At(a, n) == At(b, n) && At(b, n) == At(c, n);
    }
    assert At(a, k) < At(c, k);
    assert DiffersFirstAt(a, c, k);
  }

  /** Appending ".0" changes no comparison. */
  lemma TrailingZeroIsIgnored(a: seq<nat>, b: seq<nat>)
    ensures PaddedLess(StripZeros(a + [0]), StripZeros(b)) <==> PaddedLess(StripZeros(a), StripZeros(b))
    ensures PaddedLess(StripZeros(b), StripZeros(a + [0])) <==> PaddedLess(StripZeros(b), StripZeros(a))
    ensures PaddedEqual(StripZeros(a + [0]), StripZeros(a))
  {
    StrippedComparisonIsPointwise(a + [0], b);
    StrippedComparisonIsPointwise(a, b);
    StrippedComparisonIsPointwise(b, a + [0]);
    StrippedComparisonIsPointwise(b, a);
    StrippedComparisonIsPointwise(a + [0], a);
    assert SameVersion(a + [0], a) && SameVersion(a, a + [0]) && SameVersion(b, b);
    if Precedes(a, b) { PrecedesByComponents(a, b, a + [0], b); }
    if Precedes(a + [0], b) { PrecedesByComponents(a + [0], b, a, b); }
    if Precedes(b, a) { PrecedesByComponents(b, a, b, a + [0]); }
    if Precedes(b, a + [0]) { PrecedesByComponents(b, a + [0], b, a); }
  }
}
