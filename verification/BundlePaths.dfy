/** Two orders on bundle paths: by parts, as the member list is produced, and by
    text, as it is checked (scripts/release_bundle.py:190-206, 229-239, 275-276). */
module BundlePaths {
  import opened Ordering
  import opened Text

  /** A relative path as its parts. */
  type Path = seq<string>

  predicate IsPart(s: string) {
    s != [] && s != "." && s != ".." && forall i :: 0 <= i < |s| ==> s[i] != '/'
  }

  predicate IsPath(p: Path) { p != [] && forall i :: 0 <= i < |p| ==> IsPart(p[i]) }

  /** `as_posix()`. */
  function PathText(p: Path): string {
    if p == [] then [] else if |p| == 1 then p[0] else p[0] + ['/'] + PathText(p[1..])
  }

  lemma {:induction false} SplitPart(part: string, rest: string)
    requires forall i :: 0 <= i < |part| ==> part[i] != '/'
    ensures rest == [] ==> SplitSlash(part + rest) == [part]
    ensures rest != [] && rest[0] == '/' ==> SplitSlash(part + rest) == [part] + SplitSlash(rest[1..])
  {
    if part == [] {
      assert part + rest == rest;
    } else {
      assert (part + rest)[1..] == part[1..] + rest;
      SplitPart(part[1..], rest);
      var tail := SplitSlash(part[1..] + rest);
      assert [part[0]] + part[1..] == part;
      if rest == [] {
        assert [[part[0]] + tail[0]] + tail[1..] == [part];
      } else if rest[0] == '/' {
        assert tail[1..] == SplitSlash(rest[1..]);
      }
    }
  }

  /** A path's text determines its parts. */
  lemma {:induction false} SplitOfText(p: Path)
    requires IsPath(p)
    ensures SplitSlash(PathText(p)) == p && PathText(p) != []
  {
    if |p| == 1 {
      assert p[0] + [] == p[0] && [p[0]] == p;
      SplitPart(p[0], []);
    } else {
      var rest := ['/'] + PathText(p[1..]);
      SplitOfText(p[1..]);
      assert rest[1..] == PathText(p[1..]);
      assert p[0] + ['/'] + PathText(p[1..]) == p[0] + rest;
      SplitPart(p[0], rest);
      assert [p[0]] + p[1..] == p;
    }
  }

  /** At some depth q goes on with p's directory name followed by a character that
      sorts before the separator. */
  ghost predicate CrossesAt(p: Path, q: Path, depth: nat) {
    && depth + 1 < |p| && depth < |q| && p[..depth] == q[..depth]
    && |p[depth]| < |q[depth]| && q[depth][..|p[depth]|] == p[depth] && q[depth][|p[depth]|] < '/'
  }

  ghost predicate Crosses(p: Path, q: Path) { exists depth: nat :: CrossesAt(p, q, depth) }

  lemma {:induction false} LessCancel(prefix: string, a: string, b: string)
    ensures StrLess(prefix + a, prefix + b) <==> StrLess(a, b)
  {
    if prefix == [] {
      assert prefix + a == a && prefix + b == b;
    } else {
      assert (prefix + a)[1..] == prefix[1..] + a && (prefix + b)[1..] == prefix[1..] + b;
      LessCancel(prefix[1..], a, b);
    }
  }

  /** Two different names differ at a character, or one begins with the other. */
  lemma {:induction false} FirstDifference(c: string, e: string) returns (n: nat)
    requires c != e
    ensures n <= |c| && n <= |e| && c[..n] == e[..n]
    ensures n < |c| && n < |e| ==> c[n] != e[n]
    ensures n < |c| || n < |e|
  {
    n := 0;
    assert c[..|c|] == c && e[..|e|] == e;
    while n < |c| && n < |e| && c[n] == e[n]
      invariant n <= |c| && n <= |e| && c[..n] == e[..n]
      decreases |c| - n
    {
      n := n + 1;
    }
  }

  /** The text after the first name. */
  function Remainder(p: Path): string
    requires p != []
  {
    if |p| == 1 then [] else ['/'] + PathText(p[1..])
  }

  lemma TextOfRemainder(p: Path)
    requires p != []
    ensures PathText(p) == p[0] + Remainder(p)
  {
  }

  lemma HeadLess(prefix: string, a: string, b: string)
    requires a != [] && b != [] && a[0] != b[0]
    ensures StrLess(prefix + a, prefix + b) <==> a[0] < b[0]
  {
    LessCancel(prefix, a, b);
  }

  lemma EmptyLess(prefix: string, b: string)
    requires b != []
    ensures StrLess(prefix, prefix + b) && !StrLess(prefix + b, prefix)
  {
    LessCancel(prefix, [], b);
    LessCancel(prefix, b, []);
    assert prefix + [] == prefix;
  }

  lemma DifferentText(common: string, c: string, e: string, r: string, u: string)
    requires c != [] && e != [] && c[0] != e[0]
    ensures StrLess(common + c, common + e) <==> c[0] < e[0]
    ensures StrLess(common + c + r, common + e + u) <==> c[0] < e[0]
  {
    HeadLess(common, c, e);
    HeadLess(common, c + r, e + u);
    assert common + c + r == common + (c + r) && common + e + u == common + (e + u);
  }

  /** First names that differ inside decide both orders alike. */
  lemma DifferentNames(p: Path, q: Path, n: nat)
    requires IsPath(p) && IsPath(q)
    requires n < |p[0]| && n < |q[0]| && p[0][..n] == q[0][..n] && p[0][n] != q[0][n]
    ensures PartsLess(p, q) <==> StrLess(PathText(p), PathText(q))
    ensures !Crosses(p, q)
  {
    var c, e := p[0], q[0];
    assert c == c[..n] + c[n..] && e == c[..n] + e[n..];
    DifferentText(c[..n], c[n..], e[n..], Remainder(p), Remainder(q));
    TextOfRemainder(p);
    TextOfRemainder(q);
    ShorterIsBelow(c, e, n);
    NotCrossing(p, q);
  }

  lemma ShorterIsBelow(c: string, e: string, n: nat)
    requires n < |c| && n < |e| && c[n] != e[n]
    ensures c != e && (|c| < |e| ==> e[..|c|] != c)
  {
    assert |c| < |e| ==> e[..|c|][n] == e[n];
  }

  lemma NotCrossing(p: Path, q: Path)
    requires p != [] && q != [] && p[0] != q[0]
    requires |p| > 1 && |p[0]| < |q[0]| ==> !(q[0][..|p[0]|] == p[0] && q[0][|p[0]|] < '/')
    ensures !Crosses(p, q)
  {
    forall depth: nat ensures !CrossesAt(p, q, depth) {
      if depth > 0 && depth < |p| && depth < |q| {
        assert p[..depth][0] != q[..depth][0];
      }
    }
  }

  /** p's first name is a proper beginning of q's. */
  lemma PrefixName(p: Path, q: Path)
    requires IsPath(p) && IsPath(q)
    requires |p[0]| < |q[0]| && q[0][..|p[0]|] == p[0]
    ensures PartsLess(p, q) && !PartsLess(q, p)
    ensures StrLess(PathText(p), PathText(q)) <==> !Crosses(p, q)
    ensures StrLess(PathText(q), PathText(p)) <==> Crosses(p, q)
    ensures !Crosses(q, p)
  {
    var c, e := p[0], q[0];
    var x := e[|c|..];
    assert e == c + x;
    EmptyLess(c, x);
    TextOfRemainder(p);
    TextOfRemainder(q);
    assert PathText(q) == c + (x + Remainder(q));
    NotCrossing(q, p);
    if |p| == 1 {
      assert c + [] == c;
      EmptyLess(c, x + Remainder(q));
      NotCrossing(p, q);
    } else {
      HeadLess(c, Remainder(p), x + Remainder(q));
      HeadLess(c, x + Remainder(q), Remainder(p));
      if x[0] < '/' {
        assert p[..0] == q[..0];
        assert CrossesAt(p, q, 0);
      } else {
        NotCrossing(p, q);
      }
    }
  }

  lemma CrossesTail(p: Path, q: Path)
    requires |p| > 0 && |q| > 0 && p[0] == q[0]
    ensures Crosses(p, q) <==> Crosses(p[1..], q[1..])
  {
    if Crosses(p, q) {
      var depth: nat :| CrossesAt(p, q, depth);
      assert depth > 0;
      assert p[1..][..depth - 1] == p[..depth][1..] && q[1..][..depth - 1] == q[..depth][1..];
      assert CrossesAt(p[1..], q[1..], depth - 1);
    }
    if Crosses(p[1..], q[1..]) {
      var depth: nat :| CrossesAt(p[1..], q[1..], depth);
      assert p[..depth + 1] == [p[0]] + p[1..][..depth] && q[..depth + 1] == [q[0]] + q[1..][..depth];
      assert CrossesAt(p, q, depth + 1);
    }
  }

  lemma SameName(p: Path, q: Path)
    requires IsPath(p) && IsPath(q) && p != q && p[0] == q[0] && |p| == 1
    ensures PartsLess(p, q) && StrLess(PathText(p), PathText(q))
    ensures !PartsLess(q, p) && !StrLess(PathText(q), PathText(p))
    ensures !Crosses(p, q) && !Crosses(q, p)
  {
    assert |q| > 1;
    TextOfRemainder(q);
    EmptyLess(p[0], Remainder(q));
    assert p[1..] == [];
    StrLessIsTotal();
    PartsLessAsymmetric(p, q);
    CrossesTail(p, q);
    CrossesTail(q, p);
  }

  /** Two paths are ordered alike by parts and by text, unless p's directory meets
      a sibling of q whose name continues it with a character below the separator. */
  lemma {:induction false} OrdersAgree(p: Path, q: Path)
    requires IsPath(p) && IsPath(q) && p != q
    ensures (PartsLess(p, q) <==> StrLess(PathText(p), PathText(q))) <==> !(Crosses(p, q) || Crosses(q, p))
    decreases |p|
  {
    if p[0] == q[0] {
      if |p| == 1 {
        SameName(p, q);
      } else if |q| == 1 {
        SameName(q, p);
      } else {
        OrdersAgree(p[1..], q[1..]);
        assert p == [p[0]] + p[1..] && q == [q[0]] + q[1..];
        StrLessIsTotal();
        LessCancel(p[0] + ['/'], PathText(p[1..]), PathText(q[1..]));
        CrossesTail(p, q);
        CrossesTail(q, p);
      }
    } else {
      var n := FirstDifference(p[0], q[0]);
      if n < |p[0]| && n < |q[0]| {
        DifferentNames(p, q, n);
        DifferentNames(q, p, n);
      } else if n == |p[0]| {
        assert q[0][..n] == p[0][..n] == p[0];
        PrefixName(p, q);
      } else {
        assert p[0][..n] == q[0][..n] == q[0];
        PrefixName(q, p);
      }
    }
  }

  function Texts(paths: seq<Path>): seq<string> {
    seq(|paths|, i requires 0 <= i < |paths| => PathText(paths[i]))
  }

  /** Some member's directory has a sibling, on the way to another member, that is
      named by the directory's name and a character below the separator. */
  ghost predicate SomeCrossing(paths: seq<Path>) {
    exists i, j :: 0 <= i < |paths| && 0 <= j < |paths| && Crosses(paths[i], paths[j])
  }

  lemma EqualStarts(p: Path, q: Path, depth: nat)
    requires depth <= |p| && depth <= |q| && p[..depth] == q[..depth]
    ensures depth == 0 || p[0] == q[0]
  {
    if depth > 0 {
      assert p[..depth][0] == p[0] && q[..depth][0] == q[0];
    }
  }

  lemma CrossingIsStrict(p: Path, q: Path)
    requires IsPath(p) && IsPath(q) && Crosses(p, q)
    ensures p != q && PartsLess(p, q)
    decreases |p|
  {
    if p[0] == q[0] {
      CrossesTail(p, q);
      if |p| > 1 && |q| > 1 {
        CrossingIsStrict(p[1..], q[1..]);
        StrLessIsTotal();
      }
    } else {
      var depth: nat :| CrossesAt(p, q, depth);
      EqualStarts(p, q, depth);
      PrefixName(p, q);
    }
  }

  /** A list in order of parts is in order of text exactly when nothing crosses. */
  lemma SortAgreement(paths: seq<Path>)
    requires forall i :: 0 <= i < |paths| ==> IsPath(paths[i])
    requires StrictlyIncreasing(PartsLess, paths)
    ensures StrictlyIncreasing(StrLess, Texts(paths)) <==> !SomeCrossing(paths)
  {
    PartsLessIsTotal();
    StrLessIsTotal();
    if SomeCrossing(paths) {
      var i, j :| 0 <= i < |paths| && 0 <= j < |paths| && Crosses(paths[i], paths[j]);
      CrossingIsStrict(paths[i], paths[j]);
      assert i < j;
      OrdersAgree(paths[i], paths[j]);
      assert !StrLess(Texts(paths)[i], Texts(paths)[j]);
    } else {
      forall i, j | 0 <= i < j < |paths| ensures StrLess(Texts(paths)[i], Texts(paths)[j]) {
        assert PartsLess(paths[i], paths[j]);
        OrdersAgree(paths[i], paths[j]);
      }
    }
  }

  /** Such lists exist: "a/x" comes before "a-b" by parts and after it by text. */
  lemma CrossingExample()
    ensures var paths: seq<Path> := [["a", "x"], ["a-b"]];
      && IsPath(paths[0]) && IsPath(paths[1])
      && StrictlyIncreasing(PartsLess, paths) && !StrictlyIncreasing(StrLess, Texts(paths))
  {
    var paths: seq<Path> := [["a", "x"], ["a-b"]];
    var p, q := paths[0], paths[1];
    assert p[..0] == q[..0];
    assert q[0][..1] == p[0];
    assert CrossesAt(p, q, 0);
    CrossingIsStrict(p, q);
    SortAgreement(paths);
    assert paths[0] == p && paths[1] == q;
  }
}
