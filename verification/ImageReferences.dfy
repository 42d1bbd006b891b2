/** The two checks of a pinned image reference `NAME:TAG@sha256:DIGEST`
    (scripts/render_release_compose.py:72-86 and scripts/release_bundle.py:292-304). */
module ImageReferences {
  import opened Text

  const MARK := "@sha256:"

  predicate MarkAt(v: string, i: int) { 0 <= i && i + 8 <= |v| && v[i..i + 8] == MARK }

  /** `value.count("@sha256:")`. */
  function CountMark(v: string): nat {
    if |v| < 8 then 0
    else if v[..8] == MARK then 1 + CountMark(v[8..])
    else CountMark(v[1..])
  }

  /** The index of the last occurrence of a character, or -1. */
  function LastIndex(s: string, c: char): (i: int)
    ensures -1 <= i < |s| && (i >= 0 ==> s[i] == c)
    ensures forall j :: i < j < |s| ==> s[j] != c
  {
    if s == [] then -1
    else if s[|s| - 1] == c then |s| - 1
    else LastIndex(s[..|s| - 1], c)
  }

  /** The index of the last mark in v[..n + 8], or -1. */
  function LastMarkUpTo(v: string, n: int): (i: int)
    ensures -1 <= i && (i >= 0 ==> i <= n && MarkAt(v, i))
    ensures forall j :: i < j <= n ==> !MarkAt(v, j)
    decreases n + 1
  {
    if n < 0 then -1 else if MarkAt(v, n) then n else LastMarkUpTo(v, n - 1)
  }

  function LastMark(v: string): (i: int)
    ensures -1 <= i && (i >= 0 ==> MarkAt(v, i))
    ensures forall j :: i < j ==> !MarkAt(v, j)
  {
    LastMarkUpTo(v, |v|)
  }

  /** `rsplit(c, 1)[-1]`. */
  function AfterLast(s: string, c: char): string { s[LastIndex(s, c) + 1..] }

  predicate IsHex(s: string, n: nat) {
    |s| == n && forall i :: 0 <= i < n ==> IsDigit(s[i]) || 'a' <= s[i] <= 'f'
  }

  /** The tag within NAME:TAG. */
  function TagOf(tagged: string): string { AfterLast(AfterLast(tagged, '/'), ':') }

  predicate HasTag(tagged: string) { ':' in AfterLast(tagged, '/') }

  /** The renderer's check. A count of one gives the split its mark. */
  predicate RenderValid(v: string) {
    && !Contains(v, "${") && CountMark(v) == 1
    && var at := LastMark(v);
       at >= 0 && HasTag(v[..at]) && TagOf(v[..at]) != "" && Lower(TagOf(v[..at])) != "latest" && IsHex(v[at + 8..], 64)
  }

  /** The bundle's check, which splits at the last '@'. */
  predicate BundleValid(v: string) {
    && CountMark(v) == 1 && !Contains(v, "${")
    && var at := LastIndex(v, '@');
       at >= 0 && HasTag(v[..at]) && Lower(TagOf(v[..at])) != "latest"
       && |v[at + 1..]| >= 7 && v[at + 1..][..7] == "sha256:" && IsHex(v[at + 8..], 64)
  }

  lemma SameSplit(v: string, at: nat)
    requires MarkAt(v, at) && IsHex(v[at + 8..], 64)
    ensures LastMark(v) == at == LastIndex(v, '@')
  {
    assert MARK[0] == '@' && v[at..at + 8][0] == '@';
    forall j | at < j < |v| ensures v[j] != '@' {
      if j < at + 8 {
        assert v[j] == v[at..at + 8][j - at] == MARK[j - at];
      } else {
        assert v[j] == v[at + 8..][j - at - 8];
      }
    }
    forall j | at < j ensures !MarkAt(v, j) {
      if j + 8 <= |v| {
        assert v[j..j + 8][0] == v[j] != MARK[0];
      }
    }
  }

  /** The tag before the last '@'. */
  function TagIn(v: string): string { if LastIndex(v, '@') < 0 then "" else TagOf(v[..LastIndex(v, '@')]) }

  lemma MarkSplit(v: string, at: nat)
    requires MarkAt(v, at) && IsHex(v[at + 8..], 64)
    ensures LastMark(v) == at == LastIndex(v, '@') && |v[at + 1..]| >= 7 && v[at + 1..][..7] == "sha256:"
  {
    SameSplit(v, at);
    assert v[at..at + 8][1..] == v[at + 1..][..7] && MARK[1..] == "sha256:";
  }

  lemma AtSplit(v: string, at: nat)
    requires at < |v| && v[at] == '@' && |v[at + 1..]| >= 7 && v[at + 1..][..7] == "sha256:"
    ensures MarkAt(v, at)
  {
    assert v[at..at + 8] == [v[at]] + v[at + 1..][..7];
  }

  /** The two checks differ in one case: the bundle lets an empty tag pass. */
  lemma ValidatorsAgree(v: string)
    ensures RenderValid(v) <==> BundleValid(v) && TagIn(v) != ""
  {
    if RenderValid(v) {
      RenderedIsAccepted(v);
    }
    if BundleValid(v) && TagIn(v) != "" {
      TaggedIsRendered(v);
    }
  }

  lemma RenderedIsAccepted(v: string)
    requires RenderValid(v)
    ensures BundleValid(v) && TagIn(v) != ""
  {
    MarkSplit(v, LastMark(v));
  }

  lemma TaggedIsRendered(v: string)
    requires BundleValid(v) && TagIn(v) != ""
    ensures RenderValid(v)
  {
    AtSplit(v, LastIndex(v, '@'));
    MarkSplit(v, LastIndex(v, '@'));
  }

  /** An accepted reference, put together from its parts. */
  ghost predicate IsReference(v: string, name: string, tag: string, digest: string) {
    && v == name + [':'] + tag + MARK + digest
    && tag != "" && '/' !in tag && ':' !in tag && Lower(tag) != "latest" && IsHex(digest, 64)
  }

  lemma AfterLastOf(a: string, c: char, b: string)
    requires c !in b
    ensures AfterLast(a + [c] + b, c) == b
  {
    var s := a + [c] + b;
    assert s[|a|] == c;
    assert forall j :: |a| < j < |s| ==> s[j] == b[j - |a| - 1];
    assert LastIndex(s, c) == |a|;
  }

  lemma AfterLastExtends(a: string, b: string, c: char)
    requires c !in b
    ensures AfterLast(a + b, c) == AfterLast(a, c) + b
  {
    var s, i := a + b, LastIndex(a, c);
    assert forall j :: |a| <= j < |s| ==> s[j] == b[j - |a|];
    assert forall j :: 0 <= j < |a| ==> s[j] == a[j];
    assert LastIndex(s, c) == i;
  }

  lemma AtLast(s: string, c: char) returns (a: string)
    ensures c in s ==> s == a + [c] + AfterLast(s, c)
    ensures c !in s ==> a == [] && AfterLast(s, c) == s
    ensures c !in AfterLast(s, c)
  {
    var i := LastIndex(s, c);
    a := if i < 0 then [] else s[..i];
  }

  lemma SplitTag(name: string, tag: string)
    requires '/' !in tag && ':' !in tag
    ensures HasTag(name + [':'] + tag) && TagOf(name + [':'] + tag) == tag
  {
    assert name + [':'] + tag == name + ([':'] + tag);
    AfterLastExtends(name, [':'] + tag, '/');
    var front := AfterLast(name, '/');
    assert front + ([':'] + tag) == front + [':'] + tag;
    AfterLastOf(front, ':', tag);
    assert (front + [':'] + tag)[|front|] == ':';
  }

  lemma UnsplitTag(tagged: string) returns (name: string)
    requires HasTag(tagged)
    ensures tagged == name + [':'] + TagOf(tagged) && '/' !in TagOf(tagged) && ':' !in TagOf(tagged)
  {
    var path := AtLast(tagged, '/');
    var segment := AfterLast(tagged, '/');
    var front := AtLast(segment, ':');
    var before := if '/' in tagged then path + ['/'] else [];
    assert tagged == before + segment;
    name := before + front;
    Regroup(before, front, [':'], AfterLast(segment, ':'));
    SuffixLacks(segment, ':', '/');
  }

  lemma Regroup(a: string, b: string, c: string, d: string)
    ensures a + (b + c + d) == (a + b) + c + d
  {
  }

  lemma SuffixLacks(s: string, c: char, d: char)
    requires d !in s
    ensures d !in AfterLast(s, c)
  {
  }

  lemma JoinedIsValid(v: string, name: string, tag: string, digest: string)
    requires IsReference(v, name, tag, digest)
    ensures var at := LastMark(v);
      at >= 0 && HasTag(v[..at]) && TagOf(v[..at]) == tag && v[at + 8..] == digest
  {
    var tagged := name + [':'] + tag;
    var at := |tagged|;
    assert v == tagged + MARK + digest;
    assert v[..at] == tagged && v[at..at + 8] == MARK && v[at + 8..] == digest;
    SameSplit(v, at);
    SplitTag(name, tag);
  }

  lemma ValidIsJoined(v: string)
    requires var at := LastMark(v); at >= 0 && HasTag(v[..at]) && IsHex(v[at + 8..], 64)
    requires TagOf(v[..LastMark(v)]) != "" && Lower(TagOf(v[..LastMark(v)])) != "latest"
    ensures exists name, tag, digest :: IsReference(v, name, tag, digest)
  {
    var at := LastMark(v);
    var name := UnsplitTag(v[..at]);
    assert v == v[..at] + v[at..at + 8] + v[at + 8..];
    assert IsReference(v, name, TagOf(v[..at]), v[at + 8..]);
  }

  /** What the renderer's check means: a name, a tag and a digest, joined with
      exactly one mark and without any variable. */
  lemma ReferenceShape(v: string)
    ensures RenderValid(v) <==>
      !Contains(v, "${") && CountMark(v) == 1 && exists name, tag, digest :: IsReference(v, name, tag, digest)
  {
    if RenderValid(v) {
      ValidIsJoined(v);
    }
    if exists name, tag, digest :: IsReference(v, name, tag, digest) {
      var name, tag, digest :| IsReference(v, name, tag, digest);
      JoinedIsValid(v, name, tag, digest);
    }
  }

  lemma {:induction false} CountMarkSkips(a: string, b: string)
    requires '@' !in a
    ensures CountMark(a + b) == CountMark(b)
  {
    if a == [] {
      assert a + b == b;
    } else {
      assert (a + b)[1..] == a[1..] + b;
      assert |a + b| >= 8 ==> (a + b)[..8][0] == a[0] != MARK[0];
      if |a + b| >= 8 {
        CountMarkSkips(a[1..], b);
      }
    }
  }

  lemma CountMarkOnce(a: string, b: string)
    requires '@' !in a && '@' !in b
    ensures CountMark(a + (MARK + b)) == 1
  {
    CountMarkSkips(a, MARK + b);
    assert (MARK + b)[..8] == MARK && (MARK + b)[8..] == b;
    CountMarkSkips(b, []);
    assert b + [] == b;
  }

  lemma EmptyTagParts(v: string, digest: string)
    requires IsHex(digest, 64) && v == "app:" + (MARK + digest)
    ensures CountMark(v) == 1 && LastMark(v) == 4 == LastIndex(v, '@')
    ensures v[..4] == "app" + [':'] + [] && v[5..][..7] == MARK[1..] && v[12..] == digest
  {
    CountMarkOnce("app:", digest);
    assert v[4..12] == MARK && v[12..] == digest && v[..4] == "app:";
    SameSplit(v, 4);
    assert v[5..][..7] == v[4..12][1..];
  }

  /** A reference with an empty tag: the bundle accepts it, the renderer does not. */
  lemma EmptyTagSplitsThem(digest: string)
    requires IsHex(digest, 64)
    ensures var v := "app:" + (MARK + digest); BundleValid(v) && !RenderValid(v)
  {
    var v := "app:" + (MARK + digest);
    EmptyTagParts(v, digest);
    AppHasEmptyTag();
    NoVariable(v);
    assert MARK[1..] == "sha256:";
    ValidatorsAgree(v);
  }

  lemma AppHasEmptyTag()
    ensures var tagged := "app" + [':'] + []; HasTag(tagged) && TagOf(tagged) == "" && Lower(TagOf(tagged)) != "latest"
  {
    SplitTag("app", []);
  }

  lemma NoVariable(v: string)
    requires '$' !in v
    ensures !Contains(v, "${")
  {
    forall i | 0 <= i <= |v| - 2 ensures !("${" <= v[i..]) {
      assert v[i..][0] == v[i] != '$';
    }
  }

  // ----- counting marks

  lemma MarkAfterDrop(v: string, k: nat, i: int)
    requires k <= |v| && i >= 0
    ensures MarkAt(v[k..], i) <==> MarkAt(v, i + k)
  {
    if i + k + 8 <= |v| {
      assert v[k..][i..i + 8] == v[i + k..i + k + 8];
    }
  }

  lemma {:induction false} NoMarkCounted(v: string)
    ensures CountMark(v) == 0 <==> forall i :: !MarkAt(v, i)
    decreases |v|
  {
    if |v| >= 8 {
      if v[..8] == MARK {
        assert MarkAt(v, 0);
      } else {
        NoMarkCounted(v[1..]);
        forall i | MarkAt(v, i) ensures i > 0 && MarkAt(v[1..], i - 1) {
          assert i != 0;
          MarkAfterDrop(v, 1, i - 1);
        }
        forall i | MarkAt(v[1..], i) ensures MarkAt(v, i + 1) {
          MarkAfterDrop(v, 1, i);
        }
      }
    }
  }

  /** No mark begins inside another. */
  lemma MarksApart(v: string, i: int)
    requires |v| >= 8 && v[..8] == MARK && MarkAt(v, i) && i > 0
    ensures i >= 8
  {
    assert v[i..i + 8][0] == v[i];
    assert forall k :: 0 < k < 8 ==> v[k] == v[..8][k] == MARK[k] != '@';
  }

  ghost predicate OnlyMark(v: string, i: int) { MarkAt(v, i) && forall j :: MarkAt(v, j) ==> j == i }

  /** The count is one exactly when the mark stands in one place. */
  lemma {:induction false} OneMarkCounted(v: string)
    ensures CountMark(v) == 1 <==> exists i :: OnlyMark(v, i)
    decreases |v|
  {
    if |v| >= 8 {
      if v[..8] == MARK {
        NoMarkCounted(v[8..]);
        OneMarkFirst(v);
      } else {
        OneMarkCounted(v[1..]);
        ShiftedMarks(v);
      }
    }
  }

  lemma OneMarkFirst(v: string)
    requires |v| >= 8 && v[..8] == MARK
    ensures (exists i :: OnlyMark(v, i)) <==> forall i :: !MarkAt(v[8..], i)
  {
    assert MarkAt(v, 0);
    if forall i :: !MarkAt(v[8..], i) {
      forall i | MarkAt(v, i) ensures i == 0 {
        if i > 0 {
          MarksApart(v, i);
          MarkAfterDrop(v, 8, i - 8);
        }
      }
      assert OnlyMark(v, 0);
    }
    if i :| OnlyMark(v, i) {
      forall k ensures !MarkAt(v[8..], k) {
        if k >= 0 {
          MarkAfterDrop(v, 8, k);
        }
      }
    }
  }

  lemma ShiftedMarks(v: string)
    requires |v| >= 8 && v[..8] != MARK
    ensures (exists i :: OnlyMark(v, i)) <==> exists i :: OnlyMark(v[1..], i)
  {
    assert !MarkAt(v, 0);
    forall i | i >= 0 ensures MarkAt(v[1..], i) <==> MarkAt(v, i + 1) {
      MarkAfterDrop(v, 1, i);
    }
    if i :| OnlyMark(v, i) {
      OnlyMarkBefore(v, i);
    }
    if i :| OnlyMark(v[1..], i) {
      OnlyMarkAfter(v, i);
    }
  }

  lemma OnlyMarkBefore(v: string, i: int)
    requires v != [] && OnlyMark(v, i) && !MarkAt(v, 0)
    ensures OnlyMark(v[1..], i - 1)
  {
    MarkAfterDrop(v, 1, i - 1);
    forall j | MarkAt(v[1..], j) ensures j == i - 1 {
      MarkAfterDrop(v, 1, j);
    }
  }

  lemma OnlyMarkAfter(v: string, i: int)
    requires v != [] && OnlyMark(v[1..], i) && !MarkAt(v, 0)
    ensures OnlyMark(v, i + 1)
  {
    MarkAfterDrop(v, 1, i);
    forall j | MarkAt(v, j) ensures j == i + 1 {
      assert j != 0;
      MarkAfterDrop(v, 1, j - 1);
    }
  }
}
