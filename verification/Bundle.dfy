/** Deployment bundles: collecting members, validating their list, and verifying
    a file tree against it (scripts/release_bundle.py:184-277, 524-598, 817-912). */
module Bundle {
  import opened Ordering
  import opened Text
  import opened BundlePaths

  /** An entry of a file tree; `mode` is its permission bits. */
  datatype Node = File(sha256: string, mode: int, links: nat) | Directory(mode: int) | Symlink | Special

  /** Everything below the bundle root. */
  type Tree = map<Path, Node>

  /** A member record: its path as text, digest, type and mode. */
  datatype Member = Member(path: string, sha256: string, regular: bool, mode: int)

  const METADATA: Path := ["production", "release-metadata.json"]
  const SIGNATURE: Path := ["production", "release-metadata.sigstore.json"]

  // octal 0755, 0644, 0444 and 0600
  const DIRECTORY_MODE := 493
  const METADATA_MODE := 420
  const SIGNATURE_MODE := 292
  const MEMBER_MODES: set<int> := {384, 420, 493}

  /** What holds of every real file tree: names are names, parents are directories. */
  ghost predicate WellFormed(tree: Tree) {
    && (forall p :: p in tree ==> IsPath(p))
    && (forall p :: p in tree && |p| > 1 ==> p[..|p| - 1] in tree && tree[p[..|p| - 1]].Directory?)
  }

  /** `PurePosixPath(value).parts`. */
  function PartsOf(value: string): Path { if value == "." then [] else SplitSlash(value) }

  /** `_validate_member_path`. A lone dot has no parts and passes. */
  predicate ValidMemberPath(value: string) {
    && value != [] && Strip(value) == value
    && (forall i :: 0 <= i < |value| ==> value[i] != '\\' && value[i] as int >= 32)
    && (value == "." || IsPath(SplitSlash(value)))
    && PartsOf(value) != METADATA && PartsOf(value) != SIGNATURE
  }

  predicate IsDigest(s: string) {
    |s| == 64 && forall i :: 0 <= i < 64 ==> IsDigit(s[i]) || 'a' <= s[i] <= 'f'
  }

  lemma PathTextIsNotDot(p: Path)
    requires IsPath(p)
    ensures PathText(p) != "." && PartsOf(PathText(p)) == p
  {
    SplitOfText(p);
    if |p| > 1 {
      assert |PathText(p)| >= 3;
    }
  }

  // ----- collecting

  predicate IsMemberFile(tree: Tree, p: Path) {
    p in tree && !tree[p].Directory? && p != METADATA && p != SIGNATURE
  }

  /** `_bundle_member_record` succeeds. */
  predicate Collectable(tree: Tree, p: Path)
    requires p in tree
  {
    tree[p].File? && tree[p].links == 1 && ValidMemberPath(PathText(p))
  }

  function RecordOf(tree: Tree, p: Path): Member
    requires p in tree && tree[p].File?
  {
    Member(PathText(p), tree[p].sha256, true, tree[p].mode)
  }

  predicate Collected(tree: Tree, p: Path, m: Member) {
    p in tree && Collectable(tree, p) && m == RecordOf(tree, p)
  }

  /** Paths in order of parts, each once. */
  ghost predicate ListsInOrder(paths: seq<Path>, elements: set<Path>) {
    StrictlyIncreasing(PartsLess, paths) && Elements(paths) == elements
  }

  /** `sorted(root.rglob("*"))`; the tree is read in an arbitrary order. */
  method SortedPaths(tree: Tree) returns (paths: seq<Path>)
    ensures ListsInOrder(paths, tree.Keys)
  {
    var listed: seq<Path>, remaining := [], tree.Keys;
    while remaining != {}
      invariant remaining <= tree.Keys
      invariant forall p :: p in listed <==> p in tree.Keys && p !in remaining
      invariant forall i, j :: 0 <= i < j < |listed| ==> listed[i] != listed[j]
      decreases remaining
    {
      var p :| p in remaining;
      remaining := remaining - {p};
      listed := listed + [p];
    }
    paths := Sort(PartsLess, listed);
    PartsLessIsTotal();
    TotalIsWeak(PartsLess);
    SortCorrect(PartsLess, listed);
    SortOfDistinct(PartsLess, listed);
    assert Elements(listed) == tree.Keys;
  }

  /** The collected list: the member files in order of parts, with their records. */
  ghost predicate IsCollection(tree: Tree, paths: seq<Path>, members: seq<Member>) {
    && StrictlyIncreasing(PartsLess, paths)
    && (forall p :: p in paths <==> IsMemberFile(tree, p))
    && |members| == |paths|
    && (forall i :: 0 <= i < |paths| ==> Collected(tree, paths[i], members[i]))
  }

  /** `_collect_bundle_members`. */
  method CollectMembers(tree: Tree) returns (r: Option<seq<Member>>, ghost paths: seq<Path>)
    ensures r.Some? <==> forall p :: IsMemberFile(tree, p) ==> Collectable(tree, p)
    ensures r.Some? ==> IsCollection(tree, paths, r.value)
  {
    var all := SortedPaths(tree);
    var members: seq<Member> := [];
    paths := [];
    for n := 0 to |all|
      invariant forall p :: p in paths <==> p in all[..n] && IsMemberFile(tree, p)
      invariant StrictlyIncreasing(PartsLess, paths)
      invariant |members| == |paths|
      invariant forall i :: 0 <= i < |paths| ==> Collected(tree, paths[i], members[i])
    {
      var p := all[n];
      assert p in Elements(all);
      assert all[..n + 1] == all[..n] + [p];
      if !IsMemberFile(tree, p) {
        continue;
      }
      if !Collectable(tree, p) {
        return None, paths;
      }
      forall i | 0 <= i < |paths| ensures PartsLess(paths[i], p) {
        assert paths[i] in paths;
        var k :| 0 <= k < n && all[..n][k] == paths[i];
        assert PartsLess(all[k], all[n]);
      }
      members := members + [RecordOf(tree, p)];
      paths := paths + [p];
    }
    assert all[..|all|] == all;
    forall p | IsMemberFile(tree, p) ensures p in paths {
      assert p in Elements(all);
    }
    return Some(members), paths;
  }

  // ----- the member list of the metadata

  function MemberPaths(members: seq<Member>): seq<string> {
    seq(|members|, i requires 0 <= i < |members| => members[i].path)
  }

  predicate MemberWellFormed(m: Member) {
    ValidMemberPath(m.path) && IsDigest(m.sha256) && m.regular && m.mode in MEMBER_MODES
  }

  ghost predicate MembersValid(members: seq<Member>) {
    && members != []
    && (forall i :: 0 <= i < |members| ==> MemberWellFormed(members[i]))
    && StrictlyIncreasing(StrLess, MemberPaths(members))
  }

  /** `_validate_bundle_members`: a non-empty list of well-formed records whose
      paths strictly increase as text. */
  method ValidateMembers(members: seq<Member>) returns (ok: bool)
    ensures ok <==> MembersValid(members)
  {
    if members == [] {
      return false;
    }
    var paths: seq<string> := [];
    for n := 0 to |members|
      invariant paths == MemberPaths(members)[..n]
      invariant forall i, j :: 0 <= i < j < n ==> paths[i] != paths[j]
      invariant forall i :: 0 <= i < n ==> MemberWellFormed(members[i])
    {
      var m := members[n];
      assert MemberPaths(members)[n] == m.path;
      if !MemberWellFormed(m) {
        return false;
      }
      if m.path in paths {
        RepeatedPath(members, n);
        return false;
      }
      paths := paths + [m.path];
    }
    assert paths == MemberPaths(members);
    StrLessIsTotal();
    SortedExactly(StrLess, paths);
    return paths == Sort(StrLess, paths);
  }

  lemma RepeatedPath(members: seq<Member>, n: nat)
    requires n < |members| && members[n].path in MemberPaths(members)[..n]
    ensures !StrictlyIncreasing(StrLess, MemberPaths(members))
  {
    var i :| 0 <= i < n && MemberPaths(members)[..n][i] == members[n].path;
    assert MemberPaths(members)[i] == MemberPaths(members)[n];
    StrLessIsTotal();
    assert !StrLess(members[n].path, members[n].path);
  }

  // ----- directories

  /** A proper, non-empty beginning of the path. */
  predicate IsParentOf(d: Path, p: Path) { d != [] && |d| < |p| && p[..|d|] == d }

  /** The inner loop: from the path's parent up to the root. */
  method AddParents(path: Path, before: set<Path>) returns (directories: set<Path>)
    ensures forall d :: d in directories <==> d in before || IsParentOf(d, path)
  {
    directories := before;
    var length: nat := if path == [] then 0 else |path| - 1;
    while length > 0
      invariant length <= |path| && (path != [] ==> length < |path|)
      invariant forall d :: d in directories <==> d in before || (IsParentOf(d, path) && |d| > length)
    {
      directories := directories + {path[..length]};
      length := length - 1;
    }
  }

  ghost predicate SomeParent(paths: seq<Path>, d: Path) { exists p :: p in paths && IsParentOf(d, p) }

  /** `_manifest_parent_directories`. */
  method ParentDirectories(paths: seq<Path>) returns (directories: set<Path>)
    ensures forall d :: d in directories <==> SomeParent(paths, d)
  {
    directories := {};
    for n := 0 to |paths|
      invariant forall d :: d in directories <==> SomeParent(paths[..n], d)
    {
      directories := AddParents(paths[n], directories);
      assert paths[..n + 1] == paths[..n] + [paths[n]];
      forall d ensures SomeParent(paths[..n + 1], d) <==> SomeParent(paths[..n], d) || IsParentOf(d, paths[n]) {
      }
    }
    assert paths[..|paths|] == paths;
  }

  lemma {:induction false} ParentsAreDirectories(tree: Tree, p: Path, d: Path)
    requires WellFormed(tree) && p in tree && IsParentOf(d, p)
    ensures d in tree && tree[d].Directory?
    decreases |p|
  {
    var parent := p[..|p| - 1];
    if d != parent {
      assert parent[..|d|] == d;
      ParentsAreDirectories(tree, parent, d);
    }
  }

  // ----- verification

  ghost predicate Declares(members: seq<Member>, p: Path) {
    exists i :: 0 <= i < |members| && PartsOf(members[i].path) == p
  }

  /** The member is in the tree as declared. */
  predicate Stands(tree: Tree, m: Member) {
    var p := PartsOf(m.path);
    p in tree && tree[p] == File(m.sha256, m.mode, 1) && m.regular
  }

  /** A directory that some declared member or the metadata needs. */
  ghost predicate Needed(members: seq<Member>, d: Path) {
    IsParentOf(d, METADATA) || exists i :: 0 <= i < |members| && IsParentOf(d, PartsOf(members[i].path))
  }

  predicate MetadataInPlace(tree: Tree, rootMode: int) {
    && rootMode == DIRECTORY_MODE
    && METADATA in tree && tree[METADATA].File? && tree[METADATA].mode == METADATA_MODE
    && (SIGNATURE in tree ==> tree[SIGNATURE].File? && tree[SIGNATURE].mode == SIGNATURE_MODE)
  }

  /** The files, apart from the metadata and its signature, are the declared ones. */
  ghost predicate FilesMatch(tree: Tree, members: seq<Member>) {
    && (forall i :: 0 <= i < |members| ==> Stands(tree, members[i]))
    && (forall p :: IsMemberFile(tree, p) ==> Declares(members, p))
  }

  /** The directories are the ones the declared files need. */
  ghost predicate DirectoriesMatch(tree: Tree, members: seq<Member>) {
    && (forall d :: d in tree && tree[d].Directory? <==> Needed(members, d))
    && (forall d :: d in tree && tree[d].Directory? ==> tree[d].mode == DIRECTORY_MODE)
  }

  /** Every directory has the right mode and is needed. */
  ghost predicate DirectoriesAllowed(tree: Tree, members: seq<Member>) {
    forall d :: d in tree && tree[d].Directory? ==> tree[d].mode == DIRECTORY_MODE && Needed(members, d)
  }

  /** The tree is exactly what the member list says: the declared files as declared,
      the metadata, at most its signature, and the directories these need. */
  ghost predicate Pinned(tree: Tree, rootMode: int, members: seq<Member>) {
    MetadataInPlace(tree, rootMode) && FilesMatch(tree, members) && DirectoriesMatch(tree, members)
  }

  function ByPath(members: seq<Member>): (m: map<string, Member>)
    ensures forall path :: path in m ==> m[path] in members && m[path].path == path
    ensures forall i :: 0 <= i < |members| ==> members[i].path in m
  {
    if members == [] then map[]
    else
      var last := members[|members| - 1];
      ByPath(members[..|members| - 1])[last.path := last]
  }

  /** Declared and collected records agree. */
  ghost predicate SameMembers(members: seq<Member>, actual: seq<Member>) {
    forall m :: m in members <==> m in actual
  }

  lemma PathsDetermine(members: seq<Member>)
    requires StrictlyIncreasing(StrLess, MemberPaths(members))
    ensures forall m, m' :: m in members && m' in members && m.path == m'.path ==> m == m'
  {
    StrLessIsTotal();
    forall m, m' | m in members && m' in members && m.path == m'.path ensures m == m' {
      var i :| 0 <= i < |members| && members[i] == m;
      var j :| 0 <= j < |members| && members[j] == m';
      assert MemberPaths(members)[i] == MemberPaths(members)[j];
      assert !StrLess(m.path, m.path);
    }
  }

  lemma CollectedPathsDetermine(tree: Tree, paths: seq<Path>, actual: seq<Member>)
    requires WellFormed(tree) && IsCollection(tree, paths, actual)
    ensures forall m, m' :: m in actual && m' in actual && m.path == m'.path ==> m == m'
  {
    forall m, m' | m in actual && m' in actual && m.path == m'.path ensures m == m' {
      var i :| 0 <= i < |actual| && actual[i] == m;
      var j :| 0 <= j < |actual| && actual[j] == m';
      SplitOfText(paths[i]);
      SplitOfText(paths[j]);
    }
  }

  /** The loops that compare declared with actual records. */
  method CompareMembers(members: seq<Member>, actual: seq<Member>) returns (same: bool)
    requires forall m, m' :: m in members && m' in members && m.path == m'.path ==> m == m'
    requires forall m, m' :: m in actual && m' in actual && m.path == m'.path ==> m == m'
    ensures same <==> SameMembers(members, actual)
  {
    var declared, observed := ByPath(members), ByPath(actual);
    if declared.Keys - observed.Keys != {} {
      var path :| path in declared.Keys - observed.Keys;
      assert declared[path] in members && declared[path] !in actual;
      return false;
    }
    if observed.Keys - declared.Keys != {} {
      var path :| path in observed.Keys - declared.Keys;
      assert observed[path] in actual && observed[path] !in members;
      return false;
    }
    var remaining := declared.Keys;
    while remaining != {}
      invariant remaining <= declared.Keys
      invariant forall path :: path in declared.Keys - remaining ==> observed[path] == declared[path]
      decreases remaining
    {
      var path :| path in remaining;
      var expected, found := declared[path], observed[path];
      if found.regular != expected.regular || found.mode != expected.mode || found.sha256 != expected.sha256 {
        assert expected in members && found in actual && found.path == expected.path;
        assert expected !in actual;
        return false;
      }
      assert found == expected;
      remaining := remaining - {path};
    }
    assert forall path :: path in declared ==> observed[path] == declared[path];
    forall m | m in members ensures m in actual {
      assert declared[m.path] == m;
    }
    forall m | m in actual ensures m in members {
      assert observed[m.path] == m;
    }
    return true;
  }

  lemma SameMeansPinnedFiles(tree: Tree, paths: seq<Path>, actual: seq<Member>, members: seq<Member>)
    requires WellFormed(tree) && IsCollection(tree, paths, actual) && SameMembers(members, actual)
    ensures FilesMatch(tree, members)
  {
    forall i | 0 <= i < |members| ensures Stands(tree, members[i]) {
      assert members[i] in actual;
      var j :| 0 <= j < |actual| && actual[j] == members[i];
      PathTextIsNotDot(paths[j]);
    }
    forall p | IsMemberFile(tree, p) ensures Declares(members, p) {
      assert p in paths;
      var j :| 0 <= j < |paths| && paths[j] == p;
      PathTextIsNotDot(p);
      assert actual[j] in members;
      var i :| 0 <= i < |members| && members[i] == actual[j];
      assert PartsOf(members[i].path) == p;
    }
  }

  /** A declared path, read and written again, is itself. */
  lemma DeclaredText(m: Member)
    requires ValidMemberPath(m.path)
    ensures PathText(PartsOf(m.path)) == m.path || m.path == "."
  {
    TextOfSplit(m.path);
  }

  lemma {:induction false} TextOfSplit(s: string)
    ensures PathText(SplitSlash(s)) == s
  {
    if s != [] {
      TextOfSplit(s[1..]);
      var rest := SplitSlash(s[1..]);
      if s[0] == '/' {
        assert PathText([[]] + rest) == [] + ['/'] + PathText(([[]] + rest)[1..]);
        assert ([[]] + rest)[1..] == rest;
        assert s == ['/'] + s[1..];
      } else {
        var first := [s[0]] + rest[0];
        assert ([first] + rest[1..])[1..] == rest[1..];
        assert s == [s[0]] + s[1..];
        if |rest| == 1 {
          assert PathText([first] + rest[1..]) == first;
        } else {
          assert PathText(rest) == rest[0] + ['/'] + PathText(rest[1..]);
          assert PathText([first] + rest[1..]) == first + ['/'] + PathText(rest[1..]);
        }
      }
    }
  }

  lemma PinnedFilesMeanSame(tree: Tree, members: seq<Member>, paths: seq<Path>, actual: seq<Member>)
    requires WellFormed(tree) && MembersValid(members) && FilesMatch(tree, members)
    requires IsCollection(tree, paths, actual)
    ensures SameMembers(members, actual)
  {
    forall m | m in members ensures m in actual {
      var i :| 0 <= i < |members| && members[i] == m;
      assert Stands(tree, members[i]) && MemberWellFormed(members[i]);
      var p := PartsOf(m.path);
      assert IsMemberFile(tree, p);
      DeclaredText(m);
      var j :| 0 <= j < |paths| && paths[j] == p;
      assert actual[j] == m;
    }
    forall m | m in actual ensures m in members {
      var j :| 0 <= j < |actual| && actual[j] == m;
      assert paths[j] in paths;
      assert Declares(members, paths[j]);
      var i :| 0 <= i < |members| && PartsOf(members[i].path) == paths[j];
      assert Stands(tree, members[i]) && MemberWellFormed(members[i]);
      DeclaredText(members[i]);
      assert members[i] == m;
    }
  }

  lemma PinnedIsCollectable(tree: Tree, members: seq<Member>, p: Path)
    requires WellFormed(tree) && MembersValid(members) && FilesMatch(tree, members) && IsMemberFile(tree, p)
    ensures Collectable(tree, p)
  {
    assert Declares(members, p);
    var i :| 0 <= i < |members| && PartsOf(members[i].path) == p;
    assert Stands(tree, members[i]) && MemberWellFormed(members[i]);
    DeclaredText(members[i]);
  }

  function DeclaredPaths(members: seq<Member>): seq<Path> {
    seq(|members|, i requires 0 <= i < |members| => PartsOf(members[i].path)) + [METADATA]
  }

  lemma NeededExactly(members: seq<Member>, d: Path)
    ensures Needed(members, d) <==> SomeParent(DeclaredPaths(members), d)
  {
    var paths := DeclaredPaths(members);
    assert paths[|members|] == METADATA;
    if Needed(members, d) && !IsParentOf(d, METADATA) {
      var i :| 0 <= i < |members| && IsParentOf(d, PartsOf(members[i].path));
      assert paths[i] == PartsOf(members[i].path);
    }
    if SomeParent(paths, d) {
      var p :| p in paths && IsParentOf(d, p);
      var i :| 0 <= i < |paths| && paths[i] == p;
    }
  }

  /** The directory loop: every directory has the right mode and is needed. */
  method CheckDirectories(tree: Tree, members: seq<Member>) returns (ok: bool)
    ensures ok <==> DirectoriesAllowed(tree, members)
  {
    var actual: set<Path>, remaining := {}, tree.Keys;
    while remaining != {}
      invariant remaining <= tree.Keys
      invariant forall d :: d in actual <==> d in tree.Keys - remaining && tree[d].Directory?
      invariant forall d :: d in actual ==> tree[d].mode == DIRECTORY_MODE
      decreases remaining
    {
      var d :| d in remaining;
      if tree[d].Directory? {
        if tree[d].mode != DIRECTORY_MODE {
          return false;
        }
        actual := actual + {d};
      }
      remaining := remaining - {d};
    }
    var expected := ParentDirectories(DeclaredPaths(members));
    forall d ensures d in expected <==> Needed(members, d) {
      NeededExactly(members, d);
    }
    return actual <= expected;
  }

  /** Accepting a well-formed tree whose directories are all needed means that
      every needed directory is there. */
  lemma NeededAreThere(tree: Tree, members: seq<Member>)
    requires WellFormed(tree) && METADATA in tree
    requires forall i :: 0 <= i < |members| ==> Stands(tree, members[i])
    ensures forall d :: Needed(members, d) ==> d in tree && tree[d].Directory?
  {
    forall d | Needed(members, d) ensures d in tree && tree[d].Directory? {
      if IsParentOf(d, METADATA) {
        ParentsAreDirectories(tree, METADATA, d);
      } else {
        var i :| 0 <= i < |members| && IsParentOf(d, PartsOf(members[i].path));
        assert Stands(tree, members[i]);
        ParentsAreDirectories(tree, PartsOf(members[i].path), d);
      }
    }
  }

  lemma NoneMissing(tree: Tree, needed: Path -> bool)
    requires forall d :: needed(d) ==> d in tree && tree[d].Directory?
    ensures (forall d :: d in tree && tree[d].Directory? <==> needed(d))
        && (forall d :: d in tree && tree[d].Directory? ==> tree[d].mode == DIRECTORY_MODE)
      <==> forall d :: d in tree && tree[d].Directory? ==> tree[d].mode == DIRECTORY_MODE && needed(d)
  {
  }

  /** So once the files match, it is enough that no directory is unneeded. */
  lemma NoDirectoryIsMissing(tree: Tree, rootMode: int, members: seq<Member>)
    requires WellFormed(tree) && MetadataInPlace(tree, rootMode) && FilesMatch(tree, members)
    ensures DirectoriesMatch(tree, members)
      <==> DirectoriesAllowed(tree, members)
  {
    NeededAreThere(tree, members);
    AllNeeded(tree, members);
  }

  lemma AllNeeded(tree: Tree, members: seq<Member>)
    requires forall d :: Needed(members, d) ==> d in tree && tree[d].Directory?
    ensures DirectoriesMatch(tree, members)
      <==> DirectoriesAllowed(tree, members)
  {
    var needed := (d: Path) => Needed(members, d);
    assert forall d :: needed(d) == Needed(members, d);
    NoneMissing(tree, needed);
  }

  /** Collect the actual records and compare them with the declared ones. */
  method CheckFiles(tree: Tree, members: seq<Member>) returns (ok: bool)
    requires WellFormed(tree) && MembersValid(members)
    ensures ok <==> FilesMatch(tree, members)
  {
    var actual, paths := CollectMembers(tree);
    if actual.None? {
      ghost var p :| IsMemberFile(tree, p) && !Collectable(tree, p);
      if FilesMatch(tree, members) {
        PinnedIsCollectable(tree, members, p);
      }
      return false;
    }
    PathsDetermine(members);
    CollectedPathsDetermine(tree, paths, actual.value);
    ok := CompareMembers(members, actual.value);
    if ok {
      SameMeansPinnedFiles(tree, paths, actual.value, members);
    } else if FilesMatch(tree, members) {
      PinnedFilesMeanSame(tree, members, paths, actual.value);
    }
  }

  /** `_verify_exact_bundle_members`: on a real file tree it accepts exactly when
      the tree is what the member list says, no more and no less. */
  method VerifyExactMembers(tree: Tree, rootMode: int, members: seq<Member>) returns (ok: bool)
    requires WellFormed(tree) && MembersValid(members)
    ensures ok <==> Pinned(tree, rootMode, members)
  {
    if !MetadataInPlace(tree, rootMode) {
      return false;
    }
    ok := CheckFiles(tree, members);
    if ok {
      NoDirectoryIsMissing(tree, rootMode, members);
      ok := CheckDirectories(tree, members);
    }
  }

  // ----- assembling, then verifying

  /** A tree before its metadata is written, with its collected member list. */
  ghost predicate Gathered(tree: Tree, paths: seq<Path>, members: seq<Member>) {
    && WellFormed(tree) && METADATA !in tree && SIGNATURE !in tree
    && METADATA[..1] in tree && tree[METADATA[..1]].Directory?
    && IsCollection(tree, paths, members)
  }

  ghost predicate RecordsAllowed(members: seq<Member>) {
    && members != []
    && forall i :: 0 <= i < |members| ==> IsDigest(members[i].sha256) && members[i].mode in MEMBER_MODES
  }

  /** The collected list, in order of parts, is a valid member list exactly when its
      records are allowed and no member's directory has a sibling that continues its
      name with a character below the separator. */
  lemma CollectedListIsValid(tree: Tree, paths: seq<Path>, members: seq<Member>)
    requires Gathered(tree, paths, members)
    ensures MembersValid(members) <==> RecordsAllowed(members) && !SomeCrossing(paths)
  {
    forall i | 0 <= i < |paths| ensures IsPath(paths[i]) && Collected(tree, paths[i], members[i]) {
      assert paths[i] in tree;
    }
    SortAgreement(paths);
    assert MemberPaths(members) == Texts(paths);
  }

  lemma CollectionWithMetadata(tree: Tree, paths: seq<Path>, members: seq<Member>, metadata: Node)
    requires METADATA !in tree && IsCollection(tree, paths, members)
    ensures IsCollection(tree[METADATA := metadata], paths, members)
  {
    var after := tree[METADATA := metadata];
    forall p ensures IsMemberFile(after, p) <==> IsMemberFile(tree, p) {
    }
    forall i | 0 <= i < |paths| ensures Collected(after, paths[i], members[i]) {
      assert Collected(tree, paths[i], members[i]);
    }
  }

  lemma WellFormedWithFile(tree: Tree, path: Path, file: Node)
    requires WellFormed(tree) && IsPath(path) && path !in tree
    requires |path| > 1 ==> path[..|path| - 1] in tree && tree[path[..|path| - 1]].Directory?
    ensures WellFormed(tree[path := file])
  {
    var after := tree[path := file];
    forall p | p in after && |p| > 1 ensures p[..|p| - 1] in after && after[p[..|p| - 1]].Directory? {
      if p != path {
        assert p[..|p| - 1] in tree;
      }
    }
  }

  lemma MetadataPath()
    ensures IsPath(METADATA) && METADATA[..|METADATA| - 1] == METADATA[..1]
  {
  }

  lemma WellFormedWithMetadata(tree: Tree, metadata: Node)
    requires WellFormed(tree) && METADATA !in tree && METADATA[..1] in tree && tree[METADATA[..1]].Directory?
    ensures WellFormed(tree[METADATA := metadata])
  {
    MetadataPath();
    WellFormedWithFile(tree, METADATA, metadata);
  }

  lemma MetadataStands(tree: Tree, sha256: string)
    requires SIGNATURE !in tree
    ensures MetadataInPlace(tree[METADATA := File(sha256, METADATA_MODE, 1)], DIRECTORY_MODE)
  {
    assert METADATA[1] != SIGNATURE[1] by {
      assert |METADATA[1]| != |SIGNATURE[1]|;
    }
  }

  lemma SameDirectories(tree: Tree, metadata: Node, members: seq<Member>)
    requires METADATA !in tree && !metadata.Directory?
    ensures DirectoriesAllowed(tree[METADATA := metadata], members) <==> DirectoriesAllowed(tree, members)
  {
    var after := tree[METADATA := metadata];
    if DirectoriesAllowed(after, members) {
      forall d | d in tree && tree[d].Directory? ensures tree[d].mode == DIRECTORY_MODE && Needed(members, d) {
        assert d in after && after[d] == tree[d];
      }
    }
  }

  /** A gathered tree with its metadata is verified against its own list exactly when
      its records and directories are allowed and nothing crosses. */
  lemma AssembledIsVerified(tree: Tree, paths: seq<Path>, members: seq<Member>, sha256: string)
    requires Gathered(tree, paths, members)
    ensures var after := tree[METADATA := File(sha256, METADATA_MODE, 1)];
      && WellFormed(after)
      && (MembersValid(members) && Pinned(after, DIRECTORY_MODE, members)
          <==> RecordsAllowed(members) && DirectoriesAllowed(tree, members) && !SomeCrossing(paths))
  {
    var metadata := File(sha256, METADATA_MODE, 1);
    var after := tree[METADATA := metadata];
    CollectedListIsValid(tree, paths, members);
    WellFormedWithMetadata(tree, metadata);
    CollectionWithMetadata(tree, paths, members, metadata);
    SameMeansPinnedFiles(after, paths, members, members);
    MetadataStands(tree, sha256);
    NoDirectoryIsMissing(after, DIRECTORY_MODE, members);
    SameDirectories(tree, metadata, members);
    PinnedByDirectories(after, members);
  }

  lemma PinnedByDirectories(tree: Tree, members: seq<Member>)
    requires MetadataInPlace(tree, DIRECTORY_MODE) && FilesMatch(tree, members)
    requires DirectoriesMatch(tree, members) <==> DirectoriesAllowed(tree, members)
    ensures Pinned(tree, DIRECTORY_MODE, members) <==> DirectoriesAllowed(tree, members)
  {
  }

  // ----- the conditions can be met

  function ExampleTree(digest: string): Tree {
    map[["production"] := Directory(DIRECTORY_MODE), ["a"] := File(digest, 420, 1)]
  }

  lemma ExampleIsCollected(digest: string)
    ensures IsCollection(ExampleTree(digest), [["a"]], [Member("a", digest, true, 420)])
  {
    var tree, file: Path := ExampleTree(digest), ["a"];
    SplitOfText(file);
    assert !IsSpace("a"[0]) && Strip("a") == "a";
    assert Collected(tree, file, Member("a", digest, true, 420));
    assert forall p :: p in [file] <==> IsMemberFile(tree, p);
  }

  lemma ExampleDirectory(members: seq<Member>)
    ensures METADATA[..1] == ["production"] && Needed(members, ["production"])
  {
    assert IsParentOf(["production"], METADATA);
  }

  lemma AloneNothingCrosses(p: Path)
    ensures !SomeCrossing([p])
  {
    assert forall d :: !CrossesAt(p, p, d);
  }

  /** A small tree that assembly can leave behind. */
  lemma AssembledExample(digest: string)
    requires IsDigest(digest)
    ensures var members := [Member("a", digest, true, 420)];
      && Gathered(ExampleTree(digest), [["a"]], members) && RecordsAllowed(members)
      && DirectoriesAllowed(ExampleTree(digest), members) && !SomeCrossing([["a"]])
  {
    ExampleIsCollected(digest);
    ExampleDirectory([Member("a", digest, true, 420)]);
    AloneNothingCrosses(["a"]);
    MetadataIsNoExample(digest);
  }

  lemma MetadataIsNoExample(digest: string)
    ensures METADATA !in ExampleTree(digest) && SIGNATURE !in ExampleTree(digest) && WellFormed(ExampleTree(digest))
  {
    assert |METADATA| == 2 && |SIGNATURE| == 2;
  }

  // ----- a lone dot

  /** A member list may name a lone dot, but then no tree is pinned by it. */
  lemma DotIsNeverPinned(tree: Tree, rootMode: int, members: seq<Member>, i: nat)
    requires WellFormed(tree) && i < |members| && members[i].path == "."
    ensures !Pinned(tree, rootMode, members)
  {
    assert PartsOf(members[i].path) == [];
    assert !Stands(tree, members[i]);
  }

  lemma DotIsValid(digest: string)
    requires IsDigest(digest)
    ensures MembersValid([Member(".", digest, true, 420)])
  {
    assert !IsSpace("."[0]) && Strip(".") == ".";
    assert |METADATA| == 2 && |SIGNATURE| == 2;
  }
}
