/** Copying source directories into a bundle, without caches
    (scripts/release_bundle.py:602-614, 804-831, 912-930). */
module BundleCopy {
  import opened Ordering
  import opened Text
  import opened BundlePaths
  import opened Bundle

  const PYCACHE := "__pycache__"
  const SKIPPED_NAMES: set<string> := {".DS_Store", ".pytest_cache", ".ruff_cache", ".mypy_cache"}

  const DEVELOPMENT_NAMES: set<string> := {".git", PYCACHE, ".pytest_cache", ".ruff_cache", ".mypy_cache"}

  /** Anything in a `__pycache__` is skipped; of the other names, the entry alone. */
  predicate Skipped(p: Path) { p == [] || PYCACHE in p || p[|p| - 1] in SKIPPED_NAMES }

  predicate Kept(source: Tree, p: Path) { p in source && !Skipped(p) }

  /** A kept entry can be copied. */
  predicate Copyable(node: Node) { node.File? || node.Directory? }

  /** What becomes of an entry: the copy of a file has one link, and every directory of
      the bundle gets the same mode in the end. */
  function CopiedNode(node: Node): Node {
    if node.File? then File(node.sha256, node.mode, 1) else Directory(DIRECTORY_MODE)
  }

  ghost predicate AboveKept(source: Tree, d: Path) { exists p :: Kept(source, p) && IsParentOf(d, p) }

  /** The copy holds what is kept and every directory above it, kept itself or not. */
  ghost predicate IsCopy(source: Tree, copy: Tree) {
    && (forall p :: p in copy <==> Kept(source, p) || AboveKept(source, p))
    && forall p :: p in copy ==>
         copy[p] == if Kept(source, p) then CopiedNode(source[p]) else Directory(DIRECTORY_MODE)
  }

  // ----- the loop

  /** A directory made with its missing parents. */
  ghost predicate WithDirectory(before: Tree, d: Path, after: Tree) {
    && (forall q :: q in after <==> q in before || (d != [] && q == d) || IsParentOf(q, d))
    && forall q :: q in after ==> after[q] == if q in before then before[q] else Directory(DIRECTORY_MODE)
  }

  /** `mkdir(parents=True, exist_ok=True)`, nothing being in the way. */
  method MakeDirectory(before: Tree, d: Path) returns (after: Tree)
    ensures WithDirectory(before, d, after)
  {
    after := before;
    var length: nat := |d|;
    while length > 0
      invariant length <= |d|
      invariant forall q :: q in after <==>
        q in before || (length < |q| <= |d| && q == d[..|q|])
      invariant forall q :: q in after ==> after[q] == if q in before then before[q] else Directory(DIRECTORY_MODE)
    {
      if d[..length] !in after {
        after := after[d[..length] := Directory(DIRECTORY_MODE)];
      }
      length := length - 1;
    }
    assert d[..|d|] == d;
  }

  /** The entries of the source seen so far. */
  function SeenOf(source: Tree, paths: seq<Path>): Tree { map p | p in source && p in paths :: source[p] }

  lemma SkipOne(source: Tree, copy: Tree, p: Path, node: Node)
    requires IsCopy(source, copy) && p !in source && Skipped(p)
    ensures IsCopy(source[p := node], copy)
  {
    var more := source[p := node];
    forall q ensures Kept(more, q) <==> Kept(source, q) {
    }
    forall d ensures AboveKept(more, d) <==> AboveKept(source, d) {
      if AboveKept(source, d) {
        var q :| Kept(source, q) && IsParentOf(d, q);
        assert Kept(more, q);
      }
      if AboveKept(more, d) {
        var q :| Kept(more, q) && IsParentOf(d, q);
        assert Kept(source, q);
      }
    }
  }

  /** One more kept entry puts itself and its parents above something kept. */
  lemma KeptWithOne(source: Tree, p: Path, node: Node)
    requires p !in source && !Skipped(p)
    ensures var more := source[p := node];
      && (forall q :: Kept(more, q) <==> Kept(source, q) || q == p)
      && (forall d :: AboveKept(more, d) <==> AboveKept(source, d) || IsParentOf(d, p))
  {
    var more := source[p := node];
    forall d ensures AboveKept(more, d) <==> AboveKept(source, d) || IsParentOf(d, p) {
      if AboveKept(source, d) {
        var q :| Kept(source, q) && IsParentOf(d, q);
        assert Kept(more, q);
      }
      assert Kept(more, p);
    }
  }

  /** What is kept above a kept entry is a directory. */
  ghost predicate Unblocked(source: Tree, p: Path, node: Node) {
    && (forall d :: d in source && IsParentOf(d, p) ==> source[d].Directory?)
    && (!node.Directory? ==> !AboveKept(source, p))
  }

  lemma CopyDirectory(source: Tree, copy: Tree, p: Path, node: Node, after: Tree)
    requires IsCopy(source, copy) && p !in source && !Skipped(p) && node.Directory?
    requires Unblocked(source, p, node) && WithDirectory(copy, p, after)
    ensures IsCopy(source[p := node], after)
  {
    KeptWithOne(source, p, node);
  }

  lemma CopyFile(source: Tree, copy: Tree, p: Path, node: Node, after: Tree)
    requires IsCopy(source, copy) && p !in source && !Skipped(p) && node.File?
    requires Unblocked(source, p, node) && WithDirectory(copy, p[..|p| - 1], after)
    ensures IsCopy(source[p := node], after[p := CopiedNode(node)])
  {
    KeptWithOne(source, p, node);
    var parent := p[..|p| - 1];
    forall d ensures IsParentOf(d, p) <==> (parent != [] && d == parent) || IsParentOf(d, parent) {
      if IsParentOf(d, p) {
        assert parent[..|d|] == d;
      }
      if IsParentOf(d, parent) {
        assert p[..|d|] == parent[..|d|];
      }
    }
  }

  lemma SeenIsUnblocked(source: Tree, paths: seq<Path>, p: Path)
    requires WellFormed(source) && p in source
    ensures Unblocked(SeenOf(source, paths), p, source[p])
  {
    var seen := SeenOf(source, paths);
    forall d | d in seen && IsParentOf(d, p) ensures seen[d].Directory? {
      ParentsAreDirectories(source, p, d);
    }
    if q :| Kept(seen, q) && IsParentOf(p, q) {
      ParentsAreDirectories(source, q, p);
    }
  }

  lemma SeeOne(source: Tree, all: seq<Path>, n: nat)
    requires ListsInOrder(all, source.Keys) && n < |all|
    ensures all[n] in source && all[n] !in SeenOf(source, all[..n])
    ensures SeenOf(source, all[..n + 1]) == SeenOf(source, all[..n])[all[n] := source[all[n]]]
  {
    assert all[n] in Elements(all);
    assert all[..n + 1] == all[..n] + [all[n]];
    PartsLessIsTotal();
    forall i | 0 <= i < n ensures all[..n][i] != all[n] {
      assert PartsLess(all[i], all[n]) && !PartsLess(all[n], all[n]);
    }
  }

  /** The body of the loop for one entry. */
  method CopyOne(ghost seen: Tree, copy: Tree, p: Path, node: Node) returns (r: Option<Tree>)
    requires IsCopy(seen, copy) && p !in seen && Unblocked(seen, p, node)
    ensures r.Some? <==> Skipped(p) || Copyable(node)
    ensures r.Some? ==> IsCopy(seen[p := node], r.value)
  {
    if Skipped(p) {
      SkipOne(seen, copy, p, node);
      return Some(copy);
    }
    match node
    case Directory(_) =>
      var after := MakeDirectory(copy, p);
      CopyDirectory(seen, copy, p, node, after);
      return Some(after);
    case File(_, _, _) =>
      var after := MakeDirectory(copy, p[..|p| - 1]);
      CopyFile(seen, copy, p, node, after);
      return Some(after[p := CopiedNode(node)]);
    case Symlink => return None;
    case Special => return None;
  }

  /** After some entries, in order, the copy is that of these entries. */
  ghost predicate CopiedSoFar(source: Tree, all: seq<Path>, n: nat, copy: Tree) {
    && WellFormed(source) && ListsInOrder(all, source.Keys) && n <= |all|
    && IsCopy(SeenOf(source, all[..n]), copy)
    && forall i :: 0 <= i < n && Kept(source, all[i]) ==> Copyable(source[all[i]])
  }

  method CopyNext(source: Tree, all: seq<Path>, n: nat, copy: Tree) returns (r: Option<Tree>)
    requires n < |all| && CopiedSoFar(source, all, n, copy)
    ensures r.Some? ==> CopiedSoFar(source, all, n + 1, r.value)
    ensures r.None? ==> Kept(source, all[n]) && !Copyable(source[all[n]])
  {
    SeeOne(source, all, n);
    SeenIsUnblocked(source, all[..n], all[n]);
    r := CopyOne(SeenOf(source, all[..n]), copy, all[n], source[all[n]]);
  }

  lemma NothingCopied(source: Tree, all: seq<Path>)
    requires WellFormed(source) && ListsInOrder(all, source.Keys)
    ensures CopiedSoFar(source, all, 0, map[])
  {
  }

  lemma AllCopied(source: Tree, all: seq<Path>, copy: Tree)
    requires CopiedSoFar(source, all, |all|, copy)
    ensures IsCopy(source, copy) && forall p :: Kept(source, p) ==> Copyable(source[p])
  {
    forall p | p in source ensures p in all {
      assert p in Elements(all);
    }
    assert all[..|all|] == all && SeenOf(source, all) == source;
  }

  /** `_copy_real_tree` into a new directory. It fails exactly on a kept entry that is
      neither a file nor a directory. */
  method CopyTree(source: Tree) returns (r: Option<Tree>)
    requires WellFormed(source)
    ensures r.Some? <==> forall p :: Kept(source, p) ==> Copyable(source[p])
    ensures r.Some? ==> IsCopy(source, r.value)
  {
    var all := SortedPaths(source);
    var copy: Tree := map[];
    NothingCopied(source, all);
    for n := 0 to |all|
      invariant CopiedSoFar(source, all, n, copy)
    {
      var copied := CopyNext(source, all, n, copy);
      if copied.None? {
        return None;
      }
      copy := copied.value;
    }
    AllCopied(source, all, copy);
    return Some(copy);
  }

  // ----- what is copied

  /** Nothing in a `__pycache__` is copied; of any other entry of the source, a skipped
      name is copied after all exactly when something kept lies below it. */
  lemma SkippedIsCopiedExactly(source: Tree, copy: Tree, p: Path)
    requires IsCopy(source, copy)
    ensures PYCACHE in p ==> p !in copy
    ensures p in source && Skipped(p) ==> (p in copy <==> AboveKept(source, p))
  {
    if p in copy && !Kept(source, p) {
      var q :| Kept(source, q) && IsParentOf(p, q);
      assert forall i :: 0 <= i < |p| ==> p[i] == q[..|p|][i] == q[i];
    }
  }

  /** So the contents of a tool's cache are copied, although its name is skipped. */
  lemma CacheContentsAreCopied(source: Tree, copy: Tree, cache: Path, name: string)
    requires IsCopy(source, copy) && cache != [] && cache[|cache| - 1] in SKIPPED_NAMES
    requires PYCACHE !in cache && name != PYCACHE && name !in SKIPPED_NAMES
    requires cache + [name] in source && source[cache + [name]].File?
    ensures Skipped(cache) && cache in copy && copy[cache] == Directory(DIRECTORY_MODE)
    ensures cache + [name] in copy && copy[cache + [name]] == CopiedNode(source[cache + [name]])
  {
    var p := cache + [name];
    assert p[..|cache|] == cache && Kept(source, p) && IsParentOf(cache, p);
  }

  // ----- development-only paths

  predicate IsDevelopmentPath(p: Path) { exists i :: 0 <= i < |p| && p[i] in DEVELOPMENT_NAMES }

  /** The first check of `verify_bundle`. */
  ghost predicate Clean(tree: Tree) { forall p :: p in tree ==> !tree[p].Symlink? && !IsDevelopmentPath(p) }

  ghost predicate NoneForDevelopment(source: Tree) { forall p :: Kept(source, p) ==> !IsDevelopmentPath(p) }

  /** The copy passes exactly when nothing that is kept has a development-only part, as
      the contents of a tool's cache have. */
  lemma CleanExactly(source: Tree, copy: Tree)
    requires IsCopy(source, copy)
    ensures Clean(copy) <==> NoneForDevelopment(source)
  {
    if NoneForDevelopment(source) {
      forall p | p in copy ensures !copy[p].Symlink? && !IsDevelopmentPath(p) {
        if !Kept(source, p) {
          var q :| Kept(source, q) && IsParentOf(p, q);
          assert forall i :: 0 <= i < |p| ==> p[i] == q[..|p|][i] == q[i];
        }
      }
    }
  }

  /** A cache with contents thus makes the bundle fail; a `__pycache__` does not. */
  lemma CacheContentsAreRejected(source: Tree, copy: Tree, cache: Path, name: string)
    requires IsCopy(source, copy)
    requires cache != [] && cache[|cache| - 1] in SKIPPED_NAMES && cache[|cache| - 1] in DEVELOPMENT_NAMES
    requires PYCACHE !in cache && name != PYCACHE && name !in SKIPPED_NAMES && cache + [name] in source
    ensures !Clean(copy)
  {
    var p := cache + [name];
    assert p[|cache| - 1] == cache[|cache| - 1];
    assert Kept(source, p) && IsDevelopmentPath(p);
  }

  lemma DevelopmentNameLengths(name: string)
    requires name in DEVELOPMENT_NAMES
    ensures |name| == 4 || |name| == 11 || |name| == 13
  {
  }

  lemma MetadataIsClean()
    ensures !IsDevelopmentPath(METADATA)
  {
    forall i | 0 <= i < |METADATA| ensures METADATA[i] !in DEVELOPMENT_NAMES {
      if METADATA[i] in DEVELOPMENT_NAMES {
        DevelopmentNameLengths(METADATA[i]);
      }
      assert |METADATA[i]| == 10 || |METADATA[i]| == 21;
    }
  }

  lemma CleanWithMetadata(tree: Tree, metadata: Node)
    requires METADATA !in tree && !metadata.Symlink?
    ensures Clean(tree[METADATA := metadata]) <==> Clean(tree)
  {
    var after := tree[METADATA := metadata];
    MetadataIsClean();
    if Clean(after) {
      forall p | p in tree ensures !tree[p].Symlink? && !IsDevelopmentPath(p) {
        assert p in after && after[p] == tree[p];
      }
    }
  }

  lemma CopyIsWellFormed(source: Tree, copy: Tree)
    requires WellFormed(source) && IsCopy(source, copy)
    ensures WellFormed(copy)
  {
    forall p | p in copy ensures IsPath(p) {
      if !Kept(source, p) {
        var q :| Kept(source, q) && IsParentOf(p, q);
        assert forall i :: 0 <= i < |p| ==> p[i] == q[..|p|][i] == q[i];
      }
    }
    forall p | p in copy && |p| > 1 ensures p[..|p| - 1] in copy && copy[p[..|p| - 1]].Directory? {
      ParentIsCopied(source, copy, p);
    }
  }

  lemma ParentIsCopied(source: Tree, copy: Tree, p: Path)
    requires WellFormed(source) && IsCopy(source, copy) && p in copy && |p| > 1
    ensures p[..|p| - 1] in copy && copy[p[..|p| - 1]].Directory?
  {
    var d := p[..|p| - 1];
    if Kept(source, p) {
      ParentOfKept(source, copy, d, p);
    } else {
      var q :| Kept(source, q) && IsParentOf(p, q);
      ParentsCompose(d, p, q);
      ParentOfKept(source, copy, d, q);
    }
  }

  lemma ParentOfKept(source: Tree, copy: Tree, d: Path, p: Path)
    requires WellFormed(source) && IsCopy(source, copy) && Kept(source, p) && IsParentOf(d, p)
    ensures d in copy && copy[d].Directory?
  {
    ParentsAreDirectories(source, p, d);
    assert AboveKept(source, d);
  }

  // ----- the verdict on the bundle, in terms of the source

  ghost predicate HasFileBelow(source: Tree, d: Path) {
    exists f :: Kept(source, f) && source[f].File? && IsParentOf(d, f)
  }

  /** No kept directory is left without a file, except above the metadata. */
  ghost predicate NoneEmptied(source: Tree) {
    forall d :: Kept(source, d) && source[d].Directory? ==> IsParentOf(d, METADATA) || HasFileBelow(source, d)
  }

  lemma ParentsCompose(a: Path, b: Path, c: Path)
    requires IsParentOf(a, b) && IsParentOf(b, c)
    ensures IsParentOf(a, c)
  {
    assert c[..|a|] == c[..|b|][..|a|];
  }

  /** The member files of the copy are the kept files of the source, as they are there. */
  lemma MembersOfCopy(source: Tree, copy: Tree, paths: seq<Path>, members: seq<Member>)
    requires IsCopy(source, copy) && IsCollection(copy, paths, members)
    requires METADATA !in copy && SIGNATURE !in copy
    ensures forall p :: p in paths <==> Kept(source, p) && source[p].File?
    ensures forall i :: 0 <= i < |paths| ==>
      var p := paths[i];
      Kept(source, p) && source[p].File? && members[i] == Member(PathText(p), source[p].sha256, true, source[p].mode)
  {
    forall p ensures p in paths <==> Kept(source, p) && source[p].File? {
      if p in paths {
        var i :| 0 <= i < |paths| && paths[i] == p;
        assert Collected(copy, paths[i], members[i]);
      }
      assert p in paths <==> IsMemberFile(copy, p);
    }
    forall i | 0 <= i < |paths|
      ensures Kept(source, paths[i]) && source[paths[i]].File?
      ensures members[i] == Member(PathText(paths[i]), source[paths[i]].sha256, true, source[paths[i]].mode)
    {
      assert Collected(copy, paths[i], members[i]) && paths[i] in paths;
    }
  }

  /** A directory of the copy is needed by a member or the metadata exactly when it is
      above the metadata or has a kept file below it in the source. */
  lemma NeededInCopy(source: Tree, copy: Tree, paths: seq<Path>, members: seq<Member>, d: Path)
    requires WellFormed(copy) && IsCopy(source, copy) && IsCollection(copy, paths, members)
    requires METADATA !in copy && SIGNATURE !in copy
    ensures Needed(members, d) <==> IsParentOf(d, METADATA) || HasFileBelow(source, d)
  {
    MembersOfCopy(source, copy, paths, members);
    forall i | 0 <= i < |paths| ensures PartsOf(members[i].path) == paths[i] {
      assert paths[i] in paths;
      PathTextIsNotDot(paths[i]);
    }
    if f :| Kept(source, f) && source[f].File? && IsParentOf(d, f) {
      assert f in paths;
      var i :| 0 <= i < |paths| && paths[i] == f;
      assert IsParentOf(d, PartsOf(members[i].path));
    }
  }

  /** Every directory of the copy is a kept one, or has one or a kept file below. */
  lemma DirectoriesOfCopy(source: Tree, copy: Tree, paths: seq<Path>, members: seq<Member>)
    requires WellFormed(source) && IsCopy(source, copy) && IsCollection(copy, paths, members)
    requires forall p :: Kept(source, p) ==> Copyable(source[p])
    requires METADATA !in copy && SIGNATURE !in copy
    ensures DirectoriesAllowed(copy, members) <==> NoneEmptied(source)
  {
    CopyIsWellFormed(source, copy);
    forall d ensures Needed(members, d) <==> IsParentOf(d, METADATA) || HasFileBelow(source, d) {
      NeededInCopy(source, copy, paths, members, d);
    }
    if NoneEmptied(source) {
      forall d | d in copy && copy[d].Directory?
        ensures copy[d].mode == DIRECTORY_MODE && (IsParentOf(d, METADATA) || HasFileBelow(source, d))
      {
        FilledInCopy(source, copy, d);
      }
    }
    if DirectoriesAllowed(copy, members) {
      forall d | Kept(source, d) && source[d].Directory? ensures IsParentOf(d, METADATA) || HasFileBelow(source, d) {
        assert copy[d] == CopiedNode(source[d]);
      }
    }
  }

  lemma FilledInCopy(source: Tree, copy: Tree, d: Path)
    requires IsCopy(source, copy) && NoneEmptied(source) && d in copy && copy[d].Directory?
    requires forall p :: Kept(source, p) ==> Copyable(source[p])
    ensures copy[d].mode == DIRECTORY_MODE && (IsParentOf(d, METADATA) || HasFileBelow(source, d))
  {
    if !Kept(source, d) {
      var q :| Kept(source, q) && IsParentOf(d, q);
      if source[q].Directory? {
        if IsParentOf(q, METADATA) {
          ParentsCompose(d, q, METADATA);
        } else {
          var f :| Kept(source, f) && source[f].File? && IsParentOf(q, f);
          ParentsCompose(d, q, f);
        }
      }
    }
  }

  /** From the sources, laid out as they are to be copied: the assembled bundle is clean
      and verified against its own list exactly when the kept files are allowed, none of
      their paths cross, no kept directory is left without a file, and nothing kept is
      for development only. */
  lemma AssembledFromSource(source: Tree, copy: Tree, paths: seq<Path>, members: seq<Member>, sha256: string)
    requires WellFormed(source) && IsCopy(source, copy) && forall p :: Kept(source, p) ==> Copyable(source[p])
    requires Gathered(copy, paths, members)
    ensures var after := copy[METADATA := File(sha256, METADATA_MODE, 1)];
      && WellFormed(after)
      && (Clean(after) && MembersValid(members) && Pinned(after, DIRECTORY_MODE, members) <==>
          FilesAllowed(source) && NoneEmptied(source) && NoneForDevelopment(source) && !SomeCrossing(paths))
    ensures forall p :: p in paths <==> Kept(source, p) && source[p].File?
  {
    AssembledIsVerified(copy, paths, members, sha256);
    CleanExactly(source, copy);
    CleanWithMetadata(copy, File(sha256, METADATA_MODE, 1));
    DirectoriesOfCopy(source, copy, paths, members);
    MembersOfCopy(source, copy, paths, members);
    RecordsOfCopy(source, paths, members);
  }

  /** There is a kept file, and every one has an allowed digest and mode. */
  ghost predicate FilesAllowed(source: Tree) {
    && (exists p :: Kept(source, p) && source[p].File?)
    && forall p :: Kept(source, p) && source[p].File? ==> IsDigest(source[p].sha256) && source[p].mode in MEMBER_MODES
  }

  lemma RecordsOfCopy(source: Tree, paths: seq<Path>, members: seq<Member>)
    requires |members| == |paths|
    requires forall p :: p in paths <==> Kept(source, p) && source[p].File?
    requires forall i :: 0 <= i < |paths| ==>
      var p := paths[i];
      Kept(source, p) && source[p].File? && members[i] == Member(PathText(p), source[p].sha256, true, source[p].mode)
    ensures RecordsAllowed(members) <==> FilesAllowed(source)
  {
    if RecordsAllowed(members) {
      assert paths[0] in paths;
      forall p | Kept(source, p) && source[p].File?
        ensures IsDigest(source[p].sha256) && source[p].mode in MEMBER_MODES
      {
        var i :| 0 <= i < |paths| && paths[i] == p;
      }
    }
    if FilesAllowed(source) {
      var p :| Kept(source, p) && source[p].File?;
      assert p in paths;
      forall i | 0 <= i < |members| ensures IsDigest(members[i].sha256) && members[i].mode in MEMBER_MODES {
        assert Kept(source, paths[i]) && source[paths[i]].File?;
      }
    }
  }
}
