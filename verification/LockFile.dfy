/** Reading a uv lock file (scripts/finalize_release_evidence.py:537-565, 653-721). */
module LockFile {
  import opened Text
  import opened Markers
  import opened Closure

  datatype SourceKind = ProjectSource | RegistrySource | OtherSource

  /** A package entry. `hashes` is None when an artifact is malformed or there is none. */
  datatype Entry =
    | MalformedEntry
    | Entry(name: string, kind: SourceKind, package: Package, hashes: Option<set<string>>)

  datatype LockError =
    | BadIdentity | NotRegistry | DuplicateName | BadArtifacts | NotOneProject
    | ClosureFault(fault: Fault) | InvalidClosure

  datatype LockFacts = LockFacts(
    all: set<PackageIdentity>, runtime: set<PackageIdentity>, hashes: map<PackageIdentity, set<string>>)

  predicate Identified(e: Entry) { e.Entry? && NonBlank(e.name) && NonBlank(e.package.version) }

  predicate IsProject(e: Entry) { e.Entry? && e.kind == ProjectSource }

  predicate IsRegistry(e: Entry) { e.Entry? && e.kind == RegistrySource }

  /** A registry entry is what the graph and the hash table hold under its name. */
  ghost predicate Recorded(e: Entry, lock: Lock, hashes: map<string, set<string>>) {
    && Identified(e) && e.kind != OtherSource
    && (IsRegistry(e) ==>
          var n := CanonicalName(e.name);
          n in lock && lock[n] == e.package && n in hashes && e.hashes == Some(hashes[n]))
  }

  ghost predicate NamedBy(entries: seq<Entry>, n: string) {
    exists i :: 0 <= i < |entries| && IsRegistry(entries[i]) && CanonicalName(entries[i].name) == n
  }

  ghost predicate Clash(entries: seq<Entry>, i: int, j: int)
    requires 0 <= i < |entries| && 0 <= j < |entries|
  {
    IsRegistry(entries[i]) && IsRegistry(entries[j]) && CanonicalName(entries[i].name) == CanonicalName(entries[j].name)
  }

  /** The graph and the hash table list exactly the registry entries, each once. */
  ghost predicate Lists(entries: seq<Entry>, lock: Lock, hashes: map<string, set<string>>) {
    && hashes.Keys == lock.Keys
    && (forall i :: 0 <= i < |entries| ==> Recorded(entries[i], lock, hashes))
    && (forall n :: n in lock ==> NamedBy(entries, n))
    && (forall i, j :: 0 <= i < j < |entries| ==> !Clash(entries, i, j))
  }

  lemma ListsProject(entries: seq<Entry>, e: Entry, lock: Lock, hashes: map<string, set<string>>)
    requires Lists(entries, lock, hashes) && Identified(e) && e.kind == ProjectSource
    ensures Lists(entries + [e], lock, hashes)
  {
    forall n | n in lock ensures NamedBy(entries + [e], n) {
      NamedByLonger(entries, e, n);
    }
    forall i, j | 0 <= i < j < |entries + [e]| ensures !Clash(entries + [e], i, j) {
      assert j < |entries| ==> !Clash(entries, i, j);
    }
  }

  lemma NamedByLonger(entries: seq<Entry>, e: Entry, n: string)
    requires NamedBy(entries, n)
    ensures NamedBy(entries + [e], n)
  {
    var i :| 0 <= i < |entries| && IsRegistry(entries[i]) && CanonicalName(entries[i].name) == n;
    assert (entries + [e])[i] == entries[i];
  }

  lemma ListsRegistry(entries: seq<Entry>, e: Entry, lock: Lock, hashes: map<string, set<string>>)
    requires Lists(entries, lock, hashes) && Identified(e) && IsRegistry(e) && e.hashes.Some?
    requires CanonicalName(e.name) !in lock
    ensures var n := CanonicalName(e.name);
      Lists(entries + [e], lock[n := e.package], hashes[n := e.hashes.value])
  {
    var n, after := CanonicalName(e.name), entries + [e];
    var lock', hashes' := lock[n := e.package], hashes[n := e.hashes.value];
    forall i | 0 <= i < |entries| ensures Recorded(after[i], lock', hashes')
      && (IsRegistry(after[i]) ==> CanonicalName(after[i].name) != n) {
      assert Recorded(entries[i], lock, hashes);
    }
    assert NamedBy(after, n) by {
      assert after[|entries|] == e;
    }
    forall m | m in lock'.Keys ensures NamedBy(after, m) {
      if m != n {
        NamedByLonger(entries, e, m);
      }
    }
    forall i, j | 0 <= i < j < |after| ensures !Clash(after, i, j) {
      assert j < |entries| ==> !Clash(entries, i, j);
    }
  }

  /** The project entry is at position p and nowhere else. */
  ghost predicate OnlyProject(entries: seq<Entry>, p: int, root: Package) {
    && 0 <= p < |entries| && IsProject(entries[p]) && entries[p].package == root
    && forall i :: 0 <= i < |entries| && i != p ==> !IsProject(entries[i])
  }

  ghost predicate NoProject(entries: seq<Entry>) {
    forall i :: 0 <= i < |entries| ==> !IsProject(entries[i])
  }

  /** What the entries must give: one project and a non-empty graph. */
  ghost predicate Listed(entries: seq<Entry>, root: Package, lock: Lock, hashes: map<string, set<string>>) {
    Lists(entries, lock, hashes) && lock != map[] && exists p :: OnlyProject(entries, p, root)
  }

  /** Entries list one graph at most. */
  lemma ListsIsUnique(entries: seq<Entry>, lock: Lock, hashes: map<string, set<string>>, lock': Lock,
      hashes': map<string, set<string>>)
    requires Lists(entries, lock, hashes) && Lists(entries, lock', hashes')
    ensures lock == lock' && hashes == hashes'
  {
    forall n | n in lock || n in lock'
      ensures n in lock && n in lock' && lock[n] == lock'[n] && hashes[n] == hashes'[n]
    {
      var i :| 0 <= i < |entries| && IsRegistry(entries[i]) && CanonicalName(entries[i].name) == n;
      assert Recorded(entries[i], lock, hashes) && Recorded(entries[i], lock', hashes');
    }
  }

  lemma ListedIsUnique(entries: seq<Entry>, root: Package, lock: Lock, hashes: map<string, set<string>>,
                       root': Package, lock': Lock, hashes': map<string, set<string>>)
    requires Listed(entries, root, lock, hashes) && Listed(entries, root', lock', hashes')
    ensures root == root' && lock == lock' && hashes == hashes'
  {
    ListsIsUnique(entries, lock, hashes, lock', hashes');
    var p :| OnlyProject(entries, p, root);
    var q :| OnlyProject(entries, q, root');
  }

  ghost predicate Unlistable(entries: seq<Entry>) { forall root, lock, hashes :: !Listed(entries, root, lock, hashes) }

  lemma BadEntryIsUnlistable(entries: seq<Entry>, i: nat)
    requires i < |entries|
    requires !Identified(entries[i]) || entries[i].kind == OtherSource
      || (IsRegistry(entries[i]) && entries[i].hashes.None?)
    ensures Unlistable(entries)
  {
    forall root, lock, hashes ensures !Listed(entries, root, lock, hashes) {
      assert !Recorded(entries[i], lock, hashes);
    }
  }

  lemma DuplicateIsUnlistable(entries: seq<Entry>, i: nat, lock: Lock, hashes: map<string, set<string>>)
    requires i < |entries| && IsRegistry(entries[i])
    requires Lists(entries[..i], lock, hashes) && CanonicalName(entries[i].name) in lock
    ensures Unlistable(entries)
  {
    var n := CanonicalName(entries[i].name);
    assert NamedBy(entries[..i], n);
    var j :| 0 <= j < i && IsRegistry(entries[..i][j]) && CanonicalName(entries[..i][j].name) == n;
    assert Clash(entries, j, i);
  }

  lemma EmptyIsUnlistable(entries: seq<Entry>, hashes: map<string, set<string>>)
    requires Lists(entries, map[], hashes)
    ensures Unlistable(entries)
  {
    forall root, lock, hashes' ensures !Listed(entries, root, lock, hashes') {
      if Lists(entries, lock, hashes') {
        ListsIsUnique(entries, map[], hashes, lock, hashes');
      }
    }
  }

  /** The first loop of `_parse_uv_lock`. It fails only on entries that list no
      project with a graph. */
  method ReadEntries(entries: seq<Entry>)
    returns (r: Result<(Package, Lock, map<string, set<string>>), LockError>)
    ensures r.Ok? ==> Listed(entries, r.value.0, r.value.1, r.value.2)
    ensures r.Err? ==> Unlistable(entries)
  {
    var roots: seq<Package>, packages: Lock, hashesByName: map<string, set<string>> := [], map[], map[];
    ghost var p, q := 0, 0;
    for i := 0 to |entries|
      invariant Lists(entries[..i], packages, hashesByName)
      invariant Roots(entries[..i], roots, p, q)
    {
      var e := entries[i];
      if !Identified(e) {
        BadEntryIsUnlistable(entries, i);
        return Err(BadIdentity);
      }
      assert entries[..i + 1] == entries[..i] + [e];
      RootsNext(entries[..i], e, roots, p, q);
      if e.kind == ProjectSource {
        ListsProject(entries[..i], e, packages, hashesByName);
        p, q := if |roots| == 0 then i else p, i;
        roots := roots + [e.package];
        continue;
      }
      if e.kind != RegistrySource {
        BadEntryIsUnlistable(entries, i);
        return Err(NotRegistry);
      }
      var name := CanonicalName(e.name);
      if name in packages {
        DuplicateIsUnlistable(entries, i, packages, hashesByName);
        return Err(DuplicateName);
      }
      if e.hashes.None? {
        BadEntryIsUnlistable(entries, i);
        return Err(BadArtifacts);
      }
      ListsRegistry(entries[..i], e, packages, hashesByName);
      packages, hashesByName := packages[name := e.package], hashesByName[name := e.hashes.value];
    }
    assert entries[..|entries|] == entries;
    if |roots| != 1 || packages == map[] {
      if |roots| == 1 {
        EmptyIsUnlistable(entries, hashesByName);
      }
      return Err(NotOneProject);
    }
    return Ok((roots[0], packages, hashesByName));
  }

  /** The projects among the entries: none, one at p, or several, p and q being the
      first and the last. */
  ghost predicate Roots(entries: seq<Entry>, roots: seq<Package>, p: int, q: int) {
    && (|roots| == 0 ==> NoProject(entries))
    && (|roots| == 1 ==> OnlyProject(entries, p, roots[0]))
    && (|roots| >= 1 ==> 0 <= p < |entries| && IsProject(entries[p]))
    && (|roots| >= 2 ==> 0 <= p < q < |entries| && IsProject(entries[q]))
  }

  lemma RootsNext(entries: seq<Entry>, e: Entry, roots: seq<Package>, p: int, q: int)
    requires Roots(entries, roots, p, q)
    ensures IsProject(e) ==> Roots(entries + [e], roots + [e.package], if |roots| == 0 then |entries| else p, |entries|)
    ensures !IsProject(e) ==> Roots(entries + [e], roots, p, q)
  {
    var more := entries + [e];
    assert forall i :: 0 <= i < |entries| ==> more[i] == entries[i];
  }

  /** The hashes by identity, built from the hashes by name. */
  ghost predicate HashesOf(lock: Lock, byName: map<string, set<string>>, hashes: map<PackageIdentity, set<string>>) {
    && (forall n, v :: (n, v) in hashes <==> n in lock && v == lock[n].version)
    && (forall n, v :: (n, v) in hashes ==> n in byName && hashes[(n, v)] == byName[n])
  }

  function HashesByIdentity(lock: Lock, byName: map<string, set<string>>): (hashes: map<PackageIdentity, set<string>>)
    requires byName.Keys == lock.Keys
    ensures HashesOf(lock, byName, hashes)
  {
    var identities := set n | n in lock :: (n, lock[n].version);
    assert forall n :: n in lock ==> (n, lock[n].version) in identities;
    map id | id in identities :: byName[id.0]
  }

  /** Something is derivable for the runtime. */
  ghost predicate HasRuntime(root: Package, lock: Lock, platform: Environment) {
    exists name :: name in lock && Derivable(root, lock, platform, false, Slot(name, ""))
  }

  /** Lock files that can be read: they list a project and its graph, nothing
      derivable is faulty, and the runtime needs something. */
  ghost predicate FileAccepted(entries: seq<Entry>, platform: Environment) {
    exists root, lock, byName ::
      && Listed(entries, root, lock, byName)
      && !RootFault(root, platform, true) && !DerivableFault(root, lock, platform, true)
      && HasRuntime(root, lock, platform)
  }

  /** No marker of the project, or of a package that it needs with all its extras,
      is true in one of its contexts and fails in another. */
  ghost predicate UnmixedFile(entries: seq<Entry>, platform: Environment) {
    forall root, lock, byName :: Listed(entries, root, lock, byName) ==> UnmixedLock(root, lock, platform, true)
  }

  /** That is so when no marker compares a version with `extra`. */
  lemma UniformFileIsUnmixed(entries: seq<Entry>, platform: Environment)
    requires forall i :: 0 <= i < |entries| && entries[i].Entry? ==> UniformEntries(entries[i].package.dependencies)
    ensures UnmixedFile(entries, platform)
  {
    forall root: Package, lock: Lock, byName: map<string, set<string>> | Listed(entries, root, lock, byName)
      ensures UnmixedLock(root, lock, platform, true)
    {
      forall n | n in lock ensures UniformEntries(lock[n].dependencies) {
        var i :| 0 <= i < |entries| && IsRegistry(entries[i]) && CanonicalName(entries[i].name) == n;
        assert Recorded(entries[i], lock, byName);
      }
      UniformLockIsUnmixed(root, lock, platform, true);
    }
  }

  /** Acceptance can be decided on the one graph that is listed. */
  lemma AcceptedByListing(entries: seq<Entry>, platform: Environment, root: Package, lock: Lock,
      byName: map<string, set<string>>)
    requires Listed(entries, root, lock, byName)
    ensures FileAccepted(entries, platform) <==>
      && !RootFault(root, platform, true) && !DerivableFault(root, lock, platform, true)
      && HasRuntime(root, lock, platform)
  {
    if FileAccepted(entries, platform) {
      var root', lock', byName' :|
        && Listed(entries, root', lock', byName')
        && !RootFault(root', platform, true) && !DerivableFault(root', lock', platform, true)
        && HasRuntime(root', lock', platform);
      ListedIsUnique(entries, root, lock, byName, root', lock', byName');
    }
  }

  lemma RuntimeNonEmpty(root: Package, lock: Lock, platform: Environment, runtime: set<PackageIdentity>)
    requires IsClosure(root, lock, platform, false, runtime)
    ensures runtime != {} <==> HasRuntime(root, lock, platform)
  {
    if runtime != {} {
      var id :| id in runtime;
      var (name, version) := id;
      assert (name, version) in runtime;
    }
    if HasRuntime(root, lock, platform) {
      var name :| name in lock && Derivable(root, lock, platform, false, Slot(name, ""));
      assert (name, lock[name].version) in runtime;
    }
  }

  /** `_parse_uv_lock`. On success there is one project entry, the closures are
      those of the listed graph, the runtime closure is part of the full one, and
      every closure member has the hashes of its entry. In the worst iteration order,
      and in any order when no marker mixes truth and failure, it succeeds exactly on
      acceptable files. */
  method ParseLock(entries: seq<Entry>, platform: Environment, worst: bool)
    returns (facts: Result<LockFacts, LockError>,
             ghost root: Package, ghost lock: Lock, ghost byName: map<string, set<string>>)
    ensures facts.Ok? ==> Listed(entries, root, lock, byName)
    ensures facts.Ok? ==> IsClosure(root, lock, platform, true, facts.value.all)
    ensures facts.Ok? ==> IsClosure(root, lock, platform, false, facts.value.runtime)
    ensures facts.Ok? ==> {} < facts.value.runtime <= facts.value.all
    ensures facts.Ok? ==> HashesOf(lock, byName, facts.value.hashes) && facts.value.all <= facts.value.hashes.Keys
    ensures facts.Err? ==> !FileAccepted(entries, platform)
    ensures worst || UnmixedFile(entries, platform) ==> (facts.Ok? <==> FileAccepted(entries, platform))
  {
    root, lock, byName := Package("", None, None), map[], map[];
    var read := ReadEntries(entries);
    if read.Err? {
      return Err(read.error), root, lock, byName;
    }
    var (project, packages, hashesByName) := read.value;
    root, lock, byName := project, packages, hashesByName;
    AcceptedByListing(entries, platform, root, lock, byName);
    FaultsAreMonotone(root, lock, platform);
    assert UnmixedFile(entries, platform) ==> UnmixedLock(root, lock, platform, true);
    if UnmixedLock(root, lock, platform, true) {
      UnmixedIsMonotone(root, lock, platform);
    }
    var all, _ := DependencyClosure(project, packages, platform, true, worst);
    if all.Err? {
      return Err(ClosureFault(all.error)), root, lock, byName;
    }
    var runtime, _ := DependencyClosure(project, packages, platform, false, worst);
    if runtime.Err? {
      return Err(ClosureFault(runtime.error)), root, lock, byName;
    }
    RuntimeWithinAll(project, packages, platform, all.value, runtime.value);
    assert runtime.value <= all.value; // so the last test below never rejects
    RuntimeNonEmpty(root, lock, platform, runtime.value);
    if all.value == {} || runtime.value == {} || !(runtime.value <= all.value) {
      return Err(InvalidClosure), root, lock, byName;
    }
    var hashes := HashesByIdentity(packages, hashesByName);
    ClosureHasHashes(project, packages, platform, all.value, hashes);
    facts := Ok(LockFacts(all.value, runtime.value, hashes));
  }

  lemma ClosureHasHashes(root: Package, lock: Lock, platform: Environment,
                         closure: set<PackageIdentity>, hashes: map<PackageIdentity, set<string>>)
    requires IsClosure(root, lock, platform, true, closure)
    requires forall n, v :: n in lock && v == lock[n].version ==> (n, v) in hashes
    ensures closure <= hashes.Keys
  {
    forall id | id in closure ensures id in hashes {
      var (name, version) := id;
      assert (name, version) in closure;
    }
  }

  // ----- entries, one kind at a time

  /** An entry without a name or a version, of another source, or from the registry and
      without hashes, makes the file unacceptable. */
  lemma BadEntryRejects(entries: seq<Entry>, platform: Environment, i: nat)
    requires i < |entries|
    requires var e := entries[i];
      || e.MalformedEntry? || IsBlankText(e.name) || IsBlankText(e.package.version) || e.kind == OtherSource
      || (e.kind == RegistrySource && e.hashes.None?)
    ensures !FileAccepted(entries, platform)
  {
    forall root: Package, lock: Lock, hashes: map<string, set<string>>
      ensures !Listed(entries, root, lock, hashes)
    {
      assert !Recorded(entries[i], lock, hashes);
    }
  }

  /** So do two registry entries whose names differ in case and separators only. */
  lemma SameNameRejects(entries: seq<Entry>, platform: Environment, i: nat, j: nat)
    requires i < j < |entries| && entries[i].Entry? && entries[j].Entry?
    requires entries[i].kind == RegistrySource && entries[j].kind == RegistrySource
    requires CanonicalName(entries[i].name) == CanonicalName(entries[j].name)
    ensures !FileAccepted(entries, platform)
  {
    assert Clash(entries, i, j);
  }
}
