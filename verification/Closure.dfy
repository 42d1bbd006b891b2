/** The dependency closure of a lock. */
module Closure {
  // A worklist whose markers see the extras activated so far, and the least fixed
  // point it computes (scripts/finalize_release_evidence.py:561-650).

  import opened Text
  import opened Markers
  import opened MarkerTruth

  /** One dependency entry. `extras` is None when the "extra" field is not a list. */
  datatype Dependency =
    | InvalidDependency
    | Dependency(name: string, marker: Marker, extras: Option<seq<string>>)

  /** None stands for a field that is present but has the wrong shape. */
  datatype Package = Package(
    version: string,
    dependencies: Option<seq<Dependency>>,
    optional: Option<map<string, Option<seq<Dependency>>>>)

  type Lock = map<string, Package>

  type PackageIdentity = (string, string)

  datatype Fault =
    | BadEntry | BadName | MarkerFault(error: MarkerError) | BadExtras | BadDependencies
    | BadOptional | AbsentPackage(name: string) | UndefinedExtra

  /** A queue entry: a package and the extras asked of it. */
  datatype Request = Request(name: string, extras: set<string>)

  /** A package in one of its contexts: "" is the package itself, any other
      string one of its extras. */
  datatype Slot = Slot(name: string, extra: string)

  // ----- what the lock means, without any worklist

  predicate WellFormedExtras(d: Dependency)
    requires d.Dependency?
  {
    d.extras.Some? && forall i :: 0 <= i < |d.extras.value| ==> NonBlank(d.extras.value[i])
  }

  predicate Covers(d: Dependency, t: Slot) {
    && d.Dependency? && d.extras.Some?
    && t.name == CanonicalName(d.name)
    && (t.extra == "" || t.extra in d.extras.value)
  }

  /** The entry is an edge in this context. */
  ghost predicate Applicable(d: Dependency, platform: Environment, context: string) {
    && d.Dependency? && NonBlank(d.name) && WellFormedExtras(d)
    && HoldsIn(d.marker, platform, context)
  }

  ghost predicate EntryFault(d: Dependency, platform: Environment, context: string) {
    || d.InvalidDependency?
    || !NonBlank(d.name)
    || FailsIn(d.marker, platform, context)
    || (HoldsIn(d.marker, platform, context) && !WellFormedExtras(d))
  }

  ghost predicate Yields(entries: seq<Dependency>, platform: Environment, context: string, t: Slot) {
    exists d :: d in entries && Applicable(d, platform, context) && Covers(d, t)
  }

  ghost predicate ListFault(entries: Option<seq<Dependency>>, platform: Environment, context: string) {
    entries.None? || exists d :: d in entries.value && EntryFault(d, platform, context)
  }

  function OptionalEntries(p: Package, extra: string): Option<seq<Dependency>> {
    if p.optional.Some? && extra in p.optional.value then p.optional.value[extra] else None
  }

  /** An active extra needs the package's dependencies and the extra's own list. */
  ghost predicate PackageYields(p: Package, platform: Environment, context: string, t: Slot) {
    || (p.dependencies.Some? && Yields(p.dependencies.value, platform, context, t))
    || (context != "" && OptionalEntries(p, context).Some?
        && Yields(OptionalEntries(p, context).value, platform, context, t))
  }

  ghost predicate PackageFault(p: Package, platform: Environment, context: string) {
    || ListFault(p.dependencies, platform, context)
    || p.optional.None?
    || (context != "" && ListFault(OptionalEntries(p, context), platform, context))
  }

  // ----- faults that no iteration order avoids

  /** The contexts of a finite set. */
  ghost function Among(extras: set<string>): iset<string> { iset c | c in extras }

  /** The entry is malformed, or it has a fault in some context and is an edge in none:
      then it is rejected whichever context is looked at first. In the worst order, in
      which failing contexts come first, a fault in any context is enough. */
  ghost predicate EntryStuck(d: Dependency, platform: Environment, worst: bool, contexts: iset<string>) {
    || d.InvalidDependency?
    || !NonBlank(d.name)
    || ((exists c :: c in contexts && EntryFault(d, platform, c))
          && (worst || !exists c :: c in contexts && Applicable(d, platform, c)))
  }

  ghost predicate ListStuck(entries: seq<Dependency>, platform: Environment, worst: bool, contexts: iset<string>) {
    exists d :: d in entries && EntryStuck(d, platform, worst, contexts)
  }

  ghost predicate PackageStuck(p: Package, platform: Environment, worst: bool, contexts: iset<string>) {
    || p.dependencies.None? || ListStuck(p.dependencies.value, platform, worst, contexts)
    || p.optional.None?
    || exists x :: x in contexts && x != "" && ListFault(OptionalEntries(p, x), platform, x)
  }

  ghost predicate Needs(lock: Lock, platform: Environment, s: Slot, t: Slot) {
    s.name in lock && PackageYields(lock[s.name], platform, s.extra, t)
  }

  ghost predicate SlotFault(lock: Lock, platform: Environment, s: Slot) {
    s.name !in lock || PackageFault(lock[s.name], platform, s.extra)
  }

  function RootExtras(root: Package, all: bool): set<string> {
    if all && root.optional.Some? then root.optional.value.Keys else {}
  }

  ghost predicate RootNeeds(root: Package, platform: Environment, all: bool, t: Slot) {
    || (root.dependencies.Some?
        && exists c :: c in {""} + RootExtras(root, all) && Yields(root.dependencies.value, platform, c, t))
    || exists x :: x in RootExtras(root, all) && OptionalEntries(root, x).Some?
         && Yields(OptionalEntries(root, x).value, platform, x, t)
  }

  ghost predicate RootFault(root: Package, platform: Environment, all: bool) {
    || root.optional.None?
    || (exists x :: x in root.optional.value && root.optional.value[x].None?)
    || (exists c :: c in {""} + RootExtras(root, all) && ListFault(root.dependencies, platform, c))
    || exists x :: x in RootExtras(root, all) && ListFault(OptionalEntries(root, x), platform, x)
  }

  ghost predicate RootStuck(root: Package, platform: Environment, all: bool, worst: bool) {
    || root.optional.None?
    || (exists x :: x in root.optional.value && root.optional.value[x].None?)
    || root.dependencies.None?
    || ListStuck(root.dependencies.value, platform, worst, Among({""} + RootExtras(root, all)))
    || exists x :: x in RootExtras(root, all) && ListFault(OptionalEntries(root, x), platform, x)
  }

  /** A chain of requirements from the project to a slot. */
  ghost predicate IsChain(root: Package, lock: Lock, platform: Environment, all: bool, chain: seq<Slot>) {
    && chain != []
    && RootNeeds(root, platform, all, chain[0])
    && forall i :: 0 <= i < |chain| - 1 ==> Needs(lock, platform, chain[i], chain[i + 1])
  }

  /** The slots derivable from the project: the least fixed point. */
  ghost predicate Derivable(root: Package, lock: Lock, platform: Environment, all: bool, t: Slot) {
    exists chain :: IsChain(root, lock, platform, all, chain) && chain[|chain| - 1] == t
  }

  ghost predicate DerivableFault(root: Package, lock: Lock, platform: Environment, all: bool) {
    exists s :: Derivable(root, lock, platform, all, s) && SlotFault(lock, platform, s)
  }

  /** All contexts in which a package is needed. */
  ghost function ContextsOf(root: Package, lock: Lock, platform: Environment, all: bool, name: string): iset<string> {
    iset c | Derivable(root, lock, platform, all, Slot(name, c))
  }

  /** A package that is needed is missing, or stuck over the contexts it is needed in. */
  ghost predicate DerivableStuck(root: Package, lock: Lock, platform: Environment, all: bool, worst: bool) {
    exists n :: Derivable(root, lock, platform, all, Slot(n, ""))
      && (n !in lock || PackageStuck(lock[n], platform, worst, ContextsOf(root, lock, platform, all, n)))
  }

  /** The marker is true in one of the contexts and fails in another. */
  ghost predicate Mixes(marker: Marker, platform: Environment, contexts: iset<string>) {
    exists c, e :: c in contexts && e in contexts && HoldsIn(marker, platform, c) && FailsIn(marker, platform, e)
  }

  /** No marker of the list is true in one of the contexts and fails in another. */
  ghost predicate Unmixed(entries: Option<seq<Dependency>>, platform: Environment, contexts: iset<string>) {
    entries.Some? ==> forall d :: d in entries.value && d.Dependency? ==> !Mixes(d.marker, platform, contexts)
  }

  /** No marker of the project, or of a package that is needed, is true in one of its
      contexts and fails in another. */
  ghost predicate UnmixedLock(root: Package, lock: Lock, platform: Environment, all: bool) {
    && Unmixed(root.dependencies, platform, Among({""} + RootExtras(root, all)))
    && forall n :: n in lock && Derivable(root, lock, platform, all, Slot(n, "")) ==>
         Unmixed(lock[n].dependencies, platform, ContextsOf(root, lock, platform, all, n))
  }

  /** No marker of these entries compares a version with `extra`. */
  ghost predicate UniformEntries(entries: Option<seq<Dependency>>) {
    entries.Some? ==> forall d :: d in entries.value && d.Dependency? ==> Uniform(d.marker)
  }

  ghost predicate UniformLock(root: Package, lock: Lock) {
    UniformEntries(root.dependencies) && forall n :: n in lock ==> UniformEntries(lock[n].dependencies)
  }

  lemma UniformIsUnmixed(entries: Option<seq<Dependency>>, platform: Environment, contexts: iset<string>)
    requires UniformEntries(entries)
    ensures Unmixed(entries, platform, contexts)
  {
    if entries.Some? {
      forall d | d in entries.value && d.Dependency? ensures !Mixes(d.marker, platform, contexts) {
        UniformIsOrderIndependent(d.marker, platform, {});
        ValueIsTruth(d.marker, platform);
        forall c, e | FailsIn(d.marker, platform, e) ensures !HoldsIn(d.marker, platform, c) {
          assert GivesError(d.marker, platform, e) && GivesError(d.marker, platform, c);
        }
      }
    }
  }

  /** Markers that compare no version with `extra` never mix. */
  lemma UniformLockIsUnmixed(root: Package, lock: Lock, platform: Environment, all: bool)
    requires UniformLock(root, lock)
    ensures UnmixedLock(root, lock, platform, all)
  {
    UniformIsUnmixed(root.dependencies, platform, Among({""} + RootExtras(root, all)));
    forall n | n in lock
      ensures Unmixed(lock[n].dependencies, platform, ContextsOf(root, lock, platform, all, n))
    {
      UniformIsUnmixed(lock[n].dependencies, platform, ContextsOf(root, lock, platform, all, n));
    }
  }

  /** In an unmixed list every fault is one that no order avoids. */
  lemma UnmixedFaultIsStuck(entries: Option<seq<Dependency>>, platform: Environment, worst: bool,
      contexts: iset<string>, c: string)
    requires (worst || Unmixed(entries, platform, contexts)) && c in contexts && ListFault(entries, platform, c)
    ensures entries.None? || ListStuck(entries.value, platform, worst, contexts)
  {
    if entries.Some? {
      var d :| d in entries.value && EntryFault(d, platform, c);
      assert EntryStuck(d, platform, worst, contexts);
    }
  }

  lemma RootFaultIsStuck(root: Package, lock: Lock, platform: Environment, all: bool, worst: bool)
    requires worst || UnmixedLock(root, lock, platform, all)
    ensures RootFault(root, platform, all) ==> RootStuck(root, platform, all, worst)
  {
    if c :| c in {""} + RootExtras(root, all) && ListFault(root.dependencies, platform, c) {
      UnmixedFaultIsStuck(root.dependencies, platform, worst, Among({""} + RootExtras(root, all)), c);
    }
  }

  lemma SlotFaultIsStuck(root: Package, lock: Lock, platform: Environment, all: bool, worst: bool, s: Slot)
    requires worst || UnmixedLock(root, lock, platform, all)
    requires Derivable(root, lock, platform, all, s) && SlotFault(lock, platform, s)
    requires Derivable(root, lock, platform, all, Slot(s.name, ""))
    ensures DerivableStuck(root, lock, platform, all, worst)
  {
    var contexts := ContextsOf(root, lock, platform, all, s.name);
    assert s == Slot(s.name, s.extra) && s.extra in contexts;
    if s.name in lock && ListFault(lock[s.name].dependencies, platform, s.extra) {
      UnmixedFaultIsStuck(lock[s.name].dependencies, platform, worst, contexts, s.extra);
    }
    assert s.name !in lock || PackageStuck(lock[s.name], platform, worst, contexts);
  }

  lemma RootSlotsAreDerivable(root: Package, lock: Lock, platform: Environment, all: bool, t: Slot)
    requires RootNeeds(root, platform, all, t)
    ensures Derivable(root, lock, platform, all, t)
  {
    assert IsChain(root, lock, platform, all, [t]);
  }

  lemma NeededSlotsAreDerivable(root: Package, lock: Lock, platform: Environment, all: bool, s: Slot, t: Slot)
    requires Derivable(root, lock, platform, all, s) && Needs(lock, platform, s, t)
    ensures Derivable(root, lock, platform, all, t)
  {
    var chain :| IsChain(root, lock, platform, all, chain) && chain[|chain| - 1] == s;
    LongerChain(root, lock, platform, all, chain, t);
    assert IsChain(root, lock, platform, all, chain + [t]) && (chain + [t])[|chain|] == t;
  }

  lemma LongerChain(root: Package, lock: Lock, platform: Environment, all: bool, chain: seq<Slot>, t: Slot)
    requires IsChain(root, lock, platform, all, chain) && Needs(lock, platform, chain[|chain| - 1], t)
    ensures IsChain(root, lock, platform, all, chain + [t])
  {
    var longer := chain + [t];
    forall i | 0 <= i < |longer| - 1 ensures Needs(lock, platform, longer[i], longer[i + 1]) {
      assert i < |chain| - 1 ==> Needs(lock, platform, chain[i], chain[i + 1]);
    }
  }

  ghost predicate Closed(root: Package, lock: Lock, platform: Environment, all: bool, slots: set<Slot>) {
    && (forall t :: RootNeeds(root, platform, all, t) ==> t in slots)
    && (forall s, t :: s in slots && Needs(lock, platform, s, t) ==> t in slots)
  }

  /** Derivability is the least closed set of slots: every closed set contains it. */
  lemma DerivableIsLeast(root: Package, lock: Lock, platform: Environment, all: bool, slots: set<Slot>, t: Slot)
    requires Closed(root, lock, platform, all, slots)
    requires Derivable(root, lock, platform, all, t)
    ensures t in slots
  {
    var chain :| IsChain(root, lock, platform, all, chain) && chain[|chain| - 1] == t;
    var i := 0;
    while i < |chain| - 1
      invariant 0 <= i < |chain|
      invariant chain[i] in slots
    {
      assert Needs(lock, platform, chain[i], chain[i + 1]);
      i := i + 1;
    }
  }

  /** Requirements only grow when the project's extras are added. */
  lemma DerivableIsMonotone(root: Package, lock: Lock, platform: Environment, t: Slot)
    requires Derivable(root, lock, platform, false, t)
    ensures Derivable(root, lock, platform, true, t)
  {
    var chain :| IsChain(root, lock, platform, false, chain) && chain[|chain| - 1] == t;
    assert IsChain(root, lock, platform, true, chain);
  }

  /** Without the project's extras there is nothing more that can fail. */
  lemma FaultsAreMonotone(root: Package, lock: Lock, platform: Environment)
    ensures RootFault(root, platform, false) ==> RootFault(root, platform, true)
    ensures DerivableFault(root, lock, platform, false) ==> DerivableFault(root, lock, platform, true)
  {
    if DerivableFault(root, lock, platform, false) {
      var s :| Derivable(root, lock, platform, false, s) && SlotFault(lock, platform, s);
      DerivableIsMonotone(root, lock, platform, s);
    }
  }

  /** An unmixed lock stays unmixed without the project's extras. */
  lemma UnmixedIsMonotone(root: Package, lock: Lock, platform: Environment)
    requires UnmixedLock(root, lock, platform, true)
    ensures UnmixedLock(root, lock, platform, false)
  {
    forall n | n in lock && Derivable(root, lock, platform, false, Slot(n, ""))
      ensures Unmixed(lock[n].dependencies, platform, ContextsOf(root, lock, platform, false, n))
    {
      DerivableIsMonotone(root, lock, platform, Slot(n, ""));
      forall c | c in ContextsOf(root, lock, platform, false, n)
        ensures c in ContextsOf(root, lock, platform, true, n) {
        DerivableIsMonotone(root, lock, platform, Slot(n, c));
      }
    }
  }

  /** Whoever needs an extra of a package needs the package. */
  lemma PackageIsDerivable(root: Package, lock: Lock, platform: Environment, all: bool, s: Slot)
    requires Derivable(root, lock, platform, all, s)
    ensures Derivable(root, lock, platform, all, Slot(s.name, ""))
  {
    var chain :| IsChain(root, lock, platform, all, chain) && chain[|chain| - 1] == s;
    var t, init := Slot(s.name, ""), chain[..|chain| - 1];
    if init == [] {
      assert RootNeeds(root, platform, all, t);
      RootSlotsAreDerivable(root, lock, platform, all, t);
    } else {
      var last := chain[|chain| - 2];
      assert IsChain(root, lock, platform, all, init) && init[|init| - 1] == last;
      assert Needs(lock, platform, last, s) && Needs(lock, platform, last, t);
      NeededSlotsAreDerivable(root, lock, platform, all, last, t);
    }
  }

  lemma DerivableFaultIsStuck(root: Package, lock: Lock, platform: Environment, all: bool, worst: bool)
    requires worst || UnmixedLock(root, lock, platform, all)
    ensures DerivableFault(root, lock, platform, all) ==> DerivableStuck(root, lock, platform, all, worst)
  {
    if DerivableFault(root, lock, platform, all) {
      var s :| Derivable(root, lock, platform, all, s) && SlotFault(lock, platform, s);
      PackageIsDerivable(root, lock, platform, all, s);
      SlotFaultIsStuck(root, lock, platform, all, worst, s);
    }
  }

  /** The identities that a closure must consist of. */
  ghost predicate IsClosure(root: Package, lock: Lock, platform: Environment, all: bool,
      closure: set<PackageIdentity>)
  {
    forall name, version :: (name, version) in closure <==>
      && Derivable(root, lock, platform, all, Slot(name, ""))
      && name in lock && version == lock[name].version
  }

  /** There is one closure: the result depends on no iteration or queue order. */
  lemma ClosureIsUnique(root: Package, lock: Lock, platform: Environment, all: bool,
                        a: set<PackageIdentity>, b: set<PackageIdentity>)
    requires IsClosure(root, lock, platform, all, a) && IsClosure(root, lock, platform, all, b)
    ensures a == b
  {
    forall id ensures id in a <==> id in b {
      var (name, version) := id;
      assert (name, version) in a <==> (name, version) in b;
    }
  }

  /** The runtime closure lies inside the all-extras closure on every lock. */
  lemma RuntimeWithinAll(root: Package, lock: Lock, platform: Environment,
                         all: set<PackageIdentity>, runtime: set<PackageIdentity>)
    requires IsClosure(root, lock, platform, true, all) && IsClosure(root, lock, platform, false, runtime)
    ensures runtime <= all
  {
    forall id | id in runtime ensures id in all {
      var (name, version) := id;
      assert (name, version) in runtime;
      DerivableIsMonotone(root, lock, platform, Slot(name, ""));
      assert (name, version) in all;
    }
  }

  // ----- the worklist

  predicate Asks(r: Request, t: Slot) {
    t.name == r.name && (t.extra == "" || t.extra in r.extras)
  }

  ghost predicate Queued(queue: seq<Request>, t: Slot) {
    exists r :: r in queue && Asks(r, t)
  }

  ghost predicate Proper(queue: seq<Request>) {
    forall r :: r in queue ==> "" !in r.extras
  }

  lemma QueuedAppend(queue: seq<Request>, r: Request, t: Slot)
    ensures Queued(queue + [r], t) <==> Queued(queue, t) || Asks(r, t)
  {
    var longer := queue + [r];
    assert r in longer;
    assert forall q :: q in longer <==> q in queue || q == r;
  }

  /** The nested function `enqueue`. */
  method Enqueue(d: Dependency, platform: Environment, worst: bool, contexts: set<string>, queue: seq<Request>)
    returns (r: Result<seq<Request>, Fault>)
    requires contexts != {} && Proper(queue)
    ensures r.Ok? ==> Proper(r.value)
    ensures r.Ok? ==> forall t :: Queued(r.value, t) <==>
      Queued(queue, t) || exists c :: c in contexts && Applicable(d, platform, c) && Covers(d, t)
    ensures r.Err? ==> exists c :: c in contexts && EntryFault(d, platform, c)
    ensures r.Ok? ==> !EntryStuck(d, platform, worst, Among(contexts))
  {
    ghost var some :| some in contexts;
    if d.InvalidDependency? {
      assert EntryFault(d, platform, some);
      return Err(BadEntry);
    }
    if !NonBlank(d.name) {
      assert EntryFault(d, platform, some);
      return Err(BadName);
    }
    var applies, _ := MarkerApplies(d.marker, platform, contexts, worst);
    ValueIsTruth(d.marker, platform);
    if applies.Err? {
      return Err(MarkerFault(applies.error));
    }
    if !applies.value {
      return Ok(queue);
    }
    ghost var holding :| holding in contexts && HoldsIn(d.marker, platform, holding);
    if d.extras.None? || exists i :: 0 <= i < |d.extras.value| && !NonBlank(d.extras.value[i]) {
      assert EntryFault(d, platform, holding);
      return Err(BadExtras);
    }
    var request := Request(CanonicalName(d.name), set x | x in d.extras.value);
    forall t ensures Queued(queue + [request], t) <==> Queued(queue, t) || Asks(request, t) {
      QueuedAppend(queue, request, t);
    }
    assert Applicable(d, platform, holding);
    assert forall t :: Asks(request, t) <==> Covers(d, t);
    return Ok(queue + [request]);
  }

  /** A loop of `enqueue` over one list of entries. */
  method EnqueueAll(entries: seq<Dependency>, platform: Environment, worst: bool, contexts: set<string>,
      queue: seq<Request>)
    returns (r: Result<seq<Request>, Fault>)
    requires contexts != {} && Proper(queue)
    ensures r.Ok? ==> Proper(r.value)
    ensures r.Ok? ==> forall t :: Queued(r.value, t) <==>
      Queued(queue, t) || exists c :: c in contexts && Yields(entries, platform, c, t)
    ensures r.Err? ==> exists c :: c in contexts && ListFault(Some(entries), platform, c)
    ensures r.Ok? ==> !ListStuck(entries, platform, worst, Among(contexts))
  {
    var grown := queue;
    for i := 0 to |entries|
      invariant Proper(grown)
      invariant forall t :: Queued(grown, t) <==>
        Queued(queue, t) || exists c :: c in contexts && Yields(entries[..i], platform, c, t)
      invariant !ListStuck(entries[..i], platform, worst, Among(contexts))
    {
      var d := entries[i];
      assert d in entries;
      ghost var before := grown;
      var next := Enqueue(d, platform, worst, contexts, grown);
      if next.Err? {
        ghost var c :| c in contexts && EntryFault(d, platform, c);
        assert ListFault(Some(entries), platform, c);
        return Err(next.error);
      }
      grown := next.value;
      YieldsAppend(entries, i, platform);
      assert entries[..i + 1] == entries[..i] + [d];
    }
    assert entries[..|entries|] == entries;
    return Ok(grown);
  }

  lemma YieldsAppend(entries: seq<Dependency>, i: nat, platform: Environment)
    requires i < |entries|
    ensures forall c, t :: Yields(entries[..i + 1], platform, c, t) <==>
      Yields(entries[..i], platform, c, t) || (Applicable(entries[i], platform, c) && Covers(entries[i], t))
  {
    assert entries[..i + 1] == entries[..i] + [entries[i]];
  }

  /** Enqueues everything one package needs for its activated extras. */
  method Expand(p: Package, platform: Environment, worst: bool, extras: set<string>, queue: seq<Request>)
    returns (r: Result<seq<Request>, Fault>)
    requires Proper(queue) && "" !in extras
    ensures r.Ok? ==> Proper(r.value)
    ensures r.Ok? ==> p.optional.Some? && extras <= p.optional.value.Keys
    ensures r.Ok? ==> forall t :: Queued(r.value, t) <==>
      Queued(queue, t) || exists c :: c in {""} + extras && PackageYields(p, platform, c, t)
    ensures r.Err? ==> exists c :: c in {""} + extras && PackageFault(p, platform, c)
    ensures r.Ok? ==> !PackageStuck(p, platform, worst, Among({""} + extras))
  {
    var contexts := {""} + extras;
    if p.dependencies.None? {
      assert "" in contexts && PackageFault(p, platform, "");
      return Err(BadDependencies);
    }
    var first := EnqueueAll(p.dependencies.value, platform, worst, contexts, queue);
    if first.Err? {
      ghost var c :| c in contexts && ListFault(p.dependencies, platform, c);
      assert PackageFault(p, platform, c);
      return Err(first.error);
    }
    if p.optional.None? {
      assert "" in contexts && PackageFault(p, platform, "");
      return Err(BadOptional);
    }
    if !(extras <= p.optional.value.Keys) {
      ghost var x :| x in extras && x !in p.optional.value;
      assert x in contexts && PackageFault(p, platform, x);
      return Err(UndefinedExtra);
    }
    var grown := first.value;
    var done: set<string>, remaining := {}, extras;
    while remaining != {}
      invariant Proper(grown)
      invariant done + remaining == extras && done !! remaining
      invariant forall t :: Queued(grown, t) <==>
        || Queued(first.value, t)
        || exists x :: x in done && OptionalEntries(p, x).Some? && Yields(OptionalEntries(p, x).value, platform, x, t)
      invariant forall x :: x in done ==> !ListFault(OptionalEntries(p, x), platform, x)
      decreases remaining
    {
      var x :| x in remaining;
      assert x in contexts && x != "";
      var entries := OptionalEntries(p, x);
      if entries.None? {
        assert PackageFault(p, platform, x);
        return Err(BadOptional);
      }
      var next := EnqueueAll(entries.value, platform, worst, {x}, grown);
      if next.Err? {
        assert ListFault(entries, platform, x);
        assert PackageFault(p, platform, x);
        return Err(next.error);
      }
      assert x in {x};
      NotStuckIsNoFault(entries.value, platform, worst, x);
      grown := next.value;
      done, remaining := done + {x}, remaining - {x};
    }
    assert done == extras;
    return Ok(grown);
  }

  /** In a single context every fault is one that no order avoids. */
  lemma NotStuckIsNoFault(entries: seq<Dependency>, platform: Environment, worst: bool, context: string)
    requires !ListStuck(entries, platform, worst, Among({context}))
    ensures !ListFault(Some(entries), platform, context)
  {
    if d :| d in entries && EntryFault(d, platform, context) {
      assert context in Among({context}) && EntryStuck(d, platform, worst, Among({context}));
    }
  }

  /** The initial queue, from the project itself. */
  method StartQueue(root: Package, platform: Environment, all: bool, worst: bool)
      returns (r: Result<seq<Request>, Fault>)
    ensures r.Ok? ==> Proper(r.value)
    ensures r.Ok? ==> forall t :: Queued(r.value, t) <==> RootNeeds(root, platform, all, t)
    ensures r.Err? ==> RootFault(root, platform, all)
    ensures r.Ok? ==> !RootStuck(root, platform, all, worst)
  {
    if root.optional.None? || exists x :: x in root.optional.value && root.optional.value[x].None? {
      return Err(BadOptional);
    }
    var extras := RootExtras(root, all);
    var contexts := {""} + extras;
    if root.dependencies.None? {
      assert "" in contexts && ListFault(root.dependencies, platform, "");
      return Err(BadDependencies);
    }
    var first := EnqueueAll(root.dependencies.value, platform, worst, contexts, []);
    if first.Err? {
      return Err(first.error);
    }
    var grown := first.value;
    var done: set<string>, remaining := {}, extras;
    while remaining != {}
      invariant Proper(grown)
      invariant done + remaining == extras && done !! remaining
      invariant forall t :: Queued(grown, t) <==>
        || Queued(first.value, t)
        || exists x :: x in done && OptionalEntries(root, x).Some?
             && Yields(OptionalEntries(root, x).value, platform, x, t)
      invariant forall x :: x in done ==> !ListFault(OptionalEntries(root, x), platform, x)
      decreases remaining
    {
      var x :| x in remaining;
      assert x in extras;
      var entries := OptionalEntries(root, x);
      var next := EnqueueAll(entries.value, platform, worst, {x}, grown);
      if next.Err? {
        assert ListFault(entries, platform, x);
        return Err(next.error);
      }
      assert x in {x};
      NotStuckIsNoFault(entries.value, platform, worst, x);
      grown := next.value;
      done, remaining := done + {x}, remaining - {x};
    }
    assert done == extras;
    return Ok(grown);
  }

  /** The slots an activation record stands for. */
  function Active(activated: map<string, set<string>>): set<Slot> {
    (set n | n in activated :: Slot(n, "")) + (set n, e | n in activated && e in activated[n] :: Slot(n, e))
  }

  /** Every slot that the lock defines. */
  function Universe(lock: Lock): set<Slot> {
    (set n | n in lock :: Slot(n, ""))
    + (set n, e | n in lock && lock[n].optional.Some? && e in lock[n].optional.value :: Slot(n, e))
  }

  lemma ActiveMembers(activated: map<string, set<string>>, s: Slot)
    ensures s in Active(activated) <==> s.name in activated && (s.extra == "" || s.extra in activated[s.name])
  {
    if s.name in activated && s.extra == "" {
      assert s == Slot(s.name, "");
    }
  }

  /** Re-activating a package with more extras adds exactly the slots asked for. */
  lemma ActivateAdds(activated: map<string, set<string>>, r: Request, lock: Lock)
    requires "" !in r.extras
    requires r.name in lock && lock[r.name].optional.Some?
    requires !(r.name in activated && r.extras <= activated[r.name])
    requires Active(activated) <= Universe(lock)
    requires r.extras <= lock[r.name].optional.value.Keys
    ensures var merged := r.extras + if r.name in activated then activated[r.name] else {};
      var after := Active(activated[r.name := merged]);
      && (forall s :: s in after <==> s in Active(activated) || Asks(r, s))
      && after <= Universe(lock)
      && Universe(lock) - after < Universe(lock) - Active(activated)
  {
    var merged := r.extras + if r.name in activated then activated[r.name] else {};
    var after := Active(activated[r.name := merged]);
    forall s ensures s in after <==> s in Active(activated) || Asks(r, s) {
      ActiveMembers(activated, s);
      ActiveMembers(activated[r.name := merged], s);
    }
    forall s | s in after ensures s in Universe(lock) {
      if Asks(r, s) {
        assert s == Slot(r.name, s.extra);
      }
    }
    var added: Slot;
    if r.name !in activated {
      added := Slot(r.name, "");
    } else {
      var e :| e in r.extras && e !in activated[r.name];
      added := Slot(r.name, e);
    }
    ActiveMembers(activated, added);
    assert Asks(r, added);
    assert added in Universe(lock) - Active(activated);
  }

  /** What every iteration of the worklist keeps. */
  ghost predicate Progress(root: Package, lock: Lock, platform: Environment, all: bool, worst: bool,
                           activated: map<string, set<string>>, queue: seq<Request>)
  {
    && Proper(queue)
    && (forall n :: n in activated ==> "" !in activated[n])
    && Active(activated) <= Universe(lock)
    && (forall s :: s in Active(activated) ==> Derivable(root, lock, platform, all, s))
    && (forall t :: Queued(queue, t) ==> Derivable(root, lock, platform, all, t))
    && (forall t :: RootNeeds(root, platform, all, t) ==> t in Active(activated) || Queued(queue, t))
    && (forall s, t :: s in Active(activated) && Needs(lock, platform, s, t) ==>
          t in Active(activated) || Queued(queue, t))
    && NoneStuck(lock, platform, worst, activated)
  }

  /** No activated package is stuck over its contexts. */
  ghost predicate NoneStuck(lock: Lock, platform: Environment, worst: bool, activated: map<string, set<string>>) {
    forall n :: n in activated ==> n in lock && !PackageStuck(lock[n], platform, worst, Among({""} + activated[n]))
  }

  function Merged(activated: map<string, set<string>>, r: Request): set<string> {
    r.extras + if r.name in activated then activated[r.name] else {}
  }

  lemma PoppedQueue(queue: seq<Request>, r: Request)
    ensures forall t :: Queued(queue + [r], t) <==> Queued(queue, t) || Asks(r, t)
  {
    forall t ensures Queued(queue + [r], t) <==> Queued(queue, t) || Asks(r, t) {
      QueuedAppend(queue, r, t);
    }
  }

  lemma SkipKeepsProgress(root: Package, lock: Lock, platform: Environment, all: bool, worst: bool,
                          activated: map<string, set<string>>, queue: seq<Request>, r: Request)
    requires Progress(root, lock, platform, all, worst, activated, queue + [r])
    requires r.name in activated && r.extras <= activated[r.name]
    ensures Progress(root, lock, platform, all, worst, activated, queue)
  {
    PoppedQueue(queue, r);
    forall t | Asks(r, t) ensures t in Active(activated) {
      ActiveMembers(activated, t);
    }
    assert forall q :: q in queue ==> q in queue + [r];
  }

  /** The popped package's contexts are derivable. */
  lemma PoppedIsDerivable(root: Package, lock: Lock, platform: Environment, all: bool, worst: bool,
                          activated: map<string, set<string>>, queue: seq<Request>, r: Request)
    requires Progress(root, lock, platform, all, worst, activated, queue + [r])
    ensures Proper(queue) && "" !in Merged(activated, r)
    ensures forall c :: c in {""} + Merged(activated, r) ==> Derivable(root, lock, platform, all, Slot(r.name, c))
  {
    PoppedQueue(queue, r);
    assert r in queue + [r];
    assert forall q :: q in queue ==> q in queue + [r];
    forall c | c in {""} + Merged(activated, r) ensures Derivable(root, lock, platform, all, Slot(r.name, c)) {
      ActiveMembers(activated, Slot(r.name, c));
      assert Slot(r.name, c) in Active(activated) || Asks(r, Slot(r.name, c));
    }
  }

  lemma NextIsDerivable(root: Package, lock: Lock, platform: Environment, all: bool,
                        name: string, contexts: set<string>, queue: seq<Request>, next: seq<Request>)
    requires name in lock
    requires forall c :: c in contexts ==> Derivable(root, lock, platform, all, Slot(name, c))
    requires forall t :: Queued(queue, t) ==> Derivable(root, lock, platform, all, t)
    requires forall t :: Queued(next, t) ==>
      Queued(queue, t) || exists c :: c in contexts && PackageYields(lock[name], platform, c, t)
    ensures forall t :: Queued(next, t) ==> Derivable(root, lock, platform, all, t)
  {
    forall t | Queued(next, t) ensures Derivable(root, lock, platform, all, t) {
      if !Queued(queue, t) {
        var c :| c in contexts && PackageYields(lock[name], platform, c, t);
        NeededSlotsAreDerivable(root, lock, platform, all, Slot(name, c), t);
      }
    }
  }

  /** One expansion: the popped package's slots are active, their needs are queued. */
  ghost predicate Expanded(lock: Lock, platform: Environment, activated: map<string, set<string>>,
                           queue: seq<Request>, r: Request, after: map<string, set<string>>, next: seq<Request>)
  {
    && r.name in lock
    && (forall s :: s in Active(after) <==> s in Active(activated) || Asks(r, s))
    && (forall s :: s in Active(after) && s.name == r.name ==> s.extra in {""} + Merged(activated, r))
    && forall t :: Queued(next, t) <==>
         Queued(queue, t) || exists c :: c in {""} + Merged(activated, r) && PackageYields(lock[r.name], platform, c, t)
  }

  lemma ExpansionStaysClosed(root: Package, lock: Lock, platform: Environment, all: bool,
                             activated: map<string, set<string>>, queue: seq<Request>, r: Request,
                             after: map<string, set<string>>, next: seq<Request>)
    requires Expanded(lock, platform, activated, queue, r, after, next)
    requires forall t :: RootNeeds(root, platform, all, t) ==> t in Active(activated) || Queued(queue, t) || Asks(r, t)
    requires forall s, t :: s in Active(activated) && Needs(lock, platform, s, t) ==>
      t in Active(activated) || Queued(queue, t) || Asks(r, t)
    ensures forall t :: RootNeeds(root, platform, all, t) ==> t in Active(after) || Queued(next, t)
    ensures forall s, t :: s in Active(after) && Needs(lock, platform, s, t) ==> t in Active(after) || Queued(next, t)
  {
    forall s, t | s in Active(after) && Needs(lock, platform, s, t) ensures t in Active(after) || Queued(next, t) {
      if s.name == r.name {
        assert PackageYields(lock[r.name], platform, s.extra, t);
      } else {
        assert s in Active(activated);
      }
    }
  }

  lemma AfterIsDerivable(root: Package, lock: Lock, platform: Environment, all: bool, worst: bool,
                         activated: map<string, set<string>>, queue: seq<Request>, r: Request,
                         after: map<string, set<string>>)
    requires Progress(root, lock, platform, all, worst, activated, queue + [r])
    requires forall s :: s in Active(after) ==> s in Active(activated) || Asks(r, s)
    ensures forall s :: s in Active(after) ==> Derivable(root, lock, platform, all, s)
  {
    PoppedQueue(queue, r);
    forall s | s in Active(after) ensures Derivable(root, lock, platform, all, s) {
      assert s in Active(activated) || Queued(queue + [r], s);
    }
  }

  lemma ExpandKeepsProgress(root: Package, lock: Lock, platform: Environment, all: bool, worst: bool,
                            activated: map<string, set<string>>, queue: seq<Request>, r: Request, next: seq<Request>)
    requires Progress(root, lock, platform, all, worst, activated, queue + [r])
    requires r.name in lock && !(r.name in activated && r.extras <= activated[r.name])
    requires lock[r.name].optional.Some? && Merged(activated, r) <= lock[r.name].optional.value.Keys
    requires Proper(next)
    requires forall t :: Queued(next, t) <==>
      Queued(queue, t) || exists c :: c in {""} + Merged(activated, r) && PackageYields(lock[r.name], platform, c, t)
    requires !PackageStuck(lock[r.name], platform, worst, Among({""} + Merged(activated, r)))
    ensures var after := activated[r.name := Merged(activated, r)];
      && Progress(root, lock, platform, all, worst, after, next)
      && Universe(lock) - Active(after) < Universe(lock) - Active(activated)
  {
    var after := activated[r.name := Merged(activated, r)];
    PoppedQueue(queue, r);
    PoppedIsDerivable(root, lock, platform, all, worst, activated, queue, r);
    ActivateAdds(activated, r, lock);
    forall s | s in Active(after) && s.name == r.name ensures s.extra in {""} + Merged(activated, r) {
      ActiveMembers(after, s);
    }
    NextIsDerivable(root, lock, platform, all, r.name, {""} + Merged(activated, r), queue, next);
    ExpansionStaysClosed(root, lock, platform, all, activated, queue, r, after, next);
    AfterIsDerivable(root, lock, platform, all, worst, activated, queue, r, after);
    NoneStuckMore(lock, platform, worst, activated, r.name, Merged(activated, r));
  }

  lemma NoneStuckMore(lock: Lock, platform: Environment, worst: bool, activated: map<string, set<string>>, name: string,
      extras: set<string>)
    requires NoneStuck(lock, platform, worst, activated)
    requires name in lock && !PackageStuck(lock[name], platform, worst, Among({""} + extras))
    ensures NoneStuck(lock, platform, worst, activated[name := extras])
  {
  }

  lemma SplitLast(queue: seq<Request>)
    requires queue != []
    ensures queue == queue[..|queue| - 1] + [queue[|queue| - 1]]
  {
  }

  lemma FirstProgress(root: Package, lock: Lock, platform: Environment, all: bool, worst: bool, queue: seq<Request>)
    requires Proper(queue)
    requires forall t :: Queued(queue, t) <==> RootNeeds(root, platform, all, t)
    ensures Progress(root, lock, platform, all, worst, map[], queue)
  {
    forall t | RootNeeds(root, platform, all, t) ensures Derivable(root, lock, platform, all, t) {
      RootSlotsAreDerivable(root, lock, platform, all, t);
    }
  }

  lemma FinalProgress(root: Package, lock: Lock, platform: Environment, all: bool, worst: bool,
      activated: map<string, set<string>>)
    requires Progress(root, lock, platform, all, worst, activated, [])
    ensures forall s :: s in Active(activated) <==> Derivable(root, lock, platform, all, s)
    ensures forall n :: n in activated <==> Derivable(root, lock, platform, all, Slot(n, ""))
    ensures !DerivableStuck(root, lock, platform, all, worst)
  {
    assert Closed(root, lock, platform, all, Active(activated));
    forall s | Derivable(root, lock, platform, all, s) ensures s in Active(activated) {
      DerivableIsLeast(root, lock, platform, all, Active(activated), s);
    }
    forall n ensures n in activated <==> Slot(n, "") in Active(activated) {
      ActiveMembers(activated, Slot(n, ""));
    }
    NoneStuckInTheEnd(root, lock, platform, all, worst, activated);
  }

  lemma FinalContexts(root: Package, lock: Lock, platform: Environment, all: bool,
      activated: map<string, set<string>>, n: string)
    requires forall s :: s in Active(activated) <==> Derivable(root, lock, platform, all, s)
    requires n in activated
    ensures ContextsOf(root, lock, platform, all, n) == Among({""} + activated[n])
  {
    forall c ensures c in ContextsOf(root, lock, platform, all, n) <==> c in Among({""} + activated[n]) {
      ActiveMembers(activated, Slot(n, c));
    }
  }

  lemma NoneStuckInTheEnd(root: Package, lock: Lock, platform: Environment, all: bool, worst: bool,
      activated: map<string, set<string>>)
    requires forall s :: s in Active(activated) <==> Derivable(root, lock, platform, all, s)
    requires forall n :: n in activated <==> Derivable(root, lock, platform, all, Slot(n, ""))
    requires NoneStuck(lock, platform, worst, activated)
    ensures !DerivableStuck(root, lock, platform, all, worst)
  {
    forall n | Derivable(root, lock, platform, all, Slot(n, ""))
      ensures n in lock && !PackageStuck(lock[n], platform, worst, ContextsOf(root, lock, platform, all, n))
    {
      FinalContexts(root, lock, platform, all, activated, n);
    }
  }

  lemma UnmixedIsDecided(root: Package, lock: Lock, platform: Environment, all: bool, worst: bool)
    requires !RootStuck(root, platform, all, worst) && !DerivableStuck(root, lock, platform, all, worst)
    ensures worst || UnmixedLock(root, lock, platform, all) ==>
      !RootFault(root, platform, all) && !DerivableFault(root, lock, platform, all)
  {
    if worst || UnmixedLock(root, lock, platform, all) {
      RootFaultIsStuck(root, lock, platform, all, worst);
      DerivableFaultIsStuck(root, lock, platform, all, worst);
    }
  }

  /** One iteration of the worklist: None when the request adds nothing, else the
      queue after its package has been expanded. */
  method Visit(ghost root: Package, lock: Lock, platform: Environment, ghost all: bool, worst: bool,
               activated: map<string, set<string>>, queue: seq<Request>, request: Request)
    returns (r: Result<Option<seq<Request>>, Fault>)
    requires Progress(root, lock, platform, all, worst, activated, queue + [request])
    ensures r.Err? ==> DerivableFault(root, lock, platform, all)
    ensures r.Ok? && r.value.None? ==> Progress(root, lock, platform, all, worst, activated, queue)
    ensures r.Ok? && r.value.Some? ==>
      var after := activated[request.name := Merged(activated, request)];
      && request.name in lock
      && Progress(root, lock, platform, all, worst, after, r.value.value)
      && Universe(lock) - Active(after) < Universe(lock) - Active(activated)
  {
    PoppedIsDerivable(root, lock, platform, all, worst, activated, queue, request);
    var name := request.name;
    if name !in lock {
      assert SlotFault(lock, platform, Slot(name, ""));
      return Err(AbsentPackage(name));
    }
    if name in activated && request.extras <= activated[name] {
      SkipKeepsProgress(root, lock, platform, all, worst, activated, queue, request);
      return Ok(None);
    }
    var expanded := Expand(lock[name], platform, worst, Merged(activated, request), queue);
    if expanded.Err? {
      ghost var c :| c in {""} + Merged(activated, request) && PackageFault(lock[name], platform, c);
      assert SlotFault(lock, platform, Slot(name, c));
      return Err(expanded.error);
    }
    ExpandKeepsProgress(root, lock, platform, all, worst, activated, queue, request, expanded.value);
    return Ok(Some(expanded.value));
  }

  /** The identities are packages of the lock, with their versions. */
  ghost predicate Located(lock: Lock, identities: map<string, string>) {
    forall n :: n in identities ==> n in lock && identities[n] == lock[n].version
  }

  /** When the queue is empty, the identities found are the closure. */
  lemma ResultIsClosure(root: Package, lock: Lock, platform: Environment, all: bool, worst: bool,
                        activated: map<string, set<string>>, identities: map<string, string>)
    requires Progress(root, lock, platform, all, worst, activated, []) && activated.Keys == identities.Keys
    requires Located(lock, identities)
    ensures IsClosure(root, lock, platform, all, set n | n in identities :: (n, identities[n]))
    ensures forall s :: s in Active(activated) <==> Derivable(root, lock, platform, all, s)
    ensures !DerivableStuck(root, lock, platform, all, worst)
    ensures !RootStuck(root, platform, all, worst) && (worst || UnmixedLock(root, lock, platform, all)) ==>
      !RootFault(root, platform, all) && !DerivableFault(root, lock, platform, all)
  {
    FinalProgress(root, lock, platform, all, worst, activated);
    if !RootStuck(root, platform, all, worst) {
      UnmixedIsDecided(root, lock, platform, all, worst);
    }
    IdentitiesAreClosure(root, lock, platform, all, activated, identities);
  }

  lemma IdentitiesAreClosure(root: Package, lock: Lock, platform: Environment, all: bool,
                             activated: map<string, set<string>>, identities: map<string, string>)
    requires forall n :: n in activated <==> Derivable(root, lock, platform, all, Slot(n, ""))
    requires activated.Keys == identities.Keys
    requires Located(lock, identities)
    ensures IsClosure(root, lock, platform, all, set n | n in identities :: (n, identities[n]))
  {
    forall n | n in activated ensures n in identities {
    }
  }

  lemma FoundMore(lock: Lock, activated: map<string, set<string>>, found: map<string, string>, name: string,
                  extras: set<string>)
    requires activated.Keys == found.Keys && Located(lock, found) && name in lock
    ensures activated[name := extras].Keys == found[name := lock[name].version].Keys
    ensures Located(lock, found[name := lock[name].version])
  {
  }

  /** The worklist loop. It terminates on every lock, cycles included. */
  method ExpandQueue(ghost root: Package, lock: Lock, platform: Environment, ghost all: bool, worst: bool,
      first: seq<Request>)
    returns (identities: Result<map<string, string>, Fault>, ghost activated: map<string, set<string>>)
    requires Progress(root, lock, platform, all, worst, map[], first)
    ensures identities.Err? ==> DerivableFault(root, lock, platform, all)
    ensures identities.Ok? ==> Progress(root, lock, platform, all, worst, activated, [])
    ensures identities.Ok? ==> activated.Keys == identities.value.Keys && Located(lock, identities.value)
  {
    var queue := first;
    var extrasOf: map<string, set<string>> := map[];
    var found: map<string, string> := map[];
    while queue != []
      invariant Progress(root, lock, platform, all, worst, extrasOf, queue)
      invariant extrasOf.Keys == found.Keys && Located(lock, found)
      decreases Universe(lock) - Active(extrasOf), |queue|
    {
      var request := queue[|queue| - 1];
      SplitLast(queue);
      queue := queue[..|queue| - 1];
      var visited := Visit(root, lock, platform, all, worst, extrasOf, queue, request);
      if visited.Err? {
        return Err(visited.error), extrasOf;
      }
      if visited.value.Some? {
        FoundMore(lock, extrasOf, found, request.name, Merged(extrasOf, request));
        extrasOf := extrasOf[request.name := Merged(extrasOf, request)];
        found := found[request.name := lock[request.name].version];
        queue := visited.value.value;
      }
    }
    return Ok(found), extrasOf;
  }

  /** `_uv_dependency_closure`. On success it returns exactly the derivable
      packages, each activated with exactly the extras derivable for it, whatever
      the order of the queue and of the sets. It fails only if the project or a
      derivable slot is faulty, and succeeds only if none has a fault that no order
      avoids. So some order makes it fail exactly when there is a fault, the worst one;
      and any order does, where no marker of a derivable package is true in one
      derivable context and fails in another. */
  method DependencyClosure(root: Package, lock: Lock, platform: Environment, all: bool, worst: bool)
    returns (closure: Result<set<PackageIdentity>, Fault>, ghost activated: map<string, set<string>>)
    ensures closure.Ok? ==> IsClosure(root, lock, platform, all, closure.value)
    ensures closure.Ok? ==> forall s :: s in Active(activated) <==> Derivable(root, lock, platform, all, s)
    ensures closure.Err? ==> RootFault(root, platform, all) || DerivableFault(root, lock, platform, all)
    ensures closure.Ok? ==> !RootStuck(root, platform, all, worst) && !DerivableStuck(root, lock, platform, all, worst)
    ensures worst || UnmixedLock(root, lock, platform, all) ==>
      (closure.Err? <==> RootFault(root, platform, all) || DerivableFault(root, lock, platform, all))
  {
    activated := map[];
    var start := StartQueue(root, platform, all, worst);
    if start.Err? {
      return Err(start.error), activated;
    }
    FirstProgress(root, lock, platform, all, worst, start.value);
    var identities, extrasOf := ExpandQueue(root, lock, platform, all, worst, start.value);
    if identities.Err? {
      return Err(identities.error), activated;
    }
    ResultIsClosure(root, lock, platform, all, worst, extrasOf, identities.value);
    activated := extrasOf;
    closure := Ok(set n | n in identities.value :: (n, identities.value[n]));
  }
}
