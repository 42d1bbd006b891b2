/** The two loaders of the reviewed exceptions
    (scripts/generate_supply_chain_evidence.py:582-643 and
    scripts/finalize_release_evidence.py:2497-2567). */
module Exceptions {
  import opened Text
  import opened Policy
  import opened SupplyCheck

  /** An entry of the exceptions file, as written. */
  datatype Entry = Entry(ecosystem: string, name: string, version: string, review: Review)

  datatype LoadError = InvalidEntry | DuplicateKey

  /** An entry as it is stored. */
  datatype Stored = Stored(key: Key, review: Review)

  function EcosystemOf(e: Entry): string { Lower(Strip(e.ecosystem)) }

  // ----- the generator takes name, version and dates as written

  function GeneratorKey(e: Entry): Key { ComponentKey(EcosystemOf(e), e.name, e.version) }

  predicate GeneratorAccepts(e: Entry, calendar: Calendar) {
    && NonBlank(e.ecosystem) && NonBlank(e.name) && NonBlank(e.version) && IsFilledIn(e.review)
    && EcosystemOf(e) in ECOSYSTEMS && |Strip(e.review.reason)| >= 20
    && InForce(e.review.reviewedOn, e.review.expiresOn, calendar)
  }

  // ----- the finalizer strips them first

  function FinalizerKey(e: Entry): Key { ComponentKey(EcosystemOf(e), Strip(e.name), Strip(e.version)) }

  predicate FinalizerAccepts(e: Entry, calendar: Calendar) {
    && EcosystemOf(e) in ECOSYSTEMS && NonBlank(e.name) && NonBlank(e.version)
    && ValidatedReview(e.review, calendar).Some?
  }

  // ----- the whole file

  function StoredAs(e: Entry, key: Entry -> Key): Stored { Stored(key(e), StripReview(e.review)) }

  function Stores(entries: seq<Entry>, key: Entry -> Key): (r: seq<Stored>)
    ensures |r| == |entries|
    ensures forall i :: 0 <= i < |entries| ==> r[i] == StoredAs(entries[i], key)
  {
    seq(|entries|, i requires 0 <= i < |entries| => StoredAs(entries[i], key))
  }

  ghost predicate DistinctlyKeyed(stored: seq<Stored>) {
    forall i, j :: 0 <= i < j < |stored| ==> stored[i].key != stored[j].key
  }

  /** The table holds these reviews and no others. */
  ghost predicate IsLoaded(stored: seq<Stored>, table: map<Key, Review>) {
    && (forall i :: 0 <= i < |stored| ==> stored[i].key in table && table[stored[i].key] == stored[i].review)
    && forall k :: k in table ==> exists i :: 0 <= i < |stored| && stored[i].key == k
  }

  /** Every entry is accepted and no key is repeated. */
  ghost predicate FileAccepted(entries: seq<Entry>, accepts: Entry -> bool, key: Entry -> Key) {
    (forall i :: 0 <= i < |entries| ==> accepts(entries[i])) && DistinctlyKeyed(Stores(entries, key))
  }

  /** A loader reads the entries as this table. */
  ghost predicate Loads(entries: seq<Entry>, accepts: Entry -> bool, key: Entry -> Key, table: map<Key, Review>) {
    FileAccepted(entries, accepts, key) && IsLoaded(Stores(entries, key), table)
  }

  ghost predicate GeneratorLoads(entries: seq<Entry>, calendar: Calendar, table: map<Key, Review>) {
    Loads(entries, (e: Entry) => GeneratorAccepts(e, calendar), (e: Entry) => GeneratorKey(e), table)
  }

  ghost predicate FinalizerLoads(entries: seq<Entry>, calendar: Calendar, table: map<Key, Review>) {
    Loads(entries, (e: Entry) => FinalizerAccepts(e, calendar), (e: Entry) => FinalizerKey(e), table)
  }

  ghost predicate LoadedSoFar(stored: seq<Stored>, table: map<Key, Review>) {
    DistinctlyKeyed(stored) && IsLoaded(stored, table)
  }

  lemma LoadNext(stored: seq<Stored>, n: nat, table: map<Key, Review>)
    requires n < |stored| && LoadedSoFar(stored[..n], table)
    ensures stored[n].key in table ==> !DistinctlyKeyed(stored)
    ensures stored[n].key !in table ==> LoadedSoFar(stored[..n + 1], table[stored[n].key := stored[n].review])
  {
    var before, after, e := stored[..n], stored[..n + 1], stored[n];
    assert forall i :: 0 <= i < n ==> after[i] == before[i] == stored[i];
    assert after[n] == e;
    if e.key in table {
      var i :| 0 <= i < |before| && before[i].key == e.key;
      assert stored[i].key == stored[n].key;
    } else {
      forall k | k in table ensures exists i :: 0 <= i < |after| && after[i].key == k {
        var i :| 0 <= i < |before| && before[i].key == k;
        assert after[i].key == k;
      }
    }
  }

  /** The loop of both loaders, for any check of an entry and any stored form. */
  method LoadEntries(entries: seq<Entry>, accepts: Entry -> bool, store: Entry -> Stored, ghost stored: seq<Stored>)
    returns (r: Result<map<Key, Review>, LoadError>)
    requires |stored| == |entries| && forall i :: 0 <= i < |entries| ==> stored[i] == store(entries[i])
    ensures r.Ok? <==> (forall i :: 0 <= i < |entries| ==> accepts(entries[i])) && DistinctlyKeyed(stored)
    ensures r.Ok? ==> IsLoaded(stored, r.value)
  {
    var table: map<Key, Review> := map[];
    for n := 0 to |entries|
      invariant forall i :: 0 <= i < n ==> accepts(entries[i])
      invariant LoadedSoFar(stored[..n], table)
    {
      var e := entries[n];
      if !accepts(e) {
        return Err(InvalidEntry);
      }
      var Stored(key, review) := store(e);
      LoadNext(stored, n, table);
      if key in table {
        return Err(DuplicateKey);
      }
      table := table[key := review];
    }
    assert stored[..|entries|] == stored;
    return Ok(table);
  }

  /** Both loaders, told apart by their check and their key of an entry. */
  method LoadExceptions(entries: seq<Entry>, accepts: Entry -> bool, key: Entry -> Key)
    returns (r: Result<map<Key, Review>, LoadError>)
    ensures r.Ok? <==> FileAccepted(entries, accepts, key)
    ensures r.Ok? ==> Loads(entries, accepts, key, r.value)
  {
    r := LoadEntries(entries, accepts, (e: Entry) => StoredAs(e, key), Stores(entries, key));
  }

  // ----- where the two agree

  /** `date.fromisoformat` reads no date with space around it. */
  ghost predicate ReadsNoSpace(calendar: Calendar) {
    forall s :: calendar.dayOf(s).Some? ==> Strip(s) == s
  }

  predicate DatesUnpadded(e: Entry) {
    Strip(e.review.reviewedOn) == e.review.reviewedOn && Strip(e.review.expiresOn) == e.review.expiresOn
  }

  predicate IdentityUnpadded(e: Entry) { Strip(e.name) == e.name && Strip(e.version) == e.version }

  /** The generator accepts an entry exactly when the finalizer does and the dates have
      no space around them. */
  lemma EntriesAgree(e: Entry, calendar: Calendar)
    requires ReadsNoSpace(calendar)
    ensures GeneratorAccepts(e, calendar) <==> FinalizerAccepts(e, calendar) && DatesUnpadded(e)
  {
    if !NonBlank(e.ecosystem) {
      BlankStrips(e.ecosystem);
    }
  }

  /** The keys are the same exactly when name and version have no space around them. */
  lemma KeysAgree(e: Entry)
    requires NonBlank(e.name)
    ensures GeneratorKey(e) == FinalizerKey(e) <==> IdentityUnpadded(e)
  {
    StripTrims(e.name);
    CanonicalKeepsEnds(e.name);
    CanonicalKeepsEnds(Strip(e.name));
  }

  lemma StoresSame(entries: seq<Entry>)
    requires forall i :: 0 <= i < |entries| ==> NonBlank(entries[i].name) && IdentityUnpadded(entries[i])
    ensures Stores(entries, (e: Entry) => GeneratorKey(e)) == Stores(entries, (e: Entry) => FinalizerKey(e))
  {
    forall i | 0 <= i < |entries| ensures GeneratorKey(entries[i]) == FinalizerKey(entries[i]) {
      KeysAgree(entries[i]);
    }
  }

  /** No key of the finalizer's table has space around its name or its version. */
  lemma PaddedKeyIsAbsent(entries: seq<Entry>, calendar: Calendar, table: map<Key, Review>, e: Entry)
    requires FinalizerLoads(entries, calendar, table) && NonBlank(e.name) && NonBlank(e.version)
    requires GeneratorKey(e) in table
    ensures IdentityUnpadded(e)
  {
    var stored := Stores(entries, (x: Entry) => FinalizerKey(x));
    var i :| 0 <= i < |stored| && stored[i].key == GeneratorKey(e);
    assert FinalizerAccepts(entries[i], calendar);
    SharedKeyIsUnpadded(entries[i], e);
  }

  lemma SharedKeyIsUnpadded(e: Entry, f: Entry)
    requires NonBlank(e.name) && NonBlank(e.version) && NonBlank(f.name) && NonBlank(f.version)
    requires FinalizerKey(e) == GeneratorKey(f)
    ensures IdentityUnpadded(f)
  {
    CanonicalNamesMeet(Strip(e.name), f.name, e.name);
    StripTrims(e.version);
    StripTrims(f.version);
  }

  lemma CanonicalNamesMeet(stripped: string, name: string, from: string)
    requires NonBlank(name) && NonBlank(from) && stripped == Strip(from)
    requires CanonicalName(stripped) == CanonicalName(name)
    ensures Strip(name) == name
  {
    StripTrims(from);
    StripTrims(name);
    CanonicalKeepsEnds(name);
    CanonicalKeepsEnds(stripped);
  }

  /** What the generator loads the finalizer loads as the same table exactly when no
      entry's name or version has space around it. */
  lemma GeneratorsTableIsLoaded(entries: seq<Entry>, calendar: Calendar, table: map<Key, Review>)
    requires ReadsNoSpace(calendar) && GeneratorLoads(entries, calendar, table)
    ensures FinalizerLoads(entries, calendar, table) <==> forall e :: e in entries ==> IdentityUnpadded(e)
  {
    forall i | 0 <= i < |entries|
      ensures GeneratorAccepts(entries[i], calendar) && FinalizerAccepts(entries[i], calendar)
    {
      EntriesAgree(entries[i], calendar);
    }
    if FinalizerLoads(entries, calendar, table) {
      AgreementMeansUnpadded(entries, calendar, table);
    }
    if forall e :: e in entries ==> IdentityUnpadded(e) {
      StoresSame(entries);
    }
  }

  /** What the finalizer loads the generator loads as the same table exactly when no
      entry's name, version or dates have space around them. */
  lemma FinalizersTableIsLoaded(entries: seq<Entry>, calendar: Calendar, table: map<Key, Review>)
    requires ReadsNoSpace(calendar) && FinalizerLoads(entries, calendar, table)
    ensures GeneratorLoads(entries, calendar, table)
      <==> forall e :: e in entries ==> IdentityUnpadded(e) && DatesUnpadded(e)
  {
    forall i | 0 <= i < |entries|
      ensures FinalizerAccepts(entries[i], calendar)
      ensures GeneratorAccepts(entries[i], calendar) <==> DatesUnpadded(entries[i])
    {
      EntriesAgree(entries[i], calendar);
    }
    if GeneratorLoads(entries, calendar, table) {
      AgreementMeansUnpadded(entries, calendar, table);
    }
    if forall e :: e in entries ==> IdentityUnpadded(e) && DatesUnpadded(e) {
      StoresSame(entries);
    }
  }

  lemma AgreementMeansUnpadded(entries: seq<Entry>, calendar: Calendar, table: map<Key, Review>)
    requires GeneratorLoads(entries, calendar, table) && FinalizerLoads(entries, calendar, table)
    ensures forall e :: e in entries ==> IdentityUnpadded(e)
  {
    var stored := Stores(entries, (x: Entry) => GeneratorKey(x));
    forall e | e in entries ensures IdentityUnpadded(e) {
      var i :| 0 <= i < |entries| && entries[i] == e;
      assert GeneratorAccepts(entries[i], calendar) && stored[i].key == GeneratorKey(e);
      PaddedKeyIsAbsent(entries, calendar, table, e);
    }
  }

  /** A loaded review passes the finalizer's check unchanged. */
  lemma LoadedIsCurrent(entries: seq<Entry>, calendar: Calendar, table: map<Key, Review>, key: Key)
    requires FinalizerLoads(entries, calendar, table) && key in table
    ensures ValidatedReview(table[key], calendar) == Some(table[key])
  {
    var stored := Stores(entries, (x: Entry) => FinalizerKey(x));
    var i :| 0 <= i < |stored| && stored[i].key == key;
    assert FinalizerAccepts(entries[i], calendar);
    StrippedStaysValid(entries[i].review, calendar);
  }

  lemma StrippedStaysValid(r: Review, calendar: Calendar)
    requires ValidatedReview(r, calendar).Some?
    ensures ValidatedReview(StripReview(r), calendar) == Some(StripReview(r))
  {
    StripTrims(r.reason);
    StripTrims(r.reviewedBy);
    StripTrims(r.reviewedOn);
    StripTrims(r.reference);
    StripTrims(r.expiresOn);
  }
}
