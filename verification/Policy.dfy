/** The licence policy as the generator applies it
    (scripts/generate_supply_chain_evidence.py:1070-1261). */
module Policy {
  import opened Ordering
  import opened Text
  import opened Licenses

  const PYTHON: set<string> := {"backend-python", "dagster-python"}
  const ECOSYSTEMS: set<string> := {"backend-python", "dagster-python", "npm"}
  const EVIDENCE_KIND := "committed-exact-artifact-map"

  /** (ecosystem, canonical name, version). */
  type Key = (string, string, string)

  /** A conclusion's key: a package and one of its artifact hashes. */
  type ArtifactKey = (Key, string)

  /** A reviewed exception; its two dates are texts. */
  datatype Review = Review(
    reason: string, reviewedBy: string, reviewedOn: string, reference: string, expiresOn: string)

  /** `date.fromisoformat`, as a day number, and the current day. */
  datatype Calendar = Calendar(dayOf: string -> Option<int>, today: int)

  datatype Conclusion = Conclusion(declared: string, concluded: string, textPath: string, textSha256: string)

  /** One dependency before the policy: its raw declared licence and, for Python
      packages, the locked artifact hashes. */
  datatype Item = Item(
    ecosystem: string, name: string, version: string,
    declared: Option<string>, artifacts: Option<seq<string>>)

  datatype Status = ApprovedCompatible | ApprovedByConclusion | ReviewedException | OtherStatus

  datatype Evidence = Evidence(kind: string, artifacts: seq<string>, textPath: string, textSha256: string)

  /** One record of the dependency licence inventory. */
  datatype Dependency = Dependency(
    ecosystem: string, name: string, version: string,
    declared: Option<string>, concluded: Option<string>, status: Status,
    obligations: seq<string>, evidence: Option<Evidence>, review: Option<Review>)

  datatype Rules = Rules(exceptions: map<Key, Review>, conclusions: map<ArtifactKey, Conclusion>)

  datatype PolicyError =
    | UnnecessaryConclusion | InvalidArtifacts | PartialCoverage | DeclaredDiffers | SeveralConclusions
    | ConclusionNotApproved | SeveralTexts | NotApproved | UnusedException | UnusedConclusion

  function ComponentKey(ecosystem: string, name: string, version: string): Key {
    (ecosystem, CanonicalName(name), version)
  }

  function ItemKey(i: Item): Key { ComponentKey(i.ecosystem, i.name, i.version) }

  function DependencyKey(d: Dependency): Key { ComponentKey(d.ecosystem, d.name, d.version) }

  predicate KeyLess(a: Key, b: Key) { PartsLess([a.0, a.1, a.2], [b.0, b.1, b.2]) }

  predicate RecordLess(a: Dependency, b: Dependency) { KeyLess(DependencyKey(a), DependencyKey(b)) }

  lemma KeyLessIsTotal()
    ensures StrictTotal(KeyLess)
  {
    PartsLessIsTotal();
    forall a: Key, b: Key ensures KeyLess(a, b) || a == b || KeyLess(b, a) {
      var x, y := [a.0, a.1, a.2], [b.0, b.1, b.2];
      assert x == y ==> x[0] == y[0] && x[1] == y[1] && x[2] == y[2];
    }
  }

  lemma RecordLessIsWeak()
    ensures StrictWeak(RecordLess)
  {
    KeyLessIsTotal();
    TotalIsWeak(KeyLess);
  }

  /** The conclusions configured for a package. */
  function Exact(rules: Rules, key: Key): set<ArtifactKey> {
    set k | k in rules.conclusions && k.0 == key
  }

  /** What the loaders establish: conclusions are approved, and those of one
      package name one licence text. */
  ghost predicate Bound(conclusions: map<ArtifactKey, Conclusion>) {
    && (forall k :: k in conclusions ==> ApprovedIdentifiers(conclusions[k].concluded).Some?)
    && forall k, l :: k in conclusions && l in conclusions && k.0 == l.0 ==>
         conclusions[k].textPath == conclusions[l].textPath && conclusions[k].textSha256 == conclusions[l].textSha256
  }

  predicate IsSha256(s: string) {
    && |s| == 71 && s[..7] == "sha256:"
    && forall i :: 7 <= i < 71 ==> IsDigit(s[i]) || 'a' <= s[i] <= 'f'
  }

  predicate ValidArtifacts(artifacts: Option<seq<string>>) {
    && artifacts.Some? && artifacts.value != []
    && (forall i :: 0 <= i < |artifacts.value| ==> IsSha256(artifacts.value[i]))
    && forall i, j :: 0 <= i < j < |artifacts.value| ==> artifacts.value[i] != artifacts.value[j]
  }

  function ArtifactsOf(keys: set<ArtifactKey>): set<string> { set k | k in keys :: k.1 }

  function Declared(i: Item): Option<string> { Normalize(i.declared) }

  function ApprovedDeclared(i: Item): Option<set<string>> {
    if Declared(i).Some? then ApprovedIdentifiers(Declared(i).value) else None
  }

  // ----- what the policy requires of one record, said once and for all

  ghost predicate IsIdentified(i: Item, d: Dependency) {
    d.ecosystem == i.ecosystem && d.name == i.name && d.version == i.version && d.declared == Declared(i)
  }

  ghost predicate IsApprovedRecord(i: Item, rules: Rules, d: Dependency) {
    && ApprovedDeclared(i).Some? && Exact(rules, ItemKey(i)) == {}
    && d.status.ApprovedCompatible? && d.concluded == Declared(i)
    && IsListing(d.obligations, Obligations(ApprovedDeclared(i).value))
    && d.evidence.None? && d.review.None?
  }

  /** Every configured conclusion of the package says what the record says. */
  ghost predicate Concludes(rules: Rules, key: Key, declared: string, concluded: string, path: string, sha: string) {
    forall k :: k in Exact(rules, key) ==> rules.conclusions[k] == Conclusion(declared, concluded, path, sha)
  }

  ghost predicate IsConcludedRecord(i: Item, rules: Rules, d: Dependency) {
    && ApprovedDeclared(i).None? && Exact(rules, ItemKey(i)) != {}
    && i.ecosystem in PYTHON && ValidArtifacts(i.artifacts)
    && ArtifactsOf(Exact(rules, ItemKey(i))) == Elements(i.artifacts.value)
    && d.status.ApprovedByConclusion? && d.declared.Some? && d.concluded.Some? && d.evidence.Some?
    && ApprovedIdentifiers(d.concluded.value).Some?
    && Concludes(rules, ItemKey(i), d.declared.value, d.concluded.value,
         d.evidence.value.textPath, d.evidence.value.textSha256)
    && IsListing(d.obligations, Obligations(ApprovedIdentifiers(d.concluded.value).value))
    && d.evidence.value.kind == EVIDENCE_KIND
    && IsListing(d.evidence.value.artifacts, Elements(i.artifacts.value))
    && d.review.None?
  }

  ghost predicate IsReviewedRecord(i: Item, rules: Rules, d: Dependency) {
    && ApprovedDeclared(i).None? && Exact(rules, ItemKey(i)) == {}
    && ItemKey(i) in rules.exceptions
    && d.status.ReviewedException? && d.concluded.None?
    && IsListing(d.obligations, REVIEW_OBLIGATIONS)
    && d.evidence.None? && d.review == Some(rules.exceptions[ItemKey(i)])
  }

  ghost predicate IsRecordOf(i: Item, rules: Rules, d: Dependency) {
    && IsIdentified(i, d)
    && (IsApprovedRecord(i, rules, d) || IsConcludedRecord(i, rules, d) || IsReviewedRecord(i, rules, d))
  }

  lemma RecordIsUnique(i: Item, rules: Rules, d: Dependency, e: Dependency)
    requires IsRecordOf(i, rules, d) && IsRecordOf(i, rules, e)
    ensures d == e
  {
    if IsConcludedRecord(i, rules, d) {
      var k :| k in Exact(rules, ItemKey(i));
      assert rules.conclusions[k].concluded == d.concluded.value == e.concluded.value;
      ListingIsUnique(d.obligations, e.obligations, Obligations(ApprovedIdentifiers(d.concluded.value).value));
      ListingIsUnique(d.evidence.value.artifacts, e.evidence.value.artifacts, Elements(i.artifacts.value));
    } else if IsApprovedRecord(i, rules, d) {
      ListingIsUnique(d.obligations, e.obligations, Obligations(ApprovedDeclared(i).value));
    } else {
      ListingIsUnique(d.obligations, e.obligations, REVIEW_OBLIGATIONS);
    }
  }

  function DeclaredValues(rules: Rules, key: Key): set<string> {
    set k | k in Exact(rules, key) :: rules.conclusions[k].declared
  }

  function ConcludedValues(rules: Rules, key: Key): set<string> {
    set k | k in Exact(rules, key) :: rules.conclusions[k].concluded
  }

  function TextValues(rules: Rules, key: Key): set<(string, string)> {
    set k | k in Exact(rules, key) :: (rules.conclusions[k].textPath, rules.conclusions[k].textSha256)
  }

  /** A concluded record exists only if its conclusions agree on licence and text. */
  lemma ConclusionsAgree(i: Item, rules: Rules, d: Dependency)
    requires IsConcludedRecord(i, rules, d)
    ensures ConcludedValues(rules, ItemKey(i)) == {d.concluded.value}
    ensures TextValues(rules, ItemKey(i)) == {(d.evidence.value.textPath, d.evidence.value.textSha256)}
  {
    var k :| k in Exact(rules, ItemKey(i));
    assert rules.conclusions[k].concluded in ConcludedValues(rules, ItemKey(i));
    assert (rules.conclusions[k].textPath, rules.conclusions[k].textSha256) in TextValues(rules, ItemKey(i));
  }

  /** Bound conclusions of one package have one licence text. */
  lemma NotBoundIfTextsDiffer(rules: Rules, key: Key)
    requires Exact(rules, key) != {} && forall t :: TextValues(rules, key) != {t}
    ensures !Bound(rules.conclusions)
  {
    var k :| k in Exact(rules, key);
    var t := (rules.conclusions[k].textPath, rules.conclusions[k].textSha256);
    assert t in TextValues(rules, key) && TextValues(rules, key) != {t};
  }

  /** `set.pop()` of the values of one field, when there is exactly one. */
  method OnlyValue<T(==)>(values: set<T>) returns (r: Option<T>)
    ensures r.Some? ==> values == {r.value}
    ensures r.None? ==> forall v :: values != {v}
  {
    if values == {} {
      return None;
    }
    var v :| v in values;
    return if values == {v} then Some(v) else None;
  }

  /** The branch of the loop body for packages with configured conclusions. */
  method ConcludeItem(item: Item, rules: Rules) returns (r: Result<Dependency, PolicyError>)
    requires ApprovedDeclared(item).None? && Exact(rules, ItemKey(item)) != {}
    ensures r.Ok? ==> IsIdentified(item, r.value) && IsConcludedRecord(item, rules, r.value)
    ensures r.Err? ==> forall d :: IsIdentified(item, d) ==> !IsConcludedRecord(item, rules, d)
    ensures Bound(rules.conclusions) && r.Err? ==> r.error != ConclusionNotApproved && r.error != SeveralTexts
  {
    var key, declared := ItemKey(item), Declared(item);
    var exact := Exact(rules, key);
    if item.ecosystem !in PYTHON || !ValidArtifacts(item.artifacts) {
      return Err(InvalidArtifacts);
    }
    var locked := Elements(item.artifacts.value);
    if ArtifactsOf(exact) != locked {
      return Err(PartialCoverage);
    }
    if declared.None? || exists k :: k in exact && rules.conclusions[k].declared != declared.value {
      return Err(DeclaredDiffers);
    }
    var concludedSet := ConcludedValues(rules, key);
    var concluded := OnlyValue(concludedSet);
    if concluded.None? {
      forall d | IsIdentified(item, d) ensures !IsConcludedRecord(item, rules, d) {
        if IsConcludedRecord(item, rules, d) {
          ConclusionsAgree(item, rules, d);
        }
      }
      return Err(SeveralConclusions);
    }
    forall k | k in exact ensures rules.conclusions[k].concluded == concluded.value {
      assert rules.conclusions[k].concluded in concludedSet;
    }
    var identifiers := ApprovedIdentifiers(concluded.value);
    if identifiers.None? {
      ghost var k :| k in exact;
      return Err(ConclusionNotApproved);
    }
    var texts := TextValues(rules, key);
    var text := OnlyValue(texts);
    if text.None? {
      NotBoundIfTextsDiffer(rules, key);
      forall d | IsIdentified(item, d) ensures !IsConcludedRecord(item, rules, d) {
        if IsConcludedRecord(item, rules, d) {
          ConclusionsAgree(item, rules, d);
        }
      }
      return Err(SeveralTexts);
    }
    forall k | k in exact
      ensures (rules.conclusions[k].textPath, rules.conclusions[k].textSha256) == text.value
    {
      assert (rules.conclusions[k].textPath, rules.conclusions[k].textSha256) in texts;
    }
    var obligations := SortedList(Obligations(identifiers.value));
    var artifacts := SortedList(locked);
    var evidence := Evidence(EVIDENCE_KIND, artifacts, text.value.0, text.value.1);
    return Ok(Dependency(item.ecosystem, item.name, item.version, declared, Some(concluded.value),
                         ApprovedByConclusion, obligations, Some(evidence), None));
  }

  /** One iteration of the loop of `apply_license_policy`. */
  method DecideItem(item: Item, rules: Rules) returns (r: Result<Dependency, PolicyError>)
    ensures r.Ok? ==> IsRecordOf(item, rules, r.value)
    ensures r.Err? ==> forall d :: !IsRecordOf(item, rules, d)
    ensures Bound(rules.conclusions) && r.Err? ==> r.error != ConclusionNotApproved && r.error != SeveralTexts
  {
    var key, declared := ItemKey(item), Declared(item);
    var approved := ApprovedDeclared(item);
    if approved.Some? {
      if Exact(rules, key) != {} {
        return Err(UnnecessaryConclusion);
      }
      var obligations := SortedList(Obligations(approved.value));
      return Ok(Dependency(item.ecosystem, item.name, item.version, declared, declared,
                           ApprovedCompatible, obligations, None, None));
    }
    if Exact(rules, key) != {} {
      r := ConcludeItem(item, rules);
      return;
    }
    if key !in rules.exceptions {
      return Err(NotApproved);
    }
    var obligations := SortedList(REVIEW_OBLIGATIONS);
    return Ok(Dependency(item.ecosystem, item.name, item.version, declared, None,
                         ReviewedException, obligations, None, Some(rules.exceptions[key])));
  }

  // ----- the whole inventory

  /** The record uses up the exception of its key. */
  predicate UsesException(d: Dependency, key: Key) { d.status.ReviewedException? && DependencyKey(d) == key }

  /** The record uses up all conclusions of its key. */
  predicate UsesConclusion(d: Dependency, k: ArtifactKey) { d.status.ApprovedByConclusion? && DependencyKey(d) == k.0 }

  ghost predicate NothingUnused(records: seq<Dependency>, rules: Rules) {
    && (forall key :: key in rules.exceptions ==> exists i :: 0 <= i < |records| && UsesException(records[i], key))
    && (forall k :: k in rules.conclusions ==> exists i :: 0 <= i < |records| && UsesConclusion(records[i], k))
  }

  ghost predicate AreRecordsOf(inventory: seq<Item>, rules: Rules, records: seq<Dependency>) {
    && |records| == |inventory|
    && forall i :: 0 <= i < |records| ==> IsRecordOf(inventory[i], rules, records[i])
  }

  /** A result of the policy: one record per item, every rule used, sorted by key. */
  ghost predicate IsPolicyOutput(inventory: seq<Item>, rules: Rules, output: seq<Dependency>) {
    exists records :: AreRecordsOf(inventory, rules, records) && NothingUnused(records, rules)
      && output == Sort(RecordLess, records)
  }

  lemma RecordsAreUnique(inventory: seq<Item>, rules: Rules, records: seq<Dependency>, records': seq<Dependency>)
    requires AreRecordsOf(inventory, rules, records) && AreRecordsOf(inventory, rules, records')
    ensures records == records'
  {
    forall i | 0 <= i < |records| ensures records[i] == records'[i] {
      RecordIsUnique(inventory[i], rules, records[i], records'[i]);
    }
  }

  lemma OutputHasRecords(inventory: seq<Item>, rules: Rules, output: seq<Dependency>, i: nat)
    requires i < |inventory| && IsPolicyOutput(inventory, rules, output)
    ensures exists d :: IsRecordOf(inventory[i], rules, d)
  {
    var records :| AreRecordsOf(inventory, rules, records) && output == Sort(RecordLess, records);
    assert IsRecordOf(inventory[i], rules, records[i]);
  }

  lemma NoRecordNoOutput(inventory: seq<Item>, rules: Rules, i: nat)
    requires i < |inventory| && forall d :: !IsRecordOf(inventory[i], rules, d)
    ensures forall output :: !IsPolicyOutput(inventory, rules, output)
  {
    forall output ensures !IsPolicyOutput(inventory, rules, output) {
      if IsPolicyOutput(inventory, rules, output) {
        OutputHasRecords(inventory, rules, output, i);
      }
    }
  }

  lemma UnusedMeansNoOutput(inventory: seq<Item>, rules: Rules, records: seq<Dependency>)
    requires AreRecordsOf(inventory, rules, records) && !NothingUnused(records, rules)
    ensures forall output :: !IsPolicyOutput(inventory, rules, output)
  {
    forall output ensures !IsPolicyOutput(inventory, rules, output) {
      if IsPolicyOutput(inventory, rules, output) {
        var records' :| AreRecordsOf(inventory, rules, records') && NothingUnused(records', rules);
        RecordsAreUnique(inventory, rules, records, records');
      }
    }
  }

  /** `apply_license_policy`: it returns the policy's output, and raises only
      when the policy has none. */
  method ApplyLicensePolicy(inventory: seq<Item>, rules: Rules) returns (r: Result<seq<Dependency>, PolicyError>)
    ensures r.Ok? ==> IsPolicyOutput(inventory, rules, r.value)
    ensures r.Err? ==> forall output :: !IsPolicyOutput(inventory, rules, output)
    ensures Bound(rules.conclusions) && r.Err? ==> r.error != ConclusionNotApproved && r.error != SeveralTexts
  {
    var consumedExceptions: set<Key>, consumedConclusions: set<ArtifactKey> := {}, {};
    var result: seq<Dependency> := [];
    for n := 0 to |inventory|
      invariant AreRecordsOf(inventory[..n], rules, result)
      invariant Consumed(result, rules, consumedExceptions, consumedConclusions)
    {
      var item := inventory[n];
      var record := DecideItem(item, rules);
      if record.Err? {
        NoRecordNoOutput(inventory, rules, n);
        return Err(record.error);
      }
      OneRecordMore(inventory, n, rules, result, record.value);
      ConsumeOne(result, rules, consumedExceptions, consumedConclusions, record.value);
      result := result + [record.value];
      if record.value.status.ReviewedException? {
        consumedExceptions := consumedExceptions + {ItemKey(item)};
      } else if record.value.status.ApprovedByConclusion? {
        consumedConclusions := consumedConclusions + Exact(rules, ItemKey(item));
      }
    }
    assert inventory[..|inventory|] == inventory;
    ConsumedIsUsed(result, rules, consumedExceptions, consumedConclusions);
    if !(rules.exceptions.Keys <= consumedExceptions) {
      UnusedMeansNoOutput(inventory, rules, result);
      return Err(UnusedException);
    }
    if !(rules.conclusions.Keys <= consumedConclusions) {
      UnusedMeansNoOutput(inventory, rules, result);
      return Err(UnusedConclusion);
    }
    return Ok(Sort(RecordLess, result));
  }

  /** The two sets that the loop keeps: the exceptions and conclusions used so far. */
  ghost predicate Consumed(result: seq<Dependency>, rules: Rules, exceptions: set<Key>, conclusions: set<ArtifactKey>) {
    && (forall key :: key in exceptions <==> exists i :: 0 <= i < |result| && UsesException(result[i], key))
    && forall k :: k in conclusions <==>
         k in rules.conclusions && exists i :: 0 <= i < |result| && UsesConclusion(result[i], k)
  }

  lemma OneRecordMore(inventory: seq<Item>, n: nat, rules: Rules, result: seq<Dependency>, record: Dependency)
    requires n < |inventory| && AreRecordsOf(inventory[..n], rules, result) && IsRecordOf(inventory[n], rules, record)
    ensures AreRecordsOf(inventory[..n + 1], rules, result + [record])
    ensures DependencyKey(record) == ItemKey(inventory[n])
  {
    forall i | 0 <= i < n ensures IsRecordOf(inventory[..n + 1][i], rules, (result + [record])[i]) {
      assert inventory[..n][i] == inventory[..n + 1][i];
    }
  }

  lemma ConsumeOne(result: seq<Dependency>, rules: Rules, exceptions: set<Key>, conclusions: set<ArtifactKey>,
                   record: Dependency)
    requires Consumed(result, rules, exceptions, conclusions)
    ensures Consumed(result + [record], rules,
      if record.status.ReviewedException? then exceptions + {DependencyKey(record)} else exceptions,
      if record.status.ApprovedByConclusion? then conclusions + Exact(rules, DependencyKey(record)) else conclusions)
  {
    var more := result + [record];
    assert more[|result|] == record;
    forall key ensures (exists i :: 0 <= i < |more| && UsesException(more[i], key))
      <==> (exists i :: 0 <= i < |result| && UsesException(result[i], key)) || UsesException(record, key) {
      if i :| 0 <= i < |result| && UsesException(result[i], key) {
        assert more[i] == result[i];
      }
    }
    forall k ensures (exists i :: 0 <= i < |more| && UsesConclusion(more[i], k))
      <==> (exists i :: 0 <= i < |result| && UsesConclusion(result[i], k)) || UsesConclusion(record, k) {
      if i :| 0 <= i < |result| && UsesConclusion(result[i], k) {
        assert more[i] == result[i];
      }
    }
  }

  lemma ConsumedIsUsed(result: seq<Dependency>, rules: Rules, exceptions: set<Key>, conclusions: set<ArtifactKey>)
    requires Consumed(result, rules, exceptions, conclusions)
    ensures NothingUnused(result, rules) <==>
      rules.exceptions.Keys <= exceptions && rules.conclusions.Keys <= conclusions
  {
  }

  ghost predicate DistinctKeys(inventory: seq<Item>) {
    forall i, j :: 0 <= i < j < |inventory| ==> ItemKey(inventory[i]) != ItemKey(inventory[j])
  }

  /** The output is a permutation of the records in strictly increasing key order. */
  lemma OutputIsSorted(inventory: seq<Item>, rules: Rules, records: seq<Dependency>)
    requires AreRecordsOf(inventory, rules, records) && DistinctKeys(inventory)
    ensures var output := Sort(RecordLess, records);
      && multiset(output) == multiset(records) && |output| == |inventory|
      && Elements(output) == Elements(records)
      && StrictlyIncreasing(RecordLess, output)
  {
    RecordLessIsWeak();
    SortCorrect(RecordLess, records);
    forall i, j | 0 <= i < j < |records| ensures DependencyKey(records[i]) != DependencyKey(records[j]) {
      assert ItemKey(inventory[i]) == DependencyKey(records[i]);
      assert ItemKey(inventory[j]) == DependencyKey(records[j]);
    }
    SortedByKey(records, Sort(RecordLess, records));
  }

  /** Sorting records with distinct keys leaves no ties. */
  lemma SortedByKey(records: seq<Dependency>, output: seq<Dependency>)
    requires multiset(output) == multiset(records) && IsSorted(RecordLess, output)
    requires forall i, j :: 0 <= i < j < |records| ==> DependencyKey(records[i]) != DependencyKey(records[j])
    ensures StrictlyIncreasing(RecordLess, output)
  {
    DistinctByCount(records, output);
    KeyLessIsTotal();
    forall i, j | 0 <= i < j < |output| ensures RecordLess(output[i], output[j]) {
      assert output[i] in multiset(records) && output[j] in multiset(records);
      assert output[i] in records && output[j] in records;
      assert DependencyKey(output[i]) != DependencyKey(output[j]);
      assert !RecordLess(output[j], output[i]);
    }
  }

  /** Conservation: with distinct keys the output does not depend on the order of
      the inventory. */
  lemma OutputIgnoresInputOrder(inventory: seq<Item>, inventory': seq<Item>, rules: Rules,
                                output: seq<Dependency>, output': seq<Dependency>)
    requires Elements(inventory) == Elements(inventory')
    requires DistinctKeys(inventory) && DistinctKeys(inventory')
    requires IsPolicyOutput(inventory, rules, output) && IsPolicyOutput(inventory', rules, output')
    ensures output == output'
  {
    var records :| AreRecordsOf(inventory, rules, records) && output == Sort(RecordLess, records);
    var records' :| AreRecordsOf(inventory', rules, records') && output' == Sort(RecordLess, records');
    OutputIsSorted(inventory, rules, records);
    OutputIsSorted(inventory', rules, records');
    SameRecordsSubset(inventory, inventory', rules, records, records');
    SameRecordsSubset(inventory', inventory, rules, records', records);
    forall d ensures d in output <==> d in output' {
      assert d in output <==> d in Elements(output);
      assert d in output' <==> d in Elements(output');
    }
    RecordLessIsWeak();
    IncreasingUnique(RecordLess, output, output');
  }

  lemma SameRecordsSubset(inventory: seq<Item>, inventory': seq<Item>, rules: Rules,
                          records: seq<Dependency>, records': seq<Dependency>)
    requires Elements(inventory) == Elements(inventory')
    requires AreRecordsOf(inventory, rules, records) && AreRecordsOf(inventory', rules, records')
    ensures Elements(records) <= Elements(records')
  {
    forall d | d in Elements(records) ensures d in Elements(records') {
      var i :| 0 <= i < |records| && records[i] == d;
      assert inventory[i] in Elements(inventory);
      var j :| 0 <= j < |inventory'| && inventory'[j] == inventory[i];
      RecordIsUnique(inventory[i], rules, records[i], records'[j]);
    }
  }
}
