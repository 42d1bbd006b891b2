/** From the generator to the finalizer: what the generator writes under the licence
    policy, with the SBOMs it relabels, the finalizer accepts
    (scripts/generate_supply_chain_evidence.py:1070-1261,
    scripts/finalize_release_evidence.py:2701-3032). */
module Agreement {
  import opened Ordering
  import opened Text
  import opened Licenses
  import opened Policy
  import opened SupplyCheck
  import Conclusions
  import Exceptions
  import Spdx

  // ----- relabelling an SBOM

  function LicenseFieldOf(d: Dependency): LicenseField {
    if Effective(d).None? then NoLicenses else OneExpression(Effective(d).value)
  }

  /** `by_identity.get(key)`: the last record with the key. */
  function RecordFor(dependencies: seq<Dependency>, key: Key): (r: Option<Dependency>)
    ensures r.Some? ==> r.value in dependencies && DependencyKey(r.value) == key
    ensures r.None? ==> forall d :: d in dependencies ==> DependencyKey(d) != key
  {
    if dependencies == [] then None
    else
      var last := dependencies[|dependencies| - 1];
      if DependencyKey(last) == key then Some(last) else RecordFor(dependencies[..|dependencies| - 1], key)
  }

  /** `_apply_dependency_licenses_to_sbom`: every component, in place, gets the
      effective licence of its record; it fails if some component has none. */
  method RelabelSbom(components: array<Component>, ecosystem: string, dependencies: seq<Dependency>)
    returns (ok: bool)
    modifies components
    ensures ok <==> forall i :: 0 <= i < components.Length ==>
      RecordFor(dependencies, ComponentKeyOf(ecosystem, old(components[i]))).Some?
    ensures ok ==> Relabelled(old(components[..]), components[..], ecosystem, dependencies)
  {
    ghost var before := components[..];
    for n := 0 to components.Length
      invariant components[n..] == before[n..]
      invariant forall i :: 0 <= i < n ==> RecordFor(dependencies, ComponentKeyOf(ecosystem, before[i])).Some?
      invariant Relabelled(before[..n], components[..n], ecosystem, dependencies)
    {
      assert components[n] == components[n..][0] == before[n];
      var record := RecordFor(dependencies, ComponentKeyOf(ecosystem, components[n]));
      if record.None? {
        return false;
      }
      ghost var head := components[..n];
      components[n] := components[n].(licenses := LicenseFieldOf(record.value));
      assert components[..n + 1] == head + [components[n]];
      assert before[..n + 1] == before[..n] + [before[n]];
      assert components[n + 1..] == before[n + 1..];
    }
    assert before[..components.Length] == before && components[..components.Length] == components[..];
    return true;
  }

  ghost predicate Relabelled(before: seq<Component>, after: seq<Component>, ecosystem: string,
                             dependencies: seq<Dependency>)
  {
    && |after| == |before|
    && forall i :: 0 <= i < |after| ==>
         var record := RecordFor(dependencies, ComponentKeyOf(ecosystem, before[i]));
         record.Some? && after[i] == before[i].(licenses := LicenseFieldOf(record.value))
  }

  // ----- the generator's output is accepted

  /** The reviewed exceptions were loaded by the same validation on this day. */
  ghost predicate ExceptionsCurrent(c: Committed) {
    forall k :: k in c.rules.exceptions ==>
      ValidatedReview(c.rules.exceptions[k], c.calendar) == Some(c.rules.exceptions[k])
  }

  /** Python packages carry their locked hashes, which are well formed. */
  ghost predicate LockedItem(i: Item, c: Committed) {
    && i.ecosystem in ECOSYSTEMS && NonBlank(i.name) && NonBlank(i.version)
    && (i.ecosystem in PYTHON ==>
          ItemKey(i) in c.locked && i.artifacts.Some? && Elements(i.artifacts.value) == c.locked[ItemKey(i)])
  }

  lemma {:induction false} RecordForDistinct(dependencies: seq<Dependency>, n: nat)
    requires n < |dependencies|
    requires forall i, j :: 0 <= i < j < |dependencies| ==>
      DependencyKey(dependencies[i]) != DependencyKey(dependencies[j])
    ensures RecordFor(dependencies, DependencyKey(dependencies[n])) == Some(dependencies[n])
  {
    if n < |dependencies| - 1 {
      RecordForDistinct(dependencies[..|dependencies| - 1], n);
    }
  }

  lemma KnownObligation(o: string)
    requires o in {"preserve-apache-notice-and-state-changes", "publish-modified-mpl-covered-file-source",
                   "include-psf-license-and-change-summary", BASE_OBLIGATION}
             || o in REVIEW_OBLIGATIONS
    ensures NonBlank(o)
  {
    assert o[0] == 'p' || o[0] == 'i' || o[0] == 'r' || o[0] == 'c';
    assert !IsSpace(o[0]);
  }

  /** Every obligation list the policy writes is free of blank entries. */
  lemma ObligationsNonBlank(identifiers: set<string>)
    ensures forall o :: o in Obligations(identifiers) ==> NonBlank(o)
    ensures forall o :: o in REVIEW_OBLIGATIONS ==> NonBlank(o)
  {
    forall o | o in Obligations(identifiers) ensures NonBlank(o) {
      KnownObligation(o);
    }
    forall o | o in REVIEW_OBLIGATIONS ensures NonBlank(o) {
      KnownObligation(o);
    }
  }

  lemma ApprovalAgrees(expression: string)
    ensures ApprovedIdentifiers(expression).Some? <==> WithinAllowlist(expression)
    ensures DeclaredApproved(Some(expression)) <==> WithinAllowlist(expression)
    ensures ApprovedIdentifiers(expression).Some? ==>
      ApprovedIdentifiers(expression) == Spdx.Identifiers(expression) && NonBlank(expression)
  {
    Spdx.IdentifiersNonEmpty(expression);
  }

  lemma ListedObligations(d: Dependency, obligations: set<string>)
    requires IsListing(d.obligations, obligations)
    requires forall o :: o in obligations ==> NonBlank(o)
    ensures ObligationsAre(d, obligations)
    ensures forall i :: 0 <= i < |d.obligations| ==> NonBlank(d.obligations[i])
  {
    forall i | 0 <= i < |d.obligations| ensures NonBlank(d.obligations[i]) {
      assert d.obligations[i] in Elements(d.obligations);
    }
  }

  /** One record of the generator passes the finalizer's check of one record. */
  lemma RecordIsAccepted(i: Item, d: Dependency, c: Committed, licenses: SbomLicenses)
    requires IsRecordOf(i, c.rules, d) && LockedItem(i, c) && ExceptionsCurrent(c)
    requires DependencyKey(d) in licenses && licenses[DependencyKey(d)] == Effective(d)
    ensures RecordAccepted(d, c, licenses)
  {
    NormalizeIsIdempotent(i.declared);
    if d.declared.Some? {
      ApprovalAgrees(d.declared.value);
    }
    if d.concluded.Some? {
      ApprovalAgrees(d.concluded.value);
      ObligationsNonBlank(ApprovedIdentifiers(d.concluded.value).value);
      ListedObligations(d, Obligations(ApprovedIdentifiers(d.concluded.value).value));
    } else {
      ObligationsNonBlank({});
      ListedObligations(d, REVIEW_OBLIGATIONS);
    }
    if IsConcludedRecord(i, c.rules, d) {
      ConclusionsAgree(i, c.rules, d);
      var exact := Exact(c.rules, ItemKey(i));
      var k :| k in exact;
      assert c.rules.conclusions[k].declared in DeclaredValues(c.rules, ItemKey(i));
      assert DeclaredValues(c.rules, ItemKey(i)) == {d.declared.value};
    }
  }

  lemma OutputKeysIncrease(inventory: seq<Item>, rules: Rules, records: seq<Dependency>)
    requires AreRecordsOf(inventory, rules, records) && DistinctKeys(inventory)
    ensures StrictlyIncreasing(KeyLess, Keys(Sort(RecordLess, records)))
    ensures Elements(Sort(RecordLess, records)) == Elements(records)
  {
    OutputIsSorted(inventory, rules, records);
    IncreasingKeys(Sort(RecordLess, records));
  }

  lemma IncreasingKeys(output: seq<Dependency>)
    requires StrictlyIncreasing(RecordLess, output)
    ensures StrictlyIncreasing(KeyLess, Keys(output))
  {
    forall i, j | 0 <= i < j < |output| ensures KeyLess(Keys(output)[i], Keys(output)[j]) {
      assert RecordLess(output[i], output[j]);
    }
  }

  lemma IncreasingCount(keys: seq<Key>)
    requires StrictlyIncreasing(KeyLess, keys)
    ensures |Elements(keys)| == |keys|
  {
    KeyLessIsTotal();
    forall i, j | 0 <= i < j < |keys| ensures keys[i] != keys[j] {
      assert KeyLess(keys[i], keys[j]);
    }
    DistinctCount(keys);
  }

  lemma OutputRecordsAccepted(inventory: seq<Item>, records: seq<Dependency>, output: seq<Dependency>,
                              c: Committed, licenses: SbomLicenses, d: Dependency)
    requires AreRecordsOf(inventory, c.rules, records) && Elements(output) == Elements(records) && d in output
    requires forall i :: 0 <= i < |inventory| ==> LockedItem(inventory[i], c)
    requires ExceptionsCurrent(c)
    requires DependencyKey(d) in licenses && licenses[DependencyKey(d)] == Effective(d)
    ensures RecordAccepted(d, c, licenses)
  {
    assert d in Elements(records);
    var n :| 0 <= n < |records| && records[n] == d;
    RecordIsAccepted(inventory[n], d, c, licenses);
  }

  /** Producer to checker: against an SBOM whose licences are the records'
      effective ones, every output of the generator is accepted. */
  lemma GeneratedInventoryIsAccepted(inventory: seq<Item>, output: seq<Dependency>, c: Committed,
      licenses: SbomLicenses)
    requires IsPolicyOutput(inventory, c.rules, output) && DistinctKeys(inventory)
    requires forall i :: 0 <= i < |inventory| ==> LockedItem(inventory[i], c)
    requires ExceptionsCurrent(c)
    requires licenses.Keys == Elements(Keys(output))
    requires forall d :: d in output ==> DependencyKey(d) in licenses && licenses[DependencyKey(d)] == Effective(d)
    ensures InventoryAccepted(output, c, licenses)
  {
    var records :| AreRecordsOf(inventory, c.rules, records) && NothingUnused(records, c.rules)
      && output == Sort(RecordLess, records);
    OutputKeysIncrease(inventory, c.rules, records);
    IncreasingCount(Keys(output));
    forall i | 0 <= i < |output| ensures RecordAccepted(output[i], c, licenses) {
      OutputRecordsAccepted(inventory, records, output, c, licenses, output[i]);
    }
    StillUsed(records, output, c.rules);
  }

  lemma StillUsed(records: seq<Dependency>, output: seq<Dependency>, rules: Rules)
    requires NothingUnused(records, rules) && Elements(records) == Elements(output)
    ensures NothingUnused(output, rules)
  {
    forall key | key in rules.exceptions ensures exists i :: 0 <= i < |output| && UsesException(output[i], key) {
      var n :| 0 <= n < |records| && UsesException(records[n], key);
      assert records[n] in Elements(records);
      var i :| 0 <= i < |output| && output[i] == records[n];
    }
    forall k | k in rules.conclusions ensures exists i :: 0 <= i < |output| && UsesConclusion(output[i], k) {
      var n :| 0 <= n < |records| && UsesConclusion(records[n], k);
      assert records[n] in Elements(records);
      var i :| 0 <= i < |output| && output[i] == records[n];
    }
  }

  /** The generator's SBOMs before relabelling: the locked packages, once each,
      which are also the inventory's packages. */
  ghost predicate SbomsOfInventory(sboms: Sboms, expected: map<string, set<Identity>>, inventory: seq<Item>)
    requires ECOSYSTEMS <= expected.Keys
  {
    && ECOSYSTEMS <= sboms.Keys
    && (forall e :: e in ECOSYSTEMS ==> ListsPackages(sboms[e], expected[e]))
    && (forall i :: 0 <= i < |inventory| ==>
          inventory[i].ecosystem in ECOSYSTEMS
          && (CanonicalName(inventory[i].name), inventory[i].version) in expected[inventory[i].ecosystem])
    && (forall e, id :: e in ECOSYSTEMS && id in expected[e] ==>
          exists i :: 0 <= i < |inventory| && ItemKey(inventory[i]) == (e, id.0, id.1))
  }

  ghost predicate ListsPackages(components: seq<Component>, expected: set<Identity>) {
    && |components| == |expected|
    && (forall i :: 0 <= i < |components| ==> NonBlank(components[i].name) && NonBlank(components[i].version))
    && (forall i, j :: 0 <= i < j < |components| ==> IdentityOf(components[i]) != IdentityOf(components[j]))
    && (forall id :: id in expected <==> exists i :: 0 <= i < |components| && IdentityOf(components[i]) == id)
  }

  ghost predicate AllRelabelled(before: Sboms, after: Sboms, dependencies: seq<Dependency>) {
    && ECOSYSTEMS <= before.Keys && ECOSYSTEMS <= after.Keys
    && forall e :: e in ECOSYSTEMS ==> Relabelled(before[e], after[e], e, dependencies)
  }

  lemma RelabelledSbomIsAccepted(before: seq<Component>, after: seq<Component>, e: string,
                                 expected: set<Identity>, dependencies: seq<Dependency>)
    requires ListsPackages(before, expected) && Relabelled(before, after, e, dependencies)
    requires forall d :: d in dependencies && Effective(d).Some? ==> NonBlank(Effective(d).value)
    ensures SbomAccepted(after, expected)
    ensures forall i :: 0 <= i < |after| ==> IdentityOf(after[i]) == IdentityOf(before[i])
  {
    forall i | 0 <= i < |after| ensures ComponentWellFormed(after[i]) && IdentityOf(after[i]) == IdentityOf(before[i]) {
      var record := RecordFor(dependencies, ComponentKeyOf(e, before[i]));
      assert record.Some? && after[i] == before[i].(licenses := LicenseFieldOf(record.value));
    }
    forall id ensures id in expected <==> exists i :: 0 <= i < |after| && IdentityOf(after[i]) == id {
      if id in expected {
        var i :| 0 <= i < |before| && IdentityOf(before[i]) == id;
        assert IdentityOf(after[i]) == id;
      }
      if exists i :: 0 <= i < |after| && IdentityOf(after[i]) == id {
        var i :| 0 <= i < |after| && IdentityOf(after[i]) == id;
        assert IdentityOf(before[i]) == id;
      }
    }
  }

  ghost predicate HasItem(inventory: seq<Item>, k: Key) {
    exists i :: 0 <= i < |inventory| && ItemKey(inventory[i]) == k
  }

  /** The keys of the output are the keys of the inventory. */
  lemma OutputKeys(inventory: seq<Item>, rules: Rules, output: seq<Dependency>)
    requires IsPolicyOutput(inventory, rules, output) && DistinctKeys(inventory)
    ensures forall k :: k in Keys(output) <==> HasItem(inventory, k)
    ensures StrictlyIncreasing(KeyLess, Keys(output))
  {
    var records :| AreRecordsOf(inventory, rules, records) && output == Sort(RecordLess, records);
    OutputKeysIncrease(inventory, rules, records);
    KeysOfElements(records, output, Keys(records));
    RecordKeys(inventory, rules, records);
  }

  lemma RecordKeys(inventory: seq<Item>, rules: Rules, records: seq<Dependency>)
    requires AreRecordsOf(inventory, rules, records)
    ensures forall k :: k in Keys(records) <==> HasItem(inventory, k)
  {
    forall n | 0 <= n < |records| ensures Keys(records)[n] == ItemKey(inventory[n]) {
      assert IsRecordOf(inventory[n], rules, records[n]);
    }
    forall k ensures k in Keys(records) <==> HasItem(inventory, k) {
      if k in Keys(records) {
        var n :| 0 <= n < |Keys(records)| && Keys(records)[n] == k;
      }
    }
  }

  lemma KeysOfElements(a: seq<Dependency>, b: seq<Dependency>, keys: seq<Key>)
    requires Elements(a) == Elements(b) && keys == Keys(a)
    ensures forall k :: k in keys <==> k in Keys(b)
  {
    forall k ensures k in Keys(a) <==> k in Keys(b) {
      if k in Keys(a) {
        var n :| 0 <= n < |a| && Keys(a)[n] == k;
        assert a[n] in Elements(b);
        var m :| 0 <= m < |b| && b[m] == a[n];
        assert Keys(b)[m] == k;
      }
      if k in Keys(b) {
        var n :| 0 <= n < |b| && Keys(b)[n] == k;
        assert b[n] in Elements(a);
        var m :| 0 <= m < |a| && a[m] == b[n];
        assert Keys(a)[m] == k;
      }
    }
  }

  /** In a list with increasing keys each record is the one found by its key. */
  lemma RecordsAreFound(output: seq<Dependency>)
    requires StrictlyIncreasing(KeyLess, Keys(output))
    ensures forall d :: d in output ==> RecordFor(output, DependencyKey(d)) == Some(d)
    ensures forall d :: d in output ==> DependencyKey(d) in Keys(output)
    ensures forall k :: k in Keys(output) ==> RecordFor(output, k).Some?
  {
    KeyLessIsTotal();
    forall a, b | 0 <= a < b < |output| ensures DependencyKey(output[a]) != DependencyKey(output[b]) {
      assert KeyLess(Keys(output)[a], Keys(output)[b]);
    }
    forall d | d in output ensures RecordFor(output, DependencyKey(d)) == Some(d) && DependencyKey(d) in Keys(output) {
      var j :| 0 <= j < |output| && output[j] == d;
      RecordForDistinct(output, j);
      assert Keys(output)[j] == DependencyKey(d);
    }
    forall k | k in Keys(output) ensures RecordFor(output, k).Some? {
      var j :| 0 <= j < |output| && Keys(output)[j] == k;
      assert output[j] in output;
    }
  }

  lemma OutputComesFromRecords(inventory: seq<Item>, rules: Rules, output: seq<Dependency>, d: Dependency)
    returns (i: Item)
    requires IsPolicyOutput(inventory, rules, output) && d in output
    ensures i in inventory && IsRecordOf(i, rules, d)
  {
    var records :| AreRecordsOf(inventory, rules, records) && output == Sort(RecordLess, records);
    RecordLessIsWeak();
    SortCorrect(RecordLess, records);
    assert d in Elements(output);
    var n :| 0 <= n < |records| && records[n] == d;
    i := inventory[n];
  }

  lemma EffectiveNonBlank(i: Item, rules: Rules, d: Dependency)
    requires IsRecordOf(i, rules, d) && Effective(d).Some?
    ensures NonBlank(Effective(d).value)
  {
    NormalizeIsIdempotent(i.declared);
    if d.concluded.Some? {
      ApprovalAgrees(d.concluded.value);
    }
  }

  lemma RelabelledAreAccepted(before: Sboms, after: Sboms, expected: map<string, set<Identity>>,
      output: seq<Dependency>)
    requires ECOSYSTEMS <= expected.Keys && AllRelabelled(before, after, output)
    requires forall e :: e in ECOSYSTEMS ==> ListsPackages(before[e], expected[e])
    requires forall d :: d in output && Effective(d).Some? ==> NonBlank(Effective(d).value)
    ensures SbomsAccepted(after, ECOSYSTEMS, expected)
  {
    forall e | e in ECOSYSTEMS ensures SbomAccepted(after[e], expected[e]) {
      RelabelledSbomIsAccepted(before[e], after[e], e, expected[e], output);
    }
  }

  lemma RelabelledComponent(before: seq<Component>, after: seq<Component>, e: string, output: seq<Dependency>, i: nat)
    requires Relabelled(before, after, e, output) && i < |after|
    ensures var record := RecordFor(output, ComponentKeyOf(e, after[i]));
      record.Some? && SbomLicense(after[i]) == Effective(record.value)
  {
    var record := RecordFor(output, ComponentKeyOf(e, before[i]));
    assert record.Some? && after[i] == before[i].(licenses := LicenseFieldOf(record.value));
  }

  lemma AcceptedIsNamed(components: seq<Component>, expected: set<Identity>, k: Key)
    requires SbomAccepted(components, expected) && (k.1, k.2) in expected
    ensures Named(components, |components|, k.0, k)
  {
    var i :| 0 <= i < |components| && IdentityOf(components[i]) == (k.1, k.2);
    assert ComponentKeyOf(k.0, components[i]) == k;
  }

  lemma AcceptedIsExpected(components: seq<Component>, expected: set<Identity>, e: string, i: nat)
    requires SbomAccepted(components, expected) && i < |components|
    ensures var k := ComponentKeyOf(e, components[i]); k.0 == e && (k.1, k.2) in expected
  {
    assert IdentityOf(components[i]) in expected;
  }

  /** The table gives every record its effective licence. */
  ghost predicate GivesEffective(output: seq<Dependency>, licenses: SbomLicenses) {
    forall d :: d in output ==> DependencyKey(d) in licenses && licenses[DependencyKey(d)] == Effective(d)
  }

  ghost predicate IsTable(output: seq<Dependency>, licenses: SbomLicenses) {
    forall k :: k in licenses ==> RecordFor(output, k).Some? && licenses[k] == Effective(RecordFor(output, k).value)
  }

  /** These keys name exactly the packages that the locks expect. */
  ghost predicate AreExpected(keys: set<Key>, expected: map<string, set<Identity>>)
    requires ECOSYSTEMS <= expected.Keys
  {
    forall k :: k in keys <==> IsExpected(k, expected)
  }

  ghost predicate IsExpected(k: Key, expected: map<string, set<Identity>>)
    requires ECOSYSTEMS <= expected.Keys
  {
    k.0 in ECOSYSTEMS && (k.1, k.2) in expected[k.0]
  }

  /** The relabelled SBOMs give every package the effective licence of its record. */
  lemma RelabelledLicenses(before: Sboms, after: Sboms, expected: map<string, set<Identity>>, output: seq<Dependency>,
                           licenses: SbomLicenses)
    requires ECOSYSTEMS <= expected.Keys && AllRelabelled(before, after, output)
    requires SbomsAccepted(after, ECOSYSTEMS, expected)
    requires IsTable(output, licenses) && AreExpected(licenses.Keys, expected)
    ensures LicensesOf(after, ECOSYSTEMS, licenses)
  {
    forall e, i | e in ECOSYSTEMS && 0 <= i < |after[e]|
      ensures var key := ComponentKeyOf(e, after[e][i]); key in licenses && licenses[key] == SbomLicense(after[e][i])
    {
      RelabelledComponent(before[e], after[e], e, output, i);
      AcceptedIsExpected(after[e], expected[e], e, i);
    }
    forall k | k in licenses ensures k.0 in ECOSYSTEMS && Named(after[k.0], |after[k.0]|, k.0, k) {
      AcceptedIsNamed(after[k.0], expected[k.0], k);
    }
  }

  lemma KeysAreExpected(before: Sboms, expected: map<string, set<Identity>>, inventory: seq<Item>)
    requires ECOSYSTEMS <= expected.Keys && SbomsOfInventory(before, expected, inventory)
    ensures forall k :: HasItem(inventory, k) <==> IsExpected(k, expected)
  {
    forall k ensures HasItem(inventory, k) <==> IsExpected(k, expected) {
      KeyIsExpected(before, expected, inventory, k);
    }
  }

  lemma ListedKeys(inventory: seq<Item>, expected: map<string, set<Identity>>, keys: seq<Key>)
    requires ECOSYSTEMS <= expected.Keys
    requires forall k :: HasItem(inventory, k) <==> IsExpected(k, expected)
    requires forall k :: k in keys <==> HasItem(inventory, k)
    ensures AreExpected(Elements(keys), expected)
  {
    forall k ensures k in Elements(keys) <==> IsExpected(k, expected) {
      assert k in Elements(keys) <==> k in keys;
    }
  }

  lemma KeyIsExpected(before: Sboms, expected: map<string, set<Identity>>, inventory: seq<Item>, k: Key)
    requires ECOSYSTEMS <= expected.Keys && SbomsOfInventory(before, expected, inventory)
    ensures HasItem(inventory, k) <==> IsExpected(k, expected)
  {
    if HasItem(inventory, k) {
      var i :| 0 <= i < |inventory| && ItemKey(inventory[i]) == k;
      assert (CanonicalName(inventory[i].name), inventory[i].version) == (k.1, k.2);
    }
    if IsExpected(k, expected) {
      var i :| 0 <= i < |inventory| && ItemKey(inventory[i]) == (k.0, (k.1, k.2).0, (k.1, k.2).1);
    }
  }

  lemma TableOfOutput(output: seq<Dependency>) returns (licenses: SbomLicenses)
    requires StrictlyIncreasing(KeyLess, Keys(output))
    ensures licenses.Keys == Elements(Keys(output)) && IsTable(output, licenses) && GivesEffective(output, licenses)
  {
    RecordsAreFound(output);
    licenses := map k | k in Keys(output) :: Effective(RecordFor(output, k).value);
  }

  lemma OutputIsNonBlank(inventory: seq<Item>, rules: Rules, output: seq<Dependency>)
    requires IsPolicyOutput(inventory, rules, output)
    ensures forall d :: d in output && Effective(d).Some? ==> NonBlank(Effective(d).value)
  {
    forall d | d in output && Effective(d).Some? ensures NonBlank(Effective(d).value) {
      var i := OutputComesFromRecords(inventory, rules, output, d);
      EffectiveNonBlank(i, rules, d);
    }
  }

  lemma OutputTable(before: Sboms, expected: map<string, set<Identity>>, inventory: seq<Item>,
                    output: seq<Dependency>, rules: Rules)
    returns (licenses: SbomLicenses)
    requires ECOSYSTEMS <= expected.Keys && SbomsOfInventory(before, expected, inventory)
    requires IsPolicyOutput(inventory, rules, output) && DistinctKeys(inventory)
    ensures licenses.Keys == Elements(Keys(output)) && GivesEffective(output, licenses)
    ensures IsTable(output, licenses) && AreExpected(licenses.Keys, expected)
  {
    OutputKeys(inventory, rules, output);
    licenses := TableOfOutput(output);
    KeysAreExpected(before, expected, inventory);
    ListedKeys(inventory, expected, Keys(output));
  }

  lemma EvidenceLicenses(before: Sboms, after: Sboms, expected: map<string, set<Identity>>,
                         inventory: seq<Item>, output: seq<Dependency>, rules: Rules)
    returns (licenses: SbomLicenses)
    requires ECOSYSTEMS <= expected.Keys
    requires IsPolicyOutput(inventory, rules, output) && DistinctKeys(inventory)
    requires SbomsOfInventory(before, expected, inventory) && AllRelabelled(before, after, output)
    ensures SbomsAccepted(after, ECOSYSTEMS, expected) && LicensesOf(after, ECOSYSTEMS, licenses)
    ensures licenses.Keys == Elements(Keys(output)) && GivesEffective(output, licenses)
  {
    licenses := OutputTable(before, expected, inventory, output, rules);
    assert SbomsAccepted(after, ECOSYSTEMS, expected) by {
      OutputIsNonBlank(inventory, rules, output);
      RelabelledAreAccepted(before, after, expected, output);
    }
    RelabelledLicenses(before, after, expected, output, licenses);
  }

  /** Producer to checker, end to end: the generator's output together with its
      relabelled SBOMs is accepted by the finalizer. */
  lemma GeneratedEvidenceIsAccepted(before: Sboms, after: Sboms, expected: map<string, set<Identity>>,
                                    inventory: seq<Item>, output: seq<Dependency>, c: Committed)
    requires ECOSYSTEMS <= expected.Keys
    requires IsPolicyOutput(inventory, c.rules, output) && DistinctKeys(inventory)
    requires forall i :: 0 <= i < |inventory| ==> LockedItem(inventory[i], c)
    requires ExceptionsCurrent(c)
    requires SbomsOfInventory(before, expected, inventory) && AllRelabelled(before, after, output)
    ensures SupplyAccepted(after, expected, output, c)
  {
    var licenses := EvidenceLicenses(before, after, expected, inventory, output, c.rules);
    GeneratedInventoryIsAccepted(inventory, output, c, licenses);
  }

  /** From the committed files: when the generator loads its exceptions and conclusions
      from files without padded identities and paths, the finalizer loads the same rules
      from them and accepts what the generator writes. */
  lemma CommittedEvidenceIsAccepted(exceptions: seq<Exceptions.Entry>, conclusions: seq<Conclusions.Entry>,
                                    texts: map<string, Conclusions.TextFile>,
                                    before: Sboms, after: Sboms, expected: map<string, set<Identity>>,
                                    inventory: seq<Item>, output: seq<Dependency>, c: Committed)
    requires Exceptions.ReadsNoSpace(c.calendar)
    requires Exceptions.GeneratorLoads(exceptions, c.calendar, c.rules.exceptions)
    requires forall e :: e in exceptions ==> Exceptions.IdentityUnpadded(e)
    requires Conclusions.FileAccepted(conclusions, e => Conclusions.GeneratorAccepts(e, texts))
    requires Conclusions.IsLoaded(Conclusions.Stores(conclusions), c.rules.conclusions)
    requires forall e :: e in conclusions ==> Strip(e.textPath) == e.textPath
    requires ECOSYSTEMS <= expected.Keys
    requires IsPolicyOutput(inventory, c.rules, output) && DistinctKeys(inventory)
    requires forall i :: 0 <= i < |inventory| ==> LockedItem(inventory[i], c)
    requires SbomsOfInventory(before, expected, inventory) && AllRelabelled(before, after, output)
    ensures Exceptions.FinalizerLoads(exceptions, c.calendar, c.rules.exceptions)
    ensures Conclusions.FileAccepted(conclusions, e => Conclusions.FinalizerAccepts(e, texts))
    ensures SupplyAccepted(after, expected, output, c)
  {
    FilesAreLoaded(exceptions, conclusions, texts, c);
    GeneratedEvidenceIsAccepted(before, after, expected, inventory, output, c);
  }

  lemma FilesAreLoaded(exceptions: seq<Exceptions.Entry>, conclusions: seq<Conclusions.Entry>,
                       texts: map<string, Conclusions.TextFile>, c: Committed)
    requires Exceptions.ReadsNoSpace(c.calendar)
    requires Exceptions.GeneratorLoads(exceptions, c.calendar, c.rules.exceptions)
    requires forall e :: e in exceptions ==> Exceptions.IdentityUnpadded(e)
    requires Conclusions.FileAccepted(conclusions, e => Conclusions.GeneratorAccepts(e, texts))
    requires forall e :: e in conclusions ==> Strip(e.textPath) == e.textPath
    ensures Exceptions.FinalizerLoads(exceptions, c.calendar, c.rules.exceptions) && ExceptionsCurrent(c)
    ensures Conclusions.FileAccepted(conclusions, e => Conclusions.FinalizerAccepts(e, texts))
  {
    Exceptions.GeneratorsTableIsLoaded(exceptions, c.calendar, c.rules.exceptions);
    forall k | k in c.rules.exceptions
      ensures ValidatedReview(c.rules.exceptions[k], c.calendar) == Some(c.rules.exceptions[k])
    {
      Exceptions.LoadedIsCurrent(exceptions, c.calendar, c.rules.exceptions, k);
    }
    var accepts := (e: Conclusions.Entry) => Conclusions.FinalizerAccepts(e, texts);
    forall i | 0 <= i < |conclusions| ensures accepts(conclusions[i]) {
      assert conclusions[i] in conclusions;
      Conclusions.EntriesAgree(conclusions[i], texts);
    }
  }
}
