/** The finalizer's independent check of the SBOMs and of the dependency licence
    inventory (scripts/finalize_release_evidence.py:2475-2515, 2701-3032). */
module SupplyCheck {
  import opened Ordering
  import opened Text
  import opened Licenses
  import opened Policy
  import Spdx

  /** The "licenses" field of an SBOM component. */
  datatype LicenseField = NoLicenses | OneExpression(expression: string) | OtherLicenses

  datatype Component = Component(name: string, version: string, licenses: LicenseField)

  type Identity = (string, string)

  /** What the committed inputs fix: the rules, the hashes of every locked Python
      package, and how dates are read on the day of the check. */
  datatype Committed = Committed(rules: Rules, locked: map<Key, set<string>>, calendar: Calendar)

  /** The licence an SBOM gives each package. */
  type SbomLicenses = map<Key, Option<string>>

  // ----- one record

  function StripReview(r: Review): Review {
    Review(Strip(r.reason), Strip(r.reviewedBy), Strip(r.reviewedOn), Strip(r.reference), Strip(r.expiresOn))
  }

  predicate IsFilledIn(r: Review) {
    && NonBlank(r.reason) && NonBlank(r.reviewedBy) && NonBlank(r.reviewedOn)
    && NonBlank(r.reference) && NonBlank(r.expiresOn)
  }

  /** The dates can be read, and the review is in force. */
  predicate InForce(reviewedOn: string, expiresOn: string, calendar: Calendar) {
    var from, to := calendar.dayOf(reviewedOn), calendar.dayOf(expiresOn);
    from.Some? && to.Some? && from.value <= calendar.today <= to.value
  }

  /** `_validate_review_exception`. */
  function ValidatedReview(r: Review, calendar: Calendar): Option<Review> {
    if !IsFilledIn(r) then None
    else
      var n := StripReview(r);
      if |n.reason| < 20 || !InForce(n.reviewedOn, n.expiresOn, calendar) then None else Some(n)
  }

  predicate WithinAllowlist(expression: string) {
    var ids := Spdx.Identifiers(expression);
    ids.Some? && ids.value <= APPROVED
  }

  /** `declared_identifiers and declared_identifiers.issubset(...)`, with a parse
      error read as no identifiers. */
  predicate DeclaredApproved(declared: Option<string>) {
    declared.Some? &&
    var ids := Spdx.Identifiers(declared.value);
    ids.Some? && ids.value != {} && ids.value <= APPROVED
  }

  function Effective(d: Dependency): Option<string> {
    if d.concluded.Some? then d.concluded else d.declared
  }

  predicate ObligationsAre(d: Dependency, obligations: set<string>) { Elements(d.obligations) == obligations }

  predicate ApprovedProof(d: Dependency) {
    && d.evidence.None? && d.review.None? && d.declared.Some? && d.concluded.Some? && d.declared == d.concluded
    && WithinAllowlist(d.concluded.value)
    && ObligationsAre(d, Obligations(Spdx.Identifiers(d.concluded.value).value))
  }

  predicate ConclusionProof(d: Dependency, c: Committed) {
    var key := DependencyKey(d);
    var exact := Exact(c.rules, key);
    && d.evidence.Some? && d.review.None? && d.declared.Some? && d.concluded.Some? && d.ecosystem in PYTHON
    && WithinAllowlist(d.concluded.value)
    && !DeclaredApproved(d.declared)
    && ObligationsAre(d, Obligations(Spdx.Identifiers(d.concluded.value).value))
    && key in c.locked && exact != {} && ArtifactsOf(exact) == c.locked[key]
    && DeclaredValues(c.rules, key) == {d.declared.value}
    && ConcludedValues(c.rules, key) == {d.concluded.value}
    && d.evidence.value.kind == EVIDENCE_KIND
    && IsListing(d.evidence.value.artifacts, c.locked[key])
    && TextValues(c.rules, key) == {(d.evidence.value.textPath, d.evidence.value.textSha256)}
  }

  predicate ReviewProof(d: Dependency, c: Committed) {
    var key := DependencyKey(d);
    && d.evidence.None? && d.review.Some? && d.concluded.None?
    && ObligationsAre(d, REVIEW_OBLIGATIONS)
    && !DeclaredApproved(d.declared)
    && key in c.rules.exceptions
    && ValidatedReview(d.review.value, c.calendar) == Some(c.rules.exceptions[key])
  }

  /** The body of the loop over the dependency records, for one record. */
  predicate RecordAccepted(d: Dependency, c: Committed, licenses: SbomLicenses) {
    && d.ecosystem in ECOSYSTEMS && NonBlank(d.name) && NonBlank(d.version)
    && DependencyKey(d) in licenses
    && (d.declared.Some? ==> NonBlank(d.declared.value)) && (d.concluded.Some? ==> NonBlank(d.concluded.value))
    && Effective(d) == licenses[DependencyKey(d)]
    && (forall i :: 0 <= i < |d.obligations| ==> NonBlank(d.obligations[i]))
    && match d.status
       case ApprovedCompatible => ApprovedProof(d)
       case ApprovedByConclusion => ConclusionProof(d, c)
       case ReviewedException => ReviewProof(d, c)
       case OtherStatus => false
  }

  // ----- the inventory

  function Keys(dependencies: seq<Dependency>): seq<Key> {
    seq(|dependencies|, i requires 0 <= i < |dependencies| => DependencyKey(dependencies[i]))
  }

  /** What acceptance of an inventory means. */
  ghost predicate InventoryAccepted(dependencies: seq<Dependency>, c: Committed, licenses: SbomLicenses) {
    && |dependencies| == |licenses|
    && (forall i {:trigger RecordAccepted(dependencies[i], c, licenses)} ::
          0 <= i < |dependencies| ==> RecordAccepted(dependencies[i], c, licenses))
    && StrictlyIncreasing(KeyLess, Keys(dependencies))
    && Elements(Keys(dependencies)) == licenses.Keys
    && NothingUnused(dependencies, c.rules)
  }

  /** What the loop has collected from the first n records. */
  ghost predicate Collected(dependencies: seq<Dependency>, n: nat, rules: Rules, order: seq<Key>, seen: set<Key>,
                            spentExceptions: set<Key>, spentConclusions: set<ArtifactKey>)
    requires n <= |dependencies|
  {
    && order == Keys(dependencies)[..n]
    && seen == Elements(order)
    && (forall i, j :: 0 <= i < j < n ==> order[i] != order[j])
    && (forall key :: key in spentExceptions <==> exists i :: 0 <= i < n && UsesException(dependencies[i], key))
    && (forall k :: k in spentConclusions <==>
          k in rules.conclusions && exists i :: 0 <= i < n && UsesConclusion(dependencies[i], k))
  }

  function SpendException(d: Dependency, spent: set<Key>): set<Key> {
    if d.status.ReviewedException? then spent + {DependencyKey(d)} else spent
  }

  function SpendConclusions(d: Dependency, rules: Rules, spent: set<ArtifactKey>): set<ArtifactKey> {
    if d.status.ApprovedByConclusion? then spent + Exact(rules, DependencyKey(d)) else spent
  }

  lemma CollectOne(dependencies: seq<Dependency>, n: nat, rules: Rules, order: seq<Key>, seen: set<Key>,
                   spentExceptions: set<Key>, spentConclusions: set<ArtifactKey>)
    requires n < |dependencies|
    requires Collected(dependencies, n, rules, order, seen, spentExceptions, spentConclusions)
    ensures var d := dependencies[n];
      if DependencyKey(d) in seen then !StrictlyIncreasing(KeyLess, Keys(dependencies))
      else Collected(dependencies, n + 1, rules, order + [DependencyKey(d)], seen + {DependencyKey(d)},
                     SpendException(d, spentExceptions), SpendConclusions(d, rules, spentConclusions))
  {
    var d := dependencies[n];
    var key := DependencyKey(d);
    assert Keys(dependencies)[n] == key;
    if key in seen {
      var i :| 0 <= i < n && order[i] == key;
      assert Keys(dependencies)[i] == key;
      KeyLessIsTotal();
      assert !KeyLess(key, key);
    } else {
      assert Keys(dependencies)[..n + 1] == order + [key];
      assert Elements(order + [key]) == Elements(order) + {key};
      forall i, j | 0 <= i < j < n + 1 ensures (order + [key])[i] != (order + [key])[j] {
        assert order[i] in seen;
      }
      forall other ensures other in SpendException(d, spentExceptions) <==>
        exists i :: 0 <= i < n + 1 && UsesException(dependencies[i], other)
      {
        assert UsesException(d, other) <==> d.status.ReviewedException? && key == other;
      }
      forall k ensures k in SpendConclusions(d, rules, spentConclusions) <==>
        k in rules.conclusions && exists i :: 0 <= i < n + 1 && UsesConclusion(dependencies[i], k)
      {
        assert UsesConclusion(d, k) <==> d.status.ApprovedByConclusion? && key == k.0;
      }
    }
  }

  lemma CollectedAll(dependencies: seq<Dependency>, rules: Rules, order: seq<Key>, seen: set<Key>,
                     spentExceptions: set<Key>, spentConclusions: set<ArtifactKey>)
    requires Collected(dependencies, |dependencies|, rules, order, seen, spentExceptions, spentConclusions)
    ensures order == Sort(KeyLess, order) <==> StrictlyIncreasing(KeyLess, Keys(dependencies))
    ensures seen == Elements(Keys(dependencies))
    ensures rules.exceptions.Keys <= spentExceptions && rules.conclusions.Keys <= spentConclusions
      <==> NothingUnused(dependencies, rules)
  {
    assert Keys(dependencies)[..|dependencies|] == Keys(dependencies);
    KeyLessIsTotal();
    SortedExactly(KeyLess, order);
    if NothingUnused(dependencies, rules) {
      forall key | key in rules.exceptions ensures key in spentExceptions {
      }
      forall k | k in rules.conclusions ensures k in spentConclusions {
      }
    }
  }

  /** The loop of the inventory check, for any check of a single record. */
  method CheckRecords(dependencies: seq<Dependency>, rules: Rules, licensed: set<Key>, accepts: Dependency -> bool)
    returns (ok: bool)
    ensures ok <==>
      && (forall i :: 0 <= i < |dependencies| ==> accepts(dependencies[i]))
      && StrictlyIncreasing(KeyLess, Keys(dependencies))
      && Elements(Keys(dependencies)) == licensed
      && NothingUnused(dependencies, rules)
  {
    var seen: set<Key>, order: seq<Key> := {}, [];
    var consumedExceptions: set<Key>, consumedConclusions: set<ArtifactKey> := {}, {};
    for n := 0 to |dependencies|
      invariant Collected(dependencies, n, rules, order, seen, consumedExceptions, consumedConclusions)
      invariant forall i :: 0 <= i < n ==> accepts(dependencies[i])
    {
      var d := dependencies[n];
      CollectOne(dependencies, n, rules, order, seen, consumedExceptions, consumedConclusions);
      if DependencyKey(d) in seen || !accepts(d) {
        return false;
      }
      seen := seen + {DependencyKey(d)};
      order := order + [DependencyKey(d)];
      consumedExceptions := SpendException(d, consumedExceptions);
      consumedConclusions := SpendConclusions(d, rules, consumedConclusions);
    }
    CollectedAll(dependencies, rules, order, seen, consumedExceptions, consumedConclusions);
    return seen == licensed && order == Sort(KeyLess, order)
      && rules.exceptions.Keys <= consumedExceptions && rules.conclusions.Keys <= consumedConclusions;
  }

  /** The second half of `_validate_supply_artifacts`: it accepts exactly the
      inventories that meet the policy. */
  method CheckInventory(dependencies: seq<Dependency>, c: Committed, licenses: SbomLicenses) returns (ok: bool)
    ensures ok <==> InventoryAccepted(dependencies, c, licenses)
  {
    if |dependencies| != |licenses| {
      return false;
    }
    var accepts := (d: Dependency) => RecordAccepted(d, c, licenses);
    ok := CheckRecords(dependencies, c.rules, licenses.Keys, accepts);
    assert forall i :: 0 <= i < |dependencies| ==>
      accepts(dependencies[i]) == RecordAccepted(dependencies[i], c, licenses);
  }

  // ----- the SBOMs

  function ComponentKeyOf(ecosystem: string, component: Component): Key {
    ComponentKey(ecosystem, component.name, component.version)
  }

  function IdentityOf(component: Component): Identity { (CanonicalName(component.name), component.version) }

  predicate ComponentWellFormed(component: Component) {
    && NonBlank(component.name) && NonBlank(component.version)
    && !component.licenses.OtherLicenses?
    && (component.licenses.OneExpression? ==> NonBlank(component.licenses.expression))
  }

  /** `_sbom_component_license`. */
  function SbomLicense(component: Component): Option<string> {
    match component.licenses
    case OneExpression(expression) => Some(expression)
    case _ => None
  }

  ghost predicate SbomAccepted(components: seq<Component>, expected: set<Identity>) {
    && |components| == |expected|
    && (forall i :: 0 <= i < |components| ==> ComponentWellFormed(components[i]))
    && (forall i, j :: 0 <= i < j < |components| ==> IdentityOf(components[i]) != IdentityOf(components[j]))
    && (forall id :: id in expected <==> exists i :: 0 <= i < |components| && IdentityOf(components[i]) == id)
  }

  /** The first n components give these licences, beside those read before. */
  ghost predicate Read(components: seq<Component>, n: nat, ecosystem: string, before: SbomLicenses, after: SbomLicenses)
    requires n <= |components|
  {
    && (forall i :: 0 <= i < n ==> ComponentKeyOf(ecosystem, components[i]) in after.Keys - before.Keys)
    && (forall i :: 0 <= i < n ==> after[ComponentKeyOf(ecosystem, components[i])] == SbomLicense(components[i]))
    && (forall k :: k in after.Keys - before.Keys ==> Named(components, n, ecosystem, k))
    && (forall k :: k in before ==> k in after && after[k] == before[k])
  }

  ghost predicate Named(components: seq<Component>, n: nat, ecosystem: string, k: Key)
    requires n <= |components|
  {
    exists i :: 0 <= i < n && ComponentKeyOf(ecosystem, components[i]) == k
  }

  ghost predicate DistinctUpTo(components: seq<Component>, n: nat)
    requires n <= |components|
  {
    forall i, j :: 0 <= i < j < n ==> IdentityOf(components[i]) != IdentityOf(components[j])
  }

  lemma ReadOne(components: seq<Component>, n: nat, ecosystem: string, before: SbomLicenses, after: SbomLicenses)
    requires n < |components| && Read(components, n, ecosystem, before, after) && DistinctUpTo(components, n)
    requires forall k :: k in before ==> k.0 != ecosystem
    ensures var key := ComponentKeyOf(ecosystem, components[n]);
      if key in after then !DistinctUpTo(components, n + 1)
      else
        && DistinctUpTo(components, n + 1)
        && Read(components, n + 1, ecosystem, before, after[key := SbomLicense(components[n])])
  {
    var key := ComponentKeyOf(ecosystem, components[n]);
    if key in after {
      assert Named(components, n, ecosystem, key);
      var i :| 0 <= i < n && ComponentKeyOf(ecosystem, components[i]) == key;
      assert IdentityOf(components[i]) == IdentityOf(components[n]);
    } else {
      var next := after[key := SbomLicense(components[n])];
      forall i | 0 <= i < n ensures IdentityOf(components[i]) != IdentityOf(components[n]) {
        assert ComponentKeyOf(ecosystem, components[i]) in after;
      }
      forall k | k in next.Keys - before.Keys ensures Named(components, n + 1, ecosystem, k) {
        if k == key {
          assert ComponentKeyOf(ecosystem, components[n]) == k;
        } else {
          assert Named(components, n, ecosystem, k);
        }
      }
    }
  }

  lemma Observed(components: seq<Component>, ecosystem: string, before: SbomLicenses, after: SbomLicenses, id: Identity)
    requires Read(components, |components|, ecosystem, before, after)
    requires forall k :: k in before ==> k.0 != ecosystem
    ensures (ecosystem, id.0, id.1) in after <==> exists i :: 0 <= i < |components| && IdentityOf(components[i]) == id
  {
    var k := (ecosystem, id.0, id.1);
    if k in after {
      assert Named(components, |components|, ecosystem, k);
      var i :| 0 <= i < |components| && ComponentKeyOf(ecosystem, components[i]) == k;
      assert IdentityOf(components[i]) == id;
    }
    if exists i :: 0 <= i < |components| && IdentityOf(components[i]) == id {
      var i :| 0 <= i < |components| && IdentityOf(components[i]) == id;
      assert ComponentKeyOf(ecosystem, components[i]) == k;
    }
  }

  /** One round of the loop over the three SBOM files: a document is accepted
      exactly when it lists the expected packages once each, well formed. */
  method ReadSbom(components: seq<Component>, ecosystem: string, expected: set<Identity>, before: SbomLicenses)
    returns (after: Option<SbomLicenses>)
    requires forall k :: k in before ==> k.0 != ecosystem
    ensures after.Some? <==> SbomAccepted(components, expected)
    ensures after.Some? ==> Read(components, |components|, ecosystem, before, after.value)
  {
    if |components| != |expected| {
      return None;
    }
    var licenses := before;
    for n := 0 to |components|
      invariant Read(components, n, ecosystem, before, licenses)
      invariant forall i :: 0 <= i < n ==> ComponentWellFormed(components[i])
      invariant DistinctUpTo(components, n)
    {
      ReadOne(components, n, ecosystem, before, licenses);
      var component := components[n];
      if !ComponentWellFormed(component) || ComponentKeyOf(ecosystem, component) in licenses {
        return None;
      }
      licenses := licenses[ComponentKeyOf(ecosystem, component) := SbomLicense(component)];
    }
    var observed := set k | k in licenses && k.0 == ecosystem :: (k.1, k.2);
    forall id: Identity
      ensures id in observed <==> exists i :: 0 <= i < |components| && IdentityOf(components[i]) == id
    {
      Observed(components, ecosystem, before, licenses, id);
      assert (ecosystem, id.0, id.1) in licenses ==> id in observed;
    }
    return if observed == expected then Some(licenses) else None;
  }

  /** The three SBOM files by ecosystem; a missing file has no entry. */
  type Sboms = map<string, seq<Component>>

  /** The licences the SBOMs give, package by package. */
  ghost predicate LicensesOf(sboms: Sboms, ecosystems: set<string>, licenses: SbomLicenses) {
    && ecosystems <= sboms.Keys
    && (forall e, i :: e in ecosystems && 0 <= i < |sboms[e]| ==>
          var key := ComponentKeyOf(e, sboms[e][i]); key in licenses && licenses[key] == SbomLicense(sboms[e][i]))
    && (forall k :: k in licenses ==> k.0 in ecosystems && Named(sboms[k.0], |sboms[k.0]|, k.0, k))
  }

  ghost predicate SbomsAccepted(sboms: Sboms, ecosystems: set<string>, expected: map<string, set<Identity>>)
    requires ecosystems <= expected.Keys
  {
    ecosystems <= sboms.Keys && forall e :: e in ecosystems ==> SbomAccepted(sboms[e], expected[e])
  }

  /** What acceptance of the supply-chain artifacts means. */
  ghost predicate SupplyAccepted(sboms: Sboms, expected: map<string, set<Identity>>,
                                 dependencies: seq<Dependency>, c: Committed)
    requires ECOSYSTEMS <= expected.Keys
  {
    && SbomsAccepted(sboms, ECOSYSTEMS, expected)
    && exists licenses :: LicensesOf(sboms, ECOSYSTEMS, licenses) && InventoryAccepted(dependencies, c, licenses)
  }

  lemma LicensesAreUnique(sboms: Sboms, ecosystems: set<string>, a: SbomLicenses, b: SbomLicenses)
    requires LicensesOf(sboms, ecosystems, a) && LicensesOf(sboms, ecosystems, b)
    ensures a == b
  {
    LicensesIncluded(sboms, ecosystems, a, b);
    LicensesIncluded(sboms, ecosystems, b, a);
  }

  lemma LicensesIncluded(sboms: Sboms, ecosystems: set<string>, a: SbomLicenses, b: SbomLicenses)
    requires LicensesOf(sboms, ecosystems, a) && LicensesOf(sboms, ecosystems, b)
    ensures forall k :: k in a ==> k in b && b[k] == a[k]
  {
    forall k | k in a ensures k in b && b[k] == a[k] {
      assert Named(sboms[k.0], |sboms[k.0]|, k.0, k);
      var i :| 0 <= i < |sboms[k.0]| && ComponentKeyOf(k.0, sboms[k.0][i]) == k;
    }
  }

  lemma LicensesExtend(sboms: Sboms, ecosystems: set<string>, e: string, before: SbomLicenses, after: SbomLicenses)
    requires LicensesOf(sboms, ecosystems, before) && e !in ecosystems && e in sboms
    requires Read(sboms[e], |sboms[e]|, e, before, after)
    ensures LicensesOf(sboms, ecosystems + {e}, after)
  {
    forall k | k in after ensures k.0 in ecosystems + {e} && Named(sboms[k.0], |sboms[k.0]|, k.0, k) {
      if k !in before {
        assert Named(sboms[e], |sboms[e]|, e, k);
      }
    }
  }

  /** One SBOM file, after those of the ecosystems done before. */
  method ReadFile(sboms: Sboms, expected: map<string, set<Identity>>, ghost done: set<string>, ecosystem: string,
                  licenses: SbomLicenses)
    returns (r: Option<SbomLicenses>)
    requires done + {ecosystem} <= expected.Keys && ecosystem !in done
    requires SbomsAccepted(sboms, done, expected) && LicensesOf(sboms, done, licenses)
    ensures r.Some? <==> SbomsAccepted(sboms, done + {ecosystem}, expected)
    ensures r.Some? ==> LicensesOf(sboms, done + {ecosystem}, r.value)
  {
    if ecosystem !in sboms {
      return None;
    }
    r := ReadSbom(sboms[ecosystem], ecosystem, expected[ecosystem], licenses);
    if r.Some? {
      LicensesExtend(sboms, done, ecosystem, licenses, r.value);
    }
  }

  lemma MoreSboms(sboms: Sboms, some: set<string>, more: set<string>, expected: map<string, set<Identity>>)
    requires some <= more <= expected.Keys && !SbomsAccepted(sboms, some, expected)
    ensures !SbomsAccepted(sboms, more, expected)
  {
  }

  /** The loop over the three SBOM files, unrolled. */
  method ReadSboms(sboms: Sboms, expected: map<string, set<Identity>>) returns (r: Option<SbomLicenses>)
    requires ECOSYSTEMS <= expected.Keys
    ensures r.Some? <==> SbomsAccepted(sboms, ECOSYSTEMS, expected)
    ensures r.Some? ==> LicensesOf(sboms, ECOSYSTEMS, r.value)
  {
    ghost var one, two := {"backend-python"}, {"backend-python", "dagster-python"};
    assert {} + {"backend-python"} == one && one + {"dagster-python"} == two && two + {"npm"} == ECOSYSTEMS;
    r := ReadFile(sboms, expected, {}, "backend-python", map[]);
    if r.None? {
      MoreSboms(sboms, one, ECOSYSTEMS, expected);
      return;
    }
    r := ReadFile(sboms, expected, one, "dagster-python", r.value);
    if r.None? {
      MoreSboms(sboms, two, ECOSYSTEMS, expected);
      return;
    }
    r := ReadFile(sboms, expected, two, "npm", r.value);
  }

  lemma SupplyAcceptedVia(sboms: Sboms, expected: map<string, set<Identity>>,
                          dependencies: seq<Dependency>, c: Committed, licenses: SbomLicenses)
    requires ECOSYSTEMS <= expected.Keys
    requires SbomsAccepted(sboms, ECOSYSTEMS, expected) && LicensesOf(sboms, ECOSYSTEMS, licenses)
    ensures SupplyAccepted(sboms, expected, dependencies, c) <==> InventoryAccepted(dependencies, c, licenses)
  {
    if SupplyAccepted(sboms, expected, dependencies, c) {
      var other :| LicensesOf(sboms, ECOSYSTEMS, other) && InventoryAccepted(dependencies, c, other);
      LicensesAreUnique(sboms, ECOSYSTEMS, licenses, other);
    }
  }

  /** `_validate_supply_artifacts`: it accepts exactly when the SBOMs list the
      locked packages and the inventory meets the policy against them. */
  method ValidateSupplyArtifacts(sboms: Sboms, expected: map<string, set<Identity>>,
                                 dependencies: seq<Dependency>, c: Committed) returns (ok: bool)
    requires ECOSYSTEMS <= expected.Keys
    ensures ok <==> SupplyAccepted(sboms, expected, dependencies, c)
  {
    var licenses := ReadSboms(sboms, expected);
    if licenses.None? {
      return false;
    }
    SupplyAcceptedVia(sboms, expected, dependencies, c, licenses.value);
    ok := CheckInventory(dependencies, c, licenses.value);
  }
}
