/** From the finalizer to the generator, the converse of the agreement: which accepted
    inventories the generator writes, as they stand or up to spelling
    (scripts/finalize_release_evidence.py:2771-3032,
    scripts/generate_supply_chain_evidence.py:1070-1220). */
module Provenance {
  import opened Ordering
  import opened Text
  import opened Licenses
  import opened Policy
  import opened SupplyCheck
  import opened Agreement
  import Spdx
  import SpdxText

  /** The inventory item that a record comes from. */
  ghost predicate IsItemOf(d: Dependency, c: Committed, i: Item) {
    && i.ecosystem == d.ecosystem && i.name == d.name && i.version == d.version && i.declared == d.declared
    && (d.ecosystem in PYTHON && DependencyKey(d) in c.locked ==>
          i.artifacts.Some? && IsListing(i.artifacts.value, c.locked[DependencyKey(d)]))
  }

  /** Two records that differ at most in the order and repetition of obligations
      and in white space around the review texts. */
  predicate SameRecord(d: Dependency, e: Dependency) {
    && Elements(d.obligations) == Elements(e.obligations)
    && (d.review.Some? <==> e.review.Some?)
    && (d.review.Some? ==> StripReview(d.review.value) == e.review.value)
    && d.(obligations := e.obligations, review := e.review) == e
  }

  /** The locked hashes have the shape the lock reader enforces. */
  ghost predicate LockWellFormed(c: Committed) {
    forall k :: k in c.locked ==> c.locked[k] != {} && forall h :: h in c.locked[k] ==> IsSha256(h)
  }

  /** An accepted record that claims no conclusion belongs to a package without
      any: otherwise some conclusion would be unused. */
  lemma NoConclusionsLeft(dependencies: seq<Dependency>, c: Committed, licenses: SbomLicenses, n: nat)
    requires InventoryAccepted(dependencies, c, licenses) && n < |dependencies|
    ensures Exact(c.rules, DependencyKey(dependencies[n])) == {} || dependencies[n].status.ApprovedByConclusion?
  {
    var key := DependencyKey(dependencies[n]);
    if k :| k in Exact(c.rules, key) {
      var i :| 0 <= i < |dependencies| && UsesConclusion(dependencies[i], k);
      assert Keys(dependencies)[i] == key == Keys(dependencies)[n];
      KeyLessIsTotal();
      assert !KeyLess(key, key);
      assert i == n;
    }
  }

  lemma ApprovedIsGenerated(d: Dependency, c: Committed, i: Item) returns (record: Dependency)
    requires d.status.ApprovedCompatible? && ApprovedProof(d) && IsItemOf(d, c, i)
    requires Normalize(d.declared) == d.declared && Exact(c.rules, DependencyKey(d)) == {}
    ensures IsRecordOf(i, c.rules, record) && SameRecord(d, record)
  {
    ApprovalAgrees(d.concluded.value);
    var obligations := ListingExists(Obligations(Spdx.Identifiers(d.concluded.value).value));
    record := d.(obligations := obligations);
    assert IsApprovedRecord(i, c.rules, record);
  }

  lemma ConclusionIsGenerated(d: Dependency, c: Committed, i: Item) returns (record: Dependency)
    requires d.status.ApprovedByConclusion? && ConclusionProof(d, c) && IsItemOf(d, c, i) && LockWellFormed(c)
    requires Normalize(d.declared) == d.declared
    ensures IsRecordOf(i, c.rules, record) && SameRecord(d, record)
  {
    ApprovalAgrees(d.concluded.value);
    ApprovalAgrees(d.declared.value);
    ConcludedItem(d, c, i);
    var obligations := ListingExists(Obligations(Spdx.Identifiers(d.concluded.value).value));
    record := d.(obligations := obligations);
    assert IsConcludedRecord(i, c.rules, record);
  }

  lemma ReviewIsGenerated(d: Dependency, c: Committed, i: Item) returns (record: Dependency)
    requires d.status.ReviewedException? && ReviewProof(d, c) && IsItemOf(d, c, i)
    requires Normalize(d.declared) == d.declared && Exact(c.rules, DependencyKey(d)) == {}
    ensures IsRecordOf(i, c.rules, record) && SameRecord(d, record)
  {
    if d.declared.Some? {
      ApprovalAgrees(d.declared.value);
    }
    var obligations := ListingExists(REVIEW_OBLIGATIONS);
    record := d.(obligations := obligations, review := Some(StripReview(d.review.value)));
    assert IsReviewedRecord(i, c.rules, record);
  }

  /** The generator's record for an accepted record. */
  lemma RecordIsGenerated(dependencies: seq<Dependency>, c: Committed, licenses: SbomLicenses, n: nat, i: Item)
    returns (record: Dependency)
    requires InventoryAccepted(dependencies, c, licenses) && n < |dependencies| && LockWellFormed(c)
    requires IsItemOf(dependencies[n], c, i)
    requires Normalize(dependencies[n].declared) == dependencies[n].declared
    ensures IsRecordOf(i, c.rules, record) && SameRecord(dependencies[n], record)
  {
    var d := dependencies[n];
    assert RecordAccepted(d, c, licenses);
    NoConclusionsLeft(dependencies, c, licenses, n);
    if d.status.ApprovedCompatible? {
      record := ApprovedIsGenerated(d, c, i);
    } else if d.status.ApprovedByConclusion? {
      record := ConclusionIsGenerated(d, c, i);
    } else {
      record := ReviewIsGenerated(d, c, i);
    }
  }

  /** The lock's own hashes make the item of a concluded record. */
  lemma ConcludedItem(d: Dependency, c: Committed, i: Item)
    requires ConclusionProof(d, c) && IsItemOf(d, c, i) && LockWellFormed(c)
    ensures ValidArtifacts(i.artifacts) && Elements(i.artifacts.value) == c.locked[DependencyKey(d)]
    ensures Concludes(c.rules, DependencyKey(d), d.declared.value, d.concluded.value,
                      d.evidence.value.textPath, d.evidence.value.textSha256)
  {
    var key := DependencyKey(d);
    var exact := Exact(c.rules, key);
    var a := i.artifacts.value;
    StrLessIsTotal();
    forall m | 0 <= m < |a| ensures IsSha256(a[m]) {
      assert a[m] in Elements(a);
    }
    var h :| h in c.locked[key];
    assert h in Elements(a);
    forall k | k in exact
      ensures c.rules.conclusions[k] ==
        Conclusion(d.declared.value, d.concluded.value, d.evidence.value.textPath, d.evidence.value.textSha256)
    {
      var it := c.rules.conclusions[k];
      assert it.declared in DeclaredValues(c.rules, key);
      assert it.concluded in ConcludedValues(c.rules, key);
      assert (it.textPath, it.textSha256) in TextValues(c.rules, key);
      var text := (it.textPath, it.textSha256);
      assert text == (d.evidence.value.textPath, d.evidence.value.textSha256);
      assert it == Conclusion(it.declared, it.concluded, text.0, text.1);
    }
  }

  lemma ItemExists(d: Dependency, c: Committed) returns (i: Item)
    ensures IsItemOf(d, c, i)
  {
    var artifacts := None;
    if DependencyKey(d) in c.locked {
      var listed := ListingExists(c.locked[DependencyKey(d)]);
      artifacts := Some(listed);
    }
    i := Item(d.ecosystem, d.name, d.version, d.declared, artifacts);
  }

  /** The generator's item and record that correspond to an accepted record. */
  ghost predicate Generates(d: Dependency, c: Committed, i: Item, record: Dependency) {
    IsItemOf(d, c, i) && IsRecordOf(i, c.rules, record) && SameRecord(d, record)
  }

  datatype Origin = Origin(item: Item, record: Dependency)

  ghost predicate GeneratedFrom(d: Dependency, c: Committed, p: Origin) { Generates(d, c, p.item, p.record) }

  ghost predicate HasOrigin(d: Dependency, c: Committed) { exists p :: GeneratedFrom(d, c, p) }

  lemma SomethingGenerates(dependencies: seq<Dependency>, c: Committed, licenses: SbomLicenses, n: nat)
    requires InventoryAccepted(dependencies, c, licenses) && n < |dependencies| && LockWellFormed(c)
    requires Normalize(dependencies[n].declared) == dependencies[n].declared
    ensures HasOrigin(dependencies[n], c)
  {
    var i := ItemExists(dependencies[n], c);
    var record := RecordIsGenerated(dependencies, c, licenses, n, i);
    assert GeneratedFrom(dependencies[n], c, Origin(i, record));
  }

  lemma AllHaveOrigins(dependencies: seq<Dependency>, c: Committed, licenses: SbomLicenses)
    requires InventoryAccepted(dependencies, c, licenses) && LockWellFormed(c)
    requires forall d :: d in dependencies ==> Normalize(d.declared) == d.declared
    ensures forall n :: 0 <= n < |dependencies| ==> HasOrigin(dependencies[n], c)
  {
    forall n | 0 <= n < |dependencies| ensures HasOrigin(dependencies[n], c) {
      assert dependencies[n] in dependencies;
      SomethingGenerates(dependencies, c, licenses, n);
    }
  }

  /** Checker to producer: every accepted inventory in normal form is, record by
      record and in the same order, what the generator writes for the same
      packages, declared licences and locked hashes. */
  lemma AcceptedInventoryIsGenerated(dependencies: seq<Dependency>, c: Committed, licenses: SbomLicenses)
    returns (inventory: seq<Item>, output: seq<Dependency>)
    requires InventoryAccepted(dependencies, c, licenses) && LockWellFormed(c)
    requires forall d :: d in dependencies ==> Normalize(d.declared) == d.declared
    ensures |inventory| == |dependencies| && |output| == |dependencies|
    ensures forall n :: 0 <= n < |dependencies| ==> Generates(dependencies[n], c, inventory[n], output[n])
    ensures IsPolicyOutput(inventory, c.rules, output)
  {
    AllHaveOrigins(dependencies, c, licenses);
    inventory, output := OriginsExist(dependencies, c);
    PairsAreOutput(dependencies, c, inventory, output);
  }

  lemma OriginsExist(dependencies: seq<Dependency>, c: Committed)
      returns (inventory: seq<Item>, output: seq<Dependency>)
    requires forall n :: 0 <= n < |dependencies| ==> HasOrigin(dependencies[n], c)
    ensures |inventory| == |dependencies| && |output| == |dependencies|
    ensures forall n :: 0 <= n < |dependencies| ==> Generates(dependencies[n], c, inventory[n], output[n])
  {
    inventory, output := [], [];
    for n := 0 to |dependencies|
      invariant |inventory| == n && |output| == n
      invariant forall m :: 0 <= m < n ==> Generates(dependencies[m], c, inventory[m], output[m])
    {
      assert HasOrigin(dependencies[n], c);
      var p :| GeneratedFrom(dependencies[n], c, p);
      inventory, output := inventory + [p.item], output + [p.record];
    }
  }

  lemma PairsAreOutput(dependencies: seq<Dependency>, c: Committed, inventory: seq<Item>, output: seq<Dependency>)
    requires |inventory| == |dependencies| == |output|
    requires forall n :: 0 <= n < |dependencies| ==> Generates(dependencies[n], c, inventory[n], output[n])
    requires StrictlyIncreasing(KeyLess, Keys(dependencies)) && NothingUnused(dependencies, c.rules)
    ensures IsPolicyOutput(inventory, c.rules, output)
  {
    RecordLessIsWeak();
    forall n | 0 <= n < |dependencies|
      ensures SameRecord(dependencies[n], output[n]) && IsRecordOf(inventory[n], c.rules, output[n])
    {
      assert Generates(dependencies[n], c, inventory[n], output[n]);
    }
    forall i, j | 0 <= i < j < |output| ensures RecordLess(output[i], output[j]) {
      assert KeyLess(Keys(dependencies)[i], Keys(dependencies)[j]);
      assert SameRecord(dependencies[i], output[i]) && SameRecord(dependencies[j], output[j]);
    }
    SortOfIncreasing(RecordLess, output);
    SameUses(dependencies, output, c.rules);
    assert AreRecordsOf(inventory, c.rules, output);
  }

  lemma SameUses(dependencies: seq<Dependency>, output: seq<Dependency>, rules: Rules)
    requires |output| == |dependencies| && NothingUnused(dependencies, rules)
    requires forall n :: 0 <= n < |dependencies| ==> SameRecord(dependencies[n], output[n])
    ensures NothingUnused(output, rules)
  {
    forall key | key in rules.exceptions ensures exists i :: 0 <= i < |output| && UsesException(output[i], key) {
      var i :| 0 <= i < |dependencies| && UsesException(dependencies[i], key);
      assert UsesException(output[i], key);
    }
    forall k | k in rules.conclusions ensures exists i :: 0 <= i < |output| && UsesConclusion(output[i], k) {
      var i :| 0 <= i < |dependencies| && UsesConclusion(dependencies[i], k);
      assert UsesConclusion(output[i], k);
    }
  }

  /** Every licence the generator writes as declared is in normal form, so the
      normal-form condition holds of all its inventories. */
  lemma GeneratedIsNormal(inventory: seq<Item>, rules: Rules, output: seq<Dependency>, d: Dependency)
    requires IsPolicyOutput(inventory, rules, output) && d in output
    ensures Normalize(d.declared) == d.declared
  {
    var i := OutputComesFromRecords(inventory, rules, output, d);
    NormalizeIsIdempotent(i.declared);
  }

  ghost predicate AreSameRecords(dependencies: seq<Dependency>, output: seq<Dependency>) {
    |output| == |dependencies| && forall n :: 0 <= n < |dependencies| ==> SameRecord(dependencies[n], output[n])
  }

  /** Some inventory makes the generator write these records. */
  ghost predicate IsWritten(dependencies: seq<Dependency>, rules: Rules) {
    exists inventory, output :: IsPolicyOutput(inventory, rules, output) && AreSameRecords(dependencies, output)
  }

  lemma WrittenIsNormal(dependencies: seq<Dependency>, rules: Rules, d: Dependency)
    requires IsWritten(dependencies, rules) && d in dependencies
    ensures Normalize(d.declared) == d.declared
  {
    var inventory, output :| IsPolicyOutput(inventory, rules, output) && AreSameRecords(dependencies, output);
    var n :| 0 <= n < |dependencies| && dependencies[n] == d;
    assert SameRecord(d, output[n]) && output[n] in output;
    GeneratedIsNormal(inventory, rules, output, output[n]);
  }

  /** The two programs decide one policy: an accepted inventory is one that the
      generator writes exactly when its declared licences are in normal form,
      which the finalizer does not check. */
  lemma AcceptedIsWrittenExactly(dependencies: seq<Dependency>, c: Committed, licenses: SbomLicenses)
    requires InventoryAccepted(dependencies, c, licenses) && LockWellFormed(c)
    ensures IsWritten(dependencies, c.rules) <==> forall d :: d in dependencies ==> Normalize(d.declared) == d.declared
  {
    if forall d :: d in dependencies ==> Normalize(d.declared) == d.declared {
      var inventory, output := AcceptedInventoryIsGenerated(dependencies, c, licenses);
      forall n | 0 <= n < |dependencies| ensures SameRecord(dependencies[n], output[n]) {
        assert Generates(dependencies[n], c, inventory[n], output[n]);
      }
    }
    if IsWritten(dependencies, c.rules) {
      forall d | d in dependencies ensures Normalize(d.declared) == d.declared {
        WrittenIsNormal(dependencies, c.rules, d);
      }
    }
  }

  // ----- and exactly which accepted inventories are written as they stand

  /** A record spelled as the generator spells it. */
  ghost predicate IsLiteral(d: Dependency) {
    && Normalize(d.declared) == d.declared
    && StrictlyIncreasing(StrLess, d.obligations)
    && (d.review.Some? ==> StripReview(d.review.value) == d.review.value)
  }

  lemma RecordListsObligations(i: Item, rules: Rules, d: Dependency)
    requires IsRecordOf(i, rules, d)
    ensures StrictlyIncreasing(StrLess, d.obligations)
  {
  }

  lemma SameLiteralRecord(i: Item, rules: Rules, d: Dependency, record: Dependency)
    requires IsRecordOf(i, rules, record) && SameRecord(d, record) && IsLiteral(d)
    ensures d == record
  {
    RecordListsObligations(i, rules, record);
    ListingIsUnique(d.obligations, record.obligations, Elements(d.obligations));
  }

  lemma WrittenIsLiteral(inventory: seq<Item>, dependencies: seq<Dependency>, c: Committed, licenses: SbomLicenses,
      n: nat)
    requires InventoryAccepted(dependencies, c, licenses) && IsPolicyOutput(inventory, c.rules, dependencies)
    requires n < |dependencies|
    ensures IsLiteral(dependencies[n])
  {
    var d := dependencies[n];
    assert d in dependencies && RecordAccepted(d, c, licenses);
    GeneratedIsNormal(inventory, c.rules, dependencies, d);
    var i := OutputComesFromRecords(inventory, c.rules, dependencies, d);
    RecordListsObligations(i, c.rules, d);
  }

  lemma LiteralIsWritten(dependencies: seq<Dependency>, c: Committed, licenses: SbomLicenses)
      returns (inventory: seq<Item>)
    requires InventoryAccepted(dependencies, c, licenses) && LockWellFormed(c)
    requires forall d :: d in dependencies ==> IsLiteral(d)
    ensures IsPolicyOutput(inventory, c.rules, dependencies)
  {
    var output;
    inventory, output := AcceptedInventoryIsGenerated(dependencies, c, licenses);
    AllLiteral(dependencies, c, inventory, output);
  }

  lemma AllLiteral(dependencies: seq<Dependency>, c: Committed, inventory: seq<Item>, output: seq<Dependency>)
    requires |inventory| == |dependencies| == |output|
    requires forall n :: 0 <= n < |dependencies| ==> Generates(dependencies[n], c, inventory[n], output[n])
    requires forall d :: d in dependencies ==> IsLiteral(d)
    ensures output == dependencies
  {
    forall n | 0 <= n < |dependencies| ensures output[n] == dependencies[n] {
      assert dependencies[n] in dependencies && Generates(dependencies[n], c, inventory[n], output[n]);
      SameLiteralRecord(inventory[n], c.rules, dependencies[n], output[n]);
    }
  }

  /** An accepted inventory is itself an output of the generator exactly when every
      record has its declared licence in normal form, its obligations in increasing
      order, and its review texts and dates without surrounding space. */
  lemma WrittenAsItStandsExactly(dependencies: seq<Dependency>, c: Committed, licenses: SbomLicenses)
    requires InventoryAccepted(dependencies, c, licenses) && LockWellFormed(c)
    ensures (exists inventory :: IsPolicyOutput(inventory, c.rules, dependencies))
      <==> forall d :: d in dependencies ==> IsLiteral(d)
  {
    if forall d :: d in dependencies ==> IsLiteral(d) {
      var inventory := LiteralIsWritten(dependencies, c, licenses);
    }
    if exists inventory :: IsPolicyOutput(inventory, c.rules, dependencies) {
      var inventory :| IsPolicyOutput(inventory, c.rules, dependencies);
      forall d | d in dependencies ensures IsLiteral(d) {
        var n :| 0 <= n < |dependencies| && dependencies[n] == d;
        WrittenIsLiteral(inventory, dependencies, c, licenses, n);
      }
    }
  }

  // ----- what the finalizer lets vary

  /** Records that agree on what the checks of the whole inventory look at. */
  predicate SameUse(d: Dependency, e: Dependency) {
    DependencyKey(d) == DependencyKey(e) && d.status == e.status
  }

  lemma ReplacedIsAccepted(dependencies: seq<Dependency>, c: Committed, licenses: SbomLicenses, n: nat, e: Dependency)
    requires InventoryAccepted(dependencies, c, licenses) && n < |dependencies|
    requires SameUse(dependencies[n], e) && RecordAccepted(e, c, licenses)
    ensures InventoryAccepted(dependencies[n := e], c, licenses)
  {
    assert Keys(dependencies[n := e]) == Keys(dependencies);
    ReplacedHolds(dependencies, d => RecordAccepted(d, c, licenses), n, e, dependencies[n := e]);
    ReplacedUses(dependencies, c.rules, n, e);
  }

  lemma ReplacedHolds(dependencies: seq<Dependency>, holds: Dependency -> bool, n: nat, e: Dependency,
                      replaced: seq<Dependency>)
    requires n < |dependencies| && replaced == dependencies[n := e]
    requires holds(e) && forall i :: 0 <= i < |dependencies| ==> holds(dependencies[i])
    ensures forall i :: 0 <= i < |replaced| ==> holds(replaced[i])
  {
  }

  lemma ReplacedUses(dependencies: seq<Dependency>, rules: Rules, n: nat, e: Dependency)
    requires n < |dependencies| && SameUse(dependencies[n], e) && NothingUnused(dependencies, rules)
    ensures NothingUnused(dependencies[n := e], rules)
  {
    var replaced := dependencies[n := e];
    forall key | key in rules.exceptions ensures exists i :: 0 <= i < |replaced| && UsesException(replaced[i], key) {
      var i :| 0 <= i < |dependencies| && UsesException(dependencies[i], key);
      assert UsesException(replaced[i], key);
    }
    forall k | k in rules.conclusions ensures exists i :: 0 <= i < |replaced| && UsesConclusion(replaced[i], k) {
      var i :| 0 <= i < |dependencies| && UsesConclusion(dependencies[i], k);
      assert UsesConclusion(replaced[i], k);
    }
  }

  /** Obligations may come in any order and be repeated. */
  lemma ObligationsMayVary(dependencies: seq<Dependency>, c: Committed, licenses: SbomLicenses, n: nat,
      obligations: seq<string>)
    requires InventoryAccepted(dependencies, c, licenses) && n < |dependencies|
    requires Elements(obligations) == Elements(dependencies[n].obligations)
    ensures InventoryAccepted(dependencies[n := dependencies[n].(obligations := obligations)], c, licenses)
  {
    var d := dependencies[n];
    assert RecordAccepted(d, c, licenses);
    forall i | 0 <= i < |obligations| ensures NonBlank(obligations[i]) {
      assert obligations[i] in Elements(d.obligations);
      var j :| 0 <= j < |d.obligations| && d.obligations[j] == obligations[i];
    }
    ReplacedIsAccepted(dependencies, c, licenses, n, d.(obligations := obligations));
  }

  /** The five texts of a review, its dates among them, may be surrounded by space. */
  lemma ReviewMayVary(dependencies: seq<Dependency>, c: Committed, licenses: SbomLicenses, n: nat, review: Review)
    requires InventoryAccepted(dependencies, c, licenses) && n < |dependencies| && dependencies[n].review.Some?
    requires IsFilledIn(review)
    requires StripReview(review) == StripReview(dependencies[n].review.value)
    ensures InventoryAccepted(dependencies[n := dependencies[n].(review := Some(review))], c, licenses)
  {
    var d := dependencies[n];
    assert RecordAccepted(d, c, licenses);
    assert ValidatedReview(review, c.calendar) == ValidatedReview(d.review.value, c.calendar);
    ReplacedIsAccepted(dependencies, c, licenses, n, d.(review := Some(review)));
  }

  // ----- an accepted inventory that the generator never writes

  lemma OneWord(word: string)
    requires Spdx.IsWord(word) && word !in Spdx.KEYWORDS
    ensures Spdx.Identifiers(word + [' ']) == Some({word})
  {
    assert !NonBlank([' ']);
    Spdx.BlankHasNoTokens([' ']);
    assert [word] + [] == [word];
    Spdx.TokensOfFirst(word, [' ']);
    assert Spdx.Tokens(word + [' ']) == Some([word]);
    var leaf := Spdx.SimpleExpression(word);
    assert Spdx.AnnexValid(leaf) && Spdx.Yield(leaf) == [word];
    Spdx.AcceptsExactlyAnnexD([word]);
    assert Spdx.Names([word]) == {word};
  }

  lemma PaddedMit()
    ensures Spdx.Identifiers("MIT ") == Some({"MIT"}) && Normalize(Some("MIT ")) == Some("MIT")
  {
    assert "MIT" + [' '] == "MIT ";
    OneWord("MIT");
    ApprovedIsSolid("MIT");
    PaddedWord("MIT");
    ApprovedIsNormal("MIT");
  }

  lemma PaddedWord(word: string)
    requires IsSolid(word)
    ensures Collapse(word + [' ']) == Collapse(word) == word
  {
    FirstWord(word, [' ']);
    assert [' '][1..] == [] && Words([' ']) == [];
    assert [word] + [] == [word];
    CollapseOfWord(word);
  }

  const NO_RULES := Rules(map[], map[])

  lemma OneRecordAccepted(d: Dependency, c: Committed, licenses: SbomLicenses)
    requires c.rules == NO_RULES && RecordAccepted(d, c, licenses) && licenses.Keys == {DependencyKey(d)}
    ensures InventoryAccepted([d], c, licenses)
  {
    assert Keys([d]) == [DependencyKey(d)];
    assert |licenses.Keys| == 1;
  }

  function NpmRecord(license: string): Dependency {
    Dependency("npm", "a", "1", Some(license), Some(license), ApprovedCompatible, [BASE_OBLIGATION], None, None)
  }

  lemma NpmRecordAccepted(license: string, c: Committed, licenses: SbomLicenses)
    requires Spdx.Identifiers(license) == Some({"MIT"})
    requires DependencyKey(NpmRecord(license)) in licenses
      && licenses[DependencyKey(NpmRecord(license))] == Some(license)
    ensures RecordAccepted(NpmRecord(license), c, licenses)
  {
    Spdx.IdentifiersNonEmpty(license);
    KnownObligation(BASE_OBLIGATION);
    assert Obligations({"MIT"}) == {BASE_OBLIGATION};
    assert !IsSpace("a"[0]) && !IsSpace("1"[0]);
  }

  /** The finalizer accepts a record whose licence carries a trailing space; no
      inventory makes the generator write it. */
  lemma PaddedLicenseIsAccepted(calendar: Calendar)
    returns (dependencies: seq<Dependency>, c: Committed, licenses: SbomLicenses)
    ensures c.calendar == calendar
    ensures InventoryAccepted(dependencies, c, licenses) && LockWellFormed(c) && !IsWritten(dependencies, c.rules)
  {
    PaddedMit();
    c := Committed(NO_RULES, map[], calendar);
    dependencies, licenses := UnnormalIsNotWritten("MIT ", c);
  }

  lemma UnnormalIsNotWritten(license: string, c: Committed)
    returns (dependencies: seq<Dependency>, licenses: SbomLicenses)
    requires Spdx.Identifiers(license) == Some({"MIT"}) && Normalize(Some(license)) != Some(license)
    requires c.rules == NO_RULES && LockWellFormed(c)
    ensures InventoryAccepted(dependencies, c, licenses) && !IsWritten(dependencies, c.rules)
  {
    var d := NpmRecord(license);
    licenses := map[DependencyKey(d) := Some(license)];
    dependencies := [d];
    NpmRecordAccepted(license, c, licenses);
    OneRecordAccepted(d, c, licenses);
    AcceptedIsWrittenExactly([d], c, licenses);
    assert d in [d];
  }

  /** Accepted, written by the generator up to spelling, and not as it stands. */
  ghost predicate LooselyWritten(dependencies: seq<Dependency>, c: Committed, licenses: SbomLicenses) {
    && InventoryAccepted(dependencies, c, licenses) && LockWellFormed(c) && IsWritten(dependencies, c.rules)
    && forall inventory :: !IsPolicyOutput(inventory, c.rules, dependencies)
  }

  /** A record whose obligation is written twice is accepted, and not as written. */
  lemma RepeatedObligationIsAccepted(calendar: Calendar)
    returns (dependencies: seq<Dependency>, c: Committed, licenses: SbomLicenses)
    ensures c.calendar == calendar && LooselyWritten(dependencies, c, licenses)
  {
    c := Committed(NO_RULES, map[], calendar);
    PlainMit();
    dependencies, licenses := RepeatedObligation("MIT", c);
  }

  lemma RepeatedObligation(license: string, c: Committed)
      returns (dependencies: seq<Dependency>, licenses: SbomLicenses)
    requires Spdx.Identifiers(license) == Some({"MIT"}) && Normalize(Some(license)) == Some(license)
    requires c.rules == NO_RULES && LockWellFormed(c)
    ensures LooselyWritten(dependencies, c, licenses)
  {
    var d := NpmRecord(license);
    licenses := map[DependencyKey(d) := Some(license)];
    NpmRecordAccepted(license, c, licenses);
    OneRecordAccepted(d, c, licenses);
    var twice := [BASE_OBLIGATION, BASE_OBLIGATION];
    assert Elements(twice) == Elements(d.obligations);
    ObligationsMayVary([d], c, licenses, 0, twice);
    dependencies := [d.(obligations := twice)];
    assert [d][0 := d.(obligations := twice)] == dependencies;
    NotIncreasing(twice);
    OneIsWrittenLoosely(d.(obligations := twice), c, licenses);
  }

  lemma NotIncreasing(s: seq<string>)
    requires |s| >= 2 && s[0] == s[1]
    ensures !StrictlyIncreasing(StrLess, s)
  {
    StrLessIsTotal();
    assert !StrLess(s[0], s[1]);
  }

  lemma OneIsWrittenLoosely(d: Dependency, c: Committed, licenses: SbomLicenses)
    requires InventoryAccepted([d], c, licenses) && LockWellFormed(c)
    requires Normalize(d.declared) == d.declared && !IsLiteral(d)
    ensures LooselyWritten([d], c, licenses)
  {
    AcceptedIsWrittenExactly([d], c, licenses);
    WrittenAsItStandsExactly([d], c, licenses);
    assert d in [d];
  }

  lemma PlainMit()
    ensures Spdx.Identifiers("MIT") == Some({"MIT"}) && Normalize(Some("MIT")) == Some("MIT")
  {
    SpdxText.WordAlone("MIT");
    ApprovedIsNormal("MIT");
  }

  // ----- a padded review

  const REASON := "reviewed by hand, in full"

  /** A review that is dated and expires today. */
  function ReviewOf(date: string): Review { Review(REASON, "r", date, "u", date) }

  function ReviewedRecord(review: Review, obligations: seq<string>): Dependency {
    Dependency("npm", "a", "1", None, None, ReviewedException, obligations, None, Some(review))
  }

  lemma PaddedText(text: string)
    requires IsTrim(text)
    ensures NonBlank(text + [' ']) && Strip(text + [' ']) == Strip(text) == text && text + [' '] != text
  {
    var padded := text + [' '];
    assert padded[0] == text[0] && padded[|text|] == ' ' && padded[..|text|] == text && |padded| > |text|;
  }

  lemma ReviewIsStripped(date: string)
    requires IsTrim(date)
    ensures IsFilledIn(ReviewOf(date)) && StripReview(ReviewOf(date)) == ReviewOf(date)
    ensures |REASON| >= 20 && IsTrim(REASON)
  {
    assert IsTrim(REASON) && IsTrim("r") && IsTrim("u");
    TrimIsStripped(REASON);
    TrimIsStripped("r");
    TrimIsStripped("u");
    TrimIsStripped(date);
  }

  /** An input with one reviewed package, its exception being the given review. */
  function ReviewedInput(review: Review, calendar: Calendar): Committed {
    Committed(Rules(map[("npm", CanonicalName("a"), "1") := review], map[]), map[], calendar)
  }

  lemma ReviewedRecordAccepted(date: string, calendar: Calendar, licenses: SbomLicenses, obligations: seq<string>)
    requires IsTrim(date) && calendar.dayOf(date) == Some(calendar.today)
    requires IsListing(obligations, REVIEW_OBLIGATIONS)
    requires licenses == map[DependencyKey(ReviewedRecord(ReviewOf(date), obligations)) := None]
    ensures InventoryAccepted([ReviewedRecord(ReviewOf(date), obligations)],
              ReviewedInput(ReviewOf(date), calendar), licenses)
  {
    var d, c := ReviewedRecord(ReviewOf(date), obligations), ReviewedInput(ReviewOf(date), calendar);
    ReviewIsStripped(date);
    ObligationsNonBlank({});
    ListedObligations(d, REVIEW_OBLIGATIONS);
    assert NonBlank(d.name) && NonBlank(d.version) by {
      assert !IsSpace("a"[0]) && !IsSpace("1"[0]);
    }
    assert RecordAccepted(d, c, licenses);
    OneUsed(d, c, licenses);
  }

  lemma OneUsed(d: Dependency, c: Committed, licenses: SbomLicenses)
    requires RecordAccepted(d, c, licenses) && licenses.Keys == {DependencyKey(d)}
    requires c.rules.conclusions == map[] && forall key :: key in c.rules.exceptions ==> UsesException(d, key)
    ensures InventoryAccepted([d], c, licenses)
  {
    assert Keys([d]) == [DependencyKey(d)];
    assert |licenses.Keys| == 1;
    assert [d][0] == d;
  }

  /** A review that is the committed one up to surrounding space is accepted, and not
      as written. */
  lemma LooseReviewIsAccepted(date: string, calendar: Calendar, review: Review)
    returns (dependencies: seq<Dependency>, licenses: SbomLicenses)
    requires IsTrim(date) && calendar.dayOf(date) == Some(calendar.today)
    requires IsFilledIn(review) && StripReview(review) == ReviewOf(date) != review
    ensures LooselyWritten(dependencies, ReviewedInput(ReviewOf(date), calendar), licenses)
    ensures |dependencies| == 1 && dependencies[0].review == Some(review)
  {
    var obligations := ListingExists(REVIEW_OBLIGATIONS);
    var d, c := ReviewedRecord(ReviewOf(date), obligations), ReviewedInput(ReviewOf(date), calendar);
    licenses := map[DependencyKey(d) := None];
    ReviewedRecordAccepted(date, calendar, licenses, obligations);
    ReviewIsStripped(date);
    ReviewMayVary([d], c, licenses, 0, review);
    var loose := ReviewedRecord(review, obligations);
    assert [d][0 := d.(review := Some(review))] == [loose];
    OneIsWrittenLoosely(loose, c, licenses);
    dependencies := [loose];
  }

  /** A trailing space after the reason of a review. */
  lemma PaddedReviewIsAccepted(date: string, calendar: Calendar)
    returns (dependencies: seq<Dependency>, c: Committed, licenses: SbomLicenses)
    requires IsTrim(date) && calendar.dayOf(date) == Some(calendar.today)
    ensures LooselyWritten(dependencies, c, licenses) && c.calendar == calendar
    ensures |dependencies| == 1 && dependencies[0].review == Some(ReviewOf(date).(reason := REASON + [' ']))
  {
    c := ReviewedInput(ReviewOf(date), calendar);
    ReviewIsStripped(date);
    PaddedText(REASON);
    dependencies, licenses := LooseReviewIsAccepted(date, calendar, ReviewOf(date).(reason := REASON + [' ']));
  }

  /** A trailing space after its date. */
  lemma PaddedDateIsAccepted(date: string, calendar: Calendar)
    returns (dependencies: seq<Dependency>, c: Committed, licenses: SbomLicenses)
    requires IsTrim(date) && calendar.dayOf(date) == Some(calendar.today)
    ensures LooselyWritten(dependencies, c, licenses) && c.calendar == calendar
    ensures |dependencies| == 1 && dependencies[0].review == Some(ReviewOf(date).(reviewedOn := date + [' ']))
  {
    c := ReviewedInput(ReviewOf(date), calendar);
    ReviewIsStripped(date);
    PaddedText(date);
    dependencies, licenses := LooseReviewIsAccepted(date, calendar, ReviewOf(date).(reviewedOn := date + [' ']));
  }
}
