# Verified model of the release tooling

This project models the decisions that the release scripts of the repository
take, in Dafny, and proves what they promise. Every module says at its top
which source lines it models. `dafny verify dfyconfig.toml` checks the whole
project.

What is modelled, module by module:

- `Versions`, `Markers`, `MarkerTruth`, `Closure`, `LockFile`: reading a `uv.lock`. What
  a marker says is defined on its tree, and evaluation is proved to find it. The closure
  is a last-in-first-out worklist that expands a package again whenever a new
  extra is asked of it. Its specification is independent of the algorithm: the
  slots (a package, or a package with one extra) that a finite chain of
  requirements reaches from the project. The worklist is proved to compute
  exactly that least fixed point, to terminate on cyclic graphs by a
  lexicographic measure (slots of the lock not yet active, then queue length),
  and to fail exactly on the faults reachable that way, unless a marker is true
  in one context of its package and fails in another. Python iterates sets in an
  order the code does not fix, so every such loop takes an arbitrary element, and
  only for such a mixed marker can the order decide. The parameter `worst` narrows
  the choice to orders that look at failing contexts first: so on every lock with a
  reachable fault some order fails, and on no other lock does any.
- `Spdx`, `SpdxText`, `Licenses`: the tokenizer and the recursive-descent parser with its
  moving position, proved inverse to a printer of expression trees and
  equivalent to the ambiguous AND/OR/parenthesis grammar of Annex D of the SPDX
  Specification 2.3; the normal form of declared licences.
- `Conclusions`, `Exceptions`, `Policy`, `SupplyCheck`, `Agreement`, `Provenance`: the
  licence policy as the generator applies it and as the finalizer checks it, with
  both programs' loaders of the two committed rule files and exactly when these agree.
  `LicenseLaws` says in plain terms what the rules demand of a record: which licences it
  may cite, which duties it must list, which reviews are in force. A third description, what
  a record must be for a package (`IsRecordOf`), stands between the two. The
  main results go both ways: everything the generator writes, together with the
  SBOMs that it relabels, is accepted; and an accepted inventory is, as it stands,
  one that the generator writes exactly when its declared licences are in normal
  form, its obligations in increasing order and its review texts and dates without
  surrounding space, things the finalizer does not check. For each of them a
  concrete inventory is accepted and never written.
- `SkipGuards`, `GuardLaws`: the linter for the release script and a small-step semantics of
  the lines that it accepts, with `set -e`. The status of a rejected run is 2
  unless the message itself cannot be written (stderr closed), and then 1.
- `ScriptLines`, `ScriptText`: the same for the text of the script, which the two
  programs cut into lines differently: `str.splitlines` also at a carriage
  return, a vertical tab and seven other characters, the shell at a line feed
  only. So the linter's verdict alone does not protect a release. An accepted text
  is guaranteed to keep what the guards promise, whatever a shell makes of lines
  that the semantics does not know, if and only if no other character ends a line up
  to the end of the guard section (a carriage return after the comment in the first
  line aside), which can be checked before the run; every other accepted text is let
  through by some shell, and every accepted text has an accepted variant of which
  all shells read one comment. What one particular shell makes of an unknown line,
  such as an exit command followed by a carriage return, is not decided.
- `Callback`, `CallbackProtocol`: the callback receiver. The class has one method
  for each critical section; the protocol interleaves the steps of any number of
  handler threads, with clock readings outside the lock, and the receipt log may
  fail to be written at any step. The maps change before the log does: after a
  failed write a retry is confirmed and has no line in the log. `CallbackReplies` says
  over whole runs which request gets which reply. Bodies whose handling
  raises, and only these and such writes, end in an exception.
- `BundlePaths`, `Bundle`, `BundleCopy`, `BundleLaws`: copying source directories into a bundle,
  and collecting, validating and verifying its members against a file tree. The list is produced in order of path parts and checked
  in order of text; both orders agree exactly when no directory of a member has
  a sibling named by the directory's name and a character below `/`.
- `Requirements`: the hashed-requirements reader and the audit that must cover it.
- `TarExtract`: the streaming extraction of image evidence.
- `ImageReferences`, `ImageLock`, `ReleaseNames`, `ScanPlan`: pinned image references, the image
  lock, the rendered Compose document and the scan plan. The two reference
  checks differ in one case: the bundle accepts an empty tag.
- `Ordering`, `Text`: Python's orders, `sorted`, and string operations.

Places where the source is looser than its messages suggest, each with a concrete
input and the exact condition:

- an inventory is accepted with padded licences, with obligations repeated or
  reordered, and with space around the texts and dates of a review
  (`Provenance.WrittenAsItStandsExactly`; the inputs are in `PaddedLicenseIsAccepted`,
  `RepeatedObligationIsAccepted`, `PaddedReviewIsAccepted` and `PaddedDateIsAccepted`);
- the two loaders of the reviewed exceptions read different tables when a name or a
  version has space around it, and a padded date is accepted by the finalizer alone
  (`Exceptions.GeneratorsTableIsLoaded`, `Exceptions.FinalizersTableIsLoaded`);
- the contents of a tool's cache directory are copied into the bundle although its
  name is skipped (`BundleCopy.CacheContentsAreCopied`), and then make the bundle fail
  (`BundleCopy.CacheContentsAreRejected`), as does a directory in which nothing but
  caches was left (`BundleCopy.AssembledFromSource`);
- a member list may name a lone dot (`Bundle.DotIsValid`), but no file tree is ever
  verified against it (`Bundle.DotIsNeverPinned`);
- a bundle whose paths cross cannot be listed in an order that its own check accepts
  (`Bundle.CollectedListIsValid`, `BundlePaths.CrossingExample`);
- a release script may be accepted and run without its guards
  (`ScriptText.ProtectedExactly`, `ScriptText.SomeAcceptedTextHasNoGuards`);
- an image reference with an empty tag is accepted by the bundle
  (`ImageReferences.ValidatorsAgree`, `ImageReferences.EmptyTagSplitsThem`).

Exceptions are values of a result type. Fields that a JSON or TOML document may
lack or give the wrong type are constructors such as `InvalidDependency` or
`None`, so that the error branches exist in the model.

## Model

| member | source | states |
|---|---|---|
| `Versions.StrippedComparisonIsPointwise` | scripts/finalize_release_evidence.py:453-494 | stripping zeros and then padding compares versions as infinite zero-extended sequences |
| `Versions.PrecedesTrichotomy` | scripts/finalize_release_evidence.py:462-494 | exactly one of before, same, after holds of two versions |
| `Versions.PrecedesTransitive` | scripts/finalize_release_evidence.py:462-494 | the version order is transitive |
| `Versions.TrailingZeroIsIgnored` | scripts/finalize_release_evidence.py:453-459 | appending ".0" to a version changes no comparison |
| `Markers.NumericVersion` | scripts/finalize_release_evidence.py:453-459 | the loop returns the same version without trailing zeros, and only for dotted decimals |
| `Markers.VersionOperatorsAreConsistent` | scripts/finalize_release_evidence.py:462-494 | the six operators agree with one order on versions, hence with one another |
| `Markers.ScanMeaning` | scripts/finalize_release_evidence.py:520-534 | a marker applies if some context makes it true, does not if all make it false, and fails only if some context fails, whatever the iteration order |
| `Markers.MarkerApplies` | scripts/finalize_release_evidence.py:520-534 | the loop over a set of extras visits each context at most once and returns what that scan means; if failing contexts come first, it fails whenever one does |
| `Markers.OrderIndependenceExactly` | scripts/finalize_release_evidence.py:520-534 | the outcome is independent of set order if and only if no context makes the marker true while another makes it fail |
| `Markers.UniformIsOrderIndependent` | scripts/finalize_release_evidence.py:520-534 | a marker that compares no version with `extra` fails in all contexts or none, so order never matters |
| `Markers.OrdinaryComparisonsAreUniform` | scripts/finalize_release_evidence.py:462-517 | a comparison without `extra`, without a version name, or only asking for occurrence is uniform |
| `Markers.VersionAgainstExtraDependsOnOrder` | scripts/finalize_release_evidence.py:520-534 | a concrete marker and extras whose outcome is true or an error depending on the order |
| `MarkerTruth.EvaluationIsTruth` | scripts/finalize_release_evidence.py:497-517 | evaluation finds the truth of a marker, defined on its tree (a conjunction is true when every operand is, a disjunction when some operand is), and fails exactly on unsupported parts |
| `MarkerTruth.ComparisonMeaning` | scripts/finalize_release_evidence.py:438-494 | one comparison means text order, occurrence or version order of what its operands stand for, and is supported exactly when these can be read |
| `MarkerTruth.ValueIsTruth` | scripts/finalize_release_evidence.py:520-534 | the value in a context is the marker's truth there; the closure's edges are stated with this truth |
| `MarkerTruth.DottedIsRead` | scripts/finalize_release_evidence.py:453-459 | numbers written with dots are read as these numbers |
| `MarkerTruth.VersionTextExactly` | scripts/finalize_release_evidence.py:453-455 | a version text is digits with single dots between them, and nothing else is |
| `MarkerTruth.LeadingZero` | scripts/finalize_release_evidence.py:453-459 | a leading zero changes no component |
| `Closure.DerivableIsLeast` | scripts/finalize_release_evidence.py:568-650 | what a chain of requirements reaches is contained in every closed set of slots |
| `Closure.NeededSlotsAreDerivable` | scripts/finalize_release_evidence.py:620-648 | what is reachable is itself closed under needs |
| `Closure.DerivableIsMonotone` | scripts/finalize_release_evidence.py:605-620 | without the project's own extras no more is required |
| `Closure.FaultsAreMonotone` | scripts/finalize_release_evidence.py:605-650 | without the project's own extras no more can fail |
| `Closure.ClosureIsUnique` | scripts/finalize_release_evidence.py:561-650 | only one closure is correct, so the result depends on no pop order |
| `Closure.RuntimeWithinAll` | scripts/finalize_release_evidence.py:700-713 | the runtime closure is a subset of the all-extras closure on every lock |
| `Closure.Enqueue` | scripts/finalize_release_evidence.py:577-597 | the queue gains exactly the slots of an applicable dependency, and failure is a fault of it |
| `Closure.EnqueueAll` | scripts/finalize_release_evidence.py:577-648 | a list of dependencies adds exactly what its applicable entries need |
| `Closure.StartQueue` | scripts/finalize_release_evidence.py:568-607 | the first queue asks for exactly what the project needs |
| `Closure.Expand` | scripts/finalize_release_evidence.py:622-648 | expanding a package adds exactly the needs of its activated contexts, and fails only on a fault of theirs |
| `Closure.ActivateAdds` | scripts/finalize_release_evidence.py:612-624 | re-activating a package adds exactly the slots asked for and shrinks the set of inactive slots |
| `Closure.Visit` | scripts/finalize_release_evidence.py:610-648 | one iteration keeps soundness and closedness of the worklist, and either skips or activates a new slot |
| `Closure.ExpandQueue` | scripts/finalize_release_evidence.py:609-650 | the worklist ends on every lock, cyclic ones included, with an empty queue and everything kept, or with a reachable fault |
| `Closure.UniformLockIsUnmixed` | scripts/finalize_release_evidence.py:520-534 | no marker that avoids comparing versions with `extra` is mixed, so on such locks no set order decides |
| `Closure.DependencyClosure` | scripts/finalize_release_evidence.py:561-650 | success returns exactly the reachable packages, each with exactly its reachable extras, edges being entries whose marker is true in a context; it means that no order avoids a fault, and failure means a reachable fault; with failing contexts looked at first, and in any order unless a marker is true in one derivable context of its package and fails in another, it fails if and only if there is a reachable fault |
| `LockFile.ReadEntries` | scripts/finalize_release_evidence.py:670-698 | the graph and the hash table list the registry entries once each beside one project; failure means that no such listing exists |
| `LockFile.ListsIsUnique` | scripts/finalize_release_evidence.py:670-698 | the entries determine the graph and the hash table |
| `LockFile.ParseLock` | scripts/finalize_release_evidence.py:653-718 | both closures are the exact ones, the runtime one lies within the other and is not empty, every member has its entry's hashes; failure means that the file is not acceptable, and (in the worst order, or if no derivable marker is mixed) reading succeeds if and only if it is |
| `LockFile.UniformFileIsUnmixed` | scripts/finalize_release_evidence.py:653-718 | no marker is mixed in a file where none compares a version with `extra` |
| `LockFile.BadEntryRejects` | scripts/finalize_release_evidence.py:670-698 | an entry without name or version, of another source, or without hashes makes the file unacceptable |
| `LockFile.SameNameRejects` | scripts/finalize_release_evidence.py:670-698 | so do two registry entries with one canonical name |
| `Spdx.Tokenize` | scripts/generate_supply_chain_evidence.py:261-275 | the position loop returns the tokens of the string, and fails on none |
| `Spdx.TokensOfSpelling` | scripts/generate_supply_chain_evidence.py:261-275 | reading tokens written with spaces gives the same tokens |
| `Spdx.ParseInvertsPrinter` | scripts/finalize_release_evidence.py:780-812 | parsing gives a tree if and only if the token list prints that valid tree |
| `Spdx.AcceptsExactlyAnnexD` | scripts/finalize_release_evidence.py:780-812 | accepted token lists are exactly the AND/OR/parenthesis expressions of Annex D |
| `Spdx.AnnexTokens` | scripts/finalize_release_evidence.py:792-793 | no such expression contains WITH, and each names a licence |
| `Spdx.Parser.ParseFactor` | scripts/finalize_release_evidence.py:780-795 | the position moves over one operand, whose names are added, if there is one |
| `Spdx.Parser.ParseAndExpression` | scripts/finalize_release_evidence.py:797-802 | the position moves over the longest conjunction, whose names are added |
| `Spdx.Parser.ParseOrExpression` | scripts/finalize_release_evidence.py:804-809 | the position moves over the longest disjunction, whose names are added |
| `Spdx.LicenseIdentifiers` | scripts/generate_supply_chain_evidence.py:278-317 | success exactly on Annex D expressions without WITH, with exactly their identifier tokens |
| `Spdx.SpelledExpressionIsAccepted` | scripts/generate_supply_chain_evidence.py:261-317 | writing any valid expression and reading it back gives its names |
| `Spdx.IdentifiersNonEmpty` | scripts/finalize_release_evidence.py:762-814 | an accepted expression is not blank and names a licence |
| `SpdxText.TokensExactly` | scripts/generate_supply_chain_evidence.py:261-275 | a text has these tokens if and only if it writes them in order with blank text around, not missing between two words |
| `SpdxText.TokenCharacters` | scripts/generate_supply_chain_evidence.py:102 | the characters of a word, one by one |
| `SpdxText.IdentifiersAreWords` | scripts/generate_supply_chain_evidence.py:278-317 | the licences of an accepted expression are its words other than AND and OR |
| `SpdxText.ParenthesisedChoice` | backend/tests/unit/test_supply_chain_evidence.py:854 | a choice written without spaces beside its parentheses names both licences |
| `Text.CanonicalNameIsCanonical` | scripts/generate_supply_chain_evidence.py:167-168 | the canonical names are exactly the fixed points of the canonicalisation |
| `Text.LowerLetters` | scripts/generate_supply_chain_evidence.py:167-168 | lower-casing changes the 26 capital letters of ASCII and nothing else |
| `Text.CanonicalPieces` | scripts/generate_supply_chain_evidence.py:167-168 | a name is its pieces in lower case with one dash for every run of separators |
| `Text.StripExactly` | scripts/generate_supply_chain_evidence.py:606-610 | stripping removes all space at both ends and nothing else |
| `Text.SplitSlashExactly` | scripts/release_bundle.py:190-206 | splitting at slashes loses nothing and leaves no slash |
| `Ordering.StrLessExactly` | scripts/finalize_release_evidence.py:3017-3020 | one string is before another if it is continued by it or smaller at the first difference |
| `Licenses.CollapseIsIdempotent` | scripts/generate_supply_chain_evidence.py:250-254 | collapsing white space twice changes nothing more |
| `Licenses.ApprovedIsNormal` | scripts/generate_supply_chain_evidence.py:250-258 | every approved identifier is its own normal form |
| `Licenses.NormalizeIsIdempotent` | scripts/generate_supply_chain_evidence.py:250-258 | a normalised licence stays as it is and is never blank |
| `Licenses.SortedList` | scripts/generate_supply_chain_evidence.py:330-334 | sorting a set gives its ascending listing |
| `Licenses.ListingIsUnique` | scripts/finalize_release_evidence.py:2951-2959 | a set has one ascending listing, so comparing with the sorted set compares contents and order |
| `LicenseLaws.SpellingIsNormalised` | scripts/generate_supply_chain_evidence.py:250-258 | a declared licence spelled in a known way, in any case and spacing, gets its identifier |
| `LicenseLaws.Spellings` | scripts/generate_supply_chain_evidence.py:51-76 | which spellings stand for five of the licences |
| `LicenseLaws.MoreSpellings` | scripts/generate_supply_chain_evidence.py:51-76 | which spellings stand for the other four |
| `LicenseLaws.UnknownLicences` | scripts/generate_supply_chain_evidence.py:42-50 | seven texts mean that the licence is unknown |
| `LicenseLaws.PsfText` | scripts/generate_supply_chain_evidence.py:103-106 | the long text of the PSF licence stands for its identifier |
| `LicenseLaws.AllowedLicences` | scripts/generate_supply_chain_evidence.py:77-89 | which nine licences need no review |
| `LicenseLaws.WrittenDuties` | scripts/generate_supply_chain_evidence.py:90-101 | a written record with a concluded licence cites allowed licences only and lists the base duty, each special duty exactly if its licence is cited, and nothing else; any other lists the two duties of a review |
| `LicenseLaws.AcceptedDuties` | scripts/finalize_release_evidence.py:817-821 | an accepted record lists the same duties |
| `LicenseLaws.ReviewValidExactly` | scripts/finalize_release_evidence.py:2497-2514 | a tidy review is valid if and only if its reason has twenty characters, both dates can be read, it is no later than today and expires no earlier |
| `LicenseLaws.BlankTextIsInvalid` | scripts/finalize_release_evidence.py:2497-2502 | a review with a blank text is never valid |
| `LicenseLaws.AcceptedReviewIsCurrent` | scripts/finalize_release_evidence.py:2971-3006 | in an accepted inventory every reviewed record has its package's committed review, and that is in force today |
| `LicenseLaws.LoadedByGeneratorIsCurrent` | scripts/generate_supply_chain_evidence.py:618-634 | every entry of a loaded exceptions file is in force today |
| `LicenseLaws.LoadedByFinalizerIsCurrent` | scripts/finalize_release_evidence.py:2497-2567 | so is every entry that the finalizer loads |
| `LicenseLaws.ExceptionIsStoredAsWritten` | scripts/generate_supply_chain_evidence.py:600-642 | both loaders store a tidy exception under its own names as it is written, if it is in force |
| `LicenseLaws.ConclusionIsStoredAsWritten` | scripts/generate_supply_chain_evidence.py:523-576 | a tidy conclusion is stored as it is written |
| `LicenseLaws.ConclusionAcceptedExactly` | scripts/generate_supply_chain_evidence.py:523-561 | it is accepted if and only if its text is there, not empty and has its hash, and its licences are allowed |
| `LicenseLaws.TextPathExactly` | scripts/generate_supply_chain_evidence.py:413-440 | which paths of licence texts are accepted |
| `LicenseLaws.HashExactly` | scripts/generate_supply_chain_evidence.py:36 | a hash is the prefix and 64 small hexadecimal digits |
| `LicenseLaws.EveryRuleIsUsed` | scripts/finalize_release_evidence.py:3021-3031 | every exception and every conclusion is used by a record of its package |
| `LicenseLaws.RulesAreNeeded` | scripts/finalize_release_evidence.py:2843-3010 | a record has a review or evidence only where its package has a rule and its declared licence is not allowed |
| `LicenseLaws.RecordOrder` | scripts/generate_supply_chain_evidence.py:1213-1220 | records are ordered by ecosystem, canonical name and version |
| `LicenseLaws.BadComponentRejects` | scripts/finalize_release_evidence.py:2727-2769 | a blank or unknown field of one component makes the document unacceptable |
| `LicenseLaws.OneComponentAccepted` | scripts/finalize_release_evidence.py:2727-2769 | a component alone is accepted for its package and gives its licence |
| `Conclusions.LoadConclusions` | scripts/generate_supply_chain_evidence.py:507-577 | the incremental loop accepts exactly the files with valid entries, no repeated key and one text per package, and stores exactly their conclusions |
| `Conclusions.LoadedIsBound` | scripts/generate_supply_chain_evidence.py:546-561 | what is loaded has approved conclusions and one licence text per package |
| `Conclusions.TextsAreOne` | scripts/finalize_release_evidence.py:2928-2939 | for loaded conclusions the finalizer's set of texts of a package has one element, so its later check never rejects |
| `Conclusions.EntriesAgree` | scripts/finalize_release_evidence.py:2585-2637 | on the same texts the finalizer accepts an entry exactly when the generator does and its path has no surrounding space, non-empty texts assumed |
| `Conclusions.LoadersAgree` | scripts/finalize_release_evidence.py:2585-2664 | both loaders accept the same files of unpadded paths to non-empty texts |
| `Exceptions.LoadEntries` | scripts/generate_supply_chain_evidence.py:600-642 | the loop accepts exactly the files with accepted entries and distinct keys, and stores exactly their reviews |
| `Exceptions.LoadExceptions` | scripts/finalize_release_evidence.py:2516-2567 | both loaders, told apart by their check and their key: success exactly on accepted files, with exactly their table |
| `Exceptions.EntriesAgree` | scripts/generate_supply_chain_evidence.py:600-643 | the generator accepts an entry if and only if the finalizer does and its dates have no space around them |
| `Exceptions.KeysAgree` | scripts/generate_supply_chain_evidence.py:636-638 | both give an entry the same key if and only if its name and version have no space around them |
| `Exceptions.GeneratorsTableIsLoaded` | scripts/finalize_release_evidence.py:2516-2567 | what the generator loads the finalizer loads as the same table if and only if no name or version is padded |
| `Exceptions.FinalizersTableIsLoaded` | scripts/generate_supply_chain_evidence.py:582-643 | what the finalizer loads the generator loads as the same table if and only if no name, version or date is padded |
| `Exceptions.LoadedIsCurrent` | scripts/finalize_release_evidence.py:2497-2514 | a loaded exception passes the finalizer's own check of a record's review unchanged |
| `Policy.RecordIsUnique` | scripts/generate_supply_chain_evidence.py:1079-1199 | the policy allows at most one record for a package |
| `Policy.ConcludeItem` | scripts/generate_supply_chain_evidence.py:1109-1176 | a package with conclusions gets the record that all of them and all its locked hashes agree on, or none exists; with loaded conclusions two of the errors cannot occur |
| `Policy.DecideItem` | scripts/generate_supply_chain_evidence.py:1079-1199 | a package gets the record that the policy prescribes, or none exists |
| `Policy.ApplyLicensePolicy` | scripts/generate_supply_chain_evidence.py:1070-1220 | success gives one prescribed record per item, sorted, with every exception and conclusion used; failure means that no such list exists |
| `Policy.OutputIsSorted` | scripts/generate_supply_chain_evidence.py:1213-1220 | the output is a permutation of the records in strictly increasing key order |
| `Policy.OutputIgnoresInputOrder` | scripts/generate_supply_chain_evidence.py:1070-1220 | inventories with the same items and distinct keys give the same output |
| `SupplyCheck.CheckRecords` | scripts/finalize_release_evidence.py:2795-3032 | the loop accepts exactly strictly increasing lists of accepted records that cover the licensed packages and use up every rule |
| `SupplyCheck.CheckInventory` | scripts/finalize_release_evidence.py:2771-3032 | acceptance of the dependency list if and only if it meets the policy |
| `SupplyCheck.ReadSbom` | scripts/finalize_release_evidence.py:2727-2769 | a document is accepted if and only if it lists the expected packages once each, and then gives exactly their licences |
| `SupplyCheck.ReadSboms` | scripts/finalize_release_evidence.py:2727-2769 | the three documents are accepted if and only if each is |
| `SupplyCheck.LicensesAreUnique` | scripts/finalize_release_evidence.py:2745-2757 | the documents determine the licence table |
| `SupplyCheck.ValidateSupplyArtifacts` | scripts/finalize_release_evidence.py:2701-3032 | acceptance if and only if the SBOMs list the locked packages and the inventory meets the policy against them |
| `Agreement.RecordFor` | scripts/generate_supply_chain_evidence.py:1223-1261 | the lookup by key finds a record of the list with that key, or there is none |
| `Agreement.RelabelSbom` | scripts/generate_supply_chain_evidence.py:1223-1261 | in place, every component gets the effective licence of its record and keeps its identity; failure if and only if a record is missing |
| `Agreement.RecordIsAccepted` | scripts/finalize_release_evidence.py:2815-3009 | every record that the generator prescribes passes the finalizer's check of one record |
| `Agreement.GeneratedInventoryIsAccepted` | scripts/finalize_release_evidence.py:2771-3032 | every output of the generator is an accepted inventory |
| `Agreement.RelabelledSbomIsAccepted` | scripts/generate_supply_chain_evidence.py:1223-1261 | a relabelled SBOM of the locked packages is accepted |
| `Agreement.GeneratedEvidenceIsAccepted` | scripts/finalize_release_evidence.py:2701-3032 | the generator's output with its relabelled SBOMs is accepted end to end |
| `Agreement.CommittedEvidenceIsAccepted` | scripts/finalize_release_evidence.py:2701-3032 | from committed files without padded identities and paths: the finalizer loads the generator's rules and accepts what the generator writes under them |
| `Provenance.NoConclusionsLeft` | scripts/finalize_release_evidence.py:3025-3031 | through the unused-conclusion check, a package with conclusions is always recorded as concluded |
| `Provenance.AcceptedInventoryIsGenerated` | scripts/finalize_release_evidence.py:2771-3032 | an accepted inventory in normal form is, record by record and in order, what the generator writes for its packages |
| `Provenance.GeneratedIsNormal` | scripts/generate_supply_chain_evidence.py:1083-1088 | declared licences written by the generator are in normal form |
| `Provenance.AcceptedIsWrittenExactly` | scripts/finalize_release_evidence.py:2701-3032 | an accepted inventory is, up to the spelling of obligations and reviews, one the generator writes if and only if its declared licences are in normal form |
| `Provenance.WrittenAsItStandsExactly` | scripts/finalize_release_evidence.py:2701-3032 | an accepted inventory is itself an output of the generator if and only if its licences are in normal form, its obligations strictly increase and its review texts and dates have no surrounding space |
| `Provenance.ObligationsMayVary` | scripts/finalize_release_evidence.py:2827-2981 | an accepted inventory stays accepted when a record lists the same obligations in any order and number |
| `Provenance.ReviewMayVary` | scripts/finalize_release_evidence.py:2497-3006 | an accepted inventory stays accepted when space is added around the five texts of a review, its dates among them |
| `Provenance.RepeatedObligationIsAccepted` | scripts/finalize_release_evidence.py:2827-2981 | a concrete accepted inventory with an obligation written twice, which the generator writes only otherwise |
| `Provenance.PaddedReviewIsAccepted` | scripts/finalize_release_evidence.py:2497-3006 | a concrete accepted inventory with a padded review reason, which the generator writes only otherwise |
| `Provenance.PaddedDateIsAccepted` | scripts/finalize_release_evidence.py:2497-3006 | the same with a padded review date, for any way of reading dates |
| `Provenance.PaddedLicenseIsAccepted` | scripts/finalize_release_evidence.py:2843-2859 | a concrete accepted inventory that the generator never writes |
| `SkipGuards.CheckGuard` | scripts/check_platform_readiness.py:1628-1662 | nothing is reported of a variable if and only if its guard stands where expected, once, and rejects, and each report is due |
| `SkipGuards.CheckGuards` | scripts/check_platform_readiness.py:1626-1667 | for any variables and start line: no failure if and only if the preamble is canonical and their guards form a section; every report is due |
| `SkipGuards.ValidateSkipGuards` | scripts/check_platform_readiness.py:1614-1667 | no failure if and only if the lines that Python sees in the text are canonical; missing, unclosed and non-rejecting guards are reported exactly when they are; the order check never speaks without an earlier failure |
| `SkipGuards.FirstGuard` | scripts/check_platform_readiness.py:1628-1650 | a guard enters its body if its variable is 1 and passes to the next guard otherwise |
| `SkipGuards.BodyRejects` | scripts/check_platform_readiness.py:1650-1661 | an accepted body always ends the run |
| `SkipGuards.AcceptedScriptRejectsSkips` | scripts/check_platform_readiness.py:1614-1667 | on lines that linter and shell share: with a skip variable set to 1 an accepted script never gets past its guard section and exits with the rejecting status |
| `SkipGuards.AcceptedScriptPassesOtherwise` | scripts/check_platform_readiness.py:1614-1667 | on shared lines: with none set control reaches the line after the section |
| `SkipGuards.RenderedScriptIsCanonical` | scripts/check_platform_readiness.py:1614-1667 | preamble, one rejecting block per variable and any lines without a guard are accepted |
| `SkipGuards.CanonicalExactly` | scripts/check_platform_readiness.py:1614-1667 | the linter accepts exactly the scripts of that form |
| `GuardLaws.MessageAcceptedExactly` | scripts/check_platform_readiness.py:1650-1655 | a message line is accepted if and only if its text has none of the four characters that a shell reads inside double quotes |
| `GuardLaws.NotRejectingExactly` | scripts/check_platform_readiness.py:1643-1661 | a guard that stands once and closes is reported as not rejecting if and only if the lines between are not plain messages followed by exit 2 |
| `GuardLaws.ReportForbidden` | scripts/check_platform_readiness.py:1614-1667 | over any text, one of the four characters in a message of a guard is reported |
| `GuardLaws.OwnScriptIsAccepted` | scripts/verify_release.sh:1-41 | the repository's own preamble, guards and messages are accepted, whatever follows without a guard |
| `GuardLaws.SkipsExactly` | scripts/verify_release.sh:11 | a guard fires if and only if its variable is set to 1 |
| `GuardLaws.VariableNameExactly` | scripts/verify_release.sh:11 | what a variable name is to the shell |
| `GuardLaws.PyLineExactly` | scripts/check_platform_readiness.py:1618 | Python cuts a line at each of ten line ends, a carriage return with its line feed |
| `GuardLaws.ShellLineExactly` | scripts/check_platform_readiness.py:1614-1667 | the shell cuts it at a line feed |
| `ScriptLines.HeadsAgreeExactly` | scripts/check_platform_readiness.py:1618 | the first n lines that Python sees are the first n of the shell if and only if only line feeds end them |
| `ScriptLines.SplittingsAgreeExactly` | scripts/check_platform_readiness.py:1618 | Python and the shell see the same lines of a text if and only if it holds no other line end |
| `ScriptLines.TranslationKeepsLines` | scripts/check_platform_readiness.py:1943-1948 | the newline translation of reading a text file changes no line that Python sees |
| `ScriptText.ShellSeesSection` | scripts/check_platform_readiness.py:1614-1667 | when only line feeds end the preamble and the guards of an accepted text, the shell sees the same guard section at the same lines |
| `ScriptText.AcceptedTextRejectsSkips` | scripts/check_platform_readiness.py:1614-1667 | the shell running such a text with a skip variable set to 1 never gets past the section and exits with the rejecting status |
| `ScriptText.AcceptedTextPassesOtherwise` | scripts/check_platform_readiness.py:1614-1667 | with none set the shell reaches the line after the section |
| `ScriptText.AcceptedTextWithoutGuards` | scripts/check_platform_readiness.py:1614-1667 | the lines of any accepted text ended by vertical tabs are accepted too, and the shell reads one comment and exits with 0 in every environment |
| `ScriptText.ProtectedExactly` | scripts/check_platform_readiness.py:1614-1667 | the guards of an accepted text hold in every shell and every environment, whatever unknown lines and another preamble do, if and only if only line feeds end the preamble and the guards, a carriage return after the first line aside; otherwise some shell exits with 0 with a skip variable set to 1 |
| `ScriptText.RenderedTextProtects` | scripts/check_platform_readiness.py:1614-1667 | preamble, rejecting blocks and lines without a guard, ended by line feeds, are accepted and protect |
| `ScriptText.SomeAcceptedTextHasNoGuards` | scripts/check_platform_readiness.py:1614-1667 | a concrete text that is accepted and runs no guard in any environment |
| `Callback.CallbackState.Claim` | scripts/fake_platform_callback_server.py:69-83 | purging in place and claiming change the state as the value function says, and nothing else |
| `Callback.CallbackState.AcceptIdempotentReceipt` | scripts/fake_platform_callback_server.py:94-124 | a new key changes binding, receipts and delivery index and then adds one log line; when that line cannot be written the maps stay changed and the log as it was; a repeat and a conflict change nothing |
| `Callback.RetryAfterFailedWrite` | scripts/fake_platform_callback_server.py:94-124 | after a failed write of the log a retry of the same body is confirmed, and the log still has no line for it |
| `Callback.CallbackState.ReceiptForDelivery` | scripts/fake_platform_callback_server.py:89-92 | read-back by delivery id returns what is on file |
| `Callback.CallbackState.TakeDropFlag` | scripts/fake_platform_callback_server.py:323-326 | the drop flag is taken once |
| `CallbackProtocol.StepKeepsSettled` | scripts/fake_platform_callback_server.py:184-329 | every step of every thread keeps receipts, bindings, log and replies consistent and changes nothing on file, whether or not the log can be written or the body raises, the identifiers of the arriving keys being distinct |
| `CallbackProtocol.ExactlyOnceReceipts` | scripts/fake_platform_callback_server.py:184-329 | over every interleaving of requests whose keys have distinct identifiers, a key has one final receipt and at most one log line, exactly one if the log can be written, and then only raising bodies end in an exception; every confirmation and read-back gives that receipt, confirmed requests have the first body and refused ones another |
| `CallbackProtocol.ConflictExactly` | scripts/fake_platform_callback_server.py:300-317 | over every run, a request is refused as a conflict if and only if its body and delivery id pass and its key is bound to another body, and then nothing on file changes |
| `CallbackProtocol.ServerErrorExactly` | scripts/fake_platform_callback_server.py:238-306 | over every run, acceptance ends in an uncaught exception if and only if handling the body raises, or a new key's log line cannot be written; the first changes nothing, the second leaves the receipt on file without a log line |
| `CallbackProtocol.FaithfulExactly` | scripts/fake_platform_callback_server.py:32-36 | for any set of keys, receipts stay faithful over all requests with these keys if and only if the digests give them different, non-empty identifiers |
| `CallbackProtocol.StepKeepsNonces` | scripts/fake_platform_callback_server.py:69-83 | every step keeps each claim recorded until the clock passes its expiry |
| `CallbackProtocol.NonceSingleUse` | scripts/fake_platform_callback_server.py:69-83 | over every interleaving a second claim of a nonce comes strictly after the first one's expiry |
| `CallbackProtocol.SameRequestTwice` | scripts/fake_platform_callback_server.py:201-262 | one signed request is claimed twice only if the clock passes its expiry between its freshness check and its claim |
| `CallbackReplies.LetThroughOwnsClaim` | scripts/fake_platform_callback_server.py:201-248 | over every run, a request past the nonce step was authentic, was checked in time and owns a claim of its own |
| `CallbackReplies.LetThroughOnce` | backend/app/core/callback_signature.py:350-384 | of two such requests with one key and nonce, one was claimed after the other expired |
| `CallbackReplies.UnauthorizedExactly` | scripts/fake_platform_callback_server.py:201-248 | over every run, a request is answered with 401 if and only if it was not authentic, not in time when checked, or its nonce was recorded and unexpired when claimed |
| `CallbackReplies.TurnedAwayExactly` | scripts/fake_platform_callback_server.py:249-306 | over every run, which bodies and delivery headers get a 400 and which raise |
| `CallbackReplies.KnownKeyExactly` | scripts/fake_platform_callback_server.py:94-124 | over every run, a fine request with a known key gets the receipt on file, or a conflict if its body differs |
| `CallbackReplies.NewKeyExactly` | scripts/fake_platform_callback_server.py:94-124 | with a new key it gets its own receipt, or raises if that cannot be logged |
| `CallbackReplies.RespondExactly` | scripts/fake_platform_callback_server.py:318-329 | a stored request is confirmed with its receipt, or dropped if that was armed, which disarms it |
| `CallbackReplies.DropsWereArmed` | scripts/fake_platform_callback_server.py:323-329 | over every run at most one reply is dropped for each time that was armed |
| `CallbackReplies.WayIsOpen` | scripts/fake_platform_callback_server.py:69-83 | an authentic request in time with an unrecorded nonce passes its four steps and records the nonce until its timestamp plus the tolerance |
| `CallbackReplies.UnobstructedIsConfirmed` | scripts/fake_platform_callback_server.py:94-124 | with a fine body and a new key its receipt is then put on file and in the log |
| `CallbackReplies.ReplayIsRefused` | scripts/fake_platform_callback_server.py:69-83 | the same steps end in a 401 while the nonce is recorded and unexpired |
| `CallbackReplies.ArmingAndTime` | scripts/fake_platform_callback_server.py:323-329 | an armed drop takes the next reply, and the clock never goes back |
| `BundlePaths.SplitOfText` | scripts/release_bundle.py:190-206 | a path's text determines its parts |
| `BundlePaths.OrdersAgree` | scripts/release_bundle.py:229-276 | two paths compare alike by parts and by text if and only if neither crosses the other |
| `BundlePaths.SortAgreement` | scripts/release_bundle.py:229-276 | a list in order of parts is in order of text if and only if nothing crosses |
| `BundlePaths.CrossingExample` | scripts/release_bundle.py:229-276 | two concrete members for which the orders differ |
| `Bundle.CollectMembers` | scripts/release_bundle.py:229-239 | success if and only if every member file can be collected, and then exactly those, in order of parts |
| `Bundle.ValidateMembers` | scripts/release_bundle.py:242-277 | acceptance if and only if the records are well formed and their paths strictly increase as text |
| `Bundle.AddParents` | scripts/release_bundle.py:524-531 | the inner loop adds exactly the proper non-empty beginnings of a path |
| `Bundle.ParentDirectories` | scripts/release_bundle.py:524-531 | the result holds exactly the proper parents of the paths |
| `Bundle.CompareMembers` | scripts/release_bundle.py:554-579 | the maps by path agree if and only if the two lists hold the same records |
| `Bundle.CheckFiles` | scripts/release_bundle.py:554-579 | acceptance if and only if the files other than metadata and signature are the declared ones |
| `Bundle.CheckDirectories` | scripts/release_bundle.py:581-598 | acceptance if and only if every directory has the right mode and is needed |
| `Bundle.NoDirectoryIsMissing` | scripts/release_bundle.py:581-598 | once the files match, "no unneeded directory" is the same as "exactly the needed directories" |
| `Bundle.VerifyExactMembers` | scripts/release_bundle.py:534-598 | on a real file tree, acceptance if and only if files, modes, digests and directories are exactly what the list says |
| `Bundle.CollectedListIsValid` | scripts/release_bundle.py:229-277 | the collected list passes validation if and only if its modes and digests are allowed and no path crosses another |
| `Bundle.AssembledIsVerified` | scripts/release_bundle.py:834-928 | an assembled tree with its metadata passes validation and exact verification against its own list if and only if nothing crosses, modes and digests are allowed, and every directory has the right mode and is needed |
| `Bundle.AssembledExample` | scripts/release_bundle.py:834-928 | a concrete tree that meets the conditions of the previous row |
| `BundleCopy.MakeDirectory` | scripts/release_bundle.py:804-825 | the directory and its missing parents are added, and nothing else |
| `BundleCopy.CopyTree` | scripts/release_bundle.py:813-831 | failure exactly on a kept entry that is neither file nor directory; else the copy holds the kept entries and the directories above them |
| `BundleCopy.SkippedIsCopiedExactly` | scripts/release_bundle.py:816-823 | nothing in a `__pycache__` is copied, and any other skipped entry is copied after all if and only if something kept lies below it |
| `BundleCopy.CacheContentsAreCopied` | scripts/release_bundle.py:816-823 | a file in a tool's cache directory is copied, and the directory with it |
| `BundleCopy.MembersOfCopy` | scripts/release_bundle.py:813-831 | the member files of the copy are the kept files of the source with their digests and modes |
| `BundleCopy.DirectoriesOfCopy` | scripts/release_bundle.py:581-598 | every directory of the copy is needed if and only if no kept source directory is left without a kept file |
| `BundleCopy.CleanExactly` | scripts/release_bundle.py:602-614 | the copy has no development-only path if and only if nothing kept has a development-only part |
| `BundleCopy.CacheContentsAreRejected` | scripts/release_bundle.py:602-614 | what is copied of a tool's cache makes verification fail |
| `BundleCopy.AssembledFromSource` | scripts/release_bundle.py:834-928 | the bundle assembled from the sources is clean and verified against its own list if and only if the kept files have allowed digests and modes, nothing crosses, no kept directory is left without a file, and nothing kept is for development only |
| `Bundle.DotIsValid` | scripts/release_bundle.py:187-207 | a member list that names a lone dot is valid |
| `Bundle.DotIsNeverPinned` | scripts/release_bundle.py:534-598 | and no file tree is verified against a list that names one |
| `BundleLaws.MemberPathExactly` | scripts/release_bundle.py:187-207 | a member path is accepted if and only if it is a lone dot, or a tidy relative text that names neither metadata nor signature |
| `BundleLaws.VerifiedMetadata` | scripts/release_bundle.py:534-552 | a verified bundle has its root, metadata and signature with their octal modes |
| `BundleLaws.MetadataAccepted` | scripts/release_bundle.py:534-552 | and no more is asked of them |
| `BundleLaws.Modes` | scripts/release_bundle.py:31-34 | the allowed modes of members and directories in octal |
| `BundleLaws.DigestExactly` | scripts/release_bundle.py:242-277 | a digest is 64 small hexadecimal digits |
| `BundleLaws.SkippedNames` | scripts/release_bundle.py:602-614 | which names are skipped when copying, and which are forbidden in a bundle |
| `BundleLaws.OrdinaryIsCopied` | scripts/release_bundle.py:813-831 | an entry that is no cache and in none is copied as it is |
| `Requirements.RequirementReader.Finish` | scripts/finalize_release_evidence.py:3170-3190 | finishing the open requirement fails if and only if the groups so far are invalid, and otherwise counts it |
| `Requirements.ParseRequirements` | scripts/finalize_release_evidence.py:3154-3220 | success exactly on well-formed files of distinct, locked requirements with exactly the locked hashes and an active one; the result is their declared and active identities |
| `Requirements.RenderedGroups` | scripts/finalize_release_evidence.py:3154-3220 | reading what a requirements list renders to gives that list |
| `Requirements.RenderedIsAccepted` | scripts/finalize_release_evidence.py:3154-3220 | rendered distinct requirements with the lock's hashes are accepted as exactly that list |
| `Requirements.SkippedLineChangesNothing` | scripts/finalize_release_evidence.py:3192-3195 | a blank line or comment may stand anywhere |
| `Requirements.ForbiddenLineRejects` | scripts/finalize_release_evidence.py:3196-3216 | an unknown option or an unpinned requirement anywhere rejects the file |
| `Requirements.OrphanHashRejects` | scripts/finalize_release_evidence.py:3198-3200 | so does a hash before every requirement |
| `Requirements.OneRequirement` | scripts/finalize_release_evidence.py:3196-3216 | one requirement has its canonical identity and its hash with the prefix |
| `Requirements.ValidateAudit` | scripts/finalize_release_evidence.py:3223-3258 | acceptance if and only if the report names each expected package once, clean, and nothing else |
| `Requirements.BadEntryRejects` | scripts/finalize_release_evidence.py:3223-3258 | a broken, blank or vulnerable entry rejects the audit |
| `Requirements.OneEntryCovers` | scripts/finalize_release_evidence.py:3223-3258 | one clean entry covers its package and no other set |
| `Requirements.ValidateReports` | scripts/finalize_release_evidence.py:3329-3367 | acceptance if and only if the requirements are well formed and locked, and their active part and the audit both equal the runtime closure; inactive requirements may be declared beyond it |
| `Requirements.RuntimeIsAudited` | scripts/finalize_release_evidence.py:3329-3367 | every package reachable for the runtime is required with its lock entry's hashes and audited, and nothing else is |
| `TarExtract.CopyExactly` | scripts/release_image_evidence.py:660-678 | the chunk loop ends for every way of cutting the data, and succeeds if and only if the size is the declared one |
| `TarExtract.AdmitMember` | scripts/release_image_evidence.py:615-648 | a rejected member means an unacceptable archive; an admitted one keeps count, sizes, kinds and paths within the rules |
| `TarExtract.FileExtracted` | scripts/release_image_evidence.py:649-679 | a wanted member with a new normalised path has a new file name |
| `TarExtract.ExtractEvidence` | scripts/release_image_evidence.py:603-691 | success exactly on acceptable archives, with exactly the required names and each member's bytes; the duplicate-evidence check never fires |
| `TarExtract.NameRejectedExactly` | scripts/release_image_evidence.py:586-600 | which member names are rejected |
| `TarExtract.PlainNameKept` | scripts/release_image_evidence.py:586-600 | a plain relative path keeps its components |
| `TarExtract.WantedExactly` | scripts/release_image_evidence.py:644-656 | which members are wanted evidence |
| `TarExtract.Limits` | scripts/release_image_evidence.py:34-37 | the limits in bytes and members |
| `ImageReferences.ReferenceShape` | scripts/render_release_compose.py:72-86 | accepted references are exactly name, tag and digest joined by one mark, without a variable |
| `ImageReferences.ValidatorsAgree` | scripts/release_bundle.py:292-304 | the renderer accepts a reference if and only if the bundle does and its tag is not empty |
| `ImageReferences.EmptyTagSplitsThem` | scripts/release_bundle.py:292-304 | a concrete reference that only the bundle accepts |
| `ImageReferences.OneMarkCounted` | scripts/render_release_compose.py:72-75 | the mark is counted once if and only if it stands in one place |
| `ImageLock.CheckImages` | scripts/render_release_compose.py:95-103 | the loop accepts exactly non-empty maps of valid services and references and returns them unchanged |
| `ImageLock.CreateImageLock` | scripts/render_release_compose.py:89-131 | success exactly on acceptable fields; the lock holds them with the commit normalised |
| `ImageLock.ValidateImageLock` | scripts/release_bundle.py:307-331 | the bundle returns the lock it is given, if and only if it is acceptable to it |
| `ImageLock.LocksAgree` | scripts/release_bundle.py:307-331 | the renderer reads back unchanged exactly the locks that the bundle accepts and whose tags are not empty |
| `ImageLock.CreatedLockIsAccepted` | scripts/render_release_compose.py:89-131 | a created lock is read back unchanged and accepted by the bundle |
| `ImageLock.RenderServices` | scripts/render_release_compose.py:168-202 | a rendered document passes the bundle's check, keeps all other fields, and is left alone if it passed already |
| `ImageLock.BuildLockScanPlan` | scripts/render_release_compose.py:134-165 | every accepted lock has a scan plan |
| `ReleaseNames.ReleaseTagExactly` | scripts/render_release_compose.py:24-26 | a release tag is `v`, three numbers without leading zeros and perhaps a positive candidate number |
| `ReleaseNames.CommitExactly` | scripts/render_release_compose.py:27 | a commit is 40 or 64 small hexadecimal digits |
| `ReleaseNames.ServiceExactly` | scripts/release_bundle.py:319-323 | which names of services are accepted |
| `ReleaseNames.DigestIsNamed` | scripts/render_release_compose.py:138-153 | a reference is scanned under the digest that it names |
| `ScanPlan.GroupServices` | scripts/render_release_compose.py:138-153 | the grouping holds, for every digest in use, its services in order with their references |
| `ScanPlan.BuildScanPlan` | scripts/render_release_compose.py:134-165 | one record per digest in increasing order, with exactly its services and references, sorted |
| `ScanPlan.PlanPartitions` | scripts/render_release_compose.py:134-165 | the records' services together are the lock's services, none lost and none repeated |
| `ScanPlan.PlanIsUnique` | scripts/render_release_compose.py:134-165 | a lock has only one plan |

## Left out

- Closure.DependencyClosure: which locks some order accepts is not characterised exactly: where a marker is true in one derivable context of its package and fails in another, a reachable fault means that the worst order fails, and success means that no package is stuck over all its contexts; what lies between depends on the order in which contexts were added.
- LockFile.ParseLock: for an arbitrary order the same markers are excluded from its if-and-only-if; artifact shapes (`_locked_package_hashes`) are one optional set of hashes per entry.
- Agreement.GeneratedEvidenceIsAccepted: both programs are given one rule set, which `CommittedEvidenceIsAccepted` derives from the files; distinct item keys and locked hashes of the right shape are assumed, as the readers establish them.
- Agreement.CommittedEvidenceIsAccepted: both programs run on the same day, and date strings with space around them are not dates (`date.fromisoformat` is given as a function of the string).
- Exceptions.LoadExceptions: an entry has its eight string fields, other shapes being rejected alike by both; `validate_evidence_document` of the generator, which looks for sensitive content, is not modelled.
- Conclusions.LoadConclusions: which of the three errors is reported first differs between the two loaders and is not modelled; nor are the generator's checks for symbolic links on the way to a licence text and for sensitive content (`validate_evidence_document`).
- Conclusions.EntriesAgree: a licence text is its digest and size; that the generator also demands a regular file reached through no symbolic link is not modelled, since the finalizer is handed bytes.
- Conclusions.LoadersAgree: the same file-system checks are left out.
- SkipGuards.AcceptedScriptRejectsSkips: the semantics starts after the fixed preamble, covers comments and the commands that guards consist of, and calls every other line outside the section unknown. It speaks of given lines; `ScriptText` carries it to the text, and to shells that give any meaning to unknown lines.
- SkipGuards.AcceptedScriptPassesOtherwise: the same.
- ScriptText.ProtectedExactly: reads a text as characters (UTF-8 decoding is not modelled), and takes a shell that ends lines at a line feed only and whose unknown lines lead to a state of the run, without changing the environment.
- CallbackProtocol.ExactlyOnceReceipts: the keys that arrive in the run are assumed to have different, non-empty identifiers (the source cuts digests to 24 and 32 digits, so this fails for some sets of keys), which `FaithfulExactly` shows to be necessary for every set; a reply that is lost on the way is a reply the caller does not see; headers that cannot be read raise before the first step and are not modelled.
- Callback.CallbackState.AcceptIdempotentReceipt: a failing write of the log writes nothing; a line written in part is not modelled.
- CallbackProtocol.NonceSingleUse: the signature check (key lookup, HMAC, versions) is one predicate of the request, and the clock does not run backwards.
- Bundle.AssembledIsVerified: speaks of the assembled tree; `BundleCopy.AssembledFromSource` of its sources.
- BundleCopy.AssembledFromSource: the sources are one tree, laid out under the paths to which they are copied, files copied singly among them; the mode that a file is given is its mode there.
- SupplyCheck.ReadSbom: the `bomFormat` and `specVersion` fields are compared with constants in the source, and left out.
- SupplyCheck.ReadSboms: the same fields.
- SupplyCheck.ValidateSupplyArtifacts: the component counts, the schema and policy fields of the inventory, and the derivation of the expected packages from the three lock files, which are given.
- Bundle.VerifyExactMembers: file modes are numbers, digests are strings, and a tree is a finite map from paths to nodes.
- Requirements.ParseRequirements: lines are given as classified by the source's patterns; marker text is given as its expression tree.
- Requirements.ValidateReports: one round of the loop over two ecosystems with the same code; the npm audit, a count and a scan for severities, is left out.
- TarExtract.ExtractEvidence: gzip and tar decoding, and the size check on the archive file itself; the destination is taken to be empty, so that creating a file fails only for a name already extracted.
- ImageReferences.ValidatorsAgree: `casefold` is lower-casing of ASCII letters, the same in both checks.
- ImageLock.CreateImageLock: the schema version and the exact set of document fields; digits in release tags are ASCII.
- ImageLock.ValidateImageLock: the schema version and the set of fields.
- ImageLock.RenderServices: the `x-auris-release` field that rendering adds beside the services.
- Unicode: lower-casing and character classes are those of ASCII, except for white space.
- Regular-expression engines, and the parsing of TOML, JSON and Python expressions: the model starts from their results.
- Timestamps are integers.
- The npm lock reader: the generator skips repeated packages and the finalizer rejects them, so distinct identities are a hypothesis.
- The SPDX tokenizer and parser occur twice in the source with the same code and are modelled once.
- The backup and restore timeline, the schema checks of screenshots, audio and topology reports, and the image evidence records: long conjunctions settled by one branch each.
- Outbox claiming, leases, fencing and the run state machine of the product services.
- Subprocesses, Git, Docker, Cosign, HTTP, argument parsing and atomic file replacement.
