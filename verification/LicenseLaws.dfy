/** What the licence rules demand. */
module LicenseLaws {
  // The rules as a reader of an inventory meets them: which licences are allowed, which
  // duties are listed, and which reviews are in force
  // (scripts/generate_supply_chain_evidence.py:44-108, 250-334, 579-643, 1070-1220 and
  // scripts/finalize_release_evidence.py:2497-2514, 2771-3032).

  import opened Ordering
  import opened Text
  import opened Licenses
  import opened Policy
  import opened SupplyCheck
  import Conclusions
  import Exceptions
  import Spdx
  import SpdxText

  // ----- the normal form of a declared licence

  /** Words do not depend on the space around them. */
  lemma {:induction false} SpaceMakesNoWord(gap: string, rest: string)
    requires IsBlankText(gap)
    ensures Words(gap + rest) == Words(rest)
    decreases |gap|
  {
    if gap == [] {
      assert gap + rest == rest;
    } else {
      assert (gap + rest)[0] == gap[0] && (gap + rest)[1..] == gap[1..] + rest;
      SpaceMakesNoWord(gap[1..], rest);
    }
  }

  /** A licence is unknown when it reads so, in any case and spacing. */
  lemma UnknownLicences(value: string)
    requires Lower(Collapse(value)) in {
      "", "n/a", "none", "null", "see license in package", "unlicensed", "unknown"}
    ensures Normalize(Some(value)) == None
  {
  }

  /** The long text of the PSF licence stands for its identifier. */
  lemma PsfText(value: string, rest: string)
    requires Collapse(value) == "1. This LICENSE AGREEMENT is between the " +
      "Python Software Foundation (\"PSF\"), " + "and the Individual or Organization" + rest
    ensures Normalize(Some(value)) == Some("PSF-2.0")
  {
    var text := Collapse(value);
    assert text[0] == '1' && Lower(text)[0] == '1';
    NoUnknownDigit(Lower(text));
    PsfPrefix(rest);
  }

  lemma NoUnknownDigit(text: string)
    requires text != [] && text[0] == '1'
    ensures text !in UNKNOWN
  {
  }

  lemma PsfPrefix(rest: string)
    ensures PSF_TEXT_PREFIX <= "1. This LICENSE AGREEMENT is between the " +
      "Python Software Foundation (\"PSF\"), " + "and the Individual or Organization" + rest
  {
    SamePsfText();
  }

  lemma SamePsfText()
    ensures PSF_TEXT_PREFIX == "1. This LICENSE AGREEMENT is between the " +
      "Python Software Foundation (\"PSF\"), " + "and the Individual or Organization"
  {
  }

  /** The spellings, in lower case, that stand for each approved licence. */
  lemma Spellings(text: string)
    ensures Means(text, "0BSD") <==> text == "0bsd"
    ensures Means(text, "ISC") <==> text in {"isc", "isc license"}
    ensures Means(text, "MIT") <==> text in {"mit", "mit license"}
    ensures Means(text, "MIT-0") <==> text == "mit-0"
    ensures Means(text, "PSF-2.0") <==> text in {"psf-2.0", "psfl", "python software foundation license"}
  {
  }

  lemma MoreSpellings(text: string)
    ensures Means(text, "Apache-2.0") <==> text in {
      "apache 2", "apache 2.0", "apache-2.0", "apache license 2.0", "apache license version 2.0",
      "apache software license"}
    ensures Means(text, "BSD-2-Clause") <==> text in {"bsd 2-clause license", "bsd-2-clause", "2-clause bsd license"}
    ensures Means(text, "BSD-3-Clause") <==> text in {"bsd 3-clause license", "bsd-3-clause", "3-clause bsd license"}
    ensures Means(text, "MPL-2.0") <==> text in {
      "mozilla public license 2.0", "mozilla public license 2.0 (mpl 2.0)", "mpl-2.0"}
  {
  }

  /** A declared licence that collapses to this text, whatever its case, has this form. */
  ghost predicate Means(text: string, identifier: string) {
    text in ALIASES && ALIASES[text] == identifier
  }

  lemma SpellingIsNormalised(value: string, identifier: string)
    requires Means(Lower(Collapse(value)), identifier)
    ensures Normalize(Some(value)) == Some(identifier)
  {
    var text := Lower(Collapse(value));
    KnownStarts(text);
    assert text[0] == LowerChar(Collapse(value)[0]) && LowerChar('1') == '1';
    NotPsfText(Collapse(value));
  }

  lemma KnownStarts(text: string)
    requires text in ALIASES
    ensures text != [] && text[0] != '1' && text !in UNKNOWN
  {
  }

  // ----- allowed licences

  /** The nine licences that need no review. */
  lemma AllowedLicences(identifier: string)
    ensures identifier in APPROVED <==>
      || identifier == "0BSD" || identifier == "Apache-2.0" || identifier == "BSD-2-Clause"
      || identifier == "BSD-3-Clause" || identifier == "ISC" || identifier == "MIT"
      || identifier == "MIT-0" || identifier == "MPL-2.0" || identifier == "PSF-2.0"
  {
  }

  /** The expression names the licence. */
  ghost predicate Cites(expression: string, identifier: string) {
    Spdx.Tokens(expression).Some? && identifier in Spdx.Tokens(expression).value
  }

  lemma CitedIsNamed(expression: string, identifier: string)
    requires Spdx.Identifiers(expression).Some? && identifier in APPROVED
    ensures identifier in Spdx.Identifiers(expression).value <==> Cites(expression, identifier)
  {
    ApprovedIsNoKeyword(identifier);
  }

  lemma ApprovedIsNoKeyword(identifier: string)
    requires identifier in APPROVED
    ensures identifier !in Spdx.KEYWORDS
  {
  }

  /** A record that claims a concluded licence cites only allowed ones, and at least one. */
  ghost predicate CitesAllowedOnly(expression: string) {
    && Spdx.Tokens(expression).Some?
    && (exists t :: t in Spdx.Tokens(expression).value && t in APPROVED)
    && forall t :: t in Spdx.Tokens(expression).value && Spdx.IsWord(t) && t != "AND" && t != "OR" ==> t in APPROVED
  }

  lemma WithinCitesAllowed(expression: string)
    requires WithinAllowlist(expression)
    ensures CitesAllowedOnly(expression)
  {
    var names := Spdx.Identifiers(expression).value;
    Spdx.IdentifiersNonEmpty(expression);
    var n :| n in names;
    SpdxText.IdentifiersAreWords(expression, n);
    forall t | t in Spdx.Tokens(expression).value && Spdx.IsWord(t) && t != "AND" && t != "OR" ensures t in APPROVED {
      SpdxText.IdentifiersAreWords(expression, t);
    }
  }

  // ----- duties

  function KeepNotices(): string { "retain-upstream-" + "license-and-copyright-notices" }

  function KeepTerms(): string { "comply-with-reviewed-" + "exception-and-upstream-license-terms" }

  /** The duties of a record with this concluded licence: keeping the notices, and one
      more for each of three licences that the expression cites. */
  ghost predicate HasDutiesOf(obligations: seq<string>, expression: string) {
    && KeepNotices() in obligations
    && ("preserve-apache-notice-and-state-changes" in obligations <==> Cites(expression, "Apache-2.0"))
    && ("publish-modified-mpl-covered-file-source" in obligations <==> Cites(expression, "MPL-2.0"))
    && ("include-psf-license-and-change-summary" in obligations <==> Cites(expression, "PSF-2.0"))
    && forall o :: o in obligations ==>
         || o == KeepNotices() || o == "preserve-apache-notice-and-state-changes"
         || o == "publish-modified-mpl-covered-file-source" || o == "include-psf-license-and-change-summary"
  }

  /** The two duties of a reviewed record. */
  ghost predicate HasReviewDuties(obligations: seq<string>) {
    forall o :: o in obligations <==> o == KeepNotices() || o == KeepTerms()
  }

  lemma BaseDuty()
    ensures BASE_OBLIGATION == KeepNotices() && |KeepNotices()| == 45
  {
  }

  lemma TermsDuty()
    ensures KeepTerms() in REVIEW_OBLIGATIONS
    ensures forall o :: o in REVIEW_OBLIGATIONS && o != KeepTerms() ==> o == BASE_OBLIGATION
  {
    assert KeepTerms() == "comply-with-reviewed-exception" + "-and-upstream-license-terms";
  }

  lemma ReviewDuties(obligations: seq<string>)
    requires Elements(obligations) == REVIEW_OBLIGATIONS
    ensures HasReviewDuties(obligations)
  {
    BaseDuty();
    TermsDuty();
    assert REVIEW_OBLIGATIONS == {KeepTerms(), KeepNotices()};
    assert forall o :: o in obligations <==> o in Elements(obligations);
  }

  lemma DutyOf(identifiers: set<string>, o: string)
    ensures o in Obligations(identifiers) <==>
      || o == BASE_OBLIGATION
      || ("Apache-2.0" in identifiers && o == "preserve-apache-notice-and-state-changes")
      || ("MPL-2.0" in identifiers && o == "publish-modified-mpl-covered-file-source")
      || ("PSF-2.0" in identifiers && o == "include-psf-license-and-change-summary")
  {
    if o in Obligations(identifiers) && o != BASE_OBLIGATION {
      var i :| i in identifiers && o in SpecificObligations(i);
    }
    assert "Apache-2.0" in identifiers ==> SpecificObligations("Apache-2.0") <= Obligations(identifiers);
    assert "MPL-2.0" in identifiers ==> SpecificObligations("MPL-2.0") <= Obligations(identifiers);
    assert "PSF-2.0" in identifiers ==> SpecificObligations("PSF-2.0") <= Obligations(identifiers);
  }

  lemma DutiesAreDifferent()
    ensures |"preserve-apache-notice-and-state-changes"| == |"publish-modified-mpl-covered-file-source"| == 40
    ensures "preserve-apache-notice-and-state-changes"[1] == 'r' && "publish-modified-mpl-covered-file-source"[1] == 'u'
    ensures |"include-psf-license-and-change-summary"| == 38
  {
  }

  lemma DutiesFollow(obligations: seq<string>, expression: string)
    requires Spdx.Identifiers(expression).Some?
    requires Elements(obligations) == Obligations(Spdx.Identifiers(expression).value)
    ensures HasDutiesOf(obligations, expression)
  {
    var names := Spdx.Identifiers(expression).value;
    BaseDuty();
    CitedIsNamed(expression, "Apache-2.0");
    CitedIsNamed(expression, "MPL-2.0");
    CitedIsNamed(expression, "PSF-2.0");
    forall o ensures o in obligations <==> o in Obligations(names) {
      assert o in obligations <==> o in Elements(obligations);
    }
    forall o ensures o in obligations <==> IsOneOf(o, KeepNotices(), names) {
      DutyOf(names, o);
    }
    FourDuties(obligations, names, KeepNotices());
  }

  ghost predicate IsOneOf(o: string, base: string, names: set<string>) {
    || o == base
    || ("Apache-2.0" in names && o == "preserve-apache-notice-and-state-changes")
    || ("MPL-2.0" in names && o == "publish-modified-mpl-covered-file-source")
    || ("PSF-2.0" in names && o == "include-psf-license-and-change-summary")
  }

  lemma FourDuties(obligations: seq<string>, names: set<string>, base: string)
    requires |base| == 45 && forall o :: o in obligations <==> IsOneOf(o, base, names)
    ensures base in obligations
    ensures "preserve-apache-notice-and-state-changes" in obligations <==> "Apache-2.0" in names
    ensures "publish-modified-mpl-covered-file-source" in obligations <==> "MPL-2.0" in names
    ensures "include-psf-license-and-change-summary" in obligations <==> "PSF-2.0" in names
  {
    DutiesAreDifferent();
  }

  /** What the generator writes: a record with a concluded licence cites allowed licences
      only and lists exactly their duties, in increasing order; any other lists the two
      of a reviewed exception. */
  lemma WrittenDuties(i: Item, rules: Rules, d: Dependency)
    requires IsRecordOf(i, rules, d)
    ensures d.concluded.Some? ==> CitesAllowedOnly(d.concluded.value) && HasDutiesOf(d.obligations, d.concluded.value)
    ensures d.concluded.None? ==> HasReviewDuties(d.obligations)
    ensures StrictlyIncreasing(StrLess, d.obligations)
  {
    if d.concluded.Some? {
      assert WithinAllowlist(d.concluded.value);
      WithinCitesAllowed(d.concluded.value);
      DutiesFollow(d.obligations, d.concluded.value);
    } else {
      ReviewDuties(d.obligations);
    }
  }

  /** What the finalizer accepts lists the same duties. */
  lemma AcceptedDuties(d: Dependency, c: Committed, licenses: SbomLicenses)
    requires RecordAccepted(d, c, licenses)
    ensures d.concluded.Some? ==> CitesAllowedOnly(d.concluded.value) && HasDutiesOf(d.obligations, d.concluded.value)
    ensures d.concluded.None? ==> HasReviewDuties(d.obligations)
  {
    if d.concluded.Some? {
      WithinCitesAllowed(d.concluded.value);
      DutiesFollow(d.obligations, d.concluded.value);
    } else {
      ReviewDuties(d.obligations);
    }
  }

  // ----- reviews

  /** Both dates can be read; the review is no later than today, its expiry no earlier. */
  ghost predicate Current(reviewedOn: string, expiresOn: string, calendar: Calendar) {
    && calendar.dayOf(reviewedOn).Some? && calendar.dayOf(reviewedOn).value <= calendar.today
    && calendar.dayOf(expiresOn).Some? && calendar.dayOf(expiresOn).value >= calendar.today
  }

  /** No text of the review is blank or has space around it. */
  ghost predicate IsTidy(r: Review) {
    IsTrim(r.reason) && IsTrim(r.reviewedBy) && IsTrim(r.reviewedOn) && IsTrim(r.reference) && IsTrim(r.expiresOn)
  }

  /** A tidy review is valid exactly when its reason has twenty characters and it is
      current. */
  lemma ReviewValidExactly(r: Review, calendar: Calendar)
    requires IsTidy(r)
    ensures ValidatedReview(r, calendar) == Some(r) <==>
      |r.reason| >= 20 && Current(r.reviewedOn, r.expiresOn, calendar)
    ensures ValidatedReview(r, calendar).Some? ==> ValidatedReview(r, calendar) == Some(r)
  {
    TrimIsStripped(r.reason);
    TrimIsStripped(r.reviewedBy);
    TrimIsStripped(r.reviewedOn);
    TrimIsStripped(r.reference);
    TrimIsStripped(r.expiresOn);
  }

  /** A review with a blank text is never valid. */
  lemma BlankTextIsInvalid(r: Review, calendar: Calendar)
    requires IsBlankText(r.reason) || IsBlankText(r.reviewedBy) || IsBlankText(r.reviewedOn)
      || IsBlankText(r.reference) || IsBlankText(r.expiresOn)
    ensures ValidatedReview(r, calendar).None?
  {
  }

  lemma ValidIsTidy(r: Review, calendar: Calendar)
    requires ValidatedReview(r, calendar).Some?
    ensures var n := ValidatedReview(r, calendar).value;
      IsTidy(n) && |n.reason| >= 20 && Current(n.reviewedOn, n.expiresOn, calendar)
  {
    StripTrims(r.reason);
    StripTrims(r.reviewedBy);
    StripTrims(r.reviewedOn);
    StripTrims(r.reference);
    StripTrims(r.expiresOn);
  }

  /** In an accepted inventory a record without a concluded licence has the committed
      review of its package, tidied up and current. */
  lemma AcceptedReviewIsCurrent(dependencies: seq<Dependency>, c: Committed, licenses: SbomLicenses, d: Dependency)
    requires InventoryAccepted(dependencies, c, licenses) && d in dependencies && d.concluded.None?
    ensures d.review.Some? && DependencyKey(d) in c.rules.exceptions
    ensures var r := c.rules.exceptions[DependencyKey(d)];
      && IsTidy(r) && |r.reason| >= 20 && Current(r.reviewedOn, r.expiresOn, c.calendar)
      && Strip(d.review.value.reviewedOn) == r.reviewedOn && Strip(d.review.value.expiresOn) == r.expiresOn
  {
    assert RecordAccepted(d, c, licenses);
    ValidIsTidy(d.review.value, c.calendar);
  }

  /** Every entry of a file that the generator loads is current. */
  lemma LoadedByGeneratorIsCurrent(entries: seq<Exceptions.Entry>, calendar: Calendar, table: map<Key, Review>,
                                   e: Exceptions.Entry)
    requires e in entries && Exceptions.GeneratorLoads(entries, calendar, table)
    ensures |Strip(e.review.reason)| >= 20 && Current(e.review.reviewedOn, e.review.expiresOn, calendar)
  {
    var i :| 0 <= i < |entries| && entries[i] == e;
    assert Exceptions.GeneratorAccepts(entries[i], calendar);
  }

  /** So is every entry that the finalizer loads, without the space around its dates. */
  lemma LoadedByFinalizerIsCurrent(entries: seq<Exceptions.Entry>, calendar: Calendar, table: map<Key, Review>,
                                   e: Exceptions.Entry)
    requires e in entries && Exceptions.FinalizerLoads(entries, calendar, table)
    ensures |Strip(e.review.reason)| >= 20
    ensures Current(Strip(e.review.reviewedOn), Strip(e.review.expiresOn), calendar)
  {
    var i :| 0 <= i < |entries| && entries[i] == e;
    assert Exceptions.FinalizerAccepts(entries[i], calendar);
    ValidIsTidy(e.review, calendar);
  }

  // ----- tidy entries are stored as they are written

  lemma ExceptionIsStoredAsWritten(e: Exceptions.Entry, calendar: Calendar)
    requires e.ecosystem == "npm" || e.ecosystem == "backend-python" || e.ecosystem == "dagster-python"
    requires IsTrim(e.name) && IsCanonical(e.name) && IsTrim(e.version) && IsTidy(e.review)
    ensures Exceptions.GeneratorKey(e) == Exceptions.FinalizerKey(e) == (e.ecosystem, e.name, e.version)
    ensures StripReview(e.review) == e.review
    ensures Exceptions.GeneratorAccepts(e, calendar) <==>
      |e.review.reason| >= 20 && Current(e.review.reviewedOn, e.review.expiresOn, calendar)
    ensures Exceptions.FinalizerAccepts(e, calendar) <==>
      |e.review.reason| >= 20 && Current(e.review.reviewedOn, e.review.expiresOn, calendar)
  {
    EcosystemNames(e.ecosystem);
    TrimIsStripped(e.name);
    TrimIsStripped(e.version);
    TrimIsStripped(e.ecosystem);
    CanonicalNameIsCanonical(e.name);
    ReviewValidExactly(e.review, calendar);
    TrimIsStripped(e.review.reason);
    TrimIsStripped(e.review.reviewedBy);
    TrimIsStripped(e.review.reviewedOn);
    TrimIsStripped(e.review.reference);
    TrimIsStripped(e.review.expiresOn);
  }

  lemma EcosystemNames(e: string)
    ensures e == "npm" || e == "backend-python" || e == "dagster-python" ==> Lower(e) == e && IsTrim(e)
    ensures e in ECOSYSTEMS <==> e == "npm" || e == "backend-python" || e == "dagster-python"
    ensures e in PYTHON <==> e == "backend-python" || e == "dagster-python"
  {
  }

  // ----- conclusions

  /** A hash is `sha256:` and 64 small hexadecimal digits. */
  lemma HashExactly(s: string)
    ensures IsSha256(s) <==>
      |s| == 71 && s[..7] == "sha256:" && forall i :: 7 <= i < 71 ==> s[i] in HEX
  {
    forall i | 0 <= i < |s| ensures IsDigit(s[i]) || 'a' <= s[i] <= 'f' <==> s[i] in HEX {
      HexDigit(s[i]);
    }
  }

  /** A path of a licence text: below `third_party/licenses`, without components that are
      empty or dots, without control characters and backslashes. */
  lemma TextPathExactly(path: string)
    ensures Conclusions.IsTextPath(path) <==>
      var parts := SplitSlash(path);
      && IsTrim(path) && (forall c :: c in path ==> c != '\\' && c >= ' ')
      && |parts| >= 3 && parts[0] == "third_party" && parts[1] == "licenses"
      && forall part :: part in parts ==> part != "" && part != "." && part != ".."
  {
    var parts := SplitSlash(path);
    if NonBlank(path) {
      StripTrims(path);
    } else {
      BlankStrips(path);
    }
    assert forall i :: 0 <= i < |path| ==> path[i] in path;
    assert forall i :: 0 <= i < |parts| ==> parts[i] in parts;
    if Conclusions.IsTextPath(path) {
      forall part | part in parts ensures part != "" && part != "." && part != ".." {
        var i :| 0 <= i < |parts| && parts[i] == part;
      }
    }
  }

  ghost predicate IsTidyConclusion(e: Conclusions.Entry) {
    && (e.ecosystem == "backend-python" || e.ecosystem == "dagster-python")
    && IsTrim(e.name) && IsCanonical(e.name) && IsTrim(e.version)
    && IsSha256(e.artifact) && IsSha256(e.textSha256)
    && IsTrim(e.declared) && Collapse(e.declared) == e.declared && IsTrim(e.concluded) && IsTrim(e.textPath)
  }

  lemma HashIsTrim(s: string)
    requires IsSha256(s)
    ensures IsTrim(s)
  {
    assert s[..7][0] == 's' && (IsDigit(s[70]) || 'a' <= s[70] <= 'f');
    SpaceCharacters(s[70]);
  }

  /** A tidy conclusion is stored as it is written. */
  lemma ConclusionIsStoredAsWritten(e: Conclusions.Entry)
    requires IsTidyConclusion(e)
    ensures Conclusions.KeyOf(e) == ((e.ecosystem, e.name, e.version), e.artifact)
    ensures Conclusions.ConclusionOf(e) == Conclusion(e.declared, e.concluded, e.textPath, e.textSha256)
  {
    EcosystemNames(e.ecosystem);
    HashIsTrim(e.artifact);
    HashIsTrim(e.textSha256);
    TrimIsStripped(e.ecosystem);
    TrimIsStripped(e.name);
    TrimIsStripped(e.version);
    TrimIsStripped(e.artifact);
    TrimIsStripped(e.declared);
    TrimIsStripped(e.concluded);
    TrimIsStripped(e.textPath);
    TrimIsStripped(e.textSha256);
    CanonicalNameIsCanonical(e.name);
  }

  /** It is accepted by the generator exactly when its text is at its path, is not empty
      and has its hash, and its licence cites allowed licences. */
  lemma ConclusionAcceptedExactly(e: Conclusions.Entry, texts: map<string, Conclusions.TextFile>)
    requires IsTidyConclusion(e)
    ensures Conclusions.GeneratorAccepts(e, texts) <==>
      && Conclusions.IsTextPath(e.textPath) && e.textPath in texts
      && texts[e.textPath].sha256 == e.textSha256 && texts[e.textPath].size > 0
      && Spdx.Identifiers(e.concluded).Some? && CitesAllowedOnly(e.concluded)
  {
    ConclusionIsStoredAsWritten(e);
    EcosystemNames(e.ecosystem);
    HashIsTrim(e.artifact);
    HashIsTrim(e.textSha256);
    TrimIsStripped(e.ecosystem);
    TrimIsStripped(e.name);
    TrimIsStripped(e.version);
    TrimIsStripped(e.artifact);
    TrimIsStripped(e.declared);
    TrimIsStripped(e.concluded);
    TrimIsStripped(e.textPath);
    TrimIsStripped(e.textSha256);
    AllowedExactly(e.concluded);
  }

  lemma AllowedExactly(expression: string)
    ensures ApprovedIdentifiers(expression).Some? <==>
      Spdx.Identifiers(expression).Some? && CitesAllowedOnly(expression)
  {
    if Spdx.Identifiers(expression).Some? {
      var names := Spdx.Identifiers(expression).value;
      Spdx.IdentifiersNonEmpty(expression);
      if names <= APPROVED {
        WithinCitesAllowed(expression);
      }
      if CitesAllowedOnly(expression) {
        forall n | n in names ensures n in APPROVED {
          SpdxText.IdentifiersAreWords(expression, n);
        }
      }
    }
  }

  // ----- what an accepted inventory uses

  ghost predicate ReviewedFor(d: Dependency, key: (string, string, string)) {
    d.concluded.None? && d.review.Some? && PackageOf(d) == key
  }

  ghost predicate ConcludedFor(d: Dependency, key: (string, string, string)) {
    d.evidence.Some? && d.evidence.value.kind == "committed-exact-artifact-map" && PackageOf(d) == key
  }

  /** Every exception is used by a record of its package that has a review and no
      concluded licence, every conclusion by one with evidence of the one kind there is. */
  lemma EveryRuleIsUsed(dependencies: seq<Dependency>, c: Committed, licenses: SbomLicenses)
    requires InventoryAccepted(dependencies, c, licenses)
    ensures forall key :: key in c.rules.exceptions ==> exists d :: d in dependencies && ReviewedFor(d, key)
    ensures forall k :: k in c.rules.conclusions ==> exists d :: d in dependencies && ConcludedFor(d, k.0)
  {
    forall key | key in c.rules.exceptions ensures exists d :: d in dependencies && ReviewedFor(d, key) {
      var i :| 0 <= i < |dependencies| && UsesException(dependencies[i], key);
      assert RecordAccepted(dependencies[i], c, licenses);
      assert dependencies[i] in dependencies && ReviewedFor(dependencies[i], key);
    }
    forall k | k in c.rules.conclusions ensures exists d :: d in dependencies && ConcludedFor(d, k.0) {
      var i :| 0 <= i < |dependencies| && UsesConclusion(dependencies[i], k);
      assert RecordAccepted(dependencies[i], c, licenses);
      assert dependencies[i] in dependencies && ConcludedFor(dependencies[i], k.0);
    }
  }

  function PackageOf(d: Dependency): (string, string, string) { (d.ecosystem, CanonicalName(d.name), d.version) }

  /** And no rule is used without need: a record has a review, or evidence, only where a
      rule of its package is committed and its declared licence is not allowed. */
  lemma RulesAreNeeded(dependencies: seq<Dependency>, c: Committed, licenses: SbomLicenses, i: nat)
    requires InventoryAccepted(dependencies, c, licenses) && i < |dependencies|
    ensures var d := dependencies[i];
      && (d.review.Some? ==> PackageOf(d) in c.rules.exceptions && d.evidence.None? && d.concluded.None?)
      && (d.evidence.Some? ==> (exists k :: k in c.rules.conclusions && k.0 == PackageOf(d)) && d.review.None?)
      && (d.review.Some? || d.evidence.Some? ==>
            d.declared.None? || !(Spdx.Identifiers(d.declared.value).Some? && CitesAllowedOnly(d.declared.value)))
      && (d.review.None? && d.evidence.None? ==>
            d.declared == d.concluded && d.declared.Some? && CitesAllowedOnly(d.declared.value))
  {
    var d := dependencies[i];
    assert RecordAccepted(d, c, licenses);
    if d.declared.Some? {
      AllowedExactly(d.declared.value);
    }
    if d.evidence.Some? {
      var k :| k in Exact(c.rules, DependencyKey(d));
    } else if d.review.None? {
      WithinCitesAllowed(d.concluded.value);
    }
  }

  // ----- order

  /** Records stand in order of ecosystem, then canonical name, then version. */
  lemma RecordOrder(a: Dependency, b: Dependency)
    ensures var p, q := PackageOf(a), PackageOf(b);
      RecordLess(a, b) <==>
        || StrLess(p.0, q.0)
        || (p.0 == q.0 && StrLess(p.1, q.1))
        || (p.0 == q.0 && p.1 == q.1 && StrLess(p.2, q.2))
  {
    var p, q := PackageOf(a), PackageOf(b);
    assert [p.0, p.1, p.2] == [p.0] + [p.1, p.2] && [q.0, q.1, q.2] == [q.0] + [q.1, q.2];
    FirstPartDecides(p.0, [p.1, p.2], q.0, [q.1, q.2]);
    assert [p.1, p.2] == [p.1] + [p.2] && [q.1, q.2] == [q.1] + [q.2];
    FirstPartDecides(p.1, [p.2], q.1, [q.2]);
    assert [p.2] == [p.2] + [] && [q.2] == [q.2] + [];
    FirstPartDecides(p.2, [], q.2, []);
  }

  lemma FirstPartDecides(a: string, s: seq<string>, b: string, t: seq<string>)
    ensures PartsLess([a] + s, [b] + t) <==> StrLess(a, b) || (a == b && PartsLess(s, t))
  {
    assert ([a] + s)[1..] == s && ([b] + t)[1..] == t;
  }

  // ----- documents

  /** A component with a blank name, version or licence, or with another kind of licence
      field, makes its document unacceptable. */
  lemma BadComponentRejects(components: seq<Component>, expected: set<Identity>, i: nat)
    requires i < |components|
    requires var c := components[i];
      IsBlankText(c.name) || IsBlankText(c.version) || c.licenses.OtherLicenses?
      || (c.licenses.OneExpression? && IsBlankText(c.licenses.expression))
    ensures !SbomAccepted(components, expected)
  {
    assert !ComponentWellFormed(components[i]);
  }

  /** One component alone is accepted for its package alone. */
  lemma OneComponentAccepted(name: string, version: string, license: Option<string>)
    requires IsTrim(name) && IsTrim(version) && (license.Some? ==> IsTrim(license.value))
    ensures var field := if license.Some? then OneExpression(license.value) else NoLicenses;
      && SbomAccepted([Component(name, version, field)], {(CanonicalName(name), version)})
      && SbomLicense(Component(name, version, field)) == license
  {
    TrimIsStripped(name);
    TrimIsStripped(version);
    if license.Some? {
      TrimIsStripped(license.value);
    }
    var c := Component(name, version, if license.Some? then OneExpression(license.value) else NoLicenses);
    assert [c][0] == c && ComponentWellFormed(c) && IdentityOf(c) == (CanonicalName(name), version);
  }
}
