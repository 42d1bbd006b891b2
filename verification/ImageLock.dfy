/** The release image lock. */
module ImageLock {
  // The lock, the rendered Compose document, and the image scan plan
  // (scripts/render_release_compose.py:89-131, 168-202 and
  // scripts/release_bundle.py:307-331, 383-400).

  import opened Ordering
  import opened Text
  import opened Licenses
  import opened ImageReferences
  import ScanPlan

  datatype Lock = Lock(releaseTag: string, sourceCommit: string, images: map<string, string>)

  // ----- the small patterns

  predicate IsServiceStart(c: char) { IsDigit(c) || 'a' <= c <= 'z' }

  predicate IsService(s: string) {
    && s != [] && IsServiceStart(s[0])
    && forall i :: 0 <= i < |s| ==> IsServiceStart(s[i]) || s[i] == '_' || s[i] == '-'
  }

  predicate IsCommit(s: string) { IsHex(s, 40) || IsHex(s, 64) }

  function DropDigits(s: string): string {
    if s != [] && IsDigit(s[0]) then DropDigits(s[1..]) else s
  }

  /** What follows a number without a leading zero. */
  function AfterPositive(s: string): Option<string> {
    if s != [] && IsDigit(s[0]) && s[0] != '0' then Some(DropDigits(s[1..])) else None
  }

  function AfterNumber(s: string): Option<string> {
    if s != [] && s[0] == '0' then Some(s[1..]) else AfterPositive(s)
  }

  function AfterText(s: Option<string>, text: string): Option<string> {
    if s.Some? && text <= s.value then Some(s.value[|text|..]) else None
  }

  function ThenNumber(s: Option<string>): Option<string> { if s.Some? then AfterNumber(s.value) else None }

  /** vMAJOR.MINOR.PATCH, or that followed by -rc.N. */
  predicate IsReleaseTag(s: string) {
    var major := ThenNumber(AfterText(Some(s), "v"));
    var minor := ThenNumber(AfterText(major, "."));
    var patch := ThenNumber(AfterText(minor, "."));
    var candidate := AfterText(patch, "-rc.");
    patch == Some("") || (candidate.Some? && AfterPositive(candidate.value) == Some(""))
  }

  // ----- the lock

  ghost predicate ImagesAccepted(images: map<string, string>, valid: string -> bool) {
    images != map[] && forall s :: s in images ==> IsService(s) && valid(images[s])
  }

  /** The loop both lock checks share. The test for a repeated service cannot fire. */
  method CheckImages(images: map<string, string>, valid: string -> bool) returns (r: Option<map<string, string>>)
    ensures r.Some? <==> ImagesAccepted(images, valid)
    ensures r.Some? ==> r.value == images
  {
    if images == map[] {
      return None;
    }
    var names := SortedList(images.Keys);
    ListingMembers(names, images.Keys);
    var normalized: map<string, string> := map[];
    for n := 0 to |names|
      invariant normalized.Keys == Elements(names[..n])
      invariant forall s :: s in normalized ==>
        s in images && normalized[s] == images[s] && IsService(s) && valid(images[s])
    {
      var service := names[n];
      assert service in images;
      assert Elements(names[..n + 1]) == Elements(names[..n]) + {service} by {
        assert names[..n + 1] == names[..n] + [service];
      }
      if !IsService(service) {
        return None;
      }
      if service in normalized {
        AscendingOnce(names, n);
        return None;
      }
      if !valid(images[service]) {
        return None;
      }
      normalized := normalized[service := images[service]];
    }
    assert names[..|names|] == names;
    return Some(normalized);
  }

  lemma ListingMembers(s: seq<string>, elements: set<string>)
    requires IsListing(s, elements)
    ensures forall i :: 0 <= i < |s| ==> s[i] in elements
    ensures Elements(s) == elements && StrictlyIncreasing(StrLess, s)
  {
    forall i | 0 <= i < |s| ensures s[i] in Elements(s) {
    }
  }

  lemma AscendingOnce(s: seq<string>, n: nat)
    requires n < |s| && StrictlyIncreasing(StrLess, s)
    ensures s[n] !in Elements(s[..n])
  {
    forall i | 0 <= i < n ensures s[i] != s[n] {
      NamesDiffer(s, i, n);
    }
  }

  ghost predicate LockAccepted(releaseTag: string, sourceCommit: string, images: map<string, string>) {
    && ImagesAccepted(images, RenderValid) && IsReleaseTag(releaseTag) && IsCommit(Lower(Strip(sourceCommit)))
  }

  /** `create_image_lock`, which `validate_image_lock` calls on the fields of a lock. */
  method CreateImageLock(releaseTag: string, sourceCommit: string, images: map<string, string>)
      returns (r: Option<Lock>)
    ensures r.Some? <==> LockAccepted(releaseTag, sourceCommit, images)
    ensures r.Some? ==> r.value == Lock(releaseTag, Lower(Strip(sourceCommit)), images)
  {
    var normalized := CheckImages(images, RenderValid);
    if normalized.None? || !IsReleaseTag(releaseTag) || !IsCommit(Lower(Strip(sourceCommit))) {
      return None;
    }
    return Some(Lock(releaseTag, Lower(Strip(sourceCommit)), normalized.value));
  }

  ghost predicate BundleLockAccepted(l: Lock) {
    IsReleaseTag(l.releaseTag) && IsCommit(l.sourceCommit) && ImagesAccepted(l.images, BundleValid)
  }

  /** The bundle's `_validate_image_lock`. */
  method ValidateImageLock(l: Lock) returns (r: Option<Lock>)
    ensures r.Some? <==> BundleLockAccepted(l)
    ensures r.Some? ==> r.value == l
  {
    if !IsReleaseTag(l.releaseTag) || !IsCommit(l.sourceCommit) {
      return None;
    }
    var images := CheckImages(l.images, BundleValid);
    if images.None? {
      return None;
    }
    return Some(Lock(l.releaseTag, l.sourceCommit, images.value));
  }

  lemma {:induction false} CommitIsNormal(commit: string)
    requires IsCommit(commit)
    ensures Lower(Strip(commit)) == commit
  {
    assert !IsSpace(commit[0]) && !IsSpace(commit[|commit| - 1]);
    assert Strip(commit) == commit;
  }

  /** Does every image keep a tag between its name and its digest? */
  ghost predicate Tagged(images: map<string, string>) {
    forall s :: s in images ==> TagIn(images[s]) != ""
  }

  /** The locks that the renderer reads back unchanged are exactly those that the
      bundle accepts and that have no empty tag. */
  lemma LocksAgree(l: Lock)
    ensures LockAccepted(l.releaseTag, l.sourceCommit, l.images) && Lower(Strip(l.sourceCommit)) == l.sourceCommit
      <==> BundleLockAccepted(l) && Tagged(l.images)
  {
    forall s | s in l.images
      ensures RenderValid(l.images[s]) <==>
        BundleValid(l.images[s]) && TagIn(l.images[s]) != ""
    {
      ValidatorsAgree(l.images[s]);
    }
    if IsCommit(l.sourceCommit) {
      CommitIsNormal(l.sourceCommit);
    }
  }

  /** A created lock is read back unchanged, and the bundle accepts it. */
  lemma CreatedLockIsAccepted(releaseTag: string, sourceCommit: string, images: map<string, string>)
    requires LockAccepted(releaseTag, sourceCommit, images)
    ensures var l := Lock(releaseTag, Lower(Strip(sourceCommit)), images);
      && LockAccepted(l.releaseTag, l.sourceCommit, l.images) && Lower(Strip(l.sourceCommit)) == l.sourceCommit
      && BundleLockAccepted(l)
  {
    CommitIsNormal(Lower(Strip(sourceCommit)));
    LocksAgree(Lock(releaseTag, Lower(Strip(sourceCommit)), images));
  }

  // ----- the rendered Compose document

  /** A Compose service; `rest` stands for all other fields. */
  datatype Service = Service(image: Option<string>, build: Option<string>, rest: string)

  /** `_validate_compose_images`. */
  ghost predicate ComposeAccepted(services: map<string, Service>, images: map<string, string>) {
    && services.Keys == images.Keys
    && forall s :: s in services ==> services[s].image == Some(images[s]) && services[s].build.None?
  }

  /** Services whose image and build are replaced for the first n names. */
  ghost predicate RenderedSoFar(source: map<string, Service>, images: map<string, string>, names: seq<string>, n: nat,
                                valid: string -> bool, result: map<string, Service>)
    requires n <= |names|
  {
    && result.Keys == source.Keys == images.Keys
    && (forall i :: 0 <= i < n ==> names[i] in images && valid(images[names[i]]))
    && (forall i :: 0 <= i < n ==> Rendered(source, images, names[i], result))
    && forall i :: n <= i < |names| ==> names[i] in source && result[names[i]] == source[names[i]]
  }

  ghost predicate Rendered(source: map<string, Service>, images: map<string, string>, s: string,
      result: map<string, Service>)
    requires result.Keys == source.Keys == images.Keys
  {
    s in source && result[s] == Service(Some(images[s]), None, source[s].rest)
  }

  lemma RenderOne(source: map<string, Service>, images: map<string, string>, names: seq<string>, n: nat,
                  valid: string -> bool, result: map<string, Service>)
    requires n < |names| && StrictlyIncreasing(StrLess, names) && RenderedSoFar(source, images, names, n, valid, result)
    requires valid(images[names[n]])
    ensures RenderedSoFar(source, images, names, n + 1, valid,
                          result[names[n] := Service(Some(images[names[n]]), None, source[names[n]].rest)])
  {
    var more := result[names[n] := Service(Some(images[names[n]]), None, source[names[n]].rest)];
    assert more.Keys == result.Keys;
    forall i | 0 <= i < |names| && i != n ensures names[i] != names[n] {
      NamesDiffer(names, i, n);
    }
    forall i | 0 <= i < n ensures Rendered(source, images, names[i], more) {
      assert Rendered(source, images, names[i], result);
    }
  }

  /** The loop of `render_release_document`, with any check of a reference. A
      rendered document passes the bundle's check; fields other than images and
      builds stay; and a document that passes already is left as it is. */
  method RenderServices(source: map<string, Service>, images: map<string, string>, valid: string -> bool)
    returns (r: Option<map<string, Service>>)
    ensures r.Some? <==> source.Keys == images.Keys && forall s :: s in images ==> valid(images[s])
    ensures r.Some? ==>
      ComposeAccepted(r.value, images) && forall s :: s in source ==> r.value[s].rest == source[s].rest
    ensures r.Some? && ComposeAccepted(source, images) ==> r.value == source
  {
    if source.Keys != images.Keys {
      return None;
    }
    var names := SortedList(source.Keys);
    ListingMembers(names, source.Keys);
    var result := source;
    for n := 0 to |names|
      invariant RenderedSoFar(source, images, names, n, valid, result)
    {
      var name := names[n];
      if !valid(images[name]) {
        return None;
      }
      RenderOne(source, images, names, n, valid, result);
      result := result[name := result[name].(image := Some(images[name]), build := None)];
    }
    forall s | s in source ensures Rendered(source, images, s, result) && valid(images[s]) {
      assert s in Elements(names);
    }
    return Some(result);
  }

  lemma NamesDiffer(s: seq<string>, i: nat, j: nat)
    requires i < |s| && j < |s| && i != j && StrictlyIncreasing(StrLess, s)
    ensures s[i] != s[j]
  {
    StrLessIsTotal();
    assert StrLess(s[i], s[j]) || StrLess(s[j], s[i]);
  }

  // ----- the scan plan of a lock

  function DigestOf(reference: string): string {
    if LastMark(reference) >= 0 then "sha256:" + reference[LastMark(reference) + 8..] else ""
  }

  /** `build_image_scan_plan` succeeds on the images of every accepted lock. */
  method BuildLockScanPlan(l: Lock) returns (r: Option<seq<ScanPlan.ScanRecord>>)
    ensures r.Some? <==> forall s :: s in l.images ==> RenderValid(l.images[s])
    ensures LockAccepted(l.releaseTag, l.sourceCommit, l.images) ==> r.Some?
    ensures r.Some? ==> ScanPlan.IsScanPlan(ScanPlan.Pinned(l.images, DigestOf), r.value)
  {
    var pinned := ScanPlan.Pinned(l.images, DigestOf);
    r := ScanPlan.BuildScanPlan(pinned, RenderValid);
  }
}
