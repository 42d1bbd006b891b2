/** The image scan plan: the services of a lock, grouped by the digest of their
    image (scripts/render_release_compose.py:134-165). */
module ScanPlan {
  import opened Ordering
  import opened Text
  import opened Licenses

  /** The image of every service, and the digest of an image. */
  datatype Pinned = Pinned(images: map<string, string>, digestOf: string -> string) {
    predicate Uses(service: string, digest: string) { service in images && digestOf(images[service]) == digest }

    function Services(digest: string): set<string> { set s | s in images && Uses(s, digest) }

    function References(digest: string): set<string> { set s | s in Services(digest) :: images[s] }
  }

  datatype ScanRecord = ScanRecord(digest: string, image: string, references: seq<string>, services: seq<string>)

  ghost predicate IsScanRecord(p: Pinned, record: ScanRecord) {
    && record.services != [] && IsListing(record.services, p.Services(record.digest))
    && IsListing(record.references, p.References(record.digest))
    && record.services[0] in p.images && record.image == p.images[record.services[0]]
  }

  ghost predicate Recorded(p: Pinned, records: seq<ScanRecord>, n: nat, service: string)
    requires n <= |records|
  {
    exists i :: 0 <= i < n && p.Uses(service, records[i].digest)
  }

  ghost predicate ByDigest(records: seq<ScanRecord>) {
    forall i, j :: 0 <= i < j < |records| ==> StrLess(records[i].digest, records[j].digest)
  }

  /** One record for each digest in use, in increasing order. */
  ghost predicate IsScanPlan(p: Pinned, records: seq<ScanRecord>) {
    && ByDigest(records)
    && (forall i :: 0 <= i < |records| ==> IsScanRecord(p, records[i]))
    && forall s :: s in p.images ==> Recorded(p, records, |records|, s)
  }

  // ----- grouping

  /** One entry of `grouped` while the services are read. */
  datatype Group = Group(image: string, references: seq<string>, services: seq<string>)

  /** The services among the given names that use a digest, in order. */
  function Using(p: Pinned, names: seq<string>, digest: string): seq<string> {
    if names == [] then []
    else
      var last := names[|names| - 1];
      Using(p, names[..|names| - 1], digest) + if p.Uses(last, digest) then [last] else []
  }

  function ImagesOf(p: Pinned, names: seq<string>): seq<string> {
    seq(|names|, i requires 0 <= i < |names| => if names[i] in p.images then p.images[names[i]] else "")
  }

  lemma UsingNext(p: Pinned, names: seq<string>, service: string, digest: string)
    ensures Using(p, names + [service], digest)
      == Using(p, names, digest) + if p.Uses(service, digest) then [service] else []
  {
    assert (names + [service])[..|names|] == names;
  }

  lemma {:induction false} UsingMembers(p: Pinned, names: seq<string>, digest: string)
    ensures forall s :: s in Using(p, names, digest) <==> s in names && p.Uses(s, digest)
  {
    if names != [] {
      var init, last := names[..|names| - 1], names[|names| - 1];
      assert names == init + [last];
      UsingMembers(p, init, digest);
    }
  }

  lemma {:induction false} UsingAscends(p: Pinned, names: seq<string>, digest: string)
    requires StrictlyIncreasing(StrLess, names)
    ensures StrictlyIncreasing(StrLess, Using(p, names, digest))
  {
    if names != [] {
      var init, last := names[..|names| - 1], names[|names| - 1];
      UsingAscends(p, init, digest);
      UsingMembers(p, init, digest);
      var used := Using(p, init, digest);
      forall i | 0 <= i < |used| ensures StrLess(used[i], last) {
        assert used[i] in init;
      }
    }
  }

  /** The group of a digest after the given names. */
  ghost predicate IsGroup(p: Pinned, names: seq<string>, digest: string, group: Group) {
    var services := Using(p, names, digest);
    && services != [] && services[0] in p.images
    && group == Group(p.images[services[0]], ImagesOf(p, services), services)
  }

  ghost predicate IsGrouping(p: Pinned, names: seq<string>, grouped: map<string, Group>) {
    && (forall digest :: digest in grouped ==> IsGroup(p, names, digest, grouped[digest]))
    && forall digest :: Using(p, names, digest) != [] ==> digest in grouped
  }

  /** `setdefault` and the two appends. */
  function Appended(group: Option<Group>, reference: string, service: string): Group {
    if group.None? then Group(reference, [reference], [service])
    else Group(group.value.image, group.value.references + [reference], group.value.services + [service])
  }

  lemma AppendedIsGroup(p: Pinned, names: seq<string>, service: string, digest: string, group: Option<Group>)
    requires p.Uses(service, digest)
    requires if group.Some? then IsGroup(p, names, digest, group.value) else Using(p, names, digest) == []
    ensures IsGroup(p, names + [service], digest, Appended(group, p.images[service], service))
  {
    UsingNext(p, names, service, digest);
    var before := Using(p, names, digest);
    ImagesNext(p, before, service);
    assert before != [] ==> (before + [service])[0] == before[0];
  }

  lemma ImagesNext(p: Pinned, names: seq<string>, service: string)
    requires service in p.images
    ensures ImagesOf(p, names + [service]) == ImagesOf(p, names) + [p.images[service]]
    ensures ImagesOf(p, [service]) == [p.images[service]]
  {
  }

  lemma GroupOne(p: Pinned, names: seq<string>, service: string, digest: string, grouped: map<string, Group>)
    requires IsGrouping(p, names, grouped) && p.Uses(service, digest)
    ensures IsGrouping(p, names + [service],
      grouped[digest := Appended(Lookup(grouped, digest), p.images[service], service)])
  {
    AppendedIsGroup(p, names, service, digest, Lookup(grouped, digest));
    var more := grouped[digest := Appended(Lookup(grouped, digest), p.images[service], service)];
    forall other | other != digest
      ensures Using(p, names + [service], other) == Using(p, names, other)
    {
      UsingNext(p, names, service, other);
    }
    forall other | other in more ensures IsGroup(p, names + [service], other, more[other]) {
      assert other != digest ==> IsGroup(p, names, other, grouped[other]);
    }
  }

  lemma GroupReferences(p: Pinned, services: seq<string>, digest: string)
    requires forall s :: s in services <==> s in p.Services(digest)
    ensures Elements(ImagesOf(p, services)) == p.References(digest)
  {
    var references := ImagesOf(p, services);
    forall r ensures r in references <==> r in p.References(digest) {
      if r in references {
        var i :| 0 <= i < |references| && references[i] == r;
        assert services[i] in p.Services(digest);
      }
      if r in p.References(digest) {
        var s :| s in p.Services(digest) && p.images[s] == r;
        var i :| 0 <= i < |services| && services[i] == s;
        assert references[i] == r;
      }
    }
  }

  /** A finished group gives a scan record; its services are sorted already. */
  lemma GroupIsRecord(p: Pinned, names: seq<string>, digest: string, group: Group, references: seq<string>)
    requires IsListing(names, p.images.Keys) && IsGroup(p, names, digest, group)
    requires IsListing(references, Elements(group.references))
    ensures Sort(StrLess, group.services) == group.services
    ensures IsScanRecord(p, ScanRecord(digest, group.image, references, group.services))
  {
    UsingAscends(p, names, digest);
    UsingMembers(p, names, digest);
    StrLessIsTotal();
    TotalIsWeak(StrLess);
    SortOfIncreasing(StrLess, group.services);
    forall s ensures s in group.services <==> s in p.Services(digest) {
      assert s in names <==> s in Elements(names);
    }
    assert Elements(group.services) == p.Services(digest);
    GroupReferences(p, group.services, digest);
  }

  lemma EveryServiceGrouped(p: Pinned, names: seq<string>, grouped: map<string, Group>, service: string)
    requires IsListing(names, p.images.Keys) && IsGrouping(p, names, grouped) && service in p.images
    ensures p.digestOf(p.images[service]) in grouped
  {
    var digest := p.digestOf(p.images[service]);
    UsingMembers(p, names, digest);
    assert service in Elements(names);
    assert service in Using(p, names, digest);
  }

  ghost predicate AllValid(p: Pinned, valid: string -> bool) { forall s :: s in p.images ==> valid(p.images[s]) }

  ghost predicate GroupedSoFar(p: Pinned, names: seq<string>, n: nat, valid: string -> bool,
      grouped: map<string, Group>)
    requires n <= |names|
  {
    && (forall i :: 0 <= i < n ==> names[i] in p.images && valid(p.images[names[i]]))
    && IsGrouping(p, names[..n], grouped)
  }

  lemma GroupNext(p: Pinned, names: seq<string>, n: nat, valid: string -> bool, grouped: map<string, Group>)
    requires n < |names| && GroupedSoFar(p, names, n, valid, grouped)
    requires names[n] in p.images && valid(p.images[names[n]])
    ensures var reference := p.images[names[n]];
      var digest := p.digestOf(reference);
      GroupedSoFar(p, names, n + 1, valid, grouped[digest := Appended(Lookup(grouped, digest), reference, names[n])])
  {
    GroupOne(p, names[..n], names[n], p.digestOf(p.images[names[n]]), grouped);
    assert names[..n + 1] == names[..n] + [names[n]];
  }

  /** The first loop: it groups the references while it checks them. */
  method GroupServices(p: Pinned, valid: string -> bool)
      returns (grouped: Option<map<string, Group>>, ghost names: seq<string>)
    ensures grouped.Some? <==> AllValid(p, valid)
    ensures IsListing(names, p.images.Keys)
    ensures grouped.Some? ==> IsGrouping(p, names, grouped.value)
  {
    var listed := SortedList(p.images.Keys);
    names := listed;
    var groups: map<string, Group> := map[];
    for n := 0 to |listed|
      invariant GroupedSoFar(p, listed, n, valid, groups)
    {
      var service := listed[n];
      assert service in Elements(listed);
      var reference := p.images[service];
      if !valid(reference) {
        return None, names;
      }
      var digest := p.digestOf(reference);
      GroupNext(p, listed, n, valid, groups);
      groups := groups[digest := Appended(Lookup(groups, digest), reference, service)];
    }
    assert listed[..|listed|] == listed;
    forall s | s in p.images ensures valid(p.images[s]) {
      assert s in Elements(listed);
    }
    return Some(groups), names;
  }

  /** The records of the first n digests. */
  ghost predicate RecordsOf(p: Pinned, digests: seq<string>, n: nat, records: seq<ScanRecord>)
    requires n <= |digests|
  {
    && |records| == n
    && (forall i :: 0 <= i < n ==> records[i].digest == digests[i])
    && forall i :: 0 <= i < n ==> IsScanRecord(p, records[i])
  }

  lemma RecordNext(p: Pinned, digests: seq<string>, n: nat, records: seq<ScanRecord>, record: ScanRecord)
    requires n < |digests| && RecordsOf(p, digests, n, records)
    requires record.digest == digests[n] && IsScanRecord(p, record)
    ensures RecordsOf(p, digests, n + 1, records + [record])
  {
  }

  lemma RecordsArePlan(p: Pinned, names: seq<string>, grouped: map<string, Group>, digests: seq<string>,
      records: seq<ScanRecord>)
    requires IsListing(names, p.images.Keys) && IsGrouping(p, names, grouped)
    requires IsListing(digests, grouped.Keys) && RecordsOf(p, digests, |digests|, records)
    ensures IsScanPlan(p, records)
  {
    forall s | s in p.images ensures Recorded(p, records, |records|, s) {
      EveryServiceGrouped(p, names, grouped, s);
      assert p.digestOf(p.images[s]) in Elements(digests);
      var i :| 0 <= i < |digests| && digests[i] == p.digestOf(p.images[s]);
      assert p.Uses(s, records[i].digest);
    }
  }

  /** The second loop: one record for each group, in the order of the digests. */
  method RecordGroups(p: Pinned, ghost names: seq<string>, grouped: map<string, Group>)
      returns (records: seq<ScanRecord>)
    requires IsListing(names, p.images.Keys) && IsGrouping(p, names, grouped)
    ensures IsScanPlan(p, records)
  {
    var digests := SortedList(grouped.Keys);
    records := [];
    for n := 0 to |digests|
      invariant RecordsOf(p, digests, n, records)
    {
      var digest := digests[n];
      assert digest in Elements(digests);
      var group := grouped[digest];
      var references := SortedList(Elements(group.references));
      GroupIsRecord(p, names, digest, group, references);
      var record := ScanRecord(digest, group.image, references, Sort(StrLess, group.services));
      RecordNext(p, digests, n, records, record);
      records := records + [record];
    }
    RecordsArePlan(p, names, grouped, digests, records);
  }

  /** `build_image_scan_plan`, for any check and any digest of references. */
  method BuildScanPlan(p: Pinned, valid: string -> bool) returns (r: Option<seq<ScanRecord>>)
    ensures r.Some? <==> AllValid(p, valid)
    ensures r.Some? ==> IsScanPlan(p, r.value)
  {
    var groups, names := GroupServices(p, valid);
    if groups.None? {
      return None;
    }
    var records := RecordGroups(p, names, groups.value);
    return Some(records);
  }

  // ----- what a plan guarantees

  function AllServices(records: seq<ScanRecord>): seq<string> {
    if records == [] then [] else AllServices(records[..|records| - 1]) + records[|records| - 1].services
  }

  lemma ListingCounts(s: seq<string>, elements: set<string>, x: string)
    requires IsListing(s, elements)
    ensures multiset(s)[x] == if x in elements then 1 else 0
  {
    StrLessIsTotal();
    forall i, j | 0 <= i < j < |s| ensures s[i] != s[j] {
      assert StrLess(s[i], s[j]);
    }
    OnceCounted(s, x);
    assert x in s <==> x in Elements(s);
    assert x in s <==> x in multiset(s);
  }

  lemma RecordedNext(p: Pinned, records: seq<ScanRecord>, n: nat, s: string)
    requires n < |records| && ByDigest(records)
    ensures Recorded(p, records, n + 1, s) <==> Recorded(p, records, n, s) || p.Uses(s, records[n].digest)
    ensures !(Recorded(p, records, n, s) && p.Uses(s, records[n].digest))
  {
    StrLessIsTotal();
    forall i | 0 <= i < n ensures records[i].digest != records[n].digest {
      assert StrLess(records[i].digest, records[n].digest);
    }
  }

  lemma AllServicesNext(records: seq<ScanRecord>, n: nat)
    requires n < |records|
    ensures AllServices(records[..n + 1]) == AllServices(records[..n]) + records[n].services
  {
    assert records[..n + 1][..n] == records[..n];
  }

  lemma CountNext(records: seq<ScanRecord>, n: nat, s: string)
    requires n < |records|
    ensures multiset(AllServices(records[..n + 1]))[s]
      == multiset(AllServices(records[..n]))[s] + multiset(records[n].services)[s]
  {
    AllServicesNext(records, n);
  }

  lemma CountStep(p: Pinned, records: seq<ScanRecord>, n: nat, s: string)
    requires n < |records| && IsScanPlan(p, records)
    requires multiset(AllServices(records[..n]))[s] == if Recorded(p, records, n, s) then 1 else 0
    ensures multiset(AllServices(records[..n + 1]))[s] == if Recorded(p, records, n + 1, s) then 1 else 0
  {
    assert IsScanRecord(p, records[n]);
    ListingCounts(records[n].services, p.Services(records[n].digest), s);
    RecordedNext(p, records, n, s);
    CountNext(records, n, s);
  }

  lemma {:induction false} CountServices(p: Pinned, records: seq<ScanRecord>, n: nat, s: string)
    requires n <= |records| && IsScanPlan(p, records)
    ensures multiset(AllServices(records[..n]))[s] == if Recorded(p, records, n, s) then 1 else 0
    decreases n
  {
    if n > 0 {
      CountServices(p, records, n - 1, s);
      CountStep(p, records, n - 1, s);
    }
  }

  /** The plan partitions the services: it loses none and repeats none. */
  lemma PlanPartitions(p: Pinned, records: seq<ScanRecord>)
    requires IsScanPlan(p, records)
    ensures multiset(AllServices(records)) == multiset(p.images.Keys)
  {
    assert records[..|records|] == records;
    forall s ensures multiset(AllServices(records))[s] == multiset(p.images.Keys)[s] {
      CountServices(p, records, |records|, s);
    }
  }

  /** There is only one plan for a lock. */
  lemma PlanIsUnique(p: Pinned, a: seq<ScanRecord>, b: seq<ScanRecord>)
    requires IsScanPlan(p, a) && IsScanPlan(p, b)
    ensures a == b
  {
    var less := (x: ScanRecord, y: ScanRecord) => StrLess(x.digest, y.digest);
    StrLessIsTotal();
    forall x ensures x in a <==> x in b {
      PlanWithin(p, a, b, x);
      PlanWithin(p, b, a, x);
    }
    assert StrictWeak(less);
    IncreasingUnique(less, a, b);
  }

  lemma PlanWithin(p: Pinned, a: seq<ScanRecord>, b: seq<ScanRecord>, x: ScanRecord)
    requires IsScanPlan(p, a) && IsScanPlan(p, b)
    ensures x in a ==> x in b
  {
    if x in a {
      var i :| 0 <= i < |a| && a[i] == x;
      RecordIsThere(p, b, x);
    }
  }

  lemma RecordIsThere(p: Pinned, records: seq<ScanRecord>, x: ScanRecord)
    requires IsScanPlan(p, records) && IsScanRecord(p, x)
    ensures x in records
  {
    var s := x.services[0];
    FirstServiceUses(p, x);
    assert Recorded(p, records, |records|, s);
    var j :| 0 <= j < |records| && p.Uses(s, records[j].digest);
    RecordIsDetermined(p, x, records[j]);
  }

  lemma FirstServiceUses(p: Pinned, x: ScanRecord)
    requires IsScanRecord(p, x)
    ensures p.Uses(x.services[0], x.digest)
  {
    assert x.services[0] in Elements(x.services);
  }

  lemma RecordIsDetermined(p: Pinned, x: ScanRecord, y: ScanRecord)
    requires IsScanRecord(p, x) && IsScanRecord(p, y) && x.digest == y.digest
    ensures x == y
  {
    ListingIsUnique(x.services, y.services, p.Services(x.digest));
    ListingIsUnique(x.references, y.references, p.References(x.digest));
  }
}
