/** The hashed runtime requirements and the audit reports that must cover them
    (scripts/finalize_release_evidence.py:3154-3258, 3329-3361). */
module Requirements {
  import opened Text
  import opened Markers
  import opened MarkerTruth
  import opened Closure
  import opened LockFile

  /** One line of a requirements file, classified by the patterns of the source:
      blank or comment, an indented hash or other option, a pinned requirement
      (and whether it ends in a backslash), or any other requirement. */
  datatype Line =
    | Skipped
    | HashOption(digest: string)
    | OtherOption
    | Pinned(name: string, version: string, marker: Marker, continued: bool)
    | OtherRequirement

  type Hashes = map<PackageIdentity, set<string>>

  /** A requirement with the options that follow it. */
  datatype Group = Group(identity: PackageIdentity, marker: Marker, hashes: set<string>)

  datatype ParseError =
    | Duplicate | Absent | HashMismatch | BadMarkerIn(error: MarkerError)
    | Orphan | UnsupportedOption | Unpinned | Empty

  // ----- what a file means

  function HashText(digest: string): string { "sha256:" + digest }

  /** The groups of a file, None where the grammar is violated. */
  function Groups(lines: seq<Line>): Option<seq<Group>>
    decreases |lines|
  {
    if lines == [] then Some([])
    else
      var before := Groups(lines[..|lines| - 1]);
      if before.None? then None else AddLine(before.value, lines[|lines| - 1])
  }

  function AddLine(groups: seq<Group>, line: Line): Option<seq<Group>> {
    match line
    case Skipped => Some(groups)
    case HashOption(digest) =>
      if groups == [] then None
      else
        var last := groups[|groups| - 1];
        Some(groups[..|groups| - 1] + [last.(hashes := last.hashes + {HashText(digest)})])
    case OtherOption => None
    case Pinned(name, version, marker, continued) =>
      if continued then Some(groups + [Group((CanonicalName(name), version), marker, {})]) else None
    case OtherRequirement => None
  }

  ghost predicate GroupValid(g: Group, locked: Hashes, platform: Environment) {
    g.identity in locked && g.hashes == locked[g.identity] && !FailsIn(g.marker, platform, "")
  }

  ghost predicate GroupsValid(groups: seq<Group>, locked: Hashes, platform: Environment) {
    && (forall i :: 0 <= i < |groups| ==> GroupValid(groups[i], locked, platform))
    && (forall i, j :: 0 <= i < j < |groups| ==> groups[i].identity != groups[j].identity)
  }

  function DeclaredOf(groups: seq<Group>): set<PackageIdentity> {
    set i | 0 <= i < |groups| :: groups[i].identity
  }

  ghost function ActiveOf(groups: seq<Group>, platform: Environment): set<PackageIdentity> {
    set i | 0 <= i < |groups| && HoldsIn(groups[i].marker, platform, "") :: groups[i].identity
  }

  ghost predicate FileAccepted(lines: seq<Line>, locked: Hashes, platform: Environment) {
    && Groups(lines).Some? && GroupsValid(Groups(lines).value, locked, platform)
    && ActiveOf(Groups(lines).value, platform) != {}
  }

  // ----- what later lines cannot repair

  lemma AddLineKeeps(groups: seq<Group>, line: Line)
    ensures var r := AddLine(groups, line);
      r.Some? ==>
        && |r.value| >= |groups|
        && (forall i :: 0 <= i < |groups| - 1 ==> r.value[i] == groups[i])
        && (groups != [] ==> r.value[|groups| - 1].identity == groups[|groups| - 1].identity)
        && (|r.value| > |groups| ==> groups <= r.value)
  {
  }

  /** The groups before the last are final, and the last keeps its identity. */
  lemma {:induction false} GroupsExtend(lines: seq<Line>, n: nat)
    requires n <= |lines|
    ensures var early, all := Groups(lines[..n]), Groups(lines);
      all.Some? ==>
        && early.Some? && |early.value| <= |all.value|
        && (forall i :: 0 <= i < |early.value| - 1 ==> all.value[i] == early.value[i])
        && (early.value != [] ==> all.value[|early.value| - 1].identity == early.value[|early.value| - 1].identity)
    decreases |lines|
  {
    if n < |lines| {
      var init := lines[..|lines| - 1];
      assert init[..n] == lines[..n];
      GroupsExtend(init, n);
      if Groups(init).Some? {
        AddLineKeeps(Groups(init).value, lines[|lines| - 1]);
      }
    } else {
      assert lines[..n] == lines;
    }
  }

  lemma GroupsStep(lines: seq<Line>, n: nat)
    requires n < |lines|
    ensures Groups(lines[..n + 1]) ==
      if Groups(lines[..n]).None? then None else AddLine(Groups(lines[..n]).value, lines[n])
  {
    assert lines[..n + 1][..n] == lines[..n];
  }

  // ----- the parser

  predicate StartsGroup(line: Line) { line.Pinned? || line.OtherRequirement? }

  /** The state that the nested `finish_requirement` shares with the line loop. */
  class RequirementReader {
    const locked: Hashes
    const platform: Environment
    var declared: set<PackageIdentity>
    var active: set<PackageIdentity>
    var identity: Option<PackageIdentity>
    var marker: Marker
    var hashes: set<string>

    constructor (locked: Hashes, platform: Environment)
      ensures this.locked == locked && this.platform == platform
      ensures declared == {} && active == {} && identity.None?
    {
      this.locked, this.platform := locked, platform;
      declared, active, identity, marker, hashes := {}, {}, None, NoMarker, {};
    }

    /** The finished groups are valid and counted; the current one is open. */
    ghost predicate Holds(groups: seq<Group>)
      reads this
    {
      if identity.None? then groups == [] && declared == {} && active == {}
      else
        && groups != []
        && groups[|groups| - 1] == Group(identity.value, marker, hashes)
        && GroupsValid(groups[..|groups| - 1], locked, platform)
        && declared == DeclaredOf(groups[..|groups| - 1])
        && active == ActiveOf(groups[..|groups| - 1], platform)
    }

    /** `finish_requirement`: it fails exactly when the open group makes the
        groups so far invalid. */
    method Finish(ghost groups: seq<Group>) returns (error: Option<ParseError>)
      requires Holds(groups)
      modifies this`declared, this`active, this`identity, this`marker, this`hashes
      ensures error.None? <==> GroupsValid(groups, locked, platform)
      ensures error.None? ==> identity.None?
      ensures error.None? ==> declared == DeclaredOf(groups) && active == ActiveOf(groups, platform)
    {
      if identity.None? {
        return None;
      }
      ghost var before := groups[..|groups| - 1];
      assert groups == before + [groups[|groups| - 1]];
      if identity.value in declared {
        ghost var i :| 0 <= i < |before| && before[i].identity == identity.value;
        assert groups[i].identity == groups[|groups| - 1].identity;
        return Some(Duplicate);
      }
      if identity.value !in locked {
        return Some(Absent);
      }
      if hashes != locked[identity.value] {
        return Some(HashMismatch);
      }
      var applies, _ := MarkerApplies(marker, platform, {""}, false);
      SingleContext();
      ValueIsTruth(marker, platform);
      if applies.Err? {
        assert FailsIn(marker, platform, "");
        return Some(BadMarkerIn(applies.error));
      }
      if applies.value {
        assert applies == Ok(true);
        assert HoldsIn(marker, platform, "");
      } else {
        assert applies == Ok(false);
        assert "" in Contexts({""});
        assert ValueIn(marker, platform, "") == Ok(false);
      }
      ExtendValid(before, groups[|groups| - 1], locked, platform);
      declared := declared + {identity.value};
      if applies.value {
        active := active + {identity.value};
      }
      identity, marker, hashes := None, NoMarker, {};
      return None;
    }

    /** One line: it fails when the line is no part of a requirements file, or starts a
        requirement after invalid ones. */
    method Read(ghost groups: seq<Group>, line: Line) returns (error: Option<ParseError>)
      requires Holds(groups)
      modifies this`declared, this`active, this`identity, this`marker, this`hashes
      ensures error.None? ==> AddLine(groups, line).Some? && Holds(AddLine(groups, line).value)
      ensures error.Some? ==>
        AddLine(groups, line).None? || (StartsGroup(line) && !GroupsValid(groups, locked, platform))
    {
      match line
      case Skipped =>
        return None;
      case HashOption(digest) =>
        if identity.None? {
          return Some(Orphan);
        }
        hashes := hashes + {HashText(digest)};
        assert AddLine(groups, line).value[..|groups| - 1] == groups[..|groups| - 1];
        return None;
      case OtherOption =>
        return Some(if identity.None? then Orphan else UnsupportedOption);
      case Pinned(name, version, newMarker, continued) =>
        error := Finish(groups);
        if error.Some? || !continued {
          return if error.Some? then error else Some(Unpinned);
        }
        identity, marker, hashes := Some((CanonicalName(name), version)), newMarker, {};
        assert AddLine(groups, line).value[..|groups|] == groups;
      case OtherRequirement =>
        error := Finish(groups);
        return if error.Some? then error else Some(Unpinned);
    }
  }

  lemma SingleContext()
    ensures Contexts({""}) == {""}
  {
    assert "" in {""};
  }

  lemma ExtendValid(groups: seq<Group>, g: Group, locked: Hashes, platform: Environment)
    requires GroupsValid(groups, locked, platform) && GroupValid(g, locked, platform)
    requires g.identity !in DeclaredOf(groups)
    ensures GroupsValid(groups + [g], locked, platform)
    ensures DeclaredOf(groups + [g]) == DeclaredOf(groups) + {g.identity}
    ensures ActiveOf(groups + [g], platform) ==
            ActiveOf(groups, platform) + if HoldsIn(g.marker, platform, "") then {g.identity} else {}
  {
    var longer := groups + [g];
    assert longer[|groups|] == g;
    forall i | 0 <= i < |groups| ensures longer[i] == groups[i] && groups[i].identity in DeclaredOf(groups) {
    }
    forall id ensures id in DeclaredOf(longer) <==> id in DeclaredOf(groups) + {g.identity} {
      if id in DeclaredOf(groups) {
        var i :| 0 <= i < |groups| && groups[i].identity == id;
        assert longer[i].identity == id;
      }
    }
    forall id ensures id in ActiveOf(longer, platform) <==>
      id in ActiveOf(groups, platform) + if HoldsIn(g.marker, platform, "") then {g.identity} else {}
    {
      if id in ActiveOf(groups, platform) {
        var i :| 0 <= i < |groups| && HoldsIn(groups[i].marker, platform, "") && groups[i].identity == id;
        assert longer[i].identity == id && HoldsIn(longer[i].marker, platform, "");
      }
    }
  }

  /** If the groups closed by a requirement line are invalid, the file is. */
  lemma ClosedGroupsDecide(lines: seq<Line>, n: nat, locked: Hashes, platform: Environment)
    requires n < |lines| && Groups(lines[..n]).Some?
    requires StartsGroup(lines[n])
    requires FileAccepted(lines, locked, platform)
    ensures GroupsValid(Groups(lines[..n]).value, locked, platform)
  {
    var early, all := Groups(lines[..n]).value, Groups(lines).value;
    GroupsStep(lines, n);
    GroupsExtend(lines, n + 1);
    var next := Groups(lines[..n + 1]).value;
    assert next[..|next| - 1] == early;
    forall i | 0 <= i < |early| ensures all[i] == early[i] {
      assert next[i] == early[i];
    }
  }

  /** `_parse_hashed_requirements`. It succeeds exactly on well-formed files whose
      requirements are distinct, locked, bear exactly the locked hashes, and have
      an active one; and it returns the declared and the active identities. */
  method ParseRequirements(lines: seq<Line>, locked: Hashes, platform: Environment)
    returns (r: Result<(set<PackageIdentity>, set<PackageIdentity>), ParseError>)
    ensures r.Ok? <==> FileAccepted(lines, locked, platform)
    ensures r.Ok? ==>
      r.value.0 == DeclaredOf(Groups(lines).value) && r.value.1 == ActiveOf(Groups(lines).value, platform)
  {
    var reader := new RequirementReader(locked, platform);
    for n := 0 to |lines|
      invariant reader.locked == locked && reader.platform == platform
      invariant Groups(lines[..n]).Some? && reader.Holds(Groups(lines[..n]).value)
    {
      ghost var groups := Groups(lines[..n]).value;
      GroupsStep(lines, n);
      GroupsExtend(lines, n + 1);
      var error := reader.Read(groups, lines[n]);
      if error.Some? {
        if !GroupsValid(groups, locked, platform) && FileAccepted(lines, locked, platform) && StartsGroup(lines[n]) {
          ClosedGroupsDecide(lines, n, locked, platform);
        }
        return Err(error.value);
      }
    }
    assert lines[..|lines|] == lines;
    var error := reader.Finish(Groups(lines).value);
    if error.Some? {
      return Err(error.value);
    }
    ActiveIsDeclared(Groups(lines).value, platform);
    if reader.declared == {} || reader.active == {} {
      return Err(Empty);
    }
    return Ok((reader.declared, reader.active));
  }

  lemma ActiveIsDeclared(groups: seq<Group>, platform: Environment)
    ensures ActiveOf(groups, platform) <= DeclaredOf(groups)
  {
  }

  // ----- round trip

  /** A requirement to be written: its canonical name, version, marker and digests. */
  datatype Requirement = Requirement(name: string, version: string, marker: Marker, digests: seq<string>)

  function OptionLines(digests: seq<string>): seq<Line> {
    seq(|digests|, i requires 0 <= i < |digests| => HashOption(digests[i]))
  }

  function Render(requirements: seq<Requirement>): seq<Line>
    decreases |requirements|
  {
    if requirements == [] then []
    else
      var last := requirements[|requirements| - 1];
      Render(requirements[..|requirements| - 1])
      + [Pinned(last.name, last.version, last.marker, true)] + OptionLines(last.digests)
  }

  function GroupOf(r: Requirement): Group {
    Group((CanonicalName(r.name), r.version), r.marker, HashTexts(r.digests))
  }

  function GroupsOf(requirements: seq<Requirement>): seq<Group> {
    seq(|requirements|, i requires 0 <= i < |requirements| => GroupOf(requirements[i]))
  }

  function HashTexts(digests: seq<string>): set<string> {
    set i | 0 <= i < |digests| :: HashText(digests[i])
  }

  lemma HashTextsSnoc(digests: seq<string>, last: string)
    ensures HashTexts(digests + [last]) == HashTexts(digests) + {HashText(last)}
  {
    var all := digests + [last];
    assert all[|digests|] == last;
    forall h ensures h in HashTexts(all) <==> h in HashTexts(digests) + {HashText(last)} {
      if h in HashTexts(all) {
        var i :| 0 <= i < |all| && HashText(all[i]) == h;
        assert i < |digests| ==> digests[i] == all[i];
      }
      if h in HashTexts(digests) {
        var i :| 0 <= i < |digests| && HashText(digests[i]) == h;
        assert all[i] == digests[i];
      }
    }
  }

  lemma OneOption(lines: seq<Line>, groups: seq<Group>, g: Group, digest: string)
    requires Groups(lines) == Some(groups + [g])
    ensures Groups(lines + [HashOption(digest)]) == Some(groups + [g.(hashes := g.hashes + {HashText(digest)})])
  {
    assert (lines + [HashOption(digest)])[..|lines|] == lines;
    assert (groups + [g])[..|groups|] == groups;
  }

  lemma {:induction false} OptionsAdd(lines: seq<Line>, groups: seq<Group>, g: Group, digests: seq<string>)
    requires Groups(lines) == Some(groups + [g])
    ensures Groups(lines + OptionLines(digests)) == Some(groups + [g.(hashes := g.hashes + HashTexts(digests))])
    decreases |digests|
  {
    if digests == [] {
      assert lines + OptionLines(digests) == lines;
      assert g.hashes + HashTexts(digests) == g.hashes;
    } else {
      var init, last := digests[..|digests| - 1], digests[|digests| - 1];
      assert digests == init + [last];
      OptionsAdd(lines, groups, g, init);
      OneOption(lines + OptionLines(init), groups, g.(hashes := g.hashes + HashTexts(init)), last);
      assert lines + OptionLines(digests) == lines + OptionLines(init) + [HashOption(last)];
      HashTextsSnoc(init, last);
      assert g.hashes + HashTexts(init) + {HashText(last)} == g.hashes + HashTexts(digests);
    }
  }

  /** Rendering and parsing give back exactly the rendered requirements. */
  lemma {:induction false} RenderedGroups(requirements: seq<Requirement>)
    ensures Groups(Render(requirements)) == Some(GroupsOf(requirements))
    decreases |requirements|
  {
    if requirements == [] {
      assert GroupsOf(requirements) == [];
    } else {
      var init, last := requirements[..|requirements| - 1], requirements[|requirements| - 1];
      RenderedGroups(init);
      var head := Render(init) + [Pinned(last.name, last.version, last.marker, true)];
      assert head[..|head| - 1] == Render(init);
      var g := Group((CanonicalName(last.name), last.version), last.marker, {});
      assert Groups(head) == Some(GroupsOf(init) + [g]);
      OptionsAdd(head, GroupsOf(init), g, last.digests);
      assert GroupsOf(requirements) == GroupsOf(init) + [GroupOf(last)];
      assert {} + HashTexts(last.digests) == GroupOf(last).hashes;
    }
  }

  /** A rendered list of distinct requirements with the lock's hashes and working
      markers, one of them active, is accepted as exactly that list. */
  lemma {:induction false} RenderedIsAccepted(requirements: seq<Requirement>, locked: Hashes, platform: Environment)
    requires forall i, j :: 0 <= i < j < |requirements| ==>
      GroupOf(requirements[i]).identity != GroupOf(requirements[j]).identity
    requires forall i :: 0 <= i < |requirements| ==> GroupValid(GroupOf(requirements[i]), locked, platform)
    requires exists i :: 0 <= i < |requirements| && HoldsIn(requirements[i].marker, platform, "")
    ensures FileAccepted(Render(requirements), locked, platform)
    ensures Groups(Render(requirements)).value == GroupsOf(requirements)
  {
    RenderedGroups(requirements);
    var groups := GroupsOf(requirements);
    var i :| 0 <= i < |requirements| && HoldsIn(requirements[i].marker, platform, "");
    assert groups[i].identity in ActiveOf(groups, platform);
  }

  // ----- audits

  /** One entry of a pip-audit report; `vulnerable` when its list is not empty. */
  datatype AuditEntry = BrokenEntry | AuditEntry(name: string, version: string, vulnerable: bool)

  function AuditIdentity(e: AuditEntry): PackageIdentity
    requires e.AuditEntry?
  {
    (CanonicalName(e.name), e.version)
  }

  predicate Clean(e: AuditEntry) {
    e.AuditEntry? && NonBlank(e.name) && NonBlank(e.version) && !e.vulnerable
  }

  /** A clean report that names each expected package once and nothing else. */
  ghost predicate AuditCovers(entries: seq<AuditEntry>, expected: set<PackageIdentity>) {
    && (forall i :: 0 <= i < |entries| ==> Clean(entries[i]))
    && (forall i, j :: 0 <= i < j < |entries| ==> AuditIdentity(entries[i]) != AuditIdentity(entries[j]))
    && (forall id :: id in expected <==> exists i :: 0 <= i < |entries| && AuditIdentity(entries[i]) == id)
  }

  lemma ObserveOne(entries: seq<AuditEntry>, n: nat, observed: set<PackageIdentity>)
    requires n < |entries| && AuditCovers(entries[..n], observed) && Clean(entries[n])
    ensures var id := AuditIdentity(entries[n]);
      if id in observed then forall expected :: !AuditCovers(entries, expected)
      else AuditCovers(entries[..n + 1], observed + {id})
  {
    var id, done, more := AuditIdentity(entries[n]), entries[..n], entries[..n + 1];
    if id in observed {
      var i :| 0 <= i < n && AuditIdentity(done[i]) == id;
      assert AuditIdentity(entries[i]) == id;
    } else {
      assert forall i :: 0 <= i < n ==> more[i] == done[i];
      forall other ensures other in observed + {id} <==> exists i :: 0 <= i < n + 1 && AuditIdentity(more[i]) == other {
        if other == id {
          assert AuditIdentity(more[n]) == other;
        } else if other in observed {
          var i :| 0 <= i < n && AuditIdentity(done[i]) == other;
          assert AuditIdentity(more[i]) == other;
        }
      }
    }
  }

  /** `_validate_python_audit`. */
  method ValidateAudit(entries: seq<AuditEntry>, expected: set<PackageIdentity>) returns (ok: bool)
    ensures ok <==> AuditCovers(entries, expected)
  {
    var observed: set<PackageIdentity> := {};
    for n := 0 to |entries|
      invariant AuditCovers(entries[..n], observed)
    {
      var e := entries[n];
      if !Clean(e) {
        return false;
      }
      ObserveOne(entries, n, observed);
      if AuditIdentity(e) in observed {
        return false;
      }
      observed := observed + {AuditIdentity(e)};
    }
    assert entries[..|entries|] == entries;
    return observed == expected;
  }

  /** One round of the loop of `_validate_audit_reports`: the file is accepted, its
      active requirements are the runtime closure, and the audit covers it. */
  method ValidateReports(lines: seq<Line>, entries: seq<AuditEntry>, facts: LockFacts, platform: Environment)
    returns (ok: bool)
    ensures ok <==>
      && FileAccepted(lines, facts.hashes, platform)
      && ActiveOf(Groups(lines).value, platform) == facts.runtime
      && AuditCovers(entries, facts.runtime)
  {
    var parsed := ParseRequirements(lines, facts.hashes, platform);
    if parsed.Err? || parsed.value.1 != facts.runtime {
      return false;
    }
    ok := ValidateAudit(entries, parsed.value.1);
  }

  /** Through the lock, the requirements and the audit: every package derivable
      for the runtime is required with the hashes of its lock entry, and audited
      exactly once without a finding; and nothing else is audited. */
  lemma RuntimeIsAudited(lines: seq<Line>, entries: seq<AuditEntry>, facts: LockFacts, platform: Environment,
                         root: Package, lock: Lock, byName: map<string, set<string>>)
    requires IsClosure(root, lock, platform, false, facts.runtime) && HashesOf(lock, byName, facts.hashes)
    requires FileAccepted(lines, facts.hashes, platform)
    requires ActiveOf(Groups(lines).value, platform) == facts.runtime && AuditCovers(entries, facts.runtime)
    ensures forall name :: name in lock && Derivable(root, lock, platform, false, Slot(name, "")) ==>
      && (exists g :: g in Groups(lines).value && g.identity == (name, lock[name].version) && g.hashes == byName[name])
      && (exists i ::
            0 <= i < |entries| && Clean(entries[i]) && AuditIdentity(entries[i]) == (name, lock[name].version))
    ensures forall i :: 0 <= i < |entries| ==>
      var (name, version) := AuditIdentity(entries[i]);
      name in lock && version == lock[name].version && Derivable(root, lock, platform, false, Slot(name, ""))
  {
    var groups := Groups(lines).value;
    forall name | name in lock && Derivable(root, lock, platform, false, Slot(name, ""))
      ensures exists g :: g in groups && g.identity == (name, lock[name].version) && g.hashes == byName[name]
      ensures exists i ::
        0 <= i < |entries| && Clean(entries[i]) && AuditIdentity(entries[i]) == (name, lock[name].version)
    {
      var id := (name, lock[name].version);
      assert id in facts.runtime;
      var k :| 0 <= k < |groups| && HoldsIn(groups[k].marker, platform, "") && groups[k].identity == id;
      assert groups[k] in groups && GroupValid(groups[k], facts.hashes, platform);
      var i :| 0 <= i < |entries| && AuditIdentity(entries[i]) == id;
      assert Clean(entries[i]);
    }
    forall i | 0 <= i < |entries|
      ensures var (name, version) := AuditIdentity(entries[i]);
        name in lock && version == lock[name].version && Derivable(root, lock, platform, false, Slot(name, ""))
    {
      var (name, version) := AuditIdentity(entries[i]);
      assert (name, version) in facts.runtime;
    }
  }

  // ----- lines, one kind at a time

  lemma {:induction false} SameBefore(a: seq<Line>, b: seq<Line>, rest: seq<Line>)
    requires Groups(a) == Groups(b)
    ensures Groups(a + rest) == Groups(b + rest)
    decreases |rest|
  {
    if rest == [] {
      assert a + rest == a && b + rest == b;
    } else {
      var init := rest[..|rest| - 1];
      SameBefore(a, b, init);
      assert (a + rest)[..|a + rest| - 1] == a + init && (b + rest)[..|b + rest| - 1] == b + init;
    }
  }

  /** A blank line or a comment may stand anywhere, or not. */
  lemma SkippedLineChangesNothing(lines: seq<Line>, rest: seq<Line>)
    ensures Groups(lines + [Skipped] + rest) == Groups(lines + rest)
  {
    assert (lines + [Skipped])[..|lines + [Skipped]| - 1] == lines;
    SameBefore(lines + [Skipped], lines, rest);
  }

  /** A line that no requirements file may have. */
  predicate IsForbidden(line: Line) {
    line.OtherOption? || line.OtherRequirement? || (line.Pinned? && !line.continued)
  }

  lemma {:induction false} NothingAfterFailure(lines: seq<Line>, rest: seq<Line>)
    requires Groups(lines).None?
    ensures Groups(lines + rest).None?
    decreases |rest|
  {
    if rest == [] {
      assert lines + rest == lines;
    } else {
      var init := rest[..|rest| - 1];
      NothingAfterFailure(lines, init);
      assert (lines + rest)[..|lines + rest| - 1] == lines + init;
    }
  }

  /** One forbidden line anywhere, and the file is rejected. */
  lemma ForbiddenLineRejects(lines: seq<Line>, i: nat)
    requires i < |lines| && IsForbidden(lines[i])
    ensures Groups(lines).None?
  {
    GroupsStep(lines, i);
    NothingAfterFailure(lines[..i + 1], lines[i + 1..]);
    assert lines[..i + 1] + lines[i + 1..] == lines;
  }

  /** So it is when a hash stands before every requirement. */
  lemma OrphanHashRejects(lines: seq<Line>, i: nat)
    requires i < |lines| && lines[i].HashOption? && forall k :: 0 <= k < i ==> lines[k] == Skipped
    ensures Groups(lines).None?
  {
    OnlySkipped(lines[..i]);
    GroupsStep(lines, i);
    NothingAfterFailure(lines[..i + 1], lines[i + 1..]);
    assert lines[..i + 1] + lines[i + 1..] == lines;
  }

  lemma {:induction false} OnlySkipped(lines: seq<Line>)
    requires forall k :: 0 <= k < |lines| ==> lines[k] == Skipped
    ensures Groups(lines) == Some([])
    decreases |lines|
  {
    if lines != [] {
      OnlySkipped(lines[..|lines| - 1]);
    }
  }

  /** A requirement with one hash: the identity is canonical, the hash has its prefix. */
  lemma OneRequirement(name: string, version: string, marker: Marker, digest: string)
    ensures Groups([Pinned(name, version, marker, true), HashOption(digest)]) ==
      Some([Group((CanonicalName(name), version), marker, {"sha256:" + digest})])
  {
    var pinned := Pinned(name, version, marker, true);
    var lines := [pinned, HashOption(digest)];
    assert lines[..1] == [pinned] && [pinned][..0] == [];
    var g := Group((CanonicalName(name), version), marker, {});
    assert Groups([]) == Some([]) && [] + [g] == [g];
    assert Groups([pinned]) == Some([g]);
    assert {} + {HashText(digest)} == {"sha256:" + digest};
    assert [g][..0] + [g.(hashes := {"sha256:" + digest})] == [g.(hashes := {"sha256:" + digest})];
  }

  // ----- audits, one entry at a time

  /** An entry without its fields, with a blank one or with a vulnerability rejects the audit. */
  lemma BadEntryRejects(entries: seq<AuditEntry>, expected: set<PackageIdentity>, i: nat)
    requires i < |entries|
    requires entries[i].BrokenEntry? || entries[i].vulnerable
      || IsBlankText(entries[i].name) || IsBlankText(entries[i].version)
    ensures !AuditCovers(entries, expected)
  {
    assert !Clean(entries[i]);
  }

  /** A clean audit of one package is accepted for this package alone. */
  lemma OneEntryCovers(name: string, version: string, expected: set<PackageIdentity>)
    requires IsTrim(name) && IsTrim(version)
    ensures AuditCovers([AuditEntry(name, version, false)], expected) <==>
      expected == {(CanonicalName(name), version)}
  {
    var entries := [AuditEntry(name, version, false)];
    TrimIsStripped(name);
    TrimIsStripped(version);
    assert Clean(entries[0]);
    var identity := (CanonicalName(name), version);
    assert AuditIdentity(entries[0]) == identity;
    if AuditCovers(entries, expected) {
      forall id ensures id in expected <==> id == identity {
        assert id in expected <==> exists i :: 0 <= i < |entries| && AuditIdentity(entries[i]) == id;
      }
    }
  }
}
