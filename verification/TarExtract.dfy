/** Streaming extraction of image evidence from a signed archive
    (scripts/release_image_evidence.py:570-691). */
module TarExtract {
  import opened Text

  newtype byte = b: int | 0 <= b < 256

  datatype Kind = DirectoryEntry | RegularEntry | OtherEntry

  /** An archive member in stream order: its declared size, and the bytes that
      reading it really yields. */
  datatype Member = Member(name: string, kind: Kind, size: int, data: seq<byte>)

  datatype ExtractError =
    | TooMany | UnsafePath | DuplicatePath | NotRegular | BadSize | TooLarge
    | DuplicateEvidence | Truncated | Oversized | EmptyArchive | Missing

  const MAX_MEMBERS := 4096
  const MAX_MEMBER_BYTES := 128 * 1024 * 1024
  const MAX_EXPANDED_BYTES := 1024 * 1024 * 1024
  const CHUNK := 1024 * 1024

  // ----- paths

  /** `PurePosixPath(name).parts` of a relative name: empty and dot parts vanish. */
  function WithoutDots(parts: seq<string>): seq<string> {
    if parts == [] then []
    else if parts[0] == "" || parts[0] == "." then WithoutDots(parts[1..])
    else [parts[0]] + WithoutDots(parts[1..])
  }

  /** `_validated_archive_parts`. */
  function ArchiveParts(name: string, root: string): Option<seq<string>> {
    if name == [] || '\\' in name || '\0' in name || name[0] == '/' then None
    else
      var parts := WithoutDots(SplitSlash(name));
      if parts == [] || parts[0] != root || ".." in parts then None else Some(parts)
  }

  // ----- reading one member

  /** A stream that hands out its data in pieces of its own choosing. */
  class Source {
    const data: seq<byte>
    var position: nat

    constructor (data: seq<byte>)
      ensures this.data == data && position == 0
    {
      this.data, position := data, 0;
    }

    /** `read(limit)`: some of the remaining bytes, and none only at the end. */
    method Read(limit: nat) returns (chunk: seq<byte>)
      requires position <= |data| && limit > 0
      modifies this
      ensures old(position) <= position <= |data|
      ensures chunk == data[old(position)..position] && |chunk| <= limit
      ensures chunk == [] <==> old(position) == |data|
    {
      if position == |data| {
        return [];
      }
      var n: nat :| 0 < n <= limit && position + n <= |data|;
      chunk := data[position..position + n];
      position := position + n;
    }
  }

  /** The copy loop: it terminates however the source cuts its data, and succeeds
      exactly when the data has the declared size, which is then copied whole. */
  method CopyExactly(data: seq<byte>, size: nat) returns (r: Result<seq<byte>, ExtractError>)
    ensures r.Ok? <==> |data| == size
    ensures r.Ok? ==> r.value == data
    ensures r.Err? ==> r.error == Truncated || r.error == Oversized
  {
    var source := new Source(data);
    var output: seq<byte> := [];
    var remaining: nat := size;
    while remaining > 0
      invariant source.data == data && source.position <= |data|
      invariant output == data[..source.position]
      invariant remaining + |output| == size
      decreases remaining
    {
      ghost var at := source.position;
      var chunk := source.Read(if CHUNK < remaining then CHUNK else remaining);
      if chunk == [] {
        return Err(Truncated);
      }
      assert data[..at] + data[at..source.position] == data[..source.position];
      output := output + chunk;
      remaining := remaining - |chunk|;
    }
    var extra := source.Read(1);
    if extra != [] {
      return Err(Oversized);
    }
    assert data[..|data|] == data;
    return Ok(output);
  }

  // ----- the archive

  /** The file name under which a member's data is wanted. */
  function WantedName(m: Member, root: string, required: set<string>): Option<string> {
    var parts := ArchiveParts(m.name, root);
    if parts.Some? && m.kind.RegularEntry? && |parts.value| == 3
      && parts.value[1] == "images" && parts.value[2] in required
    then Some(parts.value[2]) else None
  }

  predicate MemberAccepted(m: Member, root: string, required: set<string>) {
    && ArchiveParts(m.name, root).Some?
    && !m.kind.OtherEntry?
    && (m.kind.RegularEntry? ==> 0 <= m.size <= MAX_MEMBER_BYTES)
    && (WantedName(m, root, required).Some? ==> |m.data| == m.size)
  }

  function Expanded(members: seq<Member>): int {
    if members == [] then 0
    else
      var last := members[|members| - 1];
      Expanded(members[..|members| - 1]) + if last.kind.RegularEntry? then last.size else 0
  }

  function PartsAt(members: seq<Member>, i: nat, root: string): Option<seq<string>>
    requires i < |members|
  {
    ArchiveParts(members[i].name, root)
  }

  function WantedAt(members: seq<Member>, i: nat, root: string, required: set<string>): Option<string>
    requires i < |members|
  {
    WantedName(members[i], root, required)
  }

  /** The first n members break no rule: each is acceptable, no two share a
      normalised path, and their number and summed size are within the limits. */
  ghost predicate Tolerable(members: seq<Member>, n: nat, root: string, required: set<string>)
    requires n <= |members|
  {
    && n <= MAX_MEMBERS
    && (forall i :: 0 <= i < n ==> MemberAccepted(members[i], root, required))
    && (forall i, j :: 0 <= i < j < n ==> PartsAt(members, i, root) != PartsAt(members, j, root))
    && Expanded(members[..n]) <= MAX_EXPANDED_BYTES
  }

  ghost predicate Provided(members: seq<Member>, n: nat, root: string, required: set<string>, f: string)
    requires n <= |members|
  {
    exists i :: 0 <= i < n && WantedAt(members, i, root, required) == Some(f)
  }

  /** Archives that can be extracted. */
  ghost predicate ArchiveAccepted(members: seq<Member>, root: string, required: set<string>) {
    && members != []
    && Tolerable(members, |members|, root, required)
    && forall f :: f in required ==> Provided(members, |members|, root, required, f)
  }

  /** The files extracted from the first n members: a name for every member whose
      data is wanted, with that member's data, and no other name. */
  ghost predicate Extracted(members: seq<Member>, n: nat, root: string, required: set<string>,
      files: map<string, seq<byte>>)
    requires n <= |members|
  {
    && (forall f :: f in files ==> Provided(members, n, root, required, f))
    && (forall i :: 0 <= i < n && WantedAt(members, i, root, required).Some? ==>
          var f := WantedAt(members, i, root, required).value; f in files && files[f] == members[i].data)
  }

  /** The normalised paths of the first n members. */
  ghost predicate Seen(members: seq<Member>, n: nat, root: string, seen: set<seq<string>>)
    requires n <= |members|
  {
    forall p :: p in seen <==> exists i :: 0 <= i < n && PartsAt(members, i, root) == Some(p)
  }

  lemma {:induction false} ExpandedGrows(members: seq<Member>, n: nat, m: nat)
    requires n <= m <= |members|
    requires forall i :: 0 <= i < m && members[i].kind.RegularEntry? ==> 0 <= members[i].size
    ensures Expanded(members[..n]) <= Expanded(members[..m])
    decreases m
  {
    if n < m {
      ExpandedStep(members, m - 1);
      ExpandedGrows(members, n, m - 1);
    }
  }

  lemma ExpandedStep(members: seq<Member>, n: nat)
    requires n < |members|
    ensures Expanded(members[..n + 1]) ==
            Expanded(members[..n]) + if members[n].kind.RegularEntry? then members[n].size else 0
  {
    assert members[..n + 1][..n] == members[..n];
  }

  /** A rule broken in a prefix is broken in the archive. */
  lemma BrokenRuleRejects(members: seq<Member>, n: nat, root: string, required: set<string>)
    requires n <= |members| && !Tolerable(members, n, root, required)
    ensures !ArchiveAccepted(members, root, required)
  {
    if forall i :: 0 <= i < |members| ==> MemberAccepted(members[i], root, required) {
      ExpandedGrows(members, n, |members|);
    }
  }

  /** A rejected member, or one whose path or size does not fit, breaks a rule. */
  lemma MemberRejects(members: seq<Member>, n: nat, root: string, required: set<string>)
    requires n < |members|
    requires !MemberAccepted(members[n], root, required)
    ensures !ArchiveAccepted(members, root, required)
  {
    BrokenRuleRejects(members, n + 1, root, required);
  }

  lemma DuplicateRejects(members: seq<Member>, n: nat, root: string, required: set<string>, seen: set<seq<string>>)
    requires n < |members| && Seen(members, n, root, seen)
    requires PartsAt(members, n, root).Some? && PartsAt(members, n, root).value in seen
    ensures !ArchiveAccepted(members, root, required)
  {
    var i :| 0 <= i < n && PartsAt(members, i, root) == PartsAt(members, n, root);
    BrokenRuleRejects(members, n + 1, root, required);
  }

  /** One more acceptable member keeps the rules. */
  lemma Tolerates(members: seq<Member>, n: nat, root: string, required: set<string>, seen: set<seq<string>>)
    requires n < |members| && n < MAX_MEMBERS && Tolerable(members, n, root, required)
    requires MemberAccepted(members[n], root, required)
    requires Seen(members, n, root, seen) && PartsAt(members, n, root).value !in seen
    requires Expanded(members[..n + 1]) <= MAX_EXPANDED_BYTES
    ensures Tolerable(members, n + 1, root, required)
  {
    var p := PartsAt(members, n, root).value;
    assert forall i :: 0 <= i < n ==> PartsAt(members, i, root) != Some(p);
  }

  lemma SeesMore(members: seq<Member>, n: nat, root: string, seen: set<seq<string>>)
    requires n < |members| && Seen(members, n, root, seen) && PartsAt(members, n, root).Some?
    ensures Seen(members, n + 1, root, seen + {PartsAt(members, n, root).value})
  {
    var added := PartsAt(members, n, root).value;
    forall p ensures p in seen + {added} <==> exists i :: 0 <= i < n + 1 && PartsAt(members, i, root) == Some(p) {
      if p == added {
        assert PartsAt(members, n, root) == Some(p);
      } else if p in seen {
        var i :| 0 <= i < n && PartsAt(members, i, root) == Some(p);
      }
    }
  }

  /** A wanted name stands for one normalised path. */
  lemma WantedPath(m: Member, root: string, required: set<string>)
    requires WantedName(m, root, required).Some?
    ensures ArchiveParts(m.name, root) == Some([root, "images", WantedName(m, root, required).value])
  {
    var parts := ArchiveParts(m.name, root).value;
    assert parts == [parts[0], parts[1], parts[2]];
  }

  lemma WantedNameIsNew(members: seq<Member>, n: nat, root: string, required: set<string>, seen: set<seq<string>>,
      i: nat)
    requires i < n < |members| && Seen(members, n, root, seen)
    requires PartsAt(members, n, root).Some? && PartsAt(members, n, root).value !in seen
    requires WantedAt(members, n, root, required).Some?
    ensures WantedAt(members, i, root, required) != WantedAt(members, n, root, required)
  {
    WantedPath(members[n], root, required);
    if WantedAt(members, i, root, required).Some? {
      WantedPath(members[i], root, required);
      assert PartsAt(members, i, root) == Some(PartsAt(members, i, root).value);
    }
  }

  /** A member whose data is not wanted leaves the files as they are. */
  lemma NothingExtracted(members: seq<Member>, n: nat, root: string, required: set<string>,
      files: map<string, seq<byte>>)
    requires n < |members| && Extracted(members, n, root, required, files)
    requires WantedAt(members, n, root, required).None?
    ensures Extracted(members, n + 1, root, required, files)
  {
    forall f | f in files ensures Provided(members, n + 1, root, required, f) {
      var i :| 0 <= i < n && WantedAt(members, i, root, required) == Some(f);
    }
  }

  lemma FileExtracted(members: seq<Member>, n: nat, root: string, required: set<string>, seen: set<seq<string>>,
      files: map<string, seq<byte>>)
    requires n < |members| && Extracted(members, n, root, required, files) && Seen(members, n, root, seen)
    requires PartsAt(members, n, root).Some? && PartsAt(members, n, root).value !in seen
    requires WantedAt(members, n, root, required).Some?
    ensures var f := WantedAt(members, n, root, required).value;
      f !in files && Extracted(members, n + 1, root, required, files[f := members[n].data])
  {
    var f := WantedAt(members, n, root, required).value;
    forall i | 0 <= i < n ensures WantedAt(members, i, root, required) != Some(f) {
      WantedNameIsNew(members, n, root, required, seen, i);
    }
    var more := files[f := members[n].data];
    forall g | g in more ensures Provided(members, n + 1, root, required, g) {
      if g == f {
        assert WantedAt(members, n, root, required) == Some(g);
      } else {
        var i :| 0 <= i < n && WantedAt(members, i, root, required) == Some(g);
      }
    }
  }

  lemma RequiredIsProvided(members: seq<Member>, root: string, required: set<string>, files: map<string, seq<byte>>)
    requires Extracted(members, |members|, root, required, files)
    ensures files.Keys <= required
    ensures (forall f :: f in required ==> Provided(members, |members|, root, required, f)) <==> required <= files.Keys
  {
    forall f | f in files ensures f in required {
      var i :| 0 <= i < |members| && WantedAt(members, i, root, required) == Some(f);
    }
    forall f | f in required ensures f in files <==> Provided(members, |members|, root, required, f) {
      if Provided(members, |members|, root, required, f) {
        var i :| 0 <= i < |members| && WantedAt(members, i, root, required) == Some(f);
        assert WantedAt(members, i, root, required).Some?;
      }
    }
  }

  /** What one pass of the loop checks before it looks at the data: the path, the
      kind and the size of the member, and the sum of the sizes. */
  method AdmitMember(members: seq<Member>, n: nat, root: string, required: set<string>, seen: set<seq<string>>,
      expandedBytes: int)
    returns (r: Result<seq<string>, ExtractError>, grown: int)
    requires n < |members| && Tolerable(members, n, root, required) && Seen(members, n, root, seen)
    requires expandedBytes == Expanded(members[..n])
    ensures r.Err? ==> !ArchiveAccepted(members, root, required) && r.error != DuplicateEvidence
    ensures r.Ok? ==> PartsAt(members, n, root) == Some(r.value) && r.value !in seen && n < MAX_MEMBERS
    ensures r.Ok? ==> grown == Expanded(members[..n + 1]) <= MAX_EXPANDED_BYTES
    ensures r.Ok? ==>
      !members[n].kind.OtherEntry? && (members[n].kind.RegularEntry? ==> 0 <= members[n].size <= MAX_MEMBER_BYTES)
  {
    var m := members[n];
    grown := expandedBytes;
    ExpandedStep(members, n);
    if n + 1 > MAX_MEMBERS {
      BrokenRuleRejects(members, n + 1, root, required);
      return Err(TooMany), grown;
    }
    var parts := ArchiveParts(m.name, root);
    if parts.None? {
      MemberRejects(members, n, root, required);
      return Err(UnsafePath), grown;
    }
    if parts.value in seen {
      DuplicateRejects(members, n, root, required, seen);
      return Err(DuplicatePath), grown;
    }
    if m.kind.DirectoryEntry? {
      return Ok(parts.value), grown;
    }
    if !m.kind.RegularEntry? {
      MemberRejects(members, n, root, required);
      return Err(NotRegular), grown;
    }
    if m.size < 0 || m.size > MAX_MEMBER_BYTES {
      MemberRejects(members, n, root, required);
      return Err(BadSize), grown;
    }
    grown := grown + m.size;
    if grown > MAX_EXPANDED_BYTES {
      BrokenRuleRejects(members, n + 1, root, required);
      return Err(TooLarge), grown;
    }
    return Ok(parts.value), grown;
  }

  /** `_safe_extract_image_evidence`. It succeeds exactly on acceptable archives;
      then the extracted names are the required ones, each with exactly its
      member's bytes. Since paths are compared after normalisation, the later
      check for duplicate evidence never rejects. */
  method ExtractEvidence(members: seq<Member>, root: string, required: set<string>)
    returns (r: Result<map<string, seq<byte>>, ExtractError>)
    ensures r.Ok? <==> ArchiveAccepted(members, root, required)
    ensures r.Ok? ==> r.value.Keys == required && Extracted(members, |members|, root, required, r.value)
    ensures r != Err(DuplicateEvidence)
  {
    var files: map<string, seq<byte>> := map[];
    var seen: set<seq<string>> := {};
    var expandedBytes := 0;
    for n := 0 to |members|
      invariant Tolerable(members, n, root, required)
      invariant Seen(members, n, root, seen)
      invariant expandedBytes == Expanded(members[..n])
      invariant Extracted(members, n, root, required, files)
    {
      var m := members[n];
      var parts, grown := AdmitMember(members, n, root, required, seen, expandedBytes);
      if parts.Err? {
        return Err(parts.error);
      }
      var wanted := WantedName(m, root, required);
      if wanted.None? {
        NothingExtracted(members, n, root, required, files);
      } else {
        FileExtracted(members, n, root, required, seen, files);
        if wanted.value in files {
          return Err(DuplicateEvidence);
        }
        var content := CopyExactly(m.data, m.size);
        if content.Err? {
          MemberRejects(members, n, root, required);
          return Err(content.error);
        }
        files := files[wanted.value := content.value];
      }
      Tolerates(members, n, root, required, seen);
      SeesMore(members, n, root, seen);
      seen, expandedBytes := seen + {parts.value}, grown;
    }
    RequiredIsProvided(members, root, required, files);
    if members == [] {
      return Err(EmptyArchive);
    }
    if required - files.Keys != {} {
      ghost var f :| f in required - files.Keys;
      return Err(Missing);
    }
    assert forall f :: f in required ==> f in required - files.Keys || f in files;
    return Ok(files);
  }

  // ----- member names

  /** The components of a name that count. */
  ghost predicate Counts(part: string) { part != "" && part != "." }

  lemma {:induction false} DotsLeftOut(parts: seq<string>)
    ensures forall p :: p in WithoutDots(parts) <==> p in parts && Counts(p)
    ensures (forall p :: p in parts ==> Counts(p)) ==> WithoutDots(parts) == parts
    decreases |parts|
  {
    if parts != [] {
      DotsLeftOut(parts[1..]);
      assert parts == [parts[0]] + parts[1..];
      if forall p :: p in parts ==> Counts(p) {
        assert Counts(parts[0]) && forall p :: p in parts[1..] ==> p in parts;
      }
    }
  }

  lemma {:induction false} DotsLeftOutOfSum(a: seq<string>, b: seq<string>)
    ensures WithoutDots(a + b) == WithoutDots(a) + WithoutDots(b)
    decreases |a|
  {
    if a == [] {
      assert a + b == b;
    } else {
      assert (a + b)[1..] == a[1..] + b;
      DotsLeftOutOfSum(a[1..], b);
    }
  }

  /** A name is rejected when it is empty or absolute, has a backslash or a NUL, climbs
      up with two dots anywhere, or does not start at the root; and only then. */
  lemma NameRejectedExactly(name: string, root: string)
    requires root != "" && root != "." && root != ".."
    ensures ArchiveParts(name, root).None? <==>
      || name == "" || name[0] == '/' || '\\' in name || '\0' in name
      || ".." in SplitSlash(name)
      || WithoutDots(SplitSlash(name)) == [] || WithoutDots(SplitSlash(name))[0] != root
  {
    DotsLeftOut(SplitSlash(name));
  }

  /** A plain relative path below the root keeps its components, written once or with
      empty and single-dot components between them. */
  lemma PlainNameKept(parts: seq<string>, root: string)
    requires parts != [] && parts[0] == root
    requires forall i :: 0 <= i < |parts| ==>
      Counts(parts[i]) && parts[i] != ".." && forall c :: c in parts[i] ==> c != '/' && c != '\\' && c != '\0'
    ensures ArchiveParts(JoinSlash(parts), root) == Some(parts)
  {
    var name := JoinSlash(parts);
    SplitOfJoin(parts);
    NoBadCharacter(parts);
    DotsLeftOut(parts);
    assert ".." !in parts;
    FirstCharacter(parts);
  }

  lemma FirstCharacter(parts: seq<string>)
    requires parts != [] && parts[0] != ""
    ensures JoinSlash(parts) != [] && JoinSlash(parts)[0] == parts[0][0]
  {
  }

  lemma {:induction false} NoBadCharacter(parts: seq<string>)
    requires parts != []
    requires forall i :: 0 <= i < |parts| ==> forall c :: c in parts[i] ==> c != '\\' && c != '\0'
    ensures '\\' !in JoinSlash(parts) && '\0' !in JoinSlash(parts)
    decreases |parts|
  {
    if |parts| > 1 {
      NoBadCharacter(parts[1..]);
    }
  }

  lemma {:induction false} SplitPiece(piece: string, rest: string)
    requires '/' !in piece
    ensures SplitSlash(piece) == [piece]
    ensures SplitSlash(piece + ['/'] + rest) == [piece] + SplitSlash(rest)
    decreases |piece|
  {
    var s := piece + ['/'] + rest;
    if piece == [] {
      assert s[1..] == rest;
    } else {
      assert s[1..] == piece[1..] + ['/'] + rest && s[0] == piece[0];
      SplitPiece(piece[1..], rest);
      assert [piece[0]] + piece[1..] == piece;
    }
  }

  lemma {:induction false} SplitOfJoin(parts: seq<string>)
    requires parts != [] && forall i :: 0 <= i < |parts| ==> '/' !in parts[i]
    ensures SplitSlash(JoinSlash(parts)) == parts
    decreases |parts|
  {
    if |parts| == 1 {
      SplitPiece(parts[0], []);
      assert [parts[0]] == parts;
    } else {
      SplitOfJoin(parts[1..]);
      SplitPiece(parts[0], JoinSlash(parts[1..]));
      assert [parts[0]] + parts[1..] == parts;
    }
  }

  /** The limits, in bytes and members. */
  lemma Limits()
    ensures MAX_MEMBERS == 4096 && MAX_MEMBER_BYTES == 134217728
    ensures MAX_EXPANDED_BYTES == 8 * MAX_MEMBER_BYTES && CHUNK == 1048576
  {
  }

  /** The evidence that is wanted: `images/NAME` below the root, NAME being required. */
  lemma WantedExactly(m: Member, root: string, required: set<string>, name: string)
    ensures WantedName(m, root, required) == Some(name) <==>
      m.kind == RegularEntry && name in required && ArchiveParts(m.name, root) == Some([root, "images", name])
  {
    if WantedName(m, root, required) == Some(name) {
      var parts := ArchiveParts(m.name, root).value;
      assert parts == [parts[0], parts[1], parts[2]];
    }
  }
}
