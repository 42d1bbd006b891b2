/** Paths, modes and names of a bundle. */
module BundleLaws {
  // The letters and numbers of a bundle, against the checks that read them
  // (scripts/release_bundle.py:60-130, 184-277, 524-598, 804-831).

  import opened Text
  import opened BundlePaths
  import opened Bundle
  import opened BundleCopy

  // ----- modes

  /** Permission bits by their three octal digits. */
  function Octal(user: nat, group: nat, other: nat): int { user * 64 + group * 8 + other }

  lemma Modes(mode: int)
    ensures DIRECTORY_MODE == Octal(7, 5, 5)
    ensures mode in MEMBER_MODES <==> mode == Octal(6, 0, 0) || mode == Octal(6, 4, 4) || mode == Octal(7, 5, 5)
  {
  }

  // ----- the two files that are no members

  function MetadataText(): string { "production/" + "release-metadata.json" }

  function SignatureText(): string { "production/" + "release-metadata.sigstore.json" }

  lemma MetadataNames()
    ensures JoinSlash(METADATA) == MetadataText() && JoinSlash(SIGNATURE) == SignatureText()
    ensures METADATA == ["production", "release-metadata.json"]
    ensures SIGNATURE == ["production", "release-metadata.sigstore.json"]
  {
    assert METADATA[1..] == ["release-metadata.json"] && SIGNATURE[1..] == ["release-metadata.sigstore.json"];
  }

  /** A verified bundle: its root is open to read, the metadata is a file that its owner
      may write, and a signature, if there is one, a file that nobody may. */
  lemma VerifiedMetadata(tree: Tree, rootMode: int, members: seq<Member>)
    requires Pinned(tree, rootMode, members)
    ensures var metadata, signature: Path :=
        ["production", "release-metadata.json"], ["production", "release-metadata.sigstore.json"];
      && rootMode == Octal(7, 5, 5)
      && metadata in tree && tree[metadata].File? && tree[metadata].mode == Octal(6, 4, 4)
      && (signature in tree ==> tree[signature].File? && tree[signature].mode == Octal(4, 4, 4))
  {
    MetadataNames();
  }

  /** No check of the metadata asks for more. */
  lemma MetadataAccepted(tree: Tree, digest: string, links: nat, signature: Node)
    requires signature.File? && signature.mode == Octal(4, 4, 4)
    ensures var bare := tree[["production", "release-metadata.json"] := File(digest, Octal(6, 4, 4), links)];
      && MetadataInPlace(bare[["production", "release-metadata.sigstore.json"] := signature], Octal(7, 5, 5))
      && (["production", "release-metadata.sigstore.json"] !in tree ==> MetadataInPlace(bare, Octal(7, 5, 5)))
  {
    MetadataNames();
    assert |"release-metadata.json"| != |"release-metadata.sigstore.json"|;
  }

  // ----- member paths

  /** A relative path of the bundle as text: it has no component that is empty or made of
      one or two dots, no space at its ends, no control character and no backslash, and
      does not name the metadata or its signature. */
  ghost predicate IsMemberText(value: string) {
    && value != MetadataText() && value != SignatureText() && IsTrim(value)
    && (forall c :: c in value ==> c != '\\' && c >= ' ')
    && forall part :: part in SplitSlash(value) ==> part != "" && part != "." && part != ".."
  }

  lemma PartsAreText(value: string)
    ensures SplitSlash(value) == METADATA <==> value == MetadataText()
    ensures SplitSlash(value) == SIGNATURE <==> value == SignatureText()
  {
    MetadataNames();
    SplitSlashExactly(value);
    MetadataSplits();
  }

  lemma MetadataSplits()
    ensures SplitSlash(MetadataText()) == METADATA && SplitSlash(SignatureText()) == SIGNATURE
  {
    MetadataNames();
    PathsAreSplit(METADATA);
    PathsAreSplit(SIGNATURE);
  }

  lemma PathsAreSplit(p: Path)
    requires |p| == 2 && IsPath(p)
    ensures SplitSlash(JoinSlash(p)) == p
  {
    SplitOfText(p);
    assert JoinSlash(p) == PathText(p) by {
      assert p[1..] == [p[1]];
    }
  }

  /** A member path is accepted exactly when it is such a text, or a lone dot. */
  lemma MemberPathExactly(value: string)
    ensures ValidMemberPath(value) <==> value == "." || IsMemberText(value)
  {
    PartsAreText(value);
    SplitSlashExactly(value);
    if value == "." {
      TrimIsStripped(".");
      assert |METADATA| == |SIGNATURE| == 2;
    } else {
      StrippedMeansTrim(value);
      PathMeansParts(SplitSlash(value));
      assert forall i :: 0 <= i < |value| ==> value[i] in value;
    }
  }

  lemma StrippedMeansTrim(value: string)
    ensures value != "" && Strip(value) == value <==> IsTrim(value)
  {
    if NonBlank(value) {
      StripTrims(value);
    } else {
      BlankStrips(value);
    }
  }

  lemma PathMeansParts(parts: seq<string>)
    requires parts != [] && forall i :: 0 <= i < |parts| ==> '/' !in parts[i]
    ensures IsPath(parts) <==> forall part :: part in parts ==> part != "" && part != "." && part != ".."
  {
    forall i | 0 <= i < |parts| ensures IsPart(parts[i]) <==> parts[i] != "" && parts[i] != "." && parts[i] != ".." {
      assert forall k :: 0 <= k < |parts[i]| ==> parts[i][k] in parts[i];
    }
    assert forall i :: 0 <= i < |parts| ==> parts[i] in parts;
    if IsPath(parts) {
      forall part | part in parts ensures part != "" && part != "." && part != ".." {
        var i :| 0 <= i < |parts| && parts[i] == part;
      }
    }
  }

  /** A digest is 64 small hexadecimal digits. */
  lemma DigestExactly(s: string)
    ensures IsDigest(s) <==> |s| == 64 && forall i :: 0 <= i < |s| ==> s[i] in HEX
  {
    forall i | 0 <= i < |s| ensures IsDigit(s[i]) || 'a' <= s[i] <= 'f' <==> s[i] in HEX {
      HexDigit(s[i]);
    }
  }

  // ----- names that are skipped or forbidden

  lemma SkippedNames(name: string)
    ensures name in SKIPPED_NAMES <==>
      name == ".DS_Store" || name == ".pytest_cache" || name == ".ruff_cache" || name == ".mypy_cache"
    ensures name in DEVELOPMENT_NAMES <==>
      || name == ".git" || name == "__pycache__" || name == ".pytest_cache" || name == ".ruff_cache"
      || name == ".mypy_cache"
  {
  }

  /** An entry of the source that is no cache and below none is copied as it is. */
  lemma OrdinaryIsCopied(source: Tree, copy: Tree, p: Path)
    requires IsCopy(source, copy) && p in source && p != []
    requires "__pycache__" !in p
    requires p[|p| - 1] !in {".DS_Store", ".pytest_cache", ".ruff_cache", ".mypy_cache"}
    ensures p in copy
    ensures source[p].File? ==> copy[p] == File(source[p].sha256, source[p].mode, 1)
    ensures source[p].Directory? ==> copy[p] == Directory(Octal(7, 5, 5))
  {
    SkippedNames(p[|p| - 1]);
    assert Kept(source, p);
  }
}
