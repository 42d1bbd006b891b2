/** The licence vocabulary of the release policy: the normal form of a declared
    licence, approval, and obligations
    (scripts/generate_supply_chain_evidence.py:44-108, 247-334). */
module Licenses {
  import opened Ordering
  import opened Text
  import Spdx

  const APPROVED: set<string> := {
    "0BSD", "Apache-2.0", "BSD-2-Clause", "BSD-3-Clause", "ISC", "MIT", "MIT-0", "MPL-2.0", "PSF-2.0"}

  const UNKNOWN: set<string> := {
    "", "n/a", "none", "null", "see license in package", "unlicensed", "unknown"}

  const ALIASES: map<string, string> := map[
    "0bsd" := "0BSD",
    "apache 2" := "Apache-2.0",
    "apache 2.0" := "Apache-2.0",
    "apache-2.0" := "Apache-2.0",
    "apache license 2.0" := "Apache-2.0",
    "apache license version 2.0" := "Apache-2.0",
    "apache software license" := "Apache-2.0",
    "bsd 2-clause license" := "BSD-2-Clause",
    "bsd 3-clause license" := "BSD-3-Clause",
    "bsd-2-clause" := "BSD-2-Clause",
    "bsd-3-clause" := "BSD-3-Clause",
    "2-clause bsd license" := "BSD-2-Clause",
    "3-clause bsd license" := "BSD-3-Clause",
    "isc" := "ISC",
    "isc license" := "ISC",
    "mit" := "MIT",
    "mit license" := "MIT",
    "mit-0" := "MIT-0",
    "mozilla public license 2.0" := "MPL-2.0",
    "mozilla public license 2.0 (mpl 2.0)" := "MPL-2.0",
    "mpl-2.0" := "MPL-2.0",
    "psf-2.0" := "PSF-2.0",
    "psfl" := "PSF-2.0",
    "python software foundation license" := "PSF-2.0"]

  // The verifier indexes string literals of up to some forty characters only,
  // so longer texts are put together from phrases.

  const PSF_TEXT_PREFIX :=
    "1. This LICENSE AGREEMENT is between " + "the Python Software Foundation (\"PSF\"), " +
    "and the Individual or Organization"

  const BASE_OBLIGATION := "retain-upstream-license" + "-and-copyright-notices"

  const REVIEW_OBLIGATIONS: set<string> := {
    "comply-with-reviewed-exception" + "-and-upstream-license-terms", BASE_OBLIGATION}

  // ----- white space

  function WordLength(s: string): (n: nat)
    ensures n <= |s|
  {
    if s != [] && !IsSpace(s[0]) then 1 + WordLength(s[1..]) else 0
  }

  /** `value.split()`. */
  function Words(s: string): seq<string>
    decreases |s|
  {
    if s == [] then []
    else if IsSpace(s[0]) then Words(s[1..])
    else [s[..WordLength(s)]] + Words(s[WordLength(s)..])
  }

  predicate IsSolid(w: string) { w != [] && forall i :: 0 <= i < |w| ==> !IsSpace(w[i]) }

  /** `" ".join(value.strip().split())`. */
  function Collapse(s: string): string { Spdx.Spell(Words(s)) }

  lemma {:induction false} WordLengthOf(w: string, rest: string)
    requires forall i :: 0 <= i < |w| ==> !IsSpace(w[i])
    requires rest == [] || IsSpace(rest[0])
    ensures WordLength(w + rest) == |w|
  {
    if w == [] {
      assert w + rest == rest;
    } else {
      assert (w + rest)[1..] == w[1..] + rest;
      WordLengthOf(w[1..], rest);
    }
  }

  lemma FirstWord(w: string, rest: string)
    requires IsSolid(w) && (rest == [] || IsSpace(rest[0]))
    ensures Words(w + rest) == [w] + Words(rest)
  {
    WordLengthOf(w, rest);
    assert (w + rest)[..|w|] == w && (w + rest)[|w|..] == rest;
  }

  lemma {:induction false} WordsOfSpelling(ws: seq<string>)
    requires forall i :: 0 <= i < |ws| ==> IsSolid(ws[i])
    ensures Words(Spdx.Spell(ws)) == ws
  {
    if |ws| == 1 {
      assert ws[0] + [] == ws[0] && [ws[0]] + [] == ws;
      FirstWord(ws[0], []);
    } else if |ws| > 1 {
      var rest := [' '] + Spdx.Spell(ws[1..]);
      WordsOfSpelling(ws[1..]);
      assert rest[1..] == Spdx.Spell(ws[1..]);
      FirstWord(ws[0], rest);
      assert ws[0] + [' '] + Spdx.Spell(ws[1..]) == ws[0] + rest;
      assert [ws[0]] + ws[1..] == ws;
    }
  }

  lemma {:induction false} WordLengthSolid(s: string)
    ensures forall i :: 0 <= i < WordLength(s) ==> !IsSpace(s[i])
    ensures s != [] && !IsSpace(s[0]) ==> WordLength(s) > 0
  {
    if s != [] && !IsSpace(s[0]) {
      WordLengthSolid(s[1..]);
    }
  }

  lemma {:induction false} WordsAreSolid(s: string)
    ensures forall i :: 0 <= i < |Words(s)| ==> IsSolid(Words(s)[i])
    decreases |s|
  {
    if s != [] {
      if IsSpace(s[0]) {
        WordsAreSolid(s[1..]);
      } else {
        WordLengthSolid(s);
        WordsAreSolid(s[WordLength(s)..]);
      }
    }
  }

  lemma CollapseIsIdempotent(s: string)
    ensures Collapse(Collapse(s)) == Collapse(s)
  {
    WordsAreSolid(s);
    WordsOfSpelling(Words(s));
  }

  lemma CollapseOfWord(w: string)
    requires IsSolid(w)
    ensures Collapse(w) == w
  {
    assert w + [] == w && [w] + [] == [w];
    FirstWord(w, []);
  }

  // ----- normal form

  /** `_normalize_license`. */
  function Normalize(value: Option<string>): Option<string> {
    if value.None? then None
    else
      var normalized := Collapse(value.value);
      if Lower(normalized) in UNKNOWN then None
      else if PSF_TEXT_PREFIX <= normalized then Some("PSF-2.0")
      else if Lower(normalized) in ALIASES then Some(ALIASES[Lower(normalized)])
      else Some(normalized)
  }

  lemma AliasesAreApproved()
    ensures forall k :: k in ALIASES ==> ALIASES[k] in APPROVED
  {
  }

  lemma LowerOfApproved()
    ensures Lower("0BSD") == "0bsd" && Lower("Apache-2.0") == "apache-2.0" && Lower("BSD-2-Clause") == "bsd-2-clause"
    ensures Lower("BSD-3-Clause") == "bsd-3-clause" && Lower("ISC") == "isc" && Lower("MIT") == "mit"
    ensures Lower("MIT-0") == "mit-0" && Lower("MPL-2.0") == "mpl-2.0" && Lower("PSF-2.0") == "psf-2.0"
  {
  }

  lemma ApprovedIsSolid(t: string)
    requires t in APPROVED
    ensures IsSolid(t) && t[0] != '1'
  {
  }

  lemma ApprovedIsItsOwnAlias(t: string)
    requires t in APPROVED
    ensures Lower(t) in ALIASES && ALIASES[Lower(t)] == t
  {
    LowerOfApproved();
  }

  lemma ApprovedIsKnown(t: string)
    requires t in APPROVED
    ensures Lower(t) !in UNKNOWN
  {
    LowerOfApproved();
  }

  /** An approved identifier is its own normal form. */
  lemma ApprovedIsNormal(t: string)
    requires t in APPROVED
    ensures Normalize(Some(t)) == Some(t)
  {
    ApprovedIsSolid(t);
    CollapseOfWord(t);
    ApprovedIsItsOwnAlias(t);
    ApprovedIsKnown(t);
    NotPsfText(t);
  }

  lemma NotPsfText(t: string)
    requires t != [] && t[0] != '1'
    ensures !(PSF_TEXT_PREFIX <= t)
  {
    assert PSF_TEXT_PREFIX[0] == '1';
  }

  lemma SolidStart(ws: seq<string>)
    requires ws != [] && forall i :: 0 <= i < |ws| ==> IsSolid(ws[i])
    ensures NonBlank(Spdx.Spell(ws))
  {
    var r := Spdx.Spell(ws);
    assert r[0] == ws[0][0];
    assert !IsSpace(r[0]);
  }

  lemma CollapseNonBlank(s: string)
    requires Lower(Collapse(s)) !in UNKNOWN
    ensures NonBlank(Collapse(s))
  {
    WordsAreSolid(s);
    assert Lower("") == "";
    if Words(s) != [] {
      SolidStart(Words(s));
    }
  }

  /** The normal form is a fixed point, and never blank. */
  lemma NormalizeIsIdempotent(value: Option<string>)
    ensures Normalize(Normalize(value)) == Normalize(value)
    ensures Normalize(value).Some? ==> NonBlank(Normalize(value).value)
  {
    if value.Some? && Normalize(value).Some? {
      var r := Normalize(value).value;
      AliasesAreApproved();
      if r in APPROVED {
        ApprovedIsNormal(r);
        ApprovedIsSolid(r);
        assert !IsSpace(r[0]);
      } else {
        CollapseIsIdempotent(value.value);
        CollapseNonBlank(value.value);
      }
    }
  }

  // ----- approval and obligations

  /** `_approved_license_expression`: the identifiers, if all are approved. */
  function ApprovedIdentifiers(expression: string): Option<set<string>> {
    var ids := Spdx.Identifiers(expression);
    if ids.Some? && ids.value != {} && ids.value <= APPROVED then ids else None
  }

  function SpecificObligations(identifier: string): set<string> {
    match identifier
    case "Apache-2.0" => {"preserve-apache-notice-and-state-changes"}
    case "MPL-2.0" => {"publish-modified-mpl-covered-file-source"}
    case "PSF-2.0" => {"include-psf-license-and-change-summary"}
    case _ => {}
  }

  function Obligations(identifiers: set<string>): set<string> {
    {BASE_OBLIGATION} + set i, o | i in identifiers && o in SpecificObligations(i) :: o
  }

  // ----- `sorted` of a set of strings

  predicate IsListing(s: seq<string>, elements: set<string>) {
    StrictlyIncreasing(StrLess, s) && Elements(s) == elements
  }

  /** The sorted list of a set is unique, so comparing with `sorted(elements)`
      is the same as being an ascending list of the elements. */
  lemma ListingIsUnique(a: seq<string>, b: seq<string>, elements: set<string>)
    requires IsListing(a, elements) && IsListing(b, elements)
    ensures a == b
  {
    StrLessIsTotal();
    TotalIsWeak(StrLess);
    forall x ensures x in a <==> x in b {
      assert x in a <==> x in Elements(a);
      assert x in b <==> x in Elements(b);
    }
    IncreasingUnique(StrLess, a, b);
  }

  lemma SortIsListing(listed: seq<string>, elements: set<string>)
    requires forall x :: x in listed <==> x in elements
    requires forall i, j :: 0 <= i < j < |listed| ==> listed[i] != listed[j]
    ensures IsListing(Sort(StrLess, listed), elements)
  {
    var s := Sort(StrLess, listed);
    StrLessIsTotal();
    TotalIsWeak(StrLess);
    SortCorrect(StrLess, listed);
    SortOfDistinct(StrLess, listed);
    forall x ensures x in Elements(s) <==> x in elements {
      assert x in Elements(s) <==> x in Elements(listed);
      assert x in Elements(listed) <==> x in listed;
    }
  }

  /** `sorted(elements)`; the set is read in an arbitrary order. */
  method SortedList(elements: set<string>) returns (s: seq<string>)
    ensures IsListing(s, elements)
  {
    var listed: seq<string>, remaining := [], elements;
    while remaining != {}
      invariant remaining <= elements
      invariant forall x :: x in listed <==> x in elements && x !in remaining
      invariant forall i, j :: 0 <= i < j < |listed| ==> listed[i] != listed[j]
      decreases remaining
    {
      var x :| x in remaining;
      remaining := remaining - {x};
      listed := listed + [x];
    }
    SortIsListing(listed, elements);
    s := Sort(StrLess, listed);
  }

  lemma ListingExists(elements: set<string>) returns (s: seq<string>)
    ensures IsListing(s, elements)
  {
    var listed := SomeOrder(elements);
    SortIsListing(listed, elements);
    s := Sort(StrLess, listed);
  }
}
