/** The two loaders of the exact-artifact licence conclusions
    (scripts/generate_supply_chain_evidence.py:413-577 and
    scripts/finalize_release_evidence.py:374-396, 2585-2664). */
module Conclusions {
  import opened Text
  import opened Licenses
  import opened Policy
  import Spdx
  import SupplyCheck

  /** An entry of the conclusions file, as written. */
  datatype Entry = Entry(
    ecosystem: string, name: string, version: string, artifact: string,
    declared: string, concluded: string, textPath: string, textSha256: string)

  /** A licence text in the repository: its digest and its size. */
  datatype TextFile = TextFile(sha256: string, size: nat)

  datatype LoadError = InvalidEntry | SecondText | DuplicateKey

  // ----- one entry

  function KeyOf(e: Entry): ArtifactKey {
    ((Lower(Strip(e.ecosystem)), CanonicalName(Strip(e.name)), Strip(e.version)), Strip(e.artifact))
  }

  function ConclusionOf(e: Entry): Conclusion {
    Conclusion(Collapse(Strip(e.declared)), Strip(e.concluded), Strip(e.textPath), Strip(e.textSha256))
  }

  /** An entry as it is stored: its key and its conclusion. */
  datatype Stored = Stored(key: ArtifactKey, conclusion: Conclusion)

  function TextOf(c: Conclusion): (string, string) { (c.textPath, c.textSha256) }

  function Stores(entries: seq<Entry>): (r: seq<Stored>)
    ensures |r| == |entries|
  {
    seq(|entries|, i requires 0 <= i < |entries| => Stored(KeyOf(entries[i]), ConclusionOf(entries[i])))
  }

  /** `_normalize_license_text_path` returns its argument or rejects it. */
  predicate IsTextPath(path: string) {
    var parts := SplitSlash(path);
    && path != [] && path == Strip(path) && '\\' !in path
    && (forall i :: 0 <= i < |path| ==> path[i] as int >= 32)
    && (forall i :: 0 <= i < |parts| ==> parts[i] != "" && parts[i] != "." && parts[i] != "..")
    && |parts| >= 3 && parts[0] == "third_party" && parts[1] == "licenses"
  }

  predicate EntryWellFormed(e: Entry) {
    && NonBlank(e.ecosystem) && NonBlank(e.name) && NonBlank(e.version) && NonBlank(e.artifact)
    && NonBlank(e.declared) && NonBlank(e.concluded) && NonBlank(e.textPath) && NonBlank(e.textSha256)
    && KeyOf(e).0.0 in PYTHON && Strip(e.name) == KeyOf(e).0.1
    && IsSha256(KeyOf(e).1) && IsSha256(Strip(e.textSha256))
  }

  /** The generator reads the text from the repository. */
  predicate GeneratorAccepts(e: Entry, texts: map<string, TextFile>) {
    && EntryWellFormed(e)
    && IsTextPath(Strip(e.textPath)) && Strip(e.textPath) in texts
    && texts[Strip(e.textPath)].size > 0 && texts[Strip(e.textPath)].sha256 == Strip(e.textSha256)
    && ApprovedIdentifiers(Strip(e.concluded)).Some?
  }

  /** The finalizer reads it from the source inputs, and takes the path as written. */
  predicate FinalizerAccepts(e: Entry, texts: map<string, TextFile>) {
    && EntryWellFormed(e)
    && IsTextPath(e.textPath) && e.textPath in texts
    && texts[e.textPath].sha256 == Strip(e.textSha256)
    && SupplyCheck.WithinAllowlist(Strip(e.concluded))
  }

  // ----- the whole file

  /** No artifact is concluded twice, and the entries of one package name one text. */
  ghost predicate Consistent(stored: seq<Stored>) {
    && (forall i, j :: 0 <= i < j < |stored| ==> stored[i].key != stored[j].key)
    && forall i, j :: 0 <= i < j < |stored| && stored[i].key.0 == stored[j].key.0 ==>
         TextOf(stored[i].conclusion) == TextOf(stored[j].conclusion)
  }

  ghost predicate FileAccepted(entries: seq<Entry>, accepts: Entry -> bool) {
    (forall i :: 0 <= i < |entries| ==> accepts(entries[i])) && Consistent(Stores(entries))
  }

  /** The result holds these conclusions and no others. */
  ghost predicate IsLoaded(stored: seq<Stored>, result: map<ArtifactKey, Conclusion>) {
    && (forall i :: 0 <= i < |stored| ==> stored[i].key in result && result[stored[i].key] == stored[i].conclusion)
    && forall k :: k in result ==> exists i :: 0 <= i < |stored| && stored[i].key == k
  }

  /** The incremental `setdefault` map: the text of every package seen so far. */
  ghost predicate IsBinding(stored: seq<Stored>, bindings: map<Key, (string, string)>) {
    && (forall i :: 0 <= i < |stored| ==>
          stored[i].key.0 in bindings && bindings[stored[i].key.0] == TextOf(stored[i].conclusion))
    && forall p :: p in bindings ==> exists i :: 0 <= i < |stored| && stored[i].key.0 == p
  }

  lemma BindOne(stored: seq<Stored>, e: Stored, bindings: map<Key, (string, string)>)
    requires IsBinding(stored, bindings)
    ensures e.key.0 in bindings && bindings[e.key.0] != TextOf(e.conclusion) ==> !Consistent(stored + [e])
    ensures (e.key.0 in bindings ==> bindings[e.key.0] == TextOf(e.conclusion)) ==>
      IsBinding(stored + [e], bindings[e.key.0 := TextOf(e.conclusion)])
  {
    var all := stored + [e];
    assert all[|stored|] == e;
    if e.key.0 in bindings {
      var i :| 0 <= i < |stored| && stored[i].key.0 == e.key.0;
      assert all[i] == stored[i];
    }
    forall p | p in bindings ensures exists i :: 0 <= i < |all| && all[i].key.0 == p {
      var i :| 0 <= i < |stored| && stored[i].key.0 == p;
      assert all[i] == stored[i];
    }
  }

  lemma LoadOne(stored: seq<Stored>, e: Stored, result: map<ArtifactKey, Conclusion>)
    requires IsLoaded(stored, result)
    ensures e.key in result ==> !Consistent(stored + [e])
    ensures e.key !in result ==> IsLoaded(stored + [e], result[e.key := e.conclusion])
  {
    var all := stored + [e];
    assert all[|stored|] == e;
    if e.key in result {
      var i :| 0 <= i < |stored| && stored[i].key == e.key;
      assert all[i] == stored[i];
    }
    forall k | k in result ensures exists i :: 0 <= i < |all| && all[i].key == k {
      var i :| 0 <= i < |stored| && stored[i].key == k;
      assert all[i] == stored[i];
    }
  }

  lemma ConsistentOne(stored: seq<Stored>, e: Stored, bindings: map<Key, (string, string)>,
      result: map<ArtifactKey, Conclusion>)
    requires Consistent(stored) && IsBinding(stored, bindings) && IsLoaded(stored, result)
    requires e.key !in result && (e.key.0 in bindings ==> bindings[e.key.0] == TextOf(e.conclusion))
    ensures Consistent(stored + [e])
  {
    var all := stored + [e];
    forall i, j | 0 <= i < j < |all|
      ensures all[i].key != all[j].key
      ensures all[i].key.0 == all[j].key.0 ==> TextOf(all[i].conclusion) == TextOf(all[j].conclusion)
    {
      assert all[i] == stored[i];
      if j == |stored| {
        assert all[j] == e && stored[i].key in result && bindings[stored[i].key.0] == TextOf(stored[i].conclusion);
      } else {
        assert all[j] == stored[j];
      }
    }
  }

  /** The state of the loop after some entries. */
  ghost predicate LoadedSoFar(stored: seq<Stored>, bindings: map<Key, (string, string)>,
      result: map<ArtifactKey, Conclusion>)
  {
    Consistent(stored) && IsBinding(stored, bindings) && IsLoaded(stored, result)
  }

  /** How one entry moves the state on, or why it is rejected. */
  lemma LoadNext(stored: seq<Stored>, n: nat, bindings: map<Key, (string, string)>,
      result: map<ArtifactKey, Conclusion>)
    requires n < |stored| && LoadedSoFar(stored[..n], bindings, result)
    ensures var e := stored[n];
      if e.key in result || (e.key.0 in bindings && bindings[e.key.0] != TextOf(e.conclusion)) then !Consistent(stored)
      else LoadedSoFar(stored[..n + 1], bindings[e.key.0 := TextOf(e.conclusion)], result[e.key := e.conclusion])
  {
    var e := stored[n];
    assert stored[..n + 1] == stored[..n] + [e];
    BindOne(stored[..n], e, bindings);
    LoadOne(stored[..n], e, result);
    if e.key in result || (e.key.0 in bindings && bindings[e.key.0] != TextOf(e.conclusion)) {
      InconsistentPrefix(stored, n + 1);
    } else {
      ConsistentOne(stored[..n], e, bindings, result);
    }
  }

  lemma InconsistentPrefix(stored: seq<Stored>, n: nat)
    requires n <= |stored| && !Consistent(stored[..n])
    ensures !Consistent(stored)
  {
  }

  /** The loop of both loaders, for any check of an entry and any stored form. */
  method LoadEntries(entries: seq<Entry>, accepts: Entry -> bool, store: Entry -> Stored, ghost stored: seq<Stored>)
    returns (r: Result<map<ArtifactKey, Conclusion>, LoadError>)
    requires |stored| == |entries| && forall i :: 0 <= i < |entries| ==> stored[i] == store(entries[i])
    ensures r.Ok? <==> (forall i :: 0 <= i < |entries| ==> accepts(entries[i])) && Consistent(stored)
    ensures r.Ok? ==> IsLoaded(stored, r.value)
  {
    var result: map<ArtifactKey, Conclusion> := map[];
    var bindings: map<Key, (string, string)> := map[];
    for n := 0 to |entries|
      invariant forall i :: 0 <= i < n ==> accepts(entries[i])
      invariant LoadedSoFar(stored[..n], bindings, result)
    {
      var e := entries[n];
      if !accepts(e) {
        return Err(InvalidEntry);
      }
      var Stored(key, conclusion) := store(e);
      var text := TextOf(conclusion);
      LoadNext(stored, n, bindings, result);
      var bound := if key.0 in bindings then bindings[key.0] else text;
      if bound != text {
        return Err(SecondText);
      }
      if key in result {
        return Err(DuplicateKey);
      }
      bindings, result := bindings[key.0 := bound], result[key := conclusion];
    }
    assert stored[..|entries|] == stored;
    return Ok(result);
  }

  /** Both loaders, told apart by their check of a single entry. */
  method LoadConclusions(entries: seq<Entry>, accepts: Entry -> bool)
    returns (r: Result<map<ArtifactKey, Conclusion>, LoadError>)
    ensures r.Ok? <==> FileAccepted(entries, accepts)
    ensures r.Ok? ==> IsLoaded(Stores(entries), r.value)
  {
    r := LoadEntries(entries, accepts, (e: Entry) => Stored(KeyOf(e), ConclusionOf(e)), Stores(entries));
  }

  /** What is loaded by either loader has approved conclusions and one text per
      package, so the policy's own checks of these two facts never reject. */
  lemma LoadedIsBound(entries: seq<Entry>, accepts: Entry -> bool, result: map<ArtifactKey, Conclusion>)
    requires FileAccepted(entries, accepts) && IsLoaded(Stores(entries), result)
    requires forall e :: accepts(e) ==> ApprovedIdentifiers(Strip(e.concluded)).Some?
    ensures Bound(result)
  {
    var stored := Stores(entries);
    forall k | k in result ensures ApprovedIdentifiers(result[k].concluded).Some? {
      var i :| 0 <= i < |stored| && stored[i].key == k;
      assert stored[i].conclusion == ConclusionOf(entries[i]) && accepts(entries[i]);
    }
    forall k, l | k in result && l in result && k.0 == l.0
      ensures TextOf(result[k]) == TextOf(result[l])
    {
      var i :| 0 <= i < |stored| && stored[i].key == k;
      var j :| 0 <= j < |stored| && stored[j].key == l;
    }
  }

  /** The finalizer's set of texts of a package then has one element. */
  lemma TextsAreOne(rules: Rules, key: Key)
    requires Bound(rules.conclusions) && Exact(rules, key) != {}
    ensures |TextValues(rules, key)| == 1
  {
    if forall t :: TextValues(rules, key) != {t} {
      NotBoundIfTextsDiffer(rules, key);
    }
  }

  /** On the same texts, the finalizer accepts an entry exactly when the generator
      does and the text path has no surrounding space; the generator also wants
      the text to be non-empty. */
  lemma EntriesAgree(e: Entry, texts: map<string, TextFile>)
    ensures FinalizerAccepts(e, texts) && texts[e.textPath].size > 0
      <==> GeneratorAccepts(e, texts) && e.textPath == Strip(e.textPath)
  {
    Spdx.IdentifiersNonEmpty(Strip(e.concluded));
  }

  /** So the two loaders agree on whole files of unpadded paths to non-empty texts. */
  lemma LoadersAgree(entries: seq<Entry>, texts: map<string, TextFile>)
    requires forall i :: 0 <= i < |entries| ==> entries[i].textPath == Strip(entries[i].textPath)
    requires forall p :: p in texts ==> texts[p].size > 0
    ensures FileAccepted(entries, e => GeneratorAccepts(e, texts))
      <==> FileAccepted(entries, e => FinalizerAccepts(e, texts))
  {
    var g, f := (e: Entry) => GeneratorAccepts(e, texts), (e: Entry) => FinalizerAccepts(e, texts);
    forall i | 0 <= i < |entries| ensures g(entries[i]) == f(entries[i]) {
      EntriesAgree(entries[i], texts);
    }
  }
}
