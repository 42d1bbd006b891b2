/** Tags, commits, services and digests. */
module ReleaseNames {
  // The names in an image lock, written out, against the checks that read them
  // (scripts/render_release_compose.py:24-28, 57-86, 134-165 and
  // scripts/release_bundle.py:280-331).

  import opened Text
  import opened ImageReferences
  import opened ImageLock

  // ----- numerals

  lemma {:induction false} DigitsDropped(digits: string, rest: string)
    requires (forall i :: 0 <= i < |digits| ==> IsDigit(digits[i])) && (rest == [] || !IsDigit(rest[0]))
    ensures DropDigits(digits + rest) == rest
    decreases |digits|
  {
    if digits == [] {
      assert digits + rest == rest;
    } else {
      assert (digits + rest)[0] == digits[0] && (digits + rest)[1..] == digits[1..] + rest;
      DigitsDropped(digits[1..], rest);
    }
  }

  lemma {:induction false} DigitsSplit(s: string) returns (digits: string)
    ensures s == digits + DropDigits(s) && forall i :: 0 <= i < |digits| ==> IsDigit(digits[i])
    ensures DropDigits(s) == [] || !IsDigit(DropDigits(s)[0])
    decreases |s|
  {
    if s != [] && IsDigit(s[0]) {
      var more := DigitsSplit(s[1..]);
      digits := [s[0]] + more;
      assert s == [s[0]] + s[1..];
    } else {
      digits := [];
    }
  }

  lemma DecimalDigits(n: nat)
    ensures forall i :: 0 <= i < |Decimal(n)| ==> IsDigit(Decimal(n)[i])
  {
    forall i | 0 <= i < |Decimal(n)| ensures IsDigit(Decimal(n)[i]) {
      DigitCharacters(Decimal(n)[i]);
    }
  }

  /** Digits without a leading zero are a number in decimal. */
  lemma {:induction false} DigitsAreDecimal(digits: string) returns (n: nat)
    requires digits != [] && forall i :: 0 <= i < |digits| ==> IsDigit(digits[i])
    requires digits[0] != '0'
    ensures n > 0 && Decimal(n) == digits
    decreases |digits|
  {
    var last := digits[|digits| - 1];
    var d := last as int - '0' as int;
    assert DIGITS[d] == last;
    if |digits| == 1 {
      n := d;
      assert digits == [last];
    } else {
      var m := DigitsAreDecimal(digits[..|digits| - 1]);
      n := 10 * m + d;
      assert n / 10 == m && n % 10 == d;
      assert digits == digits[..|digits| - 1] + [last];
    }
  }

  /** A number and what follows it are read apart. */
  lemma NumberIsRead(n: nat, rest: string)
    requires rest == [] || !IsDigit(rest[0])
    ensures AfterNumber(Decimal(n) + rest) == Some(rest)
    ensures n > 0 ==> AfterPositive(Decimal(n) + rest) == Some(rest)
  {
    var s := Decimal(n) + rest;
    DecimalStart(n);
    DecimalDigits(n);
    assert s[0] == Decimal(n)[0] && s[1..] == Decimal(n)[1..] + rest;
    if n == 0 {
      assert s[1..] == rest;
    } else {
      DigitsDropped(Decimal(n)[1..], rest);
    }
  }

  lemma PositiveIsWritten(s: string, rest: string) returns (n: nat)
    requires AfterPositive(s) == Some(rest)
    ensures n > 0 && s == Decimal(n) + rest
  {
    var digits := DigitsSplit(s[1..]);
    n := DigitsAreDecimal([s[0]] + digits);
    assert s == [s[0]] + s[1..];
  }

  lemma NumberIsWritten(s: string, rest: string) returns (n: nat)
    requires AfterNumber(s) == Some(rest)
    ensures s == Decimal(n) + rest
  {
    if s[0] == '0' {
      n := 0;
      DecimalStart(0);
      assert s == "0" + s[1..];
    } else {
      n := PositiveIsWritten(s, rest);
    }
  }

  // ----- release tags

  function ReleaseText(major: nat, minor: nat, patch: nat): string {
    "v" + (Decimal(major) + ("." + (Decimal(minor) + ("." + Decimal(patch)))))
  }

  function CandidateText(major: nat, minor: nat, patch: nat, candidate: nat): string {
    "v" + (Decimal(major) + ("." + (Decimal(minor) + ("." + (Decimal(patch) + ("-rc." + Decimal(candidate)))))))
  }

  lemma TextIsRead(text: string, rest: string)
    ensures AfterText(Some(text + rest), text) == Some(rest)
  {
  }

  lemma ReleaseIsAccepted(major: nat, minor: nat, patch: nat)
    ensures IsReleaseTag(ReleaseText(major, minor, patch))
  {
    var t2 := "." + Decimal(patch);
    var t1 := "." + (Decimal(minor) + t2);
    NumberIsRead(major, t1);
    NumberIsRead(minor, t2);
    NumberIsRead(patch, []);
    assert Decimal(patch) + [] == Decimal(patch);
    TextIsRead("v", Decimal(major) + t1);
    TextIsRead(".", Decimal(minor) + t2);
    TextIsRead(".", Decimal(patch));
  }

  lemma CandidateIsAccepted(major: nat, minor: nat, patch: nat, candidate: nat)
    requires candidate > 0
    ensures IsReleaseTag(CandidateText(major, minor, patch, candidate))
  {
    var t3 := "-rc." + Decimal(candidate);
    var t2 := "." + (Decimal(patch) + t3);
    var t1 := "." + (Decimal(minor) + t2);
    NumberIsRead(major, t1);
    NumberIsRead(minor, t2);
    NumberIsRead(patch, t3);
    NumberIsRead(candidate, []);
    assert Decimal(candidate) + [] == Decimal(candidate);
    TextIsRead("v", Decimal(major) + t1);
    TextIsRead(".", Decimal(minor) + t2);
    TextIsRead(".", Decimal(patch) + t3);
    TextIsRead("-rc.", Decimal(candidate));
  }

  lemma TextIsWritten(s: string, text: string, rest: string)
    requires AfterText(Some(s), text) == Some(rest)
    ensures s == text + rest
  {
  }

  ghost predicate IsReleaseText(s: string) {
    || (exists a: nat, b: nat, c: nat :: s == ReleaseText(a, b, c))
    || exists a: nat, b: nat, c: nat, d: nat :: d > 0 && s == CandidateText(a, b, c, d)
  }

  lemma AcceptedIsRelease(s: string)
    requires IsReleaseTag(s)
    ensures IsReleaseText(s)
  {
    var s0 := AfterText(Some(s), "v").value;
    var s1 := AfterNumber(s0).value;
    var s2 := AfterText(Some(s1), ".").value;
    var s3 := AfterNumber(s2).value;
    var s4 := AfterText(Some(s3), ".").value;
    var s5 := AfterNumber(s4).value;
    TextIsWritten(s, "v", s0);
    TextIsWritten(s1, ".", s2);
    TextIsWritten(s3, ".", s4);
    var a := NumberIsWritten(s0, s1);
    var b := NumberIsWritten(s2, s3);
    var c := NumberIsWritten(s4, s5);
    if s5 == "" {
      assert Decimal(c) + "" == Decimal(c);
      assert s == ReleaseText(a, b, c);
    } else {
      var s6 := AfterText(Some(s5), "-rc.").value;
      TextIsWritten(s5, "-rc.", s6);
      var d := PositiveIsWritten(s6, "");
      assert Decimal(d) + "" == Decimal(d);
      assert s == CandidateText(a, b, c, d);
    }
  }

  /** A release tag is `v`, three numbers without leading zeros joined by dots, and
      perhaps `-rc.` with a positive number. */
  lemma ReleaseTagExactly(s: string)
    ensures IsReleaseTag(s) <==> IsReleaseText(s)
  {
    if IsReleaseTag(s) {
      AcceptedIsRelease(s);
    }
    if a: nat, b: nat, c: nat :| s == ReleaseText(a, b, c) {
      ReleaseIsAccepted(a, b, c);
    }
    if a: nat, b: nat, c: nat, d: nat :| d > 0 && s == CandidateText(a, b, c, d) {
      CandidateIsAccepted(a, b, c, d);
    }
  }

  // ----- services, commits and digests

  lemma ServiceExactly(s: string)
    ensures IsService(s) <==>
      && s != "" && (s[0] in LOWER || s[0] in DIGITS)
      && forall i :: 0 <= i < |s| ==> s[i] in LOWER || s[i] in DIGITS || s[i] in "_-"
  {
    forall i | 0 <= i < |s| ensures IsServiceStart(s[i]) <==> s[i] in LOWER || s[i] in DIGITS {
      DigitCharacters(s[i]);
      SmallLetters(s[i]);
    }
  }

  lemma HexExactly(s: string, n: nat)
    ensures IsHex(s, n) <==> |s| == n && forall i :: 0 <= i < |s| ==> s[i] in HEX
  {
    forall i | 0 <= i < |s| ensures IsDigit(s[i]) || 'a' <= s[i] <= 'f' <==> s[i] in HEX {
      HexDigit(s[i]);
    }
  }

  /** A commit is 40 or 64 small hexadecimal digits. */
  lemma CommitExactly(s: string)
    ensures IsCommit(s) <==> (|s| == 40 || |s| == 64) && forall i :: 0 <= i < |s| ==> s[i] in HEX
  {
    HexExactly(s, 40);
    HexExactly(s, 64);
  }

  /** The digest under which a reference is scanned is the one that it names. */
  lemma DigestIsNamed(v: string, name: string, tag: string, digest: string)
    requires IsReference(v, name, tag, digest)
    ensures DigestOf(v) == "sha256:" + digest
  {
    var at := |name| + 1 + |tag|;
    assert v[at..at + 8] == MARK && v[at + 8..] == digest;
    SameSplit(v, at);
  }
}
