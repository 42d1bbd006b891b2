/** The string operations the release scripts share. */
module Text {

  datatype Option<+T> = None | Some(value: T)

  datatype Result<+T, +E> = Ok(value: T) | Err(error: E)

  /** `m.get(k)`. */
  function Lookup<K, V>(m: map<K, V>, k: K): Option<V> { if k in m then Some(m[k]) else None }

  /** Python's `str.isspace` on one character. */
  predicate IsSpace(c: char) {
    var n := c as int;
    || 0x09 <= n <= 0x0D || 0x1C <= n <= 0x20 || n == 0x85 || n == 0xA0 || n == 0x1680
    || 0x2000 <= n <= 0x200A || n == 0x2028 || n == 0x2029 || n == 0x202F || n == 0x205F || n == 0x3000
  }

  /** `bool(value.strip())`. */
  predicate NonBlank(s: string) { exists i :: 0 <= i < |s| && !IsSpace(s[i]) }

  function StripLeft(s: string): string {
    if s != [] && IsSpace(s[0]) then StripLeft(s[1..]) else s
  }

  function StripRight(s: string): string {
    if s != [] && IsSpace(s[|s| - 1]) then StripRight(s[..|s| - 1]) else s
  }

  /** Python's `str.strip`. */
  function Strip(s: string): string { StripRight(StripLeft(s)) }

  /** A text that begins and ends with something else than space. */
  predicate IsTrim(s: string) { s != [] && !IsSpace(s[0]) && !IsSpace(s[|s| - 1]) }

  lemma TrimIsStripped(s: string)
    requires IsTrim(s)
    ensures NonBlank(s) && Strip(s) == s
  {
  }

  lemma {:induction false} LeftStripped(s: string)
    requires NonBlank(s)
    ensures NonBlank(StripLeft(s)) && StripLeft(s) != [] && !IsSpace(StripLeft(s)[0])
  {
    if IsSpace(s[0]) {
      var i :| 0 <= i < |s| && !IsSpace(s[i]);
      assert s[1..][i - 1] == s[i];
      LeftStripped(s[1..]);
    }
  }

  lemma {:induction false} RightStripped(s: string)
    requires s != [] && !IsSpace(s[0])
    ensures IsTrim(StripRight(s)) && StripRight(s)[0] == s[0]
  {
    if IsSpace(s[|s| - 1]) {
      assert s[..|s| - 1][0] == s[0];
      RightStripped(s[..|s| - 1]);
    }
  }

  /** What is not blank is stripped to a text without surrounding space, and only
      such a text stays as it is. */
  lemma StripTrims(s: string)
    requires NonBlank(s)
    ensures IsTrim(Strip(s)) && (Strip(s) == s <==> IsTrim(s))
    ensures NonBlank(Strip(s)) && Strip(Strip(s)) == Strip(s)
  {
    LeftStripped(s);
    RightStripped(StripLeft(s));
    TrimIsStripped(Strip(s));
  }

  /** What is blank is stripped to nothing. */
  lemma {:induction false} BlankStrips(s: string)
    requires !NonBlank(s)
    ensures Strip(s) == []
    decreases |s|
  {
    if s != [] {
      assert IsSpace(s[0]);
      forall i | 0 <= i < |s[1..]| ensures IsSpace(s[1..][i]) {
        assert s[1..][i] == s[i + 1];
      }
      BlankStrips(s[1..]);
    }
  }

  predicate IsDigit(c: char) { '0' <= c <= '9' }

  predicate IsLetter(c: char) { 'a' <= c <= 'z' || 'A' <= c <= 'Z' }

  predicate IsAlnum(c: char) { IsDigit(c) || IsLetter(c) }

  function LowerChar(c: char): char {
    if 'A' <= c <= 'Z' then (c as int + 32) as char else c
  }

  /** `str.lower` on ASCII text. */
  function Lower(s: string): string { seq(|s|, i requires 0 <= i < |s| => LowerChar(s[i])) }

  predicate IsNameSeparator(c: char) { c == '-' || c == '_' || c == '.' }

  /** `re.sub(r"[-_.]+", "-", value).lower()`: runs of separators become one dash. */
  function CanonicalName(s: string): string {
    if s == [] then []
    else if !IsNameSeparator(s[0]) then [LowerChar(s[0])] + CanonicalName(s[1..])
    else if |s| > 1 && IsNameSeparator(s[1]) then CanonicalName(s[1..])
    else ['-'] + CanonicalName(s[1..])
  }

  /** `split("/")`. */
  function SplitSlash(s: string): (parts: seq<string>)
    ensures parts != []
  {
    if s == [] then [[]]
    else
      var rest := SplitSlash(s[1..]);
      if s[0] == '/' then [[]] + rest else [[s[0]] + rest[0]] + rest[1..]
  }

  /** `left in right` for strings. */
  predicate Contains(right: string, left: string) {
    exists i :: 0 <= i <= |right| - |left| && left <= right[i..]
  }

  /** A name that is already canonical is left alone. */
  ghost predicate IsCanonical(s: string) {
    && (forall i :: 0 <= i < |s| ==> LowerChar(s[i]) == s[i] && s[i] != '_' && s[i] != '.')
    && (forall i :: 0 < i < |s| ==> !(s[i - 1] == '-' && s[i] == '-'))
  }

  /** Canonical names are exactly the fixed points of the canonicalisation. */
  lemma {:induction false} CanonicalNameIsCanonical(s: string)
    ensures IsCanonical(CanonicalName(s))
    ensures s != [] && !IsNameSeparator(s[0]) ==> CanonicalName(s) != [] && CanonicalName(s)[0] != '-'
    ensures IsCanonical(s) ==> CanonicalName(s) == s
  {
    if s != [] {
      CanonicalNameIsCanonical(s[1..]);
    }
  }

  /** Canonicalisation keeps space at either end of a name. */
  lemma {:induction false} CanonicalKeepsEnds(s: string)
    requires s != []
    ensures var n := CanonicalName(s);
      n != [] && (IsSpace(n[0]) <==> IsSpace(s[0])) && (IsSpace(n[|n| - 1]) <==> IsSpace(s[|s| - 1]))
  {
    if |s| > 1 {
      CanonicalKeepsEnds(s[1..]);
    }
  }

  // ----- what these functions mean, without their recursion

  const UPPER := "ABCDEFGHIJKLMNOPQRSTUVWXYZ"
  const LOWER := "abcdefghijklmnopqrstuvwxyz"
  const DIGITS := "0123456789"
  const HEX := "0123456789abcdef"

  /** The letters and the digits, one by one. */
  lemma CharacterClasses(c: char)
    ensures IsDigit(c) <==> c in DIGITS
    ensures IsLetter(c) <==> c in LOWER || c in UPPER
    ensures IsAlnum(c) <==> c in DIGITS || c in LOWER || c in UPPER
  {
    DigitCharacters(c);
    SmallLetters(c);
    CapitalLetters(c);
  }

  lemma DigitCharacters(c: char)
    ensures '0' <= c <= '9' <==> c in DIGITS
  {
    if '0' <= c <= '9' {
      assert DIGITS[c as int - 48] == c;
    }
  }

  lemma SmallLetters(c: char)
    ensures 'a' <= c <= 'z' <==> c in LOWER
  {
    if 'a' <= c <= 'z' {
      assert LOWER[c as int - 97] == c;
    }
  }

  lemma CapitalLetters(c: char)
    ensures 'A' <= c <= 'Z' <==> c in UPPER
  {
    if 'A' <= c <= 'Z' {
      assert UPPER[c as int - 65] == c;
    }
  }

  lemma HexDigit(c: char)
    ensures IsDigit(c) || 'a' <= c <= 'f' <==> c in HEX
  {
    if IsDigit(c) {
      assert HEX[c as int - 48] == c;
    }
    if 'a' <= c <= 'f' {
      assert HEX[c as int - 87] == c;
    }
  }

  /** Lower case changes the capital letters, and nothing else. */
  lemma LowerLetters(c: char)
    ensures forall i :: 0 <= i < 26 ==> LowerChar(UPPER[i]) == LOWER[i]
    ensures c !in UPPER ==> LowerChar(c) == c
  {
    CapitalLetters(c);
  }

  /** No printing character of ASCII is space; the blank and the five controls are. */
  lemma SpaceCharacters(c: char)
    ensures '!' <= c <= '~' ==> !IsSpace(c)
    ensures c in " \t\n\r\U{000B}\U{000C}" ==> IsSpace(c)
  {
  }

  predicate IsBlankText(s: string) { forall i :: 0 <= i < |s| ==> IsSpace(s[i]) }

  /** Stripping removes space at both ends, and all of it. */
  lemma StripExactly(s: string, a: string, core: string, b: string)
    requires s == a + core + b && IsBlankText(a) && IsBlankText(b) && (core == [] || IsTrim(core))
    ensures Strip(s) == core
  {
    assert s == a + (core + b);
    LeftSpace(a, core + b);
    if core == [] {
      assert forall i :: 0 <= i < |s| ==> IsSpace(s[i]);
      BlankStrips(s);
    } else {
      assert (core + b)[0] == core[0];
      RightSpace(core, b);
    }
  }

  lemma {:induction false} LeftSpace(a: string, rest: string)
    requires IsBlankText(a) && (rest == [] || !IsSpace(rest[0]) || IsBlankText(rest))
    ensures StripLeft(a + rest) == StripLeft(rest)
    decreases |a|
  {
    if a == [] {
      assert a + rest == rest;
    } else {
      assert (a + rest)[1..] == a[1..] + rest;
      LeftSpace(a[1..], rest);
    }
  }

  lemma {:induction false} RightSpace(core: string, b: string)
    requires IsTrim(core) && IsBlankText(b)
    ensures StripRight(core + b) == core
    decreases |b|
  {
    if b == [] {
      assert core + b == core;
    } else {
      assert (core + b)[..|core + b| - 1] == core + b[..|b| - 1];
      RightSpace(core, b[..|b| - 1]);
    }
  }

  /** Parts put together with slashes. */
  function JoinSlash(parts: seq<string>): string
    requires parts != []
  {
    if |parts| == 1 then parts[0] else parts[0] + ['/'] + JoinSlash(parts[1..])
  }

  /** Splitting is the one way to write a text as slash-free parts. */
  lemma {:induction false} SplitSlashExactly(s: string)
    ensures JoinSlash(SplitSlash(s)) == s
    ensures forall i :: 0 <= i < |SplitSlash(s)| ==> '/' !in SplitSlash(s)[i]
  {
    if s != [] {
      SplitSlashExactly(s[1..]);
      var rest, parts := SplitSlash(s[1..]), SplitSlash(s);
      if s[0] == '/' {
        assert parts[1..] == rest;
      } else if |rest| > 1 {
        assert parts[1..] == rest[1..];
      }
    }
  }

  /** `left in right`: the one is a piece of the other. */
  lemma ContainsExactly(right: string, left: string)
    ensures Contains(right, left) <==> exists a, b :: right == a + left + b
  {
    if Contains(right, left) {
      var i :| 0 <= i <= |right| - |left| && left <= right[i..];
      assert right == right[..i] + left + right[i + |left|..];
    }
    if a, b :| right == a + left + b {
      assert left <= right[|a|..];
    }
  }

  // ----- canonical names

  predicate IsRun(s: string) { s != [] && forall i :: 0 <= i < |s| ==> s[i] in "-_." }

  /** A piece of a name without the three separators. */
  predicate IsPlainPiece(s: string) { forall i :: 0 <= i < |s| ==> s[i] !in "-_." }

  /** A name is its pieces in lower case, with one dash for every run of separators. */
  lemma CanonicalPieces(a: string, run: string, b: string)
    requires IsPlainPiece(a) && IsRun(run) && (b == [] || b[0] !in "-_.")
    ensures CanonicalName(a) == Lower(a)
    ensures CanonicalName(a + run + b) == Lower(a) + ['-'] + CanonicalName(b)
  {
    CanonicalPlain(a, []);
    assert a + [] == a && Lower(a) + [] == Lower(a);
    CanonicalRun(run, b);
    CanonicalPlain(a, run + b);
    assert a + run + b == a + (run + b);
    assert Lower(a) + (['-'] + CanonicalName(b)) == Lower(a) + ['-'] + CanonicalName(b);
  }

  lemma {:induction false} CanonicalPlain(a: string, rest: string)
    requires IsPlainPiece(a)
    ensures CanonicalName(a + rest) == Lower(a) + CanonicalName(rest)
    decreases |a|
  {
    if a == [] {
      assert a + rest == rest;
    } else {
      assert (a + rest)[1..] == a[1..] + rest && (a + rest)[0] == a[0];
      CanonicalPlain(a[1..], rest);
      assert Lower(a) == [LowerChar(a[0])] + Lower(a[1..]);
    }
  }

  lemma {:induction false} CanonicalRun(run: string, b: string)
    requires IsRun(run) && (b == [] || b[0] !in "-_.")
    ensures CanonicalName(run + b) == ['-'] + CanonicalName(b)
    decreases |run|
  {
    assert (run + b)[1..] == run[1..] + b && (run + b)[0] == run[0];
    if |run| > 1 {
      assert (run + b)[1] == run[1];
      CanonicalRun(run[1..], b);
    } else {
      assert run[1..] + b == b;
      assert b != [] ==> (run + b)[1] == b[0];
    }
  }

  // ----- numerals

  /** A number in decimal, without leading zeros. */
  function Decimal(n: nat): (s: string)
    ensures s != [] && forall i :: 0 <= i < |s| ==> s[i] in DIGITS
    decreases n
  {
    if n < 10 then [DIGITS[n]] else Decimal(n / 10) + [DIGITS[n % 10]]
  }

  lemma {:induction false} DecimalStart(n: nat)
    ensures Decimal(n)[0] == '0' <==> n == 0
    ensures n == 0 ==> Decimal(n) == "0"
    decreases n
  {
    if n >= 10 {
      DecimalStart(n / 10);
      assert Decimal(n)[0] == Decimal(n / 10)[0];
    } else {
      assert DIGITS[0] == '0' && forall i :: 0 < i < 10 ==> DIGITS[i] != '0';
    }
  }
}
