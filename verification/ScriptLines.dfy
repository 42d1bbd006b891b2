/** A script's text as lines: as Python's `str.splitlines` cuts it, which the linter
    uses (scripts/check_platform_readiness.py:1618), and as a shell reads it. */
module ScriptLines {

  /** The characters at which `str.splitlines` ends a line. */
  predicate IsBreak(c: char) {
    var n := c as int;
    0x0A <= n <= 0x0D || 0x1C <= n <= 0x1E || n == 0x85 || n == 0x2028 || n == 0x2029
  }

  predicate IsNewline(c: char) { c == '\n' }

  /** A character that ends a line for Python and not for the shell. */
  predicate IsStray(c: char) { IsBreak(c) && c != '\n' }

  /** No character but '\n' ends a line. */
  predicate IsPlain(s: string) { forall i :: 0 <= i < |s| ==> !IsStray(s[i]) }

  predicate PlainTo(s: string, n: nat)
    requires n <= |s|
  {
    forall i :: 0 <= i < n ==> !IsStray(s[i])
  }

  predicate IsUnbroken(line: string) { forall i :: 0 <= i < |line| ==> !IsBreak(line[i]) }

  /** How much of the text comes before the first character that stops a line. */
  function Before(s: string, stop: char -> bool): (n: nat)
    ensures n <= |s|
    ensures forall i :: 0 <= i < n ==> !stop(s[i])
    ensures n < |s| ==> stop(s[n])
  {
    if s == [] || stop(s[0]) then 0 else 1 + Before(s[1..], stop)
  }

  /** The length of the first line with its end. */
  function PyAdvance(s: string): (n: nat)
    requires s != []
    ensures 0 < n <= |s|
  {
    AfterEnd(s, Before(s, IsBreak))
  }

  /** The index after the line end at k; '\r' and '\n' together are one end. */
  function AfterEnd(s: string, k: nat): (n: nat)
    requires k <= |s|
    ensures k <= n <= |s| && (k < |s| ==> k < n)
  {
    if k == |s| then k
    else if s[k] == '\r' && k + 1 < |s| && s[k + 1] == '\n' then k + 2
    else k + 1
  }

  /** `source.splitlines()`. */
  function PyLines(s: string): seq<string> {
    if s == [] then [] else [s[..Before(s, IsBreak)]] + PyLines(s[PyAdvance(s)..])
  }

  function ShellAdvance(s: string): (n: nat)
    requires s != []
    ensures 0 < n <= |s|
  {
    var k := Before(s, IsNewline);
    if k == |s| then k else k + 1
  }

  /** The lines a shell reads. */
  function ShellLines(s: string): seq<string> {
    if s == [] then [] else [s[..Before(s, IsNewline)]] + ShellLines(s[ShellAdvance(s)..])
  }

  /** The length of the first n lines, as Python cuts them, with their ends. */
  function HeadLength(s: string, n: nat): (r: nat)
    ensures r <= |s|
  {
    if n == 0 || s == [] then 0 else PyAdvance(s) + HeadLength(s[PyAdvance(s)..], n - 1)
  }

  // ----- where the two splittings agree

  lemma BeforeIs(s: string, stop: char -> bool, n: nat)
    requires n <= |s| && (forall i :: 0 <= i < n ==> !stop(s[i])) && (n < |s| ==> stop(s[n]))
    ensures Before(s, stop) == n
  {
    var k := Before(s, stop);
    assert k < |s| ==> stop(s[k]);
    assert n < |s| ==> stop(s[n]);
  }

  lemma BeforeShift(s: string, stop: char -> bool, a: nat)
    requires a <= Before(s, stop)
    ensures Before(s[a..], stop) == Before(s, stop) - a
  {
    var n, rest := Before(s, stop) - a, s[a..];
    forall i | 0 <= i < |rest| ensures rest[i] == s[a + i] {
    }
    BeforeIs(rest, stop, n);
  }

  /** A first line that ends in '\n' or with the text is the same line for both. */
  lemma SameFirstLine(s: string)
    requires s != [] && PlainTo(s, PyAdvance(s))
    ensures Before(s, IsNewline) == Before(s, IsBreak) && ShellAdvance(s) == PyAdvance(s)
  {
    BeforeIs(s, IsNewline, Before(s, IsBreak));
  }

  lemma PlainShift(s: string, a: nat, n: nat)
    requires a <= n <= |s|
    ensures PlainTo(s, n) <==> PlainTo(s, a) && PlainTo(s[a..], n - a)
  {
    if PlainTo(s, a) && PlainTo(s[a..], n - a) {
      forall i | 0 <= i < n ensures !IsStray(s[i]) {
        assert i >= a ==> s[i] == s[a..][i - a];
      }
    }
  }

  lemma DropDrop(s: string, a: nat, b: nat)
    requires a + b <= |s|
    ensures s[a..][b..] == s[a + b..]
  {
  }

  lemma HeadParts(s: string, n: nat)
    requires s != [] && n > 0
    ensures var a := PyAdvance(s);
      PlainTo(s, HeadLength(s, n)) <==> PlainTo(s, a) && PlainTo(s[a..], HeadLength(s[a..], n - 1))
  {
    PlainShift(s, PyAdvance(s), HeadLength(s, n));
  }

  /** Over a plain head both read the same lines, and then the same rest. */
  lemma {:induction false} PlainHead(s: string, n: nat)
    requires n <= |PyLines(s)| && PlainTo(s, HeadLength(s, n))
    ensures SharesHead(s, n, s[HeadLength(s, n)..])
    decreases n
  {
    if n == 0 {
      assert s[0..] == s;
    } else {
      HeadParts(s, n);
      PlainHead(s[PyAdvance(s)..], n - 1);
      HeadNext(s, n);
      SharesMore(s, n - 1, s[HeadLength(s, n)..]);
    }
  }

  lemma HeadNext(s: string, n: nat)
    requires s != [] && n > 0
    ensures var tail := s[PyAdvance(s)..]; tail[HeadLength(tail, n - 1)..] == s[HeadLength(s, n)..]
  {
    DropDrop(s, PyAdvance(s), HeadLength(s[PyAdvance(s)..], n - 1));
  }

  ghost predicate SharesHead(s: string, n: nat, rest: string)
    requires n <= |PyLines(s)|
  {
    && ShellLines(s) == PyLines(s)[..n] + ShellLines(rest)
    && PyLines(s) == PyLines(s)[..n] + PyLines(rest)
  }

  lemma SharesMore(s: string, n: nat, rest: string)
    requires s != [] && PlainTo(s, PyAdvance(s))
    requires n <= |PyLines(s[PyAdvance(s)..])| && SharesHead(s[PyAdvance(s)..], n, rest)
    ensures SharesHead(s, n + 1, rest)
  {
    var tail := s[PyAdvance(s)..];
    SameFirstLine(s);
    Prepended(s[..Before(s, IsBreak)], PyLines(tail), ShellLines(tail), n, PyLines(rest), ShellLines(rest));
  }

  lemma Prepended(first: string, p: seq<string>, q: seq<string>, n: nat, r: seq<string>, u: seq<string>)
    requires n <= |p| && p == p[..n] + r && q == p[..n] + u
    ensures ([first] + p)[..n + 1] == [first] + p[..n]
    ensures [first] + p == ([first] + p)[..n + 1] + r && [first] + q == ([first] + p)[..n + 1] + u
  {
  }

  /** A line of the shell that runs on past the end of Python's line. */
  predicate RunsOn(line: string, shellLine: string) {
    |line| < |shellLine| && shellLine[..|line|] == line && IsStray(shellLine[|line|])
  }

  lemma FirstEndIsStray(s: string)
    requires s != [] && !PlainTo(s, PyAdvance(s))
    ensures var k := Before(s, IsBreak); k < |s| && IsStray(s[k])
  {
    var k := Before(s, IsBreak);
    var i :| 0 <= i < PyAdvance(s) && IsStray(s[i]);
    assert IsBreak(s[i]);
  }

  lemma FirstLineRunsOn(s: string)
    requires s != [] && !PlainTo(s, PyAdvance(s))
    ensures Before(s, IsBreak) < Before(s, IsNewline)
    ensures RunsOn(s[..Before(s, IsBreak)], s[..Before(s, IsNewline)])
  {
    var k, m := Before(s, IsBreak), Before(s, IsNewline);
    FirstEndIsStray(s);
    assert m < |s| ==> IsBreak(s[m]);
    assert s[..m][..k] == s[..k] && s[..m][k] == s[k];
  }

  lemma PrependedUpTo(first: string, p: seq<string>, q: seq<string>, n: nat)
    requires n < |p| && n < |q| && p[..n] == q[..n]
    ensures ([first] + p)[..n + 1] == ([first] + q)[..n + 1]
    ensures ([first] + p)[n + 1] == p[n] && ([first] + q)[n + 1] == q[n]
  {
  }

  /** The lines agree up to the j-th, which runs on for the shell. */
  ghost predicate BreaksAt(s: string, j: nat) {
    && j < |PyLines(s)| && j < |ShellLines(s)| && ShellLines(s)[..j] == PyLines(s)[..j]
    && RunsOn(PyLines(s)[j], ShellLines(s)[j])
  }

  lemma BreaksAtOnce(s: string)
    requires s != [] && !PlainTo(s, PyAdvance(s))
    ensures BreaksAt(s, 0)
  {
    FirstLineRunsOn(s);
  }

  lemma BreaksLater(s: string, j: nat)
    requires s != [] && PlainTo(s, PyAdvance(s)) && BreaksAt(s[PyAdvance(s)..], j)
    ensures BreaksAt(s, j + 1)
  {
    var tail := s[PyAdvance(s)..];
    SameFirstLine(s);
    PrependedUpTo(s[..Before(s, IsBreak)], PyLines(tail), ShellLines(tail), j);
  }

  /** Over any other head, some line of the shell runs on, and those before agree. */
  lemma {:induction false} BrokenHead(s: string, n: nat) returns (j: nat)
    requires n <= |PyLines(s)| && !PlainTo(s, HeadLength(s, n))
    ensures j < n && BreaksAt(s, j)
    decreases n
  {
    assert n > 0 && s != [];
    if PlainTo(s, PyAdvance(s)) {
      HeadParts(s, n);
      var i := BrokenHead(s[PyAdvance(s)..], n - 1);
      BreaksLater(s, i);
      j := i + 1;
    } else {
      BreaksAtOnce(s);
      j := 0;
    }
  }

  /** The shell reads Python's first n lines exactly when no other character than
      '\n' ends one of them. */
  lemma HeadsAgreeExactly(s: string, n: nat)
    requires n <= |PyLines(s)|
    ensures (n <= |ShellLines(s)| && ShellLines(s)[..n] == PyLines(s)[..n]) <==> PlainTo(s, HeadLength(s, n))
  {
    if PlainTo(s, HeadLength(s, n)) {
      PlainHead(s, n);
    } else {
      var j := BrokenHead(s, n);
      if n <= |ShellLines(s)| {
        assert ShellLines(s)[..n][j] == ShellLines(s)[j] != PyLines(s)[j] == PyLines(s)[..n][j];
      }
    }
  }

  // ----- the end of the first line

  /** Before a further line, a plain first line ends in '\n'. */
  lemma PlainFirstEnd(s: string, n: nat)
    requires 2 <= n <= |PyLines(s)| && PlainTo(s, HeadLength(s, n))
    ensures var a := PyAdvance(s); s[a - 1] == '\n' && PlainTo(s[a..], HeadLength(s[a..], n - 1))
  {
    var a := PyAdvance(s);
    HeadParts(s, n);
    assert PyLines(s)[1..] == PyLines(s[a..]) != [];
    assert Before(s, IsBreak) < a;
    assert IsBreak(s[a - 1]) && !IsStray(s[a - 1]);
  }

  /** A '\n' at k, or after a carriage return there, ends what ends at k. */
  lemma EndsInNewline(s: string, k: nat, m: nat)
    requires k <= m < |s| && s[m] == '\n' && (m == k || (m == k + 1 && s[k] == '\r'))
    ensures s[AfterEnd(s, k) - 1] == '\n'
  {
  }

  lemma LineBeforeNewline(s: string, k: nat)
    requires k < |s| && s[AfterEnd(s, k) - 1] == '\n'
    ensures var line := s[..AfterEnd(s, k) - 1]; line == s[..k] || line == s[..k] + ['\r']
  {
  }

  lemma ShellFirstLine(s: string)
    requires |ShellLines(s)| > 1
    ensures s != [] && Before(s, IsNewline) < |s| && ShellLines(s)[0] == s[..Before(s, IsNewline)]
  {
    assert ShellLines(s)[1..] == ShellLines(s[ShellAdvance(s)..]) != [];
  }

  /** A first line that Python ends otherwise is longer for the shell, and not by a
      carriage return. */
  lemma LongerFirstLine(s: string)
    requires |ShellLines(s)| > 1 && s != [] && s[PyAdvance(s) - 1] != '\n'
    ensures ShellLines(s)[0] != PyLines(s)[0] && ShellLines(s)[0] != PyLines(s)[0] + ['\r']
  {
    ShellFirstLine(s);
    LongerUnlessEnded(s, Before(s, IsBreak), Before(s, IsNewline));
  }

  lemma LongerUnlessEnded(s: string, k: nat, m: nat)
    requires k <= m < |s| && s[m] == '\n' && s[AfterEnd(s, k) - 1] != '\n'
    ensures s[..m] != s[..k] && s[..m] != s[..k] + ['\r']
  {
    if m == k || (m == k + 1 && s[k] == '\r') {
      EndsInNewline(s, k, m);
    } else if m == k + 1 {
      assert s[..m][k] == s[k] != '\r' == (s[..k] + ['\r'])[k];
    } else {
      assert |s[..m]| > |s[..k] + ['\r']|;
    }
  }

  /** The text with its first line ended by '\n' alone. */
  function Mended(s: string): string
    requires s != []
  {
    s[..Before(s, IsBreak)] + ['\n'] + s[PyAdvance(s)..]
  }

  lemma MendedParts(s: string)
    requires s != []
    ensures var (t, k) := (Mended(s), Before(s, IsBreak));
      && |t| > k && t[k] == '\n' && t[..k] == s[..k] && t[k + 1..] == s[PyAdvance(s)..]
      && Before(t, IsBreak) == k && Before(t, IsNewline) == k && PyAdvance(t) == k + 1 == ShellAdvance(t)
  {
    var t, k := Mended(s), Before(s, IsBreak);
    assert forall i :: 0 <= i < k ==> t[i] == s[i];
    BeforeIs(t, IsBreak, k);
    BeforeIs(t, IsNewline, k);
  }

  lemma MendedPyLines(s: string)
    requires s != []
    ensures PyLines(Mended(s)) == PyLines(s)
  {
    MendedParts(s);
  }

  lemma MendedShellLines(s: string)
    requires s != []
    ensures ShellLines(Mended(s)) == [s[..Before(s, IsBreak)]] + ShellLines(s[PyAdvance(s)..])
  {
    MendedParts(s);
  }

  lemma EndedShellLines(s: string)
    requires s != [] && s[PyAdvance(s) - 1] == '\n'
    ensures ShellLines(s) == [s[..PyAdvance(s) - 1]] + ShellLines(s[PyAdvance(s)..])
  {
    BeforeIs(s, IsNewline, PyAdvance(s) - 1);
  }

  /** Mending a first line that ends in '\n' changes neither Python's lines nor the
      shell's from the second one on. */
  lemma MendedLines(s: string)
    requires s != [] && s[PyAdvance(s) - 1] == '\n'
    ensures var (first, rest) := (s[..PyAdvance(s) - 1], ShellLines(s[PyAdvance(s)..]));
      && PyLines(Mended(s)) == PyLines(s)
      && ShellLines(Mended(s)) == [s[..Before(s, IsBreak)]] + rest
      && ShellLines(s) == [first] + rest
      && (first == s[..Before(s, IsBreak)] || first == s[..Before(s, IsBreak)] + ['\r'])
  {
    MendedPyLines(s);
    MendedShellLines(s);
    EndedShellLines(s);
    if Before(s, IsBreak) < |s| {
      LineBeforeNewline(s, Before(s, IsBreak));
    }
  }

  lemma MendedHead(s: string, n: nat)
    requires s != [] && s[PyAdvance(s) - 1] == '\n' && n > 0
    ensures var tail := s[PyAdvance(s)..];
      PlainTo(Mended(s), HeadLength(Mended(s), n)) <==> PlainTo(tail, HeadLength(tail, n - 1))
  {
    var t, k := Mended(s), Before(s, IsBreak);
    MendedParts(s);
    HeadParts(t, n);
    assert PlainTo(t, k + 1) by {
      forall i | 0 <= i < k + 1 ensures !IsStray(t[i]) {
        assert i < k ==> t[i] == t[..k][i] == s[i];
      }
    }
  }

  lemma {:induction false} WholeHead(s: string)
    ensures HeadLength(s, |PyLines(s)|) == |s|
  {
    if s != [] {
      WholeHead(s[PyAdvance(s)..]);
    }
  }

  /** The two splittings agree exactly on plain texts. */
  lemma SplittingsAgreeExactly(s: string)
    ensures ShellLines(s) == PyLines(s) <==> IsPlain(s)
  {
    var n := |PyLines(s)|;
    WholeHead(s);
    assert PyLines(s)[..n] == PyLines(s);
    HeadsAgreeExactly(s, n);
    if IsPlain(s) {
      PlainHead(s, n);
      assert s[|s|..] == [];
    }
  }

  /** A line of the shell in which Python finds no line end is a line of Python. */
  lemma {:induction false} UnbrokenLine(s: string, line: string)
    requires line in ShellLines(s) && IsUnbroken(line)
    ensures line in PyLines(s)
    decreases |s|
  {
    var k, a := Before(s, IsBreak), PyAdvance(s);
    if PlainTo(s, a) {
      SameFirstLine(s);
      if line != s[..k] {
        UnbrokenLine(s[a..], line);
      }
    } else {
      FirstLineIsBroken(s);
      RestAfterStray(s);
      UnbrokenLine(s[a..], line);
    }
  }

  lemma FirstLineIsBroken(s: string)
    requires s != [] && !PlainTo(s, PyAdvance(s))
    ensures !IsUnbroken(s[..Before(s, IsNewline)])
  {
    FirstLineRunsOn(s);
    assert IsBreak(s[..Before(s, IsNewline)][Before(s, IsBreak)]);
  }

  /** After a stray line end the shell's later lines are still to come. */
  lemma RestAfterStray(s: string)
    requires s != [] && !PlainTo(s, PyAdvance(s))
    ensures forall l :: l in ShellLines(s[ShellAdvance(s)..]) ==> l in ShellLines(s[PyAdvance(s)..])
  {
    var a := PyAdvance(s);
    FirstLineRunsOn(s);
    AdvanceWithin(s, Before(s, IsBreak), Before(s, IsNewline));
    if a != ShellAdvance(s) {
      var first := LaterStart(s, a);
    }
  }

  lemma AdvanceWithin(s: string, k: nat, m: nat)
    requires k < m <= |s| && (m < |s| ==> s[m] == '\n') && forall i :: k <= i < m ==> s[i] != '\n'
    ensures AfterEnd(s, k) <= m || AfterEnd(s, k) == m + 1 <= |s|
    ensures AfterEnd(s, k) == |s| ==> m >= |s| - 1
  {
  }

  lemma LaterStart(s: string, a: nat) returns (first: string)
    requires a <= Before(s, IsNewline) && a < |s|
    ensures ShellLines(s[a..]) == [first] + ShellLines(s[ShellAdvance(s)..])
  {
    LaterAdvance(s, a);
    DropDrop(s, a, ShellAdvance(s) - a);
    first := ShellFirst(s[a..], ShellAdvance(s) - a, s[ShellAdvance(s)..]);
  }

  lemma LaterAdvance(s: string, a: nat)
    requires a <= Before(s, IsNewline) && a < |s|
    ensures Before(s[a..], IsNewline) == Before(s, IsNewline) - a && ShellAdvance(s[a..]) == ShellAdvance(s) - a
  {
    BeforeShift(s, IsNewline, a);
  }

  lemma ShellFirst(s: string, n: nat, later: string) returns (first: string)
    requires s != [] && n == ShellAdvance(s) && later == s[n..]
    ensures ShellLines(s) == [first] + ShellLines(later)
  {
    first := s[..Before(s, IsNewline)];
  }

  // ----- texts with chosen line ends

  /** The lines, each ended by the same character. */
  function Ended(lines: seq<string>, end: char): string {
    if lines == [] then [] else lines[0] + [end] + Ended(lines[1..], end)
  }

  lemma FirstLineOf(line: string, end: char, rest: string)
    requires IsUnbroken(line) && IsBreak(end) && end != '\r'
    ensures PyLines(line + ([end] + rest)) == [line] + PyLines(rest)
  {
    var t := line + ([end] + rest);
    assert t[|line|] == end;
    BeforeIs(t, IsBreak, |line|);
    assert t[..|line|] == line && t[|line| + 1..] == rest;
  }

  /** Whatever character of Python's set ends them, Python reads back the lines. */
  lemma {:induction false} EndedLines(lines: seq<string>, end: char)
    requires IsBreak(end) && end != '\r' && forall i :: 0 <= i < |lines| ==> IsUnbroken(lines[i])
    ensures PyLines(Ended(lines, end)) == lines
    decreases |lines|
  {
    if lines != [] {
      var rest := Ended(lines[1..], end);
      assert Ended(lines, end) == lines[0] + ([end] + rest);
      FirstLineOf(lines[0], end, rest);
      EndedLines(lines[1..], end);
      assert lines == [lines[0]] + lines[1..];
    }
  }

  /** For the shell they are one line, unless the character is '\n'. */
  lemma {:induction false} EndedIsOneLine(lines: seq<string>, end: char)
    requires IsStray(end) && lines != [] && forall i :: 0 <= i < |lines| ==> IsUnbroken(lines[i])
    ensures Ended(lines, end) != [] && ShellLines(Ended(lines, end)) == [Ended(lines, end)]
  {
    var s := Ended(lines, end);
    NoNewline(lines, end);
    BeforeIs(s, IsNewline, |s|);
    assert s[|s|..] == [] && s[..|s|] == s;
  }

  lemma {:induction false} NoNewline(lines: seq<string>, end: char)
    requires end != '\n' && forall i :: 0 <= i < |lines| ==> IsUnbroken(lines[i])
    ensures '\n' !in Ended(lines, end)
    decreases |lines|
  {
    if lines != [] {
      assert IsUnbroken(lines[0]);
      NoNewline(lines[1..], end);
    }
  }

  /** No line that Python gives contains a line end. */
  lemma {:induction false} LinesAreUnbroken(s: string)
    ensures forall i :: 0 <= i < |PyLines(s)| ==> IsUnbroken(PyLines(s)[i])
  {
    if s != [] {
      LinesAreUnbroken(s[PyAdvance(s)..]);
    }
  }

  // ----- reading the file

  /** The newline translation of `read_text`: "\r\n" and '\r' become '\n'. */
  function Translated(s: string): string {
    if s == [] then []
    else if s[0] != '\r' then [s[0]] + Translated(s[1..])
    else ['\n'] + Translated(if |s| > 1 && s[1] == '\n' then s[2..] else s[1..])
  }

  lemma {:induction false} TranslatedLine(s: string, n: nat)
    requires n <= |s| && forall i :: 0 <= i < n ==> s[i] != '\r'
    ensures Translated(s) == s[..n] + Translated(s[n..])
    decreases n
  {
    if n == 0 {
      assert s[0..] == s;
    } else {
      TranslatedLine(s[1..], n - 1);
      assert s[..n] == [s[0]] + s[1..][..n - 1] && s[1..][n - 1..] == s[n..];
    }
  }

  lemma TranslatedEnd(s: string)
    requires s != [] && IsBreak(s[0])
    ensures Translated(s) == [if s[0] == '\r' then '\n' else s[0]] + Translated(s[PyAdvance(s)..])
  {
  }

  lemma AdvancesByEnd(s: string, k: nat)
    requires k == Before(s, IsBreak) < |s|
    ensures PyAdvance(s) == k + PyAdvance(s[k..]) && s[k..][PyAdvance(s[k..])..] == s[PyAdvance(s)..]
  {
    var t := s[k..];
    BeforeShift(s, IsBreak, k);
    assert t[0] == s[k] && (k + 1 < |s| ==> t[1] == s[k + 1]);
    DropDrop(s, k, PyAdvance(t));
  }

  /** It changes no line, so the linter's lines are those of the file itself. */
  lemma {:induction false} TranslationKeepsLines(s: string)
    ensures PyLines(Translated(s)) == PyLines(s)
    decreases |s|
  {
    if s != [] {
      var k := Before(s, IsBreak);
      TranslatedLine(s, k);
      if k == |s| {
        assert s[..k] == s && s[k..] == [];
      } else {
        TranslationKeepsLines(s[PyAdvance(s)..]);
        AdvancesByEnd(s, k);
        TranslatedEnd(s[k..]);
        FirstLineOf(s[..k], if s[k] == '\r' then '\n' else s[k], Translated(s[PyAdvance(s)..]));
      }
    }
  }
}
