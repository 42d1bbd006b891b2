/** The release script as a text. */
module ScriptText {
  // What the linter's verdict on a script's text says about the shell that runs the
  // text. The linter cuts it with `str.splitlines` and the shell at '\n' only. The
  // guards hold in every shell, whatever it makes of lines outside the fragment,
  // exactly when '\n' ends the lines of the guard section and before it
  // (scripts/check_platform_readiness.py:1614-1667, 1943-1948, 1972).

  import opened Text
  import opened ScriptLines
  import opened SkipGuards

  /** The line after the guard section of an accepted text. */
  ghost function EndOf(source: string): (end: nat)
    requires Canonical(PyLines(source))
    ensures |PREAMBLE| <= end <= |PyLines(source)|
  {
    SectionEnd(PyLines(source), |PREAMBLE|, VARIABLES)
  }

  /** No character but '\n' ends a line of the preamble or of the guard section. */
  ghost predicate HeadIsPlain(source: string)
    requires Canonical(PyLines(source))
  {
    PlainTo(source, HeadLength(source, EndOf(source)))
  }

  // ----- over a plain head the shell's lines are canonical too

  lemma {:induction false} FirstFiIs(lines: seq<string>, other: seq<string>, start: nat, close: nat)
    requires FirstFi(lines, start) == Some(close) && close < |other| && other[..close + 1] == lines[..close + 1]
    ensures FirstFi(other, start) == Some(close)
  {
    assert other[close] == other[..close + 1][close] == lines[close];
    forall i | start <= i < close ensures other[i] != "fi" {
      assert other[i] == other[..close + 1][i] == lines[i];
    }
    FirstFiSkips(other, start, close);
  }

  /** A section depends on its own lines, and on its guards not occurring later. */
  lemma {:induction false} SectionCarriesOver(lines: seq<string>, other: seq<string>, start: nat,
      variables: seq<string>)
    requires Section(lines, start, variables)
    requires var end := SectionEnd(lines, start, variables);
      end <= |lines| && end <= |other| && other[..end] == lines[..end] && NoGuardOf(other[end..], variables)
    ensures Section(other, start, variables)
      && SectionEnd(other, start, variables) == SectionEnd(lines, start, variables)
    decreases |variables|
  {
    if variables != [] {
      var end, close := SectionEnd(lines, start, variables), FirstFi(lines, start + 1).value;
      BlockCarriesOver(lines, other, start, variables, end);
      SectionCarriesOver(lines, other, close + 1, variables[1..]);
      SectionStarts(other, start, close, variables);
    }
  }

  lemma BlockCarriesOver(lines: seq<string>, other: seq<string>, start: nat, variables: seq<string>, end: nat)
    requires variables != [] && Section(lines, start, variables) && FirstFi(lines, start + 1).value < end <= |lines|
    requires end <= |other| && other[..end] == lines[..end] && NoGuardOf(other[end..], variables)
    ensures var close := FirstFi(lines, start + 1).value;
      && OnlyAt(other, Guard(variables[0]), start) && FirstFi(other, start + 1) == Some(close)
      && Rejecting(other[start + 1..close])
  {
    var close := FirstFi(lines, start + 1).value;
    assert other[..close + 1] == other[..end][..close + 1] == lines[..close + 1];
    FirstFiIs(lines, other, start + 1, close);
    assert other[start + 1..close] == other[..end][start + 1..close] == lines[start + 1..close];
    GuardOnlyAt(lines, other, end, Guard(variables[0]), start, variables);
  }

  lemma GuardOnlyAt(lines: seq<string>, other: seq<string>, end: nat, guard: string, at: nat, variables: seq<string>)
    requires OnlyAt(lines, guard, at) && at < end <= |lines| && end <= |other| && other[..end] == lines[..end]
    requires variables != [] && guard == Guard(variables[0]) && NoGuardOf(other[end..], variables)
    ensures OnlyAt(other, guard, at)
  {
    forall i | 0 <= i < |other| ensures other[i] == guard <==> i == at {
      if i < end {
        assert other[i] == other[..end][i] == lines[i];
      } else {
        assert other[i] == other[end..][i - end] && other[end..][i - end] in other[end..];
      }
    }
  }

  lemma GuardIsUnbroken(v: string)
    requires IsVariableName(v)
    ensures IsUnbroken(Guard(v))
  {
    assert IsUnbroken(GUARD_OPEN) && IsUnbroken(GUARD_CLOSE);
  }

  lemma RestHasNoGuard(rest: string, variables: seq<string>)
    requires NoGuardOf(PyLines(rest), variables)
    requires forall i :: 0 <= i < |variables| ==> IsVariableName(variables[i])
    ensures NoGuardOf(ShellLines(rest), variables)
  {
    forall v, l | v in variables && l in ShellLines(rest) ensures l != Guard(v) {
      GuardIsUnbroken(v);
      if l == Guard(v) {
        UnbrokenLine(rest, l);
      }
    }
  }

  /** Over a plain head the shell's lines hold the section as well. */
  lemma ShellSection(source: string, start: nat, variables: seq<string>, end: nat)
    requires Section(PyLines(source), start, variables) && start <= |PyLines(source)|
    requires end == SectionEnd(PyLines(source), start, variables) <= |PyLines(source)|
    requires PlainTo(source, HeadLength(source, end))
    requires forall i :: 0 <= i < |variables| ==> IsVariableName(variables[i])
    ensures Section(ShellLines(source), start, variables) && SectionEnd(ShellLines(source), start, variables) == end
    ensures end <= |ShellLines(source)| && ShellLines(source)[..end] == PyLines(source)[..end]
  {
    var lines, other := PyLines(source), ShellLines(source);
    var rest := source[HeadLength(source, end)..];
    PlainHead(source, end);
    Rests(lines, other, end, PyLines(rest), ShellLines(rest));
    SectionRest(lines, start, variables);
    RestHasNoGuard(rest, variables);
    SectionCarriesOver(lines, other, start, variables);
  }

  lemma Rests(lines: seq<string>, other: seq<string>, end: nat, p: seq<string>, q: seq<string>)
    requires end <= |lines| && lines == lines[..end] + p && other == lines[..end] + q
    ensures end <= |other| && other[..end] == lines[..end] && lines[end..] == p && other[end..] == q
  {
  }

  /** An accepted text whose head is plain is canonical in the shell's eyes too. */
  lemma ShellSeesSection(source: string)
    requires Canonical(PyLines(source)) && HeadIsPlain(source)
    ensures Canonical(ShellLines(source))
    ensures SectionEnd(ShellLines(source), |PREAMBLE|, VARIABLES) == EndOf(source)
  {
    VariablesAreNames();
    ShellSection(source, |PREAMBLE|, VARIABLES, EndOf(source));
    SamePrefix(PyLines(source), ShellLines(source), EndOf(source), PREAMBLE);
  }

  lemma SamePrefix(lines: seq<string>, other: seq<string>, end: nat, prefix: seq<string>)
    requires |prefix| <= end <= |lines| && end <= |other| && other[..end] == lines[..end] && prefix <= lines
    ensures prefix <= other
  {
    assert other[..|prefix|] == other[..end][..|prefix|] == lines[..end][..|prefix|] == lines[..|prefix|];
  }

  // ----- soundness for the text

  /** An accepted text with a plain head, run with a skip variable set to 1, never
      gets past its guard section and ends with the rejecting status. */
  lemma AcceptedTextRejectsSkips(source: string, env: Environment, variable: string)
    requires Canonical(PyLines(source)) && HeadIsPlain(source)
    requires variable in VARIABLES && Skips(env, variable)
    ensures var lines := ShellLines(source);
      && (exists n :: Steps(lines, env, At(|PREAMBLE|), n) == Exited(RejectStatus(env)))
      && forall k: nat :: var run := Steps(lines, env, At(|PREAMBLE|), k);
           run == Exited(RejectStatus(env)) || (run.At? && |PREAMBLE| <= run.line < EndOf(source))
  {
    ShellSeesSection(source);
    AcceptedScriptRejectsSkips(ShellLines(source), env, variable);
  }

  /** Without one, the shell reaches the line after the section. */
  lemma AcceptedTextPassesOtherwise(source: string, env: Environment)
    requires Canonical(PyLines(source)) && HeadIsPlain(source)
    requires forall v :: v in VARIABLES ==> !Skips(env, v)
    ensures exists n :: Steps(ShellLines(source), env, At(|PREAMBLE|), n) == At(EndOf(source))
  {
    ShellSeesSection(source);
    AcceptedScriptPassesOtherwise(ShellLines(source), env);
  }

  // ----- any accepted text has an accepted variant without guards

  /** The lines of an accepted text, ended by vertical tabs, are accepted as well; the
      shell reads one comment and stops with status 0 in every environment. */
  lemma AcceptedTextWithoutGuards(source: string, env: Environment)
    requires Canonical(PyLines(source))
    ensures var other := Ended(PyLines(source), '\U{000B}');
      && PyLines(other) == PyLines(source) && |ShellLines(other)| == 1
      && Steps(ShellLines(other), env, At(0), 2) == Exited(0)
      && Steps(ShellLines(other), env, At(|PREAMBLE|), 1) == Exited(0)
  {
    var lines := PyLines(source);
    var other := Ended(lines, '\U{000B}');
    LinesAreUnbroken(source);
    EndedLines(lines, '\U{000B}');
    EndedIsOneLine(lines, '\U{000B}');
    assert lines[0] == PREAMBLE[0] && PREAMBLE[0][0] == '#';
    OneComment(other, env, |PREAMBLE|);
  }

  lemma OneComment(text: string, env: Environment, later: nat)
    requires text != [] && text[0] == '#' && later > 0
    ensures Steps([text], env, At(0), 2) == Exited(0) && Steps([text], env, At(later), 1) == Exited(0)
  {
    assert TrimBlanks(text) == text;
    assert Step([text], env, At(0)) == At(1) && Step([text], env, At(1)) == Exited(0);
    assert Steps([text], env, At(0), 2) == Steps([text], env, At(1), 1) == Steps([text], env, Exited(0), 0);
    assert Steps([text], env, At(later), 1) == Steps([text], env, Exited(0), 0);
  }

  // ----- and exactly which accepted texts are guarded

  /** A line of the guard section that runs on is no command of the fragment. */
  lemma RunningOnIsOther(line: string, shellLine: string, v: string)
    requires RunsOn(line, shellLine)
    requires line == "fi" || line == EXIT_LINE || IsEchoLine(line) || (line == Guard(v) && IsVariableName(v))
    ensures Classify(shellLine) == Other
  {
    if line == "fi" {
      FiRunsOn(shellLine);
    } else if line == EXIT_LINE {
      ExitRunsOn(shellLine);
    } else if IsEchoLine(line) {
      EchoRunsOn(line, shellLine);
    } else {
      GuardRunsOn(v, shellLine);
    }
  }

  lemma FiRunsOn(s: string)
    requires RunsOn("fi", s)
    ensures Classify(s) == Other
  {
    assert s[0] == s[..2][0] && s[1] == s[..2][1];
    assert GUARD_OPEN[0] == 'i' && ECHO_OPEN[2..][0] == 'e';
    assert TrimBlanks(s) == s;
  }

  /** Two leading blanks are trimmed. */
  lemma TrimTwo(s: string)
    requires |s| > 2 && s[0] == ' ' && s[1] == ' ' && !IsBlank(s[2])
    ensures TrimBlanks(s) == s[2..]
  {
    assert s[1..][1..] == s[2..] && s[1..][0] == ' ';
    assert TrimBlanks(s[2..]) == s[2..];
  }

  lemma ExitRunsOn(s: string)
    requires RunsOn(EXIT_LINE, s)
    ensures Classify(s) == Other
  {
    var line := EXIT_LINE;
    assert |line| == 8 && line[0] == ' ' && line[1] == ' ' && line[2] == 'e' && line[3] == 'x';
    forall i | 0 <= i < 8 ensures s[i] == line[i] {
      assert s[..8][i] == s[i];
    }
    TrimTwo(s);
    var t := s[2..];
    assert t[0] == 'e' && t[1] == 'x' && |t| > 6;
    assert GUARD_OPEN[0] == 'i' && ECHO_OPEN[2..][1] == ECHO_OPEN[3] == 'c';
  }

  lemma EchoRunsOn(line: string, s: string)
    requires IsEchoLine(line) && RunsOn(line, s)
    ensures Classify(s) == Other
  {
    forall i | 0 <= i < |line| ensures s[i] == line[i] {
      assert s[..|line|][i] == s[i];
    }
    forall i | 0 <= i < |ECHO_OPEN| ensures s[i] == ECHO_OPEN[i] {
      assert line[..|ECHO_OPEN|][i] == line[i];
    }
    TrimTwo(s);
    var t := s[2..];
    assert t[0] == 'e' && t[1] == 'c' && GUARD_OPEN[0] == 'i';
    var text := Between(ECHO_OPEN[2..], ECHO_CLOSE, t);
    if text.Some? {
      var quote := |line| - |ECHO_CLOSE|;
      assert line[quote] == line[quote..][0] == ECHO_CLOSE[0] == '"';
      assert text.value[quote - |ECHO_OPEN|] == s[quote];
    }
  }

  lemma GuardRunsOn(v: string, s: string)
    requires RunsOn(Guard(v), s) && IsVariableName(v)
    ensures Classify(s) == Other
  {
    forall i | 0 <= i < |Guard(v)| ensures s[i] == Guard(v)[i] {
      assert s[..|Guard(v)|][i] == s[i];
    }
    assert GUARD_OPEN[0] == 'i' && GUARD_OPEN[1] == 'f' && GUARD_OPEN[2] == ' ' && ECHO_OPEN[2..][0] == 'e';
    assert TrimBlanks(s) == s;
    var name := Between(GUARD_OPEN, GUARD_CLOSE, s);
    if name.Some? {
      assert name.value[|v|] == s[|GUARD_OPEN| + |v|] == GUARD_CLOSE[0] == ':';
    }
  }

  /** The search for a closing `fi` stops at a line it does not know. */
  lemma {:induction false} StopsAtOther(lines: seq<string>, i: nat, j: nat)
    requires i <= j < |lines| && Classify(lines[j]) == Other
    requires forall k :: i <= k < j ==> IsEchoLine(lines[k]) || lines[k] == EXIT_LINE
    ensures MatchingFi(lines, i) == None
    decreases j - i
  {
    if i < j {
      SimpleLine(lines[i]);
      StopsAtOther(lines, i + 1, j);
    }
  }

  lemma SimpleLine(line: string)
    requires IsEchoLine(line) || line == EXIT_LINE
    ensures Classify(line) == Echo || Classify(line) == Exit(2)
  {
    if IsEchoLine(line) {
      ClassifyEcho(line);
    } else {
      ClassifyExit();
    }
  }

  /** The shell's lines agree with the linter's up to one that runs on. */
  ghost predicate DivergesAt(lines: seq<string>, other: seq<string>, j: nat) {
    j < |lines| && j < |other| && other[..j] == lines[..j] && RunsOn(lines[j], other[j])
  }

  lemma BlockLinesAre(lines: seq<string>, start: nat, variables: seq<string>, i: nat)
    requires variables != [] && Section(lines, start, variables) && start <= i <= FirstFi(lines, start + 1).value
    ensures i == start ==> lines[i] == Guard(variables[0])
    ensures i == FirstFi(lines, start + 1).value ==> lines[i] == "fi"
    ensures start < i < FirstFi(lines, start + 1).value ==> IsEchoLine(lines[i]) || lines[i] == EXIT_LINE
  {
    RejectingLines(lines, start + 1, FirstFi(lines, start + 1).value);
  }

  /** The divergence in the first block: the run stops there or at the guard. */
  lemma BrokenBlockStops(lines: seq<string>, other: seq<string>, j: nat, env: Environment, start: nat,
      variables: seq<string>)
    requires variables != [] && Section(lines, start, variables) && IsVariableName(variables[0])
    requires DivergesAt(lines, other, j) && start <= j <= FirstFi(lines, start + 1).value
    ensures Step(other, env, At(start)) == Beyond(start)
  {
    BlockLinesAre(lines, start, variables, j);
    RunningOnIsOther(lines[j], other[j], variables[0]);
    if start < j {
      assert other[start] == other[..j][start] == lines[start];
      ClassifyGuard(variables[0]);
      forall k | start + 1 <= k < j ensures IsEchoLine(other[k]) || other[k] == EXIT_LINE {
        assert other[k] == other[..j][k] == lines[k];
        BlockLinesAre(lines, start, variables, k);
      }
      StopsAtOther(other, start + 1, j);
    }
  }

  /** An earlier block is passed as in the linter's lines. */
  lemma WholeBlockPasses(lines: seq<string>, other: seq<string>, j: nat, env: Environment, start: nat,
      variables: seq<string>)
    requires variables != [] && Section(lines, start, variables) && IsVariableName(variables[0])
    requires DivergesAt(lines, other, j) && j > FirstFi(lines, start + 1).value && !Skips(env, variables[0])
    ensures Step(other, env, At(start)) == At(FirstFi(lines, start + 1).value + 1)
  {
    var close := FirstFi(lines, start + 1).value;
    assert other[start] == other[..j][start] == lines[start];
    assert other[close] == other[..j][close] == lines[close];
    assert other[..j][start + 1..close] == other[start + 1..close];
    assert lines[..j][start + 1..close] == lines[start + 1..close];
    GuardStep(other, env, start, variables[0], close);
  }

  lemma StopsAtOnce(lines: seq<string>, env: Environment, i: nat, low: nat, high: nat)
    requires low <= i < high && Step(lines, env, At(i)) == Beyond(i)
    ensures Runs(lines, env, i, 1, Beyond(i), low, high)
  {
    assert Steps(lines, env, At(i), 1) == Steps(lines, env, Beyond(i), 0);
    assert Steps(lines, env, At(i), 0) == At(i);
  }

  lemma PassesThenStops(lines: seq<string>, other: seq<string>, j: nat, env: Environment, start: nat,
      variables: seq<string>,
                        n: nat, stop: nat, low: nat)
    requires variables != [] && Section(lines, start, variables) && IsVariableName(variables[0])
    requires DivergesAt(lines, other, j) && j > FirstFi(lines, start + 1).value && !Skips(env, variables[0])
    requires low <= start
    requires Runs(other, env, FirstFi(lines, start + 1).value + 1, n, Beyond(stop), low,
      SectionEnd(lines, start, variables))
    ensures Runs(other, env, start, n + 1, Beyond(stop), low, SectionEnd(lines, start, variables))
  {
    WholeBlockPasses(lines, other, j, env, start, variables);
    RunsFirst(other, env, start, FirstFi(lines, start + 1).value + 1, n, Beyond(stop), low,
      SectionEnd(lines, start, variables));
  }

  /** Only this variable is set, and stderr can be written. */
  function Only(v: string): Environment { Environment(map[v := "1"], true) }

  lemma OnlySkips(v: string, w: string)
    ensures Skips(Only(v), w) <==> w == v
  {
  }

  /** With just the variable set whose block diverges, the run over the section stops
      at that block's guard, a compound command that the fragment does not know. */
  lemma {:induction false} BrokenSectionStops(lines: seq<string>, other: seq<string>, j: nat, start: nat,
                                              variables: seq<string>, low: nat)
    returns (v: string, n: nat, stop: nat)
    requires Section(lines, start, variables) && low <= start <= j < SectionEnd(lines, start, variables)
    requires AreDistinctNames(variables) && DivergesAt(lines, other, j)
    ensures v in variables && Runs(other, Only(v), start, n, Beyond(stop), low, SectionEnd(lines, start, variables))
    decreases |variables|
  {
    var close, end := FirstFi(lines, start + 1).value, SectionEnd(lines, start, variables);
    if j <= close {
      v, n, stop := variables[0], 1, start;
      BrokenBlockStops(lines, other, j, Only(v), start, variables);
      StopsAtOnce(other, Only(v), start, low, end);
    } else {
      v, n, stop := BrokenSectionStops(lines, other, j, close + 1, variables[1..], low);
      OnlySkips(v, variables[0]);
      PassesThenStops(lines, other, j, Only(v), start, variables, n, stop, low);
      n := n + 1;
    }
  }

  ghost predicate AreDistinctNames(variables: seq<string>) {
    && (forall i :: 0 <= i < |variables| ==> IsVariableName(variables[i]))
    && forall i, j :: 0 <= i < j < |variables| ==> variables[i] != variables[j]
  }

  lemma {:induction false} BeyondIsFinal(lines: seq<string>, env: Environment, stop: nat, n: nat)
    ensures Steps(lines, env, Beyond(stop), n) == Beyond(stop)
  {
    if n > 0 {
      BeyondIsFinal(lines, env, stop, n - 1);
    }
  }

  // ----- a shell, and all that the fragment leaves open about it

  /** What a shell does where the fragment says nothing: after a preamble other than the
      fixed one, and at a line that it does not know. */
  datatype Shell = Shell(
    begin: (seq<string>, Environment) -> Run,
    unknown: (seq<string>, Environment, nat) -> Run)

  /** The fixed preamble, whose first line is a comment; a carriage return there is
      part of the comment. */
  predicate FindsPreamble(lines: seq<string>) {
    && |lines| >= |PREAMBLE|
    && (lines[0] == PREAMBLE[0] || lines[0] == PREAMBLE[0] + ['\r'])
    && lines[1..|PREAMBLE|] == PREAMBLE[1..]
  }

  /** Where the shell is after the preamble. */
  function Begin(shell: Shell, lines: seq<string>, env: Environment): Run {
    if FindsPreamble(lines) then At(|PREAMBLE|) else shell.begin(lines, env)
  }

  function StepIn(shell: Shell, lines: seq<string>, env: Environment, run: Run): Run {
    var next := Step(lines, env, run);
    if next.Beyond? then shell.unknown(lines, env, next.line) else next
  }

  function StepsIn(shell: Shell, lines: seq<string>, env: Environment, run: Run, n: nat): Run
    decreases n
  {
    if n == 0 then run else StepsIn(shell, lines, env, StepIn(shell, lines, env, run), n - 1)
  }

  /** A run that stays in the fragment is the same in every shell. */
  lemma {:induction false} KnownSteps(shell: Shell, lines: seq<string>, env: Environment, run: Run, n: nat)
    requires !Steps(lines, env, run, n).Beyond?
    ensures StepsIn(shell, lines, env, run, n) == Steps(lines, env, run, n)
    decreases n
  {
    if n > 0 {
      var next := Step(lines, env, run);
      if next.Beyond? {
        BeyondIsFinal(lines, env, next.line, n - 1);
      }
      KnownSteps(shell, lines, env, next, n - 1);
    }
  }

  /** The shell that gives up with status 0 at whatever the fragment does not know. */
  const QUITS := Shell((lines, env) => Exited(0), (lines, env, i) => Exited(0))

  lemma {:induction false} ExitStays(shell: Shell, lines: seq<string>, env: Environment, status: int, n: nat)
    ensures StepsIn(shell, lines, env, Exited(status), n) == Exited(status)
    decreases n
  {
    if n > 0 {
      ExitStays(shell, lines, env, status, n - 1);
    }
  }

  lemma {:induction false} QuitsAtUnknown(lines: seq<string>, env: Environment, i: nat, n: nat)
    requires Steps(lines, env, At(i), n).Beyond?
    ensures StepsIn(QUITS, lines, env, At(i), n) == Exited(0)
    decreases n
  {
    var next := Step(lines, env, At(i));
    match next
    case At(k) => QuitsAtUnknown(lines, env, k, n - 1);
    case Beyond(_) => ExitStays(QUITS, lines, env, 0, n - 1);
    case Exited(status) => ExitIsFinal(lines, env, status, n - 1);
  }

  /** The shell's run of the lines comes to the given state. */
  ghost predicate Ends(shell: Shell, lines: seq<string>, env: Environment, final: Run) {
    exists n :: StepsIn(shell, lines, env, Begin(shell, lines, env), n) == final
  }

  lemma {:induction false} StepsInCompose(shell: Shell, lines: seq<string>, env: Environment, run: Run, m: nat, n: nat)
    ensures StepsIn(shell, lines, env, run, m + n)
      == StepsIn(shell, lines, env, StepsIn(shell, lines, env, run, m), n)
    decreases m
  {
    if m > 0 {
      StepsInCompose(shell, lines, env, StepIn(shell, lines, env, run), m - 1, n);
    }
  }

  /** A run exits with one status only. */
  lemma OneStatus(shell: Shell, lines: seq<string>, env: Environment, a: int, b: int)
    requires Ends(shell, lines, env, Exited(a)) && Ends(shell, lines, env, Exited(b))
    ensures a == b
  {
    var run := Begin(shell, lines, env);
    var m :| StepsIn(shell, lines, env, run, m) == Exited(a);
    var n :| StepsIn(shell, lines, env, run, n) == Exited(b);
    StepsInCompose(shell, lines, env, run, m, n);
    StepsInCompose(shell, lines, env, run, n, m);
    ExitStays(shell, lines, env, a, n);
    ExitStays(shell, lines, env, b, m);
  }

  /** How the guards should end a run, or where they should let it go on. */
  ghost function Expected(env: Environment, end: nat): Run {
    if exists v :: v in VARIABLES && Skips(env, v) then Exited(RejectStatus(env)) else At(end)
  }

  /** In every shell, whatever it makes of other lines, the guards stop every run with a
      skip variable set to 1 and let every other run reach the given line. */
  ghost predicate Protects(lines: seq<string>, end: nat) {
    forall shell: Shell, env: Environment :: Ends(shell, lines, env, Expected(env, end))
  }

  /** In some shell a run with just this skip variable set to 1 exits with status 0. */
  ghost predicate LetsThrough(lines: seq<string>, v: string) {
    v in VARIABLES && exists shell :: Ends(shell, lines, Only(v), Exited(0))
  }

  lemma LettingThroughIsNoProtection(lines: seq<string>, end: nat, v: string)
    requires LetsThrough(lines, v)
    ensures !Protects(lines, end)
  {
    var shell :| Ends(shell, lines, Only(v), Exited(0));
    OnlySkips(v, v);
    if Protects(lines, end) {
      assert Ends(shell, lines, Only(v), Expected(Only(v), end));
      OneStatus(shell, lines, Only(v), 0, 2);
    }
  }

  lemma NoPreambleLetsThrough(lines: seq<string>)
    requires !FindsPreamble(lines)
    ensures LetsThrough(lines, VARIABLES[0])
  {
    var env := Only(VARIABLES[0]);
    assert StepsIn(QUITS, lines, env, Begin(QUITS, lines, env), 0) == Exited(0);
    assert Ends(QUITS, lines, env, Exited(0));
  }

  // ----- the first line, a comment, may end in a carriage return

  /** No character but '\n' ends a line of the preamble or of the guard section, except
      for a carriage return before the '\n' of the first line. */
  ghost predicate HeadIsSound(source: string)
    requires Canonical(PyLines(source))
  {
    var a := PyAdvance(source);
    source[a - 1] == '\n' && PlainTo(source[a..], HeadLength(source[a..], EndOf(source) - 1))
  }

  lemma PlainIsSound(source: string)
    requires Canonical(PyLines(source)) && HeadIsPlain(source)
    ensures HeadIsSound(source)
  {
    PlainFirstEnd(source, EndOf(source));
  }

  // ----- runs do not look back at the first line

  ghost predicate SameLater(a: seq<string>, b: seq<string>) { |a| == |b| > 0 && a[1..] == b[1..] }

  lemma {:induction false} SameMatch(a: seq<string>, b: seq<string>, i: nat)
    requires SameLater(a, b) && i >= 1
    ensures MatchingFi(a, i) == MatchingFi(b, i)
    decreases |a| - i
  {
    if i < |a| {
      SameLine(a, b, i);
      SameMatch(a, b, i + 1);
      if MatchingFi(a, i + 1).Some? {
        SameMatch(a, b, MatchingFi(a, i + 1).value + 1);
      }
      SameMatchStep(a, b, i);
    }
  }

  lemma SameMatchStep(a: seq<string>, b: seq<string>, i: nat)
    requires i < |a| == |b| && a[i] == b[i] && MatchingFi(a, i + 1) == MatchingFi(b, i + 1)
    requires var inner := MatchingFi(a, i + 1);
      inner.Some? ==> MatchingFi(a, inner.value + 1) == MatchingFi(b, inner.value + 1)
    ensures MatchingFi(a, i) == MatchingFi(b, i)
  {
  }

  lemma SameLine(a: seq<string>, b: seq<string>, i: nat)
    requires SameLater(a, b) && 1 <= i < |a|
    ensures a[i] == b[i]
  {
    assert a[i] == a[1..][i - 1] == b[1..][i - 1] == b[i];
  }

  lemma {:induction false} SameSteps(a: seq<string>, b: seq<string>, env: Environment, i: nat, n: nat)
    requires SameLater(a, b) && i >= 1
    ensures Steps(a, env, At(i), n) == Steps(b, env, At(i), n)
    decreases n
  {
    if n > 0 {
      SameStep(a, b, env, i);
      match Step(a, env, At(i))
      case At(k) => SameSteps(a, b, env, k, n - 1);
      case Beyond(stop) =>
        BeyondIsFinal(a, env, stop, n - 1);
        BeyondIsFinal(b, env, stop, n - 1);
      case Exited(status) =>
        ExitIsFinal(a, env, status, n - 1);
        ExitIsFinal(b, env, status, n - 1);
    }
  }

  lemma SameStep(a: seq<string>, b: seq<string>, env: Environment, i: nat)
    requires SameLater(a, b) && i >= 1
    ensures Step(a, env, At(i)) == Step(b, env, At(i))
    ensures Step(a, env, At(i)).At? ==> Step(a, env, At(i)).line >= 1
  {
    if i < |a| {
      SameLine(a, b, i);
      SameMatch(a, b, i + 1);
    }
  }

  // ----- sound heads protect

  lemma MendedText(source: string)
    requires Canonical(PyLines(source)) && source[PyAdvance(source) - 1] == '\n'
    ensures PyLines(Mended(source)) == PyLines(source) && SameLater(ShellLines(Mended(source)), ShellLines(source))
    ensures HeadIsSound(source) <==> HeadIsPlain(Mended(source))
    ensures FindsPreamble(ShellLines(source)) <==> HasPreamble(ShellLines(Mended(source)))
  {
    MendedLines(source);
    MendedHead(source, EndOf(source));
    assert PyLines(source)[0] == source[..Before(source, IsBreak)] == PREAMBLE[0];
    PreambleAfterFirst(ShellLines(source), ShellLines(Mended(source)));
  }

  lemma PreambleAfterFirst(lines: seq<string>, mended: seq<string>)
    requires SameLater(lines, mended) && lines[0] in {PREAMBLE[0], PREAMBLE[0] + ['\r']} && mended[0] == PREAMBLE[0]
    ensures FindsPreamble(lines) <==> HasPreamble(mended)
  {
    var n := |PREAMBLE|;
    if |lines| >= n {
      assert lines[1..n] == lines[1..][..n - 1] == mended[1..][..n - 1] == mended[1..n];
      assert mended[..n] == [mended[0]] + mended[1..n];
      assert PREAMBLE == [PREAMBLE[0]] + PREAMBLE[1..];
      if mended[..n] == PREAMBLE {
        assert mended[1..n] == mended[..n][1..] == PREAMBLE[1..];
      }
    }
  }

  lemma RunIsExpected(source: string, env: Environment) returns (n: nat)
    requires Canonical(PyLines(source)) && HeadIsPlain(source)
    ensures Steps(ShellLines(source), env, At(|PREAMBLE|), n) == Expected(env, EndOf(source))
  {
    if exists v :: v in VARIABLES && Skips(env, v) {
      var v :| v in VARIABLES && Skips(env, v);
      AcceptedTextRejectsSkips(source, env, v);
      n :| Steps(ShellLines(source), env, At(|PREAMBLE|), n) == Exited(RejectStatus(env));
    } else {
      AcceptedTextPassesOtherwise(source, env);
      n :| Steps(ShellLines(source), env, At(|PREAMBLE|), n) == At(EndOf(source));
    }
  }

  lemma SoundHeadProtects(source: string)
    requires Canonical(PyLines(source)) && HeadIsSound(source)
    ensures Protects(ShellLines(source), EndOf(source))
  {
    var mended, lines := Mended(source), ShellLines(source);
    MendedText(source);
    ShellSeesSection(mended);
    PlainTextProtects(mended, lines);
  }

  /** Whatever the first line, the rest of a plain accepted text protects. */
  lemma PlainTextProtects(source: string, lines: seq<string>)
    requires Canonical(PyLines(source)) && HeadIsPlain(source)
    requires SameLater(ShellLines(source), lines) && FindsPreamble(lines)
    ensures Protects(lines, EndOf(source))
  {
    var end := EndOf(source);
    forall shell: Shell, env: Environment ensures Ends(shell, lines, env, Expected(env, end)) {
      var n := RunIsExpected(source, env);
      SameRunEnds(shell, ShellLines(source), lines, env, n, Expected(env, end));
    }
  }

  lemma SameRunEnds(shell: Shell, mended: seq<string>, lines: seq<string>, env: Environment, n: nat, final: Run)
    requires SameLater(mended, lines) && FindsPreamble(lines) && !final.Beyond?
    requires Steps(mended, env, At(|PREAMBLE|), n) == final
    ensures Ends(shell, lines, env, final)
  {
    SameSteps(mended, lines, env, |PREAMBLE|, n);
    KnownSteps(shell, lines, env, At(|PREAMBLE|), n);
    assert StepsIn(shell, lines, env, Begin(shell, lines, env), n) == final;
  }

  // ----- and others do not

  lemma DivergesAfter(lines: seq<string>, other: seq<string>, j: nat, prefix: seq<string>)
    requires DivergesAt(lines, other, j) && prefix <= lines && prefix <= other
    ensures j >= |prefix|
  {
    assert lines[j] != other[j];
    assert forall i :: 0 <= i < |prefix| ==> lines[i] == prefix[i] == other[i];
  }

  lemma VariablesAreDistinct()
    ensures AreDistinctNames(VARIABLES)
  {
    VariablesAreNames();
  }

  lemma BrokenTextStops(source: string) returns (v: string, n: nat, stop: nat)
    requires Canonical(PyLines(source)) && !HeadIsPlain(source) && HasPreamble(ShellLines(source))
    ensures v in VARIABLES && Steps(ShellLines(source), Only(v), At(|PREAMBLE|), n) == Beyond(stop)
  {
    var j := BrokenHead(source, EndOf(source));
    DivergesAfter(PyLines(source), ShellLines(source), j, PREAMBLE);
    VariablesAreDistinct();
    v, n, stop := BrokenSectionStops(PyLines(source), ShellLines(source), j, |PREAMBLE|, VARIABLES, |PREAMBLE|);
  }

  lemma SameStopLetsThrough(mended: seq<string>, lines: seq<string>, v: string, n: nat, stop: nat)
    requires SameLater(mended, lines) && FindsPreamble(lines) && v in VARIABLES
    requires Steps(mended, Only(v), At(|PREAMBLE|), n) == Beyond(stop)
    ensures LetsThrough(lines, v)
  {
    SameSteps(mended, lines, Only(v), |PREAMBLE|, n);
    QuitsAtUnknown(lines, Only(v), |PREAMBLE|, n);
    assert StepsIn(QUITS, lines, Only(v), Begin(QUITS, lines, Only(v)), n) == Exited(0);
    assert Ends(QUITS, lines, Only(v), Exited(0));
  }

  /** A text whose first line ends in '\n' and whose head does not let it through. */
  lemma UnsoundTailLetsThrough(source: string) returns (v: string)
    requires Canonical(PyLines(source)) && source[PyAdvance(source) - 1] == '\n' && !HeadIsSound(source)
    requires FindsPreamble(ShellLines(source))
    ensures LetsThrough(ShellLines(source), v)
  {
    var n, stop;
    MendedText(source);
    v, n, stop := BrokenTextStops(Mended(source));
    SameStopLetsThrough(ShellLines(Mended(source)), ShellLines(source), v, n, stop);
  }

  /** A first line that does not end in '\n' swallows more of the preamble. */
  lemma UnendedFirstLine(source: string)
    requires Canonical(PyLines(source)) && source[PyAdvance(source) - 1] != '\n'
    ensures !FindsPreamble(ShellLines(source))
  {
    assert PyLines(source)[0] == PREAMBLE[0];
    if |ShellLines(source)| > 1 {
      LongerFirstLine(source);
    }
  }

  /** For every accepted text: it is protected in every shell exactly when no character
      but '\n' ends a line of the preamble and of the guard section, a carriage return
      after the first line aside; every other accepted text some shell lets through. */
  lemma ProtectedExactly(source: string)
    requires Canonical(PyLines(source))
    ensures Protects(ShellLines(source), EndOf(source)) <==> HeadIsSound(source)
    ensures !HeadIsSound(source) ==> exists v :: LetsThrough(ShellLines(source), v)
  {
    if HeadIsSound(source) {
      SoundHeadProtects(source);
    } else {
      var v := VARIABLES[0];
      if FindsPreamble(ShellLines(source)) {
        if source[PyAdvance(source) - 1] != '\n' {
          UnendedFirstLine(source);
        }
        v := UnsoundTailLetsThrough(source);
      } else {
        NoPreambleLetsThrough(ShellLines(source));
      }
      LettingThroughIsNoProtection(ShellLines(source), EndOf(source), v);
    }
  }

  // ----- texts that are accepted and guarded

  /** The intended script as a text: every line ended by '\n'. */
  ghost function Rendered(messages: seq<seq<string>>, rest: seq<string>): string
    requires |messages| == |VARIABLES|
  {
    Ended(PREAMBLE + Blocks(VARIABLES, messages) + rest, '\n')
  }

  lemma {:induction false} BlocksAreUnbroken(variables: seq<string>, messages: seq<seq<string>>)
    requires |messages| == |variables| && forall i :: 0 <= i < |variables| ==> IsVariableName(variables[i])
    requires forall i, t :: 0 <= i < |messages| && t in messages[i] ==> IsUnbroken(t)
    ensures forall l :: l in Blocks(variables, messages) ==> IsUnbroken(l)
    decreases |variables|
  {
    if variables != [] {
      BlocksAreUnbroken(variables[1..], messages[1..]);
      BlockIsUnbroken(variables[0], messages[0]);
    }
  }

  lemma EchoIsUnbroken(text: string)
    requires IsUnbroken(text)
    ensures IsUnbroken(EchoLine(text))
  {
    assert IsUnbroken(ECHO_OPEN) && IsUnbroken(ECHO_CLOSE);
  }

  lemma BlockIsUnbroken(v: string, texts: seq<string>)
    requires IsVariableName(v) && forall t :: t in texts ==> IsUnbroken(t)
    ensures forall l :: l in Block(v, texts) ==> IsUnbroken(l)
  {
    GuardIsUnbroken(v);
    assert IsUnbroken(EXIT_LINE) && IsUnbroken("fi");
    forall i | 0 <= i < |texts| ensures IsUnbroken(EchoLines(texts)[i]) {
      EchoIsUnbroken(texts[i]);
    }
    forall l | l in Block(v, texts) ensures IsUnbroken(l) {
      assert l == Guard(v) || l in EchoLines(texts) || l == EXIT_LINE || l == "fi";
    }
  }

  lemma PreambleIsUnbroken()
    ensures forall l :: l in PREAMBLE ==> IsUnbroken(l)
  {
    PreambleStartIsUnbroken();
    PreambleMiddleIsUnbroken();
    PreambleRestIsUnbroken();
    assert IsUnbroken(PREAMBLE[6]);
    RootLineIsUnbroken();
    forall l | l in PREAMBLE ensures IsUnbroken(l) {
      var i :| 0 <= i < |PREAMBLE| && PREAMBLE[i] == l;
      assert i < 3 || i == 3 || 4 <= i < 6 || i == 6 || 7 <= i < 10;
    }
  }

  lemma PreambleStartIsUnbroken()
    ensures forall i :: 0 <= i < 3 ==> IsUnbroken(PREAMBLE[i])
  {
    assert IsUnbroken(PREAMBLE[0]);
    assert IsUnbroken(PREAMBLE[1]) && IsUnbroken(PREAMBLE[2]);
  }

  lemma RootLineIsUnbroken()
    ensures IsUnbroken(PREAMBLE[3])
  {
  }

  lemma PreambleMiddleIsUnbroken()
    ensures forall i :: 4 <= i < 6 ==> IsUnbroken(PREAMBLE[i])
  {
    assert IsUnbroken(PREAMBLE[4]);
    assert IsUnbroken(PREAMBLE[5]);
  }

  lemma PreambleRestIsUnbroken()
    ensures forall i :: 7 <= i < 10 ==> IsUnbroken(PREAMBLE[i])
  {
    EvidenceLineIsUnbroken();
    assert IsUnbroken(PREAMBLE[8]) && IsUnbroken(PREAMBLE[9]);
  }

  lemma EvidenceLineIsUnbroken()
    ensures IsUnbroken(PREAMBLE[7])
  {
  }

  lemma {:induction false} EndedIsPlain(lines: seq<string>)
    requires forall i :: 0 <= i < |lines| ==> IsUnbroken(lines[i])
    ensures IsPlain(Ended(lines, '\n'))
    decreases |lines|
  {
    if lines != [] {
      EndedIsPlain(lines[1..]);
      assert IsUnbroken(lines[0]);
    }
  }

  /** The intended scripts, written with '\n', are accepted and protect. */
  lemma RenderedTextProtects(messages: seq<seq<string>>, rest: seq<string>)
    requires |messages| == |VARIABLES| && AreMessages(messages) && NoGuardOf(rest, VARIABLES)
    requires forall i, t :: 0 <= i < |messages| && t in messages[i] ==> IsUnbroken(t)
    requires forall i :: 0 <= i < |rest| ==> IsUnbroken(rest[i])
    ensures var source := Rendered(messages, rest);
      Canonical(PyLines(source)) && Protects(ShellLines(source), EndOf(source))
  {
    var source, lines := Rendered(messages, rest), PREAMBLE + Blocks(VARIABLES, messages) + rest;
    VariablesAreNames();
    BlocksAreUnbroken(VARIABLES, messages);
    PreambleIsUnbroken();
    forall i | 0 <= i < |lines| ensures IsUnbroken(lines[i]) {
      assert lines[i] in PREAMBLE || lines[i] in Blocks(VARIABLES, messages) || lines[i] in rest;
    }
    EndedLines(lines, '\n');
    RenderedScriptIsCanonical(messages, rest);
    EndedIsPlain(lines);
    PlainIsSound(source);
    SoundHeadProtects(source);
  }

  /** So there is a text that the linter accepts and that runs without any guard. */
  lemma SomeAcceptedTextHasNoGuards() returns (source: string)
    ensures Canonical(PyLines(source)) && !Protects(ShellLines(source), EndOf(source))
    ensures forall env: Environment :: Steps(ShellLines(source), env, At(0), 2) == Exited(0)
  {
    var messages := seq(|VARIABLES|, i => ["x"]);
    RenderedTextProtects(messages, []);
    var guarded := Rendered(messages, []);
    source := Ended(PyLines(guarded), '\U{000B}');
    forall env: Environment ensures Steps(ShellLines(source), env, At(0), 2) == Exited(0) {
      AcceptedTextWithoutGuards(guarded, env);
    }
    AcceptedTextWithoutGuards(guarded, Only(""));
    NoPreambleLetsThrough(ShellLines(source));
    LettingThroughIsNoProtection(ShellLines(source), EndOf(source), VARIABLES[0]);
  }
}
