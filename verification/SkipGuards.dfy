/** The release script as lines. */
module SkipGuards {
  // The linter for the release script's skip guards, and what the guard section of
  // an accepted script does when a shell runs it
  // (scripts/check_platform_readiness.py:52-71, 1614-1667).

  import opened Ordering
  import opened ScriptLines
  import opened Text

  const VARIABLES: seq<string> := [
    "AURIS_SKIP_REAL_STACK_E2E",
    "AURIS_SKIP_REAL_DAGSTER",
    "AURIS_SKIP_PRODUCT_DAGSTER_GATE",
    "AURIS_SKIP_PRODUCTION_PATH_GATE",
    "AURIS_SKIP_AUDIO_IMPORT_REAL_STACK_GATE",
    "AURIS_SKIP_BACKUP_RESTORE_GATE"]

  /** One line is put together: the verifier indexes literals of up to some forty characters only. */
  const PREAMBLE: seq<string> := [
    "#!/usr/bin/env bash",
    "set -euo pipefail",
    "",
    "ROOT=\"$(cd \"" + "$(dirname \"${BASH_SOURCE[0]}\")/.." + "\" && pwd)\"",
    "cd \"${ROOT}\"",
    "BUILD_DIR=\"${ROOT}/build\"",
    "EVIDENCE_REL=\"build/release-evidence\"",
    "EVIDENCE_DIR=\"${ROOT}/${EVIDENCE_REL}\"",
    "PRE_IMAGE_ONLY=false",
    ""]

  const GUARD_OPEN := "if [ \"${"
  const GUARD_CLOSE := ":-0}\" = \"1\" ]; then"
  const ECHO_OPEN := "  echo \""
  const ECHO_CLOSE := "\" >&2"
  const EXIT_LINE := "  exit 2"

  function Guard(variable: string): string { GUARD_OPEN + variable + GUARD_CLOSE }

  // ----- the linter

  datatype Failure =
    | NoPreamble | MissingGuard(variable: string) | Misplaced(variable: string)
    | Unclosed(variable: string) | NotRejecting(variable: string) | OutOfOrder

  predicate IsLiteralChar(c: char) { c != '"' && c != '\\' && c != '`' && c != '$' }

  /** A full match of the pattern for one quoted message written to stderr. */
  predicate IsEchoLine(line: string) {
    var n := |ECHO_OPEN| + |ECHO_CLOSE|;
    && |line| >= n
    && line[..|ECHO_OPEN|] == ECHO_OPEN && line[|line| - |ECHO_CLOSE|..] == ECHO_CLOSE
    && forall i :: |ECHO_OPEN| <= i < |line| - |ECHO_CLOSE| ==> IsLiteralChar(line[i])
  }

  /** At least one message, then an unconditional exit. */
  predicate Rejecting(body: seq<string>) {
    && |body| >= 2
    && body[|body| - 1] == EXIT_LINE
    && forall i :: 0 <= i < |body| - 1 ==> IsEchoLine(body[i])
  }

  /** `lines.index("fi", start)`. */
  function FirstFi(lines: seq<string>, start: nat): (r: Option<nat>)
    ensures r.Some? ==> start <= r.value < |lines| && lines[r.value] == "fi"
    ensures r.Some? ==> forall i :: start <= i < r.value ==> lines[i] != "fi"
    ensures r.None? ==> forall i :: start <= i < |lines| ==> lines[i] != "fi"
    decreases |lines| - start
  {
    if start >= |lines| then None
    else if lines[start] == "fi" then Some(start)
    else FirstFi(lines, start + 1)
  }

  predicate HasPreamble(lines: seq<string>) { PREAMBLE <= lines }

  ghost predicate OnlyAt(lines: seq<string>, line: string, index: nat) {
    && index < |lines| && lines[index] == line
    && forall i :: 0 <= i < |lines| && i != index ==> lines[i] != line
  }

  /** The guards of the variables follow one another from the given line on, each
      occurs nowhere else in the script, and each rejects. */
  ghost predicate Section(lines: seq<string>, start: nat, variables: seq<string>)
    decreases |variables|
  {
    variables == [] ||
    (OnlyAt(lines, Guard(variables[0]), start) &&
     var close := FirstFi(lines, start + 1);
     close.Some? && Rejecting(lines[start + 1..close.value]) && Section(lines, close.value + 1, variables[1..]))
  }

  ghost predicate Canonical(lines: seq<string>) {
    HasPreamble(lines) && Section(lines, |PREAMBLE|, VARIABLES)
  }

  method Occurrences(lines: seq<string>, line: string) returns (indexes: seq<nat>)
    ensures forall i :: i in indexes <==> 0 <= i < |lines| && lines[i] == line
    ensures forall i, j :: 0 <= i < j < |indexes| ==> indexes[i] < indexes[j]
  {
    indexes := [];
    for n := 0 to |lines|
      invariant forall i :: i in indexes <==> 0 <= i < n && lines[i] == line
      invariant forall i :: 0 <= i < |indexes| ==> indexes[i] < n
      invariant forall i, j :: 0 <= i < j < |indexes| ==> indexes[i] < indexes[j]
    {
      if lines[n] == line {
        indexes := indexes + [n];
      }
    }
  }

  lemma OneOccurrence(lines: seq<string>, line: string, indexes: seq<nat>, index: nat)
    requires forall i :: i in indexes <==> 0 <= i < |lines| && lines[i] == line
    requires forall i, j :: 0 <= i < j < |indexes| ==> indexes[i] < indexes[j]
    ensures OnlyAt(lines, line, index) <==> indexes == [index]
  {
    if |indexes| > 1 {
      assert indexes[0] in indexes && indexes[1] in indexes;
    } else if OnlyAt(lines, line, index) {
      assert index in indexes;
    }
  }

  ghost predicate Ascending(indexes: seq<nat>, below: nat) {
    && (forall i, j :: 0 <= i < j < |indexes| ==> indexes[i] < indexes[j])
    && forall i :: 0 <= i < |indexes| ==> indexes[i] < below
  }

  lemma AscendingIsSorted(indexes: seq<nat>, below: nat)
    requires Ascending(indexes, below)
    ensures Sort(NatLess, indexes) == indexes
  {
    assert StrictTotal(NatLess);
    TotalIsWeak(NatLess);
    SortOfIncreasing(NatLess, indexes);
  }

  /** The guard of one variable stands at the given line, occurs nowhere else, and
      rejects. */
  ghost predicate Guarded(lines: seq<string>, variable: string, at: nat) {
    && OnlyAt(lines, Guard(variable), at)
    && FirstFi(lines, at + 1).Some? && Rejecting(lines[at + 1..FirstFi(lines, at + 1).value])
  }

  /** When each kind of failure is due, given whether the preamble is canonical.
      That of a misplaced guard depends on where the ones before it end, and is
      left to the whole result. */
  ghost predicate Due(lines: seq<string>, variables: seq<string>, canonicalPreamble: bool, f: Failure) {
    match f
    case NoPreamble => !canonicalPreamble
    case MissingGuard(v) => v in variables && forall i: nat :: !OnlyAt(lines, Guard(v), i)
    case Unclosed(v) => v in variables && exists i: nat :: OnlyAt(lines, Guard(v), i) && FirstFi(lines, i + 1).None?
    case NotRejecting(v) => v in variables && exists i: nat :: OnlyAt(lines, Guard(v), i) && ClosesWithout(lines, i)
    case _ => false
  }

  /** The failures are those that are due, apart from misplaced guards and order. */
  ghost predicate Reports(lines: seq<string>, variables: seq<string>, canonicalPreamble: bool, failures: seq<Failure>) {
    forall f :: Plain(f) ==> (f in failures <==> Due(lines, variables, canonicalPreamble, f))
  }

  /** The lines after the guard up to the next `fi` do not reject. */
  predicate ClosesWithout(lines: seq<string>, at: nat)
    requires at < |lines|
  {
    FirstFi(lines, at + 1).Some? && !Rejecting(lines[at + 1..FirstFi(lines, at + 1).value])
  }

  predicate Plain(f: Failure) { !f.Misplaced? && !f.OutOfOrder? }

  lemma DueOfOne(lines: seq<string>, v: string, at: nat, f: Failure)
    requires OnlyAt(lines, Guard(v), at) && Plain(f)
    ensures Due(lines, [v], true, f) <==>
      (f == Unclosed(v) && FirstFi(lines, at + 1).None?) || (f == NotRejecting(v) && ClosesWithout(lines, at))
  {
    forall i: nat | OnlyAt(lines, Guard(v), i) ensures i == at {
    }
  }

  lemma DueOfNone(lines: seq<string>, v: string, f: Failure)
    requires (forall i: nat :: !OnlyAt(lines, Guard(v), i)) && Plain(f)
    ensures Due(lines, [v], true, f) <==> f == MissingGuard(v)
  {
  }

  /** One pass of the linter's loop: what it reports, where it found the guard, and
      where it expects the next one. */
  method CheckGuard(lines: seq<string>, variable: string, expected: nat, canonicalPreamble: bool)
    returns (reports: seq<Failure>, guardIndex: Option<nat>, next: nat)
    ensures reports == [] <==> canonicalPreamble && Guarded(lines, variable, expected)
    ensures reports == [] ==> guardIndex == Some(expected) && FirstFi(lines, expected + 1) == Some(next - 1)
    ensures OutOfOrder !in reports && Reports(lines, [variable], true, reports)
  {
    reports, guardIndex, next := [], None, expected;
    var guard := Guard(variable);
    var indexes := Occurrences(lines, guard);
    OneOccurrence(lines, guard, indexes, expected);
    if |indexes| != 1 {
      forall i: nat ensures !OnlyAt(lines, guard, i) {
        OneOccurrence(lines, guard, indexes, i);
      }
      forall f | Plain(f) ensures f in [MissingGuard(variable)] <==> Due(lines, [variable], true, f) {
        DueOfNone(lines, variable, f);
      }
      return [MissingGuard(variable)], None, expected;
    }
    assert indexes[0] in indexes;
    OneOccurrence(lines, guard, indexes, indexes[0]);
    forall f | Plain(f)
      ensures Due(lines, [variable], true, f) <==>
        (f == Unclosed(variable) && FirstFi(lines, indexes[0] + 1).None?)
        || (f == NotRejecting(variable) && ClosesWithout(lines, indexes[0]))
    {
      DueOfOne(lines, variable, indexes[0], f);
    }
    guardIndex := Some(indexes[0]);
    if !canonicalPreamble || indexes[0] != expected {
      reports := [Misplaced(variable)];
    }
    var closing := FirstFi(lines, indexes[0] + 1);
    if closing.None? {
      reports := reports + [Unclosed(variable)];
      return;
    }
    if !Rejecting(lines[indexes[0] + 1..closing.value]) {
      reports := reports + [NotRejecting(variable)];
    }
    next := closing.value + 1;
  }

  /** What the reports after n variables tell. */
  ghost predicate Linted(lines: seq<string>, variables: seq<string>, start: nat, canonicalPreamble: bool,
                         n: nat, failures: seq<Failure>, expected: nat)
    requires n <= |variables|
  {
    && OutOfOrder !in failures
    && if failures == []
       then canonicalPreamble && (Section(lines, start, variables) <==> Section(lines, expected, variables[n..]))
       else !(canonicalPreamble && Section(lines, start, variables))
  }

  lemma SectionUnfolds(lines: seq<string>, at: nat, variables: seq<string>, n: nat)
    requires n < |variables|
    ensures Section(lines, at, variables[n..]) <==>
      Guarded(lines, variables[n], at) && Section(lines, FirstFi(lines, at + 1).value + 1, variables[n + 1..])
  {
    assert variables[n..][0] == variables[n] && variables[n..][1..] == variables[n + 1..];
  }

  lemma LintNext(lines: seq<string>, variables: seq<string>, start: nat, canonicalPreamble: bool,
                 n: nat, failures: seq<Failure>, expected: nat, reports: seq<Failure>, next: nat)
    requires n < |variables| && Linted(lines, variables, start, canonicalPreamble, n, failures, expected)
    requires reports == [] <==> canonicalPreamble && Guarded(lines, variables[n], expected)
    requires reports == [] ==> FirstFi(lines, expected + 1) == Some(next - 1)
    requires OutOfOrder !in reports
    ensures Linted(lines, variables, start, canonicalPreamble, n + 1, failures + reports, next)
  {
    SectionUnfolds(lines, expected, variables, n);
  }

  lemma ReportsNext(lines: seq<string>, variables: seq<string>, v: string, canonicalPreamble: bool,
                    failures: seq<Failure>, reports: seq<Failure>)
    requires Reports(lines, variables, canonicalPreamble, failures) && Reports(lines, [v], true, reports)
    ensures Reports(lines, variables + [v], canonicalPreamble, failures + reports)
  {
    forall f | Plain(f)
      ensures f in failures + reports <==> Due(lines, variables + [v], canonicalPreamble, f)
    {
      assert Due(lines, variables + [v], canonicalPreamble, f)
        <==> Due(lines, variables, canonicalPreamble, f) || Due(lines, [v], true, f);
    }
  }

  lemma ReportsWithOrder(lines: seq<string>, variables: seq<string>, canonicalPreamble: bool, failures: seq<Failure>)
    requires Reports(lines, variables, canonicalPreamble, failures)
    ensures Reports(lines, variables, canonicalPreamble, failures + [OutOfOrder])
  {
  }

  /** The linter's loop, for any variables and any line where the section starts. */
  method CheckGuards(lines: seq<string>, variables: seq<string>, start: nat, canonicalPreamble: bool)
    returns (failures: seq<Failure>)
    ensures failures == [] <==> canonicalPreamble && Section(lines, start, variables)
    ensures Reports(lines, variables, canonicalPreamble, failures)
    ensures OutOfOrder in failures ==> failures[0] != OutOfOrder
  {
    failures := if canonicalPreamble then [] else [NoPreamble];
    var expected := start;
    var guardIndexes: seq<nat> := [];
    assert variables[0..] == variables;
    for n := 0 to |variables|
      invariant Linted(lines, variables, start, canonicalPreamble, n, failures, expected)
      invariant Reports(lines, variables[..n], canonicalPreamble, failures)
      invariant failures == [] ==> Ascending(guardIndexes, expected)
    {
      var reports, guardIndex, next := CheckGuard(lines, variables[n], expected, canonicalPreamble);
      LintNext(lines, variables, start, canonicalPreamble, n, failures, expected, reports, next);
      ReportsNext(lines, variables[..n], variables[n], canonicalPreamble, failures, reports);
      assert variables[..n + 1] == variables[..n] + [variables[n]];
      failures := failures + reports;
      if guardIndex.Some? {
        guardIndexes := guardIndexes + [guardIndex.value];
      }
      expected := next;
    }
    assert variables[..|variables|] == variables;
    if guardIndexes != Sort(NatLess, guardIndexes) {
      if failures == [] {
        AscendingIsSorted(guardIndexes, expected);
      }
      ReportsWithOrder(lines, variables, canonicalPreamble, failures);
      failures := failures + [OutOfOrder];
    }
  }

  /** `validate_release_skip_guards`. It reports nothing exactly when the text cuts
      into canonical lines, and otherwise the failures that are due; the final order
      check never speaks alone: another failure has always been reported before it. */
  method ValidateSkipGuards(source: string) returns (failures: seq<Failure>)
    ensures failures == [] <==> Canonical(PyLines(source))
    ensures Reports(PyLines(source), VARIABLES, HasPreamble(PyLines(source)), failures)
    ensures OutOfOrder in failures ==> failures[0] != OutOfOrder
  {
    var lines := PyLines(source);
    failures := CheckGuards(lines, VARIABLES, |PREAMBLE|, HasPreamble(lines));
  }

  // ----- what a shell does with such lines

  /** The commands of the modelled fragment; `Other` is any other line. */
  datatype Command = If(variable: string) | Echo | Exit(code: nat) | Fi | Comment | Other

  predicate IsBlank(c: char) { c == ' ' || c == '\t' }

  function TrimBlanks(line: string): string {
    if line != [] && IsBlank(line[0]) then TrimBlanks(line[1..]) else line
  }

  predicate IsVariableName(s: string) {
    && s != [] && (IsLetter(s[0]) || s[0] == '_')
    && forall i :: 0 <= i < |s| ==> IsAlnum(s[i]) || s[i] == '_'
  }

  /** The text between a prefix and a suffix, None if they are not there. */
  function Between(open: string, close: string, s: string): Option<string> {
    if |s| >= |open| + |close| && s[..|open|] == open && s[|s| - |close|..] == close
    then Some(s[|open|..|s| - |close|]) else None
  }

  function Classify(line: string): Command {
    var t := TrimBlanks(line);
    if t == "fi" then Fi
    else if t != [] && t[0] == '#' then Comment
    else if |t| == 6 && t[..5] == "exit " && IsDigit(t[5]) then Exit(t[5] as int - '0' as int)
    else
      var name := Between(GUARD_OPEN, GUARD_CLOSE, t);
      if name.Some? && IsVariableName(name.value) then If(name.value)
      else
        var text := Between(ECHO_OPEN[2..], ECHO_CLOSE, t);
        if text.Some? && forall i :: 0 <= i < |text.value| ==> IsLiteralChar(text.value[i]) then Echo else Other
  }

  /** The environment of a run, and whether stderr can be written. */
  datatype Environment = Environment(variables: map<string, string>, stderrOpen: bool)

  /** `${variable:-0}`. */
  function Expand(env: Environment, variable: string): string {
    if variable in env.variables && env.variables[variable] != "" then env.variables[variable] else "0"
  }

  predicate Skips(env: Environment, variable: string) { Expand(env, variable) == "1" }

  /** A run: about to execute a line, ended with a status, or at a line the
      fragment says nothing about. */
  datatype Run = At(line: nat) | Exited(status: int) | Beyond(line: nat)

  /** The `fi` that ends the compound command whose body starts here. */
  function MatchingFi(lines: seq<string>, i: nat): (r: Option<nat>)
    ensures r.Some? ==> i <= r.value < |lines|
    decreases |lines| - i
  {
    if i >= |lines| then None
    else match Classify(lines[i])
      case Fi => Some(i)
      case If(_) =>
        var inner := MatchingFi(lines, i + 1);
        if inner.None? then None else MatchingFi(lines, inner.value + 1)
      case Echo => MatchingFi(lines, i + 1)
      case Exit(_) => MatchingFi(lines, i + 1)
      case Comment => MatchingFi(lines, i + 1)
      case Other => None
  }

  /** One step under `set -e`: a failing echo ends the script. */
  function Step(lines: seq<string>, env: Environment, run: Run): Run {
    match run
    case Exited(_) => run
    case Beyond(_) => run
    case At(i) =>
      if i >= |lines| then Exited(0)
      else match Classify(lines[i])
        case If(variable) =>
          var close := MatchingFi(lines, i + 1);
          if close.None? then Beyond(i)
          else if Skips(env, variable) then At(i + 1)
          else At(close.value + 1)
        case Echo => if env.stderrOpen then At(i + 1) else Exited(1)
        case Exit(code) => Exited(code)
        case Fi => At(i + 1)
        case Comment => At(i + 1)
        case Other => Beyond(i)
  }

  function Steps(lines: seq<string>, env: Environment, run: Run, n: nat): Run
    decreases n
  {
    if n == 0 then run else Steps(lines, env, Step(lines, env, run), n - 1)
  }

  // ----- the lines of the section as commands

  lemma VariablesAreNames()
    ensures forall i :: 0 <= i < |VARIABLES| ==> IsVariableName(VARIABLES[i])
  {
    FirstVariablesAreNames();
    assert IsVariableName(VARIABLES[3]);
    assert IsVariableName(VARIABLES[4]);
    assert IsVariableName(VARIABLES[5]);
  }

  lemma FirstVariablesAreNames()
    ensures forall i :: 0 <= i < 3 ==> IsVariableName(VARIABLES[i])
  {
    assert IsVariableName(VARIABLES[0]);
    assert IsVariableName(VARIABLES[1]);
    assert IsVariableName(VARIABLES[2]);
  }

  lemma ClassifyGuard(v: string)
    requires IsVariableName(v)
    ensures Classify(Guard(v)) == If(v)
  {
    var t := Guard(v);
    assert t[0] == 'i' && t[1] == 'f' && t[2] == ' ';
    assert TrimBlanks(t) == t;
    assert t[..|GUARD_OPEN|] == GUARD_OPEN;
    assert t[|t| - |GUARD_CLOSE|..] == GUARD_CLOSE;
    assert t[|GUARD_OPEN|..|t| - |GUARD_CLOSE|] == v;
  }

  lemma EchoTrims(line: string)
    requires IsEchoLine(line)
    ensures |line| > 3 && line[2] == 'e' && line[3] == 'c' && TrimBlanks(line) == line[2..]
  {
    var t := line[2..];
    assert line[0] == ECHO_OPEN[0] == ' ' && line[1] == ECHO_OPEN[1] == ' ' && line[2] == ECHO_OPEN[2] == 'e';
    assert line[3] == ECHO_OPEN[3] == 'c';
    assert TrimBlanks(line[1..]) == TrimBlanks(line[1..][1..]);
    assert line[1..][1..] == t;
    assert TrimBlanks(t) == t;
  }

  lemma ClassifyEcho(line: string)
    requires IsEchoLine(line)
    ensures Classify(line) == Echo
  {
    var t := line[2..];
    EchoTrims(line);
    assert t[0] == 'e' && t[1] == 'c';
    assert t[..|ECHO_OPEN| - 2] == line[..|ECHO_OPEN|][2..] == ECHO_OPEN[2..];
    assert t[|t| - |ECHO_CLOSE|..] == line[|line| - |ECHO_CLOSE|..];
    assert GUARD_OPEN[0] == 'i';
    assert Between(GUARD_OPEN, GUARD_CLOSE, t).None?;
    var text := Between(ECHO_OPEN[2..], ECHO_CLOSE, t);
    assert text.Some?;
    forall i | 0 <= i < |text.value| ensures IsLiteralChar(text.value[i]) {
      assert text.value[i] == line[i + |ECHO_OPEN|];
    }
  }

  lemma ClassifyExit()
    ensures Classify(EXIT_LINE) == Exit(2)
  {
    var t := EXIT_LINE[2..];
    assert t == "exit 2";
    assert EXIT_LINE[1..][1..] == t;
    assert TrimBlanks(EXIT_LINE[1..]) == TrimBlanks(t);
    assert TrimBlanks(t) == t;
    assert t[..5] == "exit ";
  }

  lemma ClassifyFi()
    ensures Classify("fi") == Fi
  {
    assert TrimBlanks("fi") == "fi";
  }

  /** A rejecting body lies between its guard and the matching `fi`. */
  lemma {:induction false} BodyEndsAt(lines: seq<string>, i: nat, close: nat)
    requires i <= close < |lines| && lines[close] == "fi"
    requires forall j :: i <= j < close ==> IsEchoLine(lines[j]) || lines[j] == EXIT_LINE
    ensures MatchingFi(lines, i) == Some(close)
    decreases close - i
  {
    if i == close {
      ClassifyFi();
    } else {
      ClassifyExit();
      if IsEchoLine(lines[i]) {
        ClassifyEcho(lines[i]);
      }
      BodyEndsAt(lines, i + 1, close);
    }
  }

  /** The line after the last `fi` of the section. */
  ghost function SectionEnd(lines: seq<string>, start: nat, variables: seq<string>): (end: nat)
    requires Section(lines, start, variables)
    ensures start <= end && (variables != [] ==> start < end <= |lines|)
    decreases |variables|
  {
    if variables == [] then start
    else SectionEnd(lines, FirstFi(lines, start + 1).value + 1, variables[1..])
  }

  /** Status of a rejected run: 2, or 1 if the message itself cannot be written. */
  function RejectStatus(env: Environment): int { if env.stderrOpen then 2 else 1 }

  /** After n steps the run has the given state, and until then it is at lines in
      the given range. */
  ghost predicate Runs(lines: seq<string>, env: Environment, from: nat, n: nat, final: Run, low: nat, high: nat) {
    && Steps(lines, env, At(from), n) == final
    && forall k: nat :: k < n ==> var run := Steps(lines, env, At(from), k); run.At? && low <= run.line < high
  }

  lemma RunsFirst(lines: seq<string>, env: Environment, from: nat, next: nat, n: nat, final: Run, low: nat, high: nat)
    requires low <= from < high
    requires Step(lines, env, At(from)) == At(next) && Runs(lines, env, next, n, final, low, high)
    ensures Runs(lines, env, from, n + 1, final, low, high)
  {
    forall k: nat | k < n + 1
      ensures var run := Steps(lines, env, At(from), k); run.At? && low <= run.line < high
    {
      if k > 0 {
        assert Steps(lines, env, At(from), k) == Steps(lines, env, At(next), k - 1);
      }
    }
  }

  lemma ExitsAtOnce(lines: seq<string>, env: Environment, i: nat, status: int, low: nat, high: nat)
    requires low <= i < high && Step(lines, env, At(i)) == Exited(status)
    ensures Runs(lines, env, i, 1, Exited(status), low, high)
  {
    assert Steps(lines, env, At(i), 1) == Steps(lines, env, Exited(status), 0);
    assert Steps(lines, env, At(i), 0) == At(i);
  }

  /** Inside a rejecting body every run ends with the rejecting status. */
  lemma {:induction false} BodyRejects(lines: seq<string>, env: Environment, i: nat, close: nat, low: nat, high: nat)
    returns (n: nat)
    requires low <= i < close < |lines| && close <= high
    requires lines[close - 1] == EXIT_LINE
    requires forall j :: i <= j < close - 1 ==> IsEchoLine(lines[j])
    requires env.stderrOpen || i < close - 1
    ensures Runs(lines, env, i, n, Exited(RejectStatus(env)), low, high)
    decreases close - i
  {
    if i == close - 1 {
      ClassifyExit();
      n := 1;
      ExitsAtOnce(lines, env, i, 2, low, high);
    } else {
      ClassifyEcho(lines[i]);
      if env.stderrOpen {
        n := BodyRejects(lines, env, i + 1, close, low, high);
        RunsFirst(lines, env, i, i + 1, n, Exited(2), low, high);
        n := n + 1;
      } else {
        n := 1;
        ExitsAtOnce(lines, env, i, 1, low, high);
      }
    }
  }

  lemma RejectingLines(lines: seq<string>, start: nat, close: nat)
    requires start <= close <= |lines| && Rejecting(lines[start..close])
    ensures start + 2 <= close && lines[close - 1] == EXIT_LINE
    ensures forall j :: start <= j < close - 1 ==> IsEchoLine(lines[j])
  {
    var body := lines[start..close];
    assert body[|body| - 1] == lines[close - 1];
    forall j | start <= j < close - 1 ensures IsEchoLine(lines[j]) {
      assert lines[j] == body[j - start];
    }
  }

  lemma GuardStep(lines: seq<string>, env: Environment, start: nat, v: string, close: nat)
    requires start < close < |lines| && lines[start] == Guard(v) && lines[close] == "fi"
    requires IsVariableName(v) && Rejecting(lines[start + 1..close])
    ensures Step(lines, env, At(start)) == if Skips(env, v) then At(start + 1) else At(close + 1)
  {
    ClassifyGuard(v);
    RejectingLines(lines, start + 1, close);
    BodyEndsAt(lines, start + 1, close);
  }

  /** What the first guard does: enter its body, or pass on to the next guard. */
  lemma FirstGuard(lines: seq<string>, env: Environment, start: nat, variables: seq<string>)
    requires variables != [] && Section(lines, start, variables)
    requires IsVariableName(variables[0])
    ensures var close := FirstFi(lines, start + 1).value;
      Step(lines, env, At(start)) == if Skips(env, variables[0]) then At(start + 1) else At(close + 1)
  {
    GuardStep(lines, env, start, variables[0], FirstFi(lines, start + 1).value);
  }

  /** The first guarded variable is "1". */
  lemma FirstSkipIsRejected(lines: seq<string>, env: Environment, start: nat, variables: seq<string>, low: nat)
    returns (n: nat)
    requires variables != [] && Section(lines, start, variables) && low <= start
    requires IsVariableName(variables[0]) && Skips(env, variables[0])
    ensures Runs(lines, env, start, n, Exited(RejectStatus(env)), low, SectionEnd(lines, start, variables))
  {
    var close := FirstFi(lines, start + 1).value;
    var end := SectionEnd(lines, start, variables);
    FirstGuard(lines, env, start, variables);
    RejectingLines(lines, start + 1, close);
    n := BodyRejects(lines, env, start + 1, close, low, end);
    RunsFirst(lines, env, start, start + 1, n, Exited(RejectStatus(env)), low, end);
    n := n + 1;
  }

  /** The first guarded variable is not "1": the run goes on at the next guard. */
  lemma FirstGuardPasses(lines: seq<string>, env: Environment, start: nat, variables: seq<string>, n: nat,
      final: Run, low: nat)
    requires variables != [] && Section(lines, start, variables) && low <= start
    requires IsVariableName(variables[0]) && !Skips(env, variables[0])
    requires Runs(lines, env, FirstFi(lines, start + 1).value + 1, n, final, low, SectionEnd(lines, start, variables))
    ensures Runs(lines, env, start, n + 1, final, low, SectionEnd(lines, start, variables))
  {
    FirstGuard(lines, env, start, variables);
    RunsFirst(lines, env, start, FirstFi(lines, start + 1).value + 1, n, final, low,
      SectionEnd(lines, start, variables));
  }

  /** If some guarded variable is "1", the run from the section's first line exits
      with the rejecting status and never leaves the section. */
  lemma {:induction false} SkipIsRejected(lines: seq<string>, env: Environment, start: nat, variables: seq<string>,
      low: nat)
    returns (n: nat)
    requires Section(lines, start, variables) && low <= start
    requires forall i :: 0 <= i < |variables| ==> IsVariableName(variables[i])
    requires exists i :: 0 <= i < |variables| && Skips(env, variables[i])
    ensures Runs(lines, env, start, n, Exited(RejectStatus(env)), low, SectionEnd(lines, start, variables))
    decreases |variables|
  {
    if Skips(env, variables[0]) {
      n := FirstSkipIsRejected(lines, env, start, variables, low);
    } else {
      var close := FirstFi(lines, start + 1).value;
      var i :| 0 <= i < |variables| && Skips(env, variables[i]);
      assert variables[1..][i - 1] == variables[i];
      n := SkipIsRejected(lines, env, close + 1, variables[1..], low);
      FirstGuardPasses(lines, env, start, variables, n, Exited(RejectStatus(env)), low);
      n := n + 1;
    }
  }

  /** If no guarded variable is "1", the run reaches the line after the last `fi`. */
  lemma {:induction false} NoSkipPasses(lines: seq<string>, env: Environment, start: nat, variables: seq<string>,
      low: nat)
    returns (n: nat)
    requires Section(lines, start, variables) && low <= start
    requires forall i :: 0 <= i < |variables| ==> IsVariableName(variables[i]) && !Skips(env, variables[i])
    ensures var end := SectionEnd(lines, start, variables); Runs(lines, env, start, n, At(end), low, end)
    decreases |variables|
  {
    if variables == [] {
      n := 0;
      assert Steps(lines, env, At(start), 0) == At(start);
    } else {
      var close := FirstFi(lines, start + 1).value;
      n := NoSkipPasses(lines, env, close + 1, variables[1..], low);
      FirstGuardPasses(lines, env, start, variables, n, At(SectionEnd(lines, start, variables)), low);
      n := n + 1;
    }
  }

  lemma {:induction false} ExitIsFinal(lines: seq<string>, env: Environment, status: int, n: nat)
    ensures Steps(lines, env, Exited(status), n) == Exited(status)
  {
    if n > 0 {
      ExitIsFinal(lines, env, status, n - 1);
    }
  }

  lemma {:induction false} StepsCompose(lines: seq<string>, env: Environment, run: Run, m: nat, n: nat)
    ensures Steps(lines, env, run, m + n) == Steps(lines, env, Steps(lines, env, run, m), n)
    decreases m
  {
    if m > 0 {
      StepsCompose(lines, env, Step(lines, env, run), m - 1, n);
    }
  }

  lemma RunsThenStays(lines: seq<string>, env: Environment, from: nat, n: nat, status: int, low: nat, high: nat, k: nat)
    requires Runs(lines, env, from, n, Exited(status), low, high)
    ensures var run := Steps(lines, env, At(from), k);
      run == Exited(status) || (run.At? && low <= run.line < high)
  {
    if k >= n {
      StepsCompose(lines, env, At(from), n, k - n);
      ExitIsFinal(lines, env, status, k - n);
    }
  }

  /** Soundness: past the preamble, an accepted script with a skip variable set to
      1 is never at a line after the guard section, whatever those lines are, and
      it ends with the rejecting status. */
  lemma AcceptedScriptRejectsSkips(lines: seq<string>, env: Environment, variable: string)
    requires Canonical(lines)
    requires variable in VARIABLES && Skips(env, variable)
    ensures exists n :: Steps(lines, env, At(|PREAMBLE|), n) == Exited(RejectStatus(env))
    ensures forall k: nat :: var run := Steps(lines, env, At(|PREAMBLE|), k);
      run == Exited(RejectStatus(env))
      || (run.At? && |PREAMBLE| <= run.line < SectionEnd(lines, |PREAMBLE|, VARIABLES))
  {
    VariablesAreNames();
    SectionRejectsSkips(lines, env, |PREAMBLE|, VARIABLES, variable);
  }

  lemma SectionRejectsSkips(lines: seq<string>, env: Environment, start: nat, variables: seq<string>, variable: string)
    requires Section(lines, start, variables)
    requires forall i :: 0 <= i < |variables| ==> IsVariableName(variables[i])
    requires variable in variables && Skips(env, variable)
    ensures exists n :: Steps(lines, env, At(start), n) == Exited(RejectStatus(env))
    ensures forall k: nat :: var run := Steps(lines, env, At(start), k);
      run == Exited(RejectStatus(env))
      || (run.At? && start <= run.line < SectionEnd(lines, start, variables))
  {
    var i :| 0 <= i < |variables| && variables[i] == variable;
    var n := SkipIsRejected(lines, env, start, variables, start);
    var end := SectionEnd(lines, start, variables);
    forall k: nat
      ensures var run := Steps(lines, env, At(start), k);
        run == Exited(RejectStatus(env)) || (run.At? && start <= run.line < end)
    {
      RunsThenStays(lines, env, start, n, RejectStatus(env), start, end, k);
    }
  }

  /** The guards do nothing else: without a skip variable set to 1, control reaches
      the line after the section. */
  lemma AcceptedScriptPassesOtherwise(lines: seq<string>, env: Environment)
    requires Canonical(lines)
    requires forall v :: v in VARIABLES ==> !Skips(env, v)
    ensures exists n :: Steps(lines, env, At(|PREAMBLE|), n) == At(SectionEnd(lines, |PREAMBLE|, VARIABLES))
  {
    VariablesAreNames();
    var n := NoSkipPasses(lines, env, |PREAMBLE|, VARIABLES, |PREAMBLE|);
  }

  // ----- which scripts are canonical

  function EchoLine(text: string): string { ECHO_OPEN + text + ECHO_CLOSE }

  predicate IsMessage(text: string) { forall i :: 0 <= i < |text| ==> IsLiteralChar(text[i]) }

  function EchoLines(texts: seq<string>): seq<string> {
    seq(|texts|, i requires 0 <= i < |texts| => EchoLine(texts[i]))
  }

  /** One guard with its messages. */
  function Block(variable: string, texts: seq<string>): seq<string> {
    [Guard(variable)] + (EchoLines(texts) + [EXIT_LINE]) + ["fi"]
  }

  function Blocks(variables: seq<string>, messages: seq<seq<string>>): seq<string>
    requires |messages| == |variables|
  {
    if variables == [] then [] else Block(variables[0], messages[0]) + Blocks(variables[1..], messages[1..])
  }

  ghost predicate AreMessages(messages: seq<seq<string>>) {
    forall i :: 0 <= i < |messages| ==> messages[i] != [] && forall t :: t in messages[i] ==> IsMessage(t)
  }

  lemma EchoLineIsEcho(text: string)
    requires IsMessage(text)
    ensures IsEchoLine(EchoLine(text))
  {
    var line := EchoLine(text);
    assert line[..|ECHO_OPEN|] == ECHO_OPEN && line[|line| - |ECHO_CLOSE|..] == ECHO_CLOSE;
    forall i | |ECHO_OPEN| <= i < |line| - |ECHO_CLOSE| ensures IsLiteralChar(line[i]) {
      assert line[i] == text[i - |ECHO_OPEN|];
    }
  }

  /** A line of the section or the preamble that is not a guard. */
  predicate NotAGuard(line: string) { line == [] || line[0] != 'i' }

  lemma BodyRejecting(texts: seq<string>)
    requires texts != [] && forall t :: t in texts ==> IsMessage(t)
    ensures Rejecting(EchoLines(texts) + [EXIT_LINE])
    ensures forall l :: l in EchoLines(texts) + [EXIT_LINE] ==> l != "fi" && NotAGuard(l)
  {
    forall i | 0 <= i < |texts| ensures IsEchoLine(EchoLine(texts[i])) {
      EchoLineIsEcho(texts[i]);
    }
    assert ECHO_OPEN[0] == ' ' && EXIT_LINE[0] == ' ';
    forall l | l in EchoLines(texts) + [EXIT_LINE] ensures l[..1] == " " {
    }
  }

  lemma GuardsDiffer(v: string, w: string)
    ensures Guard(v) == Guard(w) <==> v == w
    ensures !NotAGuard(Guard(v)) && Guard(v) != "fi"
  {
    assert GUARD_OPEN[0] == 'i' && GUARD_OPEN[1] == 'f' && GUARD_OPEN[2] == ' ';
    assert Guard(v)[2] == ' ';
    if Guard(v) == Guard(w) {
      assert Guard(v)[|GUARD_OPEN|..|GUARD_OPEN| + |v|] == v;
      assert Guard(w)[|GUARD_OPEN|..|GUARD_OPEN| + |w|] == w;
    }
  }

  lemma {:induction false} FirstFiSkips(lines: seq<string>, start: nat, close: nat)
    requires start <= close < |lines| && lines[close] == "fi"
    requires forall i :: start <= i < close ==> lines[i] != "fi"
    ensures FirstFi(lines, start) == Some(close)
    decreases close - start
  {
    if start < close {
      FirstFiSkips(lines, start + 1, close);
    }
  }

  ghost predicate NoGuardOf(lines: seq<string>, variables: seq<string>) {
    forall v, l :: v in variables && l in lines ==> l != Guard(v)
  }

  /** The first block, between lines without its guard. */
  lemma FirstBlock(before: seq<string>, v: string, texts: seq<string>, after: seq<string>)
    requires AreMessages([texts])
    requires forall l :: l in before || l in after ==> l != Guard(v)
    ensures var lines := before + Block(v, texts) + after;
      var close := |before| + |texts| + 2;
      && OnlyAt(lines, Guard(v), |before|)
      && FirstFi(lines, |before| + 1) == Some(close)
      && Rejecting(lines[|before| + 1..close])
      && close + 1 == |before + Block(v, texts)|
  {
    var body := EchoLines(texts) + [EXIT_LINE];
    var lines := before + Block(v, texts) + after;
    var start, close := |before|, |before| + |texts| + 2;
    assert [texts][0] == texts;
    BodyRejecting(texts);
    assert lines[start] == Guard(v) && lines[close] == "fi";
    assert lines[start + 1..close] == body;
    forall i | start + 1 <= i < close ensures lines[i] in body {
      assert lines[i] == body[i - start - 1];
    }
    FirstFiSkips(lines, start + 1, close);
    GuardsDiffer(v, v);
    forall i | 0 <= i < |lines| && i != start ensures lines[i] != Guard(v) {
      if i < start {
        assert lines[i] in before;
      } else if i < close {
        assert NotAGuard(lines[i]);
      } else if i > close {
        assert lines[i] == after[i - close - 1];
        assert lines[i] in after;
      }
    }
  }

  lemma BlockLines(v: string, texts: seq<string>, w: string)
    requires AreMessages([texts]) && v != w
    ensures forall l :: l in Block(v, texts) ==> l != Guard(w)
  {
    assert [texts][0] == texts;
    BodyRejecting(texts);
    GuardsDiffer(v, w);
    GuardsDiffer(w, w);
    var body := EchoLines(texts) + [EXIT_LINE];
    forall l | l in Block(v, texts) ensures l != Guard(w) {
      assert l == Guard(v) || l in body || l == "fi";
    }
  }

  lemma BlockHasNoOtherGuard(before: seq<string>, variables: seq<string>, texts: seq<string>)
    requires variables != [] && AreMessages([texts]) && NoGuardOf(before, variables)
    requires forall i, j :: 0 <= i < j < |variables| ==> variables[i] != variables[j]
    ensures NoGuardOf(before + Block(variables[0], texts), variables[1..])
  {
    forall w, l | w in variables[1..] && l in before + Block(variables[0], texts) ensures l != Guard(w) {
      assert w in variables && w != variables[0];
      BlockLines(variables[0], texts, w);
    }
  }

  /** Blocks for distinct variables, written after lines that contain none of
      their guards and before lines that contain none, form a section. */
  lemma {:induction false} BlocksFormSection(before: seq<string>, variables: seq<string>,
      messages: seq<seq<string>>, rest: seq<string>)
    requires |messages| == |variables| && AreMessages(messages)
    requires forall i, j :: 0 <= i < j < |variables| ==> variables[i] != variables[j]
    requires NoGuardOf(before, variables) && NoGuardOf(rest, variables)
    ensures Section(before + Blocks(variables, messages) + rest, |before|, variables)
    decreases |variables|
  {
    if variables != [] {
      var v, texts := variables[0], messages[0];
      var tail := Blocks(variables[1..], messages[1..]);
      assert v in variables && messages[..1] == [texts] && AreMessages([texts]);
      TailHasNoGuard(v, variables[1..], messages[1..]);
      BlockHasNoOtherGuard(before, variables, texts);
      BlocksFormSection(before + Block(v, texts), variables[1..], messages[1..], rest);
      Regroup(before, Block(v, texts), tail, rest);
      BlockStartsSection(before, variables, texts, tail + rest);
    }
  }

  lemma BlockStartsSection(before: seq<string>, variables: seq<string>, texts: seq<string>, after: seq<string>)
    requires variables != [] && AreMessages([texts])
    requires forall l :: l in before || l in after ==> l != Guard(variables[0])
    requires Section(before + Block(variables[0], texts) + after, |before + Block(variables[0], texts)|, variables[1..])
    ensures Section(before + Block(variables[0], texts) + after, |before|, variables)
  {
    FirstBlock(before, variables[0], texts, after);
    SectionStarts(before + Block(variables[0], texts) + after, |before|, |before| + |texts| + 2, variables);
  }

  lemma Regroup(a: seq<string>, b: seq<string>, c: seq<string>, d: seq<string>)
    ensures a + b + c + d == a + b + (c + d)
    ensures a + (b + c) + d == a + b + (c + d)
  {
  }

  lemma SectionStarts(lines: seq<string>, start: nat, close: nat, variables: seq<string>)
    requires variables != [] && OnlyAt(lines, Guard(variables[0]), start)
    requires FirstFi(lines, start + 1) == Some(close) && Rejecting(lines[start + 1..close])
    requires Section(lines, close + 1, variables[1..])
    ensures Section(lines, start, variables)
  {
  }

  lemma {:induction false} TailHasNoGuard(v: string, variables: seq<string>, messages: seq<seq<string>>)
    requires |messages| == |variables| && AreMessages(messages)
    requires v !in variables
    ensures forall l :: l in Blocks(variables, messages) ==> l != Guard(v)
    decreases |variables|
  {
    if variables != [] {
      BodyRejecting(messages[0]);
      GuardsDiffer(v, variables[0]);
      GuardsDiffer(v, v);
      TailHasNoGuard(v, variables[1..], messages[1..]);
      var body := EchoLines(messages[0]) + [EXIT_LINE];
      forall l | l in Blocks(variables, messages) ensures l != Guard(v) {
        assert l == Guard(variables[0]) || l in body || l == "fi" || l in Blocks(variables[1..], messages[1..]);
      }
    }
  }

  lemma PreambleHasNoGuard()
    ensures NoGuardOf(PREAMBLE, VARIABLES)
    ensures forall i, j :: 0 <= i < j < |VARIABLES| ==> VARIABLES[i] != VARIABLES[j]
  {
    forall l | l in PREAMBLE ensures NotAGuard(l) {
    }
    forall v, l | v in VARIABLES && l in PREAMBLE ensures l != Guard(v) {
      GuardsDiffer(v, v);
    }
  }

  /** Completeness: the preamble, one rejecting block per variable in order, and
      any further lines without a guard are accepted. */
  lemma RenderedScriptIsCanonical(messages: seq<seq<string>>, rest: seq<string>)
    requires |messages| == |VARIABLES| && AreMessages(messages)
    requires NoGuardOf(rest, VARIABLES)
    ensures Canonical(PREAMBLE + Blocks(VARIABLES, messages) + rest)
  {
    PreambleHasNoGuard();
    BlocksFormSection(PREAMBLE, VARIABLES, messages, rest);
  }

  function TextOf(line: string): string
    requires IsEchoLine(line)
  {
    line[|ECHO_OPEN|..|line| - |ECHO_CLOSE|]
  }

  lemma EchoLineOfText(line: string)
    requires IsEchoLine(line)
    ensures IsMessage(TextOf(line)) && EchoLine(TextOf(line)) == line
  {
    assert line == line[..|ECHO_OPEN|] + TextOf(line) + line[|line| - |ECHO_CLOSE|..];
  }

  /** A rejecting body is what some messages render to. */
  lemma BodyForm(body: seq<string>) returns (texts: seq<string>)
    requires Rejecting(body)
    ensures texts != [] && (forall t :: t in texts ==> IsMessage(t)) && body == EchoLines(texts) + [EXIT_LINE]
  {
    texts := [];
    for n := 0 to |body| - 1
      invariant |texts| == n && forall i :: 0 <= i < n ==> IsMessage(texts[i]) && EchoLine(texts[i]) == body[i]
    {
      EchoLineOfText(body[n]);
      texts := texts + [TextOf(body[n])];
    }
    assert body == body[..|body| - 1] + [body[|body| - 1]];
    assert body[..|body| - 1] == EchoLines(texts);
  }

  lemma {:induction false} SectionForm(lines: seq<string>, start: nat, variables: seq<string>)
    returns (messages: seq<seq<string>>)
    requires Section(lines, start, variables) && start <= |lines|
    ensures |messages| == |variables| && AreMessages(messages)
    ensures lines[start..] == Blocks(variables, messages) + lines[SectionEnd(lines, start, variables)..]
    decreases |variables|
  {
    if variables == [] {
      messages := [];
    } else {
      var close := FirstFi(lines, start + 1).value;
      var texts := BodyForm(lines[start + 1..close]);
      var rest := SectionForm(lines, close + 1, variables[1..]);
      messages := [texts] + rest;
      SplitAtClose(lines, start, close);
      BlocksJoin(variables, texts, rest, lines[SectionEnd(lines, start, variables)..]);
    }
  }

  lemma SplitAtClose(lines: seq<string>, start: nat, close: nat)
    requires start < close < |lines|
    ensures lines[start..] == [lines[start]] + lines[start + 1..close] + [lines[close]] + lines[close + 1..]
  {
  }

  lemma BlocksJoin(variables: seq<string>, texts: seq<string>, rest: seq<seq<string>>, after: seq<string>)
    requires variables != [] && |rest| == |variables| - 1
    ensures Blocks(variables, [texts] + rest) + after
      == Block(variables[0], texts) + (Blocks(variables[1..], rest) + after)
  {
    var all := [texts] + rest;
    assert all[0] == texts && all[1..] == rest;
    Join3(Block(variables[0], texts), Blocks(variables[1..], rest), after);
    assert Blocks(variables, all) == Block(variables[0], texts) + Blocks(variables[1..], rest);
  }

  lemma SectionRest(lines: seq<string>, start: nat, variables: seq<string>)
    requires Section(lines, start, variables) && start <= |lines|
    ensures NoGuardOf(lines[SectionEnd(lines, start, variables)..], variables)
  {
    var end := SectionEnd(lines, start, variables);
    forall v, l | v in variables && l in lines[end..] ensures l != Guard(v) {
      SectionGuards(lines, start, variables, v);
      var i :| 0 <= i < |lines[end..]| && lines[end..][i] == l;
      assert lines[end + i] == l;
    }
  }

  lemma PrefixSplit(lines: seq<string>, prefix: seq<string>)
    requires prefix <= lines
    ensures lines == prefix + lines[|prefix|..]
  {
  }

  lemma Join3(a: seq<string>, b: seq<string>, c: seq<string>)
    ensures a + (b + c) == a + b + c
  {
  }

  lemma {:induction false} SectionGuards(lines: seq<string>, start: nat, variables: seq<string>, v: string)
    requires Section(lines, start, variables) && v in variables
    ensures forall i :: SectionEnd(lines, start, variables) <= i < |lines| ==> lines[i] != Guard(v)
    decreases |variables|
  {
    if v != variables[0] {
      SectionGuards(lines, FirstFi(lines, start + 1).value + 1, variables[1..], v);
    }
  }

  /** The preamble, one rejecting block per variable in order, then lines without a guard. */
  ghost predicate IsRendering(lines: seq<string>) {
    exists messages, rest :: |messages| == |VARIABLES| && AreMessages(messages) && NoGuardOf(rest, VARIABLES)
      && lines == PREAMBLE + Blocks(VARIABLES, messages) + rest
  }

  /** The linter accepts exactly the scripts of the intended form. */
  lemma CanonicalExactly(lines: seq<string>)
    ensures Canonical(lines) <==> IsRendering(lines)
  {
    if Canonical(lines) {
      var messages := SectionForm(lines, |PREAMBLE|, VARIABLES);
      var rest := lines[SectionEnd(lines, |PREAMBLE|, VARIABLES)..];
      SectionRest(lines, |PREAMBLE|, VARIABLES);
      PrefixSplit(lines, PREAMBLE);
      Join3(PREAMBLE, Blocks(VARIABLES, messages), rest);
    }
    if IsRendering(lines) {
      var messages, rest :| |messages| == |VARIABLES| && AreMessages(messages) && NoGuardOf(rest, VARIABLES)
        && lines == PREAMBLE + Blocks(VARIABLES, messages) + rest;
      RenderedScriptIsCanonical(messages, rest);
    }
  }
}
