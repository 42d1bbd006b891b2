/** What the linter wants to read. */
module GuardLaws {
  // The lines that the linter for the release script accepts and reports, letter by
  // letter (scripts/check_platform_readiness.py:52-71, 1614-1667,
  // scripts/verify_release.sh:1-42), and what it takes for a line.

  import opened Text
  import opened ScriptLines
  import opened SkipGuards

  // ----- messages

  /** Free of the four characters that a shell reads inside double quotes. */
  predicate IsPlainText(text: string) { '"' !in text && '\\' !in text && '`' !in text && '$' !in text }

  /** The line of a message. */
  function MessageLine(text: string): string { "  echo \"" + text + "\" >&2" }

  lemma MessageParts(text: string)
    ensures MessageLine(text) == EchoLine(text)
    ensures var line := MessageLine(text); line[..8] == "  echo \"" && line[8..|line| - 5] == text
  {
    assert ECHO_OPEN == "  echo \"" && ECHO_CLOSE == "\" >&2";
  }

  /** A message line is accepted exactly when its text has none of the four characters. */
  lemma MessageAcceptedExactly(text: string)
    ensures IsEchoLine(MessageLine(text)) <==> IsPlainText(text)
    ensures IsMessage(text) <==> IsPlainText(text)
  {
    var line := MessageLine(text);
    MessageParts(text);
    PlainMeansMessage(text);
    if IsMessage(text) {
      EchoLineIsEcho(text);
    }
    if IsEchoLine(line) {
      forall i | 0 <= i < |text| ensures IsLiteralChar(text[i]) {
        assert line[8..|line| - 5][i] == line[8 + i];
      }
    }
  }

  lemma PlainMeansMessage(text: string)
    ensures IsMessage(text) <==> IsPlainText(text)
  {
    if IsPlainText(text) {
      forall i | 0 <= i < |text| ensures IsLiteralChar(text[i]) {
        assert text[i] in text;
      }
    }
  }

  /** Every accepted message line is the line of a plain text. */
  lemma AcceptedLineIsMessage(line: string) returns (text: string)
    requires IsEchoLine(line)
    ensures line == MessageLine(text) && IsPlainText(text)
  {
    text := TextOf(line);
    EchoLineOfText(line);
    MessageParts(text);
    MessageAcceptedExactly(text);
  }

  // ----- guards

  function GuardLine(variable: string): string { "if [ \"${" + variable + ":-0}\" = \"1\" ]; then" }

  lemma GuardLineIsGuard(variable: string)
    ensures GuardLine(variable) == Guard(variable)
  {
  }

  ghost predicate IsPlainMessage(line: string) { exists text :: line == MessageLine(text) && IsPlainText(text) }

  /** A body that refuses: one or more plain messages, then exit with status 2. */
  ghost predicate Refusing(body: seq<string>) {
    && |body| >= 2 && body[|body| - 1] == "  exit 2"
    && forall j :: 0 <= j < |body| - 1 ==> IsPlainMessage(body[j])
  }

  lemma LineExactly(line: string)
    ensures IsEchoLine(line) <==> IsPlainMessage(line)
  {
    if IsEchoLine(line) {
      var text := AcceptedLineIsMessage(line);
    }
    if IsPlainMessage(line) {
      var text :| line == MessageLine(text) && IsPlainText(text);
      MessageAcceptedExactly(text);
    }
  }

  lemma RefusingExactly(body: seq<string>)
    ensures Rejecting(body) <==> Refusing(body)
  {
    forall j | 0 <= j < |body| ensures IsEchoLine(body[j]) <==> IsPlainMessage(body[j]) {
      LineExactly(body[j]);
    }
  }

  /** Over any lines: a guard that stands there once, with its first `fi` after it, is
      reported as not rejecting exactly when the lines between do not refuse. */
  lemma NotRejectingExactly(lines: seq<string>, variable: string, i: nat, close: nat, canonicalPreamble: bool)
    requires variable in VARIABLES && i < close < |lines|
    requires forall k :: 0 <= k < |lines| ==> (lines[k] == GuardLine(variable) <==> k == i)
    requires lines[close] == "fi" && forall k :: i < k < close ==> lines[k] != "fi"
    ensures Due(lines, VARIABLES, canonicalPreamble, NotRejecting(variable)) <==> !Refusing(lines[i + 1..close])
  {
    GuardLineIsGuard(variable);
    RefusingExactly(lines[i + 1..close]);
    FirstFiSkips(lines, i + 1, close);
    assert OnlyAt(lines, Guard(variable), i);
    assert forall k: nat :: OnlyAt(lines, Guard(variable), k) ==> k == i;
  }

  /** So a text is reported when one of the four characters stands in a message. */
  method ReportForbidden(source: string, variable: string, i: nat, j: nat, close: nat, text: string)
    returns (failures: seq<Failure>)
    requires variable in VARIABLES && i < j < close < |PyLines(source)|
    requires forall k :: 0 <= k < |PyLines(source)| ==> (PyLines(source)[k] == GuardLine(variable) <==> k == i)
    requires PyLines(source)[close] == "fi" && forall k :: i < k < close ==> PyLines(source)[k] != "fi"
    requires PyLines(source)[j] == MessageLine(text) && !IsPlainText(text)
    ensures NotRejecting(variable) in failures
  {
    failures := ValidateSkipGuards(source);
    ghost var lines := PyLines(source);
    ghost var body := lines[i + 1..close];
    NotRejectingExactly(lines, variable, i, close, HasPreamble(lines));
    assert body[j - i - 1] == lines[j];
    ForbiddenIsNotRefusing(body, j - i - 1, text);
  }

  lemma ForbiddenIsNotRefusing(body: seq<string>, j: nat, text: string)
    requires j < |body| && body[j] == MessageLine(text) && !IsPlainText(text)
    ensures !Refusing(body)
  {
    MessageAcceptedExactly(text);
    RefusingExactly(body);
    MessageIsNoExit(text);
  }

  lemma MessageIsNoExit(text: string)
    ensures MessageLine(text) != "  exit 2" && MessageLine(text) != EXIT_LINE
  {
    assert MessageLine(text)[3] == 'c';
  }

  // ----- the repository's own script

  function Refusal(variable: string): string { variable + ("=1 is not allowed by " + "scripts/verify_release.sh.") }

  const ADVICE: seq<string> := [
    "Use bash scripts/verify_fast.sh or " + "AURIS_RUN_E2E=1 bash scripts/verify_all.sh " +
      "for constrained local development.",
    "Use bash scripts/verify_fast.sh " + "for constrained local development; " + "it is not release evidence.",
    "The product-path BFF/Worker/" + "real-Dagster proof is " + "mandatory release evidence.",
    "The single production Compose path " + "is a mandatory fail-closed release gate.",
    "The real platform-audio import, " + "Dagster, MinIO and playback proof " + "is mandatory release evidence.",
    "A native-Linux, commit-bound " + "backup/restore drill is " + "mandatory final release evidence."]

  const RELEASE_VARIABLES: seq<string> := [
    "AURIS_SKIP_REAL_STACK_E2E", "AURIS_SKIP_REAL_DAGSTER", "AURIS_SKIP_PRODUCT_DAGSTER_GATE",
    "AURIS_SKIP_PRODUCTION_PATH_GATE", "AURIS_SKIP_AUDIO_IMPORT_REAL_STACK_GATE", "AURIS_SKIP_BACKUP_RESTORE_GATE"]

  /** Its first ten lines. */
  function FirstLines(): seq<string> {
    [ "#!/usr/bin/env bash", "set -euo pipefail", "",
      "ROOT=\"$(cd \"$(dirname " + "\"${BASH_SOURCE[0]}\")/..\" && pwd)\"",
      "cd \"${ROOT}\"", "BUILD_DIR=\"${ROOT}/build\"", "EVIDENCE_REL=\"build/release-evidence\"",
      "EVIDENCE_DIR=\"${ROOT}/" + "${EVIDENCE_REL}\"", "PRE_IMAGE_ONLY=false", ""]
  }

  /** One of its six guards. */
  function OwnGuard(variable: string, advice: string): seq<string> {
    [GuardLine(variable), MessageLine(Refusal(variable)), MessageLine(advice), "  exit 2", "fi"]
  }

  function OwnGuards(variables: seq<string>, advice: seq<string>): seq<string>
    requires |advice| == |variables|
  {
    if variables == [] then [] else OwnGuard(variables[0], advice[0]) + OwnGuards(variables[1..], advice[1..])
  }

  function OwnMessages(variables: seq<string>, advice: seq<string>): (r: seq<seq<string>>)
    requires |advice| == |variables|
    ensures |r| == |variables|
  {
    seq(|variables|, i requires 0 <= i < |variables| => [Refusal(variables[i]), advice[i]])
  }

  lemma OwnGuardIsBlock(variable: string, advice: string)
    ensures OwnGuard(variable, advice) == Block(variable, [Refusal(variable), advice])
  {
    GuardLineIsGuard(variable);
    MessageParts(Refusal(variable));
    MessageParts(advice);
    assert EchoLines([Refusal(variable), advice]) == [EchoLine(Refusal(variable)), EchoLine(advice)];
  }

  lemma {:induction false} OwnGuardsAreBlocks(variables: seq<string>, advice: seq<string>)
    requires |advice| == |variables|
    ensures OwnGuards(variables, advice) == Blocks(variables, OwnMessages(variables, advice))
    decreases |variables|
  {
    if variables != [] {
      OwnGuardIsBlock(variables[0], advice[0]);
      OwnGuardsAreBlocks(variables[1..], advice[1..]);
      assert OwnMessages(variables, advice)[1..] == OwnMessages(variables[1..], advice[1..]);
    }
  }

  lemma FirstLinesArePreamble()
    ensures FirstLines() == PREAMBLE
  {
    FourthLine();
    EighthLine();
  }

  lemma FourthLine()
    ensures FirstLines()[3] == PREAMBLE[3]
  {
  }

  lemma EighthLine()
    ensures FirstLines()[7] == PREAMBLE[7]
  {
  }

  lemma ReleaseVariables()
    ensures RELEASE_VARIABLES == VARIABLES
  {
  }

  lemma MessagesJoin(a: string, b: string)
    requires IsMessage(a) && IsMessage(b)
    ensures IsMessage(a + b)
  {
  }

  lemma NameIsMessage(variable: string)
    requires IsVariableName(variable)
    ensures IsMessage(variable)
  {
  }

  lemma RefusalIsMessage(variable: string)
    requires IsVariableName(variable)
    ensures IsMessage(Refusal(variable))
  {
    NameIsMessage(variable);
    assert IsMessage("=1 is not allowed by ") && IsMessage("scripts/verify_release.sh.");
    MessagesJoin("=1 is not allowed by ", "scripts/verify_release.sh.");
    MessagesJoin(variable, "=1 is not allowed by " + "scripts/verify_release.sh.");
  }

  lemma ThreePieces(a: string, b: string, c: string)
    requires IsMessage(a) && IsMessage(b) && IsMessage(c)
    ensures IsMessage(a + b + c)
  {
    MessagesJoin(a, b);
    MessagesJoin(a + b, c);
  }

  lemma Advice0()
    ensures IsMessage(ADVICE[0])
  {
    ThreePieces("Use bash scripts/verify_fast.sh or ", "AURIS_RUN_E2E=1 bash scripts/verify_all.sh ",
      "for constrained local development.");
  }

  lemma Advice1()
    ensures IsMessage(ADVICE[1])
  {
    ThreePieces("Use bash scripts/verify_fast.sh ", "for constrained local development; ",
      "it is not release evidence.");
  }

  lemma Advice2()
    ensures IsMessage(ADVICE[2])
  {
    ThreePieces("The product-path BFF/Worker/", "real-Dagster proof is ", "mandatory release evidence.");
  }

  lemma Advice3()
    ensures IsMessage(ADVICE[3])
  {
    MessagesJoin("The single production Compose path ", "is a mandatory fail-closed release gate.");
  }

  lemma Advice4()
    ensures IsMessage(ADVICE[4])
  {
    ThreePieces("The real platform-audio import, ", "Dagster, MinIO and playback proof ",
      "is mandatory release evidence.");
  }

  lemma Advice5()
    ensures IsMessage(ADVICE[5])
  {
    ThreePieces("A native-Linux, commit-bound ", "backup/restore drill is ", "mandatory final release evidence.");
  }

  lemma AdviceIsMessage(i: nat)
    requires i < 6
    ensures IsMessage(ADVICE[i])
  {
    Advice0();
    Advice1();
    Advice2();
    Advice3();
    Advice4();
    Advice5();
  }

  /** The repository's release script is accepted, whatever follows its guards, unless a
      guard line is repeated there. */
  lemma OwnScriptIsAccepted(rest: seq<string>)
    requires forall l :: l in rest ==> forall v :: v in RELEASE_VARIABLES ==> l != GuardLine(v)
    ensures Canonical(FirstLines() + OwnGuards(RELEASE_VARIABLES, ADVICE) + rest)
  {
    var messages := OwnMessages(RELEASE_VARIABLES, ADVICE);
    ReleaseVariables();
    VariablesAreNames();
    FirstLinesArePreamble();
    OwnGuardsAreBlocks(RELEASE_VARIABLES, ADVICE);
    forall i | 0 <= i < |messages| ensures messages[i] != [] && forall t :: t in messages[i] ==> IsMessage(t) {
      RefusalIsMessage(RELEASE_VARIABLES[i]);
      AdviceIsMessage(i);
    }
    forall l, v | l in rest && v in VARIABLES ensures l != Guard(v) {
      GuardLineIsGuard(v);
    }
    RenderedScriptIsCanonical(messages, rest);
  }

  // ----- environments

  /** The names of variables: letters, digits and underscores, not a digit first. */
  lemma VariableNameExactly(s: string)
    ensures IsVariableName(s) <==>
      && s != "" && s[0] !in DIGITS
      && forall i :: 0 <= i < |s| ==> s[i] in LOWER || s[i] in UPPER || s[i] in DIGITS || s[i] == '_'
  {
    forall i | 0 <= i < |s|
      ensures IsAlnum(s[i]) <==> s[i] in LOWER || s[i] in UPPER || s[i] in DIGITS
      ensures IsLetter(s[i]) <==> s[i] in LOWER || s[i] in UPPER
      ensures s[i] in DIGITS ==> !IsLetter(s[i]) && s[i] != '_'
    {
      CharacterClasses(s[i]);
    }
  }

  /** A guard fires exactly when its variable is set to 1. */
  lemma SkipsExactly(env: Environment, variable: string)
    ensures Skips(env, variable) <==> variable in env.variables && env.variables[variable] == "1"
  {
  }

  // ----- lines

  const LINE_ENDS := "\n\r\U{000B}\U{000C}\U{001C}\U{001D}\U{001E}\U{0085}\U{2028}\U{2029}"

  lemma LineEnds(c: char)
    ensures IsBreak(c) <==> c in LINE_ENDS
  {
    assert LINE_ENDS[0] == '\n' && LINE_ENDS[1] == '\r' && LINE_ENDS[2] == '\U{000B}' && LINE_ENDS[3] == '\U{000C}';
    assert LINE_ENDS[4] == '\U{001C}' && LINE_ENDS[5] == '\U{001D}' && LINE_ENDS[6] == '\U{001E}';
    assert LINE_ENDS[7] == '\U{0085}' && LINE_ENDS[8] == '\U{2028}' && LINE_ENDS[9] == '\U{2029}';
  }

  /** The first line of a text, as Python cuts it: up to the first of ten line ends, where
      a carriage return takes a line feed with it. */
  lemma PyLineExactly(line: string, c: char, rest: string)
    requires forall i :: 0 <= i < |line| ==> line[i] !in LINE_ENDS
    ensures line != [] ==> PyLines(line) == [line]
    ensures c in LINE_ENDS && !(c == '\r' && rest != [] && rest[0] == '\n') ==>
      PyLines(line + [c] + rest) == [line] + PyLines(rest)
    ensures PyLines(line + ['\r', '\n'] + rest) == [line] + PyLines(rest)
  {
    forall i | 0 <= i < |line| ensures !IsBreak(line[i]) {
      LineEnds(line[i]);
    }
    LineEnds(c);
    LineEnds('\r');
    if line != [] {
      BeforeIs(line, IsBreak, |line|);
      assert line[|line|..] == [] && line[..|line|] == line;
    }
    if IsBreak(c) && !(c == '\r' && rest != [] && rest[0] == '\n') {
      CutAt(line, [c], rest);
    }
    CutAt(line, ['\r', '\n'], rest);
  }

  lemma CutAt(line: string, end: string, rest: string)
    requires (forall i :: 0 <= i < |line| ==> !IsBreak(line[i])) && end != [] && IsBreak(end[0])
    requires end == ['\r', '\n'] || (|end| == 1 && !(end[0] == '\r' && rest != [] && rest[0] == '\n'))
    ensures PyLines(line + end + rest) == [line] + PyLines(rest)
  {
    var s, k := line + end + rest, |line|;
    assert s[k] == end[0] && s[..k] == line && s[k + |end|..] == rest;
    assert forall i :: 0 <= i < k ==> s[i] == line[i];
    BeforeIs(s, IsBreak, k);
    assert |s| > k + 1 ==> s[k + 1] == if |end| > 1 then end[1] else rest[0];
    assert PyAdvance(s) == k + |end|;
  }

  /** And as a shell reads it: up to the first line feed. */
  lemma ShellLineExactly(line: string, rest: string)
    requires '\n' !in line
    ensures line != [] ==> ShellLines(line) == [line]
    ensures ShellLines(line + ['\n'] + rest) == [line] + ShellLines(rest)
  {
    var s, k := line + ['\n'] + rest, |line|;
    if line != [] {
      BeforeIs(line, IsNewline, |line|);
      assert line[|line|..] == [] && line[..|line|] == line;
    }
    assert s[k] == '\n' && s[..k] == line && s[k + 1..] == rest;
    assert forall i :: 0 <= i < k ==> s[i] == line[i];
    BeforeIs(s, IsNewline, k);
  }
}
