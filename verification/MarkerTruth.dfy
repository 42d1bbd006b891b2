/** What a marker says. */
module MarkerTruth {
  // The truth of a marker, defined on its tree without evaluating it, and the proof
  // that evaluation finds it (scripts/finalize_release_evidence.py:438-534).

  import opened Ordering
  import opened Text
  import opened Versions
  import opened Markers

  // ----- operands and comparisons

  /** A quoted string, or a name that the environment gives a value. */
  ghost predicate IsReadable(operand: Operand, environment: Environment) {
    operand.Quoted? || (operand.Name? && operand.id in environment)
  }

  ghost function TextOf(operand: Operand, environment: Environment): string
    requires IsReadable(operand, environment)
  {
    if operand.Quoted? then operand.value else environment[operand.id]
  }

  ghost predicate NamesVersion(operand: Operand) {
    operand == Name("python_version") || operand == Name("python_full_version")
  }

  /** One of the two names a Python version, so that both texts are versions. */
  ghost predicate ComparesVersions(left: Operand, right: Operand) { NamesVersion(left) || NamesVersion(right) }

  /** The text occurs in the other. */
  ghost predicate Within(left: string, right: string) { exists a, b :: right == a + left + b }

  /** The text comes before the other in a dictionary of all strings. */
  ghost predicate TextBefore(left: string, right: string) { exists i: nat :: DecidedAt(left, right, i) }

  /** What an operator says of two plain texts. */
  ghost predicate Relates(operator: Operator, left: string, right: string) {
    match operator
    case Eq => left == right
    case NotEq => left != right
    case Lt => TextBefore(left, right)
    case Gt => TextBefore(right, left)
    case LtE => !TextBefore(right, left)
    case GtE => !TextBefore(left, right)
    case In => Within(left, right)
    case NotIn => !Within(left, right)
    case OtherOperator => false
  }

  /** What it says of two versions. */
  ghost predicate RelatesVersions(operator: Operator, left: seq<nat>, right: seq<nat>) {
    match operator
    case Eq => SameVersion(left, right)
    case NotEq => !SameVersion(left, right)
    case Lt => Precedes(left, right)
    case Gt => Precedes(right, left)
    case LtE => Precedes(left, right) || SameVersion(left, right)
    case GtE => Precedes(right, left) || SameVersion(left, right)
    case _ => false
  }

  ghost predicate IsMembership(operator: Operator) { operator.In? || operator.NotIn? }

  /** A single operator between readable operands, of which both are versions where
      versions are compared. */
  ghost predicate ComparisonSupported(left: Operand, operator: Operator, right: Operand, environment: Environment) {
    && IsReadable(left, environment) && IsReadable(right, environment)
    && !operator.OtherOperator?
    && (ComparesVersions(left, right) && !IsMembership(operator) ==>
          IsVersionText(TextOf(left, environment)) && IsVersionText(TextOf(right, environment)))
  }

  ghost predicate ComparisonHolds(left: Operand, operator: Operator, right: Operand, environment: Environment)
    requires ComparisonSupported(left, operator, right, environment)
  {
    var l, r := TextOf(left, environment), TextOf(right, environment);
    if ComparesVersions(left, right) && !IsMembership(operator)
    then RelatesVersions(operator, VersionParts(l), VersionParts(r))
    else Relates(operator, l, r)
  }

  // ----- trees

  /** Every part of the marker is supported. */
  ghost predicate Supported(node: Node, environment: Environment) {
    match node
    case BoolOp(_, values) => forall v :: v in values ==> Supported(v, environment)
    case Compare(left, ops, comparators) =>
      |ops| == 1 && |comparators| == 1 && ComparisonSupported(left, ops[0], comparators[0], environment)
    case OtherNode => false
  }

  /** A conjunction is true when every operand is, a disjunction when some operand is. */
  ghost predicate Truth(node: Node, environment: Environment)
    requires Supported(node, environment)
  {
    match node
    case BoolOp(isAnd, values) =>
      if isAnd then forall v :: v in values ==> Truth(v, environment)
      else exists v :: v in values && Truth(v, environment)
    case Compare(left, ops, comparators) => ComparisonHolds(left, ops[0], comparators[0], environment)
    case OtherNode => false
  }

  lemma ComparisonMeaning(left: Operand, operator: Operator, right: Operand, environment: Environment)
    ensures var e := Evaluate(Compare(left, [operator], [right]), environment);
      if ComparisonSupported(left, operator, right, environment)
      then e == Ok(ComparisonHolds(left, operator, right, environment)) else e.Err?
  {
    if IsReadable(left, environment) && IsReadable(right, environment) {
      var l, r := TextOf(left, environment), TextOf(right, environment);
      if ComparesVersions(left, right) && !IsMembership(operator) {
        VersionMeaning(l, r, operator);
      } else {
        TextMeaning(l, r, operator, ComparesVersions(left, right));
      }
    }
  }

  lemma VersionMeaning(left: string, right: string, operator: Operator)
    requires !IsMembership(operator)
    ensures var e := CompareValues(left, right, operator, true);
      if IsVersionText(left) && IsVersionText(right) && !operator.OtherOperator?
      then e == Ok(RelatesVersions(operator, VersionParts(left), VersionParts(right))) else e.Err?
  {
    if IsVersionText(left) && IsVersionText(right) {
      VersionOperatorsAreConsistent(left, right);
      PrecedesTrichotomy(VersionParts(left), VersionParts(right));
    }
  }

  lemma TextMeaning(left: string, right: string, operator: Operator, versions: bool)
    requires versions ==> IsMembership(operator)
    ensures var e := CompareValues(left, right, operator, versions);
      if operator.OtherOperator? then e.Err? else e == Ok(Relates(operator, left, right))
  {
    ContainsExactly(right, left);
    StrLessExactly(left, right);
    StrLessExactly(right, left);
    StrLessIsTotal();
  }

  /** Evaluating a marker finds its truth, and fails exactly on unsupported parts. */
  lemma {:induction false} EvaluationIsTruth(node: Node, environment: Environment)
    ensures Evaluate(node, environment).Err? <==> !Supported(node, environment)
    ensures Supported(node, environment) ==> Evaluate(node, environment) == Ok(Truth(node, environment))
    decreases node, 1
  {
    match node
    case BoolOp(isAnd, values) => OperandsAreTruth(values, environment);
    case Compare(left, ops, comparators) =>
      if |ops| == 1 && |comparators| == 1 {
        assert ops == [ops[0]] && comparators == [comparators[0]];
        ComparisonMeaning(left, ops[0], comparators[0], environment);
      }
    case OtherNode =>
  }

  lemma {:induction false} OperandsAreTruth(values: seq<Node>, environment: Environment)
    ensures EvaluateAll(values, environment).Err? <==> exists v :: v in values && !Supported(v, environment)
    ensures EvaluateAll(values, environment).Ok? ==>
      var results := EvaluateAll(values, environment).value;
      && (true in results <==> exists v :: v in values && Truth(v, environment))
      && (false in results <==> exists v :: v in values && !Truth(v, environment))
    decreases values, 0
  {
    if values != [] {
      EvaluationIsTruth(values[0], environment);
      OperandsAreTruth(values[1..], environment);
      assert forall v :: v in values <==> v == values[0] || v in values[1..];
    }
  }

  // ----- markers in a context

  /** The marker is true with this as the only active extra; no marker is always true. */
  ghost predicate HoldsIn(marker: Marker, platform: Environment, extra: string) {
    || marker.NoMarker?
    || (marker.Parsed? && Supported(marker.tree, platform["extra" := extra])
        && Truth(marker.tree, platform["extra" := extra]))
  }

  /** The marker is malformed, or has an unsupported part. */
  ghost predicate FailsIn(marker: Marker, platform: Environment, extra: string) {
    marker.InvalidMarker? || (marker.Parsed? && !Supported(marker.tree, platform["extra" := extra]))
  }

  /** The value computed for a context is the marker's truth there. */
  lemma ValueIsTruth(marker: Marker, platform: Environment)
    ensures forall e :: GivesTrue(marker, platform, e) <==> HoldsIn(marker, platform, e)
    ensures forall e :: GivesError(marker, platform, e) <==> FailsIn(marker, platform, e)
    ensures forall e :: ValueIn(marker, platform, e) == Ok(false) <==>
      !HoldsIn(marker, platform, e) && !FailsIn(marker, platform, e)
  {
    forall e
      ensures GivesTrue(marker, platform, e) <==> HoldsIn(marker, platform, e)
      ensures GivesError(marker, platform, e) <==> FailsIn(marker, platform, e)
      ensures ValueIn(marker, platform, e) == Ok(false) <==>
        !HoldsIn(marker, platform, e) && !FailsIn(marker, platform, e)
    {
      if marker.Parsed? {
        EvaluationIsTruth(marker.tree, platform["extra" := e]);
      }
      var v := ValueIn(marker, platform, e);
      assert v.Ok? ==> v == Ok(v.value) && (v.value || !v.value);
    }
  }

  // ----- versions as text

  /** Numbers joined by dots. */
  function Dotted(numbers: seq<nat>): string
    requires numbers != []
  {
    if |numbers| == 1 then Decimal(numbers[0]) else Decimal(numbers[0]) + ['.'] + Dotted(numbers[1..])
  }

  lemma DigitOf(i: nat)
    requires i < 10
    ensures IsDigit(DIGITS[i]) && DigitValue(DIGITS[i]) == i
  {
    assert forall k :: 0 <= k < 10 ==> DIGITS[k] as int == '0' as int + k;
  }

  lemma {:induction false} IntOfDecimal(n: nat)
    ensures IsNumber(Decimal(n)) && IntOf(Decimal(n)) == n && '.' !in Decimal(n)
    decreases n
  {
    DigitOf(n % 10);
    if n >= 10 {
      IntOfDecimal(n / 10);
      var s := Decimal(n);
      assert s[..|s| - 1] == Decimal(n / 10) && s[|s| - 1] == DIGITS[n % 10];
    }
  }

  lemma {:induction false} SplitFirstDot(piece: string, rest: string)
    requires '.' !in piece
    ensures SplitDots(piece) == [piece]
    ensures SplitDots(piece + ['.'] + rest) == [piece] + SplitDots(rest)
    decreases |piece|
  {
    var s := piece + ['.'] + rest;
    if piece == [] {
      assert s[1..] == rest;
    } else {
      assert s[1..] == piece[1..] + ['.'] + rest && s[0] == piece[0];
      SplitFirstDot(piece[1..], rest);
      assert [piece[0]] + piece[1..] == piece;
    }
  }

  /** A version written as numbers with dots is read as these numbers. */
  lemma {:induction false} DottedIsRead(numbers: seq<nat>)
    requires numbers != []
    ensures IsVersionText(Dotted(numbers)) && VersionParts(Dotted(numbers)) == numbers
    decreases |numbers|
  {
    IntOfDecimal(numbers[0]);
    OneNumber(Decimal(numbers[0]));
    if |numbers| > 1 {
      DottedIsRead(numbers[1..]);
      MoreNumbers(Decimal(numbers[0]), Dotted(numbers[1..]));
      assert [numbers[0]] + numbers[1..] == numbers;
    }
  }

  lemma OneNumber(piece: string)
    requires IsNumber(piece) && '.' !in piece
    ensures IsVersionText(piece) && VersionParts(piece) == [IntOf(piece)]
  {
    SplitFirstDot(piece, []);
  }

  lemma MoreNumbers(piece: string, rest: string)
    requires IsNumber(piece) && '.' !in piece && IsVersionText(rest)
    ensures var s := piece + ['.'] + rest; IsVersionText(s) && VersionParts(s) == [IntOf(piece)] + VersionParts(rest)
  {
    SplitFirstDot(piece, rest);
    NumberBefore(piece + ['.'] + rest, piece, rest);
  }

  lemma NumberBefore(s: string, piece: string, rest: string)
    requires SplitDots(s) == [piece] + SplitDots(rest) && IsNumber(piece) && IsVersionText(rest)
    ensures IsVersionText(s) && VersionParts(s) == [IntOf(piece)] + VersionParts(rest)
  {
    IntsPrepend(piece, SplitDots(rest));
  }

  lemma IntsPrepend(piece: string, more: seq<string>)
    requires IsNumber(piece) && AreNumbers(more)
    ensures AreNumbers([piece] + more) && IntsOf([piece] + more) == [IntOf(piece)] + IntsOf(more)
  {
    var pieces := [piece] + more;
    forall i | 0 <= i < |pieces| ensures IsNumber(pieces[i]) {
      assert i > 0 ==> pieces[i] == more[i - 1];
    }
    assert forall i :: 0 <= i < |more| ==> pieces[i + 1] == more[i];
  }

  /** A leading zero changes no number. */
  lemma {:induction false} LeadingZero(s: string)
    requires IsNumber(s)
    ensures IsNumber("0" + s) && IntOf("0" + s) == IntOf(s)
    decreases |s|
  {
    var t := "0" + s;
    assert t[..|t| - 1] == "0" + s[..|s| - 1] && t[|t| - 1] == s[|s| - 1];
    if |s| > 1 {
      LeadingZero(s[..|s| - 1]);
    } else {
      assert t[..1] == "0" && "0"[..0] == [] && s[..0] == [];
      assert IntOf("0") == 0;
    }
  }

  /** A version text has digits and single dots, with a digit at both ends. */
  ghost predicate IsDottedDigits(s: string) {
    && s != [] && s[0] != '.' && s[|s| - 1] != '.'
    && (forall i :: 0 <= i < |s| ==> s[i] in DIGITS || s[i] == '.')
    && forall i :: 0 < i < |s| ==> !(s[i - 1] == '.' && s[i] == '.')
  }

  /** What may follow a digit in a version: more digits, or a dot and a number. */
  ghost predicate Continues(s: string) {
    var pieces := SplitDots(s);
    && (forall i :: 0 <= i < |pieces[0]| ==> IsDigit(pieces[0][i]))
    && forall i :: 1 <= i < |pieces| ==> IsNumber(pieces[i])
  }

  ghost predicate DotsApart(s: string) {
    && (s != [] ==> s[|s| - 1] != '.')
    && (forall i :: 0 <= i < |s| ==> s[i] in DIGITS || s[i] == '.')
    && forall i :: 0 < i < |s| ==> !(s[i - 1] == '.' && s[i] == '.')
  }

  lemma StartsNumber(s: string)
    ensures IsVersionText(s) <==> s != [] && s[0] != '.' && Continues(s)
  {
    var pieces := SplitDots(s);
    assert pieces[0] == [] <==> s == [] || s[0] == '.';
    if s != [] && s[0] != '.' && Continues(s) {
      assert IsNumber(pieces[0]);
    }
  }

  lemma DotsApartStep(s: string)
    requires s != []
    ensures s[0] == '.' ==> (DotsApart(s) <==> s[1..] != [] && s[1] != '.' && DotsApart(s[1..]))
    ensures s[0] != '.' ==> (DotsApart(s) <==> s[0] in DIGITS && DotsApart(s[1..]))
  {
    var t := s[1..];
    assert forall i :: 0 <= i < |t| ==> t[i] == s[i + 1];
    if DotsApart(s) {
      forall i | 0 < i < |t| ensures !(t[i - 1] == '.' && t[i] == '.') {
        assert !(s[i] == '.' && s[i + 1] == '.');
      }
    }
    if DotsApart(t) && (s[0] in DIGITS || s[0] == '.') {
      forall i | 0 < i < |s| ensures i == 1 || !(s[i - 1] == '.' && s[i] == '.') {
        assert i > 1 ==> !(t[i - 2] == '.' && t[i - 1] == '.');
      }
    }
  }

  lemma ContinuesStep(s: string)
    requires s != []
    ensures s[0] == '.' ==> (Continues(s) <==> IsVersionText(s[1..]))
    ensures s[0] != '.' ==> (Continues(s) <==> IsDigit(s[0]) && Continues(s[1..]))
  {
    var pieces, rest := SplitDots(s), SplitDots(s[1..]);
    if s[0] == '.' {
      assert pieces == [[]] + rest;
      assert forall i :: 0 <= i < |rest| ==> rest[i] == pieces[i + 1];
    } else {
      assert pieces[0] == [s[0]] + rest[0] && |pieces| == |rest|;
      assert forall i :: 1 <= i < |rest| ==> rest[i] == pieces[i];
      assert pieces[0][0] == s[0] && forall i :: 1 <= i < |pieces[0]| ==> pieces[0][i] == rest[0][i - 1];
      assert forall i :: 0 <= i < |rest[0]| ==> rest[0][i] == pieces[0][i + 1];
    }
  }

  lemma {:induction false} ContinuesExactly(s: string)
    ensures Continues(s) <==> DotsApart(s)
    decreases |s|
  {
    if s != [] {
      ContinuesExactly(s[1..]);
      ContinuesStep(s);
      DotsApartStep(s);
      DigitCharacters(s[0]);
      StartsNumber(s[1..]);
    }
  }

  lemma VersionTextExactly(s: string)
    ensures IsVersionText(s) <==> IsDottedDigits(s)
  {
    StartsNumber(s);
    ContinuesExactly(s);
  }
}
