/** Environment markers of lock-file dependencies
    (scripts/finalize_release_evidence.py:438-534). */
module Markers {
  import opened Ordering
  import opened Text
  import opened Versions

  datatype Operand = Name(id: string) | Quoted(value: string) | OtherOperand

  datatype Operator = Eq | NotEq | Lt | LtE | Gt | GtE | In | NotIn | OtherOperator

  /** The Python expression tree of a marker. */
  datatype Node =
    | BoolOp(isAnd: bool, values: seq<Node>)
    | Compare(left: Operand, ops: seq<Operator>, comparators: seq<Operand>)
    | OtherNode

  /** The "marker" field of a dependency: missing, not a marker, or parsed. */
  datatype Marker = NoMarker | InvalidMarker | Parsed(tree: Node)

  datatype MarkerError =
    | BadMarker | UnsupportedName | UnsupportedOperand | UnsupportedVersion
    | UnsupportedComparison | ChainedMarker | UnsupportedExpression

  type Environment = map<string, string>

  const VERSION_NAMES: set<string> := {"python_full_version", "python_version"}

  // ----- versions as written in a marker

  function SplitDots(s: string): (pieces: seq<string>)
    ensures pieces != []
  {
    if s == [] then [[]]
    else
      var rest := SplitDots(s[1..]);
      if s[0] == '.' then [[]] + rest else [[s[0]] + rest[0]] + rest[1..]
  }

  predicate IsNumber(s: string) { s != [] && forall i :: 0 <= i < |s| ==> IsDigit(s[i]) }

  function DigitValue(c: char): nat
    requires IsDigit(c)
  {
    c as int - '0' as int
  }

  function IntOf(s: string): nat
    requires forall i :: 0 <= i < |s| ==> IsDigit(s[i])
  {
    if s == [] then 0 else 10 * IntOf(s[..|s| - 1]) + DigitValue(s[|s| - 1])
  }

  predicate AreNumbers(pieces: seq<string>) { forall i :: 0 <= i < |pieces| ==> IsNumber(pieces[i]) }

  predicate IsVersionText(s: string) { AreNumbers(SplitDots(s)) }

  function IntsOf(pieces: seq<string>): seq<nat>
    requires AreNumbers(pieces)
  {
    seq(|pieces|, i requires 0 <= i < |pieces| => IntOf(pieces[i]))
  }

  function VersionParts(s: string): seq<nat>
    requires IsVersionText(s)
  {
    IntsOf(SplitDots(s))
  }

  function VersionOf(s: string): Option<seq<nat>> {
    if IsVersionText(s) then Some(StripZeros(VersionParts(s))) else None
  }

  /** `_numeric_version`: parse, then drop trailing zero components in place. */
  method NumericVersion(value: string) returns (version: Option<seq<nat>>)
    ensures version == VersionOf(value)
    ensures version.Some? ==> IsVersionText(value) && SameVersion(version.value, VersionParts(value))
    ensures version.Some? ==> |version.value| <= 1 || version.value[|version.value| - 1] != 0
  {
    if !IsVersionText(value) {
      return None;
    }
    var parts := VersionParts(value);
    while |parts| > 1 && parts[|parts| - 1] == 0
      invariant StripZeros(parts) == StripZeros(VersionParts(value))
      decreases |parts|
    {
      parts := parts[..|parts| - 1];
    }
    forall i: nat ensures At(parts, i) == At(VersionParts(value), i) {
      StripKeepsComponents(VersionParts(value), i);
    }
    return Some(parts);
  }

  // ----- evaluation of one marker in one environment

  function OperandValue(node: Operand, environment: Environment): Result<(string, bool), MarkerError> {
    match node
    case Name(id) =>
      if id in environment then Ok((environment[id], id in VERSION_NAMES)) else Err(UnsupportedName)
    case Quoted(value) => Ok((value, false))
    case OtherOperand => Err(UnsupportedOperand)
  }

  function Decide(operator: Operator, less: bool, equal: bool): Result<bool, MarkerError> {
    match operator
    case Eq => Ok(equal)
    case NotEq => Ok(!equal)
    case Lt => Ok(less)
    case LtE => Ok(less || equal)
    case Gt => Ok(!less && !equal)
    case GtE => Ok(!less)
    case _ => Err(UnsupportedComparison)
  }

  function CompareValues(left: string, right: string, operator: Operator, versionComparison: bool)
    : Result<bool, MarkerError>
  {
    if operator == In then Ok(Contains(right, left))
    else if operator == NotIn then Ok(!Contains(right, left))
    else if versionComparison then
      var l, r := VersionOf(left), VersionOf(right);
      if l.None? || r.None? then Err(UnsupportedVersion)
      else Decide(operator, PaddedLess(l.value, r.value), PaddedEqual(l.value, r.value))
    else Decide(operator, StrLess(left, right), left == right)
  }

  function Evaluate(node: Node, environment: Environment): Result<bool, MarkerError>
    decreases node, 1
  {
    match node
    case BoolOp(isAnd, values) =>
      var results := EvaluateAll(values, environment);
      if results.Err? then Err(results.error)
      else Ok(if isAnd then false !in results.value else true in results.value)
    case Compare(left, ops, comparators) =>
      if |ops| != 1 || |comparators| != 1 then Err(ChainedMarker)
      else
        var l := OperandValue(left, environment);
        if l.Err? then Err(l.error)
        else
          var r := OperandValue(comparators[0], environment);
          if r.Err? then Err(r.error)
          else CompareValues(l.value.0, r.value.0, ops[0], l.value.1 || r.value.1)
    case OtherNode => Err(UnsupportedExpression)
  }

  /** Every operand is evaluated, in order, before `all` or `any` is applied. */
  function EvaluateAll(values: seq<Node>, environment: Environment): Result<seq<bool>, MarkerError>
    decreases values, 0
  {
    if values == [] then Ok([])
    else
      var first := Evaluate(values[0], environment);
      if first.Err? then Err(first.error)
      else
        var rest := EvaluateAll(values[1..], environment);
        if rest.Err? then rest else Ok([first.value] + rest.value)
  }

  /** On versions the six operators mean the reference order, so they are
      mutually consistent. */
  lemma VersionOperatorsAreConsistent(left: string, right: string)
    requires IsVersionText(left) && IsVersionText(right)
    ensures var l, r := VersionParts(left), VersionParts(right);
      && CompareValues(left, right, Lt, true) == Ok(Precedes(l, r))
      && CompareValues(left, right, Eq, true) == Ok(SameVersion(l, r))
      && CompareValues(left, right, Gt, true) == Ok(Precedes(r, l))
      && CompareValues(left, right, LtE, true) == Ok(!Precedes(r, l))
      && CompareValues(left, right, GtE, true) == Ok(!Precedes(l, r))
      && CompareValues(left, right, NotEq, true) == Ok(Precedes(l, r) || Precedes(r, l))
  {
    var l, r := VersionParts(left), VersionParts(right);
    StrippedComparisonIsPointwise(l, r);
    PrecedesTrichotomy(l, r);
  }

  // ----- a marker in a set of extras

  /** The marker's value when `extra` is the only active extra. */
  function ValueIn(marker: Marker, platform: Environment, extra: string): Result<bool, MarkerError> {
    match marker
    case NoMarker => Ok(true)
    case InvalidMarker => Err(BadMarker)
    case Parsed(tree) => Evaluate(tree, platform["extra" := extra])
  }

  /** `extras or {""}`. */
  function Contexts(extras: set<string>): set<string> {
    if extras == {} then {""} else extras
  }

  /** The loop of `_marker_applies` over the contexts in one iteration order. */
  function Scan(marker: Marker, platform: Environment, order: seq<string>): Result<bool, MarkerError> {
    if order == [] then Ok(false)
    else
      var value := ValueIn(marker, platform, order[0]);
      if value.Err? || value.value then value else Scan(marker, platform, order[1..])
  }

  predicate GivesTrue(marker: Marker, platform: Environment, extra: string) {
    ValueIn(marker, platform, extra) == Ok(true)
  }

  predicate GivesError(marker: Marker, platform: Environment, extra: string) {
    ValueIn(marker, platform, extra).Err?
  }

  /** What a scan can return, whatever the order. */
  lemma {:induction false} ScanMeaning(marker: Marker, platform: Environment, order: seq<string>)
    ensures var r := Scan(marker, platform, order);
      && (r == Ok(true) ==> exists e :: e in order && GivesTrue(marker, platform, e))
      && (r == Ok(false) ==> forall e :: e in order ==> ValueIn(marker, platform, e) == Ok(false))
      && (r.Err? ==> exists e :: e in order && GivesError(marker, platform, e))
  {
    if order != [] {
      assert order == [order[0]] + order[1..];
      ScanMeaning(marker, platform, order[1..]);
      if Scan(marker, platform, order).Err? || Scan(marker, platform, order).value {
        if ValueIn(marker, platform, order[0]) == Ok(false) {
          var e :| e in order[1..] && (GivesTrue(marker, platform, e) || GivesError(marker, platform, e));
          assert e in order;
        } else {
          assert order[0] in order;
        }
      }
    }
  }

  /** `_marker_applies`. A Python set is iterated in an order the code does not
      fix, so the context taken next is arbitrary; in the worst order it is one that
      fails, if there is one left. */
  method MarkerApplies(marker: Marker, platform: Environment, extras: set<string>, worst: bool)
    returns (applies: Result<bool, MarkerError>, ghost order: seq<string>)
    ensures Enumerates(order, Contexts(extras))
    ensures marker.Parsed? ==> applies == Scan(marker, platform, order)
    ensures applies == Ok(true) ==> exists e :: e in Contexts(extras) && GivesTrue(marker, platform, e)
    ensures applies == Ok(false) ==>
      forall e :: e in Contexts(extras) ==> ValueIn(marker, platform, e) == Ok(false)
    ensures applies.Err? ==> exists e :: e in Contexts(extras) && GivesError(marker, platform, e)
    ensures worst && applies.Ok? ==> forall e :: e in Contexts(extras) ==> !GivesError(marker, platform, e)
  {
    var contexts := Contexts(extras);
    var remaining := contexts;
    order := [];
    ghost var e :| e in contexts;
    if marker.NoMarker? || marker.InvalidMarker? {
      order := SomeOrder(contexts);
      assert ValueIn(marker, platform, e).Ok? <==> marker.NoMarker?;
      assert GivesTrue(marker, platform, e) || GivesError(marker, platform, e);
      return if marker.NoMarker? then Ok(true) else Err(BadMarker), order;
    }
    applies := Ok(false);
    while remaining != {} && applies == Ok(false)
      invariant remaining <= contexts
      invariant Enumerates(order, contexts - remaining)
      invariant applies == Scan(marker, platform, order)
      invariant applies.Ok? ==> forall e :: e in contexts - remaining ==> !GivesError(marker, platform, e)
      invariant worst && applies == Ok(true) ==> forall e :: e in remaining ==> !GivesError(marker, platform, e)
      decreases remaining
    {
      var failing := set e | e in remaining && GivesError(marker, platform, e);
      var extra :| extra in if worst && failing != {} then failing else remaining;
      remaining := remaining - {extra};
      ScanAppend(marker, platform, order, [extra]);
      EnumeratesAppend(order, [extra], contexts - remaining - {extra}, {extra});
      order := order + [extra];
      assert contexts - remaining == contexts - remaining - {extra} + {extra};
      applies := Evaluate(marker.tree, platform["extra" := extra]);
      assert applies.Err? <==> GivesError(marker, platform, extra);
    }
    assert applies.Ok? ==> applies == Ok(applies.value) && (applies.value || !applies.value);
    assert worst && applies.Ok? ==> forall e :: e in contexts ==> !GivesError(marker, platform, e);
    ScanMeaning(marker, platform, order);
    ghost var rest := SomeOrder(remaining);
    HasElement(rest);
    ScanAppend(marker, platform, order, rest);
    EnumeratesAppend(order, rest, contexts - remaining, remaining);
    order := order + rest;
    assert contexts - remaining + remaining == contexts;
  }

  lemma {:induction false} ScanAppend(marker: Marker, platform: Environment, order: seq<string>, more: seq<string>)
    ensures var r := Scan(marker, platform, order);
      Scan(marker, platform, order + more) == if r == Ok(false) then Scan(marker, platform, more) else r
    decreases |order|
  {
    if order == [] {
      assert order + more == more;
    } else {
      assert (order + more)[1..] == order[1..] + more;
      ScanAppend(marker, platform, order[1..], more);
    }
  }

  /** A result without the text of its error. */
  function Outcome(r: Result<bool, MarkerError>): Option<bool> { if r.Ok? then Some(r.value) else None }

  ghost predicate OrderIndependent(marker: Marker, platform: Environment, contexts: set<string>) {
    forall o, p :: Enumerates(o, contexts) && Enumerates(p, contexts) ==>
      Outcome(Scan(marker, platform, o)) == Outcome(Scan(marker, platform, p))
  }

  ghost predicate MixesTruthAndFailure(marker: Marker, platform: Environment, contexts: set<string>) {
    exists e, f :: e in contexts && f in contexts && GivesTrue(marker, platform, e) && GivesError(marker, platform, f)
  }

  lemma OrderStartingWith(contexts: set<string>, e: string) returns (order: seq<string>)
    requires e in contexts
    ensures Enumerates(order, contexts) && order[0] == e
  {
    var rest := SomeOrder(contexts - {e});
    EnumeratesAppend([e], rest, {e}, contexts - {e});
    order := [e] + rest;
    assert {e} + (contexts - {e}) == contexts;
  }

  lemma ScanAgrees(marker: Marker, platform: Environment, contexts: set<string>, o: seq<string>, p: seq<string>)
    requires Enumerates(o, contexts) && Enumerates(p, contexts)
    requires !MixesTruthAndFailure(marker, platform, contexts)
    ensures Scan(marker, platform, o) == Ok(true) ==> Scan(marker, platform, p) == Ok(true)
    ensures Scan(marker, platform, o).Err? ==> Scan(marker, platform, p).Err?
  {
    ScanMeaning(marker, platform, o);
    ScanMeaning(marker, platform, p);
    var r := Scan(marker, platform, p);
    assert r == Ok(true) || r == Ok(false) || r.Err? by {
      if r.Ok? && r.value { assert r == Ok(true); } else if r.Ok? { assert r == Ok(false); }
    }
    if Scan(marker, platform, o) == Ok(true) {
      var e :| e in o && GivesTrue(marker, platform, e);
      assert e in contexts && e in p;
      assert r != Ok(false);
    }
    if Scan(marker, platform, o).Err? {
      var e :| e in o && GivesError(marker, platform, e);
      assert e in contexts && e in p;
      assert r != Ok(false);
    }
  }

  /** The outcome of a marker is independent of the set iteration order exactly
      when no context makes it true while another makes it fail. */
  lemma OrderIndependenceExactly(marker: Marker, platform: Environment, contexts: set<string>)
    ensures OrderIndependent(marker, platform, contexts) <==>
            !MixesTruthAndFailure(marker, platform, contexts)
  {
    if MixesTruthAndFailure(marker, platform, contexts) {
      var e, f :| e in contexts && f in contexts && GivesTrue(marker, platform, e) && GivesError(marker, platform, f);
      var o := OrderStartingWith(contexts, e);
      var p := OrderStartingWith(contexts, f);
      assert Outcome(Scan(marker, platform, o)) != Outcome(Scan(marker, platform, p));
    } else {
      forall o, p | Enumerates(o, contexts) && Enumerates(p, contexts)
        ensures Outcome(Scan(marker, platform, o)) == Outcome(Scan(marker, platform, p))
      {
        ScanAgrees(marker, platform, contexts, o, p);
        ScanAgrees(marker, platform, contexts, p, o);
        var a, b := Scan(marker, platform, o), Scan(marker, platform, p);
        assert (a.Ok? && a.value ==> a == Ok(true)) && (b.Ok? && b.value ==> b == Ok(true));
      }
    }
  }

  // ----- markers whose failures do not depend on the extra

  predicate IsExtra(operand: Operand) { operand == Name("extra") }

  predicate IsVersionName(operand: Operand) { operand.Name? && operand.id in VERSION_NAMES }

  predicate ComparesVersionWithExtra(node: Node) {
    match node
    case BoolOp(_, values) => exists i :: 0 <= i < |values| && ComparesVersionWithExtra(values[i])
    case Compare(left, ops, comparators) =>
      && |ops| == 1 && |comparators| == 1 && !ops[0].In? && !ops[0].NotIn?
      && ((IsVersionName(left) && IsExtra(comparators[0])) || (IsExtra(left) && IsVersionName(comparators[0])))
    case OtherNode => false
  }

  /** No marker of this dependency compares a Python version with `extra`. */
  predicate Uniform(marker: Marker) { marker.Parsed? ==> !ComparesVersionWithExtra(marker.tree) }

  /** A comparison that leaves out `extra`, or both names of versions, or only asks for
      occurrence, is uniform. */
  lemma OrdinaryComparisonsAreUniform(left: Operand, operator: Operator, right: Operand)
    requires (left != Name("extra") && right != Name("extra")) || operator == In || operator == NotIn
      || (left != Name("python_version") && left != Name("python_full_version")
          && right != Name("python_version") && right != Name("python_full_version"))
    ensures Uniform(Parsed(Compare(left, [operator], [right])))
  {
  }

  lemma OperandIgnoresExtra(operand: Operand, platform: Environment, e: string, f: string)
    ensures var x, y := OperandValue(operand, platform["extra" := e]), OperandValue(operand, platform["extra" := f]);
      && (!IsExtra(operand) ==> x == y)
      && (IsExtra(operand) ==> x == Ok((e, false)) && y == Ok((f, false)))
      && (x.Ok? ==> (x.value.1 <==> IsVersionName(operand)))
  {
  }

  lemma ComparisonFailure(left: string, right: string, operator: Operator, left': string, right': string)
    ensures CompareValues(left, right, operator, false).Err? <==> CompareValues(left', right', operator, false).Err?
    ensures operator.In? || operator.NotIn? ==> CompareValues(left, right, operator, true).Ok?
  {
  }

  lemma CompareIgnoresExtra(node: Node, platform: Environment, e: string, f: string)
    requires node.Compare? && !ComparesVersionWithExtra(node)
    ensures Evaluate(node, platform["extra" := e]).Err? <==> Evaluate(node, platform["extra" := f]).Err?
  {
    if |node.ops| == 1 && |node.comparators| == 1 {
      var pe, pf := platform["extra" := e], platform["extra" := f];
      OperandIgnoresExtra(node.left, platform, e, f);
      OperandIgnoresExtra(node.comparators[0], platform, e, f);
      var l, r := OperandValue(node.left, pe), OperandValue(node.comparators[0], pe);
      var l', r' := OperandValue(node.left, pf), OperandValue(node.comparators[0], pf);
      if l.Ok? && r.Ok? {
        ComparisonFailure(l.value.0, r.value.0, node.ops[0], l'.value.0, r'.value.0);
        ComparisonFailure(l'.value.0, r'.value.0, node.ops[0], l.value.0, r.value.0);
      }
    }
  }

  lemma {:induction false} FailureIgnoresExtra(node: Node, platform: Environment, e: string, f: string)
    requires !ComparesVersionWithExtra(node)
    ensures Evaluate(node, platform["extra" := e]).Err? <==> Evaluate(node, platform["extra" := f]).Err?
    decreases node, 1
  {
    match node
    case BoolOp(_, values) => FailuresIgnoreExtra(values, platform, e, f);
    case Compare(_, _, _) => CompareIgnoresExtra(node, platform, e, f);
    case OtherNode =>
  }

  lemma {:induction false} FailuresIgnoreExtra(values: seq<Node>, platform: Environment, e: string, f: string)
    requires forall i :: 0 <= i < |values| ==> !ComparesVersionWithExtra(values[i])
    ensures EvaluateAll(values, platform["extra" := e]).Err? <==> EvaluateAll(values, platform["extra" := f]).Err?
    decreases values, 0
  {
    if values != [] {
      FailureIgnoresExtra(values[0], platform, e, f);
      FailuresIgnoreExtra(values[1..], platform, e, f);
    }
  }

  /** A uniform marker fails in every context or in none, so its outcome never
      depends on the iteration order. */
  lemma UniformIsOrderIndependent(marker: Marker, platform: Environment, contexts: set<string>)
    requires Uniform(marker)
    ensures OrderIndependent(marker, platform, contexts)
    ensures forall e, f :: GivesError(marker, platform, e) <==> GivesError(marker, platform, f)
  {
    if marker.Parsed? {
      forall e, f ensures GivesError(marker, platform, e) <==> GivesError(marker, platform, f) {
        FailureIgnoresExtra(marker.tree, platform, e, f);
      }
    }
    forall e, f | e in contexts && f in contexts && GivesError(marker, platform, f)
      ensures !GivesTrue(marker, platform, e)
    {
      assert GivesError(marker, platform, e);
    }
    OrderIndependenceExactly(marker, platform, contexts);
  }

  lemma SplitSingle(s: string)
    requires |s| == 1 && s[0] != '.'
    ensures SplitDots(s) == [s]
  {
    assert s[1..] == [];
    var rest := SplitDots(s[1..]);
    assert rest == [[]];
    assert [s[0]] + rest[0] == s;
    assert rest[1..] == [];
  }

  /** The condition is needed: `python_version < extra` with the extras "4" and
      "x" is true or an error, depending on which extra is looked at first. */
  lemma VersionAgainstExtraDependsOnOrder()
    ensures var marker := Parsed(Compare(Name("python_version"), [Lt], [Name("extra")]));
      var platform := map["python_version" := "3"];
      && Scan(marker, platform, ["4", "x"]) == Ok(true)
      && Scan(marker, platform, ["x", "4"]) == Err(UnsupportedVersion)
      && !OrderIndependent(marker, platform, {"4", "x"})
  {
    var marker := Parsed(Compare(Name("python_version"), [Lt], [Name("extra")]));
    var platform := map["python_version" := "3"];
    SplitSingle("3");
    SplitSingle("4");
    SplitSingle("x");
    assert IntOf("3") == 3 && IntOf("4") == 4;
    assert VersionParts("3") == [3] && VersionParts("4") == [4];
    assert VersionOf("3") == Some([3]) && VersionOf("4") == Some([4]);
    assert Pad([3], 1) == [3] && Pad([4], 1) == [4];
    assert !IsDigit("x"[0]);
    assert !IsNumber(SplitDots("x")[0]);
    assert VersionOf("x") == None;
    var e4, ex := platform["extra" := "4"], platform["extra" := "x"];
    assert GivesTrue(marker, platform, "4");
    assert ValueIn(marker, platform, "x") == Err(UnsupportedVersion);
    assert Scan(marker, platform, ["4", "x"]) == Ok(true);
    assert Scan(marker, platform, ["x", "4"]) == Err(UnsupportedVersion);
    assert Enumerates(["4", "x"], {"4", "x"}) && Enumerates(["x", "4"], {"4", "x"});
  }
}
