/**
 * Applying a compiled filter to one run (`Filter.__call__` and the `or`
 * closure of `compile_filter`, sake.py). The literal is converted to the type
 * of the field's value, falling back to the raw text when conversion fails;
 * a comparison that raises counts as `False`, while an error from looking the
 * field up escapes to the caller.
 */
module FilterEval {
  import opened Wrappers
  import opened Text
  import opened Values
  import opened Runs
  import opened BestCheckpoint
  import opened FieldResolver
  import opened FilterCompiler

  /**
   * The text conversions the filter borrows: `int(s)`, `float(s)`, `bool(s)`
   * and dateutil's day-first `parse(s)`. Each partial one gives `None` where
   * it raises; `bool(s)` never raises.
   */
  datatype Coercions = Coercions(
    toInt: string -> Option<int>,
    toFloat: string -> Option<real>,
    toBool: string -> bool,
    toTime: string -> Option<Time>)

  /** `try_fallback(parse, literal)`: the parsed value, or the literal text when parsing raises. */
  function Fallback<T>(parsed: Option<T>, wrap: T -> Value, literal: string): (r: Value)
    ensures parsed.None? ==> r == VStr(literal)
    ensures parsed.Some? ==> r == wrap(parsed.value)
  {
    match parsed
    case Some(x) => wrap(x)
    case None => VStr(literal)
  }

  /**
   * `try_fallback(type(field), literal)`: the literal converted by the
   * constructor of the field value's type. `str` and `bool` never raise;
   * `NoneType(s)` and `datetime(s)` always do.
   */
  function Convert(subject: Value, literal: string, conv: Coercions): (r: Value)
    ensures r == VStr(literal) || KindOf(r) == KindOf(subject)
    ensures subject.VStr? || subject.VBool? ==> KindOf(r) == KindOf(subject)
    ensures subject.VNone? || subject.VTime? ==> r == VStr(literal)
  {
    match subject
    case VStr(_) => VStr(literal)
    case VBool(_) => VBool(conv.toBool(literal))
    case VInt(_) => Fallback(conv.toInt(literal), (i: int) => VInt(i), literal)
    case VFloat(_) => Fallback(conv.toFloat(literal), (x: real) => VFloat(x), literal)
    case VNone => VStr(literal)
    case VTime(_) => VStr(literal)
  }

  /** `comp(field, value)` for one comparator, with a raised `TypeError` read as `False`. */
  function Apply(c: Comparator, subject: Value, operand: Value): (r: bool)
    ensures c == Eq ==> r == Equal(subject, operand)
    ensures c == Ne ==> r == !Equal(subject, operand)
    ensures c in {Lt, Le, Gt, Ge} && !Comparable(subject, operand) ==> !r
    ensures c == In ==> (r <==> subject.VStr? && operand.VStr? && Infix(operand.s, subject.s))
  {
    match c
    case In => Member(operand, subject).GetOr(false)
    case Eq => Equal(subject, operand)
    case Ne => !Equal(subject, operand)
    case Lt => Less(subject, operand).GetOr(false)
    case Le => LessEq(subject, operand).GetOr(false)
    case Gt => Greater(subject, operand).GetOr(false)
    case Ge => GreaterEq(subject, operand).GetOr(false)
  }

  /** `len(expe.checkpoints)`, or 0 when the record has none. */
  function CheckpointCount(run: Run): nat {
    match run.checkpoints
    case None => 0
    case Some(cps) => |cps|
  }

  /**
   * The two sides a leaf compares: the field's value and the converted literal.
   * `created` and `n_checkpoints` are read from the run itself and never from
   * its parameters; any other field goes through `get_field` with default
   * `None`, whose errors escape.
   */
  function Operands(run: Run, field: string, literal: string, conv: Coercions): Result<(Value, Value), Error> {
    if field == "created" then
      Ok((VTime(run.created), Fallback(conv.toTime(literal), (t: Time) => VTime(t), literal)))
    else if field == "n_checkpoints" then
      Ok((VInt(CheckpointCount(run)), Fallback(conv.toInt(literal), (i: int) => VInt(i), literal)))
    else
      match ResolveField(run, field, VNone)
      case Err(e) => Err(e)
      case Ok(v) => Ok((v, Convert(v, literal, conv)))
  }

  /** `filter(expe)` for a compiled filter; `Or` evaluates its right side only when the left is false. */
  function Eval(f: Filter, run: Run, conv: Coercions): (r: Result<bool, Error>)
    ensures r.Err? ==> r.error.NoCheckpoints? || r.error.MissingMetric? || r.error.UnorderedMetric?
  {
    match f
    case Leaf(c, field, literal) =>
      (match Operands(run, field, literal, conv)
       case Err(e) => BestErrorKinds(run, field); Err(e)
       case Ok((subject, operand)) => Ok(Apply(c, subject, operand)))
    case Or(lhs, rhs) =>
      match Eval(lhs, run, conv)
      case Err(e) => Err(e)
      case Ok(true) => Ok(true)
      case Ok(false) => Eval(rhs, run, conv)
  }

  /** Looking a field up fails only with the errors of `get_best_checkpoint`. */
  lemma BestErrorKinds(run: Run, field: string)
    ensures ResolveField(run, field, VNone).Err? ==>
      var e := ResolveField(run, field, VNone).error;
      e.NoCheckpoints? || e.MissingMetric? || e.UnorderedMetric?
  {
  }

  /**
   * `lhs or rhs`: true as soon as the left side is, even when the right side
   * would raise; otherwise exactly the right side's outcome.
   */
  lemma OrShortCircuits(lhs: Filter, rhs: Filter, run: Run, conv: Coercions)
    ensures Eval(lhs, run, conv) == Ok(true) ==> Eval(Or(lhs, rhs), run, conv) == Ok(true)
    ensures Eval(lhs, run, conv) == Ok(false) ==> Eval(Or(lhs, rhs), run, conv) == Eval(rhs, run, conv)
    ensures Eval(lhs, run, conv).Err? ==> Eval(Or(lhs, rhs), run, conv) == Eval(lhs, run, conv)
    ensures Eval(lhs, run, conv).Ok? && Eval(rhs, run, conv).Ok? ==>
      Eval(Or(lhs, rhs), run, conv) == Ok(Eval(lhs, run, conv).value || Eval(rhs, run, conv).value)
  {
  }

  /** `!=` is the exact negation of `=` on every run, errors included. */
  lemma NeNegatesEq(field: string, literal: string, run: Run, conv: Coercions)
    ensures Eval(Leaf(Ne, field, literal), run, conv).Ok? <==> Eval(Leaf(Eq, field, literal), run, conv).Ok?
    ensures Eval(Leaf(Ne, field, literal), run, conv).Ok? ==>
      Eval(Leaf(Ne, field, literal), run, conv).value == !Eval(Leaf(Eq, field, literal), run, conv).value
  {
  }

  /**
   * `<` and `>=` never both hold, and both fail exactly when the two sides
   * cannot be ordered (the raised `TypeError` reads as `False` for each).
   */
  lemma LessAndAtLeastExclusive(field: string, literal: string, run: Run, conv: Coercions)
    requires Operands(run, field, literal, conv).Ok?
    ensures var (subject, operand) := Operands(run, field, literal, conv).value;
      var lt := Eval(Leaf(Lt, field, literal), run, conv).value;
      var ge := Eval(Leaf(Ge, field, literal), run, conv).value;
      !(lt && ge) && (lt || ge <==> Comparable(subject, operand))
  {
    var (subject, operand) := Operands(run, field, literal, conv).value;
    if Comparable(subject, operand) {
      LessEqIsNotGreater(operand, subject);
    }
  }

  /**
   * A field that no parameter or metric holds reads as `None`: every
   * comparison with it is false except `!=`, which is true.
   */
  lemma AbsentFieldOnlyDiffers(c: Comparator, field: string, literal: string, run: Run, conv: Coercions)
    requires field != "created" && field != "n_checkpoints"
    requires ResolveField(run, field, VNone) == Ok(VNone)
    ensures Eval(Leaf(c, field, literal), run, conv) == Ok(c == Ne)
  {
  }

  /**
   * `created` is the run's own timestamp: a parameter named `created` is never
   * consulted, the test never raises, and a literal that does not parse as a
   * date makes only `!=` true.
   */
  lemma CreatedReadsTimestamp(c: Comparator, literal: string, run: Run, conv: Coercions, params: Dict)
    ensures Eval(Leaf(c, "created", literal), run, conv).Ok?
    ensures Eval(Leaf(c, "created", literal), run, conv) == Eval(Leaf(c, "created", literal), run.(params := params), conv)
    ensures conv.toTime(literal).None? ==> Eval(Leaf(c, "created", literal), run, conv) == Ok(c == Ne)
    ensures conv.toTime(literal).Some? ==>
      Eval(Leaf(c, "created", literal), run, conv) == Ok(Apply(c, VTime(run.created), VTime(conv.toTime(literal).value)))
  {
  }

  /** `n_checkpoints` counts the run's checkpoints, with a run that has none counting 0. */
  lemma CheckpointCountCompared(c: Comparator, literal: string, run: Run, conv: Coercions, n: int)
    requires conv.toInt(literal) == Some(n)
    ensures c == Eq ==> Eval(Leaf(c, "n_checkpoints", literal), run, conv) == Ok(CheckpointCount(run) == n)
    ensures c == Lt ==> Eval(Leaf(c, "n_checkpoints", literal), run, conv) == Ok(CheckpointCount(run) < n)
    ensures c == Ge ==> Eval(Leaf(c, "n_checkpoints", literal), run, conv) == Ok(CheckpointCount(run) >= n)
    ensures run.checkpoints.None? ==> CheckpointCount(run) == 0
  {
  }

  /**
   * `literal in field` is a substring test on a text field and false on a
   * field of any other type, since `in` on a number raises.
   */
  lemma InTestsSubstring(field: string, literal: string, run: Run, conv: Coercions)
    requires field != "created" && field != "n_checkpoints"
    requires ResolveField(run, field, VNone).Ok?
    ensures var v := ResolveField(run, field, VNone).value;
      Eval(Leaf(In, field, literal), run, conv) == Ok(v.VStr? && Infix(literal, v.s))
  {
  }
}
