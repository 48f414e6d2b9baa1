/**
 * `compile_filter` (sake.py): a filter text becomes a tree of comparisons and
 * binary "or"s. Operators are substring triggers tested in a fixed order, and
 * every split must give exactly two parts, as Python's tuple unpacking demands.
 */
module FilterCompiler {
  import opened Wrappers
  import opened Text
  import opened Runs

  /** The comparison of a leaf; `In` is a substring test with the operands swapped. */
  datatype Comparator = In | Ne | Le | Ge | Lt | Eq | Gt

  /** The compiled filter: a leaf compares a field with a literal, `Or` short-circuits. */
  datatype Filter =
    | Leaf(comp: Comparator, field: string, literal: string)
    | Or(lhs: Filter, rhs: Filter)

  const OrToken: string := " or "

  function Token(c: Comparator): (t: string)
    ensures t != []
  {
    match c
    case In => " in "
    case Ne => "!="
    case Le => "<="
    case Ge => ">="
    case Lt => "<"
    case Eq => "="
    case Gt => ">"
  }

  /** Position of a comparator in the order the source tests them. */
  function Rank(c: Comparator): nat {
    match c
    case In => 0
    case Ne => 1
    case Le => 2
    case Ge => 3
    case Lt => 4
    case Eq => 5
    case Gt => 6
  }

  /** The first comparator, in the source's order, whose token occurs in `text`. */
  function Trigger(text: string): (r: Option<Comparator>)
    ensures r.Some? ==> Contains(text, Token(r.value))
    ensures forall c :: (r.None? || Rank(c) < Rank(r.value)) ==> !Contains(text, Token(c))
  {
    if Contains(text, " in ") then Some(In)
    else if Contains(text, "!=") then Some(Ne)
    else if Contains(text, "<=") then Some(Le)
    else if Contains(text, ">=") then Some(Ge)
    else if Contains(text, "<") then Some(Lt)
    else if Contains(text, "=") then Some(Eq)
    else if Contains(text, ">") then Some(Gt)
    else None
  }

  /** `compile_filter(text)`, or the exception it raises. */
  function Compile(text: string): Result<Filter, Error>
    decreases |text|
  {
    if Contains(text, OrToken) then
      match SplitPair(text, OrToken)
      case None => Err(WrongArity(text, OrToken))
      case Some((lhs, rhs)) =>
        match Compile(lhs)
        case Err(e) => Err(e)
        case Ok(l) =>
          match Compile(rhs)
          case Err(e) => Err(e)
          case Ok(r) => Ok(Or(l, r))
    else
      match Trigger(text)
      case None => Err(InvalidFormat(text))
      case Some(c) =>
        match SplitPair(text, Token(c))
        case None => Err(WrongArity(text, Token(c)))
        case Some((a, b)) =>
          if c == In then Ok(Leaf(In, Strip(b), Strip(a)))
          else Ok(Leaf(c, Strip(a), Strip(b)))
  }

  /**
   * A compiled leaf comes from the first comparator, in the source's order,
   * whose token occurs, in a text with no " or ", split at its only occurrence
   * of that token; both sides are stripped, and `In` puts the field on the right.
   */
  lemma LeafDispatch(text: string)
    requires Compile(text).Ok? && Compile(text).value.Leaf?
    ensures var Leaf(c, field, literal) := Compile(text).value;
      && !Contains(text, OrToken)
      && Contains(text, Token(c))
      && (forall c' :: Rank(c') < Rank(c) ==> !Contains(text, Token(c')))
      && exists a, b :: (text == a + Token(c) + b && !Contains(a, Token(c)) && !Contains(b, Token(c)) &&
           if c == In then field == Strip(b) && literal == Strip(a) else field == Strip(a) && literal == Strip(b))
  {
    assert !Contains(text, OrToken);
    var c := Trigger(text).value;
    var (a, b) := SplitPair(text, Token(c)).value;
    assert text == a + Token(c) + b && !Contains(a, Token(c)) && !Contains(b, Token(c));
    assert Compile(text).value == if c == In then Leaf(In, Strip(b), Strip(a)) else Leaf(c, Strip(a), Strip(b));
  }

  /** A text that is not split at " or " fails on the whole text. */
  lemma ErrorAtTop(text: string)
    requires Compile(text).Err? && !(Contains(text, OrToken) && SplitPair(text, OrToken).Some?)
    ensures Compile(text).error.InvalidFormat? || Compile(text).error.WrongArity?
    ensures Compile(text).error.text == text
    ensures Compile(text).error.InvalidFormat? ==>
      !Contains(text, OrToken) && forall c :: !Contains(text, Token(c))
  {
  }

  /** A text split at " or " fails with the error of its left side, or else of its right side. */
  lemma ErrorOfSides(text: string, lhs: string, rhs: string)
    requires Contains(text, OrToken) && SplitPair(text, OrToken) == Some((lhs, rhs))
    requires Compile(text).Err?
    ensures Compile(text) == if Compile(lhs).Err? then Compile(lhs) else Compile(rhs)
  {
  }

  /**
   * Every error names a part of the text that fails on its own with that same
   * error: the whole text, or a side of its " or " split, recursively.
   */
  lemma {:induction false} ErrorNamesFailingPart(text: string)
    requires Compile(text).Err?
    ensures Compile(text).error.InvalidFormat? || Compile(text).error.WrongArity?
    ensures Infix(Compile(text).error.text, text)
    ensures Compile(Compile(text).error.text) == Compile(text)
    decreases |text|, 1
  {
    if Contains(text, OrToken) && SplitPair(text, OrToken).Some? {
      ErrorInFailingSide(text);
    } else {
      ErrorAtTop(text);
      assert OccursAt(text, text, 0);
    }
  }

  /** The " or " case of `ErrorNamesFailingPart`: the part lies in the side that fails. */
  lemma {:induction false} ErrorInFailingSide(text: string)
    requires Contains(text, OrToken) && SplitPair(text, OrToken).Some? && Compile(text).Err?
    ensures Compile(text).error.InvalidFormat? || Compile(text).error.WrongArity?
    ensures Infix(Compile(text).error.text, text)
    ensures Compile(Compile(text).error.text) == Compile(text)
    decreases |text|, 0
  {
    var (lhs, rhs) := SplitPair(text, OrToken).value;
    ErrorOfSides(text, lhs, rhs);
    if Compile(lhs).Err? {
      ErrorNamesFailingPart(lhs);
      InfixOfSides(Compile(lhs).error.text, text, lhs, OrToken, rhs);
    } else {
      ErrorNamesFailingPart(rhs);
      InfixOfSides(Compile(rhs).error.text, text, lhs, OrToken, rhs);
    }
  }

  /** The part an invalid-format error names holds no operator at all. */
  lemma InvalidPartHasNoOperator(text: string)
    requires Compile(text).Err? && Compile(text).error.InvalidFormat?
    ensures !Contains(Compile(text).error.text, OrToken)
    ensures forall c :: !Contains(Compile(text).error.text, Token(c))
  {
    ErrorNamesFailingPart(text);
    InvalidFormatIff(Compile(text).error.text);
  }

  /** The text itself is reported as invalid exactly when it holds no operator at all. */
  lemma InvalidFormatIff(text: string)
    ensures Compile(text) == Err(InvalidFormat(text)) <==>
      !Contains(text, OrToken) && forall c :: !Contains(text, Token(c))
  {
    if Contains(text, OrToken) && SplitPair(text, OrToken).Some? && Compile(text).Err? {
      var (lhs, rhs) := SplitPair(text, OrToken).value;
      var e := Compile(text).error;
      if Compile(lhs).Err? {
        ErrorNamesFailingPart(lhs);
        var i: nat :| i <= |lhs| && OccursAt(lhs, e.text, i);
      } else {
        ErrorNamesFailingPart(rhs);
        var i: nat :| i <= |rhs| && OccursAt(rhs, e.text, i);
      }
    }
  }

  /**
   * A text with " or " compiles only when it splits into exactly two parts and
   * both compile; the result is then the `Or` of the two sides, left first.
   */
  lemma OrSplitsOnce(text: string)
    requires Contains(text, OrToken)
    ensures |Split(text, OrToken)| != 2 ==> Compile(text) == Err(WrongArity(text, OrToken))
    ensures Compile(text).Ok? <==>
      |Split(text, OrToken)| == 2 &&
      Compile(Split(text, OrToken)[0]).Ok? && Compile(Split(text, OrToken)[1]).Ok?
    ensures Compile(text).Ok? ==>
      Compile(text) == Ok(Or(Compile(Split(text, OrToken)[0]).value, Compile(Split(text, OrToken)[1]).value))
  {
  }

  /** The comparator chosen is the first, in the source's order, whose token occurs. */
  lemma TriggerIs(text: string, c: Comparator)
    requires Contains(text, Token(c))
    requires forall c' :: Rank(c') < Rank(c) ==> !Contains(text, Token(c'))
    ensures Trigger(text) == Some(c)
  {
  }

  /** A text without " or " compiles to the leaf of its trigger, split once. */
  lemma CompileLeaf(text: string, c: Comparator, a: string, b: string)
    requires !Contains(text, OrToken) && Trigger(text) == Some(c)
    requires SplitPair(text, Token(c)) == Some((a, b))
    ensures Compile(text) == if c == In then Ok(Leaf(In, Strip(b), Strip(a))) else Ok(Leaf(c, Strip(a), Strip(b)))
  {
  }

  /** A text without " or " whose trigger token does not split it in two fails to unpack. */
  lemma CompileWrongArity(text: string, c: Comparator)
    requires !Contains(text, OrToken) && Trigger(text) == Some(c)
    requires SplitPair(text, Token(c)).None?
    ensures Compile(text) == Err(WrongArity(text, Token(c)))
  {
  }

  /** A text split once at " or " compiles to the `Or` of its two compiled sides. */
  lemma CompileOr(text: string, lhs: string, rhs: string)
    requires Contains(text, OrToken) && SplitPair(text, OrToken) == Some((lhs, rhs))
    requires Compile(lhs).Ok? && Compile(rhs).Ok?
    ensures Compile(text) == Ok(Or(Compile(lhs).value, Compile(rhs).value))
  {
  }
}
