/**
 * The scalar values a run record holds (JSON scalars, plus the run's creation
 * time), and Python's comparison operators on them. A comparison that Python
 * would answer with a `TypeError` is `None` here.
 */
module Values {
  import opened Wrappers
  import opened Text

  /** Timestamps are opaque and totally ordered; an integer stands for one. */
  type Time = int

  datatype Value =
    | VNone             // JSON null, also Python's `None` default
    | VBool(b: bool)
    | VInt(i: int)
    | VFloat(x: real)   // floating point is abstracted as a real number
    | VStr(s: string)
    | VTime(t: Time)    // a `datetime`, only ever the run's `created`

  /** The classes within which Python's `<` is defined. */
  datatype Kind = Number | Text | Moment | Unordered

  function KindOf(v: Value): Kind {
    match v
    case VBool(_) => Number
    case VInt(_) => Number
    case VFloat(_) => Number
    case VStr(_) => Text
    case VTime(_) => Moment
    case VNone => Unordered
  }

  /** Numeric value of a bool, int or float (`True == 1`). */
  function Num(v: Value): real
    requires KindOf(v) == Number
  {
    match v
    case VBool(b) => if b then 1.0 else 0.0
    case VInt(i) => i as real
    case VFloat(x) => x
  }

  predicate Comparable(a: Value, b: Value) {
    KindOf(a) == KindOf(b) && KindOf(a) != Unordered
  }

  /** Python's `a < b`; `None` when it raises. */
  function Less(a: Value, b: Value): (r: Option<bool>)
    ensures r.Some? <==> Comparable(a, b)
  {
    if !Comparable(a, b) then None
    else match KindOf(a)
      case Number => Some(Num(a) < Num(b))
      case Text => Some(LexLess(a.s, b.s))
      case Moment => Some(a.t < b.t)
  }

  /** Python's `a <= b`; `None` when it raises. */
  function LessEq(a: Value, b: Value): (r: Option<bool>)
    ensures r.Some? <==> Comparable(a, b)
  {
    if !Comparable(a, b) then None
    else match KindOf(a)
      case Number => Some(Num(a) <= Num(b))
      case Text => Some(LexLess(a.s, b.s) || a.s == b.s)
      case Moment => Some(a.t <= b.t)
  }

  /** Python's `a > b`, which for these types is `b < a`: defined on the pairs `<` is, never together with it. */
  function Greater(a: Value, b: Value): (r: Option<bool>)
    ensures r.Some? <==> Comparable(a, b)
    ensures r == Some(true) ==> Less(a, b) == Some(false)
  {
    if Less(b, a) == Some(true) then
      LessAsymmetric(b, a);
      Less(b, a)
    else Less(b, a)
  }

  /** Python's `a >= b`, which for these types is `b <= a`: exactly "not `a < b`" where `<` is defined. */
  function GreaterEq(a: Value, b: Value): (r: Option<bool>)
    ensures r.Some? <==> Comparable(a, b)
    ensures Comparable(a, b) ==> r == Some(!Less(a, b).value)
  {
    if Comparable(a, b) then
      LessEqIsNotGreater(b, a);
      LessEq(b, a)
    else LessEq(b, a)
  }

  /** Python's `a == b`; it never raises, and values of unrelated types are unequal. */
  function Equal(a: Value, b: Value): bool {
    if KindOf(a) == Number && KindOf(b) == Number then Num(a) == Num(b)
    else match (a, b)
      case (VStr(x), VStr(y)) => x == y
      case (VTime(x), VTime(y)) => x == y
      case (VNone, VNone) => true
      case _ => false
  }

  /** Python's `needle in haystack`: a substring test on two strings, a `TypeError` otherwise. */
  function Member(needle: Value, haystack: Value): (r: Option<bool>)
    ensures r.Some? <==> needle.VStr? && haystack.VStr?
  {
    if needle.VStr? && haystack.VStr? then Some(Infix(needle.s, haystack.s))
    else None
  }

  lemma LessIrreflexive(a: Value)
    requires KindOf(a) != Unordered
    ensures Less(a, a) == Some(false)
  {
    if a.VStr? { LexIrreflexive(a.s); }
  }

  lemma LessAsymmetric(a: Value, b: Value)
    requires Less(a, b) == Some(true)
    ensures Less(b, a) == Some(false)
  {
    if a.VStr? {
      if LexLess(b.s, a.s) { LexTransitive(a.s, b.s, a.s); LexIrreflexive(a.s); }
    }
  }

  /** `a <= b < c` gives `a < c` (and so not `c < a`). */
  lemma NotLessThenLess(a: Value, b: Value, c: Value)
    requires Less(b, a) == Some(false) && Less(b, c) == Some(true)
    ensures Less(a, c) == Some(true) && Less(c, a) == Some(false)
  {
    if a.VStr? {
      LexTotal(a.s, b.s);
      if LexLess(a.s, b.s) { LexTransitive(a.s, b.s, c.s); }
    }
    LessAsymmetric(a, c);
  }

  /** `a < b <= c` gives `a < c` (and so not `c < a`). */
  lemma LessThenNotLess(a: Value, b: Value, c: Value)
    requires Less(a, b) == Some(true) && Less(c, b) == Some(false)
    ensures Less(a, c) == Some(true) && Less(c, a) == Some(false)
  {
    if a.VStr? {
      LexTotal(b.s, c.s);
      if LexLess(b.s, c.s) { LexTransitive(a.s, b.s, c.s); }
    }
    LessAsymmetric(a, c);
  }

  /** `a <= b <= c` gives `a <= c`, in terms of `<` alone. */
  lemma NotLessTransitive(a: Value, b: Value, c: Value)
    requires Less(b, a) == Some(false) && Less(c, b) == Some(false)
    ensures Less(c, a) == Some(false)
  {
    if a.VStr? {
      LexTotal(a.s, b.s);
      LexTotal(b.s, c.s);
      if LexLess(a.s, b.s) && LexLess(b.s, c.s) { LexTransitive(a.s, b.s, c.s); }
      if LexLess(c.s, a.s) {
        if LexLess(a.s, c.s) { LexTransitive(a.s, c.s, a.s); }
        LexIrreflexive(a.s);
      }
    }
  }

  /** Python's `<=` agrees with "not `>`" on comparable values: the two operators are one order. */
  lemma LessEqIsNotGreater(a: Value, b: Value)
    requires Comparable(a, b)
    ensures LessEq(a, b) == Some(!Less(b, a).value)
  {
    if a.VStr? {
      LexTotal(a.s, b.s);
      if LexLess(a.s, b.s) && LexLess(b.s, a.s) { LexTransitive(a.s, b.s, a.s); LexIrreflexive(a.s); }
      if a.s == b.s { LexIrreflexive(a.s); }
    }
  }

  /** Within a kind, two values are ordered one way or the other. */
  lemma LessTotal(a: Value, b: Value)
    requires Comparable(a, b)
    ensures Less(a, b) == Some(true) || Less(b, a) == Some(true) || Less(a, b) == Less(b, a) == Some(false)
  {
    if a.VStr? { LexTotal(a.s, b.s); if a.s == b.s { LexIrreflexive(a.s); } }
  }

  /** Python's `==` on these values is an equivalence: reflexive, symmetric and transitive. */
  lemma EqualIsEquivalence(a: Value, b: Value, c: Value)
    ensures Equal(a, a)
    ensures Equal(a, b) == Equal(b, a)
    ensures Equal(a, b) && Equal(b, c) ==> Equal(a, c)
  {
  }

  /** On comparable values, `==` holds exactly when neither value is below the other. */
  lemma EqualIffNeitherLess(a: Value, b: Value)
    requires Comparable(a, b)
    ensures Equal(a, b) <==> Less(a, b) == Some(false) && Less(b, a) == Some(false)
  {
    if a.VStr? {
      LexTotal(a.s, b.s);
      if a.s == b.s { LexIrreflexive(a.s); }
    }
  }
}
