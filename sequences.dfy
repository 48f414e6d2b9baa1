/**
 * Python's list comprehensions and `all(...)` over a step that may raise:
 * the elements are processed in order and the first exception escapes.
 */
module Sequences {
  import opened Wrappers

  /** Every element mapped, in order, or the error of the first element whose mapping fails. */
  function Collect<A, B, E>(f: A -> Result<B, E>, xs: seq<A>): (r: Result<seq<B>, E>)
    ensures r.Ok? <==> forall i :: 0 <= i < |xs| ==> f(xs[i]).Ok?
    ensures r.Ok? ==> |r.value| == |xs| && forall i :: 0 <= i < |xs| ==> f(xs[i]) == Ok(r.value[i])
    ensures r.Err? ==> exists i :: (0 <= i < |xs| && f(xs[i]) == Err(r.error) &&
      forall j :: 0 <= j < i ==> f(xs[j]).Ok?)
  {
    if xs == [] then Ok([])
    else
      assert forall i :: 1 <= i < |xs| ==> xs[1..][i - 1] == xs[i];
      match f(xs[0])
      case Err(e) => Err(e)
      case Ok(y) =>
        match Collect(f, xs[1..])
        case Err(e) =>
          ghost var i :| 0 <= i < |xs[1..]| && f(xs[1..][i]) == Err(e) &&
            forall j :: 0 <= j < i ==> f(xs[1..][j]).Ok?;
          assert f(xs[i + 1]) == Err(e);
          Err(e)
        case Ok(ys) => Ok([y] + ys)
  }

  /** `all(test(x) for x in xs)`: the tests in order, stopping at the first that is false or raises. */
  function AllTrue<A, E>(test: A -> Result<bool, E>, xs: seq<A>): (r: Result<bool, E>)
    ensures r == Ok(true) <==> forall i :: 0 <= i < |xs| ==> test(xs[i]) == Ok(true)
    ensures r.Ok? && !r.value ==> exists i :: (0 <= i < |xs| && test(xs[i]) == Ok(false) &&
      forall j :: 0 <= j < i ==> test(xs[j]) == Ok(true))
    ensures r.Err? ==> exists i :: (0 <= i < |xs| && test(xs[i]) == Err(r.error) &&
      forall j :: 0 <= j < i ==> test(xs[j]) == Ok(true))
  {
    if xs == [] then Ok(true)
    else
      assert forall i :: 1 <= i < |xs| ==> xs[1..][i - 1] == xs[i];
      match test(xs[0])
      case Err(e) => Err(e)
      case Ok(false) => Ok(false)
      case Ok(true) =>
        var rest := AllTrue(test, xs[1..]);
        if rest.Ok? && !rest.value then
          ghost var i :| 0 <= i < |xs[1..]| && test(xs[1..][i]) == Ok(false) &&
            forall j :: 0 <= j < i ==> test(xs[1..][j]) == Ok(true);
          assert test(xs[i + 1]) == Ok(false);
          rest
        else if rest.Err? then
          ghost var i :| 0 <= i < |xs[1..]| && test(xs[1..][i]) == Err(rest.error) &&
            forall j :: 0 <= j < i ==> test(xs[1..][j]) == Ok(true);
          assert test(xs[i + 1]) == Err(rest.error);
          rest
        else rest
  }

  /** Reference filter: the elements whose test is `Ok(true)`, in their original order. */
  function Survivors<A, E>(test: A -> Result<bool, E>, xs: seq<A>): seq<A>
  {
    if xs == [] then []
    else (if test(xs[0]) == Ok(true) then [xs[0]] else []) + Survivors(test, xs[1..])
  }

  /** The elements a test accepts, in their original order; the first error escapes. */
  function Retain<A(!new), E>(test: A -> Result<bool, E>, xs: seq<A>): (r: Result<seq<A>, E>)
    ensures r.Ok? <==> forall i :: 0 <= i < |xs| ==> test(xs[i]).Ok?
    ensures r.Ok? ==> forall x :: x in r.value <==> x in xs && test(x) == Ok(true)
    ensures r.Ok? ==> |r.value| <= |xs|
    ensures (forall i :: 0 <= i < |xs| ==> test(xs[i]) == Ok(true)) ==> r == Ok(xs)
    ensures r.Ok? ==> r.value == Survivors(test, xs)
  {
    if xs == [] then Ok([])
    else
      assert forall x :: x in xs <==> x == xs[0] || x in xs[1..];
      assert forall i :: 1 <= i < |xs| ==> xs[1..][i - 1] == xs[i];
      match test(xs[0])
      case Err(e) => Err(e)
      case Ok(keep) =>
        match Retain(test, xs[1..])
        case Err(e) => Err(e)
        case Ok(rest) =>
          assert keep && rest == xs[1..] ==> [xs[0]] + rest == xs;
          Ok(if keep then [xs[0]] + rest else rest)
  }

  /** When every element maps to the matching output, the comprehension yields exactly that output. */
  lemma CollectIs<A, B, E>(f: A -> Result<B, E>, xs: seq<A>, out: seq<B>)
    requires |out| == |xs| && forall i :: 0 <= i < |xs| ==> f(xs[i]) == Ok(out[i])
    ensures Collect(f, xs) == Ok(out)
  {
    var r := Collect(f, xs).value;
    assert forall i :: 0 <= i < |xs| ==> r[i] == out[i];
    assert r == out;
  }

  /** The comprehension raises the error of the first element whose step fails. */
  lemma {:induction false} CollectFails<A, B, E>(f: A -> Result<B, E>, xs: seq<A>, i: nat)
    requires i < |xs| && f(xs[i]).Err?
    requires forall j :: 0 <= j < i ==> f(xs[j]).Ok?
    ensures Collect(f, xs) == Err(f(xs[i]).error)
  {
    if i > 0 {
      assert forall j :: 0 <= j < i - 1 ==> xs[1..][j] == xs[j + 1];
      CollectFails(f, xs[1..], i - 1);
    }
  }

  /** Putting one accepted element in front of a list puts it in front of the survivors. */
  lemma SurvivorsCons<A, E>(test: A -> Result<bool, E>, x: A, xs: seq<A>)
    ensures Survivors(test, [x] + xs) == (if test(x) == Ok(true) then [x] else []) + Survivors(test, xs)
  {
    assert ([x] + xs)[0] == x && ([x] + xs)[1..] == xs;
  }

  /** Filtering a concatenation filters each part and keeps them in order. */
  lemma {:induction false} SurvivorsAppend<A, E>(test: A -> Result<bool, E>, a: seq<A>, b: seq<A>)
    ensures Survivors(test, a + b) == Survivors(test, a) + Survivors(test, b)
  {
    if a == [] {
      assert a + b == b;
    } else {
      var x, rest := a[0], a[1..];
      var head := if test(x) == Ok(true) then [x] else [];
      assert a == [x] + rest && a + b == [x] + (rest + b);
      SurvivorsAppend(test, rest, b);
      SurvivorsCons(test, x, rest + b);
      SurvivorsCons(test, x, rest);
      calc {
        Survivors(test, a + b);
        head + Survivors(test, rest + b);
        head + (Survivors(test, rest) + Survivors(test, b));
        (head + Survivors(test, rest)) + Survivors(test, b);
        Survivors(test, a) + Survivors(test, b);
      }
    }
  }

  /**
   * Retaining works element by element: the result for `a + b` is the result for `a`
   * followed by the result for `b`, so order and multiplicity are kept.
   */
  lemma RetainAppend<A(!new), E>(test: A -> Result<bool, E>, a: seq<A>, b: seq<A>)
    requires Retain(test, a).Ok? && Retain(test, b).Ok?
    ensures Retain(test, a + b) == Ok(Retain(test, a).value + Retain(test, b).value)
  {
    assert forall i :: 0 <= i < |a + b| ==> test((a + b)[i]).Ok? by {
      forall i | 0 <= i < |a + b| ensures test((a + b)[i]).Ok? {
        if i < |a| { assert (a + b)[i] == a[i]; } else { assert (a + b)[i] == b[i - |a|]; }
      }
    }
    SurvivorsAppend(test, a, b);
  }
}
