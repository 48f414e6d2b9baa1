/** Worked filter texts: how `compile_filter` reads some typical inputs. */
module FilterExamples {
  import opened Wrappers
  import opened Text
  import opened Runs
  import opened FilterCompiler

  lemma LessEqFacts(s: string)
    requires s == "x<=5"
    ensures !Contains(s, OrToken) && Trigger(s) == Some(Le)
    ensures SplitPair(s, "<=") == Some(("x", "5"))
  {
    AbsentFirstChar(s, OrToken);
    AbsentFirstChar(s, " in ");
    AbsentFirstChar(s, "!=");
    assert OccursAt(s, "<=", 1) && s[..1] == "x" && s[3..] == "5";
    ContainsAt(s, "<=", 1);
    assert Trigger(s) == Some(Le);
    AbsentFirstChar("5", "<=");
    SplitsInTwo(s, "<=", 1);
  }

  /** `"x<=5"` is split at `<=`, not at `<` or `=`. */
  lemma CompileLessEqExample(s: string)
    requires s == "x<=5"
    ensures Compile(s) == Ok(Leaf(Le, "x", "5"))
  {
    LessEqFacts(s);
    StripKeeps("x");
    StripKeeps("5");
    CompileLeaf(s, Le, "x", "5");
  }

  /** Words without spaces around " in " never hold " or ". */
  lemma InHasNoOr(f: string, g: string)
    requires ' ' !in f && ' ' !in g
    ensures !Contains(f + " in " + g, OrToken)
  {
    var s := f + " in " + g;
    forall j: nat | j + |OrToken| <= |s| ensures !OccursAt(s, OrToken, j) {
      var w := s[j..j + |OrToken|];
      assert w[0] == s[j] && w[1] == s[j + 1] && w[3] == s[j + 3];
      if j < |f| {
        assert s[j] == f[j] && f[j] in f;
      } else if j == |f| {
        assert s[j + 1] == 'i';
      } else if j <= |f| + 2 {
        assert s[j] == " in "[j - |f|];
      } else {
        assert s[j + 3] == g[j - |f| - 1] && g[j - |f| - 1] in g;
      }
    }
  }

  /**
   * `"f in g"` with words that hold no space tests whether the field `g`
   * contains `f`: the operands are swapped.
   */
  lemma CompileIn(f: string, g: string)
    requires ' ' !in f && ' ' !in g
    requires f == [] || (!IsSpace(f[0]) && !IsSpace(f[|f| - 1]))
    requires g == [] || (!IsSpace(g[0]) && !IsSpace(g[|g| - 1]))
    ensures Compile(f + " in " + g) == Ok(Leaf(In, g, f))
  {
    var s := f + " in " + g;
    InHasNoOr(f, g);
    assert OccursAt(s, " in ", |f|) && s[..|f|] == f && s[|f| + 4..] == g;
    ContainsAt(s, " in ", |f|);
    AbsentFirstChar(g, " in ");
    SplitsInTwo(s, " in ", |f|);
    StripKeeps(f);
    StripKeeps(g);
    CompileLeaf(s, In, f, g);
  }

  /**
   * `"A or B"` with no space in `A` and no " or " in `B` is the `or` of the
   * two compiled sides, left first.
   */
  lemma CompileOrOfTwo(a: string, b: string)
    requires ' ' !in a && !Contains(b, OrToken)
    requires Compile(a).Ok? && Compile(b).Ok?
    ensures Compile(a + OrToken + b) == Ok(Or(Compile(a).value, Compile(b).value))
  {
    OrOfTwoSplits(a, b);
    CompileOr(a + OrToken + b, a, b);
  }

  lemma OrOfTwoSplits(a: string, b: string)
    requires ' ' !in a && !Contains(b, OrToken)
    ensures Contains(a + OrToken + b, OrToken) && SplitPair(a + OrToken + b, OrToken) == Some((a, b))
  {
    var s := a + OrToken + b;
    assert OccursAt(s, OrToken, |a|) && s[..|a|] == a && s[|a| + |OrToken|..] == b;
    ContainsAt(s, OrToken, |a|);
    SplitsInTwo(s, OrToken, |a|);
  }

  lemma OrChainFacts(a: string, b: string, c: string)
    requires ' ' !in a
    ensures var s := a + OrToken + b + OrToken + c;
      Contains(s, OrToken) && SplitPair(s, OrToken).None?
  {
    var s, rest := a + OrToken + b + OrToken + c, b + OrToken + c;
    assert OccursAt(s, OrToken, |a|) && s[..|a|] == a && s[|a| + |OrToken|..] == rest;
    ContainsAt(s, OrToken, |a|);
    assert OccursAt(rest, OrToken, |b|);
    ContainsAt(rest, OrToken, |b|);
    SplitsInMore(s, OrToken, |a|);
  }

  /**
   * Three alternatives do not nest: whenever the first one has no space, the
   * second " or " makes the unpacking fail, so `A or B or C` is an error.
   */
  lemma OrChainRejected(a: string, b: string, c: string)
    requires ' ' !in a
    ensures Compile(a + OrToken + b + OrToken + c) == Err(WrongArity(a + OrToken + b + OrToken + c, OrToken))
  {
    OrChainFacts(a, b, c);
  }

  lemma DoubleEqualsTrigger(s: string)
    requires s == "a=b=c"
    ensures !Contains(s, OrToken) && Trigger(s) == Some(Eq)
  {
    AbsentFirstChar(s, OrToken);
    AbsentFirstChar(s, " in ");
    AbsentFirstChar(s, "!=");
    AbsentFirstChar(s, "<=");
    AbsentFirstChar(s, ">=");
    AbsentFirstChar(s, "<");
    assert OccursAt(s, "=", 1);
    ContainsAt(s, "=", 1);
    assert Trigger(s) == Some(Eq);
  }

  lemma DoubleEqualsFacts(s: string)
    requires s == "a=b=c"
    ensures !Contains(s, OrToken) && Trigger(s) == Some(Eq) && SplitPair(s, Token(Eq)).None?
  {
    assert Token(Eq) == "=";
    DoubleEqualsTrigger(s);
    assert OccursAt(s, "=", 1) && s[..1] == "a";
    assert s[2..] == "b=c" && OccursAt(s[2..], "=", 1);
    ContainsAt(s[2..], "=", 1);
    SplitsInMore(s, "=", 1);
  }

  /** A second `=` likewise makes the unpacking fail (the token of `Eq` is `=`). */
  lemma DoubleEqualsRejected(s: string)
    requires s == "a=b=c"
    ensures Compile(s) == Err(WrongArity(s, Token(Eq)))
  {
    DoubleEqualsFacts(s);
    CompileWrongArity(s, Eq);
  }
}
