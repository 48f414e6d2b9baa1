/**
 * The list-processing steps of `list_experiments` and `get_experiment`
 * (sake.py): compile every filter, keep the runs every filter accepts, sort
 * them by a resolved field or by creation time, and find one run by a
 * prefix of its id.
 */
module Pipeline {
  import opened Wrappers
  import opened Sequences
  import opened Text
  import opened Values
  import opened Runs
  import opened FieldResolver
  import opened FilterCompiler
  import opened FilterEval

  /** `[compile_filter(f) for f in texts]`: every filter compiled, or the first text's error. */
  function CompileAll(texts: seq<string>): (r: Result<seq<Filter>, Error>)
    ensures r.Ok? <==> forall i :: 0 <= i < |texts| ==> Compile(texts[i]).Ok?
    ensures r.Ok? ==> |r.value| == |texts| && forall i :: 0 <= i < |texts| ==> Compile(texts[i]) == Ok(r.value[i])
    ensures r.Err? ==> exists i :: (0 <= i < |texts| && Compile(texts[i]) == Err(r.error) &&
      forall j :: 0 <= j < i ==> Compile(texts[j]).Ok?)
  {
    Collect(Compile, texts)
  }

  /**
   * `all(filter(expe) for filter in filters)`: the filters in order, stopping
   * at the first that is false or raises.
   */
  function AllPass(filters: seq<Filter>, run: Run, conv: Coercions): (r: Result<bool, Error>)
    ensures r == Ok(true) <==> forall i :: 0 <= i < |filters| ==> Eval(filters[i], run, conv) == Ok(true)
    ensures r.Ok? && !r.value ==> exists i :: (0 <= i < |filters| && Eval(filters[i], run, conv) == Ok(false) &&
      forall j :: 0 <= j < i ==> Eval(filters[j], run, conv) == Ok(true))
    ensures r.Err? ==> exists i :: (0 <= i < |filters| && Eval(filters[i], run, conv) == Err(r.error) &&
      forall j :: 0 <= j < i ==> Eval(filters[j], run, conv) == Ok(true))
  {
    AllTrue(f => Eval(f, run, conv), filters)
  }

  /** The per-run test of the comprehension: does every filter accept this run? */
  function Accepts(filters: seq<Filter>, conv: Coercions): Run -> Result<bool, Error> {
    x => AllPass(filters, x, conv)
  }

  /** The runs every filter accepts, in their original order; the first error escapes. */
  function FilterRuns(runs: seq<Run>, filters: seq<Filter>, conv: Coercions): (r: Result<seq<Run>, Error>)
    ensures r.Ok? <==> forall i :: 0 <= i < |runs| ==> AllPass(filters, runs[i], conv).Ok?
    ensures r.Ok? ==> forall x :: x in r.value <==> x in runs && AllPass(filters, x, conv) == Ok(true)
    ensures r.Ok? ==> |r.value| <= |runs|
    ensures filters == [] ==> r == Ok(runs)
  {
    Retain(Accepts(filters, conv), runs)
  }

  /** One run on its own is kept exactly when every filter accepts it. */
  lemma FilterRunsOne(run: Run, filters: seq<Filter>, conv: Coercions)
    requires AllPass(filters, run, conv).Ok?
    ensures FilterRuns([run], filters, conv) == Ok(if AllPass(filters, run, conv).value then [run] else [])
  {
    assert [run][0] == run && [run][1..] == [];
  }

  /**
   * Filtering works run by run: filtering `a + b` gives the runs kept from `a`
   * followed by those kept from `b`, so order and repetitions are preserved.
   */
  lemma FilterRunsAppend(a: seq<Run>, b: seq<Run>, filters: seq<Filter>, conv: Coercions)
    requires FilterRuns(a, filters, conv).Ok? && FilterRuns(b, filters, conv).Ok?
    ensures FilterRuns(a + b, filters, conv) ==
      Ok(FilterRuns(a, filters, conv).value + FilterRuns(b, filters, conv).value)
  {
    RetainAppend(Accepts(filters, conv), a, b);
  }

  /**
   * The sort key: `get_field(sort, 0.0)` when a sort field is given, the
   * creation time otherwise.
   */
  function SortKey(run: Run, sort: Option<string>): Result<Value, Error> {
    match sort
    case None => Ok(VTime(run.created))
    case Some(field) => ResolveField(run, field, VFloat(0.0))
  }

  /** Python computes every key, in order, before it compares any. */
  function Keys(runs: seq<Run>, sort: Option<string>): (r: Result<seq<Value>, Error>)
    ensures r.Ok? ==> |r.value| == |runs| && forall i :: 0 <= i < |runs| ==> SortKey(runs[i], sort) == Ok(r.value[i])
    ensures r.Ok? <==> forall i :: 0 <= i < |runs| ==> SortKey(runs[i], sort).Ok?
  {
    if runs == [] then Ok([])
    else
      assert forall i :: 1 <= i < |runs| ==> runs[1..][i - 1] == runs[i];
      match SortKey(runs[0], sort)
      case Err(e) => Err(e)
      case Ok(k) =>
        match Keys(runs[1..], sort)
        case Err(e) => Err(e)
        case Ok(ks) => Ok([k] + ks)
  }

  /** Every two keys can be compared with `<`. */
  predicate AllComparable(keys: seq<Value>) {
    forall i, j :: 0 <= i < |keys| && 0 <= j < |keys| ==> Comparable(keys[i], keys[j])
  }

  /**
   * The order a stable sort leaves two entries in: by key, and by original
   * position when neither key is smaller.
   */
  predicate Before(keys: seq<Value>, i: nat, j: nat)
    requires i < |keys| && j < |keys|
  {
    Less(keys[i], keys[j]) == Some(true) || (Less(keys[j], keys[i]) != Some(true) && i < j)
  }

  /** `order` lists positions of `keys`, each before every later one. */
  predicate InOrder(keys: seq<Value>, order: seq<nat>) {
    && (forall a :: 0 <= a < |order| ==> order[a] < |keys|)
    && (forall a, b :: 0 <= a < b < |order| ==> Before(keys, order[a], order[b]))
  }

  lemma BeforeIrreflexive(keys: seq<Value>, i: nat)
    requires i < |keys|
    ensures !Before(keys, i, i)
  {
    if KindOf(keys[i]) != Unordered {
      LessIrreflexive(keys[i]);
    }
  }

  lemma BeforeTransitive(keys: seq<Value>, i: nat, j: nat, k: nat)
    requires i < |keys| && j < |keys| && k < |keys| && AllComparable(keys)
    requires Before(keys, i, j) && Before(keys, j, k)
    ensures Before(keys, i, k)
  {
    var a, b, c := keys[i], keys[j], keys[k];
    assert Comparable(a, b) && Comparable(b, c) && Comparable(c, b) && Comparable(b, a);
    if Less(a, b) == Some(true) {
      if Less(b, c) == Some(true) {
        LessAsymmetric(b, c);
      }
      LessThenNotLess(a, b, c);
    } else if Less(b, c) == Some(true) {
      NotLessThenLess(a, b, c);
    } else {
      NotLessTransitive(a, b, c);
    }
  }

  lemma BeforeTotal(keys: seq<Value>, i: nat, j: nat)
    requires i < |keys| && j < |keys| && i != j
    ensures Before(keys, i, j) || Before(keys, j, i)
  {
  }

  /** Insertion after every entry that is not after `x`: where a stable sort puts the newest entry. */
  function Insert(keys: seq<Value>, x: nat, order: seq<nat>): (r: seq<nat>)
    requires x < |keys| && forall a :: 0 <= a < |order| ==> order[a] < |keys|
    ensures |r| == |order| + 1
    ensures forall a :: 0 <= a < |r| ==> r[a] == x || r[a] in order
    ensures multiset(r) == multiset(order) + multiset{x}
  {
    if order == [] then [x]
    else if Before(keys, x, order[0]) then [x] + order
    else
      assert order == [order[0]] + order[1..];
      [order[0]] + Insert(keys, x, order[1..])
  }

  lemma InOrderTail(keys: seq<Value>, order: seq<nat>)
    requires order != [] && InOrder(keys, order)
    ensures InOrder(keys, order[1..])
  {
    var rest := order[1..];
    forall a, b | 0 <= a < b < |rest| ensures Before(keys, rest[a], rest[b]) {
      assert rest[a] == order[a + 1] && rest[b] == order[b + 1];
    }
  }

  /** Putting `x` in front of entries it comes before keeps the order. */
  lemma InOrderCons(keys: seq<Value>, x: nat, order: seq<nat>)
    requires x < |keys| && InOrder(keys, order)
    requires forall b :: 0 <= b < |order| ==> Before(keys, x, order[b])
    ensures InOrder(keys, [x] + order)
  {
    var r := [x] + order;
    forall a, b | 0 <= a < b < |r| ensures Before(keys, r[a], r[b]) {
      if a > 0 {
        assert r[a] == order[a - 1] && r[b] == order[b - 1];
      } else {
        assert r[b] == order[b - 1];
      }
    }
  }

  lemma {:induction false} InsertInOrder(keys: seq<Value>, x: nat, order: seq<nat>)
    requires x < |keys| && AllComparable(keys) && InOrder(keys, order) && x !in order
    ensures InOrder(keys, Insert(keys, x, order))
  {
    if order == [] {
    } else if Before(keys, x, order[0]) {
      forall b | 0 <= b < |order| ensures Before(keys, x, order[b]) {
        if b > 0 {
          BeforeTransitive(keys, x, order[0], order[b]);
        }
      }
      InOrderCons(keys, x, order);
    } else {
      var rest := order[1..];
      InOrderTail(keys, order);
      InsertInOrder(keys, x, rest);
      var tail := Insert(keys, x, rest);
      BeforeTotal(keys, x, order[0]);
      forall b | 0 <= b < |tail| ensures Before(keys, order[0], tail[b]) {
        assert tail[b] in multiset(tail);
        if tail[b] != x {
          assert tail[b] in multiset(rest);
          var c :| 0 <= c < |rest| && rest[c] == tail[b];
          assert rest[c] == order[c + 1];
        }
      }
      InOrderCons(keys, order[0], tail);
    }
  }

  /**
   * The order `sorted` leaves the entries in: each position in turn is
   * inserted after every earlier entry that does not come after it.
   */
  function SortOrder(keys: seq<Value>, n: nat): (order: seq<nat>)
    requires n <= |keys|
    ensures |order| == n && forall a :: 0 <= a < n ==> order[a] < n
  {
    if n == 0 then [] else Insert(keys, n - 1, SortOrder(keys, n - 1))
  }

  /** Every position exactly once. */
  lemma {:induction false} SortOrderPermutes(keys: seq<Value>, n: nat)
    requires n <= |keys|
    ensures multiset(SortOrder(keys, n)) == multiset(Range(n))
  {
    if n > 0 {
      SortOrderPermutes(keys, n - 1);
      RangeStep(n);
    }
  }

  /** By key and, among equal keys, by original position. */
  lemma {:induction false} SortOrderSorts(keys: seq<Value>, n: nat)
    requires n <= |keys| && (|keys| <= 1 || AllComparable(keys))
    ensures InOrder(keys, SortOrder(keys, n))
  {
    if n == 1 {
      assert SortOrder(keys, n) == [0];
    } else if n > 1 {
      SortOrderSorts(keys, n - 1);
      SortOrderStep(keys, n);
    }
  }

  lemma SortOrderStep(keys: seq<Value>, n: nat)
    requires 2 <= n <= |keys| && AllComparable(keys) && InOrder(keys, SortOrder(keys, n - 1))
    ensures InOrder(keys, SortOrder(keys, n))
  {
    InsertInOrder(keys, n - 1, SortOrder(keys, n - 1));
  }

  /** What `Before` says about two keys, read back as comparisons. */
  lemma BeforeMeans(keys: seq<Value>, i: nat, j: nat)
    requires i < |keys| && j < |keys| && Before(keys, i, j)
    ensures Less(keys[j], keys[i]) != Some(true)
    ensures Less(keys[i], keys[j]) != Some(true) ==> i < j
  {
    if Less(keys[i], keys[j]) == Some(true) {
      LessAsymmetric(keys[i], keys[j]);
    }
  }

  /**
   * The sorting order read as the source promises it: a permutation of the
   * positions in which no key is less than an earlier one, and equal keys
   * keep their original order.
   */
  lemma SortOrderStable(keys: seq<Value>)
    requires |keys| <= 1 || AllComparable(keys)
    ensures var order := SortOrder(keys, |keys|);
      && multiset(order) == multiset(Range(|keys|))
      && (forall a, b :: 0 <= a < b < |keys| ==>
            Less(keys[order[b]], keys[order[a]]) != Some(true) &&
            (Less(keys[order[a]], keys[order[b]]) != Some(true) ==> order[a] < order[b]))
  {
    var order := SortOrder(keys, |keys|);
    SortOrderPermutes(keys, |keys|);
    SortOrderSorts(keys, |keys|);
    forall a, b | 0 <= a < b < |keys|
      ensures Less(keys[order[b]], keys[order[a]]) != Some(true)
      ensures Less(keys[order[a]], keys[order[b]]) != Some(true) ==> order[a] < order[b]
    {
      BeforeMeans(keys, order[a], order[b]);
    }
  }

  lemma RangeStep(n: nat)
    requires n > 0
    ensures multiset(Range(n)) == multiset(Range(n - 1)) + multiset{(n - 1) as nat}
    ensures n - 1 !in multiset(Range(n - 1))
  {
    assert Range(n) == Range(n - 1) + [n - 1];
  }

  /** `[0, 1, ..., n - 1]`. */
  function Range(n: nat): (r: seq<nat>)
    ensures |r| == n && forall a :: 0 <= a < n ==> r[a] == a
  {
    if n == 0 then [] else Range(n - 1) + [n - 1]
  }

  /**
   * `sorted(runs, key=...)`: the runs in key order, stably; a key error
   * escapes, and keys that cannot all be compared raise `TypeError` (a
   * comparison sort must compare every two neighbours of its output, so two
   * or more keys of which some pair is incomparable always raise).
   */
  function SortRuns(runs: seq<Run>, sort: Option<string>): (r: Result<seq<Run>, Error>)
    ensures Keys(runs, sort).Err? ==> r == Err(Keys(runs, sort).error)
    ensures Keys(runs, sort).Ok? ==>
      (r == Err(UnorderedKeys) <==> |runs| >= 2 && !AllComparable(Keys(runs, sort).value))
    ensures r.Ok? ==> |r.value| == |runs|
  {
    match Keys(runs, sort)
    case Err(e) => Err(e)
    case Ok(keys) =>
      if |keys| >= 2 && !AllComparable(keys) then Err(UnorderedKeys)
      else
        Ok(Permute(runs, SortOrder(keys, |keys|)))
  }

  /**
   * The sorted runs are the runs read through a permutation of their
   * positions; they come in key order, and runs whose keys are equal keep
   * their original relative order.
   */
  lemma SortRunsOrdered(runs: seq<Run>, sort: Option<string>)
    requires SortRuns(runs, sort).Ok?
    ensures var keys := Keys(runs, sort).value;
      var order := SortOrder(keys, |keys|);
      && multiset(order) == multiset(Range(|runs|))
      && (forall a :: 0 <= a < |runs| ==> SortRuns(runs, sort).value[a] == runs[order[a]])
      && (forall a, b :: 0 <= a < b < |runs| ==>
            Less(keys[order[b]], keys[order[a]]) != Some(true) &&
            (Less(keys[order[a]], keys[order[b]]) != Some(true) ==> order[a] < order[b]))
  {
    var keys := Keys(runs, sort).value;
    assert |keys| == |runs|;
    assert SortRuns(runs, sort).value == Permute(runs, SortOrder(keys, |keys|)) by {
      assert |keys| <= 1 || AllComparable(keys);
    }
    PermutedInKeyOrder(runs, keys, SortRuns(runs, sort).value);
  }

  /** `SortRunsOrdered` for given keys, away from how the keys are computed. */
  lemma PermutedInKeyOrder(runs: seq<Run>, keys: seq<Value>, sorted: seq<Run>)
    requires |keys| == |runs| && (|keys| <= 1 || AllComparable(keys))
    requires sorted == Permute(runs, SortOrder(keys, |keys|))
    ensures var order := SortOrder(keys, |keys|);
      && multiset(order) == multiset(Range(|runs|))
      && (forall a :: 0 <= a < |runs| ==> sorted[a] == runs[order[a]])
      && (forall a, b :: 0 <= a < b < |runs| ==>
            Less(keys[order[b]], keys[order[a]]) != Some(true) &&
            (Less(keys[order[a]], keys[order[b]]) != Some(true) ==> order[a] < order[b]))
  {
    SortOrderStable(keys);
  }

  /** `[s[i] for i in order]`. */
  function Permute<T>(s: seq<T>, order: seq<nat>): (r: seq<T>)
    requires forall a :: 0 <= a < |order| ==> order[a] < |s|
    ensures |r| == |order| && forall a :: 0 <= a < |order| ==> r[a] == s[order[a]]
  {
    seq(|order|, a requires 0 <= a < |order| => s[order[a]])
  }

  /** Sorting neither loses nor invents a run. */
  lemma SortedSameRuns(runs: seq<Run>, sort: Option<string>)
    requires SortRuns(runs, sort).Ok?
    ensures forall x :: x in SortRuns(runs, sort).value <==> x in runs
  {
    var keys := Keys(runs, sort).value;
    SortRunsOrdered(runs, sort);
    SameElements(runs, SortOrder(keys, |keys|), SortRuns(runs, sort).value);
  }

  /** A sequence read through a permutation of positions holds the same elements. */
  lemma SameElements<T>(s: seq<T>, order: seq<nat>, out: seq<T>)
    requires |order| == |s| == |out| && multiset(order) == multiset(Range(|s|))
    requires forall a :: 0 <= a < |s| ==> order[a] < |s| && out[a] == s[order[a]]
    ensures forall x :: x in out <==> x in s
  {
    forall x | x in s ensures x in out {
      var j :| 0 <= j < |s| && s[j] == x;
      assert Range(|s|)[j] == j;
      assert j in multiset(order);
      var i :| 0 <= i < |order| && order[i] == j;
      assert out[i] == x;
    }
  }

  /** Sorting by creation time never raises: timestamps always compare. */
  lemma ByCreatedNeverFails(runs: seq<Run>)
    ensures SortRuns(runs, None).Ok?
  {
    var keys := Keys(runs, None).value;
    assert forall i :: 0 <= i < |keys| ==> keys[i].VTime?;
  }

  /**
   * The filter and sort part of `list_experiments`: compile every filter,
   * keep the runs all of them accept, then sort.
   */
  function ListRuns(runs: seq<Run>, texts: seq<string>, sort: Option<string>, conv: Coercions): Result<seq<Run>, Error> {
    match CompileAll(texts)
    case Err(e) => Err(e)
    case Ok(filters) =>
      match FilterRuns(runs, filters, conv)
      case Err(e) => Err(e)
      case Ok(kept) => SortRuns(kept, sort)
  }

  /**
   * Listing with neither filter nor sort field shows every run, reordered by
   * creation time; with filters, a run is listed exactly when all accept it.
   */
  lemma ListRunsKeeps(runs: seq<Run>, texts: seq<string>, sort: Option<string>, conv: Coercions)
    ensures texts == [] && sort.None? ==> (ListRuns(runs, texts, sort, conv).Ok? &&
      |ListRuns(runs, texts, sort, conv).value| == |runs| &&
      forall x :: x in ListRuns(runs, texts, sort, conv).value <==> x in runs)
    ensures ListRuns(runs, texts, sort, conv).Ok? ==>
      forall x :: x in ListRuns(runs, texts, sort, conv).value <==>
        x in runs && AllPass(CompileAll(texts).value, x, conv) == Ok(true)
  {
    if CompileAll(texts).Ok? && FilterRuns(runs, CompileAll(texts).value, conv).Ok? {
      var kept := FilterRuns(runs, CompileAll(texts).value, conv).value;
      ByCreatedNeverFails(kept);
      if SortRuns(kept, sort).Ok? {
        SortedSameRuns(kept, sort);
      }
    }
  }

  /** The file names that start with `partial`, in listing order. */
  function Matches(names: seq<string>, partial: string): (r: seq<string>)
    ensures forall x :: x in r <==> x in names && StartsWith(x, partial)
  {
    if names == [] then []
    else
      assert forall x :: x in names <==> x == names[0] || x in names[1..];
      (if StartsWith(names[0], partial) then [names[0]] else []) + Matches(names[1..], partial)
  }

  /**
   * `get_experiment(partial)`: the one file whose name starts with `partial`;
   * no match is a `KeyError`, two or more an error that gives their number.
   */
  function FindRun(names: seq<string>, partial: string): (r: Result<string, Error>)
    ensures r.Ok? ==> r.value in names && StartsWith(r.value, partial)
    ensures r == Err(NotFound(partial)) <==> forall x :: x in names ==> !StartsWith(x, partial)
    ensures r.Err? ==> r == Err(NotFound(partial)) || r == Err(Ambiguous(|Matches(names, partial)|, partial))
  {
    var found := Matches(names, partial);
    assert |found| > 0 ==> found[0] in found;
    if |found| >= 2 then Err(Ambiguous(|found|, partial))
    else if |found| == 0 then Err(NotFound(partial))
    else Ok(found[0])
  }

  /** A lookup succeeds exactly when one listed name has the prefix, and then names that one. */
  lemma FindRunUnique(names: seq<string>, partial: string, i: nat)
    requires i < |names| && StartsWith(names[i], partial)
    ensures FindRun(names, partial) == Ok(names[i]) <==>
      forall j :: 0 <= j < |names| && StartsWith(names[j], partial) ==> j == i
  {
    var found := Matches(names, partial);
    if forall j :: 0 <= j < |names| && StartsWith(names[j], partial) ==> j == i {
      MatchesCount(names, partial);
    } else {
      var j :| 0 <= j < |names| && StartsWith(names[j], partial) && j != i;
      MatchesTwo(names, partial, i, j);
    }
  }

  lemma {:induction false} MatchesCount(names: seq<string>, partial: string)
    ensures |Matches(names, partial)| <= |names|
    ensures (forall j :: 0 <= j < |names| ==> !StartsWith(names[j], partial)) ==> Matches(names, partial) == []
    ensures forall i :: (0 <= i < |names| && StartsWith(names[i], partial) &&
      (forall j :: 0 <= j < |names| && StartsWith(names[j], partial) ==> j == i)) ==>
      Matches(names, partial) == [names[i]]
  {
    if names != [] {
      MatchesCount(names[1..], partial);
      forall i | 0 <= i < |names| && StartsWith(names[i], partial) &&
        (forall j :: 0 <= j < |names| && StartsWith(names[j], partial) ==> j == i)
        ensures Matches(names, partial) == [names[i]]
      {
        if i == 0 {
          assert forall j :: 0 <= j < |names[1..]| ==> !StartsWith(names[1..][j], partial) by {
            forall j | 0 <= j < |names[1..]| ensures !StartsWith(names[1..][j], partial) {
              assert names[1..][j] == names[j + 1];
            }
          }
        } else {
          assert names[1..][i - 1] == names[i];
          forall j | 0 <= j < |names[1..]| && StartsWith(names[1..][j], partial) ensures j == i - 1 {
            assert names[1..][j] == names[j + 1];
          }
        }
      }
    }
  }

  lemma {:induction false} MatchesTwo(names: seq<string>, partial: string, i: nat, j: nat)
    requires i < |names| && j < |names| && i != j
    requires StartsWith(names[i], partial) && StartsWith(names[j], partial)
    ensures |Matches(names, partial)| >= 2
  {
    if i > 0 && j > 0 {
      assert names[1..][i - 1] == names[i] && names[1..][j - 1] == names[j];
      MatchesTwo(names[1..], partial, i - 1, j - 1);
    } else {
      var k := if i == 0 then j else i;
      assert names[1..][k - 1] == names[k];
      assert names[k] in Matches(names[1..], partial);
    }
  }
}
