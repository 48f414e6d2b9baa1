/**
 * The Rust port of the inspector (src/main.rs): a field lookup over the raw
 * JSON record, `--filter field=value` parsing, the string view of a JSON
 * value that filters compare against, and the error messages it prints.
 */
module RustSake {
  import opened Wrappers
  import opened Text
  import opened Sequences

  /** A `serde_json::Value`; an object is an association list with distinct keys. */
  datatype Json =
    | Null
    | Bool(b: bool)
    | Number(n: real)
    | Str(s: string)
    | Array(items: seq<Json>)
    | Object(fields: seq<(string, Json)>)

  datatype Checkpoint = Checkpoint(id: string, metrics: Json)

  /** The fields of an experiment record that the query code reads. */
  datatype Experiment = Experiment(id: string, params: Json, checkpoints: Option<seq<Checkpoint>>)

  /**
   * The errors of the tool. The payload of the first three is the message of
   * the underlying I/O, YAML or JSON error.
   */
  datatype SakeError =
    | IOError(message: string)
    | YAMLError(message: string)
    | JSONError(message: string)
    | InvalidRepository(message: string)

  /** The `Display` text of an error: a label for its kind, then its message. */
  function Display(e: SakeError): (r: string)
    ensures StartsWith(r, Label(e)) && r[|Label(e)|..] == e.message
  {
    Label(e) + e.message
  }

  function Label(e: SakeError): string {
    match e
    case IOError(_) => "io error: "
    case YAMLError(_) => "yaml error: "
    case JSONError(_) => "json error: "
    case InvalidRepository(_) => "invalid repository: "
  }

  /** No two errors print the same text: the labels tell the kinds apart. */
  lemma DisplayInjective(a: SakeError, b: SakeError)
    ensures Display(a) == Display(b) ==> a == b
  {
    if Display(a) == Display(b) {
      var s := Display(a);
      assert s[0] == Label(a)[0] == Label(b)[0] && s[1] == Label(a)[1] == Label(b)[1];
      assert Label(a) == Label(b);
      assert a.message == s[|Label(a)|..] == b.message;
    }
  }

  /** The value under `key` in an object's entries, if any (`Map::get`). */
  function Lookup(fields: seq<(string, Json)>, key: string): (r: Option<Json>)
    ensures r.Some? <==> exists i :: 0 <= i < |fields| && fields[i].0 == key
    ensures r.Some? ==> (key, r.value) in fields
  {
    if fields == [] then None
    else if fields[0].0 == key then Some(fields[0].1)
    else Lookup(fields[1..], key)
  }

  /** `value.as_object()` followed by a lookup: nothing when the value is not an object. */
  function InObject(v: Json, key: string): Option<Json> {
    if v.Object? then Lookup(v.fields, key) else None
  }

  /** The metric `key` of the first checkpoint, in order, whose metrics object holds it. */
  function FirstMetric(cps: seq<Checkpoint>, key: string): (r: Option<Json>)
    ensures r.None? <==> forall j :: 0 <= j < |cps| ==> InObject(cps[j].metrics, key).None?
    ensures r.Some? ==> exists j :: (0 <= j < |cps| && r == InObject(cps[j].metrics, key) &&
      forall i :: 0 <= i < j ==> InObject(cps[i].metrics, key).None?)
  {
    if cps == [] then None
    else
      assert forall j :: 1 <= j < |cps| ==> cps[1..][j - 1] == cps[j];
      match InObject(cps[0].metrics, key)
      case Some(v) => Some(v)
      case None =>
        var rest := FirstMetric(cps[1..], key);
        if rest.Some? then
          ghost var j :| 0 <= j < |cps[1..]| && rest == InObject(cps[1..][j].metrics, key) &&
            forall i :: 0 <= i < j ==> InObject(cps[1..][i].metrics, key).None?;
          assert rest == InObject(cps[j + 1].metrics, key);
          rest
        else rest
  }

  /**
   * `find_field`: the parameter when `params` is an object holding `key`,
   * otherwise the metric of the first checkpoint holding it. There is no
   * best-checkpoint step.
   */
  function FindField(e: Experiment, key: string): (r: Option<Json>)
  {
    if InObject(e.params, key).Some? then InObject(e.params, key)
    else if e.checkpoints.Some? then FirstMetric(e.checkpoints.value, key)
    else None
  }

  /** `find_field` as written: early returns and a loop over the checkpoints. */
  method FindFieldScan(e: Experiment, key: string) returns (r: Option<Json>)
    ensures r == FindField(e, key)
  {
    if e.params.Object? {
      var p := Lookup(e.params.fields, key);
      if p.Some? {
        return p;
      }
    }
    if e.checkpoints.Some? {
      var cps := e.checkpoints.value;
      for i := 0 to |cps|
        invariant forall j :: 0 <= j < i ==> InObject(cps[j].metrics, key).None?
      {
        if cps[i].metrics.Object? {
          var m := Lookup(cps[i].metrics.fields, key);
          if m.Some? {
            return m;
          }
        }
      }
    }
    return None;
  }

  /** A parameter wins over every checkpoint metric of the same name. */
  lemma ParamsFirst(e: Experiment, key: string, v: Json)
    requires e.params.Object? && Lookup(e.params.fields, key) == Some(v)
    ensures FindField(e, key) == Some(v)
  {
  }

  /**
   * Without such a parameter, the first checkpoint whose metrics hold the key
   * supplies the value, whatever the later checkpoints hold.
   */
  lemma {:induction false} FirstHolderWins(e: Experiment, key: string, j: nat)
    requires InObject(e.params, key).None? && e.checkpoints.Some?
    requires j < |e.checkpoints.value| && InObject(e.checkpoints.value[j].metrics, key).Some?
    requires forall i :: 0 <= i < j ==> InObject(e.checkpoints.value[i].metrics, key).None?
    ensures FindField(e, key) == InObject(e.checkpoints.value[j].metrics, key)
  {
    var cps := e.checkpoints.value;
    var r := FirstMetric(cps, key);
    var k :| 0 <= k < |cps| && r == InObject(cps[k].metrics, key) &&
      forall i :: 0 <= i < k ==> InObject(cps[i].metrics, key).None?;
  }

  /** The lookup finds nothing exactly when neither the parameters nor any checkpoint hold the key. */
  lemma FindFieldNoneIff(e: Experiment, key: string)
    ensures FindField(e, key).None? <==>
      InObject(e.params, key).None? &&
      (e.checkpoints.None? || forall j :: 0 <= j < |e.checkpoints.value| ==>
        InObject(e.checkpoints.value[j].metrics, key).None?)
  {
  }

  /** `--filter field=value`: the only filter kind, an exact comparison of strings. */
  datatype Filter = Equal(field: string, value: string)

  /** Rust's `s.split_once(c)`: the text before and after the first `c`. */
  function SplitOnce(s: string, c: char): (r: Option<(string, string)>)
    ensures r.Some? <==> c in s
    ensures r.Some? ==> s == r.value.0 + [c] + r.value.1 && c !in r.value.0
  {
    if s == [] then None
    else if s[0] == c then Some(([], s[1..]))
    else
      match SplitOnce(s[1..], c)
      case None => None
      case Some((a, b)) =>
        assert s == [s[0]] + s[1..];
        Some(([s[0]] + a, b))
  }

  /** A text cut at a first occurrence of `c` is split back into the same two halves. */
  lemma {:induction false} SplitOnceOfJoin(a: string, c: char, b: string)
    requires c !in a
    ensures SplitOnce(a + [c] + b, c) == Some((a, b))
  {
    if a != [] {
      assert (a + [c] + b)[1..] == a[1..] + [c] + b;
      SplitOnceOfJoin(a[1..], c, b);
      assert [a[0]] + a[1..] == a;
    }
  }

  /**
   * `Filter::from_str`: split at the first `=`, with neither side trimmed;
   * text without `=` is an invalid-repository error naming it.
   */
  function ParseFilter(text: string): (r: Result<Filter, SakeError>)
    ensures r.Ok? <==> '=' in text
    ensures r.Ok? ==> text == r.value.field + "=" + r.value.value && '=' !in r.value.field
    ensures r.Err? ==> r.error == InvalidRepository("invalid filter: " + text)
  {
    match SplitOnce(text, '=')
    case Some((field, value)) => Ok(Equal(field, value))
    case None => Err(InvalidRepository("invalid filter: " + text))
  }

  /** Parsing a field without `=`, an `=` and any value gives back exactly that field and value. */
  lemma ParseFilterOfJoin(field: string, value: string)
    requires '=' !in field
    ensures ParseFilter(field + "=" + value) == Ok(Equal(field, value))
  {
    SplitOnceOfJoin(field, '=', value);
  }

  /** There is no `!=` operator: `a!=b` compares the field named `a!` with `b`. */
  lemma BangIsPartOfTheField()
    ensures ParseFilter("a!=b") == Ok(Equal("a!", "b"))
  {
    assert "a!=b" == "a!" + "=" + "b";
    ParseFilterOfJoin("a!", "b");
  }

  /** A malformed filter prints as an invalid repository. */
  lemma BadFilterMessage(text: string)
    requires '=' !in text
    ensures ParseFilter(text).Err?
    ensures Display(ParseFilter(text).error) == "invalid repository: invalid filter: " + text
  {
  }

  /**
   * `value_to_string`: the text a filter value is compared with. Only `null`,
   * `true` and strings have one; numbers, `false`, arrays and objects do not.
   */
  function ValueToString(v: Json): (r: Option<string>)
    ensures r.Some? <==> v.Null? || v == Bool(true) || v.Str?
  {
    match v
    case Null => Some("null")
    case Bool(true) => Some("true")
    case Str(s) => Some(s)
    case _ => None
  }

  /** The values whose text is `s`: the string `s` itself, and `null` or `true` when `s` spells them. */
  lemma ValueToStringInverse(v: Json, s: string)
    ensures ValueToString(v) == Some(s) <==>
      v == Str(s) || (s == "null" && v == Null) || (s == "true" && v == Bool(true))
  {
  }

  /** `Filter::test`: the field is found, has a text, and that text equals the filter value. */
  predicate Test(f: Filter, e: Experiment) {
    match FindField(e, f.field)
    case None => false
    case Some(v) => ValueToString(v) == Some(f.value)
  }

  /** What a filter accepts, in terms of the value the lookup finds. */
  lemma TestIff(f: Filter, e: Experiment)
    ensures Test(f, e) <==>
      FindField(e, f.field) == Some(Str(f.value)) ||
      (f.value == "null" && FindField(e, f.field) == Some(Null)) ||
      (f.value == "true" && FindField(e, f.field) == Some(Bool(true)))
  {
    if FindField(e, f.field).Some? {
      ValueToStringInverse(FindField(e, f.field).value, f.value);
    }
  }

  /** A numeric, `false`, array or object field never matches, whatever the filter value. */
  lemma {:induction false} NonTextNeverMatches(f: Filter, e: Experiment)
    requires FindField(e, f.field).Some?
    requires !(FindField(e, f.field).value.Null? || FindField(e, f.field).value.Str?)
    requires FindField(e, f.field).value != Bool(true)
    ensures !Test(f, e)
  {
    TestIff(f, e);
  }

  /** An experiment passes when every filter accepts it; no filter at all accepts everything. */
  predicate Passes(filters: seq<Filter>, e: Experiment) {
    forall i :: 0 <= i < |filters| ==> Test(filters[i], e)
  }

  /** `Passes` as a function value, the closure handed to `filter`. */
  function PassesAll(filters: seq<Filter>): Experiment -> bool {
    e => Passes(filters, e)
  }

  /** Reference selection: the experiments `keep` accepts, in their original order. */
  function Passing(exps: seq<Experiment>, keep: Experiment -> bool): seq<Experiment> {
    if exps == [] then []
    else (if keep(exps[0]) then [exps[0]] else []) + Passing(exps[1..], keep)
  }

  /** Putting one experiment in front puts it in front of the selection exactly when it is kept. */
  lemma PassingCons(x: Experiment, xs: seq<Experiment>, keep: Experiment -> bool)
    ensures Passing([x] + xs, keep) == (if keep(x) then [x] else []) + Passing(xs, keep)
  {
    assert ([x] + xs)[0] == x && ([x] + xs)[1..] == xs;
  }

  /** The reference selection of a concatenation is the concatenation of the selections. */
  lemma {:induction false} PassingAppend(a: seq<Experiment>, b: seq<Experiment>, keep: Experiment -> bool)
    ensures Passing(a + b, keep) == Passing(a, keep) + Passing(b, keep)
  {
    if a == [] {
      assert a + b == b;
    } else {
      var x, rest := a[0], a[1..];
      var head := if keep(x) then [x] else [];
      assert a == [x] + rest && a + b == [x] + (rest + b);
      PassingAppend(rest, b, keep);
      PassingCons(x, rest + b, keep);
      PassingCons(x, rest, keep);
      calc {
        Passing(a + b, keep);
        head + Passing(rest + b, keep);
        head + (Passing(rest, keep) + Passing(b, keep));
        (head + Passing(rest, keep)) + Passing(b, keep);
        Passing(a, keep) + Passing(b, keep);
      }
    }
  }

  /** The experiments that pass, in their original order (`filter(...).collect()`). */
  function Selected(exps: seq<Experiment>, filters: seq<Filter>): (r: seq<Experiment>)
    ensures forall x :: x in r <==> x in exps && Passes(filters, x)
    ensures |r| <= |exps|
    ensures filters == [] ==> r == exps
    ensures r == Passing(exps, PassesAll(filters))
  {
    if exps == [] then []
    else
      assert forall x :: x in exps <==> x == exps[0] || x in exps[1..];
      var rest := Selected(exps[1..], filters);
      assert filters == [] ==> [exps[0]] + rest == exps;
      (if Passes(filters, exps[0]) then [exps[0]] else []) + rest
  }

  /** Selection distributes over concatenation, so the survivors keep their relative order. */
  lemma SelectedAppend(a: seq<Experiment>, b: seq<Experiment>, filters: seq<Filter>)
    ensures Selected(a + b, filters) == Selected(a, filters) + Selected(b, filters)
  {
    PassingAppend(a, b, PassesAll(filters));
  }

  /**
   * The filter step of `list_experiments`: every `--filter` is parsed first
   * and the first malformed one is the error; otherwise the experiments that
   * pass all filters, in order.
   */
  function ListExperiments(exps: seq<Experiment>, raw: seq<string>): (r: Result<seq<Experiment>, SakeError>)
    ensures r.Ok? <==> forall i :: 0 <= i < |raw| ==> '=' in raw[i]
    ensures r.Err? ==> exists i :: (0 <= i < |raw| && '=' !in raw[i] &&
      r.error == InvalidRepository("invalid filter: " + raw[i]) &&
      forall j :: 0 <= j < i ==> '=' in raw[j])
  {
    match Collect(ParseFilter, raw)
    case Err(e) => Err(e)
    case Ok(filters) => Ok(Selected(exps, filters))
  }

  /**
   * With well-formed filters, an experiment is listed exactly when it is one
   * of the inputs and every filter text, cut at its first `=`, matches it.
   */
  lemma ListExperimentsKeeps(exps: seq<Experiment>, raw: seq<string>, x: Experiment)
    requires forall i :: 0 <= i < |raw| ==> '=' in raw[i]
    ensures ListExperiments(exps, raw).Ok?
    ensures x in ListExperiments(exps, raw).value <==>
      x in exps && forall i :: 0 <= i < |raw| ==> Test(ParseFilter(raw[i]).value, x)
  {
    var filters := Collect(ParseFilter, raw).value;
    assert forall i :: 0 <= i < |raw| ==> ParseFilter(raw[i]).value == filters[i];
  }

  /** Without filters every experiment is listed, in order. */
  lemma NoFilterListsAll(exps: seq<Experiment>)
    ensures ListExperiments(exps, []) == Ok(exps)
  {
  }

  /**
   * The repository location of the configuration: the text after a
   * `file://` prefix; any other scheme is refused with a message naming it.
   */
  function RepositoryLocation(repository: string): (r: Result<string, SakeError>)
    ensures r.Ok? <==> StartsWith(repository, "file://")
    ensures r.Ok? ==> repository == "file://" + r.value
    ensures r.Err? ==>
      r.error == InvalidRepository("invalid repository location: " + repository + ", only file is supported")
  {
    if StartsWith(repository, "file://") then
      assert repository == repository[..7] + repository[7..];
      Ok(repository[7..])
    else Err(InvalidRepository("invalid repository location: " + repository + ", only file is supported"))
  }

  /** Prefixing a path with `file://` and reading it back gives the path. */
  lemma RepositoryLocationOfFile(path: string)
    ensures RepositoryLocation("file://" + path) == Ok(path)
  {
    assert ("file://" + path)[..7] == "file://";
  }
}
