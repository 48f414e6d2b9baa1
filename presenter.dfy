/**
 * Rendering a run's parameters and metrics into a bounded block of lines
 * (`_present`, `_select`, `get_params`, `get_metrics`, sake.py): a row limit
 * that appends a `"..."` line, a width limit that cuts long lines after the
 * field name, a selection of names, and the primary metric listed first.
 */
module Presenter {
  import opened Wrappers
  import opened Sequences
  import opened Text
  import opened Values
  import opened Runs
  import opened BestCheckpoint

  const MaxLength: nat := 60
  const DefaultRows: nat := 5
  /** The row count `show_all` asks for. */
  const AllRows: nat := 10000
  const Ellipsis: string := "..."

  function Min(a: nat, b: nat): nat {
    if a <= b then a else b
  }

  /**
   * `maybe_trim(line)`: a line longer than 60 characters keeps its first
   * `max(57, index of the first ':')` characters followed by `"..."`; with no
   * `':'` in it, `str.index` raises.
   */
  function MaybeTrim(line: string): (r: Result<string, Error>)
    ensures |line| <= MaxLength ==> r == Ok(line)
    ensures |line| > MaxLength ==> (r.Ok? <==> Contains(line, ":"))
    ensures r.Err? ==> r.error == NoColon(line)
  {
    if |line| <= MaxLength then Ok(line)
    else
      match FindFirst(line, ":")
      case None => Err(NoColon(line))
      case Some(c) =>
        var cut := if MaxLength - 3 < c then c else MaxLength - 3;
        Ok(line[..cut] + Ellipsis)
  }

  /**
   * A long line with a ':' is cut to exactly 60 characters when its name (the
   * text before the first ':') fits in 57, and right before the ':' otherwise;
   * the name is never shortened, and the line ends in `"..."`.
   */
  lemma TrimCut(line: string)
    requires |line| > MaxLength && Contains(line, ":")
    ensures var c := FindFirst(line, ":").value;
      var t := MaybeTrim(line).value;
      && |t| == (if c <= MaxLength - 3 then MaxLength else c + |Ellipsis|)
      && StartsWith(t, line[..c])
      && t == line[..|t| - |Ellipsis|] + Ellipsis
  {
  }

  /**
   * The row limit of `_present`: with at least `n` lines, the first `n + 1`
   * of them and a `"..."` line; otherwise every line.
   */
  function RowLimit(values: seq<string>, n: nat): (rows: seq<string>)
    ensures |values| < n ==> rows == values
    ensures |values| >= n ==>
      && |rows| == Min(n + 1, |values|) + 1
      && rows[|rows| - 1] == Ellipsis
      && rows[..|rows| - 1] == values[..|rows| - 1]
  {
    if |values| >= n then values[..Min(n + 1, |values|)] + [Ellipsis] else values
  }

  /** The list comprehension over `maybe_trim`: every line trimmed, or the first line's error. */
  function TrimAll(lines: seq<string>): (r: Result<seq<string>, Error>)
    ensures r.Ok? <==> forall i :: 0 <= i < |lines| ==> MaybeTrim(lines[i]).Ok?
    ensures r.Ok? ==> |r.value| == |lines| && forall i :: 0 <= i < |lines| ==> MaybeTrim(lines[i]) == Ok(r.value[i])
    ensures r.Err? ==> exists i :: (0 <= i < |lines| && MaybeTrim(lines[i]) == Err(r.error) &&
      forall j :: 0 <= j < i ==> MaybeTrim(lines[j]).Ok?)
  {
    Collect(MaybeTrim, lines)
  }

  /** When every line trims to the matching output line, the comprehension yields exactly those lines. */
  lemma TrimAllIs(lines: seq<string>, out: seq<string>)
    requires |out| == |lines| && forall i :: 0 <= i < |lines| ==> MaybeTrim(lines[i]) == Ok(out[i])
    ensures TrimAll(lines) == Ok(out)
  {
    CollectIs(MaybeTrim, lines, out);
  }

  /** The comprehension raises the error of the first line that does not trim. */
  lemma TrimAllFails(lines: seq<string>, i: nat)
    requires i < |lines| && MaybeTrim(lines[i]).Err?
    requires forall j :: 0 <= j < i ==> MaybeTrim(lines[j]).Ok?
    ensures TrimAll(lines) == Err(MaybeTrim(lines[i]).error)
  {
    CollectFails(MaybeTrim, lines, i);
  }

  /**
   * `_present(values, num)` before joining: the limited rows, each trimmed.
   * At most `num + 2` rows (5 + 2 by default); the only failure is a long
   * line without a colon, so input of short lines always presents.
   */
  function PresentLines(values: seq<string>, num: Option<nat>): (r: Result<seq<string>, Error>)
    ensures r.Ok? ==> |r.value| <= num.GetOr(DefaultRows) + 2
    ensures r.Err? ==> r.error.NoColon? && |r.error.line| > MaxLength
    ensures (forall i :: 0 <= i < |values| ==> |values[i]| <= MaxLength) ==> r.Ok?
  {
    var rows := RowLimit(values, num.GetOr(DefaultRows));
    RowLimitBound(values, num.GetOr(DefaultRows));
    assert (forall i :: 0 <= i < |values| ==> |values[i]| <= MaxLength) ==>
      forall i :: 0 <= i < |rows| ==> |rows[i]| <= MaxLength;
    TrimAll(rows)
  }

  /** `_present(values, num)`: the presented lines joined by newlines; it fails only as `PresentLines` does. */
  function PresentText(values: seq<string>, num: Option<nat>): (r: Result<string, Error>)
    ensures r.Ok? <==> PresentLines(values, num).Ok?
    ensures r.Err? ==> r.error.NoColon? && |r.error.line| > MaxLength
  {
    match PresentLines(values, num)
    case Err(e) => Err(e)
    case Ok(lines) => Ok(Join(lines, "\n"))
  }

  /** `_present`, reassigning the list of lines as the source does. */
  method Present(values: seq<string>, num: Option<nat>) returns (r: Result<string, Error>)
    ensures r == PresentText(values, num)
  {
    var n := if num.None? then DefaultRows else num.value;
    var rows := values;
    if |rows| >= n {
      rows := rows[..Min(n + 1, |rows|)] + [Ellipsis];
    }
    assert rows == RowLimit(values, num.GetOr(DefaultRows));
    var trimmed: seq<string> := [];
    for i := 0 to |rows|
      invariant |trimmed| == i
      invariant forall j :: 0 <= j < i ==> MaybeTrim(rows[j]) == Ok(trimmed[j])
    {
      var t := MaybeTrim(rows[i]);
      if t.Err? {
        TrimAllFails(rows, i);
        PresentOf(values, num, rows);
        return Err(t.error);
      }
      trimmed := trimmed + [t.value];
    }
    TrimAllIs(rows, trimmed);
    PresentOf(values, num, rows);
    return Ok(Join(trimmed, "\n"));
  }

  lemma PresentOf(values: seq<string>, num: Option<nat>, rows: seq<string>)
    requires rows == RowLimit(values, num.GetOr(DefaultRows))
    ensures TrimAll(rows).Err? ==> PresentText(values, num) == Err(TrimAll(rows).error)
    ensures TrimAll(rows).Ok? ==> PresentText(values, num) == Ok(Join(TrimAll(rows).value, "\n"))
  {
  }

  /** Rows are capped: never more than `n + 2` of them, and at most `n + 1` of the input's. */
  lemma RowLimitBound(values: seq<string>, n: nat)
    ensures |RowLimit(values, n)| <= n + 2
    ensures |values| >= n ==> Ellipsis in RowLimit(values, n)
    ensures |values| > n + 1 ==> |RowLimit(values, n)| == n + 2
  {
  }

  /**
   * Exactly `n` lines, none of them long, still gain a `"..."` line; presenting
   * that output once more adds a second `"..."`, so presentation is not idempotent.
   */
  lemma ExactCountGainsEllipsis(values: seq<string>, n: nat)
    requires |values| == n
    requires forall i :: 0 <= i < |values| ==> |values[i]| <= MaxLength
    ensures PresentLines(values, Some(n)) == Ok(values + [Ellipsis])
    ensures PresentLines(values + [Ellipsis], Some(n)) == Ok(values + [Ellipsis, Ellipsis])
  {
    var once := values + [Ellipsis];
    assert RowLimit(values, n) == once;
    TrimAllIs(once, once);
    assert RowLimit(once, n) == once + [Ellipsis];
    assert once + [Ellipsis] == values + [Ellipsis, Ellipsis];
    TrimAllIs(once + [Ellipsis], once + [Ellipsis]);
  }

  /** Fewer lines than the limit, none of them long, are presented unchanged. */
  lemma ShortInputUnchanged(values: seq<string>, num: Option<nat>)
    requires |values| < num.GetOr(DefaultRows)
    requires forall i :: 0 <= i < |values| ==> |values[i]| <= MaxLength
    ensures PresentLines(values, num) == Ok(values)
  {
    TrimAllIs(values, values);
  }

  /**
   * A line whose first ':' is within the first 57 characters is trimmed to
   * exactly 60 characters, and trimming it again leaves it as it is.
   */
  lemma TrimSettles(line: string)
    requires |line| > MaxLength && Contains(line, ":") && FindFirst(line, ":").value <= MaxLength - 3
    ensures |MaybeTrim(line).value| == MaxLength
    ensures MaybeTrim(MaybeTrim(line).value) == MaybeTrim(line)
  {
  }

  /**
   * A field name longer than 57 characters is cut just before its ':', so the
   * trimmed line is still too long and has no ':' left: trimming it again raises.
   */
  lemma LongNameLosesColon(name: string, rest: string)
    requires |name| > MaxLength - 3 && |name| + 1 + |rest| > MaxLength
    requires ':' !in name
    ensures MaybeTrim(name + ":" + rest) == Ok(name + Ellipsis)
    ensures MaybeTrim(name + Ellipsis) == Err(NoColon(name + Ellipsis))
  {
    var line := name + ":" + rest;
    assert OccursAt(line, ":", |name|);
    FirstOccurrence(line, ":", |name|);
    assert line[..|name|] == name;
    AbsentFirstChar(name + Ellipsis, ":");
  }

  /** The entries of `items` whose key is one of `names`, in their original order. */
  function Keep(items: Dict, names: seq<string>): (r: Dict)
    ensures |r| <= |items|
  {
    if items == [] then []
    else (if items[0].0 in names then [items[0]] else []) + Keep(items[1..], names)
  }

  /** Nothing is left out exactly when every key is one of `names`. */
  lemma {:induction false} KeepAllIff(items: Dict, names: seq<string>)
    ensures |Keep(items, names)| == |items| <==> forall x :: x in items ==> x.0 in names
  {
    if items != [] {
      KeepAllIff(items[1..], names);
      assert forall x :: x in items <==> x == items[0] || x in items[1..];
    }
  }

  /** The entries of `items` whose key is not one of `names`, in their original order. */
  function Drop(items: Dict, names: seq<string>): Dict {
    if items == [] then []
    else (if items[0].0 !in names then [items[0]] else []) + Drop(items[1..], names)
  }

  /** `Keep` holds exactly the entries with a selected key, `Drop` exactly the others. */
  lemma {:induction false} KeepDropMembers(items: Dict, names: seq<string>)
    ensures forall x :: x in Keep(items, names) <==> x in items && x.0 in names
    ensures forall x :: x in Drop(items, names) <==> x in items && x.0 !in names
  {
    if items != [] {
      KeepDropMembers(items[1..], names);
      assert forall x :: x in items <==> x == items[0] || x in items[1..];
    }
  }

  /** Keeping works entry by entry, so it respects concatenation (order is kept). */
  lemma {:induction false} KeepAppend(a: Dict, b: Dict, names: seq<string>)
    ensures Keep(a + b, names) == Keep(a, names) + Keep(b, names)
  {
    if a == [] {
      assert a + b == b;
    } else {
      var head := if a[0].0 in names then [a[0]] else [];
      calc {
        Keep(a + b, names);
        { assert (a + b)[0] == a[0]; }
        head + Keep((a + b)[1..], names);
        { assert (a + b)[1..] == a[1..] + b; KeepAppend(a[1..], b, names); }
        head + (Keep(a[1..], names) + Keep(b, names));
        (head + Keep(a[1..], names)) + Keep(b, names);
      }
    }
  }

  /** Dropping works entry by entry, so it respects concatenation (order is kept). */
  lemma {:induction false} DropAppend(a: Dict, b: Dict, names: seq<string>)
    ensures Drop(a + b, names) == Drop(a, names) + Drop(b, names)
  {
    if a == [] {
      assert a + b == b;
    } else {
      var head := if a[0].0 !in names then [a[0]] else [];
      calc {
        Drop(a + b, names);
        { assert (a + b)[0] == a[0]; }
        head + Drop((a + b)[1..], names);
        { assert (a + b)[1..] == a[1..] + b; DropAppend(a[1..], b, names); }
        head + (Drop(a[1..], names) + Drop(b, names));
        (head + Drop(a[1..], names)) + Drop(b, names);
      }
    }
  }

  /** What is kept and what is dropped together are the original entries, rearranged. */
  lemma {:induction false} KeepDropPermutation(items: Dict, names: seq<string>)
    ensures multiset(Keep(items, names) + Drop(items, names)) == multiset(items)
  {
    if items != [] {
      var h, t := items[0], items[1..];
      KeepDropPermutation(t, names);
      var k, d := Keep(t, names), Drop(t, names);
      assert multiset(items) == multiset{h} + multiset(t) by {
        assert items == [h] + t;
      }
      if h.0 in names {
        assert Keep(items, names) == [h] + k;
        assert Drop(items, names) == d;
      } else {
        assert Keep(items, names) == k;
        assert Drop(items, names) == [h] + d;
      }
      assert multiset(Keep(items, names) + Drop(items, names)) == multiset(Keep(items, names)) + multiset(Drop(items, names));
    }
  }

  /** Keeping the kept entries changes nothing, and nothing dropped is kept. */
  lemma {:induction false} KeepOfParts(items: Dict, names: seq<string>)
    ensures Keep(Keep(items, names), names) == Keep(items, names)
    ensures Keep(Drop(items, names), names) == []
    ensures Drop(Keep(items, names), names) == []
    ensures Drop(Drop(items, names), names) == Drop(items, names)
  {
    if items != [] {
      KeepOfParts(items[1..], names);
      var head := [items[0]];
      var tail := items[1..];
      KeepAppend(if items[0].0 in names then head else [], Keep(tail, names), names);
      DropAppend(if items[0].0 in names then head else [], Keep(tail, names), names);
      KeepAppend(if items[0].0 !in names then head else [], Drop(tail, names), names);
      DropAppend(if items[0].0 !in names then head else [], Drop(tail, names), names);
    }
  }

  /**
   * `_select(values, select)`: every entry and `False` when there is no
   * selection or it names no existing key; otherwise the selected entries and
   * whether any entry was left out.
   */
  function Select(values: Dict, select: Option<seq<string>>): (r: (Dict, bool))
    ensures select.None? || (forall n :: n in select.value ==> !HasKey(values, n)) ==> r == (values, false)
    ensures select.Some? && (exists n :: n in select.value && HasKey(values, n)) ==>
      r.0 == Keep(values, select.value) && (r.1 <==> exists x :: x in values && x.0 !in select.value)
  {
    if select.None? || forall n :: n in select.value ==> !HasKey(values, n) then (values, false)
    else
      var kept := Keep(values, select.value);
      KeepAllIff(values, select.value);
      (kept, |values| != |kept|)
  }

  /**
   * `sorted(items, key=lambda x: -int(x[0] == name))`: the stable sort that
   * moves the entry named `name` to the front and keeps the rest in order.
   */
  function PrimaryFirst(items: Dict, name: string): Dict {
    Keep(items, [name]) + Drop(items, [name])
  }

  /**
   * `PrimaryFirst` is a stable sort by the key: a rearrangement of `items`
   * whose entries named `name` all come first, with the order among the
   * `name` entries and among the others both as in `items`.
   */
  lemma PrimaryFirstIsStableSort(items: Dict, name: string)
    ensures multiset(PrimaryFirst(items, name)) == multiset(items)
    ensures forall i, j :: 0 <= i < j < |PrimaryFirst(items, name)| && PrimaryFirst(items, name)[j].0 == name ==>
      PrimaryFirst(items, name)[i].0 == name
    ensures Keep(PrimaryFirst(items, name), [name]) == Keep(items, [name])
    ensures Drop(PrimaryFirst(items, name), [name]) == Drop(items, [name])
  {
    KeepDropPermutation(items, [name]);
    KeepDropMembers(items, [name]);
    KeepOfParts(items, [name]);
    KeepAppend(Keep(items, [name]), Drop(items, [name]), [name]);
    DropAppend(Keep(items, [name]), Drop(items, [name]), [name]);
    NamedBeforeOthers(Keep(items, [name]), Drop(items, [name]), name);
  }

  lemma NamedBeforeOthers(kept: Dict, dropped: Dict, name: string)
    requires forall x :: x in kept ==> x.0 == name
    requires forall x :: x in dropped ==> x.0 != name
    ensures forall i, j :: 0 <= i < j < |kept + dropped| && (kept + dropped)[j].0 == name ==> (kept + dropped)[i].0 == name
  {
    var r := kept + dropped;
    forall i, j | 0 <= i < j < |r| && r[j].0 == name
      ensures r[i].0 == name
    {
      assert r[i] in kept;
    }
  }

  /** `f"{key}: {value}"`, with the value's text given by `render`. */
  function Line(item: (string, Value), render: Value -> string): string {
    item.0 + ": " + render(item.1)
  }

  function Lines(items: Dict, render: Value -> string): (r: seq<string>)
    ensures |r| == |items|
    ensures forall i :: 0 <= i < |items| ==> r[i] == Line(items[i], render)
  {
    seq(|items|, i requires 0 <= i < |items| => Line(items[i], render))
  }

  /** `get_params(select, show_all)`. */
  function GetParams(run: Run, select: Option<seq<string>>, showAll: bool, render: Value -> string): Result<string, Error> {
    PresentText(Lines(Select(run.params, select).0, render), if showAll then Some(AllRows) else None)
  }

  /**
   * `get_params` presents one `key: value` line per selected parameter: at
   * most 7 rows unless everything is shown, and only a long line without a
   * colon makes it fail.
   */
  lemma GetParamsRows(run: Run, select: Option<seq<string>>, showAll: bool, render: Value -> string)
    ensures var rows := PresentLines(Lines(Select(run.params, select).0, render), if showAll then Some(AllRows) else None);
      && (GetParams(run, select, showAll, render).Ok? <==> rows.Ok?)
      && (rows.Ok? ==> GetParams(run, select, showAll, render) == Ok(Join(rows.value, "\n")))
      && (rows.Ok? && !showAll ==> |rows.value| <= DefaultRows + 2)
      && (GetParams(run, select, showAll, render).Err? ==> GetParams(run, select, showAll, render).error.NoColon?)
  {
  }

  function StepLine(step: int): string {
    "step " + IntToString(step) + " (best)"
  }

  /**
   * The lines `get_metrics` hands to `_present`, with the row count it asks
   * for: the best checkpoint's step, then its (selected) metrics with the
   * primary metric first. `None` when the run has no checkpoint list.
   */
  function MetricRows(run: Run, select: Option<seq<string>>, showAll: bool, render: Value -> string):
    Result<Option<(seq<string>, Option<nat>)>, Error>
  {
    match run.checkpoints
    case None => Ok(None)
    case Some(cps) =>
      match Best(cps)
      case Err(e) => Err(e)
      case Ok((name, k)) =>
        var (items, selected) := Select(cps[k].metrics, select);
        var num := if showAll then Some(AllRows) else if selected then Some(|items|) else None;
        Ok(Some(([StepLine(cps[k].step)] + Lines(PrimaryFirst(items, name), render), num)))
  }

  /** `get_metrics(select, show_all)`. */
  function GetMetrics(run: Run, select: Option<seq<string>>, showAll: bool, render: Value -> string): (r: Result<string, Error>)
    ensures run.checkpoints.None? ==> r == Ok("0 checkpoints")
    ensures run.checkpoints.Some? && Best(run.checkpoints.value).Err? ==> r == Err(Best(run.checkpoints.value).error)
  {
    match MetricRows(run, select, showAll, render)
    case Err(e) => Err(e)
    case Ok(None) => Ok("0 checkpoints")
    case Ok(Some((values, num))) => PresentText(values, num)
  }

  /**
   * `_get_metrics(select)`: the best checkpoint's (selected) metrics with the
   * primary metric first; an empty list when the run has no checkpoint list.
   */
  function MetricItems(run: Run, select: Option<seq<string>>): (r: Result<Dict, Error>)
    ensures run.checkpoints.None? ==> r == Ok([])
    ensures run.checkpoints.Some? ==> (r.Ok? <==> Best(run.checkpoints.value).Ok?)
    ensures run.checkpoints.Some? && r.Err? ==> r.error == Best(run.checkpoints.value).error
    ensures run.checkpoints.Some? && r.Ok? ==>
      var cps := run.checkpoints.value;
      var items := Select(cps[Best(cps).value.1].metrics, select).0;
      var name := Best(cps).value.0;
      && r.value == PrimaryFirst(items, name)
      && multiset(r.value) == multiset(items)
      && (HasKey(items, name) ==> r.value[0] == (name, Get(items, name).value))
  {
    match run.checkpoints
    case None => Ok([])
    case Some(cps) =>
      match Best(cps)
      case Err(e) => Err(e)
      case Ok((name, k)) =>
        var items := Select(cps[k].metrics, select).0;
        PrimaryFirstIsStableSort(items, name);
        if HasKey(items, name) then
          KeepFirstIsGet(items, name);
          Ok(PrimaryFirst(items, name))
        else Ok(PrimaryFirst(items, name))
  }

  /**
   * The metric lines of `get_metrics` are exactly the entries `_get_metrics`
   * returns for the same selection, rendered one per line after the step.
   */
  lemma MetricItemsAreShown(run: Run, select: Option<seq<string>>, showAll: bool, render: Value -> string)
    requires run.checkpoints.Some? && Best(run.checkpoints.value).Ok?
    ensures var rows := MetricRows(run, select, showAll, render).value.value.0;
      |rows| >= 1 && rows[1..] == Lines(MetricItems(run, select).value, render)
  {
    MetricsOrder(run, select, showAll, render);
  }

  /** The first kept entry for a single name is the entry `d[name]` reads. */
  lemma {:induction false} KeepFirstIsGet(items: Dict, name: string)
    requires HasKey(items, name)
    ensures |Keep(items, [name])| > 0 && Keep(items, [name])[0] == (name, Get(items, name).value)
  {
    if items[0].0 != name {
      assert HasKey(items[1..], name) by {
        var i :| 0 <= i < |items| && items[i].0 == name;
        assert items[1..][i - 1].0 == name;
      }
      KeepFirstIsGet(items[1..], name);
    }
  }

  /**
   * The metric block starts with the best checkpoint's step, followed by its
   * (selected) metrics sorted primary first; when the primary metric is among
   * them, its line comes right after the step.
   */
  lemma MetricsOrder(run: Run, select: Option<seq<string>>, showAll: bool, render: Value -> string)
    requires run.checkpoints.Some? && Best(run.checkpoints.value).Ok?
    ensures var cps := run.checkpoints.value;
      var name := Best(cps).value.0;
      var cp := cps[Best(cps).value.1];
      var items := Select(cp.metrics, select).0;
      var rows := MetricRows(run, select, showAll, render).value.value.0;
      && |rows| == |items| + 1
      && rows[0] == StepLine(cp.step)
      && rows[1..] == Lines(PrimaryFirst(items, name), render)
      && (HasKey(items, name) ==> rows[1] == Line((name, Get(items, name).value), render))
  {
    var cps := run.checkpoints.value;
    var name := Best(cps).value.0;
    var items := Select(cps[Best(cps).value.1].metrics, select).0;
    KeepDropPermutation(items, [name]);
    assert |PrimaryFirst(items, name)| == |multiset(items)| == |items|;
    if HasKey(items, name) {
      KeepFirstIsGet(items, name);
    }
  }

  /**
   * When a selection left some metric out (and not everything is shown), the
   * row limit is the number of selected metrics, one less than the rows, so
   * the block always ends with a `"..."` line.
   */
  lemma SelectionEndsWithEllipsis(run: Run, select: Option<seq<string>>, render: Value -> string)
    requires run.checkpoints.Some? && Best(run.checkpoints.value).Ok?
    requires var cps := run.checkpoints.value; Select(cps[Best(cps).value.1].metrics, select).1
    ensures var (values, num) := MetricRows(run, select, false, render).value.value;
      && num.Some?
      && RowLimit(values, num.value) == values + [Ellipsis]
  {
    var cps := run.checkpoints.value;
    var items := Select(cps[Best(cps).value.1].metrics, select).0;
    MetricsOrder(run, select, false, render);
    var values := MetricRows(run, select, false, render).value.value.0;
    assert MetricRows(run, select, false, render).value.value.1 == Some(|items|);
    assert values[..Min(|items| + 1, |values|)] == values;
  }
}
