/**
 * `Experiment.get_field` (sake.py): a name is looked up in the run's params,
 * then in the best checkpoint's metrics, then in every checkpoint's metrics in
 * order, and otherwise the caller's default is returned.
 */
module FieldResolver {
  import opened Wrappers
  import opened Values
  import opened Runs
  import opened BestCheckpoint

  /** Index of the first checkpoint whose metrics hold `field`. */
  function FirstHolder(cps: seq<Checkpoint>, field: string): (r: Option<nat>)
    ensures r.Some? ==> r.value < |cps| && Val(cps, r.value, field).Some?
    ensures forall j :: 0 <= j < |cps| && (r.None? || j < r.value) ==> Val(cps, j, field).None?
  {
    if cps == [] then None
    else if Val(cps, 0, field).Some? then Some(0)
    else
      var rest := FirstHolder(cps[1..], field);
      assert forall j :: 1 <= j < |cps| ==> Val(cps, j, field) == Val(cps[1..], j - 1, field);
      match rest
      case None => None
      case Some(i) => Some(i + 1)
  }

  /** The value `get_field(field, default)` returns, or the exception it raises. */
  function ResolveField(run: Run, field: string, default: Value): Result<Value, Error> {
    match Get(run.params, field)
    case Some(v) => Ok(v)
    case None =>
      match run.checkpoints
      case None => Ok(default)
      case Some(cps) =>
        match Best(cps)
        case Err(e) => Err(e)
        case Ok((_, k)) =>
          match Val(cps, k, field)
          case Some(v) => Ok(v)
          case None =>
            match FirstHolder(cps, field)
            case Some(j) => Ok(Val(cps, j, field).value)
            case None => Ok(default)
  }

  /** The first holder is the one index that holds the field with none before it. */
  lemma FirstHolderIs(cps: seq<Checkpoint>, field: string, i: nat)
    requires i < |cps| && Val(cps, i, field).Some?
    requires forall j :: 0 <= j < i ==> Val(cps, j, field).None?
    ensures FirstHolder(cps, field) == Some(i)
  {
  }

  /** `get_field`, with its early returns and its first-match loop over the checkpoints. */
  method GetField(run: Run, field: string, default: Value) returns (r: Result<Value, Error>)
    ensures r == ResolveField(run, field, default)
  {
    var p := Get(run.params, field);
    if p.Some? {
      return Ok(p.value);
    }
    if run.checkpoints.None? {
      return Ok(default);
    }
    var cps := run.checkpoints.value;
    var best := GetBestCheckpoint(cps);
    if best.Err? {
      return Err(best.error);
    }
    var inBest := Get(cps[best.value.1].metrics, field);
    if inBest.Some? {
      return Ok(inBest.value);
    }
    for i := 0 to |cps|
      invariant forall j :: 0 <= j < i ==> Val(cps, j, field).None?
    {
      var m := Get(cps[i].metrics, field);
      assert m == Val(cps, i, field);
      if m.Some? {
        FirstHolderIs(cps, field, i);
        return Ok(m.value);
      }
    }
    assert FirstHolder(cps, field).None?;
    return Ok(default);
  }

  /**
   * The lookup order of `get_field`: a params key wins whatever the metrics hold;
   * with `checkpoints` null the default follows; otherwise the best checkpoint's
   * metric, else the first checkpoint in order holding the name, else the default.
   */
  lemma ResolveOrder(run: Run, field: string, default: Value)
    ensures HasKey(run.params, field) ==> ResolveField(run, field, default) == Ok(Get(run.params, field).value)
    ensures !HasKey(run.params, field) && run.checkpoints.None? ==> ResolveField(run, field, default) == Ok(default)
    ensures !HasKey(run.params, field) && run.checkpoints.Some? ==>
      var cps := run.checkpoints.value;
      var r := ResolveField(run, field, default);
      if Best(cps).Err? then r == Err(Best(cps).error)
      else
        var k := Best(cps).value.1;
        if Val(cps, k, field).Some? then r == Ok(Val(cps, k, field).value)
        else if exists j :: 0 <= j < |cps| && Val(cps, j, field).Some? then
          r.Ok? && exists j :: (0 <= j < |cps| && Val(cps, j, field) == Some(r.value) &&
            forall i :: 0 <= i < j ==> Val(cps, i, field).None?)
        else r == Ok(default)
  {
    if !HasKey(run.params, field) && run.checkpoints.Some? {
      var cps := run.checkpoints.value;
      var h := FirstHolder(cps, field);
      if h.Some? {
        assert Val(cps, h.value, field).Some?;
      }
    }
  }
}
