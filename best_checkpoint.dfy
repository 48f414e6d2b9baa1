/**
 * `Experiment.get_best_checkpoint` (sake.py): pick the (name, goal) primary
 * metric that most checkpoints nominate, then the checkpoint that is best under
 * it. The method `GetBestCheckpoint` keeps the source's two loops; `Best` is the
 * function that specifies it, and the lemmas state what the source promises of it.
 */
module BestCheckpoint {
  import opened Wrappers
  import opened Values
  import opened Runs

  /** The tally dict `metrics`: (name, goal) pairs and their counts, in first-seen order. */
  type Tally = seq<(PrimaryMetric, nat)>

  function IndexOf(t: Tally, p: PrimaryMetric): (r: Option<nat>)
    ensures r.Some? ==> r.value < |t| && t[r.value].0 == p
    ensures r.None? ==> forall i :: 0 <= i < |t| ==> t[i].0 != p
  {
    if t == [] then None
    else if t[0].0 == p then Some(0)
    else match IndexOf(t[1..], p)
      case None => None
      case Some(i) => Some(i + 1)
  }

  /** One pass of the tally loop: insert the pair with count 0 when unseen, then add one. */
  function Bump(t: Tally, p: PrimaryMetric): Tally {
    match IndexOf(t, p)
    case Some(j) => t[j := (p, t[j].1 + 1)]
    case None => t + [(p, 1)]
  }

  /** The tally after the loop has seen `cps`. */
  function TallyOf(cps: seq<Checkpoint>): (t: Tally)
    ensures |cps| > 0 ==> |t| > 0
  {
    if cps == [] then [] else Bump(TallyOf(cps[..|cps| - 1]), cps[|cps| - 1].primary)
  }

  /** How many checkpoints nominate `p`. */
  function Count(cps: seq<Checkpoint>, p: PrimaryMetric): nat {
    if cps == [] then 0
    else Count(cps[..|cps| - 1], p) + if cps[|cps| - 1].primary == p then 1 else 0
  }

  predicate Occurs(cps: seq<Checkpoint>, p: PrimaryMetric) {
    exists i :: 0 <= i < |cps| && cps[i].primary == p
  }

  /** Index of the first checkpoint that nominates `p`. */
  function FirstIndex(cps: seq<Checkpoint>, p: PrimaryMetric): (r: nat)
    requires Occurs(cps, p)
    ensures r < |cps| && cps[r].primary == p
    ensures forall i :: 0 <= i < r ==> cps[i].primary != p
  {
    var init := cps[..|cps| - 1];
    if Occurs(init, p) then FirstIndex(init, p) else |cps| - 1
  }

  /** What the tally loop builds: each nominated pair once, with its count, in first-seen order. */
  ghost predicate TallyMatches(cps: seq<Checkpoint>, t: Tally) {
    && KeysDistinct(t)
    && CountsRight(cps, t)
    && Covers(cps, t)
    && FirstSeenOrder(cps, t)
  }

  ghost predicate KeysDistinct(t: Tally) {
    forall i, j :: 0 <= i < j < |t| ==> t[i].0 != t[j].0
  }

  ghost predicate FirstSeenOrder(cps: seq<Checkpoint>, t: Tally)
    requires CountsRight(cps, t)
  {
    forall i, j :: 0 <= i < j < |t| ==> FirstIndex(cps, t[i].0) < FirstIndex(cps, t[j].0)
  }

  ghost predicate CountsRight(cps: seq<Checkpoint>, t: Tally) {
    forall i :: 0 <= i < |t| ==> Occurs(cps, t[i].0) && t[i].1 == Count(cps, t[i].0)
  }

  ghost predicate Covers(cps: seq<Checkpoint>, t: Tally) {
    forall k :: 0 <= k < |cps| ==> IndexOf(t, cps[k].primary).Some?
  }

  lemma {:induction false} CountAbsent(cps: seq<Checkpoint>, p: PrimaryMetric)
    requires !Occurs(cps, p)
    ensures Count(cps, p) == 0
  {
    if cps != [] {
      var init := cps[..|cps| - 1];
      assert forall i :: 0 <= i < |init| ==> init[i] == cps[i];
      CountAbsent(init, p);
    }
  }

  /** A pair seen before the last checkpoint keeps its first index when the last one is added. */
  lemma OccursInInit(cps: seq<Checkpoint>, q: PrimaryMetric)
    requires |cps| > 0 && Occurs(cps[..|cps| - 1], q)
    ensures Occurs(cps, q)
    ensures FirstIndex(cps, q) == FirstIndex(cps[..|cps| - 1], q) < |cps| - 1
  {
    var init := cps[..|cps| - 1];
    var i :| 0 <= i < |init| && init[i].primary == q;
    assert cps[i].primary == q;
  }

  /** One round of the tally loop keeps `TallyMatches`, when the pair was already tallied. */
  lemma BumpSeen(cps: seq<Checkpoint>, t0: Tally, j: nat)
    requires |cps| > 0 && TallyMatches(cps[..|cps| - 1], t0)
    requires IndexOf(t0, cps[|cps| - 1].primary) == Some(j)
    ensures TallyMatches(cps, Bump(t0, cps[|cps| - 1].primary))
  {
    BumpSeenCounts(cps, t0, j);
    BumpSeenCovers(cps, t0, j);
    BumpSeenKeys(cps, t0, j);
  }

  lemma BumpSeenKeys(cps: seq<Checkpoint>, t0: Tally, j: nat)
    requires |cps| > 0 && CountsRight(cps[..|cps| - 1], t0) && KeysDistinct(t0)
    requires FirstSeenOrder(cps[..|cps| - 1], t0)
    requires IndexOf(t0, cps[|cps| - 1].primary) == Some(j)
    requires CountsRight(cps, Bump(t0, cps[|cps| - 1].primary))
    ensures KeysDistinct(Bump(t0, cps[|cps| - 1].primary))
    ensures FirstSeenOrder(cps, Bump(t0, cps[|cps| - 1].primary))
  {
    var init, p := cps[..|cps| - 1], cps[|cps| - 1].primary;
    var t := Bump(t0, p);
    assert t == t0[j := (p, t0[j].1 + 1)];
    assert |t| == |t0| && forall i :: 0 <= i < |t| ==> t[i].0 == t0[i].0;
    forall i | 0 <= i < |t| ensures FirstIndex(cps, t[i].0) == FirstIndex(init, t[i].0) {
      OccursInInit(cps, t[i].0);
    }
  }

  lemma BumpSeenCounts(cps: seq<Checkpoint>, t0: Tally, j: nat)
    requires |cps| > 0 && CountsRight(cps[..|cps| - 1], t0) && KeysDistinct(t0)
    requires IndexOf(t0, cps[|cps| - 1].primary) == Some(j)
    ensures CountsRight(cps, Bump(t0, cps[|cps| - 1].primary))
  {
    var init, p := cps[..|cps| - 1], cps[|cps| - 1].primary;
    var t := Bump(t0, p);
    assert t == t0[j := (p, t0[j].1 + 1)];
    forall i | 0 <= i < |t| ensures Occurs(cps, t[i].0) && t[i].1 == Count(cps, t[i].0) {
      OccursInInit(cps, t[i].0);
      assert Count(cps, t[i].0) == Count(init, t[i].0) + if p == t[i].0 then 1 else 0;
    }
  }

  lemma BumpSeenCovers(cps: seq<Checkpoint>, t0: Tally, j: nat)
    requires |cps| > 0 && Covers(cps[..|cps| - 1], t0)
    requires IndexOf(t0, cps[|cps| - 1].primary) == Some(j)
    ensures Covers(cps, Bump(t0, cps[|cps| - 1].primary))
  {
    var init, p := cps[..|cps| - 1], cps[|cps| - 1].primary;
    var t := Bump(t0, p);
    assert t == t0[j := (p, t0[j].1 + 1)];
    forall k | 0 <= k < |cps| ensures IndexOf(t, cps[k].primary).Some? {
      if k < |cps| - 1 {
        assert init[k] == cps[k];
        var m := IndexOf(t0, cps[k].primary).value;
        assert t[m].0 == cps[k].primary;
      } else {
        assert t[j].0 == p;
      }
    }
  }

  /** One round of the tally loop keeps `TallyMatches`, when the pair is new. */
  lemma BumpUnseen(cps: seq<Checkpoint>, t0: Tally)
    requires |cps| > 0 && TallyMatches(cps[..|cps| - 1], t0)
    requires IndexOf(t0, cps[|cps| - 1].primary).None?
    ensures TallyMatches(cps, Bump(t0, cps[|cps| - 1].primary))
  {
    BumpUnseenCounts(cps, t0);
    BumpUnseenCovers(cps, t0);
    BumpUnseenKeys(cps, t0);
  }

  lemma BumpUnseenKeys(cps: seq<Checkpoint>, t0: Tally)
    requires |cps| > 0 && CountsRight(cps[..|cps| - 1], t0) && KeysDistinct(t0) && Covers(cps[..|cps| - 1], t0)
    requires FirstSeenOrder(cps[..|cps| - 1], t0)
    requires IndexOf(t0, cps[|cps| - 1].primary).None?
    requires CountsRight(cps, Bump(t0, cps[|cps| - 1].primary))
    ensures KeysDistinct(Bump(t0, cps[|cps| - 1].primary))
    ensures FirstSeenOrder(cps, Bump(t0, cps[|cps| - 1].primary))
  {
    var n, init, p := |cps|, cps[..|cps| - 1], cps[|cps| - 1].primary;
    var t := Bump(t0, p);
    assert t == t0 + [(p, 1)];
    NewPairUnseen(cps, t0);
    forall i | 0 <= i < |t0| ensures FirstIndex(cps, t[i].0) == FirstIndex(init, t[i].0) < n - 1 {
      OccursInInit(cps, t[i].0);
    }
  }

  /** A pair missing from the tally of the earlier checkpoints first occurs at the last one. */
  lemma NewPairUnseen(cps: seq<Checkpoint>, t0: Tally)
    requires |cps| > 0 && Covers(cps[..|cps| - 1], t0)
    requires IndexOf(t0, cps[|cps| - 1].primary).None?
    ensures !Occurs(cps[..|cps| - 1], cps[|cps| - 1].primary)
    ensures Occurs(cps, cps[|cps| - 1].primary) && FirstIndex(cps, cps[|cps| - 1].primary) == |cps| - 1
  {
    var n, init, p := |cps|, cps[..|cps| - 1], cps[|cps| - 1].primary;
    forall i | 0 <= i < |init| ensures init[i].primary != p {
      assert IndexOf(t0, init[i].primary).Some?;
    }
    assert cps[n - 1].primary == p;
  }

  lemma BumpUnseenCounts(cps: seq<Checkpoint>, t0: Tally)
    requires |cps| > 0 && CountsRight(cps[..|cps| - 1], t0) && Covers(cps[..|cps| - 1], t0)
    requires IndexOf(t0, cps[|cps| - 1].primary).None?
    ensures CountsRight(cps, Bump(t0, cps[|cps| - 1].primary))
  {
    var n, init, p := |cps|, cps[..|cps| - 1], cps[|cps| - 1].primary;
    var t := Bump(t0, p);
    assert t == t0 + [(p, 1)];
    NewPairUnseen(cps, t0);
    CountAbsent(init, p);
    forall i | 0 <= i < |t0| ensures Occurs(cps, t[i].0) && t[i].1 == Count(cps, t[i].0) {
      OccursInInit(cps, t[i].0);
      assert Count(cps, t[i].0) == Count(init, t[i].0);
    }
  }

  lemma BumpUnseenCovers(cps: seq<Checkpoint>, t0: Tally)
    requires |cps| > 0 && Covers(cps[..|cps| - 1], t0)
    requires IndexOf(t0, cps[|cps| - 1].primary).None?
    ensures Covers(cps, Bump(t0, cps[|cps| - 1].primary))
  {
    var n, init, p := |cps|, cps[..|cps| - 1], cps[|cps| - 1].primary;
    var t := Bump(t0, p);
    assert t == t0 + [(p, 1)];
    forall k | 0 <= k < n ensures IndexOf(t, cps[k].primary).Some? {
      if k < n - 1 {
        assert init[k] == cps[k];
        var m := IndexOf(t0, cps[k].primary).value;
        assert t[m].0 == cps[k].primary;
      } else {
        assert t[|t| - 1].0 == p;
      }
    }
  }

  lemma {:induction false} TallyOfMatches(cps: seq<Checkpoint>)
    ensures TallyMatches(cps, TallyOf(cps))
  {
    if cps != [] {
      var init, p := cps[..|cps| - 1], cps[|cps| - 1].primary;
      TallyOfMatches(init);
      match IndexOf(TallyOf(init), p)
      case Some(j) => BumpSeen(cps, TallyOf(init), j);
      case None => BumpUnseen(cps, TallyOf(init));
    }
  }

  /**
   * `sorted(metrics.items(), key=count)[-1]`: the sort is stable, so the last
   * element has the largest count and, among equal counts, the largest index.
   */
  function LastMaxIndex(t: Tally): (r: nat)
    requires |t| > 0
    ensures r < |t|
    ensures forall i :: 0 <= i < |t| ==> t[i].1 <= t[r].1
    ensures forall i :: r < i < |t| ==> t[i].1 < t[r].1
  {
    if |t| == 1 then 0
    else
      var k := LastMaxIndex(t[..|t| - 1]);
      if t[|t| - 1].1 >= t[k].1 then |t| - 1 else k
  }

  /** The (name, goal) pair the selector treats as authoritative. */
  function Winner(cps: seq<Checkpoint>): PrimaryMetric
    requires |cps| > 0
  {
    var t := TallyOf(cps);
    t[LastMaxIndex(t)].0
  }

  /** Checkpoint `k`'s pair does not beat `w`: fewer nominations, or as many but first seen earlier. */
  ghost predicate NotBeaten(cps: seq<Checkpoint>, k: nat, w: PrimaryMetric)
    requires k < |cps| && Occurs(cps, w)
  {
    && Count(cps, cps[k].primary) <= Count(cps, w)
    && (cps[k].primary != w && Count(cps, cps[k].primary) == Count(cps, w) ==>
          FirstIndex(cps, cps[k].primary) < FirstIndex(cps, w))
  }

  /**
   * The winner is nominated by the most checkpoints, and among pairs nominated
   * equally often it is the one first seen latest.
   */
  lemma WinnerMostFrequent(cps: seq<Checkpoint>)
    requires |cps| > 0
    ensures Occurs(cps, Winner(cps))
    ensures forall k :: 0 <= k < |cps| ==> NotBeaten(cps, k, Winner(cps))
  {
    var t := TallyOf(cps);
    TallyOfMatches(cps);
    var r := LastMaxIndex(t);
    assert Winner(cps) == t[r].0;
    forall k | 0 <= k < |cps| ensures NotBeaten(cps, k, t[r].0) {
      TallyEntryNotBeaten(cps, t, k);
    }
  }

  lemma TallyEntryNotBeaten(cps: seq<Checkpoint>, t: Tally, k: nat)
    requires |t| > 0 && k < |cps| && TallyMatches(cps, t)
    ensures Occurs(cps, t[LastMaxIndex(t)].0) && NotBeaten(cps, k, t[LastMaxIndex(t)].0)
  {
    var r := LastMaxIndex(t);
    var m := IndexOf(t, cps[k].primary).value;
    assert t[m].1 == Count(cps, cps[k].primary);
    assert t[r].1 == Count(cps, t[r].0);
    if cps[k].primary != t[r].0 && t[m].1 == t[r].1 {
      assert m < r;
    }
  }

  /** The value checkpoint `j` records for metric `name`, if any. */
  function Val(cps: seq<Checkpoint>, j: nat, name: string): Option<Value>
    requires j < |cps|
  {
    Get(cps[j].metrics, name)
  }

  /**
   * The running-best loop from checkpoint `i` on, with running best `best` found
   * at `idx`. Only a strict improvement replaces it. The metric is looked up only
   * when the goal is "maximize" or "minimize" (the `and` short-circuits).
   */
  function ScanFrom(cps: seq<Checkpoint>, name: string, goal: string, i: nat, best: Value, idx: nat)
    : (r: Result<nat, Error>)
    requires idx < i <= |cps|
    ensures r.Ok? ==> r.value < |cps|
    ensures r.Err? ==> r.error.MissingMetric? || r.error.UnorderedMetric?
    decreases |cps| - i
  {
    if i == |cps| then Ok(idx)
    else if goal == "maximize" then
      match Val(cps, i, name)
      case None => Err(MissingMetric(i, name))
      case Some(v) =>
        match Greater(v, best)
        case None => Err(UnorderedMetric(i))
        case Some(better) =>
          if better then ScanFrom(cps, name, goal, i + 1, v, i)
          else ScanFrom(cps, name, goal, i + 1, best, idx)
    else if goal == "minimize" then
      match Val(cps, i, name)
      case None => Err(MissingMetric(i, name))
      case Some(v) =>
        match Less(v, best)
        case None => Err(UnorderedMetric(i))
        case Some(better) =>
          if better then ScanFrom(cps, name, goal, i + 1, v, i)
          else ScanFrom(cps, name, goal, i + 1, best, idx)
    else ScanFrom(cps, name, goal, i + 1, best, idx)
  }

  /** The metric name and the index of the best checkpoint, or the exception raised. */
  function Best(cps: seq<Checkpoint>): (r: Result<(string, nat), Error>)
    ensures r.Ok? ==> |cps| > 0 && r.value.0 == Winner(cps).name && r.value.1 < |cps|
    ensures r == Err(NoCheckpoints) <==> cps == []
  {
    if cps == [] then Err(NoCheckpoints)
    else
      var w := Winner(cps);
      match Val(cps, 0, w.name)
      case None => Err(MissingMetric(0, w.name))
      case Some(v0) =>
        match ScanFrom(cps, w.name, w.goal, 1, v0, 0)
        case Err(e) => Err(e)
        case Ok(k) => Ok((w.name, k))
  }

  /** The tally loop of `get_best_checkpoint`. */
  method TallyLoop(cps: seq<Checkpoint>) returns (tally: Tally)
    ensures tally == TallyOf(cps)
  {
    tally := [];
    for i := 0 to |cps|
      invariant tally == TallyOf(cps[..i])
    {
      var p := cps[i].primary;
      var j := IndexOf(tally, p);
      if j.None? {
        tally := tally + [(p, 0)];
        j := Some(|tally| - 1);
      }
      tally := tally[j.value := (p, tally[j.value].1 + 1)];
      assert cps[..i + 1][..i] == cps[..i];
    }
    assert cps[..|cps|] == cps;
  }

  /** The running-best loop of `get_best_checkpoint`, from checkpoint 1 on. */
  method ScanLoop(cps: seq<Checkpoint>, name: string, goal: string, first: Value) returns (r: Result<nat, Error>)
    requires |cps| > 0
    ensures r == ScanFrom(cps, name, goal, 1, first, 0)
  {
    var value, idx := first, 0;
    for i := 1 to |cps|
      invariant idx < i
      invariant ScanFrom(cps, name, goal, i, value, idx) == ScanFrom(cps, name, goal, 1, first, 0)
    {
      if goal == "maximize" {
        var m := Get(cps[i].metrics, name);
        if m.None? {
          return Err(MissingMetric(i, name));
        }
        var better := Greater(m.value, value);
        if better.None? {
          return Err(UnorderedMetric(i));
        }
        if better.value {
          value, idx := m.value, i;
        }
      } else if goal == "minimize" {
        var m := Get(cps[i].metrics, name);
        if m.None? {
          return Err(MissingMetric(i, name));
        }
        var better := Less(m.value, value);
        if better.None? {
          return Err(UnorderedMetric(i));
        }
        if better.value {
          value, idx := m.value, i;
        }
      }
    }
    return Ok(idx);
  }

  /** `get_best_checkpoint`: the tally loop, the winning pair, then the running-best loop. */
  method GetBestCheckpoint(cps: seq<Checkpoint>) returns (r: Result<(string, nat), Error>)
    ensures r == Best(cps)
  {
    var tally := TallyLoop(cps);
    if tally == [] {
      return Err(NoCheckpoints);
    }
    var winner := tally[LastMaxIndex(tally)].0;
    var name, goal := winner.name, winner.goal;
    var first := Get(cps[0].metrics, name);
    if first.None? {
      return Err(MissingMetric(0, name));
    }
    var k := ScanLoop(cps, name, goal, first.value);
    if k.Err? {
      return Err(k.error);
    }
    return Ok((name, k.value));
  }

  /**
   * `get_best_step`: the step of the best checkpoint. With `checkpoints` null
   * the selector's loop raises before any step is read.
   */
  function BestStep(run: Run): (r: Result<int, Error>)
    ensures run.checkpoints.None? ==> r == Err(NullCheckpoints)
    ensures run.checkpoints.Some? ==> (r.Ok? <==> Best(run.checkpoints.value).Ok?)
    ensures run.checkpoints.Some? && r.Ok? ==>
      r.value == run.checkpoints.value[Best(run.checkpoints.value).value.1].step
    ensures run.checkpoints.Some? && r.Err? ==> r.error == Best(run.checkpoints.value).error
  {
    match run.checkpoints
    case None => Err(NullCheckpoints)
    case Some(cps) =>
      match Best(cps)
      case Err(e) => Err(e)
      case Ok((_, k)) => Ok(cps[k].step)
  }

  /**
   * What the maximizing scan knows on reaching checkpoint `i` with its running
   * best at `idx`: no checkpoint so far is above it, every earlier one is below.
   */
  ghost predicate MaxSoFar(cps: seq<Checkpoint>, name: string, i: nat, idx: nat) {
    && idx < i <= |cps|
    && (forall j :: 0 <= j < i ==> Val(cps, j, name).Some?)
    && (forall j :: 0 <= j < i && j != idx ==>
          Less(Val(cps, idx, name).value, Val(cps, j, name).value) == Some(false))
    && (forall j :: 0 <= j < idx ==> Less(Val(cps, j, name).value, Val(cps, idx, name).value) == Some(true))
  }

  /** The mirror image of `MaxSoFar` for the minimizing scan. */
  ghost predicate MinSoFar(cps: seq<Checkpoint>, name: string, i: nat, idx: nat) {
    && idx < i <= |cps|
    && (forall j :: 0 <= j < i ==> Val(cps, j, name).Some?)
    && (forall j :: 0 <= j < i && j != idx ==>
          Less(Val(cps, j, name).value, Val(cps, idx, name).value) == Some(false))
    && (forall j :: 0 <= j < idx ==> Less(Val(cps, idx, name).value, Val(cps, j, name).value) == Some(true))
  }

  lemma {:induction false} ScanMaximize(cps: seq<Checkpoint>, name: string, i: nat, best: Value, idx: nat)
    requires MaxSoFar(cps, name, i, idx) && Val(cps, idx, name) == Some(best)
    requires ScanFrom(cps, name, "maximize", i, best, idx).Ok?
    ensures MaxSoFar(cps, name, |cps|, ScanFrom(cps, name, "maximize", i, best, idx).value)
    decreases |cps| - i
  {
    if i < |cps| {
      var v := Val(cps, i, name).value;
      if Greater(v, best) == Some(true) {
        forall j | 0 <= j < i
          ensures Less(v, Val(cps, j, name).value) == Some(false) && Less(Val(cps, j, name).value, v) == Some(true)
        {
          if j == idx { LessAsymmetric(best, v); } else { NotLessThenLess(Val(cps, j, name).value, best, v); }
        }
        ScanMaximize(cps, name, i + 1, v, i);
      } else {
        ScanMaximize(cps, name, i + 1, best, idx);
      }
    }
  }

  lemma {:induction false} ScanMinimize(cps: seq<Checkpoint>, name: string, i: nat, best: Value, idx: nat)
    requires MinSoFar(cps, name, i, idx) && Val(cps, idx, name) == Some(best)
    requires ScanFrom(cps, name, "minimize", i, best, idx).Ok?
    ensures MinSoFar(cps, name, |cps|, ScanFrom(cps, name, "minimize", i, best, idx).value)
    decreases |cps| - i
  {
    if i < |cps| {
      var v := Val(cps, i, name).value;
      if Less(v, best) == Some(true) {
        forall j | 0 <= j < i
          ensures Less(Val(cps, j, name).value, v) == Some(false) && Less(v, Val(cps, j, name).value) == Some(true)
        {
          if j == idx { LessAsymmetric(v, best); } else { LessThenNotLess(v, best, Val(cps, j, name).value); }
        }
        ScanMinimize(cps, name, i + 1, v, i);
      } else {
        ScanMinimize(cps, name, i + 1, best, idx);
      }
    }
  }

  lemma {:induction false} ScanOtherGoal(cps: seq<Checkpoint>, name: string, goal: string, i: nat, best: Value, idx: nat)
    requires idx < i <= |cps| && goal != "maximize" && goal != "minimize"
    ensures ScanFrom(cps, name, goal, i, best, idx) == Ok(idx)
    decreases |cps| - i
  {
    if i < |cps| { ScanOtherGoal(cps, name, goal, i + 1, best, idx); }
  }

  /**
   * Under "maximize" the chosen checkpoint's value is at least every other
   * checkpoint's and strictly above every earlier one's, so the earliest of the
   * best wins; "minimize" mirrors this; any other goal picks checkpoint 0.
   */
  lemma BestIsExtremal(cps: seq<Checkpoint>)
    requires Best(cps).Ok?
    ensures var (name, k) := Best(cps).value;
      && Val(cps, k, name).Some?
      && (Winner(cps).goal == "maximize" ==>
            && (forall j :: 0 <= j < |cps| ==> Val(cps, j, name).Some?)
            && (forall j :: 0 <= j < |cps| && j != k ==>
                  GreaterEq(Val(cps, k, name).value, Val(cps, j, name).value) == Some(true))
            && (forall j :: 0 <= j < k ==> Greater(Val(cps, k, name).value, Val(cps, j, name).value) == Some(true)))
      && (Winner(cps).goal == "minimize" ==>
            && (forall j :: 0 <= j < |cps| ==> Val(cps, j, name).Some?)
            && (forall j :: 0 <= j < |cps| && j != k ==>
                  LessEq(Val(cps, k, name).value, Val(cps, j, name).value) == Some(true))
            && (forall j :: 0 <= j < k ==> Less(Val(cps, k, name).value, Val(cps, j, name).value) == Some(true)))
      && (Winner(cps).goal != "maximize" && Winner(cps).goal != "minimize" ==> k == 0)
  {
    var w := Winner(cps);
    var (name, k) := Best(cps).value;
    var v0 := Val(cps, 0, name).value;
    if w.goal == "maximize" {
      ScanMaximize(cps, name, 1, v0, 0);
      var vk := Val(cps, k, name).value;
      forall j | 0 <= j < |cps| && j != k ensures GreaterEq(vk, Val(cps, j, name).value) == Some(true) {
        LessEqIsNotGreater(Val(cps, j, name).value, vk);
      }
    } else if w.goal == "minimize" {
      ScanMinimize(cps, name, 1, v0, 0);
      var vk := Val(cps, k, name).value;
      forall j | 0 <= j < |cps| && j != k ensures LessEq(vk, Val(cps, j, name).value) == Some(true) {
        LessEqIsNotGreater(vk, Val(cps, j, name).value);
      }
    } else {
      ScanOtherGoal(cps, name, w.goal, 1, v0, 0);
    }
  }

  /**
   * When the selector raises: with no checkpoints; when checkpoint 0 lacks the
   * winning metric; and, under "maximize" or "minimize" only, when a later
   * checkpoint lacks it or holds a value that does not compare with checkpoint 0's.
   */
  lemma BestSucceedsIff(cps: seq<Checkpoint>)
    ensures Best(cps).Ok? <==>
      && |cps| > 0
      && Val(cps, 0, Winner(cps).name).Some?
      && (Winner(cps).goal in {"maximize", "minimize"} ==>
            forall j :: 1 <= j < |cps| ==>
              && Val(cps, j, Winner(cps).name).Some?
              && Comparable(Val(cps, j, Winner(cps).name).value, Val(cps, 0, Winner(cps).name).value))
  {
    if |cps| > 0 && Val(cps, 0, Winner(cps).name).Some? {
      var w := Winner(cps);
      var v0 := Val(cps, 0, w.name).value;
      if w.goal in {"maximize", "minimize"} {
        ScanSucceedsIff(cps, w.name, w.goal, 1, v0, 0);
      } else {
        ScanOtherGoal(cps, w.name, w.goal, 1, v0, 0);
      }
    }
  }

  /** One round of the running-best loop on a present, comparable value. */
  lemma ScanStep(cps: seq<Checkpoint>, name: string, goal: string, i: nat, best: Value, idx: nat)
    returns (better: bool)
    requires idx < i < |cps| && goal in {"maximize", "minimize"}
    requires Val(cps, i, name).Some? && Comparable(Val(cps, i, name).value, best)
    ensures better ==> ScanFrom(cps, name, goal, i, best, idx) == ScanFrom(cps, name, goal, i + 1, Val(cps, i, name).value, i)
    ensures !better ==> ScanFrom(cps, name, goal, i, best, idx) == ScanFrom(cps, name, goal, i + 1, best, idx)
  {
    var v := Val(cps, i, name).value;
    better := if goal == "maximize" then Less(best, v).value else Less(v, best).value;
  }

  lemma {:induction false} ScanSucceedsIff(cps: seq<Checkpoint>, name: string, goal: string, i: nat, best: Value, idx: nat)
    requires idx < i <= |cps| && goal in {"maximize", "minimize"}
    requires Val(cps, 0, name).Some? && KindOf(best) == KindOf(Val(cps, 0, name).value)
    ensures ScanFrom(cps, name, goal, i, best, idx).Ok? <==>
      forall j :: i <= j < |cps| ==> Val(cps, j, name).Some? && Comparable(Val(cps, j, name).value, Val(cps, 0, name).value)
    decreases |cps| - i
  {
    if i < |cps| && Val(cps, i, name).Some? && Comparable(Val(cps, i, name).value, best) {
      var v := Val(cps, i, name).value;
      var better := ScanStep(cps, name, goal, i, best, idx);
      if better {
        ScanSucceedsIff(cps, name, goal, i + 1, v, i);
      } else {
        ScanSucceedsIff(cps, name, goal, i + 1, best, idx);
      }
    } else if i < |cps| {
      ScanStops(cps, name, goal, i, best, idx);
      assert !(Val(cps, i, name).Some? && Comparable(Val(cps, i, name).value, Val(cps, 0, name).value));
    }
  }

  /** The running-best loop raises at a missing or incomparable value. */
  lemma ScanStops(cps: seq<Checkpoint>, name: string, goal: string, i: nat, best: Value, idx: nat)
    requires idx < i < |cps| && goal in {"maximize", "minimize"}
    requires Val(cps, i, name).None? || !Comparable(Val(cps, i, name).value, best)
    ensures ScanFrom(cps, name, goal, i, best, idx).Err?
  {
  }
}
