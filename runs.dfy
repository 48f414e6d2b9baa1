/**
 * The in-memory run record of the Python inspector (`Experiment`, sake.py)
 * and the exceptions its query code can raise.
 */
module Runs {
  import opened Wrappers
  import opened Values

  /**
   * A JSON object as Python loads it: an insertion-ordered association list
   * whose keys are distinct, as a `dict`'s are. Lookups take the first entry.
   */
  type Dict = seq<(string, Value)>

  predicate HasKey(d: Dict, key: string) {
    exists i :: 0 <= i < |d| && d[i].0 == key
  }

  /** `d[key]` when `key in d`, `None` otherwise. */
  function Get(d: Dict, key: string): (r: Option<Value>)
    ensures r.Some? <==> HasKey(d, key)
    ensures r.Some? ==> (key, r.value) in d
  {
    if d == [] then None
    else if d[0].0 == key then Some(d[0].1)
    else Get(d[1..], key)
  }

  /** The `primary_metric` of a checkpoint: a metric name and a goal such as "maximize". */
  datatype PrimaryMetric = PrimaryMetric(name: string, goal: string)

  datatype Checkpoint = Checkpoint(step: int, metrics: Dict, primary: PrimaryMetric)

  /**
   * One run. `created` is already parsed; `checkpoints` is `None` when the
   * record holds `null` there.
   */
  datatype Run = Run(
    id: string,
    created: Time,
    params: Dict,
    checkpoints: Option<seq<Checkpoint>>,
    command: string)

  /** Exceptions raised by the query code, each named after the Python error it stands for. */
  datatype Error =
    | NullCheckpoints                         // TypeError: iterating a null checkpoint list
    | NoCheckpoints                           // IndexError: the primary-metric tally is empty
    | MissingMetric(index: nat, name: string) // KeyError: a checkpoint lacks the winning metric
    | UnorderedMetric(index: nat)             // TypeError: two metric values cannot be compared
    | NoColon(line: string)                   // ValueError: a long line has no ':'
    | WrongArity(text: string, token: string) // ValueError: a filter splits into more than two parts
    | InvalidFormat(text: string)             // Exception: a filter holds no operator
    | UnorderedKeys                           // TypeError: two sort keys cannot be compared
    | NotFound(partial: string)               // KeyError: no run id has the given prefix
    | Ambiguous(count: nat, partial: string)  // Exception: several run ids have the prefix
}
