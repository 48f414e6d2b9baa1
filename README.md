# sake, modelled in Dafny

`sake` is a small command-line inspector for a Keepsake experiment
repository. Keepsake stores each experiment as a JSON record under
`metadata/experiments/`. The record holds the run's hyper-parameters and a
list of checkpoints, each with its metrics and a primary metric with a goal.
`sake list` filters and sorts those experiments and renders them. It takes
filter expressions such as `lr<=0.01`, `adam in optimizer` or
`loss<1 or acc>0.9`, and a sort field. This project models that query core,
in both of its versions.

**The Python inspector (`sake.py`).**
- `BestCheckpoint`: `get_best_checkpoint`.
  - The tally loop counts each (primary metric, goal) pair and keeps the first-seen order.
  - The winning pair has the largest count. Among equal counts, the pair first seen latest wins.
  - The running-best loop under "maximize" or "minimize" keeps the earliest checkpoint among equal bests.
  - Every exception it can raise is modelled. `get_best_step` on a run whose checkpoint list is null raises a `TypeError` (`Runs.Error.NullCheckpoints`), which `BestCheckpoint.BestStep` models.
- `FieldResolver`: `get_field`. Look-up order: parameters, then the best checkpoint, then the first checkpoint that holds the name, then the default.
- `FilterCompiler`: `compile_filter`. Operators are tried in the source's fixed order. Each text is split into exactly two parts and both are stripped.
- `FilterExamples`: worked instances of `compile_filter`.
- `FilterEval`: `Filter.__call__` and `try_fallback`.
  - The literal is converted to the type of the field's value.
  - Comparisons that raise read as false.
  - `created` and `n_checkpoints` are special fields.
  - `or` short-circuits.
- `Pipeline`: the filter-and-sort part of `list_experiments` and the prefix lookup of `get_experiment`.
- `Presenter`: `_present`, `maybe_trim`, `_select`, `get_params` and `get_metrics`.
- `Values`: Python's comparison semantics on the values a record holds. Comparing values of unrelated types raises `TypeError`.
- `Runs`: the run record and the errors.
- `Text` and `Sequences`: the string built-ins and the list comprehensions the code relies on.

**The Rust port (`src/main.rs`), module `RustSake`.**
- `find_field`: parameters, then the first checkpoint holding the key. There is no best-checkpoint step.
- `Filter::from_str`: splits at the first `=` and trims neither side.
- `value_to_string` and `Filter::test`.
- The `Display` text of `SakeError`.
- The `file://` location check.
- The filter step of `list_experiments`.

Python exceptions are modelled as the `Err` side of a `Result`.

Where the description of the tool and its code differ, the model follows the code:
- `A or B or C` is not a three-way disjunction. The text splits into more than two parts, the tuple unpacking raises, and the filter is an error (`FilterExamples.OrChainRejected`).
- `_present` is not idempotent:
  - Exactly `num_values` lines still gain a `"..."` line (`Presenter.ExactCountGainsEllipsis`).
  - A long line whose field name exceeds 57 characters loses its `':'` when trimmed, so trimming it again raises (`Presenter.LongNameLosesColon`).
- `value in field` tests the field's value directly. On a text field it is a substring test. On a field of any other type it is false, because Python's `in` on a non-string raises `TypeError`.
- In the Rust port there is no `!=` filter: `a!=b` compares the field `a!` with `b` (`RustSake.BangIsPartOfTheField`).
- A Rust filter never matches a number or `false`. `value_to_string` has no text for them.
- A Rust filter value of `null` or `true` also matches the JSON `null` or `true` (`RustSake.TestIff`).

## Model

| member | source | states |
|---|---|---|
| Runs.Get | sake.py:28-29 | `key in d` / `d[key]`: a value exactly when some entry has the key, and that value is an entry of the dict |
| Values.Less | sake.py:126-129 | Python's `<` is defined exactly on two numbers, two strings or two datetimes; anything else raises |
| Values.LessEq | sake.py:236-239 | `<=` is defined on exactly the same pairs as `<` |
| Values.Greater | sake.py:259 | `a > b` is defined on the same pairs as `<` and never holds together with `a < b` |
| Values.GreaterEq | sake.py:244 | `a >= b` is defined on the same pairs as `<` and is exactly "not `a < b`" there |
| Values.Equal | sake.py:254 | `a == b` never raises; numbers compare by value across bool, int and float, other kinds only with their own kind (properties in EqualIsEquivalence, EqualIffNeitherLess) |
| Values.Member | sake.py:229 | `b in a` is defined only when both are strings |
| Values.LessIrreflexive | sake.py:126-129 | no orderable value is below itself |
| Values.LessAsymmetric | sake.py:126-129 | `a < b` excludes `b < a` |
| Values.NotLessThenLess | sake.py:126-129 | `a <= b < c` gives `a < c` |
| Values.LessThenNotLess | sake.py:126-129 | `a < b <= c` gives `a < c` |
| Values.NotLessTransitive | sake.py:126-129 | "not below" is transitive |
| Values.LessEqIsNotGreater | sake.py:236-244 | `<=` is exactly "not `>`" on comparable values |
| Values.LessTotal | sake.py:126-129 | two comparable values are ordered one way or are equivalent |
| Values.EqualIsEquivalence | sake.py:254 | `==` is reflexive, symmetric and transitive |
| Values.EqualIffNeitherLess | sake.py:249-254 | on comparable values `==` holds exactly when neither `<` direction does, so `=`, `<` and `>` agree |
| BestCheckpoint.IndexOf | sake.py:118 | the position of a pair in the tally, or a proof that it is absent |
| BestCheckpoint.FirstIndex | sake.py:118-119 | the first checkpoint nominating a pair: it nominates it and none before does |
| BestCheckpoint.TallyOf | sake.py:114-120 | a non-empty checkpoint list gives a non-empty tally |
| BestCheckpoint.TallyOfMatches | sake.py:114-120 | the tally holds each nominated pair once, with its exact count, in first-seen order, and covers every checkpoint |
| BestCheckpoint.BumpSeen | sake.py:118-120 | one loop round on a pair already tallied keeps the tally invariant |
| BestCheckpoint.BumpUnseen | sake.py:118-120 | one loop round on a new pair keeps the tally invariant |
| BestCheckpoint.NewPairUnseen | sake.py:118-119 | a pair missing from the tally first occurs at the checkpoint being added |
| BestCheckpoint.CountAbsent | sake.py:118-120 | a pair no checkpoint nominates has count 0 |
| BestCheckpoint.OccursInInit | sake.py:118-119 | adding a checkpoint does not move a pair's first occurrence |
| BestCheckpoint.LastMaxIndex | sake.py:122 | the last element of the stable sort by count: a maximal count, and strictly above every later entry |
| BestCheckpoint.WinnerMostFrequent | sake.py:114-122 | the winning pair is nominated, by at least as many checkpoints as any other; on a tie it was first seen later |
| BestCheckpoint.Winner | sake.py:122 | the last entry of the tally stably sorted by count, i.e. the maximal count first seen latest (proved in WinnerMostFrequent) |
| BestCheckpoint.TallyEntryNotBeaten | sake.py:122 | the entry picked from a correct tally is beaten by no checkpoint's pair |
| BestCheckpoint.ScanFrom | sake.py:125-131 | the running-best loop picks a checkpoint index, or raises only `KeyError` or `TypeError` |
| BestCheckpoint.Best | sake.py:113-132 | the winner's metric name and a valid index; it raises `NoCheckpoints` exactly for an empty list |
| BestCheckpoint.TallyLoop | sake.py:114-120 | the imperative tally loop builds exactly the tally |
| BestCheckpoint.ScanLoop | sake.py:123-131 | the imperative running-best loop returns exactly the scan's outcome, errors included |
| BestCheckpoint.GetBestCheckpoint | sake.py:113-132 | the method returns exactly the specified best checkpoint or error |
| BestCheckpoint.BestStep | sake.py:134-136 | a null checkpoint list raises; otherwise the step of the checkpoint the selector picks, failing exactly when and as the selector fails |
| BestCheckpoint.ScanMaximize | sake.py:126-128 | the maximizing scan ends on a checkpoint no other exceeds and every earlier one is below |
| BestCheckpoint.ScanMinimize | sake.py:129-131 | the minimizing scan ends on a checkpoint no other undercuts and every earlier one is above |
| BestCheckpoint.ScanOtherGoal | sake.py:125-131 | with any other goal the scan never reads a metric and keeps checkpoint 0 |
| BestCheckpoint.BestIsExtremal | sake.py:113-132 | the chosen checkpoint is the earliest maximum (maximize) or the earliest minimum (minimize); with any other goal it is checkpoint 0 |
| BestCheckpoint.BestSucceedsIff | sake.py:113-132 | the selector succeeds exactly when checkpoint 0 has the metric and, under maximize or minimize, every later checkpoint has a comparable value |
| BestCheckpoint.ScanStep | sake.py:126-131 | one loop round on a present, comparable value either replaces the running best or keeps it |
| BestCheckpoint.ScanSucceedsIff | sake.py:125-131 | the scan succeeds exactly when every remaining value is present and comparable with checkpoint 0's |
| BestCheckpoint.ScanStops | sake.py:126-131 | a missing or incomparable value makes the scan raise |
| FieldResolver.FirstHolder | sake.py:37-39 | the first checkpoint holding the field; no earlier checkpoint holds it |
| FieldResolver.FirstHolderIs | sake.py:37-39 | an index holding the field with none before it is the first holder |
| FieldResolver.GetField | sake.py:27-41 | the method with early returns and its loop computes exactly the specified resolution |
| FieldResolver.ResolveOrder | sake.py:27-41 | the lookup order: params, then null checkpoints give the default, then the best checkpoint's errors or metric, then the first holder, then the default |
| FieldResolver.ResolveField | sake.py:27-41 | `get_field`: params, then the default on a null list, then the best checkpoint's metric or error, then the first checkpoint holding the name, then the default (stated by ResolveOrder, implemented by GetField) |
| FilterCompiler.Token | sake.py:221-259 | every operator token is non-empty |
| FilterCompiler.Trigger | sake.py:226-259 | the operator chosen occurs in the text, and no operator tested before it does |
| FilterCompiler.Compile | sake.py:220-261 | `compile_filter`: an " or " split into two compiled sides, else a leaf at the first operator in source order, else the invalid-format error (stated by LeafDispatch, OrSplitsOnce, ErrorNamesFailingPart) |
| FilterCompiler.TriggerIs | sake.py:226-259 | the first operator, in the source's order, that occurs is the one chosen |
| FilterCompiler.LeafDispatch | sake.py:226-259 | every compiled leaf comes from an " or "-free text split at the only occurrence of the first occurring operator; both sides are stripped, and `in` swaps them |
| FilterCompiler.ErrorNamesFailingPart | sake.py:220-261 | every error is an invalid-format or arity error naming a part of the text that, compiled alone, fails with that same error |
| FilterCompiler.InvalidPartHasNoOperator | sake.py:220-261 | the part an invalid-format error names holds neither " or " nor any operator |
| FilterCompiler.InvalidFormatIff | sake.py:261 | the whole text is reported as invalid exactly when it holds no operator |
| FilterCompiler.OrSplitsOnce | sake.py:221-224 | a text with " or " compiles exactly when it splits into two parts that both compile, giving their `or` |
| FilterCompiler.CompileLeaf | sake.py:226-259 | an " or "-free text split once at its trigger compiles to that leaf |
| FilterCompiler.CompileWrongArity | sake.py:226-259 | an " or "-free text whose trigger token does not cut it in exactly two fails with that token's unpacking error |
| FilterCompiler.CompileOr | sake.py:221-224 | a text split once at " or " compiles to the `or` of its two sides |
| FilterExamples.CompileLessEqExample | sake.py:236-239 | `x<=5` is split at `<=`, not at `<` or `=` |
| FilterExamples.InHasNoOr | sake.py:221 | words without spaces around " in " never hold " or " |
| FilterExamples.CompileIn | sake.py:226-229 | `f in g` compiles to a test of whether the field `g` contains `f` |
| FilterExamples.CompileOrOfTwo | sake.py:221-224 | `A or B` compiles to the `or` of the two sides, left first |
| FilterExamples.OrOfTwoSplits | sake.py:221-222 | `A or B` splits back into `A` and `B` |
| FilterExamples.OrChainFacts | sake.py:221-222 | `A or B or C` does not split into two parts |
| FilterExamples.OrChainRejected | sake.py:221-222 | `A or B or C` is an error, not a three-way `or` |
| FilterExamples.DoubleEqualsRejected | sake.py:251-252 | `a=b=c` is an error: its split has three parts |
| FilterEval.Fallback | sake.py:187-191 | `try_fallback`: the converted value, or the literal text when conversion raises |
| FilterEval.Convert | sake.py:209-211 | the literal becomes a value of the field's own type or stays text; `str` and `bool` always convert, `None` and `datetime` never do |
| FilterEval.Apply | sake.py:212-215 | `=` is Python equality, `!=` its negation, the orderings are false on incomparable values, and `in` is a substring test on two texts |
| FilterEval.Eval | sake.py:200-217 | evaluating a filter fails only with the best-checkpoint errors of `get_field` |
| FilterEval.Operands | sake.py:200-211 | `created` and `n_checkpoints` are read from the run with their own converters; any other field goes through `get_field` with default None and its type converts the literal (stated by CreatedReadsTimestamp, CheckpointCountCompared, AbsentFieldOnlyDiffers) |
| FilterEval.CheckpointCount | sake.py:205 | the number of checkpoints, 0 when the list is null (stated by CheckpointCountCompared) |
| FilterEval.BestErrorKinds | sake.py:27-41 | field resolution fails only with the errors of `get_best_checkpoint` |
| FilterEval.OrShortCircuits | sake.py:224 | `lhs or rhs` is true when the left is, even if the right raises; otherwise it is the right's outcome |
| FilterEval.NeNegatesEq | sake.py:231-234 | `!=` is exactly the negation of `=` on every run |
| FilterEval.LessAndAtLeastExclusive | sake.py:241-249 | `<` and `>=` never both hold, and both are false exactly on incomparable operands |
| FilterEval.AbsentFieldOnlyDiffers | sake.py:208-215 | a field no parameter or metric holds is `None`: only `!=` is true |
| FilterEval.CreatedReadsTimestamp | sake.py:201-203 | `created` reads the run's timestamp and ignores a parameter of that name; an unparsable date makes only `!=` true |
| FilterEval.CheckpointCountCompared | sake.py:204-206 | `n_checkpoints` compares the number of checkpoints, 0 when there are none |
| FilterEval.InTestsSubstring | sake.py:226-229 | `v in field` is a substring test on a text field and false on any other |
| Pipeline.CompileAll | sake.py:268 | every filter compiled in order, or the first failing text's error |
| Pipeline.AllPass | sake.py:270 | `all(...)`: true exactly when every filter accepts; otherwise the first false or raising filter decides |
| Pipeline.FilterRuns | sake.py:269-271 | the runs every filter accepts, none invented; no filter keeps all |
| Pipeline.FilterRunsOne | sake.py:269-271 | a single run is kept exactly when every filter accepts it |
| Pipeline.FilterRunsAppend | sake.py:269-271 | filtering a concatenation keeps each part's runs in order, so order and repetitions are preserved |
| Pipeline.Keys | sake.py:272-275 | one sort key per run, the given field (default 0.0) or the creation time |
| Pipeline.SortKey | sake.py:272-275 | the sort key of one run: `get_field(sort, 0.0)` with a sort field, the creation time otherwise |
| Pipeline.BeforeIrreflexive | sake.py:273 | the stable-sort order puts no entry before itself |
| Pipeline.BeforeTransitive | sake.py:273 | the stable-sort order is transitive on comparable keys |
| Pipeline.BeforeTotal | sake.py:273 | two distinct entries are ordered one way or the other |
| Pipeline.Insert | sake.py:273 | inserting one position adds exactly that position |
| Pipeline.InsertInOrder | sake.py:273 | insertion keeps the order sorted |
| Pipeline.InOrderTail | sake.py:273 | a suffix of a sorted order is sorted |
| Pipeline.InOrderCons | sake.py:273 | prefixing an entry that comes first keeps the order sorted |
| Pipeline.SortOrder | sake.py:273 | the stable sort yields `n` positions below `n` |
| Pipeline.SortOrderPermutes | sake.py:273 | the order is a permutation of the positions |
| Pipeline.SortOrderSorts | sake.py:273 | the order sorts by key, and keeps positions on equal keys |
| Pipeline.SortOrderStep | sake.py:273 | inserting one more position keeps the order sorted |
| Pipeline.BeforeMeans | sake.py:273 | read back: no later key is smaller, and equal keys keep their positions |
| Pipeline.SortOrderStable | sake.py:273-275 | `sorted` is a permutation in which no key is below an earlier one and equal keys keep their original order |
| Pipeline.RangeStep | sake.py:273 | the positions below `n` are those below `n - 1` plus `n - 1` |
| Pipeline.Range | sake.py:273 | the positions `0 .. n - 1` in order |
| Pipeline.SortRuns | sake.py:272-275 | key errors escape; `TypeError` exactly when two or more keys are not all comparable; otherwise as many runs as given |
| Pipeline.SortRunsOrdered | sake.py:272-275 | the sorted runs are the runs through a permutation, in key order, stable |
| Pipeline.Permute | sake.py:273 | reading a list through positions |
| Pipeline.SortedSameRuns | sake.py:272-275 | sorting neither loses nor invents a run |
| Pipeline.SameElements | sake.py:273 | a list read through a permutation holds the same elements |
| Pipeline.ByCreatedNeverFails | sake.py:275 | sorting by creation time never raises |
| Pipeline.ListRunsKeeps | sake.py:268-275 | without filters or sort field every run is listed; otherwise exactly the runs every filter accepts |
| Pipeline.ListRuns | sake.py:264-275 | `list_experiments` without I/O: compile every filter, keep the runs all accept, sort stably by key (stated by ListRunsKeeps, FilterRunsAppend, SortRunsOrdered) |
| Pipeline.Matches | sake.py:167 | the file names with the given prefix |
| Pipeline.FindRun | sake.py:165-173 | the unique match; `KeyError` exactly when nothing matches; otherwise an error giving the number of matches |
| Pipeline.FindRunUnique | sake.py:165-173 | the lookup returns a matching name exactly when it is the only match |
| Pipeline.MatchesCount | sake.py:167-168 | no match gives an empty list; a single match gives exactly it |
| Pipeline.MatchesTwo | sake.py:167-170 | two matching names count as at least two |
| Presenter.MaybeTrim | sake.py:48-54 | short lines are unchanged; a long line trims exactly when it holds a `':'`, and raises otherwise |
| Presenter.TrimCut | sake.py:51-53 | a trimmed line is 60 characters, or runs up to the colon, keeps the field name and ends with `"..."` |
| Presenter.RowLimit | sake.py:56-57 | with at least `n` lines: the first `n + 1` of them and a `"..."`; otherwise all lines |
| Presenter.TrimAll | sake.py:59 | every line trimmed in order, or the first failing line's error |
| Presenter.TrimAllIs | sake.py:59 | the comprehension yields exactly the per-line trims |
| Presenter.TrimAllFails | sake.py:59 | the comprehension raises the first failing line's error |
| Presenter.Present | sake.py:44-60 | the method reassigning its list computes exactly the presented text or error |
| Presenter.PresentLines | sake.py:44-60 | at most `num + 2` rows (7 by default); the only failure is a long line without a colon, so short lines always present |
| Presenter.PresentText | sake.py:44-60 | the presented rows joined by newlines, failing exactly when the rows fail and only with the colon error |
| Presenter.PresentOf | sake.py:56-60 | the presented text is the trimmed rows joined by newlines, or the trim error |
| Presenter.RowLimitBound | sake.py:56-57 | at most `n + 2` rows, a `"..."` whenever the input reaches `n` lines |
| Presenter.ExactCountGainsEllipsis | sake.py:56-57 | exactly `n` lines still gain `"..."`, and presenting again adds a second one |
| Presenter.ShortInputUnchanged | sake.py:56-60 | fewer short lines than the limit are presented unchanged |
| Presenter.TrimSettles | sake.py:51-53 | a line whose colon is within 57 characters trims to 60 characters and is then stable |
| Presenter.LongNameLosesColon | sake.py:51-53 | a field name over 57 characters loses its colon, and trimming again raises |
| Presenter.Keep | sake.py:69 | filtering never adds entries |
| Presenter.KeepAllIff | sake.py:69-70 | nothing is left out exactly when every key is selected |
| Presenter.KeepDropMembers | sake.py:69 | the kept entries are exactly those with selected keys, the dropped exactly the others |
| Presenter.KeepAppend | sake.py:69 | filtering preserves order |
| Presenter.DropAppend | sake.py:69 | the complementary filter preserves order |
| Presenter.KeepDropPermutation | sake.py:69 | kept and dropped entries together rearrange the input |
| Presenter.KeepOfParts | sake.py:69 | filtering is idempotent and the two parts are disjoint |
| Presenter.Select | sake.py:63-70 | no selection, or one naming no key, keeps everything with `False`; otherwise the selected entries and whether any entry was left out |
| Presenter.PrimaryFirstIsStableSort | sake.py:100 | sorting by `-int(key == name)` is a rearrangement with the primary metric first and both groups in their original order |
| Presenter.PrimaryFirst | sake.py:100 | the entries named `name` followed by the others, each group in its original order (stated by PrimaryFirstIsStableSort) |
| Presenter.NamedBeforeOthers | sake.py:100 | named entries followed by the others have every named entry in front |
| Presenter.Lines | sake.py:102-105 | one `key: value` line per entry, in order |
| Presenter.GetMetrics | sake.py:95-111 | null checkpoints give "0 checkpoints"; a best-checkpoint error escapes |
| Presenter.KeepFirstIsGet | sake.py:100 | the first entry kept for a name is the one `d[name]` reads |
| Presenter.MetricsOrder | sake.py:98-105 | the metric block is the best step line, then the selected metrics with the primary metric first |
| Presenter.MetricItems | sake.py:87-93 | a null checkpoint list gives no items; otherwise the best checkpoint's selected metrics with the primary metric moved first and the rest in their order (`PrimaryFirst`), a rearrangement of them, failing exactly as the selector fails |
| Presenter.MetricRows | sake.py:95-111 | the lines and row count `get_metrics` hands to `_present`; none for a null list, the selector's error, else the step line and the metrics primary first (stated by MetricsOrder, SelectionEndsWithEllipsis) |
| Presenter.GetParams | sake.py:78-81 | `get_params`: the selected parameters, one line each, presented (stated by GetParamsRows) |
| Presenter.GetParamsRows | sake.py:78-81 | `get_params` is the joined presented rows of the selected parameters: at most 7 rows unless everything is shown, failing only on a long line without a colon |
| Presenter.MetricItemsAreShown | sake.py:87-105 | the metric lines of `get_metrics` render exactly the items `_get_metrics` returns |
| Presenter.SelectionEndsWithEllipsis | sake.py:109-111 | a selection that left metrics out always ends the block with `"..."` |
| Sequences.Collect | sake.py:268 | a comprehension maps every element in order, or raises the first element's error |
| Sequences.AllTrue | sake.py:270 | `all(...)` over tests that may raise: the first false or raising test decides |
| Sequences.Retain | sake.py:269-271 | the elements a test accepts, none invented, all when every test is true, and exactly the reference filter `Survivors` |
| Sequences.SurvivorsAppend | sake.py:269-271 | the reference filter of a concatenation is the concatenation of the filtered parts |
| Sequences.RetainAppend | sake.py:269-271 | retaining from `a + b` gives what is retained from `a` followed by what is retained from `b` |
| Sequences.CollectIs | sake.py:59 | a comprehension of elementwise results yields exactly them |
| Sequences.CollectFails | sake.py:59 | a comprehension raises its first failing element's error |
| Text.FindFirst | sake.py:52 | `str.index`: an occurrence, and no earlier one |
| Text.OccursShift | sake.py:52 | an occurrence past the first character is one in the rest |
| Text.ContainsIsInfix | sake.py:221 | the leftmost search finds something exactly when the substring occurs |
| Text.ContainsAt | sake.py:221 | any occurrence makes `in` true |
| Text.Join | sake.py:60 | `"\n".join` over the list |
| Text.Split | sake.py:222 | `str.split` yields pieces that join back to the text and hold no separator, each cut at the leftmost occurrence of what remains, and one piece exactly when the separator is absent |
| Text.NothingBeforeFirst | sake.py:222 | the text before the first separator holds none |
| Text.SplitPair | sake.py:222 | the two-name unpacking succeeds exactly on a two-piece split, giving the text's parts around its first separator |
| Text.AbsentFirstChar | sake.py:221 | a separator whose first character is absent does not occur |
| Text.OccursAtStart | sake.py:221 | an occurrence begins with the separator's first two characters |
| Text.AbsentFirstPair | sake.py:221 | a separator whose first two characters are never adjacent in the text does not occur |
| Text.FirstOccurrence | sake.py:222 | an occurrence with no earlier copy of the separator's first character is the leftmost |
| Text.SplitsInTwo | sake.py:222 | a text with exactly one occurrence unpacks into the two sides around it |
| Text.SplitsInMore | sake.py:222 | a second occurrence after the first makes the two-name unpacking fail |
| Text.StripLeft | sake.py:228 | `lstrip` removes a whitespace prefix only |
| Text.StripRight | sake.py:228 | `rstrip` removes a whitespace suffix only |
| Text.Strip | sake.py:228 | `strip` gives a middle slice with no whitespace at either end |
| Text.StripKeeps | sake.py:228 | a text with no whitespace at its ends is unchanged by `strip` |
| Text.LexIrreflexive | sake.py:126 | no string is below itself |
| Text.LexTransitive | sake.py:126 | string order is transitive |
| Text.LexTotal | sake.py:126 | two strings are equal or ordered one way or the other |
| Text.NatToString | sake.py:102 | `str(n)`: the decimal numeral whose digits denote `n`, with no leading zero |
| RustSake.Display | src/main.rs:30-41 | an error prints as its kind's label followed by its message |
| RustSake.Label | src/main.rs:30-41 | the prefix each error kind prints with (distinctness proved in DisplayInjective) |
| RustSake.DisplayInjective | src/main.rs:30-41 | two different errors never print the same text |
| RustSake.Lookup | src/main.rs:106-107 | `Map::get`: a value exactly when some entry has the key, and that value is an entry |
| RustSake.FirstMetric | src/main.rs:111-119 | the first checkpoint's metric for the key, or none when no checkpoint's metrics object holds it |
| RustSake.FindFieldScan | src/main.rs:103-121 | the method with early returns and its loop computes exactly the specified lookup |
| RustSake.FindField | src/main.rs:103-121 | the key in params, else in the first checkpoint whose metrics hold it, else none (stated by ParamsFirst, FirstHolderWins, FindFieldNoneIff) |
| RustSake.ParamsFirst | src/main.rs:104-108 | a parameter wins over every metric |
| RustSake.FirstHolderWins | src/main.rs:111-119 | without such a parameter, the first checkpoint holding the key decides |
| RustSake.FindFieldNoneIff | src/main.rs:103-121 | nothing is found exactly when neither the parameters nor any checkpoint hold the key |
| RustSake.SplitOnce | src/main.rs:141 | `split_once`: succeeds exactly when the separator occurs, giving the parts around its first occurrence |
| RustSake.SplitOnceOfJoin | src/main.rs:141 | a text cut at a first occurrence splits back into the same halves |
| RustSake.ParseFilter | src/main.rs:140-152 | parses exactly when the text holds `=`; the field and value reassemble the text and the field has no `=`; otherwise the "invalid filter" error |
| RustSake.ParseFilterOfJoin | src/main.rs:140-146 | `field=value` with no `=` in the field parses back to exactly that field and value |
| RustSake.BangIsPartOfTheField | src/main.rs:141-145 | `a!=b` is the field `a!` compared with `b` |
| RustSake.BadFilterMessage | src/main.rs:147-150 | a filter without `=` prints as "invalid repository: invalid filter: " and the text |
| RustSake.ValueToString | src/main.rs:171-179 | a text exists exactly for `null`, `true` and strings |
| RustSake.ValueToStringInverse | src/main.rs:171-179 | the values with text `s`: the string `s`, and `null` or `true` when `s` spells them |
| RustSake.TestIff | src/main.rs:154-168 | a filter accepts exactly when the found value is the string itself, or `null` / `true` spelled by the filter value |
| RustSake.Test | src/main.rs:154-168 | `Filter::test`: the found value's text equals the filter value (stated by TestIff, NonTextNeverMatches) |
| RustSake.Passes | src/main.rs:222 | every filter's test accepts the experiment, as `filters.iter().all(...)` |
| RustSake.NonTextNeverMatches | src/main.rs:154-168 | a number, `false`, array or object never matches |
| RustSake.Selected | src/main.rs:220-222 | exactly the experiments every filter accepts, none invented, in the order of the reference selection `Passing`; no filter keeps all |
| RustSake.PassingAppend | src/main.rs:220-222 | the reference selection of a concatenation is the selection of each part, in order |
| RustSake.SelectedAppend | src/main.rs:220-222 | the selection keeps the experiments' order |
| RustSake.ListExperiments | src/main.rs:213-222 | fails exactly when some filter text lacks `=`, with the first such text's error |
| RustSake.ListExperimentsKeeps | src/main.rs:213-222 | an experiment is listed exactly when every parsed filter accepts it |
| RustSake.NoFilterListsAll | src/main.rs:220-222 | no filter lists every experiment in order |
| RustSake.RepositoryLocation | src/main.rs:186-195 | only `file://` locations are accepted, and the rest of the text is the location; any other gives the error naming it |
| RustSake.RepositoryLocationOfFile | src/main.rs:186-188 | `file://` followed by a path gives back that path |

## Left out

- Reading files, directories and `keepsake.yml`, JSON and YAML parsing, the command line (`argparse`, `structopt`), `rich` tables, the pager, `print`/`println!` and the `show` and `diff` commands. These are I/O. The records are values handed to the model.
- `Experiment.__init__` parsing `created` with `datetime.fromisoformat`, and `strftime`. A timestamp is an opaque integer.
- `int()`, `float()`, `bool()` and dateutil's `parse` on filter literals. They are parameters (`FilterEval.Coercions`): partial functions for the first two and the last, and a total function for `bool`.
- Floating point. Floats are reals, so rounding and NaN are not modelled.
- Rendering a value with `f"{value}"`. It is a parameter `render`, and `_present_value` is the identity it is in the code.
- Python dicts and JSON objects are association lists with distinct keys. Hashing and dict identity are not modelled.
- Parameters and metrics that are lists or objects. `Values.Value` has scalar kinds only; the Rust `Json` type keeps arrays and objects.
- `get_experiment` works on file names. The model takes the list of names and returns the matching one; loading that file is I/O.
- `_get_location` in the Python inspector. It is configuration-file I/O; the Rust `file://` check is modelled instead.
- `get_keys` is never called. `_get_metrics` is modelled (`Presenter.MetricItems`); its caller, the `diff` command, is left out as I/O.
- Unicode beyond code points: `Text.IsSpace` lists the code points `str.isspace` accepts, and strings are sequences of code points with no normalisation.
- The Rust `list_experiments` output line: the 7-byte id prefix (`split_at(7)`, which panics on shorter ids) and the `method` field. Only the filter step is modelled.
- The Rust `From` conversions of I/O, YAML and JSON errors. Their messages are carried as text.
- Pipeline.SortRuns: does not model the exact comparisons Python's sort performs. It raises `TypeError` whenever two or more keys include an incomparable pair, the behaviour of any comparison sort that must order every element.
