# detect-parallelism, modelled in Dafny

`detect_parallelism.py` benchmarks three ways of fetching many URLs
concurrently (`run_human_curl_async`, `run_urllib2_multiprocessing`,
`run_curl_multiprocessing`) over a sweep of parallelism levels, and reports
the strategy and level with the smallest worst-case duration (`max`). This
project models the deterministic core of that program and proves its
properties:

- `Builtins` — the Python 2 built-ins the core relies on: `range(start,
  stop, step)` for a non-zero step (ascending or descending), and `min`/`max`
  of a non-empty sequence.
- `Levels` — the parallelism test array `range(minimum, maximum + 1, step)`.
  Building it fails on a zero step (`range` raises). It also fails when the
  array is empty, because `min`/`max` of it raise when the output file name
  is built. Both failures happen before any measurement.
- `Sweep` — `measure_all_query_url_implementations`. It runs two nested
  loops, levels outside and the strategy triple inside, and appends one
  summary record per call of the measurement routine. The routine is an
  oracle parameter `measure: Call -> Record`. The method also returns the
  log of calls it made, so that the arguments of every call can be stated.
- `Selector` — the final filter `df[df['max'] == min(df['max'])]` followed by
  `.item()`. It succeeds only when exactly one row attains the smallest
  `max`. A tie fails, because the code has no tie-break. An empty table fails
  too.
- `DetectParallelism` — `find_best_query_urls_implementation` with its I/O
  removed: levels, then sweep, then selection.

Facts about the code that the model keeps:
- The code has no tie-break: a tie for the smallest `max` makes `.item()`
  raise (`Selector.SelectRejectsTie`).
- The code passes any step to `range`. A negative step with
  `minimum > maximum + 1` sweeps descending levels, and every one of them
  lies above `maximum + 1` (`Levels.DescendingLevels`). A negative step with
  `minimum == maximum` gives an empty array, so the run fails.
- `repetitions` is passed through unchecked.
- Every call of the measurement routine appends a record: three per level.

## Model

| member | source | states |
|---|---|---|
| `Builtins.Range` | detect_parallelism.py:77-81 | `range(start, stop, step)` is empty exactly when start is not strictly before stop in the step's direction; otherwise it starts at start |
| `Builtins.RangeAt` | detect_parallelism.py:77-81 | element i of the range is `start + i * step` |
| `Builtins.RangeBounds` | detect_parallelism.py:77-81 | every element lies in `[start, stop)` for a positive step, in `(stop, start]` for a negative one |
| `Builtins.RangeLast` | detect_parallelism.py:77-81 | the last element lies within one step of the (excluded) stop bound |
| `Builtins.RangeLength` | detect_parallelism.py:77-81 | the length of `range(start, stop, step)` is the ceiling of the span divided by the step, or 0 |
| `Builtins.RangeHasTerm` | detect_parallelism.py:77-81 | every progression term `start + k * step` that lies before stop is in the range (no level is skipped) |
| `Builtins.Min` | detect_parallelism.py:89 | `min` of a non-empty sequence is an element of it and at most every element |
| `Builtins.Max` | detect_parallelism.py:90 | `max` of a non-empty sequence is an element of it and at least every element |
| `Levels.TestArray` | detect_parallelism.py:77-90 | the test array fails with `ZeroStep` exactly when step is 0, and with `NoLevels` exactly when (step > 0 and minimum > maximum) or (step < 0 and minimum <= maximum + 1); on success it is non-empty and starts at minimum |
| `Levels.AscendingLevels` | detect_parallelism.py:77-81 | with step > 0 and minimum <= maximum the array exists, its i-th level is `minimum + i * step`, every level lies in `[minimum, maximum]`, and consecutive levels differ by exactly step |
| `Levels.LevelCount` | detect_parallelism.py:77-81 | with step > 0 and minimum <= maximum there are `(maximum - minimum + step) / step` = ceil((maximum - minimum + 1) / step) levels; minimum == maximum gives exactly `[minimum]` |
| `Levels.LevelsAreTheProgression` | detect_parallelism.py:77-81 | with step > 0, v is a level if and only if minimum <= v <= maximum and v is `minimum + k * step` for some k >= 0 |
| `Levels.DescendingLevels` | detect_parallelism.py:77-81 | with step < 0 and minimum > maximum + 1 the array exists, starts at minimum, descends by exactly one step, and every level lies in `(maximum + 1, minimum]`, so the sweep never reaches maximum + 1 |
| `Levels.AscendingLabel` | detect_parallelism.py:88-91 | with step > 0, `min` of the array is minimum and `max` of it is the last level, which lies in `(maximum - step, maximum]` |
| `Sweep.SweepCallsAt` | detect_parallelism.py:52-63 | a sweep makes exactly 3 * len(levels) calls, and call i uses level `levels[i / 3]` and strategy `i % 3` |
| `Sweep.SweepCoversGrid` | detect_parallelism.py:52-63 | every (level j, strategy k) cell is measured, at index 3 * j + k |
| `Sweep.SweepCallArguments` | detect_parallelism.py:58-63 | every call receives the caller's `url_list` and its repetition count, and its parallelism is one of the levels |
| `Sweep.MeasureAll` | detect_parallelism.py:24-64 | the nested loops make exactly the sweep's calls, in order, and return their measured records in the same order |
| `Selector.MinMax` | detect_parallelism.py:117 | `min(df['max'])` of a non-empty table is attained by some row and undercut by none |
| `Selector.RowsWithMax` | detect_parallelism.py:117 | the mask filter keeps only table rows with the given `max`, keeps every such row, and keeps nothing when no row has it |
| `Selector.Select` | detect_parallelism.py:117-122 | selection fails with `EmptyTable` exactly on an empty table, and on a non-empty table fails only with `AmbiguousOptimum` of at least two rows; on success it names the identifier and parallelism of a row whose `max` is the table's smallest |
| `Selector.SingleRowHasUniqueIndex` | detect_parallelism.py:117-121 | if the filter keeps a single row, exactly one table index has that `max` |
| `Selector.UniqueIndexGivesSingleRow` | detect_parallelism.py:117-121 | if exactly one table index has a given `max`, the filter keeps exactly that row |
| `Selector.SelectSucceedsIffUniqueMinimiser` | detect_parallelism.py:117-122 | selection succeeds if and only if some row has a strictly smaller `max` than every other row |
| `Selector.SelectFindsUniqueMinimiser` | detect_parallelism.py:117-122 | when a row's `max` is strictly smaller than every other row's, selection returns that row's identifier and parallelism |
| `Selector.SelectRejectsTie` | detect_parallelism.py:117-121 | two rows sharing the smallest `max` make selection fail with `AmbiguousOptimum` of at least two rows (no tie-break) |
| `Selector.SelectFailureIsTie` | detect_parallelism.py:117-121 | when selection fails on a non-empty table, two distinct rows share the smallest `max` |
| `DetectParallelism.FindBestQueryUrlsImplementation` | detect_parallelism.py:67-128 | a run whose test array fails makes no measurement call and returns that failure; otherwise its calls are exactly the sweep's and its result is the selection over the measured table |
| `DetectParallelism.MeasurementCount` | detect_parallelism.py:77-102 | with step > 0 and minimum <= maximum a run makes 3 * ceil((maximum - minimum + 1) / step) measurement calls |
| `DetectParallelism.BestIsUniqueOptimum` | detect_parallelism.py:98-128 | a successful run returns the identifier and parallelism of the one measured record whose `max` is strictly below every other record's |
| `DetectParallelism.ChosenParallelismIsALevel` | detect_parallelism.py:77-122 | if the measurement routine reports the parallelism it was given, the chosen parallelism is a level; with step > 0 it lies in `[minimum, maximum]` on the progression from minimum |

Because `Select` and `BestImplementation` are functions of their inputs
alone, running the selection again on the same table gives the same answer.

## Left out

- The fetch strategies and `repeat_measurement_and_describe`: the code is in `query_model`, which is not part of this model, and it does network I/O and concurrency. A total oracle `measure: Call -> Record` stands in for it, and nothing is assumed about the records it returns.
- `repeat_measurement_and_describe` as a function: the routine is modelled as a deterministic function of its arguments that cannot mutate `url_list`. The original passes the same mutable Python list to every call and gets different timings from call to call; nothing in the code guarantees that the routine leaves the list unchanged.
- `get_actor_list`: it fetches the URL list over the network, so the list is a parameter of the model.
- The output file name (`conf2strargs`, the `datetime.now()` timestamp), the `os.path.exists` assertion, pickling the table, and all `print` output and `quiet` handling are I/O. A run whose selection fails has already written its file in the original; the model has no file.
- The display sort on `max`, `median`, `sd` affects printing only, not the returned pair.
- Durations are floating-point in the original. The model treats them as abstract ordered integers, so there is no NaN and no rounding.
- `Builtins.Range`: does not model that Python 2 `range` raises on a zero step; `Levels.TestArray` reports that case as `ZeroStep` before calling it.
- An empty result table fails in the original when the `max` column is looked up, before `min` is called. The model reports both cases as the single error `EmptyTable`.
- The `main()` argparse wiring and `setup.py` are command-line and packaging glue.
