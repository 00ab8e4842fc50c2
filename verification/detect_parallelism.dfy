/**
  `find_best_query_urls_implementation` without its I/O: build the test
  array of parallelism levels (which fails before anything is measured on
  a zero step or an empty array), sweep every level and strategy through
  the measurement oracle, and select the configuration with the smallest
  worst-case duration. The URL list, fetched from the actor source in the
  original, is a parameter.
 */
module DetectParallelism {
  import opened Builtins
  import opened Levels
  import opened Sweep
  import opened Selector

  datatype Error =
    | LevelsFailed(levelError: LevelError)      // raised before any measurement
    | SelectionFailed(selectError: SelectError) // raised after the sweep

  /** The outcome of a whole run, as a function of its inputs. */
  function BestImplementation(
    urls: seq<string>, repetitions: int, minimum: int, maximum: int, step: int, measure: Call -> Record
  ): Result<Choice, Error>
  {
    match TestArray(minimum, maximum, step)
    case Failure(e) => Failure(LevelsFailed(e))
    case Success(levels) =>
      match Select(Table(SweepCalls(urls, repetitions, levels), measure))
      case Failure(e) => Failure(SelectionFailed(e))
      case Success(choice) => Success(choice)
  }

  /**
    One run: levels, sweep, selection. A bad level configuration aborts
    with no measurement call at all; otherwise the calls are exactly those
    of the sweep over the levels.
   */
  method FindBestQueryUrlsImplementation(
    urls: seq<string>, repetitions: int, minimum: int, maximum: int, step: int, measure: Call -> Record
  ) returns (best: Result<Choice, Error>, calls: seq<Call>)
    ensures best == BestImplementation(urls, repetitions, minimum, maximum, step, measure)
    ensures TestArray(minimum, maximum, step).Failure? ==>
      calls == [] && best == Failure(LevelsFailed(TestArray(minimum, maximum, step).error))
    ensures TestArray(minimum, maximum, step).Success? ==>
      calls == SweepCalls(urls, repetitions, TestArray(minimum, maximum, step).value)
  {
    var levels := TestArray(minimum, maximum, step);
    if levels.Failure? {
      return Failure(LevelsFailed(levels.error)), [];
    }
    var points;
    points, calls := MeasureAll(urls, repetitions, levels.value, measure);
    var selected := Select(points);
    if selected.Failure? {
      best := Failure(SelectionFailed(selected.error));
    } else {
      best := Success(selected.value);
    }
  }

  /**
    With a positive step and minimum <= maximum, a run makes three
    measurement calls per level: 3 * ceil((maximum - minimum + 1) / step).
   */
  lemma MeasurementCount(urls: seq<string>, repetitions: int, minimum: int, maximum: int, step: int)
    requires step > 0 && minimum <= maximum
    ensures TestArray(minimum, maximum, step).Success?
    ensures |SweepCalls(urls, repetitions, TestArray(minimum, maximum, step).value)|
      == 3 * ((maximum - minimum + step) / step)
  {
    LevelCount(minimum, maximum, step);
    SweepCallsAt(urls, repetitions, TestArray(minimum, maximum, step).value);
  }

  /** Row i of the table is its unique minimiser and the choice names it. */
  ghost predicate IsChosenRecord(table: seq<Record>, i: int, choice: Choice)
  {
    UniqueMinimiser(table, i) && choice == Choice(table[i].identifier, table[i].parallelism)
  }

  /**
    A successful run returns the identifier and parallelism of the one
    measured record whose `max` is strictly below every other record's.
   */
  lemma BestIsUniqueOptimum(
    urls: seq<string>, repetitions: int, minimum: int, maximum: int, step: int, measure: Call -> Record
  )
    ensures BestImplementation(urls, repetitions, minimum, maximum, step, measure).Success? ==>
      TestArray(minimum, maximum, step).Success? && exists i :: IsChosenRecord(
      Table(SweepCalls(urls, repetitions, TestArray(minimum, maximum, step).value), measure), i,
      BestImplementation(urls, repetitions, minimum, maximum, step, measure).value)
  {
    var best := BestImplementation(urls, repetitions, minimum, maximum, step, measure);
    if best.Failure? {
      return;
    }
    var table := Table(SweepCalls(urls, repetitions, TestArray(minimum, maximum, step).value), measure);
    assert Select(table) == Success(best.value);
    SelectSucceedsIffUniqueMinimiser(table);
    var i :| UniqueMinimiser(table, i);
    SelectFindsUniqueMinimiser(table, i);
    assert IsChosenRecord(table, i, best.value);
  }

  /** The measurement routine reports, in its record, the parallelism it was asked to use. */
  ghost predicate EchoesParallelism(measure: Call -> Record)
  {
    forall c :: measure(c).parallelism == c.parallelism
  }

  /**
    When the measurement routine reports the parallelism it was asked to
    use, the chosen parallelism is one of the levels; with a positive step
    it lies between minimum and maximum on the progression from minimum.
   */
  lemma ChosenParallelismIsALevel(
    urls: seq<string>, repetitions: int, minimum: int, maximum: int, step: int, measure: Call -> Record
  )
    ensures EchoesParallelism(measure) && BestImplementation(urls, repetitions, minimum, maximum, step, measure).Success? ==>
      var p := BestImplementation(urls, repetitions, minimum, maximum, step, measure).value.parallelism;
      && TestArray(minimum, maximum, step).Success?
      && p in TestArray(minimum, maximum, step).value
      && (step > 0 ==> minimum <= p <= maximum && exists k: nat :: p == Nth(minimum, step, k))
  {
    if !EchoesParallelism(measure) || BestImplementation(urls, repetitions, minimum, maximum, step, measure).Failure? {
      return;
    }
    var levels := TestArray(minimum, maximum, step).value;
    var calls := SweepCalls(urls, repetitions, levels);
    var table := Table(calls, measure);
    BestIsUniqueOptimum(urls, repetitions, minimum, maximum, step, measure);
    var i :| IsChosenRecord(table, i, BestImplementation(urls, repetitions, minimum, maximum, step, measure).value);
    var p := table[i].parallelism;
    assert p == calls[i].parallelism;
    assert calls[i] in calls;
    SweepCallArguments(urls, repetitions, levels, calls[i]);
    if step > 0 {
      LevelsAreTheProgression(minimum, maximum, step, p);
    }
  }
}
