/**
  The parallelism test array of `find_best_query_urls_implementation`:
  `range(minimum, maximum + 1, step)`, followed by `min(...)` and `max(...)`
  of that array when the output file name is built. A zero step makes
  `range` raise; an empty array makes `min`/`max` raise. Both happen before
  any measurement is started.
 */
module Levels {
  import opened Builtins

  datatype LevelError =
    | ZeroStep  // `range` rejects a step of 0
    | NoLevels  // `min`/`max` of an empty test array

  /** The sweep levels for the command-line minimum, maximum and step size. */
  function TestArray(minimum: int, maximum: int, step: int): (r: Result<seq<int>, LevelError>)
    ensures r == Failure(ZeroStep) <==> step == 0
    ensures r == Failure(NoLevels) <==>
      (step > 0 && minimum > maximum) || (step < 0 && minimum <= maximum + 1)
    ensures r.Success? ==> r.value != [] && r.value[0] == minimum
  {
    if step == 0 then Failure(ZeroStep)
    else
      var levels := Range(minimum, maximum + 1, step);
      if levels == [] then Failure(NoLevels) else Success(levels)
  }

  /** With a positive step the levels start at the minimum and climb by exactly one step each. */
  lemma AscendingLevels(minimum: int, maximum: int, step: int)
    requires step > 0 && minimum <= maximum
    ensures TestArray(minimum, maximum, step).Success?
    ensures var levels := TestArray(minimum, maximum, step).value;
      && levels[0] == minimum
      && (forall i :: 0 <= i < |levels| ==> levels[i] == Nth(minimum, step, i))
      && (forall i :: 0 <= i < |levels| ==> minimum <= levels[i] <= maximum)
      && (forall i :: 0 < i < |levels| ==> levels[i] == levels[i - 1] + step)
  {
    RangeAt(minimum, maximum + 1, step);
    RangeBounds(minimum, maximum + 1, step);
    var levels := TestArray(minimum, maximum, step).value;
    forall i | 0 <= i < |levels| ensures minimum <= levels[i] <= maximum {
      assert levels[i] in levels;
    }
  }

  /** The number of levels is the ceiling of (maximum - minimum + 1) / step; one level when minimum == maximum. */
  lemma LevelCount(minimum: int, maximum: int, step: int)
    requires step > 0 && minimum <= maximum
    ensures TestArray(minimum, maximum, step).Success?
    ensures |TestArray(minimum, maximum, step).value| == (maximum - minimum + step) / step
    ensures minimum == maximum ==> TestArray(minimum, maximum, step).value == [minimum]
  {
    RangeLength(minimum, maximum + 1, step);
    if minimum == maximum {
      DivUnique(step, step, 1);
    }
  }

  /** With a positive step the sweep visits exactly the progression terms between minimum and maximum. */
  lemma {:induction false} LevelsAreTheProgression(minimum: int, maximum: int, step: int, v: int)
    requires step > 0 && minimum <= maximum
    ensures v in TestArray(minimum, maximum, step).value <==>
      minimum <= v <= maximum && exists k: nat :: v == Nth(minimum, step, k)
  {
    AscendingLevels(minimum, maximum, step);
    var levels := TestArray(minimum, maximum, step).value;
    if v in levels {
      var i :| 0 <= i < |levels| && levels[i] == v;
      assert v == Nth(minimum, step, i);
    }
    if minimum <= v <= maximum && exists k: nat :: v == Nth(minimum, step, k) {
      var k: nat :| v == Nth(minimum, step, k);
      RangeHasTerm(minimum, maximum + 1, step, k);
    }
  }

  /**
    With a negative step the levels descend from the minimum by exactly one
    step each, and every level lies strictly above maximum + 1.
   */
  lemma DescendingLevels(minimum: int, maximum: int, step: int)
    requires step < 0 && minimum > maximum + 1
    ensures TestArray(minimum, maximum, step).Success?
    ensures var levels := TestArray(minimum, maximum, step).value;
      && levels[0] == minimum
      && (forall i :: 0 <= i < |levels| ==> maximum + 1 < levels[i] <= minimum)
      && (forall i :: 0 < i < |levels| ==> levels[i] == levels[i - 1] + step)
  {
    RangeAt(minimum, maximum + 1, step);
    RangeBounds(minimum, maximum + 1, step);
    var levels := TestArray(minimum, maximum, step).value;
    forall i | 0 <= i < |levels| ensures maximum + 1 < levels[i] <= minimum {
      assert levels[i] in levels;
    }
  }

  /**
    The two ends of the array that go into the file name (`min` and `max`
    of the test array): with a positive step, the minimum itself and the
    last level, which lies within one step below the maximum.
   */
  lemma {:induction false} AscendingLabel(minimum: int, maximum: int, step: int)
    requires step > 0 && minimum <= maximum
    ensures var levels := TestArray(minimum, maximum, step).value;
      && Min(levels) == minimum
      && Max(levels) == levels[|levels| - 1]
      && maximum - step < Max(levels) <= maximum
  {
    AscendingLevels(minimum, maximum, step);
    RangeLast(minimum, maximum + 1, step);
    var levels := TestArray(minimum, maximum, step).value;
    var n := |levels|;
    assert minimum in levels;
    assert levels[n - 1] in levels;
    forall v | v in levels ensures v <= levels[n - 1] {
      var i :| 0 <= i < n && levels[i] == v;
      MulMonotone(i, n - 1, step);
    }
  }
}
