/**
  `measure_all_query_url_implementations`: for every parallelism level, in
  array order, and for every fetch strategy, in a fixed order, one call of
  the measurement routine whose summary record is appended to the result
  table. The measurement routine (repeated network fetching and its
  statistics) is an oracle parameter; the method also returns the log of
  the arguments it passed to that oracle.
 */
module Sweep {

  /** The three fetch implementations, in the order the inner loop visits them. */
  datatype Strategy = HumanCurlAsync | Urllib2Multiprocessing | CurlMultiprocessing

  const Strategies: seq<Strategy> := [HumanCurlAsync, Urllib2Multiprocessing, CurlMultiprocessing]

  /** The summary record of one measured cell; durations are abstract ordered values. */
  datatype Record = Record(identifier: string, parallelism: int, max: int, median: int, sd: int)

  /** The keyword arguments of one call of the measurement routine. */
  datatype Call = Call(urls: seq<string>, repetitions: int, parallelism: int, strategy: Strategy)

  /** The calls made for one level: one per strategy, in strategy order. */
  function LevelCalls(urls: seq<string>, repetitions: int, parallelism: int): (calls: seq<Call>)
    ensures |calls| == |Strategies|
    ensures forall k :: 0 <= k < |Strategies| ==>
      calls[k] == Call(urls, repetitions, parallelism, Strategies[k])
  {
    [Call(urls, repetitions, parallelism, HumanCurlAsync),
     Call(urls, repetitions, parallelism, Urllib2Multiprocessing),
     Call(urls, repetitions, parallelism, CurlMultiprocessing)]
  }

  /** The calls made for a whole sweep: the levels' calls one level after another. */
  function SweepCalls(urls: seq<string>, repetitions: int, levels: seq<int>): seq<Call>
  {
    if levels == [] then []
    else SweepCalls(urls, repetitions, levels[..|levels| - 1])
         + LevelCalls(urls, repetitions, levels[|levels| - 1])
  }

  /** The result table: one record per call, in call order. */
  function Table(calls: seq<Call>, measure: Call -> Record): (table: seq<Record>)
    ensures |table| == |calls|
    ensures forall i :: 0 <= i < |calls| ==> table[i] == measure(calls[i])
  {
    seq(|calls|, i requires 0 <= i < |calls| => measure(calls[i]))
  }

  /**
    The sweep makes three calls per level, and call i measures level
    `levels[i / 3]` with strategy `Strategies[i % 3]`.
   */
  lemma {:induction false} SweepCallsAt(urls: seq<string>, repetitions: int, levels: seq<int>)
    ensures |SweepCalls(urls, repetitions, levels)| == |Strategies| * |levels|
    ensures forall i :: 0 <= i < |SweepCalls(urls, repetitions, levels)| ==>
      SweepCalls(urls, repetitions, levels)[i] == Call(urls, repetitions, levels[i / 3], Strategies[i % 3])
  {
    if levels != [] {
      var n := |levels| - 1;
      var front := levels[..n];
      SweepCallsAt(urls, repetitions, front);
      var calls := SweepCalls(urls, repetitions, levels);
      forall i | 0 <= i < |calls|
        ensures calls[i] == Call(urls, repetitions, levels[i / 3], Strategies[i % 3])
      {
        if i < 3 * n {
          assert levels[i / 3] == front[i / 3];
        } else {
          assert i / 3 == n;
        }
      }
    }
  }

  /** Every cell of the grid levels x strategies is measured, at index 3 * level index + strategy index. */
  lemma SweepCoversGrid(urls: seq<string>, repetitions: int, levels: seq<int>, j: int, k: int)
    requires 0 <= j < |levels| && 0 <= k < |Strategies|
    ensures 3 * j + k < |SweepCalls(urls, repetitions, levels)|
    ensures SweepCalls(urls, repetitions, levels)[3 * j + k] == Call(urls, repetitions, levels[j], Strategies[k])
  {
    SweepCallsAt(urls, repetitions, levels);
    assert (3 * j + k) / 3 == j && (3 * j + k) % 3 == k;
  }

  /**
    Every call receives the caller's URL list, unchanged, and its repetition
    count, and its parallelism is one of the levels.
   */
  lemma {:induction false} SweepCallArguments(urls: seq<string>, repetitions: int, levels: seq<int>, c: Call)
    requires c in SweepCalls(urls, repetitions, levels)
    ensures c.urls == urls && c.repetitions == repetitions && c.parallelism in levels
  {
    SweepCallsAt(urls, repetitions, levels);
    var calls := SweepCalls(urls, repetitions, levels);
    var i :| 0 <= i < |calls| && calls[i] == c;
    assert c.parallelism == levels[i / 3];
  }

  /**
    The nested loops of `measure_all_query_url_implementations`: the outer
    loop over the levels, the inner loop over the strategies, appending one
    measured record per call.
   */
  method MeasureAll(urls: seq<string>, repetitions: int, levels: seq<int>, measure: Call -> Record)
    returns (points: seq<Record>, calls: seq<Call>)
    ensures calls == SweepCalls(urls, repetitions, levels)
    ensures points == Table(calls, measure)
  {
    points, calls := [], [];
    for j := 0 to |levels|
      invariant calls == SweepCalls(urls, repetitions, levels[..j])
      invariant points == Table(calls, measure)
    {
      ghost var before := calls;
      for k := 0 to |Strategies|
        invariant calls == before + LevelCalls(urls, repetitions, levels[j])[..k]
        invariant points == Table(calls, measure)
      {
        var call := Call(urls, repetitions, levels[j], Strategies[k]);
        points := points + [measure(call)];
        calls := calls + [call];
      }
      assert levels[..j + 1][..j] == levels[..j];
    }
    assert levels[..|levels|] == levels;
  }
}
