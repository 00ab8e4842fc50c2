/**
  The pieces of the Python 2 runtime that the benchmark harness leans on:
  `range(start, stop, step)` (which raises on a zero step) and `min`/`max`
  over a non-empty sequence (which raise on an empty one). Raising is
  modelled by a `Result`.
 */
module Builtins {

  datatype Result<+T, +E> = Success(value: T) | Failure(error: E)

  /** The k-th term `start + k * step` of an arithmetic progression. */
  function Nth(start: int, step: int, k: nat): int
  {
    start + k * step
  }

  /** Whether `range(start, stop, step)` yields `start` (and so is non-empty). */
  predicate InRange(start: int, stop: int, step: int)
  {
    (step > 0 && start < stop) || (step < 0 && stop < start)
  }

  /** Python 2's `range(start, stop, step)` for a non-zero step. */
  function Range(start: int, stop: int, step: int): (r: seq<int>)
    requires step != 0
    ensures r == [] <==> !InRange(start, stop, step)
    ensures r != [] ==> r[0] == start
    decreases if step > 0 then stop - start else start - stop
  {
    if InRange(start, stop, step) then [start] + Range(start + step, stop, step) else []
  }

  /** Closed form of `len(range(start, stop, step))`. */
  function RangeCount(start: int, stop: int, step: int): nat
    requires step != 0
  {
    if step > 0 then
      (if start < stop then (stop - start + step - 1) / step else 0)
    else
      (if stop < start then (start - stop - step - 1) / (-step) else 0)
  }

  /** The quotient is the unique q with q * d <= x < (q + 1) * d. */
  lemma DivUnique(x: int, d: int, q: int)
    requires d > 0 && q * d <= x < (q + 1) * d
    ensures x / d == q
  {
    var q' := x / d;
    assert q' * d <= x < q' * d + d;
    if q' < q {
      MulMonotone(q' + 1, q, d);
    } else if q < q' {
      MulMonotone(q + 1, q', d);
    }
  }

  /** Adding the divisor adds one to the quotient. */
  lemma DivShift(y: int, d: int)
    requires d > 0
    ensures (y + d) / d == y / d + 1
  {
    var q := y / d;
    assert q * d <= y < q * d + d;
    DivUnique(y + d, d, q + 1);
  }

  lemma MulMonotone(a: int, b: int, d: int)
    requires a <= b && 0 <= d
    ensures a * d <= b * d
  {
  }

  /** Element i of the range is the i-th term of the progression. */
  lemma {:induction false} RangeAt(start: int, stop: int, step: int)
    requires step != 0
    ensures forall i :: 0 <= i < |Range(start, stop, step)| ==>
      Range(start, stop, step)[i] == Nth(start, step, i)
    decreases if step > 0 then stop - start else start - stop
  {
    if InRange(start, stop, step) {
      var r, rest := Range(start, stop, step), Range(start + step, stop, step);
      RangeAt(start + step, stop, step);
      forall i | 0 < i < |r| ensures r[i] == Nth(start, step, i) {
        assert r[i] == rest[i - 1] == start + step + (i - 1) * step;
      }
    }
  }

  /** Every element lies on the start side of the stop bound, stop excluded. */
  lemma {:induction false} RangeBounds(start: int, stop: int, step: int)
    requires step != 0
    ensures forall v :: v in Range(start, stop, step) ==>
      if step > 0 then start <= v < stop else stop < v <= start
    decreases if step > 0 then stop - start else start - stop
  {
    if InRange(start, stop, step) {
      RangeBounds(start + step, stop, step);
    }
  }

  /** The last element is within one step of the stop bound. */
  lemma {:induction false} RangeLast(start: int, stop: int, step: int)
    requires step != 0 && InRange(start, stop, step)
    ensures var r := Range(start, stop, step);
      if step > 0 then stop - step <= r[|r| - 1] < stop
      else stop < r[|r| - 1] <= stop - step
    decreases if step > 0 then stop - start else start - stop
  {
    var r, rest := Range(start, stop, step), Range(start + step, stop, step);
    if InRange(start + step, stop, step) {
      RangeLast(start + step, stop, step);
      assert r[|r| - 1] == rest[|rest| - 1];
    } else {
      assert r == [start];
    }
  }

  /** The number of elements of `range(start, stop, step)`. */
  lemma {:induction false} RangeLength(start: int, stop: int, step: int)
    requires step != 0
    ensures |Range(start, stop, step)| == RangeCount(start, stop, step)
    decreases if step > 0 then stop - start else start - stop
  {
    if InRange(start, stop, step) {
      RangeLength(start + step, stop, step);
      var d := if step > 0 then step else -step;
      var y := (if step > 0 then stop - start else start - stop) - 1;
      if InRange(start + step, stop, step) {
        DivShift(y, d);
      } else {
        DivUnique(y + d, d, 1);
      }
    }
  }

  /** A term of the progression that lies before the stop bound is in the range. */
  lemma {:induction false} RangeHasTerm(start: int, stop: int, step: int, k: nat)
    requires step != 0
    requires var v := Nth(start, step, k); if step > 0 then v < stop else stop < v
    ensures Nth(start, step, k) in Range(start, stop, step)
    decreases k
  {
    if k > 0 {
      assert Nth(start, step, k) == Nth(start + step, step, k - 1);
      RangeHasTerm(start + step, stop, step, k - 1);
    }
  }

  /** Python's `min` over a non-empty sequence. */
  function Min(s: seq<int>): (m: int)
    requires s != []
    ensures m in s
    ensures forall x :: x in s ==> m <= x
  {
    if |s| == 1 then s[0]
    else
      var rest := Min(s[1..]);
      assert forall x :: x in s ==> x == s[0] || x in s[1..];
      if s[0] <= rest then s[0] else rest
  }

  /** Python's `max` over a non-empty sequence. */
  function Max(s: seq<int>): (m: int)
    requires s != []
    ensures m in s
    ensures forall x :: x in s ==> x <= m
  {
    if |s| == 1 then s[0]
    else
      var rest := Max(s[1..]);
      assert forall x :: x in s ==> x == s[0] || x in s[1..];
      if s[0] >= rest then s[0] else rest
  }
}
