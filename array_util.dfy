/**
 * `range(start, stop, step)` of src/array.js: an arithmetic progression of
 * integers, built by a loop that appends a cursor and advances it by `step`
 * while `cursor * flag < stop * flag`, where `flag` is the sign of `step`.
 */
module ArrayUtil {
  import opened Wrappers

  /** The arguments of one call, after the defaults have been applied. */
  datatype RangeArgs = RangeArgs(start: int, stop: int, step: int)

  /** `step || 1`: an absent or zero step is replaced by 1, any other is kept. */
  function EffectiveStep(step: Option<int>): (s: int)
    ensures s != 0
    ensures step.Some? && step.value != 0 ==> s == step.value
  {
    if step.None? || step.value == 0 then 1 else step.value
  }

  /**
   * Argument collapsing: without `stop`, the single argument is the stop
   * (`start || 0`, which is `start` itself for an integer) and the start is 0.
   */
  function Resolve(start: int, stop: Option<int>, step: Option<int>): (a: RangeArgs)
    ensures a.step != 0
  {
    match stop
    case None => RangeArgs(0, start, EffectiveStep(step))
    case Some(s) => RangeArgs(start, s, EffectiveStep(step))
  }

  /** The sign flag: -1 for a descending step, 1 otherwise. */
  function Flag(step: int): (f: int)
    ensures f == 1 || f == -1
    ensures f == -1 <==> step < 0
  {
    if step < 0 then -1 else 1
  }

  /** The loop test `start * flag < stop` for the k-th candidate `start + k * step`. */
  predicate Admits(a: RangeArgs, k: nat)
  {
    (a.start + k * a.step) * Flag(a.step) < a.stop * Flag(a.step)
  }

  /** The distance from start to stop, measured in the step's direction. */
  function Distance(a: RangeArgs): int
  {
    if a.step < 0 then a.start - a.stop else a.stop - a.start
  }

  /** The size of the step, whatever its direction. */
  function Stride(a: RangeArgs): (s: int)
    requires a.step != 0
    ensures s > 0
  {
    if a.step < 0 then -a.step else a.step
  }

  /**
   * The number of terms: ceil((stop - start) / step) when that is positive,
   * else 0, computed on the distance and the size of the step.
   */
  function Count(a: RangeArgs): nat
    requires a.step != 0
  {
    if Distance(a) <= 0 then 0 else (Distance(a) + Stride(a) - 1) / Stride(a)
  }

  /** The reference definition of the result: Count(a) terms start + k * step. */
  function Terms(a: RangeArgs): seq<int>
    requires a.step != 0
  {
    seq(Count(a), k => a.start + k * a.step)
  }

  /** What `range` returns for the given (possibly absent) arguments. */
  function RangeOf(start: int, stop: Option<int>, step: Option<int>): seq<int>
  {
    Terms(Resolve(start, stop, step))
  }

  /** `range` as the source writes it: defaults, the sign flag, the accumulate loop. */
  method Range(start: int, stop: Option<int>, step: Option<int>) returns (arr: seq<int>)
    ensures arr == RangeOf(start, stop, step)
  {
    var first, limit := start, 0;
    if stop.None? {
      limit := start;
      first := 0;
    } else {
      limit := stop.value;
    }
    var stride := EffectiveStep(step);
    var flag := Flag(stride);
    var bound := limit * flag;
    ghost var a := RangeArgs(first, limit, stride);
    assert a == Resolve(start, stop, step);

    arr := [];
    var cursor := first;
    while cursor * flag < bound
      invariant |arr| <= Count(a)
      invariant cursor == first + |arr| * stride
      invariant forall k :: 0 <= k < |arr| ==> arr[k] == first + k * stride
      decreases Count(a) - |arr|
    {
      CountIsExact(a, |arr|);
      assert first + (|arr| + 1) * stride == cursor + stride;
      arr := arr + [cursor];
      cursor := cursor + stride;
    }
    CountIsExact(a, |arr|);
  }

  /** Multiplying by a positive factor keeps the order of non-negative counts. */
  lemma MulMonotone(m: int, n: int, s: int)
    requires m <= n && s > 0
    ensures m * s <= n * s
  {
  }

  /** Folding the sign flag in: the loop test compares k * |step| with the distance. */
  lemma AdmitsScaled(a: RangeArgs, k: nat)
    requires a.step != 0
    ensures Admits(a, k) <==> k * Stride(a) < Distance(a)
  {
    if a.step < 0 {
      assert (a.start + k * a.step) * Flag(a.step) == -a.start + k * Stride(a);
    }
  }

  /** Below the ceiling of dist / stride are exactly the k with k * stride < dist. */
  lemma CeilingIsExact(dist: int, stride: int, k: nat)
    requires dist > 0 && stride > 0
    ensures k < (dist + stride - 1) / stride <==> k * stride < dist
  {
    var q := (dist + stride - 1) / stride;
    var r := (dist + stride - 1) % stride;
    assert dist + stride - 1 == q * stride + r && 0 <= r < stride;
    if k < q {
      MulMonotone(k + 1, q, stride);
    } else {
      MulMonotone(q, k, stride);
    }
  }

  /**
   * The terms admitted by the loop test are exactly the first Count(a):
   * so Count(a) is the number of k >= 0 with (start + k*step)*flag < stop*flag.
   */
  lemma CountIsExact(a: RangeArgs, k: nat)
    requires a.step != 0
    ensures k < Count(a) <==> Admits(a, k)
  {
    AdmitsScaled(a, k);
    if Distance(a) > 0 {
      CeilingIsExact(Distance(a), Stride(a), k);
    } else {
      MulMonotone(0, k, Stride(a));
    }
  }

  /** Each term lies between start (included) and stop (excluded), on the step's side. */
  lemma TermWithinBounds(a: RangeArgs, k: nat)
    requires a.step != 0 && k < Count(a)
    ensures a.step > 0 ==> a.start <= a.start + k * a.step < a.stop
    ensures a.step < 0 ==> a.stop < a.start + k * a.step <= a.start
  {
    CountIsExact(a, k);
    if a.step > 0 {
      MulMonotone(0, k, a.step);
    } else {
      MulMonotone(0, k, -a.step);
      assert (a.start + k * a.step) * Flag(a.step) == -(a.start + k * a.step);
    }
  }

  /**
   * An ascending progression stays in [start, stop), increases strictly, and
   * is empty exactly when start >= stop.
   */
  lemma AscendingTerms(a: RangeArgs)
    requires a.step > 0
    ensures forall e :: e in Terms(a) ==> a.start <= e < a.stop
    ensures forall i, j :: 0 <= i < j < |Terms(a)| ==> Terms(a)[i] < Terms(a)[j]
    ensures Terms(a) == [] <==> a.start >= a.stop
  {
    var r := Terms(a);
    forall e | e in r
      ensures a.start <= e < a.stop
    {
      var k :| 0 <= k < |r| && r[k] == e;
      TermWithinBounds(a, k);
    }
    forall i, j | 0 <= i < j < |r|
      ensures r[i] < r[j]
    {
      MulMonotone(i + 1, j, a.step);
    }
    CountIsExact(a, 0);
  }

  /**
   * A descending progression stays in (stop, start], decreases strictly, and
   * is empty exactly when start <= stop.
   */
  lemma DescendingTerms(a: RangeArgs)
    requires a.step < 0
    ensures forall e :: e in Terms(a) ==> a.stop < e <= a.start
    ensures forall i, j :: 0 <= i < j < |Terms(a)| ==> Terms(a)[i] > Terms(a)[j]
    ensures Terms(a) == [] <==> a.start <= a.stop
  {
    var r := Terms(a);
    forall e | e in r
      ensures a.stop < e <= a.start
    {
      var k :| 0 <= k < |r| && r[k] == e;
      TermWithinBounds(a, k);
    }
    forall i, j | 0 <= i < j < |r|
      ensures r[i] > r[j]
    {
      MulMonotone(i + 1, j, -a.step);
    }
    CountIsExact(a, 0);
  }

  /** A nonempty result starts at `start`, and neighbours differ by exactly `step`. */
  lemma FirstAndSpacing(a: RangeArgs)
    requires a.step != 0
    ensures |Terms(a)| > 0 ==> Terms(a)[0] == a.start
    ensures forall i :: 0 < i < |Terms(a)| ==> Terms(a)[i] - Terms(a)[i - 1] == a.step
  {
  }

  /**
   * The length is the ceiling of the distance over the step: the least n
   * with n * |step| >= distance (0 when the distance is not positive).
   */
  lemma LengthIsCeiling(a: RangeArgs)
    requires a.step != 0
    ensures var dist := (a.stop - a.start) * Flag(a.step);
            var stride := a.step * Flag(a.step);
            var n := |Terms(a)|;
            && (dist <= 0 ==> n == 0)
            && (dist > 0 ==> (n - 1) * stride < dist <= n * stride)
  {
    var n := |Terms(a)|;
    CountIsExact(a, n);
    if n > 0 {
      CountIsExact(a, n - 1);
    }
    CountIsExact(a, 0);
  }

  /**
   * Without `stop` the call is range(0, start, step); a zero step is the
   * same as no step, which is a step of 1.
   */
  lemma ArgumentDefaults(start: int, stop: Option<int>, step: Option<int>)
    ensures RangeOf(start, None, step) == RangeOf(0, Some(start), step)
    ensures RangeOf(start, stop, Some(0)) == RangeOf(start, stop, None)
    ensures RangeOf(start, stop, None) == RangeOf(start, stop, Some(1))
  {
  }

  /** The examples of the doc comment of `range`, and `range()` with no argument at all. */
  lemma DocumentedExamples()
    ensures RangeOf(0, None, None) == []
    ensures RangeOf(5, None, None) == [0, 1, 2, 3, 4]
    ensures RangeOf(1, Some(5), None) == [1, 2, 3, 4]
    ensures RangeOf(2, Some(10), Some(2)) == [2, 4, 6, 8]
    ensures RangeOf(10, Some(2), Some(-2)) == [10, 8, 6, 4]
  {
  }
}
