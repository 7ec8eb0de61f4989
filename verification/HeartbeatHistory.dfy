/** heartbeat_history.c: the window of intervals and its running sums, updated in place. */
module HeartbeatHistory {
  import opened WindowStatistics

  class History {
    const max: nat
    const intervals: array<real>
    var count: nat
    var sum: real
    var squaredSum: real

    ghost predicate Valid()
      reads this, intervals
    {
      && max >= 1 && intervals.Length == max && count <= max
      && sum == Sum(intervals[..count]) && squaredSum == SquaredSum(intervals[..count])
    }

    ghost function Contents(): (s: seq<real>)
      requires Valid()
      reads this, intervals
      ensures |s| == count
    {
      intervals[..count]
    }

    constructor (max: nat, intervals: array<real>, count: nat, sum: real, squaredSum: real)
      ensures this.max == max && this.intervals == intervals
      ensures this.count == count && this.sum == sum && this.squaredSum == squaredSum
    {
      this.max, this.intervals := max, intervals;
      this.count, this.sum, this.squaredSum := count, sum, squaredSum;
    }

    // new_heartbeat_history: no history for an empty window or a negative sum. Given intervals are kept as they
    // are, not copied; bad arguments with given intervals free a pointer that was never set.
    static method New(max: nat, given: array?<real>, count: nat, sum: real, squaredSum: real) returns (h: History?)
      requires given == null || (max >= 1 && sum >= 0.0 && squaredSum >= 0.0)
      ensures h == null <==> max == 0 || sum < 0.0 || squaredSum < 0.0
      ensures h != null ==> fresh(h) && h.max == max && h.sum == sum && h.squaredSum == squaredSum
      ensures h != null && given == null ==>
        fresh(h.intervals) && h.count == 0 && (h.Valid() <==> sum == 0.0 == squaredSum)
      ensures h != null && given != null ==> h.intervals == given && h.count == count
    {
      if max < 1 || sum < 0.0 || squaredSum < 0.0 {
        return null;
      }
      if given == null {
        var zeros := new real[max](_ => 0.0);
        h := new History(max, zeros, 0, sum, squaredSum);
      } else {
        h := new History(max, given, count, sum, squaredSum);
      }
    }

    // Shifts the whole array, not only the counted part.
    method DropOldest()
      requires intervals.Length == max && count <= max
      modifies this`count, intervals
      ensures count == if old(count) == 0 then 0 else old(count) - 1
      ensures intervals[..count] == if old(count) == 0 then [] else old(intervals[1..count])
    {
      if count == 0 {
        return;
      }
      var i := 1;
      while i < max
        invariant 1 <= i <= max && count == old(count)
        invariant forall k :: 0 <= k < i - 1 ==> intervals[k] == old(intervals[k + 1])
        invariant forall k :: i - 1 <= k < max ==> intervals[k] == old(intervals[k])
      {
        intervals[i - 1] := intervals[i];
        i := i + 1;
      }
      count := count - 1;
    }

    // The sums over the counted prefix, computed afresh.
    method Resum()
      requires count <= intervals.Length
      modifies this`sum, this`squaredSum
      ensures sum == Sum(intervals[..count]) && squaredSum == SquaredSum(intervals[..count])
    {
      sum, squaredSum := 0.0, 0.0;
      for i := 0 to count
        invariant sum == Sum(intervals[..i]) && squaredSum == SquaredSum(intervals[..i])
      {
        assert intervals[..i + 1][..i] == intervals[..i];
        sum := sum + intervals[i];
        squaredSum := squaredSum + Times(intervals[i], intervals[i]);
      }
    }

    method AddInterval(interval: real)
      requires Valid()
      modifies this, intervals
      ensures Valid() && Contents() == AfterAdd(old(Contents()), max, interval)
    {
      if count < max {
        intervals[count] := interval;
        count := count + 1;
        assert intervals[..count] == old(intervals[..count]) + [interval];
      } else {
        DropOldest();
        intervals[max - 1] := interval;
        assert intervals[..count] == old(intervals[..count])[1..];
      }
      Resum();
    }

    method AdjustIntervals(missed: int)
      requires Valid()
      modifies this, intervals
      ensures Valid() && Contents() == Adjusted(old(Contents()), missed)
    {
      var factor := ScalingFactor(missed);
      for i := 0 to count
        invariant count == old(count)
        invariant forall k :: 0 <= k < i ==> intervals[k] == Adjust(old(intervals[k]), missed)
        invariant forall k :: i <= k < count ==> intervals[k] == old(intervals[k])
      {
        intervals[i] := Clip(intervals[i] * factor);
      }
      assert intervals[..count] == Adjusted(old(Contents()), missed);
      Resum();
    }

    function MeanValue(): (m: real)
      requires Valid()
      reads this, intervals
      ensures m == Mean(Contents())
    {
      if count == 0 then 0.0 else Over(sum, count as real)
    }

    // What the running sums give is the mean squared deviation of the counted intervals, so its root exists.
    function VarianceValue(): (v: real)
      requires Valid()
      reads this, intervals
      ensures v == Variance(Contents()) && v >= 0.0
      ensures count > 0 ==> Times(count as real, v) == Deviations(Contents(), MeanValue())
    {
      if count == 0 then 0.0
      else
        VarianceIsMeanDeviation(Contents());
        Over(squaredSum, count as real) - Times(MeanValue(), MeanValue())
    }
  }

  // first_heartbeat: a new window with two samples around the estimate.
  method FirstHeartbeat(estimate: real, max: nat) returns (h: History?)
    ensures h == null <==> max == 0
    ensures h != null ==> h.Valid() && fresh(h) && fresh(h.intervals) && h.max == max
    ensures h != null ==>
      h.Contents() == AfterAll([estimate - estimate / 4.0, estimate + estimate / 4.0], max)
  {
    h := History.New(max, null, 0, 0.0, 0.0);
    if h != null {
      var deviation := estimate / 4.0;
      var low, high := estimate - deviation, estimate + deviation;
      assert [low, high][..1] == [low] && [low][..0] == [];
      assert h.Contents() == AfterAll([], max);
      h.AddInterval(low);
      assert h.Contents() == AfterAll([low], max);
      h.AddInterval(high);
    }
  }
}
