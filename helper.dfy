/**
 * source/helper.ts: the random high port, and the generator that spreads a
 * rule's `amount` over the slots of one cycle.
 *
 * JavaScript numbers are modelled as `real` where the source mixes fractions
 * (weights, the multiplier, interpolation) and as `int` where they hold
 * counts; `Math.round(x)` is `Floor(x + 1/2)`.
 */
module Helper {
  import opened Wrappers
  import opened Types

  // ---------------------------------------------------------------------------
  // getRandomHighPort

  const MinPort: int := 49152
  const MaxPort: int := 65535

  /** `getRandomHighPort`, with `random` standing for the value of `Math.random()`. */
  function RandomHighPort(random: real): (port: int)
    requires 0.0 <= random < 1.0
    ensures MinPort <= port <= MaxPort
  {
    (random * (MaxPort - MinPort + 1) as real).Floor + MinPort
  }

  /** Every port of the range is produced by some random value, so the range is used in full. */
  lemma EveryHighPortReachable(port: int)
    requires MinPort <= port <= MaxPort
    ensures var random := (port - MinPort) as real / (MaxPort - MinPort + 1) as real;
            0.0 <= random < 1.0 && RandomHighPort(random) == port
  {
    var random := (port - MinPort) as real / (MaxPort - MinPort + 1) as real;
    assert random * (MaxPort - MinPort + 1) as real == (port - MinPort) as real;
  }

  // ---------------------------------------------------------------------------
  // Arithmetic helpers of generatePeriodicDistribution

  /** `Math.round`: the nearest integer, a half rounded up. */
  function Round(x: real): (n: int)
    ensures n as real - 0.5 <= x < n as real + 0.5
  {
    (x + 0.5).Floor
  }

  /** `lerp(a, b, t)`: linear interpolation from `a` (t = 0) to `b` (t = 1). */
  function Lerp(a: real, b: real, t: real): (v: real)
    ensures t == 0.0 ==> v == a
    ensures t == 1.0 ==> v == b
    ensures 0.0 <= t <= 1.0 && a <= b ==> a <= v <= b
    ensures 0.0 <= t <= 1.0 && b <= a ==> b <= v <= a
  {
    var v := a + t * (b - a);
    assert 0.0 <= t <= 1.0 ==> (a <= b ==> a <= v <= b) && (b <= a ==> b <= v <= a) by {
      if 0.0 <= t <= 1.0 {
        var d := b - a;
        if d >= 0.0 {
          ProductNonNegative(t, d);
          ProductNonNegative(1.0 - t, d);
          assert v == b - (1.0 - t) * d;
        } else {
          ProductNonNegative(t, -d);
          ProductNonNegative(1.0 - t, -d);
          assert v == b + (1.0 - t) * -d;
          assert v == a - t * -d;
        }
      }
    }
    v
  }

  lemma ProductNonNegative(x: real, y: real)
    requires x >= 0.0 && y >= 0.0
    ensures x * y >= 0.0
  {
  }

  // ---------------------------------------------------------------------------
  // getTotalSeconds

  /** `new Date(y, m, d)` reads a year between 0 and 99 as 1900 + y. */
  function FullYear(year: int): int
  {
    if 0 <= year <= 99 then 1900 + year else year
  }

  predicate IsLeapYear(y: int)
  {
    y % 4 == 0 && (y % 100 != 0 || y % 400 == 0)
  }

  /**
   * `new Date(year, month, 0).getDate()` with `month` = getMonth() + 1: day 0
   * of the next month is the last day of this one (proleptic Gregorian).
   */
  function DaysInMonth(year: int, month: MonthNumber): (days: int)
    ensures 28 <= days <= 31
    ensures month == 2 ==> (days == 29 <==> IsLeapYear(FullYear(year)))
    ensures month != 2 ==> (days == 30 <==> month in {4, 6, 9, 11})
    ensures month == 2 && !IsLeapYear(FullYear(year)) ==> days == 28
    ensures month in {1, 3, 5, 7, 8, 10, 12} ==> days == 31
  {
    if month == 2 then (if IsLeapYear(FullYear(year)) then 29 else 28)
    else if month == 4 || month == 6 || month == 9 || month == 11 then 30
    else 31
  }

  /** A calendar year has 365 days, or 366 in a leap year. */
  lemma YearLength(year: int)
    ensures DaysInMonth(year, 1) + DaysInMonth(year, 2) + DaysInMonth(year, 3) + DaysInMonth(year, 4)
          + DaysInMonth(year, 5) + DaysInMonth(year, 6) + DaysInMonth(year, 7) + DaysInMonth(year, 8)
          + DaysInMonth(year, 9) + DaysInMonth(year, 10) + DaysInMonth(year, 11) + DaysInMonth(year, 12)
          == if IsLeapYear(FullYear(year)) then 366 else 365
  {
  }

  /** The errors `generatePeriodicDistribution` throws. */
  datatype GenerationError =
    | InvalidPeriod        // a cycle other than day, week or month
    | IntervalNotDivisor   // the interval does not divide the cycle (a zero interval gives NaN)
    | InvalidArrayLength   // a negative interval: `new Array(steps)` throws a RangeError

  const SecondsPerDay: int := 24 * 60 * 60

  /** `getTotalSeconds(period)`; the current month is a parameter instead of `new Date()`. */
  function CycleSeconds(cycle: string, now: CalendarMonth): (r: Result<int, GenerationError>)
    ensures r.Failure? <==> cycle != "day" && cycle != "week" && cycle != "month"
    ensures r.Failure? ==> r.error == InvalidPeriod
    ensures cycle == "day" ==> r == Success(86400)
    ensures cycle == "week" ==> r == Success(604800)
    ensures cycle == "month" ==> r == Success(DaysInMonth(now.year, now.month) * 86400)
    ensures r.Success? ==> r.value > 0 && r.value % SecondsPerDay == 0
  {
    if cycle == "day" then Success(SecondsPerDay)
    else if cycle == "week" then Success(7 * SecondsPerDay)
    else if cycle == "month" then Success(DaysInMonth(now.year, now.month) * SecondsPerDay)
    else Failure(InvalidPeriod)
  }

  /** A 31-day month lasts 2678400 seconds. */
  lemma ThirtyOneDayMonth(now: CalendarMonth)
    requires DaysInMonth(now.year, now.month) == 31
    ensures CycleSeconds("month", now) == Success(2678400)
  {
  }

  /**
   * The checks of source/helper.ts:83-89: the number of slots in one cycle,
   * or the error the generator throws before allocating anything. Generation
   * succeeds exactly for a known cycle and a positive divisor of it; the
   * slots then tile the cycle.
   */
  function CycleSteps(rule: DistributionRule, interval: int, now: CalendarMonth): (r: Result<nat, GenerationError>)
    ensures r.Success? <==>
              CycleSeconds(rule.cycle, now).Success? && interval > 0 && CycleSeconds(rule.cycle, now).value % interval == 0
    ensures CycleSeconds(rule.cycle, now).Failure? ==> r == Failure(InvalidPeriod)
    ensures CycleSeconds(rule.cycle, now).Success? && (interval == 0 || CycleSeconds(rule.cycle, now).value % interval != 0) ==>
              r == Failure(IntervalNotDivisor)
    ensures CycleSeconds(rule.cycle, now).Success? && interval < 0 && CycleSeconds(rule.cycle, now).value % interval == 0 ==>
              r == Failure(InvalidArrayLength)
    ensures r.Success? ==>
              r.value > 0 &&
              r.value * interval == CycleSeconds(rule.cycle, now).value
  {
    match CycleSeconds(rule.cycle, now)
    case Failure(e) => Failure(e)
    case Success(cycleSeconds) =>
      if interval == 0 || cycleSeconds % interval != 0 then Failure(IntervalNotDivisor)
      else if interval < 0 then Failure(InvalidArrayLength)
      else Success(cycleSeconds / interval)
  }

  // ---------------------------------------------------------------------------
  // Sums

  function Sum(s: seq<int>): int
  {
    if s == [] then 0 else s[0] + Sum(s[1..])
  }

  /** The sum of the positive slots: the most the negative-error loop can take away. */
  function PositivePart(s: seq<int>): int
  {
    if s == [] then 0 else Max0(s[0]) + PositivePart(s[1..])
  }

  lemma {:induction false} SumUpdate(s: seq<int>, k: int, x: int)
    requires 0 <= k < |s|
    ensures Sum(s[k := s[k] + x]) == Sum(s) + x
  {
    if k == 0 {
      assert s[k := s[k] + x][1..] == s[1..];
    } else {
      SumUpdate(s[1..], k - 1, x);
      assert s[k := s[k] + x][1..] == s[1..][k - 1 := s[k] + x];
    }
  }

  lemma {:induction false} SumOfZeros(s: seq<int>)
    requires forall k :: 0 <= k < |s| ==> s[k] == 0
    ensures Sum(s) == 0
  {
    if s != [] {
      SumOfZeros(s[1..]);
    }
  }

  lemma {:induction false} PositivePartDecrement(s: seq<int>, k: int)
    requires 0 <= k < |s| && s[k] > 0
    ensures PositivePart(s[k := s[k] - 1]) == PositivePart(s) - 1
  {
    if k == 0 {
      assert s[k := s[k] - 1][1..] == s[1..];
    } else {
      PositivePartDecrement(s[1..], k - 1);
      assert s[k := s[k] - 1][1..] == s[1..][k - 1 := s[k] - 1];
    }
  }

  lemma {:induction false} PositivePartAtLeastSum(s: seq<int>)
    ensures PositivePart(s) >= Sum(s)
  {
    if s != [] {
      PositivePartAtLeastSum(s[1..]);
    }
  }

  lemma {:induction false} PositiveSlotExists(s: seq<int>)
    requires PositivePart(s) > 0
    ensures exists k :: 0 <= k < |s| && s[k] > 0
  {
    if s[0] <= 0 {
      PositiveSlotExists(s[1..]);
      var k :| 0 <= k < |s[1..]| && s[1..][k] > 0;
      assert s[k + 1] > 0;
    }
  }

  // ---------------------------------------------------------------------------
  // distributeErrorRandomly

  /**
   * `distributeErrorRandomly(array, error)`, in place. Each random index is a
   * nondeterministic choice. An iteration of the negative loop that picks a
   * slot that is not positive changes nothing, so only the iterations that
   * pick a positive slot are taken; the requires is the condition under which the
   * source's loop can end at all.
   */
  method DistributeErrorRandomly(a: array<int>, error: int)
    requires error > 0 ==> a.Length > 0
    requires error < 0 ==> PositivePart(a[..]) >= -error
    modifies a
    ensures Sum(a[..]) == Sum(old(a[..])) + error
    ensures error >= 0 ==> forall k :: 0 <= k < a.Length ==> old(a[k]) <= a[k]
    ensures error <= 0 ==> forall k :: 0 <= k < a.Length ==> a[k] <= old(a[k]) && (a[k] < old(a[k]) ==> a[k] >= 0)
  {
    var e := error;
    // positive error: one unit to a random slot at a time
    while e > 0
      invariant error >= 0 ==> 0 <= e <= error
      invariant error <= 0 ==> e == error && a[..] == old(a[..])
      invariant Sum(a[..]) + e == Sum(old(a[..])) + error
      invariant forall k :: 0 <= k < a.Length ==> old(a[k]) <= a[k]
      decreases e
    {
      var randomIndex :| 0 <= randomIndex < a.Length;
      SumUpdate(a[..], randomIndex, 1);
      a[randomIndex] := a[randomIndex] + 1;
      e := e - 1;
    }
    // negative error: one unit from a random positive slot at a time
    while e < 0
      invariant error >= 0 ==> e == 0
      invariant error < 0 ==> error <= e <= 0
      invariant Sum(a[..]) + e == Sum(old(a[..])) + error
      invariant e < 0 ==> PositivePart(a[..]) >= -e
      invariant error <= 0 ==> forall k :: 0 <= k < a.Length ==> a[k] <= old(a[k]) && (a[k] < old(a[k]) ==> a[k] >= 0)
      invariant error >= 0 ==> forall k :: 0 <= k < a.Length ==> old(a[k]) <= a[k]
      decreases -e
    {
      PositiveSlotExists(a[..]);
      var randomIndex :| 0 <= randomIndex < a.Length && a[randomIndex] > 0;
      SumUpdate(a[..], randomIndex, -1);
      PositivePartDecrement(a[..], randomIndex);
      a[randomIndex] := a[randomIndex] - 1;
      e := e + 1;
    }
  }

  // ---------------------------------------------------------------------------
  // Segments and interpolation

  /** `Math.round(i * multiplier)` with `multiplier = steps / D`: where segment i starts. */
  function Boundary(i: int, steps: nat, segments: nat): int
    requires segments > 0
  {
    Round(i as real * (steps as real / segments as real))
  }

  /** Segment boundaries never go down, so the segments are pairwise disjoint and in order. */
  lemma BoundaryMonotone(i: int, k: int, steps: nat, segments: nat)
    requires segments > 0 && i <= k
    ensures Boundary(i, steps, segments) <= Boundary(k, steps, segments)
  {
    var m := steps as real / segments as real;
    assert m >= 0.0;
    assert (k - i) as real * m >= 0.0;
    assert i as real * m <= k as real * m;
  }

  /** The first segment starts at slot 0 and the last one ends at `steps`. */
  lemma BoundaryEnds(steps: nat, segments: nat)
    requires segments > 0
    ensures Boundary(0, steps, segments) == 0
    ensures Boundary(segments, steps, segments) == steps
  {
    assert segments as real * (steps as real / segments as real) == steps as real;
  }

  lemma BoundariesBelow(i: int, steps: nat, segments: nat)
    requires segments > 0
    ensures forall k :: k <= i ==> Boundary(k, steps, segments) <= Boundary(i, steps, segments)
  {
    forall k | k <= i
      ensures Boundary(k, steps, segments) <= Boundary(i, steps, segments)
    {
      BoundaryMonotone(k, i, steps, segments);
    }
  }

  /** Every boundary lies in `[0, steps]`, so every segment lies inside the array. */
  lemma BoundaryInRange(i: int, steps: nat, segments: nat)
    requires segments > 0 && 0 <= i <= segments
    ensures 0 <= Boundary(i, steps, segments) <= steps
  {
    BoundaryEnds(steps, segments);
    BoundaryMonotone(0, i, steps, segments);
    BoundaryMonotone(i, segments, steps, segments);
  }

  /** The segments cover every slot: slot j lies in some segment. */
  lemma SegmentsTile(steps: nat, segments: nat, j: int)
    requires segments > 0 && 0 <= j < steps
    ensures exists i :: 0 <= i < segments && Boundary(i, steps, segments) <= j < Boundary(i + 1, steps, segments)
  {
    BoundaryEnds(steps, segments);
    SegmentsTileFrom(steps, segments, j, 0);
  }

  lemma {:induction false} SegmentsTileFrom(steps: nat, segments: nat, j: int, n: nat)
    requires segments > 0 && n < segments && j < steps
    requires Boundary(n, steps, segments) <= j
    requires Boundary(segments, steps, segments) == steps
    ensures exists i :: n <= i < segments && Boundary(i, steps, segments) <= j < Boundary(i + 1, steps, segments)
    decreases segments - n
  {
    if j >= Boundary(n + 1, steps, segments) {
      SegmentsTileFrom(steps, segments, j, n + 1);
    }
  }

  /**
   * What the segment `[start, end)` of weight i writes into slot j
   * (source/helper.ts:99-105): the interpolation from weight i toward weight
   * (i + 1) mod D, scaled by the amount and divided by the segment length.
   * Only defined on a non-empty segment, which is where the source divides.
   */
  function SlotAllocation(rule: DistributionRule, i: nat, start: int, end: int, j: int): (n: int)
    requires i < |rule.distribution| && start < end
    ensures j == start ==> n == Round(rule.distribution[i] * rule.amount as real / (end - start) as real)
  {
    var d := |rule.distribution|;
    assert i % d == i;
    var value := rule.distribution[i % d] * rule.amount as real;
    var nextValue := rule.distribution[(i + 1) % d] * rule.amount as real;
    var t := (j - start) as real / (end - start) as real;
    assert j == start ==> t == 0.0 && Lerp(value, nextValue, t) == rule.distribution[i] * rule.amount as real;
    Round(Lerp(value, nextValue, t) / (end - start) as real)
  }

  ghost predicate NonNegativeWeights(weights: seq<real>)
  {
    forall k :: 0 <= k < |weights| ==> weights[k] >= 0.0
  }

  /** With non-negative weights and amount, every interpolated slot is non-negative. */
  lemma SlotAllocationNonNegative(rule: DistributionRule, i: nat, start: int, end: int, j: int)
    requires NonNegativeWeights(rule.distribution) && rule.amount >= 0
    requires i < |rule.distribution|
    requires start <= j < end
    ensures SlotAllocation(rule, i, start, end, j) >= 0
  {
    var d := |rule.distribution|;
    var value := rule.distribution[i % d] * rule.amount as real;
    var nextValue := rule.distribution[(i + 1) % d] * rule.amount as real;
    ProductNonNegative(rule.distribution[i % d], rule.amount as real);
    ProductNonNegative(rule.distribution[(i + 1) % d], rule.amount as real);
    var t := (j - start) as real / (end - start) as real;
    assert 0.0 <= t <= 1.0;
    var v := Lerp(value, nextValue, t);
    assert v >= 0.0;
    assert v / (end - start) as real >= 0.0;
  }

  /** The values the segment `[start, end)` of weight i writes into its first n slots, in slot order. */
  function SegmentFill(rule: DistributionRule, i: nat, start: int, end: int, n: nat): (s: seq<int>)
    requires i < |rule.distribution| && n <= end - start
    ensures |s| == n
    decreases n
  {
    if n == 0 then []
    else SegmentFill(rule, i, start, end, n - 1) + [SlotAllocation(rule, i, start, end, start + n - 1)]
  }

  /** The first `Boundary(n)` slots as the first n segments leave them. */
  function FillPrefix(rule: DistributionRule, steps: nat, n: nat): (s: seq<int>)
    requires 0 < |rule.distribution| && n <= |rule.distribution|
    ensures |s| == Boundary(n, steps, |rule.distribution|)
    decreases n
  {
    var d := |rule.distribution|;
    if n == 0 then BoundaryEnds(steps, d); []
    else
      var start := Boundary(n - 1, steps, d);
      var end := Boundary(n, steps, d);
      BoundaryMonotone(n - 1, n, steps, d);
      FillPrefix(rule, steps, n - 1) + SegmentFill(rule, n - 1, start, end, end - start)
  }

  /**
   * The array as the two nested loops leave it, before the error is
   * redistributed; with no weights the loops write nothing.
   */
  function Fill(rule: DistributionRule, steps: nat): (s: seq<int>)
    ensures |s| == steps
  {
    if |rule.distribution| == 0 then seq(steps, _ => 0)
    else BoundaryEnds(steps, |rule.distribution|); FillPrefix(rule, steps, |rule.distribution|)
  }

  lemma {:induction false} SegmentFillAt(rule: DistributionRule, i: nat, start: int, end: int, n: nat, k: nat)
    requires i < |rule.distribution| && n <= end - start
    requires k < n
    ensures SegmentFill(rule, i, start, end, n)[k] == SlotAllocation(rule, i, start, end, start + k)
    decreases n
  {
    if k < n - 1 {
      SegmentFillAt(rule, i, start, end, n - 1, k);
    }
  }

  lemma {:induction false} FillPrefixAt(rule: DistributionRule, steps: nat, n: nat, i: nat, j: int)
    requires 0 < |rule.distribution| && n <= |rule.distribution|
    requires i < n
    requires Boundary(i, steps, |rule.distribution|) <= j < Boundary(i + 1, steps, |rule.distribution|)
    ensures 0 <= j < |FillPrefix(rule, steps, n)|
    ensures FillPrefix(rule, steps, n)[j] ==
              SlotAllocation(rule, i, Boundary(i, steps, |rule.distribution|), Boundary(i + 1, steps, |rule.distribution|), j)
    decreases n
  {
    var d := |rule.distribution|;
    BoundaryInRange(i, steps, d);
    BoundaryMonotone(i + 1, n, steps, d);
    BoundaryMonotone(n - 1, n, steps, d);
    var start := Boundary(n - 1, steps, d);
    var end := Boundary(n, steps, d);
    var front := FillPrefix(rule, steps, n - 1);
    var last := SegmentFill(rule, n - 1, start, end, end - start);
    assert FillPrefix(rule, steps, n) == front + last;
    if i == n - 1 {
      SegmentFillAt(rule, n - 1, start, end, end - start, j - start);
    } else {
      BoundaryMonotone(i + 1, n - 1, steps, d);
      FillPrefixAt(rule, steps, n - 1, i, j);
    }
  }

  /**
   * Each slot of each segment holds that segment's interpolated allocation;
   * since the segments tile the cycle, this fixes every slot.
   */
  lemma FillAt(rule: DistributionRule, steps: nat, i: nat, j: int)
    requires i < |rule.distribution|
    requires Boundary(i, steps, |rule.distribution|) <= j < Boundary(i + 1, steps, |rule.distribution|)
    ensures 0 <= j < steps
    ensures Fill(rule, steps)[j] ==
              SlotAllocation(rule, i, Boundary(i, steps, |rule.distribution|), Boundary(i + 1, steps, |rule.distribution|), j)
  {
    BoundaryEnds(steps, |rule.distribution|);
    FillPrefixAt(rule, steps, |rule.distribution|, i, j);
  }

  /** With non-negative weights and amount, no slot of the fill is negative. */
  lemma FillNonNegative(rule: DistributionRule, steps: nat)
    requires NonNegativeWeights(rule.distribution) && rule.amount >= 0
    ensures forall k :: 0 <= k < steps ==> Fill(rule, steps)[k] >= 0
  {
    var d := |rule.distribution|;
    forall k | 0 <= k < steps
      ensures Fill(rule, steps)[k] >= 0
    {
      if d > 0 {
        SegmentsTile(steps, d, k);
        var i :| 0 <= i < d && Boundary(i, steps, d) <= k < Boundary(i + 1, steps, d);
        FillAt(rule, steps, i, k);
        SlotAllocationNonNegative(rule, i, Boundary(i, steps, d), Boundary(i + 1, steps, d), k);
      }
    }
  }

  /**
   * The inner loop of source/helper.ts:101-109: adds the allocations of the
   * segment `[start, end)` of weight i into slots start..end-1 and returns
   * their total; no other slot changes.
   */
  method FillSegment(a: array<int>, rule: DistributionRule, i: nat, start: int, end: int) returns (added: int)
    requires i < |rule.distribution|
    requires 0 <= start < end <= a.Length
    requires forall k :: start <= k < end ==> a[k] == 0
    modifies a
    ensures a[..start] == old(a[..start]) && a[end..] == old(a[end..])
    ensures a[start..end] == SegmentFill(rule, i, start, end, end - start)
    ensures Sum(a[..]) == Sum(old(a[..])) + added
  {
    added := 0;
    for j := start to end
      invariant a[..start] == old(a[..start]) && a[end..] == old(a[end..])
      invariant a[start..j] == SegmentFill(rule, i, start, end, j - start)
      invariant forall k :: j <= k < end ==> a[k] == 0
      invariant Sum(a[..]) == Sum(old(a[..])) + added
    {
      var allocation := SlotAllocation(rule, i, start, end, j);
      SumUpdate(a[..], j, allocation);
      a[j] := a[j] + allocation;
      added := added + allocation;
      assert a[start..j + 1] == a[start..j] + [a[j]];
    }
  }

  /**
   * The nested loops of source/helper.ts:95-110 on the zero-filled array,
   * returning `totalAllocated`.
   */
  method FillSegments(a: array<int>, rule: DistributionRule, steps: nat) returns (totalAllocated: int)
    requires a.Length == steps
    requires forall k :: 0 <= k < a.Length ==> a[k] == 0
    modifies a
    ensures a[..] == Fill(rule, steps)
    ensures totalAllocated == Sum(a[..])
  {
    var distributionStep := |rule.distribution|;
    totalAllocated := 0;
    SumOfZeros(a[..]);
    if distributionStep == 0 {
      // the outer loop runs zero times
      assert a[..] == Fill(rule, steps);
      return;
    }
    BoundaryEnds(steps, distributionStep);
    for i := 0 to distributionStep
      invariant 0 <= Boundary(i, steps, distributionStep) <= steps
      invariant a[..Boundary(i, steps, distributionStep)] == FillPrefix(rule, steps, i)
      invariant forall j :: Boundary(i, steps, distributionStep) <= j < steps ==> a[j] == 0
      invariant totalAllocated == Sum(a[..])
    {
      var start := Boundary(i, steps, distributionStep);
      var end := Boundary(i + 1, steps, distributionStep);
      BoundaryMonotone(i, i + 1, steps, distributionStep);
      BoundaryInRange(i + 1, steps, distributionStep);
      if start < end {
        ghost var before := a[..];
        var added := FillSegment(a, rule, i, start, end);
        totalAllocated := totalAllocated + added;
        assert a[..end] == a[..start] + a[start..end];
        forall j | end <= j < steps
          ensures a[j] == 0
        {
          assert a[j] == a[end..][j - end] == before[end..][j - end];
        }
      }
      assert FillPrefix(rule, steps, i + 1) == FillPrefix(rule, steps, i) + SegmentFill(rule, i, start, end, end - start);
    }
  }

  /**
   * How the error redistribution relates the interpolated fill to the output:
   * when slots were added every slot only grew; when slots were taken every
   * slot only shrank and none that shrank went below zero.
   */
  ghost predicate AbsorbsError(filled: seq<int>, out: seq<int>)
  {
    |filled| == |out| &&
    (Sum(filled) <= Sum(out) ==> forall k :: 0 <= k < |out| ==> filled[k] <= out[k]) &&
    (Sum(out) <= Sum(filled) ==> forall k :: 0 <= k < |out| ==> out[k] <= filled[k] && (out[k] < filled[k] ==> out[k] >= 0))
  }

  /**
   * `generatePeriodicDistribution(rule, interval)`. The current calendar
   * month is `now`; `filled` is the array before the error redistribution.
   */
  method GeneratePeriodicDistribution(rule: DistributionRule, interval: int, now: CalendarMonth)
    returns (r: Result<seq<int>, GenerationError>, ghost filled: seq<int>)
    requires rule.amount >= 0
    ensures r.Failure? <==> CycleSteps(rule, interval, now).Failure?
    ensures r.Failure? ==> r.error == CycleSteps(rule, interval, now).error
    ensures r.Success? ==> |r.value| == CycleSteps(rule, interval, now).value
    ensures r.Success? ==> Sum(r.value) == rule.amount
    ensures r.Success? ==> filled == Fill(rule, |r.value|) && AbsorbsError(filled, r.value)
    ensures r.Success? && NonNegativeWeights(rule.distribution) ==> forall k :: 0 <= k < |r.value| ==> r.value[k] >= 0
  {
    filled := [];
    var cycle := CycleSeconds(rule.cycle, now);
    if cycle.Failure? {
      return Failure(cycle.error), filled;
    }
    var cycleSeconds := cycle.value;
    if interval == 0 || cycleSeconds % interval != 0 {
      return Failure(IntervalNotDivisor), filled;
    }
    if interval < 0 {
      return Failure(InvalidArrayLength), filled;
    }
    var steps := cycleSeconds / interval;
    var distributionArray := new int[steps](_ => 0);
    var totalAllocated := FillSegments(distributionArray, rule, steps);
    filled := distributionArray[..];
    PositivePartAtLeastSum(filled);
    DistributeErrorRandomly(distributionArray, rule.amount - totalAllocated);
    r := Success(distributionArray[..]);
    if NonNegativeWeights(rule.distribution) {
      FillNonNegative(rule, steps);
    }
  }

  /**
   * The rule of source/helper.test.ts (eight weights over a day, ten-minute
   * slots) for any amount, as the tests use with 1000 and 100.
   */
  method TenMinuteDailyExample(amount: nat, now: CalendarMonth) returns (r: Result<seq<int>, GenerationError>)
    ensures r.Success? && |r.value| == 144 && Sum(r.value) == amount
    ensures forall k :: 0 <= k < 144 ==> r.value[k] >= 0
    ensures amount > 0 ==> exists k :: 0 <= k < 144 && r.value[k] > 0
  {
    var rule := DistributionRule("periodic", amount, "day", [0.0, 0.1, 0.1, 0.2, 0.3, 0.1, 0.1, 0.1]);
    ghost var filled;
    r, filled := GeneratePeriodicDistribution(rule, 10 * 60, now);
    assert CycleSteps(rule, 600, now) == Success(144);
    if amount > 0 {
      PositivePartAtLeastSum(r.value);
      PositiveSlotExists(r.value);
    }
  }
}
