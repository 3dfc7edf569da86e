/** src/core/units.cpp and src/load/schedule.hpp: when request i is due, over exact reals, and the
    one shared counter that hands the requests out. */
module Schedules {
  import opened Wrappers

  const MIN_RPS: real := 0.001
  const MAX_RPS: real := 1_000_000_000.0
  const NANOS_PER_SECOND: real := 1_000_000_000.0

  type Rate = rps: real | MIN_RPS <= rps <= MAX_RPS witness 1.0

  datatype UsageError = RateOutOfBounds(rps: real)

  /** The only way to make a rate. */
  function PerSecond(rps: real): (rate: Result<Rate, UsageError>)
    ensures rate.Ok? <==> 0.001 <= rps <= 1_000_000_000.0
    ensures rate.Ok? ==> rate.value == rps
  {
    if rps < MIN_RPS || rps > MAX_RPS then Err(RateOutOfBounds(rps)) else Ok(rps)
  }

  /** llround: to nearest, halves away from zero. */
  function RoundAway(x: real): int {
    if x >= 0.0 then (x + 0.5).Floor else -((0.5 - x).Floor)
  }

  /** The exact gap between two requests, in nanoseconds. */
  function Gap(rate: Rate): (gap: real)
    ensures gap >= 1.0 && gap * rate == 1_000_000_000.0
  {
    var gap := NANOS_PER_SECOND / rate;
    assert gap * rate == NANOS_PER_SECOND;
    GapAtLeastOne(gap, rate);
    gap
  }

  lemma GapAtLeastOne(gap: real, rate: Rate)
    requires gap * rate == NANOS_PER_SECOND
    ensures gap >= 1.0
  {
    if gap < 1.0 {
      ProductOrder(gap, 1.0, rate);
    }
  }

  lemma ProductOrder(a: real, b: real, c: real)
    requires a < b && c > 0.0
    ensures a * c < b * c
  {
    assert (b - a) * c > 0.0;
  }

  function Interval(rate: Rate): int {
    RoundAway(NANOS_PER_SECOND / rate)
  }

  function DueAt(rate: Rate, index: nat): int {
    RoundAway(index as real * NANOS_PER_SECOND / rate)
  }

  lemma DueIsRoundedMultiple(rate: Rate, index: nat)
    ensures index as real * NANOS_PER_SECOND / rate == index as real * Gap(rate)
    ensures DueAt(rate, index) == (index as real * Gap(rate) + 0.5).Floor
  {
    var gap := Gap(rate);
    assert index as real * NANOS_PER_SECOND / rate == index as real * (NANOS_PER_SECOND / rate);
    assert index as real * gap >= 0.0;
  }

  /** The schedule never drifts: every slot is within half a nanosecond of its exact time, a half going
      to the later one. */
  lemma ScheduleIsExact(rate: Rate, index: nat)
    ensures -0.5 < DueAt(rate, index) as real - index as real * Gap(rate) <= 0.5
    ensures DueAt(rate, index) >= 0
  {
    DueIsRoundedMultiple(rate, index);
    assert index as real * Gap(rate) >= 0.0;
  }

  lemma NextIsLater(rate: Rate, index: nat)
    ensures DueAt(rate, index) < DueAt(rate, index + 1)
  {
    DueIsRoundedMultiple(rate, index);
    DueIsRoundedMultiple(rate, index + 1);
    var x := index as real * Gap(rate);
    assert (index + 1) as real * Gap(rate) == x + Gap(rate);
    assert (x + Gap(rate) + 0.5).Floor >= (x + 0.5 + 1.0).Floor == (x + 0.5).Floor + 1;
  }

  /** No two slots are due at the same instant, at any permitted rate. */
  lemma {:induction false} DueStrictlyIncreases(rate: Rate, i: nat, j: nat)
    requires i < j
    ensures DueAt(rate, i) < DueAt(rate, j)
    decreases j
  {
    NextIsLater(rate, j - 1);
    if i < j - 1 {
      DueStrictlyIncreases(rate, i, j - 1);
    }
  }

  lemma DueOrdered(rate: Rate, i: nat, j: nat)
    requires i <= j
    ensures DueAt(rate, i) <= DueAt(rate, j)
  {
    if i < j {
      DueStrictlyIncreases(rate, i, j);
    }
  }

  /** Accumulating the rounded interval instead would be off by up to (n + 1) / 2. */
  lemma AccumulationError(rate: Rate, n: nat)
    ensures -((n + 1) as real) <= 2.0 * (n * Interval(rate) - DueAt(rate, n)) as real <= (n + 1) as real
  {
    ScheduleIsExact(rate, n);
    var interval, due := Interval(rate), DueAt(rate, n);
    ErrorsAdd(n as real, interval as real, due as real, Gap(rate));
    assert (n * interval) as real == n as real * interval as real;
    assert (n * interval - due) as real == (n * interval) as real - due as real;
  }

  lemma ErrorsAdd(n: real, interval: real, due: real, gap: real)
    requires n >= 0.0
    requires -0.5 <= interval - gap <= 0.5
    requires -0.5 <= due - n * gap <= 0.5
    ensures -(n + 1.0) <= 2.0 * (n * interval - due) <= n + 1.0
  {
    var sum, exact, slip := n * interval, n * gap, interval - gap;
    var total := n * slip;
    Distribute(n, interval, gap, slip);
    ScaledSlip(slip, n, total);
    assert total == sum - exact;
  }

  lemma Distribute(n: real, a: real, b: real, difference: real)
    requires difference == a - b
    ensures n * difference == n * a - n * b
  {
  }

  lemma ScaledSlip(slip: real, n: real, total: real)
    requires -0.5 <= slip <= 0.5 && n >= 0.0 && total == n * slip
    ensures -n <= 2.0 * total <= n
  {
    assert n * (0.5 - slip) >= 0.0;
    assert n * (0.5 + slip) >= 0.0;
  }

  /** Accumulation is harmless for every n exactly when a whole number of nanoseconds separates
      two requests. */
  lemma AccumulationExactly(rate: Rate)
    ensures (forall n: nat :: n * Interval(rate) == DueAt(rate, n)) <==> Interval(rate) as real == Gap(rate)
  {
    var slip := Interval(rate) as real - Gap(rate);
    if slip == 0.0 {
      forall n: nat ensures n * Interval(rate) == DueAt(rate, n) {
        ScheduleIsExact(rate, n);
        assert n as real * Gap(rate) == (n * Interval(rate)) as real;
        DueIsRoundedMultiple(rate, n);
      }
    } else {
      var size := if slip < 0.0 then -slip else slip;
      var n := (1.0 / size).Floor + 1;
      SlipShows(slip, size, n);
      ScheduleIsExact(rate, n);
      assert n as real * slip == (n * Interval(rate)) as real - n as real * Gap(rate);
      assert n * Interval(rate) != DueAt(rate, n);
    }
  }

  lemma SlipShows(slip: real, size: real, n: nat)
    requires size > 0.0 && (slip == size || slip == -size) && n == (1.0 / size).Floor + 1
    ensures n as real * slip > 0.5 || n as real * slip < -0.5
  {
    var turns, total := 1.0 / size, n as real * size;
    Reciprocal(size);
    EnoughTurns(turns, size, n as real);
    assert total > 1.0;
    if slip == -size {
      MirrorProduct(n as real, size);
      assert n as real * slip == -total;
    } else {
      assert n as real * slip == total;
    }
  }

  lemma Reciprocal(size: real)
    requires size > 0.0
    ensures 1.0 / size * size == 1.0
  {
  }

  lemma MirrorProduct(a: real, b: real)
    ensures a * -b == -(a * b)
  {
  }

  lemma EnoughTurns(turns: real, size: real, n: real)
    requires size > 0.0 && turns * size == 1.0 && turns < n
    ensures n * size > 1.0
  {
    var whole, more := turns * size, n * size;
    ProductOrder(turns, n, size);
    assert whole < more;
  }

  /** At three requests per second the accumulated schedule falls one nanosecond further behind
      every second, without bound. */
  lemma ThreePerSecondDrifts(seconds: nat)
    ensures DueAt(3.0, 3 * seconds) - 3 * seconds * Interval(3.0) == seconds
  {
    assert Interval(3.0) == 333_333_333;
    assert (3 * seconds) as real * NANOS_PER_SECOND / 3.0 == seconds as real * NANOS_PER_SECOND;
    assert seconds as real * NANOS_PER_SECOND == (seconds * 1_000_000_000) as real;
  }

  lemma IntervalIsExact(rate: Rate)
    ensures -0.5 < Interval(rate) as real - Gap(rate) <= 0.5
  {
  }

  lemma IntervalPositive(rate: Rate)
    ensures Interval(rate) >= 1
  {
    assert Gap(rate) >= 1.0;
  }

  /** How many slots the rate calls for in a run of so many nanoseconds. */
  function SlotsDue(rate: Rate, duration: nat): nat {
    var share := rate * duration as real / NANOS_PER_SECOND;
    assert rate * duration as real >= 0.0;
    share.Floor
  }

  lemma ShareOfRun(rate: Rate, duration: real)
    ensures (rate * duration / NANOS_PER_SECOND) * Gap(rate) == duration
  {
    var gap, share := Gap(rate), rate * duration / NANOS_PER_SECOND;
    assert share * NANOS_PER_SECOND == rate * duration;
    Regroup(share, gap, rate);
    assert (share * gap) * rate == duration * rate;
    SameFactor(share * gap, duration, rate);
  }

  lemma Regroup(a: real, b: real, c: real)
    ensures (a * b) * c == a * (b * c)
  {
  }

  lemma SameFactor(a: real, b: real, c: real)
    requires c > 0.0 && a * c == b * c
    ensures a == b
  {
    if a < b {
      ProductOrder(a, b, c);
    } else if b < a {
      ProductOrder(b, a, c);
    }
  }

  /** The slots due before the end of a run are the first `SlotsDue` and at most one more. */
  lemma SlotsDueCounts(rate: Rate, duration: nat, index: nat)
    ensures index < SlotsDue(rate, duration) ==> DueAt(rate, index) < duration
    ensures DueAt(rate, index) < duration ==> index <= SlotsDue(rate, duration)
  {
    hide DueAt, Gap;
    var share := rate * duration as real / NANOS_PER_SECOND;
    ShareOfRun(rate, duration as real);
    ScheduleIsExact(rate, index);
    Compare(index as real, share, Gap(rate), index as real * Gap(rate), share * Gap(rate));
    DueAgainstEnd(rate, index, duration, share, index as real * Gap(rate), Gap(rate));
  }

  lemma Compare(x: real, share: real, gap: real, exact: real, whole: real)
    requires gap >= 1.0 && exact == x * gap && whole == share * gap
    ensures x + 1.0 <= share ==> exact + gap <= whole
    ensures share < x ==> whole < exact
  {
    if x + 1.0 <= share {
      AtMostProduct(x + 1.0, share, gap);
      NextProduct(x, gap);
    }
    if share < x {
      ProductOrder(share, x, gap);
    }
  }

  lemma DueAgainstEnd(rate: Rate, index: nat, duration: nat, share: real, exact: real, gap: real)
    requires -0.5 <= DueAt(rate, index) as real - exact <= 0.5 && gap >= 1.0
    requires index as real + 1.0 <= share ==> exact + gap <= duration as real
    requires share < index as real ==> duration as real < exact
    ensures index + 1 <= share.Floor ==> DueAt(rate, index) < duration
    ensures index > share.Floor ==> DueAt(rate, index) >= duration
  {
    hide DueAt;
    if index > share.Floor {
      assert DueAt(rate, index) as real > duration as real - 1.0;
    }
  }

  lemma AtMostProduct(a: real, b: real, c: real)
    requires a <= b && c > 0.0
    ensures a * c <= b * c
  {
    if a < b {
      ProductOrder(a, b, c);
    }
  }

  lemma NextProduct(a: real, b: real)
    ensures (a + 1.0) * b == a * b + b
  {
  }

  /** Slot i of a schedule that starts at `start`. */
  function SlotDue(rate: Rate, start: int, index: nat): int {
    start + DueAt(rate, index)
  }

  class Schedule {
    const rate: Rate
    const start: int
    var next: nat

    constructor (rate: Rate, start: int)
      ensures this.rate == rate && this.start == start && next == 0
    {
      this.rate, this.start, next := rate, start, 0;
    }

    /** One atomic fetch-and-add: no index is handed out twice and none is skipped. */
    method Claim() returns (index: nat, due: int)
      modifies this
      ensures index == old(next) && next == old(next) + 1
      ensures due == SlotDue(rate, start, index)
    {
      index := next;
      next := next + 1;
      due := start + DueAt(rate, index);
    }

    function Claimed(): nat
      reads this
    {
      next
    }
  }
}
