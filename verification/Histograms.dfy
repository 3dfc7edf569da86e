/** src/stats/histogram.hpp and histogram.cpp: the counters updated in place, against the bag of
    samples they stand for; and src/stats/summary.cpp, which reads them. */
module Histograms {
  import opened Wrappers
  import opened Buckets
  import opened Tallies

  /** A percentile's answer, by the one sample that speaks for it: its slot's high edge, or the exact
      maximum when it is above 60 s. */
  ghost predicate Answers(samples: seq<nat>, p: real, answer: nat, max: nat) {
    && (exists v: nat :: SpeaksFor(samples, p, v))
    && forall v: nat :: SpeaksFor(samples, p, v) ==>
         answer == if v <= 60_000_000_000 then SlotHigh(IndexOf(v)) else max
  }

  class Histogram {
    const slots: array<nat>
    var count: nat
    var overflow: nat
    var max: nat

    ghost var samples: seq<nat>  // everything ever recorded, in order

    function View(): Tally
      requires slots.Length == COUNT
      reads this, slots
    {
      Tally(slots[..], count, overflow, max)
    }

    ghost predicate Valid()
      reads this, slots
    {
      slots.Length == COUNT && View() == Of(samples)
    }

    constructor ()
      ensures Valid() && samples == [] && fresh(slots)
    {
      slots := new nat[COUNT](_ => 0);
      count, overflow, max := 0, 0, 0;
      samples := [];
      new;
      TallyEqual(View(), Zero());
    }

    /** The source asserts that a latency is not negative; every caller proves it here. */
    method Record(latency: int)
      requires Valid() && latency >= 0
      modifies this, slots
      ensures Valid()
      ensures samples == old(samples) + [latency]
    {
      ghost var before := View();
      count := count + 1;
      if latency > max {
        max := latency;
      }
      samples := samples + [latency];
      OfSnoc(old(samples), latency);
      if latency > MAX_VALUE {
        overflow := overflow + 1;
      } else {
        HasSlot(latency);
        var i := IndexOf(latency);
        slots[i] := slots[i] + 1;
      }
      TallyEqual(View(), Plus(before, latency));
    }

    /** None exactly when nothing was recorded; otherwise what the sorted list of all samples has
        at the requested rank, reported at its slot's high edge. */
    method Percentile(p: real) returns (answer: Option<nat>)
      requires Valid() && 0.0 <= p <= 100.0
      ensures answer.None? <==> samples == []
      ensures answer.Some? ==>
                var rank := Rank(p, |samples|);
                && answer.value == AtRank(View(), rank)
                && answer.value == Reported(Sort(samples)[rank - 1], Sort(samples)[|samples| - 1])
      ensures answer.Some? ==> Answers(samples, p, answer.value, max)
    {
      hide Sort, Of, Answers;
      CountIsLength(samples);
      if count == 0 {
        return None;
      }
      var target := Rank(p, count);
      RankRefinesSortedList(samples, target);
      AnswersForOne(samples, p);
      var running := 0;
      for i := 0 to COUNT
        invariant running == PrefixSum(View().slots, i) && running < target
        invariant ScanFrom(View(), target, i) == AtRank(View(), target)
      {
        running := running + slots[i];
        if running >= target {
          return Some(SlotHigh(i));
        }
      }
      return Some(max);
    }

    /** Bag union, in place.  The source asserts that a histogram is not merged into itself. */
    method Merge(other: Histogram)
      requires Valid() && other.Valid() && other != this && other.slots != slots
      modifies this, slots
      ensures Valid()
      ensures samples == old(samples) + other.samples
    {
      ghost var mine, theirs := View(), other.View();
      for i := 0 to COUNT
        invariant other.Valid() && other.View() == theirs
        invariant count == mine.count && overflow == mine.overflow && max == mine.max
        invariant samples == old(samples)
        invariant forall j :: 0 <= j < i ==> slots[j] == mine.slots[j] + theirs.slots[j]
        invariant forall j :: i <= j < COUNT ==> slots[j] == mine.slots[j]
      {
        slots[i] := slots[i] + other.slots[i];
      }
      count := count + other.count;
      overflow := overflow + other.overflow;
      max := Max(max, other.max);
      samples := samples + other.samples;
      TallyEqual(View(), Join(mine, theirs));
      JoinIsUnion(old(samples), other.samples);
    }
  }

  lemma AnswersForOne(samples: seq<nat>, p: real)
    requires 0.0 <= p <= 100.0 && samples != []
    ensures Answers(samples, p, AtRank(Of(samples), Rank(p, |samples|)), Of(samples).max)
  {
    hide Sort, Of, AtRank, SpeaksFor, Rank;
    var rank := Rank(p, |samples|);
    var w := Sort(samples)[rank - 1];
    SortedSampleSpeaks(samples, p);
    RankRefinesSortedList(samples, rank);
    MaxIsLast(samples);
    forall v: nat | SpeaksFor(samples, p, v) ensures v == w {
      OneSampleSpeaks(samples, p, v, w);
    }
  }

  /** The reportable shape of one distribution. */
  datatype Summary = Summary(samples: nat, overflow: nat, duration: nat,
                             p50: nat, p90: nat, p99: nat, p999: nat, max: nat)

  /** None exactly when nothing was recorded.  The ladder never falls unless samples above 60 s sit
      just over an occupied top slot, and its top rung exceeds the true maximum by at most 1/128. */
  method Summarise(histogram: Histogram, duration: nat) returns (summary: Option<Summary>)
    requires histogram.Valid() && duration > 0
    ensures summary.None? <==> histogram.samples == []
    ensures summary.Some? ==>
              var s := summary.value;
              && s.samples == |histogram.samples| && s.overflow == histogram.overflow
              && s.duration == duration && s.max == Of(histogram.samples).max
              && s.p50 == AtRank(histogram.View(), Rank(50.0, s.samples))
              && s.p90 == AtRank(histogram.View(), Rank(90.0, s.samples))
              && s.p99 == AtRank(histogram.View(), Rank(99.0, s.samples))
              && s.p999 == AtRank(histogram.View(), Rank(99.9, s.samples))
              && SUB_BUCKETS * s.p999 <= (SUB_BUCKETS + 1) * s.max
              && Answers(histogram.samples, 50.0, s.p50, s.max) && Answers(histogram.samples, 90.0, s.p90, s.max)
              && Answers(histogram.samples, 99.0, s.p99, s.max) && Answers(histogram.samples, 99.9, s.p999, s.max)
              && (TopClear(histogram.View()) ==> s.p50 <= s.p90 <= s.p99 <= s.p999)
  {
    hide Answers;
    CountIsLength(histogram.samples);
    if histogram.count == 0 {
      return None;
    }
    var p50 := histogram.Percentile(50.0);
    var p90 := histogram.Percentile(90.0);
    var p99 := histogram.Percentile(99.0);
    var p999 := histogram.Percentile(99.9);
    Ladder(histogram.samples);
    TopRung(histogram.samples, Rank(99.9, |histogram.samples|));
    return Some(Summary(histogram.count, histogram.overflow, duration,
                        p50.value, p90.value, p99.value, p999.value, histogram.max));
  }

  lemma Ladder(samples: seq<nat>)
    requires samples != []
    ensures TopClear(Of(samples)) ==>
              && AtRank(Of(samples), Rank(50.0, |samples|)) <= AtRank(Of(samples), Rank(90.0, |samples|))
              && AtRank(Of(samples), Rank(90.0, |samples|)) <= AtRank(Of(samples), Rank(99.0, |samples|))
              && AtRank(Of(samples), Rank(99.0, |samples|)) <= AtRank(Of(samples), Rank(99.9, |samples|))
  {
    MonotoneExactly(samples);
    CountIsLength(samples);
    RankMonotone(50.0, 90.0, |samples|);
    RankMonotone(90.0, 99.0, |samples|);
    RankMonotone(99.0, 99.9, |samples|);
  }

  /** No percentile exceeds the true maximum by more than one part in 128. */
  lemma TopRung(samples: seq<nat>, rank: nat)
    requires 1 <= rank <= |samples|
    ensures SUB_BUCKETS * AtRank(Of(samples), rank) <= (SUB_BUCKETS + 1) * Of(samples).max
  {
    RankErrorBound(samples, rank);
    RankRefinesSortedList(samples, rank);
    MaxIsLast(samples);
    SortOrdered(samples, rank, |samples|);
  }
}
