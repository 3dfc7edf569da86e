/** The histogram file of src/stats/csv.cpp, as rows of numbers, and the readers it promises to
    serve: one that recomputes percentiles and one that merges files from different runs. */
module HistogramCsv {
  import opened Wrappers
  import opened Buckets
  import opened Tallies
  import opened Histograms

  datatype Row = Row(slot: int, low: nat, high: nat, count: nat)

  function SlotRows(t: Tally, i: nat): seq<Row>
    requires i < COUNT
  {
    if t.slots[i] == 0 then [] else [Row(i, SlotLow(i), SlotHigh(i), t.slots[i])]
  }

  function OverflowRows(t: Tally): seq<Row> {
    if t.overflow > 0 then [Row(-1, MAX_VALUE + 1, t.max, t.overflow)] else []
  }

  function RowsFrom(t: Tally, i: nat): seq<Row>
    requires i <= COUNT
    decreases COUNT - i
  {
    if i == COUNT then OverflowRows(t) else SlotRows(t, i) + RowsFrom(t, i + 1)
  }

  function Rows(t: Tally): seq<Row> {
    RowsFrom(t, 0)
  }

  lemma RowsUnfold(t: Tally, rows: seq<Row>, i: nat)
    requires i < COUNT
    ensures rows + RowsFrom(t, i)
            == if t.slots[i] == 0 then rows + RowsFrom(t, i + 1)
               else rows + [Row(i, SlotLow(i), SlotHigh(i), t.slots[i])] + RowsFrom(t, i + 1)
  {
    hide SlotLow, SlotHigh;
    Associate(rows, SlotRows(t, i), RowsFrom(t, i + 1));
  }

  lemma Associate(a: seq<Row>, b: seq<Row>, c: seq<Row>)
    ensures (a + b) + c == a + (b + c)
    ensures b == [] ==> b + c == c
  {
  }

  method WriteHistogram(histogram: Histogram) returns (rows: seq<Row>)
    requires histogram.Valid()
    ensures rows == Rows(histogram.View())
  {
    rows := [];
    for i := 0 to COUNT
      invariant rows + RowsFrom(histogram.View(), i) == Rows(histogram.View())
    {
      RowsUnfold(histogram.View(), rows, i);
      var count := histogram.slots[i];
      if count == 0 {
        continue;
      }
      rows := rows + [Row(i, SlotLow(i), SlotHigh(i), count)];
    }
    if histogram.overflow > 0 {
      rows := rows + [Row(-1, MAX_VALUE + 1, histogram.max, histogram.overflow)];
    }
  }

  /** A reader without the layout: accumulate counts row by row, report `high` of the row reached. */
  function Reread(rows: seq<Row>, rank: nat, running: nat): Option<nat> {
    if rows == [] then None
    else if running + rows[0].count >= rank then Some(rows[0].high)
    else Reread(rows[1..], rank, running + rows[0].count)
  }

  function TotalCount(rows: seq<Row>): nat {
    if rows == [] then 0 else rows[0].count + TotalCount(rows[1..])
  }

  lemma PrefixNext(slots: Slots, i: nat)
    requires i < COUNT
    ensures PrefixSum(slots, i + 1) == PrefixSum(slots, i) + slots[i]
  {
  }

  lemma FirstRow(t: Tally, i: nat)
    requires i < COUNT
    ensures var rows, rest := RowsFrom(t, i), RowsFrom(t, i + 1);
            if t.slots[i] == 0 then rows == rest
            else rows != [] && rows[0] == Row(i, SlotLow(i), SlotHigh(i), t.slots[i]) && rows[1..] == rest
  {
    hide SlotLow, SlotHigh;
  }

  lemma LastRows(t: Tally)
    ensures RowsFrom(t, COUNT) == OverflowRows(t)
  {
  }

  lemma {:induction false} RereadFollowsScan(t: Tally, rank: nat, i: nat)
    requires i <= COUNT
    requires PrefixSum(t.slots, i) < rank <= PrefixSum(t.slots, COUNT) + t.overflow
    ensures Reread(RowsFrom(t, i), rank, PrefixSum(t.slots, i)) == Some(ScanFrom(t, rank, i))
    decreases COUNT - i
  {
    hide SlotLow, SlotHigh, PrefixSum, RowsFrom;
    if i == COUNT {
      LastRows(t);
    } else {
      FirstRow(t, i);
      PrefixNext(t.slots, i);
      if PrefixSum(t.slots, i + 1) < rank {
        RereadFollowsScan(t, rank, i + 1);
      }
    }
  }

  /** Re-percentile: at every rank, the file answers exactly as the histogram it was written from. */
  lemma RereadIsPercentile(samples: seq<nat>, rank: nat)
    requires 1 <= rank <= |samples|
    ensures Reread(Rows(Of(samples)), rank, 0) == Some(AtRank(Of(samples), rank))
  {
    NothingLost(samples);
    RereadFollowsScan(Of(samples), rank, 0);
  }

  lemma {:induction false} TotalFrom(t: Tally, i: nat)
    requires i <= COUNT
    ensures PrefixSum(t.slots, i) + TotalCount(RowsFrom(t, i)) == PrefixSum(t.slots, COUNT) + t.overflow
    decreases COUNT - i
  {
    if i < COUNT {
      FirstRow(t, i);
      TotalFrom(t, i + 1);
    }
  }

  /** The invariant the file format states: the count column sums to the number of samples. */
  lemma CountsSumToSamples(samples: seq<nat>)
    ensures TotalCount(Rows(Of(samples))) == |samples|
  {
    TotalFrom(Of(samples), 0);
    NothingLost(samples);
  }

  // ----- What a row says of the samples -----

  /** How many samples lie in a range. */
  function Between(samples: seq<nat>, low: nat, high: nat): nat {
    if samples == [] then 0
    else
      Between(samples[..|samples| - 1], low, high)
      + if low <= samples[|samples| - 1] <= high then 1 else 0
  }

  lemma {:induction false} SlotCounts(samples: seq<nat>, i: nat)
    requires i < COUNT
    ensures Of(samples).slots[i]
            == Between(samples, SlotLow(i), if SlotHigh(i) <= 60_000_000_000 then SlotHigh(i) else 60_000_000_000)
  {
    hide IndexOf, SlotLow, SlotHigh;
    if samples != [] {
      var front, v := samples[..|samples| - 1], samples[|samples| - 1];
      SlotCounts(front, i);
      SlotsPartition(v, i);
      if v <= MAX_VALUE {
        HasSlot(v);
      }
    }
  }

  lemma {:induction false} OverflowCounts(samples: seq<nat>, high: nat)
    requires forall v :: v in samples ==> v <= high
    ensures Of(samples).overflow == Between(samples, 60_000_000_001, high)
  {
    if samples != [] {
      var front, v := samples[..|samples| - 1], samples[|samples| - 1];
      assert forall w :: w in front ==> w in samples;
      assert v in samples;
      OverflowCounts(front, high);
    }
  }

  /** The row is right about the samples in its own range. */
  predicate SelfDescribing(samples: seq<nat>, row: Row) {
    row.count == Between(samples, row.low, row.high)
  }

  lemma {:induction false} RowsAre(t: Tally, i: nat, row: Row)
    requires i <= COUNT && row in RowsFrom(t, i)
    ensures if row.slot == -1 then row == Row(-1, 60_000_000_001, t.max, t.overflow)
            else 0 <= row.slot < COUNT && row == Row(row.slot, SlotLow(row.slot), SlotHigh(row.slot), t.slots[row.slot])
    decreases COUNT - i
  {
    hide SlotLow, SlotHigh;
    if i < COUNT && row !in SlotRows(t, i) {
      RowsAre(t, i + 1, row);
    }
  }

  /** What each row counts: the samples in its range, those of the topmost slot only up to 60 s and the
      overflow row's from a nanosecond above that to the exact maximum. */
  lemma RowCounts(samples: seq<nat>, row: Row)
    requires row in Rows(Of(samples))
    ensures row.slot == -1 ==> row.low == 60_000_000_001 && row.high == Of(samples).max && SelfDescribing(samples, row)
    ensures row.slot != -1 ==>
              && 0 <= row.slot < COUNT && (forall v: nat :: row.low <= v <= row.high <==> IndexOf(v) == row.slot)
              && row.count == Between(samples, row.low, if row.high <= 60_000_000_000 then row.high else 60_000_000_000)
  {
    hide Of, Rows, IndexOf, SlotLow, SlotHigh;
    RowsOfSamples(samples, row);
    MaxIsLargest(samples);
    OverflowCounts(samples, Of(samples).max);
    if row.slot != -1 {
      SlotCounts(samples, row.slot);
      forall v: nat ensures row.low <= v <= row.high <==> IndexOf(v) == row.slot {
        SlotsPartition(v, row.slot);
      }
    }
  }

  lemma RowsOfSamples(samples: seq<nat>, row: Row)
    requires row in Rows(Of(samples))
    ensures var t := Of(samples);
            if row.slot == -1 then row == Row(-1, 60_000_000_001, t.max, t.overflow)
            else 0 <= row.slot < COUNT && row == Row(row.slot, SlotLow(row.slot), SlotHigh(row.slot), t.slots[row.slot])
  {
    hide Of, RowsFrom, SlotLow, SlotHigh;
    RowsAre(Of(samples), 0, row);
  }

  /** A row counts exactly the samples in its printed range unless it is the topmost slot's and some
      sample lies above 60 s but below that slot's high edge; and exactly then. */
  lemma SelfDescribingExactly(samples: seq<nat>, row: Row)
    requires row in Rows(Of(samples))
    ensures SelfDescribing(samples, row)
            <==> row.slot == -1 || row.high <= 60_000_000_000 || Between(samples, 60_000_000_001, row.high) == 0
  {
    hide Of, Rows, Between, IndexOf;
    RowCounts(samples, row);
    if row.slot != -1 && row.high > 60_000_000_000 {
      SlotsPartition(MAX_VALUE, row.slot);
      TopRow(samples, row);
    }
  }

  lemma TopRow(samples: seq<nat>, row: Row)
    requires row in Rows(Of(samples)) && row.slot != -1 && row.high > 60_000_000_000
    ensures Between(samples, row.low, row.high)
            == Between(samples, row.low, 60_000_000_000) + Between(samples, 60_000_000_001, row.high)
  {
    hide Of, Rows, Between, IndexOf, SlotLow, SlotHigh;
    RowsOfSamples(samples, row);
    CountIsDerived();
    SlotsPartition(MAX_VALUE, COUNT - 1);
    if row.slot < COUNT - 1 {
      SlotsOrdered(row.slot, COUNT - 1);
    }
    BetweenSplits(samples, row.low, 60_000_000_000, row.high);
  }

  lemma {:induction false} BetweenSplits(samples: seq<nat>, low: nat, mid: nat, high: nat)
    requires low <= mid + 1 && mid <= high
    ensures Between(samples, low, high) == Between(samples, low, mid) + Between(samples, mid + 1, high)
  {
    if samples != [] {
      BetweenSplits(samples[..|samples| - 1], low, mid, high);
    }
  }

  /** The input that fails: a sample at 60 s and one a nanosecond above.  The topmost row says one, and
      two samples lie between its edges. */
  lemma TopRowUndercounts(a: nat, b: nat)
    requires a == 60_000_000_000 && b == 60_000_000_001
    ensures var row := Row(COUNT - 1, 59_861_106_688, 60_129_542_143, 1);
            row in Rows(Of([a, b])) && Between([a, b], row.low, row.high) == 2
  {
    hide Of, Rows, RowsFrom, SlotLow, SlotHigh, Between;
    CountIsDerived();
    SlotCounts([a, b], COUNT - 1);
    BetweenTwo(a, b, 59_861_106_688, 60_000_000_000);
    BetweenTwo(a, b, 59_861_106_688, 60_129_542_143);
    SlotHasRow(Of([a, b]), 0, COUNT - 1);
    RowsStart(Of([a, b]));
  }

  lemma BetweenTwo(a: nat, b: nat, low: nat, high: nat)
    ensures Between([a, b], low, high)
            == (if low <= a <= high then 1 else 0) + (if low <= b <= high then 1 else 0)
  {
    assert [a, b][..1] == [a] && [a][..0] == [];
    assert Between([a], low, high) == if low <= a <= high then 1 else 0;
    assert Between([a, b], low, high) == Between([a], low, high) + if low <= b <= high then 1 else 0;
  }

  lemma RowsStart(t: Tally)
    ensures Rows(t) == RowsFrom(t, 0)
  {
  }

  lemma {:induction false} SlotHasRow(t: Tally, i: nat, slot: nat)
    requires i <= slot < COUNT && t.slots[slot] > 0
    ensures Row(slot, SlotLow(slot), SlotHigh(slot), t.slots[slot]) in RowsFrom(t, i)
    decreases slot - i
  {
    hide SlotLow, SlotHigh;
    if i < slot {
      SlotHasRow(t, i + 1, slot);
    }
  }

  // ----- Merging files -----

  function AddRow(t: Tally, row: Row): Tally {
    if row.slot == -1 then
      Tally(t.slots, t.count + row.count, t.overflow + row.count, Max(t.max, row.high))
    else if 0 <= row.slot < COUNT then
      Tally(t.slots[row.slot := t.slots[row.slot] + row.count], t.count + row.count, t.overflow, t.max)
    else t
  }

  /** A reader that knows the layout and rebuilds the counters.  Only the overflow row carries an
      exact maximum. */
  function Rebuild(rows: seq<Row>, t: Tally): Tally {
    if rows == [] then t else Rebuild(rows[1..], AddRow(t, rows[0]))
  }

  ghost predicate FilledTo(t: Tally, part: Tally, i: nat)
    requires i <= COUNT
  {
    && (forall j :: 0 <= j < COUNT ==> part.slots[j] == if j < i then t.slots[j] else 0)
    && part.count == PrefixSum(t.slots, i) && part.overflow == 0 && part.max == 0
  }

  lemma {:induction false} RebuildFrom(t: Tally, part: Tally, i: nat)
    requires i <= COUNT && FilledTo(t, part, i)
    ensures var whole := Rebuild(RowsFrom(t, i), part);
            && whole.slots == t.slots && whole.overflow == t.overflow
            && whole.count == PrefixSum(t.slots, COUNT) + t.overflow
            && whole.max == if t.overflow > 0 then t.max else 0
    decreases COUNT - i
  {
    hide SlotLow, SlotHigh, PrefixSum;
    if i == COUNT {
      assert part.slots == t.slots;
    } else {
      FirstRow(t, i);
      PrefixNext(t.slots, i);
      RebuildFrom(t, if t.slots[i] == 0 then part else AddRow(part, RowsFrom(t, i)[0]), i + 1);
    }
  }

  /** The file is lossless but for one number: slots, count and overflow come back exactly, and
      the maximum comes back exactly when it lies above 60 s. */
  lemma RebuildRoundTrip(samples: seq<nat>)
    ensures var t := Of(samples);
            Rebuild(Rows(t), Zero()) == t.(max := if t.overflow > 0 then t.max else 0)
  {
    RebuildFrom(Of(samples), Zero(), 0);
    NothingLost(samples);
    CountIsLength(samples);
  }

  lemma {:induction false} ScanIgnoresMax(t: Tally, u: Tally, rank: nat, i: nat)
    requires i <= COUNT && t.slots == u.slots
    requires t.max == u.max || (i < COUNT && rank <= PrefixSum(t.slots, COUNT))
    ensures ScanFrom(t, rank, i) == ScanFrom(u, rank, i)
    decreases COUNT - i
  {
    if i < COUNT && PrefixSum(t.slots, i + 1) < rank {
      ScanIgnoresMax(t, u, rank, i + 1);
    }
  }

  /** Two runs merged from their files, without re-running either, have at every rank the
      percentile of one histogram that saw both. */
  lemma MergedFilesArePercentiles(a: seq<nat>, b: seq<nat>, rank: nat)
    requires 1 <= rank <= |a + b|
    ensures AtRank(Join(Rebuild(Rows(Of(a)), Zero()), Rebuild(Rows(Of(b)), Zero())), rank)
            == AtRank(Of(a + b), rank)
  {
    RebuildRoundTrip(a);
    RebuildRoundTrip(b);
    JoinIsUnion(a, b);
    OverflowIsReal(a);
    OverflowIsReal(b);
    NothingLost(a + b);
    var merged := Join(Rebuild(Rows(Of(a)), Zero()), Rebuild(Rows(Of(b)), Zero()));
    assert merged.slots == Of(a + b).slots;
    ScanIgnoresMax(merged, Of(a + b), rank, 0);
  }
}
