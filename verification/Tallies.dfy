/** What a histogram counts, as a value, and what it stands for: a bag of latency samples.

    Histogram objects expose their state as a Tally; every statement about percentiles, merging
    and CSV rows is proved here, about `Of(samples)`, and carried to the class by its invariant. */
module Tallies {
  import opened Buckets

  type Slots = s: seq<nat> | |s| == COUNT witness seq(COUNT, _ => 0)

  datatype Tally = Tally(slots: Slots, count: nat, overflow: nat, max: nat)

  /** A histogram nothing has been recorded in. */
  function Zero(): Tally {
    Tally(seq(COUNT, _ => 0), 0, 0, 0)
  }

  function Max(a: nat, b: nat): nat {
    if a < b then b else a
  }

  /** A sample the layout can hold has a slot. */
  lemma HasSlot(v: nat)
    requires v <= MAX_VALUE
    ensures IndexOf(v) < COUNT
  {
    IndexMonotone(v, MAX_VALUE);
    CountIsDerived();
  }

  function Plus(t: Tally, v: nat): Tally {
    if v > MAX_VALUE then Tally(t.slots, t.count + 1, t.overflow + 1, Max(t.max, v))
    else
      HasSlot(v);
      var i := IndexOf(v);
      Tally(t.slots[i := t.slots[i] + 1], t.count + 1, t.overflow, Max(t.max, v))
  }

  function Of(samples: seq<nat>): Tally {
    if samples == [] then Zero()
    else Plus(Of(samples[..|samples| - 1]), samples[|samples| - 1])
  }

  function Join(a: Tally, b: Tally): Tally {
    var slots: seq<nat> := seq(COUNT, i requires 0 <= i < COUNT => a.slots[i] + b.slots[i]);
    Tally(slots, a.count + b.count, a.overflow + b.overflow, Max(a.max, b.max))
  }

  // ----- Merging is bag union -----

  lemma TallyEqual(a: Tally, b: Tally)
    requires forall i :: 0 <= i < COUNT ==> a.slots[i] == b.slots[i]
    requires a.count == b.count && a.overflow == b.overflow && a.max == b.max
    ensures a == b
  {
    assert a.slots == b.slots;
  }

  lemma JoinZero(a: Tally)
    ensures Join(a, Zero()) == a == Join(Zero(), a)
  {
    TallyEqual(Join(a, Zero()), a);
    TallyEqual(Join(Zero(), a), a);
  }

  lemma JoinCommutes(a: Tally, b: Tally)
    ensures Join(a, b) == Join(b, a)
  {
    TallyEqual(Join(a, b), Join(b, a));
  }

  lemma JoinAssociates(a: Tally, b: Tally, c: Tally)
    ensures Join(Join(a, b), c) == Join(a, Join(b, c))
  {
    TallyEqual(Join(Join(a, b), c), Join(a, Join(b, c)));
  }

  lemma JoinSwapsLast(a: Tally, b: Tally, c: Tally)
    ensures Join(Join(a, b), c) == Join(Join(a, c), b)
  {
    TallyEqual(Join(Join(a, b), c), Join(Join(a, c), b));
  }

  lemma PlusIsJoin(a: Tally, v: nat)
    ensures Plus(a, v) == Join(a, Plus(Zero(), v))
  {
    TallyEqual(Plus(a, v), Join(a, Plus(Zero(), v)));
  }

  lemma OfSnoc(samples: seq<nat>, v: nat)
    ensures Of(samples + [v]) == Plus(Of(samples), v)
  {
    assert (samples + [v])[..|samples|] == samples;
  }

  /** Merging two histograms counts exactly the samples of both. */
  lemma {:induction false} JoinIsUnion(a: seq<nat>, b: seq<nat>)
    ensures Join(Of(a), Of(b)) == Of(a + b)
  {
    if b == [] {
      assert a + b == a;
      JoinZero(Of(a));
    } else {
      var front, v := b[..|b| - 1], b[|b| - 1];
      JoinIsUnion(a, front);
      assert a + b == (a + front) + [v];
      OfSnoc(a + front, v);
      PlusIsJoin(Of(a + front), v);
      PlusIsJoin(Of(front), v);
      JoinAssociates(Of(a), Of(front), Plus(Zero(), v));
    }
  }

  lemma {:induction false} CountIsLength(samples: seq<nat>)
    ensures Of(samples).count == |samples|
  {
    if samples != [] {
      CountIsLength(samples[..|samples| - 1]);
    }
  }

  /** Only the bag of samples matters, never the order they were recorded in. */
  lemma {:induction false} OrderIrrelevant(a: seq<nat>, b: seq<nat>)
    requires multiset(a) == multiset(b)
    ensures Of(a) == Of(b)
    decreases |a|
  {
    if a == [] {
      assert |b| == |multiset(b)| == 0;
    } else {
      var front, v := a[..|a| - 1], a[|a| - 1];
      assert a == front + [v];
      var left, right := TakeOut(front, v, b);
      OrderIrrelevant(front, left + right);
      MoveToEnd(left, v, right);
    }
  }

  /** One occurrence of v taken out of b leaves the rest of the bag. */
  lemma TakeOut(front: seq<nat>, v: nat, b: seq<nat>) returns (left: seq<nat>, right: seq<nat>)
    requires multiset(front) + multiset{v} == multiset(b)
    ensures b == left + [v] + right && multiset(front) == multiset(left + right)
  {
    assert v in multiset(b);
    var j :| 0 <= j < |b| && b[j] == v;
    left, right := b[..j], b[j + 1..];
    assert b == left + [v] + right;
    var rest := multiset(left + right);
    assert multiset(b) == rest + multiset{v};
    assert multiset(front) == multiset(b) - multiset{v} == rest;
  }

  lemma MoveToEnd(left: seq<nat>, v: nat, right: seq<nat>)
    ensures Of(left + [v] + right) == Plus(Of(left + right), v)
  {
    JoinIsUnion(left + [v], right);
    JoinIsUnion(left, right);
    OfSnoc(left, v);
    PlusIsJoin(Of(left), v);
    PlusIsJoin(Of(left + right), v);
    JoinSwapsLast(Of(left), Plus(Zero(), v), Of(right));
  }

  function Flatten(parts: seq<seq<nat>>): seq<nat> {
    if parts == [] then [] else Flatten(parts[..|parts| - 1]) + parts[|parts| - 1]
  }

  function JoinAll(tallies: seq<Tally>): Tally {
    if tallies == [] then Zero()
    else Join(JoinAll(tallies[..|tallies| - 1]), tallies[|tallies| - 1])
  }

  /** However a bag of samples is dealt out to threads, and in whatever order the threads'
      histograms are merged, the result is the single-threaded histogram. */
  lemma {:induction false} MergeAnySplit(parts: seq<seq<nat>>, samples: seq<nat>)
    requires multiset(Flatten(parts)) == multiset(samples)
    ensures JoinAll(seq(|parts|, i requires 0 <= i < |parts| => Of(parts[i]))) == Of(samples)
  {
    MergeInOrder(parts);
    OrderIrrelevant(Flatten(parts), samples);
  }

  lemma {:induction false} MergeInOrder(parts: seq<seq<nat>>)
    ensures JoinAll(seq(|parts|, i requires 0 <= i < |parts| => Of(parts[i]))) == Of(Flatten(parts))
  {
    if parts != [] {
      var n := |parts| - 1;
      var tallies := seq(|parts|, i requires 0 <= i < |parts| => Of(parts[i]));
      MergeInOrder(parts[..n]);
      assert tallies[..n] == seq(n, i requires 0 <= i < n => Of(parts[..n][i]));
      JoinIsUnion(Flatten(parts[..n]), parts[n]);
    }
  }

  // ----- Replacing one of many merged tallies -----

  lemma {:induction false} JoinAllSplitsOut(tallies: seq<Tally>, i: nat)
    requires i < |tallies|
    ensures JoinAll(tallies) == Join(JoinAll(tallies[i := Zero()]), tallies[i])
  {
    var n := |tallies| - 1;
    var front, last := tallies[..n], tallies[n];
    var blank := tallies[i := Zero()];
    if i == n {
      assert blank[..n] == front;
      JoinZero(JoinAll(front));
    } else {
      JoinAllSplitsOut(front, i);
      assert blank[..n] == front[i := Zero()];
      JoinSwapsLast(JoinAll(front[i := Zero()]), tallies[i], last);
    }
  }

  /** Adding to one part adds the same to the whole. */
  lemma JoinAllAdds(tallies: seq<Tally>, i: nat, extra: Tally)
    requires i < |tallies|
    ensures JoinAll(tallies[i := Join(tallies[i], extra)]) == Join(JoinAll(tallies), extra)
  {
    var more := tallies[i := Join(tallies[i], extra)];
    JoinAllSplitsOut(tallies, i);
    JoinAllSplitsOut(more, i);
    assert more[i := Zero()] == tallies[i := Zero()];
    JoinAssociates(JoinAll(tallies[i := Zero()]), tallies[i], extra);
  }

  lemma {:induction false} JoinAllZeros(n: nat)
    ensures JoinAll(seq(n, _ => Zero())) == Zero()
  {
    if n > 0 {
      assert seq(n, _ => Zero())[..n - 1] == seq(n - 1, _ => Zero());
      JoinAllZeros(n - 1);
      JoinZero(Zero());
    }
  }

  // ----- The percentile loop against the sorted list -----

  function PrefixSum(slots: Slots, i: nat): nat
    requires i <= COUNT
  {
    if i == 0 then 0 else PrefixSum(slots, i - 1) + slots[i - 1]
  }

  /** The scan of Histogram::percentile: the high edge of the first slot at which the running
      total reaches `rank`, or the exact maximum when no slot does. */
  function ScanFrom(t: Tally, rank: nat, i: nat): nat
    requires i <= COUNT
    decreases COUNT - i
  {
    if i == COUNT then t.max
    else if PrefixSum(t.slots, i + 1) >= rank then SlotHigh(i)
    else ScanFrom(t, rank, i + 1)
  }

  function AtRank(t: Tally, rank: nat): nat {
    ScanFrom(t, rank, 0)
  }

  lemma {:induction false} PrefixSumMonotone(slots: Slots, i: nat, j: nat)
    requires i <= j <= COUNT
    ensures PrefixSum(slots, i) <= PrefixSum(slots, j)
    decreases j
  {
    if i < j {
      PrefixSumMonotone(slots, i, j - 1);
    }
  }

  lemma {:induction false} ScanStopsAt(t: Tally, rank: nat, i: nat, from: nat)
    requires from <= i < COUNT
    requires PrefixSum(t.slots, i) < rank <= PrefixSum(t.slots, i + 1)
    ensures ScanFrom(t, rank, from) == SlotHigh(i)
    decreases i - from
  {
    if from < i {
      PrefixSumMonotone(t.slots, from + 1, i);
      ScanStopsAt(t, rank, i, from + 1);
    }
  }

  lemma {:induction false} ScanFallsThrough(t: Tally, rank: nat, from: nat)
    requires from <= COUNT && PrefixSum(t.slots, COUNT) < rank
    ensures ScanFrom(t, rank, from) == t.max
    decreases COUNT - from
  {
    if from < COUNT {
      PrefixSumMonotone(t.slots, from + 1, COUNT);
      ScanFallsThrough(t, rank, from + 1);
    }
  }

  /** How many samples are at most `bound`. */
  function AtMost(samples: seq<nat>, bound: int): nat {
    if samples == [] then 0
    else AtMost(samples[..|samples| - 1], bound) + if samples[|samples| - 1] <= bound then 1 else 0
  }

  /** The largest latency counted in a slot before `i`; -1 before the first slot. */
  function Edge(i: nat): int {
    if i == 0 then -1 else if SlotHigh(i - 1) < MAX_VALUE then SlotHigh(i - 1) else MAX_VALUE
  }

  lemma UnderEdge(v: nat, i: nat)
    ensures v <= Edge(i) <==> v <= MAX_VALUE && IndexOf(v) < i
  {
    ValueInSlot(v);
    if i > 0 {
      if IndexOf(v) < i {
        HighEdgeMonotone(IndexOf(v), i - 1);
      } else {
        SlotsOrdered(i - 1, IndexOf(v));
      }
    }
  }

  lemma {:induction false} PrefixSumPlus(t: Tally, v: nat, i: nat)
    requires i <= COUNT
    ensures PrefixSum(Plus(t, v).slots, i) == PrefixSum(t.slots, i) + if v <= Edge(i) then 1 else 0
    decreases i
  {
    if i > 0 {
      PrefixSumPlus(t, v, i - 1);
      UnderEdge(v, i - 1);
      UnderEdge(v, i);
    }
  }

  lemma {:induction false} PrefixSumZero(i: nat)
    requires i <= COUNT
    ensures PrefixSum(Zero().slots, i) == 0
  {
    if i > 0 {
      PrefixSumZero(i - 1);
    }
  }

  /** The running total at slot i counts exactly the samples up to the slot's lower edge. */
  lemma {:induction false} PrefixSumCounts(samples: seq<nat>, i: nat)
    requires i <= COUNT
    ensures PrefixSum(Of(samples).slots, i) == AtMost(samples, Edge(i))
  {
    if samples == [] {
      PrefixSumZero(i);
    } else {
      var front := samples[..|samples| - 1];
      PrefixSumCounts(front, i);
      PrefixSumPlus(Of(front), samples[|samples| - 1], i);
    }
  }

  lemma LastEdge()
    ensures Edge(COUNT) == MAX_VALUE
  {
    CountIsDerived();
  }

  /** No sample is lost: every one is in a slot or in the overflow count. */
  lemma {:induction false} NothingLost(samples: seq<nat>)
    ensures PrefixSum(Of(samples).slots, COUNT) + Of(samples).overflow == |samples|
  {
    if samples == [] {
      PrefixSumZero(COUNT);
    } else {
      var front, v := samples[..|samples| - 1], samples[|samples| - 1];
      NothingLost(front);
      PrefixSumPlus(Of(front), v, COUNT);
      LastEdge();
    }
  }

  lemma {:induction false} MaxIsLargest(samples: seq<nat>)
    ensures forall v :: v in samples ==> v <= Of(samples).max
    ensures samples != [] ==> Of(samples).max in samples
  {
    if samples != [] {
      var front, v := samples[..|samples| - 1], samples[|samples| - 1];
      assert samples == front + [v];
      MaxIsLargest(front);
    }
  }

  ghost predicate Sorted(s: seq<nat>) {
    forall i, j :: 0 <= i < j < |s| ==> s[i] <= s[j]
  }

  function Insert(s: seq<nat>, v: nat): seq<nat> {
    if s == [] || s[|s| - 1] <= v then s + [v]
    else Insert(s[..|s| - 1], v) + [s[|s| - 1]]
  }

  /** The simple thing a histogram stands in for: every sample, sorted. */
  function Sort(s: seq<nat>): (r: seq<nat>)
    ensures |r| == |s|
  {
    if s == [] then []
    else
      InsertEnd(Sort(s[..|s| - 1]), s[|s| - 1]);
      Insert(Sort(s[..|s| - 1]), s[|s| - 1])
  }

  lemma {:induction false} InsertEnd(s: seq<nat>, v: nat)
    ensures |Insert(s, v)| == |s| + 1
    ensures Insert(s, v)[|s|] == if s == [] then v else Max(v, s[|s| - 1])
  {
    if s != [] && s[|s| - 1] > v {
      InsertEnd(s[..|s| - 1], v);
    }
  }

  lemma {:induction false} InsertSorts(s: seq<nat>, v: nat)
    requires Sorted(s)
    ensures Sorted(Insert(s, v))
  {
    if s != [] && s[|s| - 1] > v {
      var front := s[..|s| - 1];
      InsertSorts(front, v);
      InsertEnd(front, v);
      AppendSorted(Insert(front, v), s[|s| - 1]);
    } else {
      AppendSorted(s, v);
    }
  }

  lemma {:induction false} InsertKeeps(s: seq<nat>, v: nat)
    ensures multiset(Insert(s, v)) == multiset(s) + multiset{v}
  {
    if s != [] && s[|s| - 1] > v {
      var front := s[..|s| - 1];
      InsertKeeps(front, v);
      assert s == front + [s[|s| - 1]];
    }
  }

  lemma AppendSorted(s: seq<nat>, v: nat)
    requires Sorted(s) && (s == [] || s[|s| - 1] <= v)
    ensures Sorted(s + [v])
  {
  }

  lemma {:induction false} SortSorts(s: seq<nat>)
    ensures Sorted(Sort(s)) && multiset(Sort(s)) == multiset(s)
  {
    if s != [] {
      var front := s[..|s| - 1];
      SortSorts(front);
      InsertSorts(Sort(front), s[|s| - 1]);
      InsertKeeps(Sort(front), s[|s| - 1]);
      assert s == front + [s[|s| - 1]];
    }
  }

  lemma {:induction false} AtMostConcat(a: seq<nat>, b: seq<nat>, bound: int)
    ensures AtMost(a + b, bound) == AtMost(a, bound) + AtMost(b, bound)
  {
    if b == [] {
      assert a + b == a;
    } else {
      assert (a + b)[..|a + b| - 1] == a + b[..|b| - 1];
      AtMostConcat(a, b[..|b| - 1], bound);
    }
  }

  lemma {:induction false} AtMostOrder(a: seq<nat>, b: seq<nat>, bound: int)
    requires multiset(a) == multiset(b)
    ensures AtMost(a, bound) == AtMost(b, bound)
    decreases |a|
  {
    if a == [] {
      assert |b| == |multiset(b)| == 0;
    } else {
      var front, v := a[..|a| - 1], a[|a| - 1];
      assert a == front + [v];
      var left, right := TakeOut(front, v, b);
      AtMostOrder(front, left + right, bound);
      AtMostConcat(left + [v], right, bound);
      AtMostConcat(left, [v], bound);
      AtMostConcat(left, right, bound);
      assert [v][..0] == [];
    }
  }

  lemma {:induction false} AtMostBounds(s: seq<nat>, bound: int)
    ensures AtMost(s, bound) <= |s|
    ensures (forall i :: 0 <= i < |s| ==> s[i] <= bound) ==> AtMost(s, bound) == |s|
    ensures (forall i :: 0 <= i < |s| ==> s[i] > bound) ==> AtMost(s, bound) == 0
  {
    if s != [] {
      AtMostBounds(s[..|s| - 1], bound);
    }
  }

  lemma {:induction false} AtMostOfPrefix(s: seq<nat>, n: nat, bound: int)
    requires n <= |s| && forall i :: 0 <= i < n ==> s[i] <= bound
    ensures AtMost(s, bound) >= n
    decreases |s|
  {
    if n == |s| {
      AtMostBounds(s, bound);
    } else {
      AtMostOfPrefix(s[..|s| - 1], n, bound);
    }
  }

  lemma {:induction false} AtMostOfSuffix(s: seq<nat>, n: nat, bound: int)
    requires n <= |s| && forall i :: n <= i < |s| ==> s[i] > bound
    ensures AtMost(s, bound) <= n
    decreases |s|
  {
    if n == |s| {
      AtMostBounds(s, bound);
    } else {
      AtMostOfSuffix(s[..|s| - 1], n, bound);
    }
  }

  /** In a sorted list the samples up to a bound form a prefix, so counting them answers whether
      the sample of a given rank is among them. */
  lemma SortedAtMost(s: seq<nat>, rank: nat, bound: int)
    requires Sorted(s) && 1 <= rank <= |s|
    ensures AtMost(s, bound) >= rank <==> s[rank - 1] <= bound
  {
    if s[rank - 1] <= bound {
      AtMostOfPrefix(s, rank, bound);
    } else {
      AtMostOfSuffix(s, rank - 1, bound);
    }
  }

  lemma CountAtMost(samples: seq<nat>, rank: nat, bound: int)
    requires 1 <= rank <= |samples|
    ensures AtMost(samples, bound) >= rank <==> Sort(samples)[rank - 1] <= bound
  {
    SortSorts(samples);
    AtMostOrder(samples, Sort(samples), bound);
    SortedAtMost(Sort(samples), rank, bound);
  }

  /** The running total reaches `rank` before slot i exactly when the sample of that rank does. */
  lemma RunningTotalReaches(samples: seq<nat>, rank: nat, i: nat)
    requires 1 <= rank <= |samples| && i <= COUNT
    ensures PrefixSum(Of(samples).slots, i) >= rank <==> Sort(samples)[rank - 1] <= Edge(i)
  {
    PrefixSumCounts(samples, i);
    CountAtMost(samples, rank, Edge(i));
  }

  /** What is reported for a true sample: its slot's high edge, or the maximum in overflow. */
  function Reported(v: nat, max: nat): nat {
    if v <= MAX_VALUE then SlotHigh(IndexOf(v)) else max
  }

  /** The refinement theorem: the prefix-sum scan over 3,808 counters answers every rank as the
      sorted list of all samples does, up to the slot's high edge, and exactly in overflow. */
  lemma RankRefinesSortedList(samples: seq<nat>, rank: nat)
    requires 1 <= rank <= |samples|
    ensures AtRank(Of(samples), rank) == Reported(Sort(samples)[rank - 1], Sort(samples)[|samples| - 1])
  {
    hide Of, Sort, PrefixSum, ScanFrom, IndexOf, SlotHigh;
    var v := Sort(samples)[rank - 1];
    if v <= MAX_VALUE {
      HasSlot(v);
      var i := IndexOf(v);
      UnderEdge(v, i);
      UnderEdge(v, i + 1);
      RunningTotalReaches(samples, rank, i);
      RunningTotalReaches(samples, rank, i + 1);
      ScanStopsAt(Of(samples), rank, i, 0);
    } else {
      LastEdge();
      RunningTotalReaches(samples, rank, COUNT);
      ScanFallsThrough(Of(samples), rank, 0);
      MaxIsLast(samples);
    }
  }

  lemma MaxIsLast(samples: seq<nat>)
    requires samples != []
    ensures Of(samples).max == Sort(samples)[|samples| - 1]
  {
    var s := Sort(samples);
    SortSorts(samples);
    OrderIrrelevant(samples, s);
    MaxIsLargest(s);
    assert s[|s| - 1] in s;
  }

  lemma SortOrdered(samples: seq<nat>, j: nat, k: nat)
    requires 1 <= j <= k <= |samples|
    ensures Sort(samples)[j - 1] <= Sort(samples)[k - 1]
  {
    hide Sort;
    SortSorts(samples);
    PickOrdered(Sort(samples), j - 1, k - 1);
  }

  lemma PickOrdered(s: seq<nat>, j: nat, k: nat)
    requires Sorted(s) && j <= k < |s|
    ensures s[j] <= s[k]
  {
  }

  /** Never an under-report, and at most one part in 128 over outside overflow. */
  lemma RankErrorBound(samples: seq<nat>, rank: nat)
    requires 1 <= rank <= |samples|
    ensures var v := Sort(samples)[rank - 1];
            var answer := AtRank(Of(samples), rank);
            && v <= answer
            && (v <= MAX_VALUE ==> SUB_BUCKETS * (answer - v) <= v)
  {
    RankRefinesSortedList(samples, rank);
    HighEdgeError(Sort(samples)[rank - 1]);
    SortOrdered(samples, rank, |samples|);
  }

  // ----- When is the answer monotone in the rank? -----

  /** Something the holder of a histogram can check: nothing overflowed, or the top slot is empty,
      or the maximum lies above the top slot's high edge. */
  predicate TopClear(t: Tally) {
    t.overflow == 0 || t.slots[COUNT - 1] == 0 || t.max >= SlotHigh(COUNT - 1)
  }

  ghost predicate MonotoneInRank(t: Tally) {
    forall j, k :: 1 <= j <= k <= t.count ==> AtRank(t, j) <= AtRank(t, k)
  }

  lemma ReportedOrdered(v: nat, w: nat, vMax: nat, wMax: nat)
    requires v <= w <= wMax && vMax <= wMax
    requires wMax <= MAX_VALUE || IndexOf(v) < COUNT - 1 || wMax >= SlotHigh(COUNT - 1)
    ensures Reported(v, vMax) <= Reported(w, wMax)
  {
    if w <= MAX_VALUE {
      IndexMonotone(v, w);
      HighEdgeMonotone(IndexOf(v), IndexOf(w));
    } else if v <= MAX_VALUE {
      HasSlot(v);
      HighEdgeMonotone(IndexOf(v), COUNT - 1);
      if IndexOf(v) < COUNT - 1 {
        SlotsOrdered(IndexOf(v), COUNT - 1);
        CountIsDerived();
        ValueInSlot(MAX_VALUE);
      }
    }
  }

  /** With an empty top slot, no bucketed sample of any rank is in it. */
  lemma TopSlotEmpty(samples: seq<nat>, rank: nat)
    requires 1 <= rank <= |samples|
    requires Sort(samples)[rank - 1] <= MAX_VALUE && Of(samples).slots[COUNT - 1] == 0
    ensures IndexOf(Sort(samples)[rank - 1]) < COUNT - 1
  {
    LastEdge();
    RunningTotalReaches(samples, rank, COUNT);
    RunningTotalReaches(samples, rank, COUNT - 1);
    UnderEdge(Sort(samples)[rank - 1], COUNT - 1);
  }

  lemma {:induction false} OverflowIsReal(samples: seq<nat>)
    ensures Of(samples).overflow + AtMost(samples, MAX_VALUE) == |samples|
    ensures Of(samples).overflow > 0 <==> Of(samples).max > MAX_VALUE
  {
    if samples != [] {
      OverflowIsReal(samples[..|samples| - 1]);
    }
  }

  /** A smaller list below a larger one, compared at one rank. */
  lemma RanksOrdered(low: seq<nat>, j: nat, high: seq<nat>, k: nat)
    requires 1 <= j <= |low| && 1 <= k <= |high|
    requires Sort(low)[j - 1] <= Sort(high)[k - 1] && Of(low).max <= Of(high).max
    requires Of(high).overflow == 0 || Of(low).slots[COUNT - 1] == 0 || Of(high).max >= SlotHigh(COUNT - 1)
    ensures AtRank(Of(low), j) <= AtRank(Of(high), k)
  {
    var v, w := Sort(low)[j - 1], Sort(high)[k - 1];
    RankRefinesSortedList(low, j);
    RankRefinesSortedList(high, k);
    MaxIsLast(low);
    MaxIsLast(high);
    SortOrdered(high, k, |high|);
    OverflowIsReal(high);
    if v <= MAX_VALUE {
      if Of(low).slots[COUNT - 1] == 0 {
        TopSlotEmpty(low, j);
      }
      ReportedOrdered(v, w, Of(low).max, Of(high).max);
    }
  }

  /** A larger rank never gets a smaller answer if and only if the top slot is clear of overflow. */
  lemma MonotoneExactly(samples: seq<nat>)
    ensures MonotoneInRank(Of(samples)) <==> TopClear(Of(samples))
  {
    var t := Of(samples);
    CountIsLength(samples);
    if TopClear(t) {
      forall j, k | 1 <= j <= k <= t.count ensures AtRank(t, j) <= AtRank(t, k) {
        SortOrdered(samples, j, k);
        RanksOrdered(samples, j, samples, k);
      }
    } else {
      NothingLost(samples);
      var bucketed := PrefixSum(t.slots, COUNT);
      ScanStopsAt(t, bucketed, COUNT - 1, 0);
      ScanFallsThrough(t, t.count, 0);
      assert AtRank(t, bucketed) > AtRank(t, t.count);
    }
  }

  /** The failing family is not empty: one sample at 60 s and one a nanosecond above it. */
  lemma PercentileCanFall()
    ensures var t := Of([MAX_VALUE, MAX_VALUE + 1]);
            AtRank(t, 1) == 60_129_542_143 && AtRank(t, 2) == 60_000_000_001
  {
    var samples := [MAX_VALUE, MAX_VALUE + 1];
    assert Sorted(samples);
    SortSorts(samples);
    SortedOnce(Sort(samples), samples);
    RankRefinesSortedList(samples, 1);
    RankRefinesSortedList(samples, 2);
    CountIsDerived();
  }

  /** Sorted lists of the same samples are the same list. */
  lemma SortedOnce(a: seq<nat>, b: seq<nat>)
    requires Sorted(a) && Sorted(b) && multiset(a) == multiset(b)
    ensures a == b
  {
    assert |a| == |multiset(a)| == |multiset(b)| == |b|;
    forall i | 0 <= i < |a| ensures a[i] == b[i] {
      SortedAtMost(a, i + 1, a[i]);
      SortedAtMost(b, i + 1, a[i]);
      SortedAtMost(a, i + 1, b[i]);
      SortedAtMost(b, i + 1, b[i]);
      AtMostOrder(a, b, a[i]);
      AtMostOrder(a, b, b[i]);
    }
  }

  // ----- Dominance -----

  ghost predicate Dominates(high: seq<nat>, low: seq<nat>) {
    |high| == |low| && forall i :: 0 <= i < |low| ==> low[i] <= high[i]
  }

  lemma {:induction false} DominatedCounts(high: seq<nat>, low: seq<nat>, bound: int)
    requires Dominates(high, low)
    ensures AtMost(high, bound) <= AtMost(low, bound)
  {
    if low != [] {
      DominatedCounts(high[..|high| - 1], low[..|low| - 1], bound);
    }
  }

  lemma SortKeepsDominance(high: seq<nat>, low: seq<nat>, rank: nat)
    requires Dominates(high, low) && 1 <= rank <= |low|
    ensures Sort(low)[rank - 1] <= Sort(high)[rank - 1]
  {
    var bound := Sort(high)[rank - 1];
    CountAtMost(high, rank, bound);
    DominatedCounts(high, low, bound);
    CountAtMost(low, rank, bound);
  }

  /** Something the holder of two histograms can check: equally many samples overflowed in both, or
      the top slot of the smaller is empty, or the larger maximum lies above that slot's high edge. */
  predicate DominanceClear(high: Tally, low: Tally) {
    high.overflow == low.overflow || low.slots[COUNT - 1] == 0 || high.max >= SlotHigh(COUNT - 1)
  }

  ghost predicate RanksBelow(low: Tally, high: Tally, n: nat) {
    forall rank :: 1 <= rank <= n ==> AtRank(low, rank) <= AtRank(high, rank)
  }

  /** A rank is in overflow exactly when fewer samples than that are bucketed. */
  lemma RankBucketed(samples: seq<nat>, rank: nat)
    requires 1 <= rank <= |samples|
    ensures Sort(samples)[rank - 1] <= MAX_VALUE <==> rank + Of(samples).overflow <= |samples|
  {
    hide Sort, Of, AtMost;
    CountAtMost(samples, rank, MAX_VALUE);
    OverflowIsReal(samples);
  }

  lemma RanksDominateEqually(high: seq<nat>, low: seq<nat>, rank: nat)
    requires Dominates(high, low) && 1 <= rank <= |low| && Of(high).overflow == Of(low).overflow
    ensures AtRank(Of(low), rank) <= AtRank(Of(high), rank)
  {
    hide Sort, Of, AtRank, IndexOf, SlotHigh;
    var v, w := Sort(low)[rank - 1], Sort(high)[rank - 1];
    SortKeepsDominance(high, low, rank);
    SortKeepsDominance(high, low, |low|);
    RankRefinesSortedList(low, rank);
    RankRefinesSortedList(high, rank);
    RankBucketed(low, rank);
    RankBucketed(high, rank);
    if w <= MAX_VALUE {
      IndexMonotone(v, w);
      HighEdgeMonotone(IndexOf(v), IndexOf(w));
    }
  }

  /** Samples that dominate one by one have percentiles that dominate rank by rank, where the top slot
      and the overflow counts allow it. */
  lemma RanksDominate(high: seq<nat>, low: seq<nat>, rank: nat)
    requires Dominates(high, low) && 1 <= rank <= |low| && DominanceClear(Of(high), Of(low))
    ensures AtRank(Of(low), rank) <= AtRank(Of(high), rank)
  {
    hide Sort, Of, AtRank, SlotHigh;
    if Of(high).overflow == Of(low).overflow {
      RanksDominateEqually(high, low, rank);
    } else {
      SortKeepsDominance(high, low, rank);
      SortKeepsDominance(high, low, |low|);
      MaxIsLast(high);
      MaxIsLast(low);
      RanksOrdered(low, rank, high, rank);
    }
  }

  /** Otherwise the last bucketed rank of the smaller list fails: the smaller answers with the top
      slot's high edge, the larger with a maximum below it. */
  lemma DominanceFails(high: seq<nat>, low: seq<nat>) returns (rank: nat)
    requires Dominates(high, low) && !DominanceClear(Of(high), Of(low))
    ensures 1 <= rank <= |low| && AtRank(Of(low), rank) > AtRank(Of(high), rank)
  {
    hide Of, AtMost, SlotHigh;
    rank := PrefixSum(Of(low).slots, COUNT);
    NothingLost(low);
    NothingLost(high);
    OverflowIsReal(low);
    OverflowIsReal(high);
    DominatedCounts(high, low, MAX_VALUE);
    ScanStopsAt(Of(low), rank, COUNT - 1, 0);
    ScanFallsThrough(Of(high), rank, 0);
  }

  /** Pointwise dominance carries over to every rank if and only if the two histograms are clear in
      the sense above. */
  lemma DominanceExactly(high: seq<nat>, low: seq<nat>)
    requires Dominates(high, low)
    ensures RanksBelow(Of(low), Of(high), |low|) <==> DominanceClear(Of(high), Of(low))
  {
    hide Of, AtRank, DominanceClear;
    if DominanceClear(Of(high), Of(low)) {
      forall rank | 1 <= rank <= |low| ensures AtRank(Of(low), rank) <= AtRank(Of(high), rank) {
        RanksDominate(high, low, rank);
      }
    } else {
      var rank := DominanceFails(high, low);
    }
  }

  // ----- From a percentile to a rank -----

  function Ceiling(x: real): int {
    -((-x).Floor)
  }

  /** clamp(ceil(p / 100 * count), 1, count), over exact reals. */
  function Rank(p: real, count: nat): (rank: nat)
    requires 0.0 <= p <= 100.0 && count >= 1
    ensures 1 <= rank <= count
  {
    var wanted := Ceiling(p / 100.0 * count as real);
    if wanted < 1 then 1 else if wanted > count then count else wanted
  }

  /** What a percentile means: at least p percent of all samples are at or below the answer. */
  lemma PercentileCovers(samples: seq<nat>, p: real)
    requires 0.0 <= p <= 100.0 && samples != []
    ensures 100.0 * AtMost(samples, AtRank(Of(samples), Rank(p, |samples|))) as real >= p * |samples| as real
  {
    hide Of, AtRank, AtMost;
    var rank := Rank(p, |samples|);
    var covered := AtMost(samples, AtRank(Of(samples), rank));
    AnswerCovers(samples, rank);
    RankCovers(p, |samples|);
    var wanted, ranked, got := p * |samples| as real, 100.0 * rank as real, 100.0 * covered as real;
    Scaled(rank, covered);
    assert wanted <= ranked <= got;
  }

  /** The rank asked for is the least that covers: one rank lower would fall short of p percent. */
  lemma RankIsLeast(p: real, n: nat)
    requires 0.0 <= p <= 100.0 && n >= 1
    ensures 100.0 * Rank(p, n) as real >= p * n as real
    ensures Rank(p, n) == 1 || 100.0 * (Rank(p, n) - 1) as real < p * n as real
  {
    RankCovers(p, n);
    PercentOfCount(p, n);
    var share := p / 100.0 * n as real;
    assert 100.0 * share == p * n as real;
    assert Ceiling(share) as real < share + 1.0;
  }

  /** A hundred times the number of samples that make p percent of n. */
  function Wanted(p: real, n: nat): real {
    p * n as real
  }

  /** The sample a percentile speaks for: at least p percent of all samples are at or below it, and
      unless it is the smallest, fewer than p percent are below it. */
  ghost predicate SpeaksFor(samples: seq<nat>, p: real, v: nat) {
    && v in samples
    && 100.0 * AtMost(samples, v) as real >= Wanted(p, |samples|)
    && (AtMost(samples, v - 1) == 0 || 100.0 * AtMost(samples, v - 1) as real < Wanted(p, |samples|))
  }

  lemma RankedSample(samples: seq<nat>, rank: nat)
    requires 1 <= rank <= |samples|
    ensures var v: int := Sort(samples)[rank - 1];
            v in samples && AtMost(samples, v - 1) < rank <= AtMost(samples, v)
  {
    hide Sort, AtMost;
    var v: int := Sort(samples)[rank - 1];
    SortSorts(samples);
    InSorted(samples, Sort(samples), rank - 1);
    CountAtMost(samples, rank, v);
    CountAtMost(samples, rank, v - 1);
  }

  lemma InSorted(samples: seq<nat>, sorted: seq<nat>, i: nat)
    requires multiset(sorted) == multiset(samples) && i < |sorted|
    ensures sorted[i] in samples
  {
    assert sorted[i] in multiset(sorted);
  }

  lemma RankIsWanted(p: real, n: nat)
    requires 0.0 <= p <= 100.0 && n >= 1
    ensures 100.0 * Rank(p, n) as real >= Wanted(p, n)
    ensures Rank(p, n) == 1 || 100.0 * (Rank(p, n) - 1) as real < Wanted(p, n)
  {
    RankIsLeast(p, n);
  }

  lemma SortedSampleSpeaks(samples: seq<nat>, p: real)
    requires 0.0 <= p <= 100.0 && samples != []
    ensures SpeaksFor(samples, p, Sort(samples)[Rank(p, |samples|) - 1])
  {
    hide Sort, AtMost, Rank, Wanted;
    var rank := Rank(p, |samples|);
    var v: int := Sort(samples)[rank - 1];
    RankedSample(samples, rank);
    RankIsWanted(p, |samples|);
    AboutTarget(rank, AtMost(samples, v), AtMost(samples, v - 1), Wanted(p, |samples|));
  }

  lemma AboutTarget(rank: nat, covered: nat, below: nat, target: real)
    requires 1 <= rank <= covered && below < rank && 100.0 * rank as real >= target
    requires rank == 1 || 100.0 * (rank - 1) as real < target
    ensures 100.0 * covered as real >= target
    ensures below == 0 || 100.0 * below as real < target
  {
    Scaled(rank, covered);
    Scaled(below, rank - 1);
  }

  /** There is only one such sample. */
  lemma OneSampleSpeaks(samples: seq<nat>, p: real, v: nat, w: nat)
    requires 0.0 <= p <= 100.0 && SpeaksFor(samples, p, v) && SpeaksFor(samples, p, w)
    ensures v == w
  {
    hide AtMost, Wanted;
    if v < w {
      NotBoth(samples, p, v, w);
    } else if w < v {
      NotBoth(samples, p, w, v);
    }
  }

  lemma NotBoth(samples: seq<nat>, p: real, v: nat, w: nat)
    requires v < w && v in samples
    requires 100.0 * AtMost(samples, v) as real >= Wanted(p, |samples|)
    ensures AtMost(samples, w - 1) > 0 && 100.0 * AtMost(samples, w - 1) as real >= Wanted(p, |samples|)
  {
    AtMostGrows(samples, v, w - 1);
    AtMostHolds(samples, v);
    Scaled(AtMost(samples, v), AtMost(samples, w - 1));
  }

  lemma {:induction false} AtMostGrows(samples: seq<nat>, a: int, b: int)
    requires a <= b
    ensures AtMost(samples, a) <= AtMost(samples, b)
  {
    if samples != [] {
      AtMostGrows(samples[..|samples| - 1], a, b);
    }
  }

  lemma {:induction false} AtMostHolds(samples: seq<nat>, v: nat)
    requires v in samples
    ensures AtMost(samples, v) > 0
  {
    if samples[|samples| - 1] != v {
      AtMostHolds(samples[..|samples| - 1], v);
    }
  }

  lemma AnswerCovers(samples: seq<nat>, rank: nat)
    requires 1 <= rank <= |samples|
    ensures AtMost(samples, AtRank(Of(samples), rank)) >= rank
  {
    RankErrorBound(samples, rank);
    CountAtMost(samples, rank, AtRank(Of(samples), rank));
  }

  lemma Scaled(a: nat, b: nat)
    requires a <= b
    ensures 100.0 * a as real <= 100.0 * b as real
  {
  }

  lemma RankCovers(p: real, n: nat)
    requires 0.0 <= p <= 100.0 && n >= 1
    ensures 100.0 * Rank(p, n) as real >= p * n as real
  {
    PercentOfCount(p, n);
    assert Ceiling(p / 100.0 * n as real) as real >= p / 100.0 * n as real;
    assert 100.0 * (p / 100.0 * n as real) == p * n as real;
  }

  lemma PercentOfCount(p: real, n: nat)
    requires 0.0 <= p <= 100.0
    ensures 0.0 <= p / 100.0 * n as real <= n as real
  {
    var share := p / 100.0;
    assert 0.0 <= share <= 1.0;
    assert (1.0 - share) * n as real >= 0.0;
  }

  lemma RankMonotone(p: real, q: real, count: nat)
    requires 0.0 <= p <= q <= 100.0 && count >= 1
    ensures Rank(p, count) <= Rank(q, count)
  {
    var share := q / 100.0 - p / 100.0;
    assert share * count as real >= 0.0;
  }

  // ----- Percentiles and ranks ask the same questions -----

  ghost predicate PercentilesBelow(low: Tally, high: Tally, n: nat)
    requires n >= 1
  {
    forall p :: 0.0 <= p <= 100.0 ==> AtRank(low, Rank(p, n)) <= AtRank(high, Rank(p, n))
  }

  /** Every rank is the rank of some percentage. */
  lemma RankAsked(rank: nat, n: nat) returns (p: real)
    requires 1 <= rank <= n
    ensures 0.0 <= p <= 100.0 && Rank(p, n) == rank
  {
    var share := rank as real / n as real;
    ShareOf(rank, n, share);
    p := 100.0 * share;
    assert p / 100.0 == share;
  }

  lemma ShareOf(rank: nat, n: nat, share: real)
    requires 1 <= rank <= n && share == rank as real / n as real
    ensures share * n as real == rank as real && 0.0 <= share <= 1.0
  {
  }

  lemma PercentilesAreRanks(low: Tally, high: Tally, n: nat)
    requires n >= 1
    ensures PercentilesBelow(low, high, n) <==> RanksBelow(low, high, n)
  {
    hide AtRank, Rank;
    if PercentilesBelow(low, high, n) {
      forall rank | 1 <= rank <= n ensures AtRank(low, rank) <= AtRank(high, rank) {
        var p := RankAsked(rank, n);
        assert AtRank(low, Rank(p, n)) <= AtRank(high, Rank(p, n));
      }
    }
  }
}
