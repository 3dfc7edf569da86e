/** The books a load generator keeps: what each request contributes to the histograms and error
    counters, how lateness splits by cause, and why merged books balance.  Shared by the open and
    the closed loop, which differ only in where a request's latency starts. */
module Accounts {
  import opened Buckets
  import opened Tallies
  import opened Schedules
  import opened RunResults

  function Positive(x: int): nat {
    if x < 0 then 0 else x
  }

  // ----- What one carried slot contributes -----

  /** A slot that was sent: when it was due, when its worker came free, when it went out. */
  datatype Carriage = Carriage(due: int, freeAt: int, sending: int, result: Exchange)
  {
    function Lag(): nat {
      Positive(sending - due)
    }

    function Wait(): nat {
      Positive(freeAt - due)
    }

    function Rig(): nat {
      Positive(Lag() - Wait())
    }

    /** Measured from the due time, not from the send. */
    function Latency(): nat {
      Positive(sending - due + result.elapsed)
    }

    /** What a forward-moving clock and a sleep that never wakes early guarantee. */
    predicate Clocked() {
      freeAt <= sending && due <= sending
    }
  }

  function Lags(cs: seq<Carriage>): seq<nat> {
    if cs == [] then [] else Lags(cs[..|cs| - 1]) + [cs[|cs| - 1].Lag()]
  }

  function Waits(cs: seq<Carriage>): seq<nat> {
    if cs == [] then [] else Waits(cs[..|cs| - 1]) + [cs[|cs| - 1].Wait()]
  }

  function Rigs(cs: seq<Carriage>): seq<nat> {
    if cs == [] then [] else Rigs(cs[..|cs| - 1]) + [cs[|cs| - 1].Rig()]
  }

  function Latencies(cs: seq<Carriage>): seq<nat> {
    if cs == [] then []
    else
      var c := cs[|cs| - 1];
      Latencies(cs[..|cs| - 1]) + if Timed(c.result.outcome) then [c.Latency()] else []
  }

  /** How many carried slots ended a given way. */
  function Ended(cs: seq<Carriage>, outcome: Outcome): nat {
    if cs == [] then 0
    else Ended(cs[..|cs| - 1], outcome) + if cs[|cs| - 1].result.outcome == outcome then 1 else 0
  }

  function ErrorsOf(cs: seq<Carriage>): ErrorCounts {
    ErrorCounts(0, Ended(cs, WriteFailed), Ended(cs, ReadFailed),
                Ended(cs, TimedOut), Ended(cs, ProtocolError), Ended(cs, Rejected))
  }

  function Broken(cs: seq<Carriage>): nat {
    if cs == [] then 0 else Broken(cs[..|cs| - 1]) + if cs[|cs| - 1].result.usable then 0 else 1
  }

  lemma {:induction false} LagsConcat(a: seq<Carriage>, b: seq<Carriage>)
    ensures Lags(a + b) == Lags(a) + Lags(b)
  {
    if b == [] {
      assert a + b == a;
    } else {
      assert (a + b)[..|a + b| - 1] == a + b[..|b| - 1];
      LagsConcat(a, b[..|b| - 1]);
    }
  }

  lemma {:induction false} WaitsConcat(a: seq<Carriage>, b: seq<Carriage>)
    ensures Waits(a + b) == Waits(a) + Waits(b)
  {
    if b == [] {
      assert a + b == a;
    } else {
      assert (a + b)[..|a + b| - 1] == a + b[..|b| - 1];
      WaitsConcat(a, b[..|b| - 1]);
    }
  }

  lemma {:induction false} RigsConcat(a: seq<Carriage>, b: seq<Carriage>)
    ensures Rigs(a + b) == Rigs(a) + Rigs(b)
  {
    if b == [] {
      assert a + b == a;
    } else {
      assert (a + b)[..|a + b| - 1] == a + b[..|b| - 1];
      RigsConcat(a, b[..|b| - 1]);
    }
  }

  lemma SplitsSnoc(cs: seq<Carriage>, c: Carriage)
    ensures Lags(cs + [c]) == Lags(cs) + [c.Lag()]
    ensures Waits(cs + [c]) == Waits(cs) + [c.Wait()]
    ensures Rigs(cs + [c]) == Rigs(cs) + [c.Rig()]
  {
    assert (cs + [c])[..|cs|] == cs;
  }

  /** Which requests are timed, and from when: a success, a rejection and a timeout each add one
      sample, measured from the slot's due time to the end of the exchange; nothing else adds any. */
  lemma MeasuredFromDue(cs: seq<Carriage>, c: Carriage)
    requires c.Clocked()
    ensures Latencies([]) == []
    ensures Latencies(cs + [c])
            == match c.result.outcome
               case Succeeded => Latencies(cs) + [c.sending - c.due + c.result.elapsed]
               case Rejected => Latencies(cs) + [c.sending - c.due + c.result.elapsed]
               case TimedOut => Latencies(cs) + [c.sending - c.due + c.result.elapsed]
               case _ => Latencies(cs)
  {
    SampleSnoc(cs, c);
  }

  function Outcomes(cs: seq<Carriage>): seq<Outcome> {
    seq(|cs|, i requires 0 <= i < |cs| => cs[i].result.outcome)
  }

  lemma {:induction false} EndedCounts(cs: seq<Carriage>, outcome: Outcome)
    ensures Ended(cs, outcome) == multiset(Outcomes(cs))[outcome]
  {
    if cs != [] {
      var front := cs[..|cs| - 1];
      EndedCounts(front, outcome);
      assert Outcomes(cs) == Outcomes(front) + [cs[|cs| - 1].result.outcome];
    }
  }

  /** Each counter counts its own way of failing, and a success none. */
  lemma ErrorsByKind(cs: seq<Carriage>)
    ensures var errors, ended := ErrorsOf(cs), multiset(Outcomes(cs));
            && errors.write == ended[WriteFailed] && errors.read == ended[ReadFailed]
            && errors.timeout == ended[TimedOut] && errors.protocol == ended[ProtocolError]
            && errors.rejected == ended[Rejected] && errors.connect == 0
  {
    hide Ended;
    EndedCounts(cs, WriteFailed);
    EndedCounts(cs, ReadFailed);
    EndedCounts(cs, TimedOut);
    EndedCounts(cs, ProtocolError);
    EndedCounts(cs, Rejected);
  }

  lemma SampleSnoc(cs: seq<Carriage>, c: Carriage)
    ensures var before, after := Latencies(cs), Latencies(cs + [c]);
            after == if Timed(c.result.outcome) then before + [c.Latency()] else before
  {
    assert (cs + [c])[..|cs|] == cs;
  }

  lemma {:induction false} LatenciesConcat(a: seq<Carriage>, b: seq<Carriage>)
    ensures Latencies(a + b) == Latencies(a) + Latencies(b)
  {
    if b == [] {
      assert a + b == a;
    } else {
      assert (a + b)[..|a + b| - 1] == a + b[..|b| - 1];
      LatenciesConcat(a, b[..|b| - 1]);
    }
  }

  lemma {:induction false} EndedConcat(a: seq<Carriage>, b: seq<Carriage>, outcome: Outcome)
    ensures Ended(a + b, outcome) == Ended(a, outcome) + Ended(b, outcome)
  {
    if b == [] {
      assert a + b == a;
    } else {
      assert (a + b)[..|a + b| - 1] == a + b[..|b| - 1];
      EndedConcat(a, b[..|b| - 1], outcome);
    }
  }

  lemma ErrorsConcat(a: seq<Carriage>, b: seq<Carriage>)
    ensures ErrorsOf(a + b) == ErrorsOf(a).Merge(ErrorsOf(b))
  {
    hide Ended;
    forall outcome: Outcome ensures Ended(a + b, outcome) == Ended(a, outcome) + Ended(b, outcome) {
      EndedConcat(a, b, outcome);
    }
  }

  lemma ErrorsSnoc(cs: seq<Carriage>, c: Carriage)
    ensures ErrorsOf(cs + [c]) == ErrorsOf(cs).Count(c.result.outcome)
  {
    assert (cs + [c])[..|cs|] == cs;
  }

  lemma {:induction false} EveryCarriageEnds(cs: seq<Carriage>)
    ensures |cs| == Ended(cs, Succeeded) + Ended(cs, Rejected) + Ended(cs, TimedOut)
                    + Ended(cs, ProtocolError) + Ended(cs, ReadFailed) + Ended(cs, WriteFailed)
  {
    if cs != [] {
      EveryCarriageEnds(cs[..|cs| - 1]);
    }
  }

  /** The timed samples are exactly the successes, the rejections and the timeouts. */
  lemma {:induction false} TimedAreAnswered(cs: seq<Carriage>)
    ensures |Latencies(cs)| == Ended(cs, Succeeded) + Ended(cs, Rejected) + Ended(cs, TimedOut)
  {
    if cs != [] {
      var front, c := cs[..|cs| - 1], cs[|cs| - 1];
      TimedAreAnswered(front);
      assert |Latencies(cs)| == |Latencies(front)| + if Timed(c.result.outcome) then 1 else 0;
    }
  }

  /** No request vanishes: every carried slot is a timed sample or an untimed error. */
  lemma {:induction false} EveryCarriageCounted(cs: seq<Carriage>)
    ensures |cs| == |Latencies(cs)| + ErrorsOf(cs).Untimed()
  {
    EveryCarriageEnds(cs);
    TimedAreAnswered(cs);
  }

  // ----- The lag split -----

  /** With a clock that does not go back nothing is clamped: every duration is the plain difference. */
  lemma ClockedIsUnclamped(c: Carriage)
    requires c.Clocked()
    ensures c.Latency() == c.sending - c.due + c.result.elapsed
    ensures c.Lag() == c.sending - c.due && c.Rig() == c.Lag() - c.Wait()
  {
  }

  ghost predicate AllClocked(cs: seq<Carriage>) {
    forall i :: 0 <= i < |cs| ==> cs[i].Clocked()
  }

  /** Sample for sample, the lag is the wait for a connection plus the rig's own lateness, and a
      request's latency is never below its lag. */
  lemma {:induction false} LagSplits(cs: seq<Carriage>)
    requires AllClocked(cs)
    ensures |Lags(cs)| == |Waits(cs)| == |Rigs(cs)| == |cs|
    ensures forall i :: 0 <= i < |cs| ==> Waits(cs)[i] + Rigs(cs)[i] == Lags(cs)[i] == cs[i].sending - cs[i].due
    ensures Dominates(Lags(cs), Waits(cs))
  {
    if cs != [] {
      LagSplits(cs[..|cs| - 1]);
    }
  }

  /** Which part is whose: until the worker came free, past the due time, the wait is the connection's;
      everything after that, or after the due time of an idle worker, is the rig's. */
  lemma {:induction false} LagByCause(cs: seq<Carriage>)
    requires AllClocked(cs)
    ensures |Waits(cs)| == |Rigs(cs)| == |cs|
    ensures forall i :: 0 <= i < |cs| ==>
              if cs[i].freeAt > cs[i].due
              then Waits(cs)[i] == cs[i].freeAt - cs[i].due && Rigs(cs)[i] == cs[i].sending - cs[i].freeAt
              else Waits(cs)[i] == 0 && Rigs(cs)[i] == cs[i].sending - cs[i].due
  {
    if cs != [] {
      var front := cs[..|cs| - 1];
      LagByCause(front);
      forall i | 0 <= i < |front| ensures Waits(cs)[i] == Waits(front)[i] && Rigs(cs)[i] == Rigs(front)[i] {
      }
    }
  }

  lemma {:induction false} NoneUntimed(cs: seq<Carriage>)
    requires ErrorsOf(cs).Untimed() == 0
    ensures forall i :: 0 <= i < |cs| ==> Timed(cs[i].result.outcome)
  {
    if cs != [] {
      var front := cs[..|cs| - 1];
      NoneUntimed(front);
      forall i | 0 <= i < |cs| ensures Timed(cs[i].result.outcome) {
        assert i < |front| ==> cs[i] == front[i];
      }
    }
  }

  lemma {:induction false} AllTimed(cs: seq<Carriage>)
    requires forall i :: 0 <= i < |cs| ==> Timed(cs[i].result.outcome)
    ensures Latencies(cs) == seq(|cs|, i requires 0 <= i < |cs| => cs[i].Latency())
  {
    if cs != [] {
      AllTimed(cs[..|cs| - 1]);
    }
  }

  lemma LatencyCoversLag(cs: seq<Carriage>)
    requires AllClocked(cs) && ErrorsOf(cs).Untimed() == 0
    ensures Dominates(Latencies(cs), Lags(cs))
  {
    hide Lags, Latencies, ErrorsOf, Waits, Rigs;
    var lags, latencies := Lags(cs), Latencies(cs);
    NoneUntimed(cs);
    AllTimed(cs);
    LagSplits(cs);
    forall i | 0 <= i < |cs| ensures lags[i] <= latencies[i] {
      assert cs[i].Clocked() && latencies[i] == cs[i].Latency();
    }
  }

  /** Percentile dominance, exactly.  Schedule lag is at least connection wait at every percentile if
      and only if the two histograms are clear of the overflow boundary; so is latency against schedule
      lag, when every request carried was timed. */
  lemma PercentilesDominate(cs: seq<Carriage>)
    requires AllClocked(cs) && cs != []
    ensures |Lags(cs)| == |Waits(cs)| == |cs|
    ensures PercentilesBelow(Of(Waits(cs)), Of(Lags(cs)), |cs|) <==> DominanceClear(Of(Lags(cs)), Of(Waits(cs)))
    ensures ErrorsOf(cs).Untimed() == 0 ==>
              && |Latencies(cs)| == |cs|
              && (PercentilesBelow(Of(Lags(cs)), Of(Latencies(cs)), |cs|)
                  <==> DominanceClear(Of(Latencies(cs)), Of(Lags(cs))))
  {
    hide Of, Lags, Waits, Latencies, ErrorsOf, Dominates, DominanceClear, PercentilesBelow, RanksBelow;
    LagSplits(cs);
    DominanceExactly(Lags(cs), Waits(cs));
    PercentilesAreRanks(Of(Waits(cs)), Of(Lags(cs)), |cs|);
    if ErrorsOf(cs).Untimed() == 0 {
      LatencyCoversLag(cs);
      SameLength(Latencies(cs), Lags(cs));
      DominanceExactly(Latencies(cs), Lags(cs));
      PercentilesAreRanks(Of(Lags(cs)), Of(Latencies(cs)), |cs|);
    }
  }

  lemma SameLength(high: seq<nat>, low: seq<nat>)
    requires Dominates(high, low)
    ensures |high| == |low|
  {
  }

  /** Nothing overflowed: the clear case a run usually has. */
  lemma {:induction false} NoOverflowBelow(high: seq<nat>, low: seq<nat>)
    requires Dominates(high, low) && Of(high).overflow == 0
    ensures Of(low).overflow == 0 && DominanceClear(Of(high), Of(low))
  {
    hide Of, AtMost;
    OverflowIsReal(high);
    OverflowIsReal(low);
    DominatedCounts(high, low, MAX_VALUE);
  }

  /** The input that fails at the overflow boundary: one request 59.9 s late whose exchange took 150 ms
      has its lag reported at 60.13 s and its latency, which contains the lag, at 60.05 s. */
  lemma LatencyReportedBelowLag(c: Carriage)
    requires c == Carriage(0, 0, 59_900_000_000, Exchange(Succeeded, 150_000_000, true))
    ensures AllClocked([c]) && ErrorsOf([c]).Untimed() == 0
    ensures AtRank(Of(Lags([c])), 1) == 60_129_542_143 && AtRank(Of(Latencies([c])), 1) == 60_050_000_000
  {
    hide Of, AtRank, IndexOf, SlotHigh, SlotLow;
    BooksOfOne(c);
    CountIsDerived();
    SlotsPartition(c.Lag(), COUNT - 1);
    LargestOf([c.Lag()], c.Lag());
    LargestOf([c.Latency()], c.Latency());
  }

  lemma BooksOfOne(c: Carriage)
    requires Timed(c.result.outcome)
    ensures Lags([c]) == [c.Lag()] && Latencies([c]) == [c.Latency()]
    ensures c.result.outcome == Succeeded ==> ErrorsOf([c]) == NO_ERRORS
  {
    hide Carriage.Lag, Carriage.Latency;
    assert [] + [c] == [c];
    SplitsSnoc([], c);
    SampleSnoc([], c);
    ErrorsSnoc([], c);
  }

  /** The input that fails without the other premise: a late request that broke leaves its lag behind
      and no latency, so the 100th percentile of lag is above that of latency. */
  lemma BrokenRequestHidesItsLatency(late: Carriage, fine: Carriage)
    requires late == Carriage(0, 0, 100, Exchange(ReadFailed, 0, false))
    requires fine == Carriage(0, 0, 0, Exchange(Succeeded, 1, true))
    ensures AllClocked([late, fine]) && ErrorsOf([late, fine]).Untimed() == 1
    ensures Of(Latencies([late, fine])).overflow == 0
    ensures AtRank(Of(Lags([late, fine])), Rank(100.0, 2)) == 100
    ensures AtRank(Of(Latencies([late, fine])), Rank(100.0, 1)) == 1
  {
    hide Of, AtRank, Lags, Latencies, ErrorsOf, AtMost;
    TwoBooks(late, fine);
    LargestOf([100, 0], 100);
    LargestOf([1], 1);
    OverflowIsReal([1]);
    assert Rank(100.0, 2) == 2 && Rank(100.0, 1) == 1;
  }

  lemma TwoBooks(late: Carriage, fine: Carriage)
    requires late.result.outcome == ReadFailed && fine.result.outcome == Succeeded
    ensures ErrorsOf([late, fine]) == NO_ERRORS.(read := 1)
    ensures Lags([late, fine]) == [late.Lag(), fine.Lag()] && Latencies([late, fine]) == [fine.Latency()]
  {
    hide Carriage.Lag, Carriage.Latency;
    assert [] + [late] == [late] && [late] + [fine] == [late, fine];
    SplitsSnoc([], late);
    SplitsSnoc([late], fine);
    SampleSnoc([], late);
    SampleSnoc([late], fine);
    ErrorsSnoc([], late);
    ErrorsSnoc([late], fine);
  }

  lemma LargestOf(samples: seq<nat>, v: nat)
    requires v in samples && forall w :: w in samples ==> w <= v
    ensures Of(samples).max == v && AtRank(Of(samples), |samples|) == Reported(v, v)
  {
    hide Of, AtRank, Sort;
    MaxIsLargest(samples);
    MaxIsLast(samples);
    RankRefinesSortedList(samples, |samples|);
  }

  /** Every sleep woke exactly on time: a slot went out the moment it was both due and carried. */
  ghost predicate Punctual(cs: seq<Carriage>) {
    forall i :: 0 <= i < |cs| ==> cs[i].sending == if cs[i].due < cs[i].freeAt then cs[i].freeAt else cs[i].due
  }

  lemma {:induction false} PunctualRigIsBlameless(cs: seq<Carriage>)
    requires Punctual(cs)
    ensures Rigs(cs) == seq(|cs|, _ => 0)
  {
    if cs != [] {
      PunctualRigIsBlameless(cs[..|cs| - 1]);
      assert seq(|cs|, _ => 0) == seq(|cs| - 1, _ => 0) + [0];
    }
  }

  lemma {:induction false} ZeroSamples(n: nat, rank: nat)
    requires 1 <= rank <= n
    ensures AtRank(Of(seq(n, _ => 0)), rank) == 0
  {
    var zeros := seq(n, _ => 0);
    SortSorts(zeros);
    assert Sort(zeros)[rank - 1] in multiset(zeros);
    RankRefinesSortedList(zeros, rank);
  }

  /** kept_up() as an answer about the recorded rig lags. */
  predicate KeptUp(rig: seq<nat>, rate: Rate) {
    rig == [] || AtRank(Of(rig), Rank(50.0, |rig|)) < 10 * Interval(rate)
  }

  /** A sender found to have kept up sent at least half its requests less than ten intervals late by
      its own doing: one that did not fails the test. */
  lemma KeptUpMeansHalfOnTime(rig: seq<nat>, rate: Rate)
    requires KeptUp(rig, rate)
    ensures 2 * AtMost(rig, 10 * Interval(rate) - 1) >= |rig|
  {
    hide Of, AtRank, Interval, Rank;
    if rig != [] {
      var rank := Rank(50.0, |rig|);
      AnswerCovers(rig, rank);
      RankCovers(50.0, |rig|);
      AtMostGrows(rig, AtRank(Of(rig), rank), 10 * Interval(rate) - 1);
      HalfOf(rank, |rig|);
    }
  }

  lemma HalfOf(rank: nat, n: nat)
    requires 100.0 * rank as real >= 50.0 * n as real
    ensures 2 * rank >= n
  {
  }

  /** And one that did passes it, with the histogram's own 1/128 to spare. */
  lemma HalfOnTimeKeepsUp(rig: seq<nat>, rate: Rate, bound: nat)
    requires 2 * AtMost(rig, bound) >= |rig| && bound <= MAX_VALUE && 129 * bound < 1280 * Interval(rate)
    ensures KeptUp(rig, rate)
  {
    hide Of, AtRank, Interval, Sort, AtMost;
    if rig != [] {
      var rank := Rank(50.0, |rig|);
      HalfRank(|rig|);
      CountAtMost(rig, rank, bound);
      RankErrorBound(rig, rank);
      Share(Sort(rig)[rank - 1], bound, AtRank(Of(rig), rank), Interval(rate));
    }
  }

  lemma HalfRank(n: nat)
    requires n >= 1
    ensures Rank(50.0, n) == (n + 1) / 2
  {
    RankIsLeast(50.0, n);
    assert 2 * Rank(50.0, n) >= n && (Rank(50.0, n) == 1 || 2 * (Rank(50.0, n) - 1) < n);
  }

  lemma Share(v: nat, bound: nat, answer: nat, interval: int)
    requires v <= bound && v <= answer && SUB_BUCKETS * (answer - v) <= v && 129 * bound < 1280 * interval
    ensures answer < 10 * interval
  {
  }

  /** However slow the target, however small the pool, whatever the rate: a sender that is never
      late of its own accord is never blamed. */
  lemma PunctualSenderKeepsUp(cs: seq<Carriage>, rate: Rate)
    requires Punctual(cs)
    ensures KeptUp(Rigs(cs), rate)
  {
    PunctualRigIsBlameless(cs);
    IntervalPositive(rate);
    if cs != [] {
      ZeroSamples(|cs|, Rank(50.0, |cs|));
    }
  }

  // ----- A worker's books, and all of them -----

  /** What a worker has to show for itself. */
  datatype Local = Local(socket: bool, carried: seq<Carriage>, refused: nat, opens: nat)
  {
    function Errors(): ErrorCounts {
      ErrorsOf(carried).(connect := refused)
    }

    function Attempted(): nat {
      |carried| + refused
    }
  }

  const FRESH: Local := Local(false, [], 0, 0)

  function Opened(local: Local): Local {
    if local.socket then local else local.(socket := true, opens := local.opens + 1)
  }

  lemma OpenStaysOpened(local: Local)
    requires local.socket
    ensures Opened(local) == local
  {
  }

  // ----- Which connection each exchange used -----

  /** One exchange of a worker: on its how-manyth connection, and how it came out. */
  datatype Use = Use(connection: nat, result: Exchange)

  /** No request follows an unusable exchange on the same connection. */
  ghost predicate NeverReused(uses: seq<Use>) {
    forall i, j :: 0 <= i < j < |uses| && uses[i].connection == uses[j].connection ==> uses[i].result.usable
  }

  ghost predicate InStep(local: Local, uses: seq<Use>) {
    && NeverReused(uses)
    && (forall i :: 0 <= i < |uses| ==> uses[i].connection <= local.opens)
    && (local.socket ==> forall i :: 0 <= i < |uses| && uses[i].connection == local.opens ==> uses[i].result.usable)
  }

  lemma NothingUsed()
    ensures InStep(FRESH, [])
  {
  }

  lemma StillInStep(local: Local, after: Local, uses: seq<Use>)
    requires InStep(local, uses)
    requires if after.opens == local.opens then after.socket ==> local.socket else after.opens == local.opens + 1
    ensures InStep(after, uses)
  {
  }

  lemma UsedOnce(local: Local, uses: seq<Use>, after: Local, result: Exchange)
    requires InStep(local, uses)
    requires after.opens == Opened(local).opens && (after.socket ==> result.usable)
    ensures InStep(after, uses + [Use(Opened(local).opens, result)])
  {
    var more := uses + [Use(Opened(local).opens, result)];
    forall i, j | 0 <= i < j < |more| && more[i].connection == more[j].connection ensures more[i].result.usable {
      assert more[i] == uses[i];
      assert j < |uses| ==> more[j] == uses[j];
    }
  }

  function Carried(locals: seq<Local>): seq<Carriage> {
    if locals == [] then [] else Carried(locals[..|locals| - 1]) + locals[|locals| - 1].carried
  }

  function ErrorsByAll(locals: seq<Local>): ErrorCounts {
    if locals == [] then NO_ERRORS else ErrorsByAll(locals[..|locals| - 1]).Merge(locals[|locals| - 1].Errors())
  }

  function AttemptedByAll(locals: seq<Local>): nat {
    if locals == [] then 0 else AttemptedByAll(locals[..|locals| - 1]) + locals[|locals| - 1].Attempted()
  }

  function OpensByAll(locals: seq<Local>): nat {
    if locals == [] then 0 else OpensByAll(locals[..|locals| - 1]) + locals[|locals| - 1].opens
  }

  lemma {:induction false} ErrorsMerge(locals: seq<Local>)
    ensures ErrorsByAll(locals).(connect := 0) == ErrorsOf(Carried(locals))
  {
    if locals != [] {
      var front, last := locals[..|locals| - 1], locals[|locals| - 1];
      ErrorsMerge(front);
      ErrorsConcat(Carried(front), last.carried);
      MergeButConnect(ErrorsByAll(front), last.Errors());
    }
  }

  lemma {:induction false} AttemptsCarried(locals: seq<Local>)
    ensures AttemptedByAll(locals) == |Carried(locals)| + ErrorsByAll(locals).connect
  {
    if locals != [] {
      AttemptsCarried(locals[..|locals| - 1]);
    }
  }

  lemma MergeOne(locals: seq<Local>, last: Local)
    ensures var all := Carried(locals + [last]);
            && Latencies(all) == Latencies(Carried(locals)) + Latencies(last.carried)
            && Lags(all) == Lags(Carried(locals)) + Lags(last.carried)
            && Waits(all) == Waits(Carried(locals)) + Waits(last.carried)
            && Rigs(all) == Rigs(Carried(locals)) + Rigs(last.carried)
    ensures ErrorsByAll(locals + [last]) == ErrorsByAll(locals).Merge(last.Errors())
    ensures AttemptedByAll(locals + [last]) == AttemptedByAll(locals) + last.Attempted()
    ensures OpensByAll(locals + [last]) == OpensByAll(locals) + last.opens
  {
    hide Latencies, Lags, Waits, Rigs;
    assert (locals + [last])[..|locals|] == locals;
    LatenciesConcat(Carried(locals), last.carried);
    LagsConcat(Carried(locals), last.carried);
    WaitsConcat(Carried(locals), last.carried);
    RigsConcat(Carried(locals), last.carried);
  }

  /** Merged over any number of workers, every attempt is a timed sample or an untimed error. */
  lemma RunBalances(locals: seq<Local>)
    ensures AttemptedByAll(locals) == |Latencies(Carried(locals))| + ErrorsByAll(locals).Untimed()
  {
    ErrorsMerge(locals);
    AttemptsCarried(locals);
    EveryCarriageCounted(Carried(locals));
  }
}
