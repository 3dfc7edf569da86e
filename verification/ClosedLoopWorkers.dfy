/** The closed-loop worker and the run it is merged into, as objects updated in place. */
module ClosedLoopWorkers {
  import opened Wrappers
  import opened Tallies
  import opened Histograms
  import opened RunResults
  import opened Accounts
  import opened ClosedLoop
  import TS = TimeSeries

  class ConnectionWorker {
    const plan: Plan
    const histogram: Histogram
    const series: TS.Writer?
    var errors: ErrorCounts
    var attempted: nat
    var connectionsOpened: nat

    ghost var tally: Local

    ghost predicate Valid()
      reads this, histogram, histogram.slots
    {
      && histogram.Valid() && histogram.samples == Latencies(tally.carried)
      && errors == tally.Errors() && attempted == tally.Attempted() && connectionsOpened == tally.opens
    }

    /** The worker's writer, when there is one, is its own. */
    ghost predicate Wired()
      reads this, series
      reads if series == null then {} else {series.pending, series.pending.slots}
    {
      && (series != null <==> plan.timeseries)
      && (series != null ==>
            && series.pending.Valid() && series.owner.start == plan.recordFrom
            && series.pending != histogram && series.pending.slots != histogram.slots)
    }

    ghost function SeriesView(): Telling
      requires series != null && Wired()
      reads this, series, series.owner, series.pending, series.pending.slots
    {
      Telling(series.owner.seconds, series.View())
    }

    constructor (plan: Plan, series: TS.Series?)
      requires series != null <==> plan.timeseries
      requires series != null ==> series.start == plan.recordFrom
      ensures this.plan == plan && Valid() && Wired() && tally == FRESH
      ensures fresh(histogram) && fresh(histogram.slots)
      ensures this.series != null ==>
                && fresh(this.series) && fresh(this.series.pending) && fresh(this.series.pending.slots)
                && this.series.owner == series && this.series.View() == TS.IDLE
    {
      this.plan := plan;
      histogram := new Histogram();
      if series != null {
        this.series := new TS.Writer(series);
      } else {
        this.series := null;
      }
      errors, attempted, connectionsOpened := NO_ERRORS, 0, 0;
      tally := FRESH;
    }

    /** Three outcomes reach the histogram; all but success reach exactly one error counter. */
    method RecordOutcome(result: Exchange, ghost c: Carriage)
      requires histogram.Valid() && histogram.samples == Latencies(tally.carried) && errors == tally.Errors()
      requires c.result == result && c.Latency() == result.elapsed
      modifies `errors, histogram, histogram.slots
      ensures histogram.Valid() && histogram.samples == Latencies(tally.carried + [c])
      ensures errors == tally.(carried := tally.carried + [c]).Errors()
    {
      hide Of, Ended, Latencies, Histogram.View;
      SampleSnoc(tally.carried, c);
      ErrorsSnoc(tally.carried, c);
      match result.outcome {
        case Succeeded =>
          histogram.Record(result.elapsed);
        case Rejected =>
          errors := errors.(rejected := errors.rejected + 1);
          histogram.Record(result.elapsed);
        case TimedOut =>
          errors := errors.(timeout := errors.timeout + 1);
          histogram.Record(result.elapsed);
        case ProtocolError => errors := errors.(protocol := errors.protocol + 1);
        case ReadFailed => errors := errors.(read := errors.read + 1);
        case WriteFailed => errors := errors.(write := errors.write + 1);
      }
    }

    /** No connection, no request: inside the measured window the turn still counts as an attempt. */
    method Refuse(now: int)
      requires Valid()
      modifies this
      ensures Valid() && tally == Refused(plan, old(tally), now)
    {
      if now >= plan.recordFrom {
        attempted := attempted + 1;
        errors := errors.(connect := errors.connect + 1);
      }
      tally := Refused(plan, tally, now);
    }

    method Open()
      requires Valid() && !tally.socket
      modifies this
      ensures Valid() && tally == Opened(old(tally))
    {
      connectionsOpened := connectionsOpened + 1;
      tally := Opened(tally);
    }

    /** The same three outcomes reach the per-second series. */
    method TellSeries(recordedAt: int, result: Exchange)
      requires Wired()
      modifies if series == null then {} else {series, series.owner, series.pending, series.pending.slots}
      ensures Wired()
      ensures series != null ==>
                && (series.pending == old(series.pending) || fresh(series.pending))
                && (series.pending.slots == old(series.pending.slots) || fresh(series.pending.slots))
                && SeriesView() == if Timed(result.outcome)
                                   then TellOne(plan, old(SeriesView()), recordedAt, result.elapsed)
                                   else old(SeriesView())
    {
      hide Of, TS.AfterRecord, TS.SharedAfterRecord, TS.SecondOf;
      if series != null && Timed(result.outcome) {
        series.Record(recordedAt, result.elapsed);
      }
    }

    method Serve(r: Reading)
      requires Valid() && Wired()
      modifies this, histogram, histogram.slots
      modifies if series == null then {} else {series, series.owner, series.pending, series.pending.slots}
      ensures Valid() && Wired() && tally == Served(plan, old(tally), r.now, r.result)
      ensures series != null ==>
                && (series.pending == old(series.pending) || fresh(series.pending))
                && (series.pending.slots == old(series.pending.slots) || fresh(series.pending.slots))
                && SeriesView() == if Tells(plan, r.now, r.result)
                                   then TellOne(plan, old(SeriesView()), r.recordedAt, r.result.elapsed)
                                   else old(SeriesView())
    {
      hide Of, Latencies, TellOne, Histogram.Valid, Histogram.View, ErrorsOf;
      if r.now >= plan.recordFrom {
        ghost var c := Prompt(r.now, r.result);
        attempted := attempted + 1;
        TellSeries(r.recordedAt, r.result);
        RecordOutcome(r.result, c);
        tally := tally.(carried := tally.carried + [c]);
      }
      tally := tally.(socket := tally.socket && r.result.usable);
    }

    /** The worker's whole life: `readings` is what its environment answers, one per turn of the
        loop, up to the turn at which it returns. */
    method Run(readings: seq<Reading>)
      requires Valid() && Wired() && tally == FRESH && Drive(plan, readings).1
      modifies this, histogram, histogram.slots
      modifies if series == null then {} else {series, series.owner, series.pending, series.pending.slots}
      ensures Valid() && Wired() && tally == Drive(plan, readings).0
      ensures series != null ==>
                && (series.pending == old(series.pending) || fresh(series.pending))
                && (series.pending.slots == old(series.pending.slots) || fresh(series.pending.slots))
                && SeriesView() == Told(plan, readings, old(SeriesView()))
    {
      hide Valid, TellOne;
      ghost var at := if series == null then Telling([], TS.IDLE) else SeriesView();
      var socket := false;
      var turn := 0;
      while true
        invariant turn <= |readings| && Valid() && Wired()
        invariant Drive(plan, readings[..turn]) == (tally, false)
        invariant socket == tally.socket
        invariant series != null ==>
                    && (series.pending == old(series.pending) || fresh(series.pending))
                    && (series.pending.slots == old(series.pending.slots) || fresh(series.pending.slots))
        invariant series != null ==> SeriesView() == Told(plan, readings[..turn], at)
        decreases |readings| - turn
      {
        OneTurn(plan, readings, turn, at);
        var r := readings[turn];
        turn := turn + 1;
        if r.now >= plan.deadline {
          return;
        }
        if !socket {
          if !r.connects {
            Refuse(r.now);
            continue;
          }
          Open();
          socket := true;
        }
        Serve(r);
        if !r.result.usable {
          socket := false;
        }
      }
    }

    /** Flush the last partial second. */
    method Finish()
      requires Wired()
      modifies if series == null then {} else {series, series.owner}
      ensures Wired()
      ensures series != null ==>
                && series.owner.seconds == TS.SharedAfterFlush(old(SeriesView()).shared, old(SeriesView()).writing)
                && series.View() == TS.AfterFlush(old(SeriesView()).writing)
                && (series.pending == old(series.pending) || fresh(series.pending))
    {
      if series != null {
        series.Flush();
      }
    }
  }

  ghost function TalliesOf(workers: seq<ConnectionWorker>): seq<Local>
    reads workers
  {
    seq(|workers|, i requires 0 <= i < |workers| reads workers => workers[i].tally)
  }

  /** A finished run: every writer flushed and every worker's books folded into one, after the join. */
  class ClosedLoopRun {
    const plan: Plan
    const histogram: Histogram
    var errors: ErrorCounts
    var attempted: nat
    var latency: Option<Summary>
    var connectionsRequested: nat
    var connectionsStarted: nat
    var connectionsOpened: nat
    var perSecond: seq<Tally>

    ghost var locals: seq<Local>

    ghost predicate Merged()
      reads this, histogram, histogram.slots
    {
      && histogram.Valid() && histogram.samples == Latencies(Carried(locals))
      && errors == ErrorsByAll(locals) && attempted == AttemptedByAll(locals)
      && connectionsOpened == OpensByAll(locals)
    }

    constructor (plan: Plan, connections: nat)
      ensures this.plan == plan && Merged() && locals == [] && connectionsRequested == connections
      ensures fresh(histogram) && fresh(histogram.slots)
    {
      this.plan := plan;
      histogram := new Histogram();
      errors, attempted, connectionsOpened := NO_ERRORS, 0, 0;
      latency, perSecond := None, [];
      connectionsRequested, connectionsStarted := connections, 0;
      locals := [];
    }

    function Result(): RunResult
      requires plan.deadline > plan.recordFrom
      reads this
    {
      RunResult(attempted, errors, latency, plan.deadline - plan.recordFrom)
    }

    method Absorb(worker: ConnectionWorker)
      requires Merged() && worker.Valid()
      requires worker.histogram != histogram && worker.histogram.slots != histogram.slots
      modifies this, histogram, histogram.slots
      ensures Merged() && locals == old(locals) + [worker.tally] && worker.Valid()
      ensures connectionsRequested == old(connectionsRequested)
    {
      hide Histogram.Valid, Latencies, Carried, ErrorsByAll, AttemptedByAll, OpensByAll;
      hide Local.Errors, Local.Attempted, ErrorCounts.Merge;
      MergeOne(locals, worker.tally);
      histogram.Merge(worker.histogram);
      errors := errors.Merge(worker.errors);
      attempted := attempted + worker.attempted;
      connectionsOpened := connectionsOpened + worker.connectionsOpened;
      locals := locals + [worker.tally];
    }

    /** The workers of this run: one series between them, and each with a writer of its own. */
    ghost predicate Spawned(workers: seq<ConnectionWorker>, series: TS.Series) {
      && (forall i :: 0 <= i < |workers| ==>
            && workers[i].plan == plan && (plan.timeseries <==> workers[i].series != null)
            && workers[i].histogram != histogram && workers[i].histogram.slots != histogram.slots
            && (workers[i].series != null ==> workers[i].series.owner == series))
      && (forall i, j :: 0 <= i < j < |workers| && plan.timeseries ==> workers[i].series != workers[j].series)
    }

    /** A worker whose writer still holds `held` back. */
    ghost predicate Holding(worker: ConnectionWorker, held: TS.Writing)
      reads worker, worker.series
      reads if worker.series == null then {} else {worker.series.pending, worker.series.pending.slots}
    {
      && worker.Wired()
      && (worker.series != null ==>
            && worker.series.View() == held
            && worker.series.pending != histogram && worker.series.pending.slots != histogram.slots)
    }

    /** Flush one worker's last partial second and fold in its books. */
    method FinishAndAbsorb(workers: seq<ConnectionWorker>, series: TS.Series, ghost held: seq<TS.Writing>, i: nat)
      requires Merged() && Spawned(workers, series) && |held| == |workers| && i < |workers|
      requires forall k :: 0 <= k < |workers| ==> workers[k].Valid()
      requires forall k :: i <= k < |workers| ==> Holding(workers[k], held[k])
      modifies this, histogram, histogram.slots, series
      modifies set k | 0 <= k < |workers| && workers[k].series != null :: workers[k].series
      ensures Merged() && locals == old(locals) + [workers[i].tally]
      ensures forall k :: 0 <= k < |workers| ==> workers[k].Valid()
      ensures forall k :: i < k < |workers| ==> Holding(workers[k], held[k])
      ensures series.seconds
              == if plan.timeseries then TS.SharedAfterFlush(old(series.seconds), held[i]) else old(series.seconds)
      ensures connectionsRequested == old(connectionsRequested)
    {
      hide Merged, ConnectionWorker.Valid, Histogram.Valid, Histogram.View, TS.SharedAfterFlush, TS.AfterFlush;
      workers[i].Finish();
      Absorb(workers[i]);
    }

    /** After the join.  The accounts balance, the run's histogram is every worker's samples, and
        `perSecond` is what flushing the writers in turn leaves of the series. */
    method Collect(workers: seq<ConnectionWorker>, series: TS.Series, ghost held: seq<TS.Writing>)
      requires plan.deadline > plan.recordFrom && Merged() && locals == []
      requires Spawned(workers, series) && |held| == |workers|
      requires forall i :: 0 <= i < |workers| ==> workers[i].Valid() && Holding(workers[i], held[i])
      modifies this, histogram, histogram.slots, series
      modifies set i | 0 <= i < |workers| && workers[i].series != null :: workers[i].series
      ensures Merged() && locals == TalliesOf(workers) && Result().Consistent()
      ensures attempted == (if latency.Some? then latency.value.samples else 0)
                           + errors.connect + errors.write + errors.read + errors.protocol
      ensures latency.None? <==> Latencies(Carried(locals)) == []
      ensures perSecond == if plan.timeseries then Flushed(old(series.seconds), held) else old(series.seconds)
      ensures connectionsStarted == |workers|
      ensures connectionsRequested == old(connectionsRequested)
      ensures Result() == RunResult(attempted, errors, latency, plan.deadline - plan.recordFrom)
    {
      hide Merged, Spawned, Holding, ConnectionWorker.Valid, ConnectionWorker.Wired;
      hide Histogram.Valid, TS.SharedAfterFlush;
      for i := 0 to |workers|
        invariant Merged() && locals == TalliesOf(workers)[..i]
        invariant connectionsRequested == old(connectionsRequested)
        invariant forall k :: 0 <= k < |workers| ==> workers[k].Valid()
        invariant forall k :: i <= k < |workers| ==> Holding(workers[k], held[k])
        invariant series.seconds
                  == if plan.timeseries then Flushed(old(series.seconds), held[..i]) else old(series.seconds)
      {
        assert TalliesOf(workers)[..i + 1] == TalliesOf(workers)[..i] + [workers[i].tally];
        assert held[..i + 1][..i] == held[..i];
        FinishAndAbsorb(workers, series, held, i);
      }
      assert TalliesOf(workers)[..|workers|] == TalliesOf(workers) && held[..|workers|] == held;
      Conclude(|workers|, series);
    }

    method Conclude(started: nat, series: TS.Series)
      requires plan.deadline > plan.recordFrom && Merged()
      modifies `latency, `connectionsStarted, `perSecond
      ensures connectionsStarted == started && perSecond == series.seconds
      ensures Merged() && Result().Consistent()
      ensures attempted == (if latency.Some? then latency.value.samples else 0)
                           + errors.connect + errors.write + errors.read + errors.protocol
      ensures latency.None? <==> Latencies(Carried(locals)) == []
    {
      hide AtRank, TopClear, Rank, Of, Latencies, Carried, ErrorsByAll, AttemptedByAll, OpensByAll;
      connectionsStarted := started;
      latency := Summarise(histogram, plan.deadline - plan.recordFrom);
      perSecond := series.seconds;
      RunBalances(locals);
    }
  }

  /** The run object and the system of workers tell the same story: when the books collected are
      those of a joined run, and the series collected is what flushing that run's writers leaves, the
      per-second histograms add up to the run's own histogram, counter for counter. */
  lemma CollectedViewsAgree(run: ClosedLoopRun, n: nat, states: seq<State>, actions: seq<Action>)
    requires run.Merged() && run.plan.timeseries
    requires IsRun(run.plan, n, states, actions) && Joined(states[|actions|])
    requires run.locals == Locals(states[|actions|].workers)
    requires run.perSecond == Flushed(states[|actions|].series.shared, states[|actions|].series.writers)
    ensures JoinAll(run.perSecond) == run.histogram.View()
  {
    hide Of, JoinAll, Latencies, Carried, IsRun, Joined, Flushed;
    JoinedRunViewsAgree(run.plan, n, states, actions);
  }

  lemma {:induction false} StoppedStays(plan: Plan, readings: seq<Reading>, n: nat, at: Telling)
    requires n <= |readings| && Drive(plan, readings[..n]).1
    ensures Drive(plan, readings) == Drive(plan, readings[..n])
    ensures Told(plan, readings, at) == Told(plan, readings[..n], at)
    decreases |readings|
  {
    if n < |readings| {
      var front := readings[..|readings| - 1];
      assert front[..n] == readings[..n];
      StoppedStays(plan, front, n, at);
    } else {
      assert readings[..n] == readings;
    }
  }

  lemma OneTurn(plan: Plan, readings: seq<Reading>, turn: nat, at: Telling)
    requires turn <= |readings| && Drive(plan, readings).1 && !Drive(plan, readings[..turn]).1
    ensures turn < |readings|
    ensures var local, before := Drive(plan, readings[..turn]).0, Told(plan, readings[..turn], at);
            && Drive(plan, readings[..turn + 1]) == Turn(plan, local, readings[turn])
            && Told(plan, readings[..turn + 1], at) == Tell(plan, local, before, readings[turn])
    ensures Drive(plan, readings[..turn + 1]).1 ==>
              Drive(plan, readings) == Drive(plan, readings[..turn + 1])
              && Told(plan, readings, at) == Told(plan, readings[..turn + 1], at)
  {
    assert readings[..|readings|] == readings;
    assert readings[..turn + 1][..turn] == readings[..turn];
    if Drive(plan, readings[..turn + 1]).1 {
      StoppedStays(plan, readings, turn + 1, at);
    }
  }
}
