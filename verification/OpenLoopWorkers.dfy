/** The open-loop worker and the run it is merged into, as objects updated in place. */
module OpenLoopWorkers {
  import opened Wrappers
  import opened Tallies
  import opened Schedules
  import opened Histograms
  import opened RunResults
  import opened Accounts
  import opened OpenLoop

  /** Four histograms that share nothing. */
  ghost predicate Apart(a: Histogram, b: Histogram, c: Histogram, d: Histogram) {
    && a != b && a != c && a != d && b != c && b != d && c != d
    && a.slots != b.slots && a.slots != c.slots && a.slots != d.slots
    && b.slots != c.slots && b.slots != d.slots && c.slots != d.slots
  }

  class OpenLoopWorker {
    const plan: Plan
    const histogram: Histogram
    const lag: Histogram
    const connectionWait: Histogram
    const rigLag: Histogram
    var errors: ErrorCounts
    var attempted: nat
    var connectionsOpened: nat

    ghost var tally: Local

    ghost predicate Valid()
      reads this, histogram, histogram.slots, lag, lag.slots
      reads connectionWait, connectionWait.slots, rigLag, rigLag.slots
    {
      && Apart(histogram, lag, connectionWait, rigLag)
      && histogram.Valid() && lag.Valid() && connectionWait.Valid() && rigLag.Valid()
      && histogram.samples == Latencies(tally.carried)
      && lag.samples == Lags(tally.carried)
      && connectionWait.samples == Waits(tally.carried)
      && rigLag.samples == Rigs(tally.carried)
      && errors == tally.Errors() && attempted == tally.Attempted() && connectionsOpened == tally.opens
    }

    constructor (plan: Plan)
      ensures Valid() && this.plan == plan && tally == FRESH
      ensures fresh(histogram) && fresh(histogram.slots) && fresh(lag) && fresh(lag.slots)
      ensures fresh(connectionWait) && fresh(connectionWait.slots) && fresh(rigLag) && fresh(rigLag.slots)
    {
      this.plan := plan;
      histogram := new Histogram();
      lag := new Histogram();
      connectionWait := new Histogram();
      rigLag := new Histogram();
      errors, attempted, connectionsOpened := NO_ERRORS, 0, 0;
      tally := FRESH;
    }

    /** The lateness of one send, whole and split by cause.  The rig's share is never negative
        because the clock does not run backwards between `freeAt` and `sending`. */
    method RecordLateness(due: int, freeAt: int, sending: int, ghost c: Carriage)
      requires Apart(histogram, lag, connectionWait, rigLag)
      requires lag.Valid() && connectionWait.Valid() && rigLag.Valid()
      requires lag.samples == Lags(tally.carried)
      requires connectionWait.samples == Waits(tally.carried) && rigLag.samples == Rigs(tally.carried)
      requires c.due == due && c.freeAt == freeAt && c.sending == sending && freeAt <= sending
      modifies lag, lag.slots, connectionWait, connectionWait.slots, rigLag, rigLag.slots
      ensures lag.Valid() && connectionWait.Valid() && rigLag.Valid()
      ensures lag.samples == Lags(tally.carried + [c])
      ensures connectionWait.samples == Waits(tally.carried + [c]) && rigLag.samples == Rigs(tally.carried + [c])
    {
      hide Of;
      SplitsSnoc(tally.carried, c);
      var late := if sending - due > 0 then sending - due else 0;
      lag.Record(late);
      var waited := if freeAt - due > 0 then freeAt - due else 0;
      connectionWait.Record(waited);
      rigLag.Record(late - waited);
    }

    /** Three outcomes reach the histogram; all but success reach exactly one error counter. */
    method RecordOutcome(outcome: Outcome, fromDue: int, ghost c: Carriage)
      requires histogram.Valid() && histogram.samples == Latencies(tally.carried) && errors == tally.Errors()
      requires c.result.outcome == outcome && fromDue == c.Latency()
      modifies `errors, histogram, histogram.slots
      ensures histogram.Valid() && histogram.samples == Latencies(tally.carried + [c])
      ensures errors == tally.(carried := tally.carried + [c]).Errors()
    {
      hide Of, Ended, Latencies, Histogram.View;
      SampleSnoc(tally.carried, c);
      ErrorsSnoc(tally.carried, c);
      match outcome {
        case Succeeded =>
          histogram.Record(fromDue);
        case Rejected =>
          errors := errors.(rejected := errors.rejected + 1);
          histogram.Record(fromDue);
        case TimedOut =>
          errors := errors.(timeout := errors.timeout + 1);
          histogram.Record(fromDue);
        case ProtocolError => errors := errors.(protocol := errors.protocol + 1);
        case ReadFailed => errors := errors.(read := errors.read + 1);
        case WriteFailed => errors := errors.(write := errors.write + 1);
      }
    }

    /** The accounting half of a turn.  Both clock assumptions are needed: without them a recorded
        duration could be negative, which Record forbids. */
    method Account(due: int, freeAt: int, sending: int, result: Exchange)
      requires Valid() && due >= plan.recordFrom
      requires freeAt <= sending && due <= sending
      modifies this, histogram, histogram.slots, lag, lag.slots
      modifies connectionWait, connectionWait.slots, rigLag, rigLag.slots
      ensures Valid()
      ensures tally == old(tally).(carried := old(tally).carried + [Carriage(due, freeAt, sending, result)])
    {
      hide Of, Lags, Waits, Rigs, Latencies;
      ghost var c := Carriage(due, freeAt, sending, result);
      attempted := attempted + 1;
      RecordLateness(due, freeAt, sending, c);
      RecordOutcome(result.outcome, sending - due + result.elapsed, c);
      tally := tally.(carried := tally.carried + [c]);
    }

    /** No connection, no request: past the warm-up boundary the turn still counts as an attempt. */
    method Refuse(failedAt: int)
      requires Valid()
      modifies this
      ensures Valid() && tally == Refused(plan, old(tally), failedAt)
    {
      if failedAt >= plan.recordFrom {
        attempted := attempted + 1;
        errors := errors.(connect := errors.connect + 1);
      }
      tally := Refused(plan, tally, failedAt);
    }

    method Open()
      requires Valid() && !tally.socket
      modifies this
      ensures Valid() && tally == Opened(old(tally))
    {
      connectionsOpened := connectionsOpened + 1;
      tally := Opened(tally);
    }

    /** The exchange itself: accounted for when its slot is measured, and deciding whether the socket
        survives. */
    method Serve(due: int, r: Reading)
      requires Valid() && due == Due(plan, r.slot) && CarriageOf(plan, r).Clocked()
      modifies this, histogram, histogram.slots, lag, lag.slots
      modifies connectionWait, connectionWait.slots, rigLag, rigLag.slots
      ensures Valid() && tally == Served(plan, old(tally), CarriageOf(plan, r))
    {
      hide Of, Lags, Waits, Rigs, Latencies, Histogram.Valid, Histogram.View, ErrorsOf;
      if due >= plan.recordFrom {
        Account(due, r.freeAt, r.sending, r.result);
      }
      tally := tally.(socket := tally.socket && r.result.usable);
    }

    /** The worker's whole life: `readings` is what its environment answers, one per turn of the
        loop, up to the turn at which it returns. */
    method Run(readings: seq<Reading>)
      requires Valid() && tally == FRESH
      requires Drive(plan, readings).1
      requires forall i :: 0 <= i < |readings| ==> CarriageOf(plan, readings[i]).Clocked()
      modifies this, histogram, histogram.slots, lag, lag.slots
      modifies connectionWait, connectionWait.slots, rigLag, rigLag.slots
      ensures Valid() && tally == Drive(plan, readings).0
    {
      hide Valid, DueAt;
      var socket := false;
      var turn := 0;
      while true
        invariant turn <= |readings| && Valid()
        invariant Drive(plan, readings[..turn]) == (tally, false)
        invariant socket == tally.socket
        decreases |readings| - turn
      {
        OneTurn(plan, readings, turn);
        var r := readings[turn];
        turn := turn + 1;
        if r.now >= plan.deadline {
          return;
        }
        if !socket {
          if !r.connects {
            Refuse(r.failedAt);
            continue;
          }
          Open();
          socket := true;
        }
        var due := SlotDue(plan.rate, plan.recordFrom, r.slot);
        if due >= plan.deadline {
          return;
        }
        Serve(due, r);
        if !r.result.usable {
          socket := false;
        }
      }
    }
  }

  ghost function TalliesOf(workers: seq<OpenLoopWorker>): seq<Local>
    reads workers
  {
    seq(|workers|, i requires 0 <= i < |workers| reads workers => workers[i].tally)
  }

  /** A finished run: every worker's books folded into one, after the join. */
  class OpenLoopRun {
    const plan: Plan
    const histogram: Histogram
    const scheduleLag: Histogram
    const connectionWait: Histogram
    const rigLag: Histogram
    var errors: ErrorCounts
    var attempted: nat
    var latency: Option<Summary>
    var connectionsOpened: nat
    var connectionsRequested: nat
    var connectionsStarted: nat
    var slotsClaimed: nat
    var slotsDue: nat

    ghost var locals: seq<Local>

    ghost predicate Merged()
      reads this, histogram, histogram.slots, scheduleLag, scheduleLag.slots
      reads connectionWait, connectionWait.slots, rigLag, rigLag.slots
    {
      && Apart(histogram, scheduleLag, connectionWait, rigLag)
      && histogram.Valid() && scheduleLag.Valid() && connectionWait.Valid() && rigLag.Valid()
      && histogram.samples == Latencies(Carried(locals))
      && scheduleLag.samples == Lags(Carried(locals))
      && connectionWait.samples == Waits(Carried(locals))
      && rigLag.samples == Rigs(Carried(locals))
      && errors == ErrorsByAll(locals) && attempted == AttemptedByAll(locals)
      && connectionsOpened == OpensByAll(locals)
    }

    function Result(): RunResult
      requires plan.deadline > plan.recordFrom
      reads this
    {
      RunResult(attempted, errors, latency, plan.deadline - plan.recordFrom)
    }

    ghost predicate Foreign(h: Histogram) {
      && h != histogram && h != scheduleLag && h != connectionWait && h != rigLag
      && h.slots != histogram.slots && h.slots != scheduleLag.slots
      && h.slots != connectionWait.slots && h.slots != rigLag.slots
    }

    ghost predicate Workable(worker: OpenLoopWorker)
      reads worker, worker.histogram, worker.histogram.slots, worker.lag, worker.lag.slots
      reads worker.connectionWait, worker.connectionWait.slots, worker.rigLag, worker.rigLag.slots
    {
      && worker.Valid() && Foreign(worker.histogram) && Foreign(worker.lag)
      && Foreign(worker.connectionWait) && Foreign(worker.rigLag)
    }

    method MergeTimings(worker: OpenLoopWorker)
      requires Apart(histogram, scheduleLag, connectionWait, rigLag)
      requires histogram.Valid() && scheduleLag.Valid() && connectionWait.Valid() && rigLag.Valid()
      requires Workable(worker)
      modifies histogram, histogram.slots, scheduleLag, scheduleLag.slots
      modifies connectionWait, connectionWait.slots, rigLag, rigLag.slots
      ensures histogram.Valid() && scheduleLag.Valid() && connectionWait.Valid() && rigLag.Valid()
      ensures histogram.samples == old(histogram.samples) + Latencies(worker.tally.carried)
      ensures scheduleLag.samples == old(scheduleLag.samples) + Lags(worker.tally.carried)
      ensures connectionWait.samples == old(connectionWait.samples) + Waits(worker.tally.carried)
      ensures rigLag.samples == old(rigLag.samples) + Rigs(worker.tally.carried)
      ensures Workable(worker)
    {
      hide Histogram.Valid, Latencies, Lags, Waits, Rigs;
      histogram.Merge(worker.histogram);
      scheduleLag.Merge(worker.lag);
      connectionWait.Merge(worker.connectionWait);
      rigLag.Merge(worker.rigLag);
    }

    method Absorb(worker: OpenLoopWorker)
      requires Merged() && Workable(worker)
      modifies this, histogram, histogram.slots, scheduleLag, scheduleLag.slots
      modifies connectionWait, connectionWait.slots, rigLag, rigLag.slots
      ensures Merged() && Workable(worker) && locals == old(locals) + [worker.tally]
      ensures connectionsRequested == old(connectionsRequested)
    {
      hide Histogram.Valid, Latencies, Lags, Waits, Rigs, Carried, ErrorsByAll, AttemptedByAll, OpensByAll;
      hide Local.Errors, Local.Attempted, ErrorCounts.Merge;
      MergeOne(locals, worker.tally);
      MergeTimings(worker);
      errors := errors.Merge(worker.errors);
      attempted := attempted + worker.attempted;
      connectionsOpened := connectionsOpened + worker.connectionsOpened;
      locals := locals + [worker.tally];
    }

    constructor (plan: Plan, connections: nat)
      ensures this.plan == plan && Merged() && locals == [] && connectionsRequested == connections
      ensures fresh(histogram) && fresh(histogram.slots) && fresh(scheduleLag) && fresh(scheduleLag.slots)
      ensures fresh(connectionWait) && fresh(connectionWait.slots) && fresh(rigLag) && fresh(rigLag.slots)
    {
      this.plan := plan;
      histogram := new Histogram();
      scheduleLag := new Histogram();
      connectionWait := new Histogram();
      rigLag := new Histogram();
      errors, attempted, connectionsOpened := NO_ERRORS, 0, 0;
      connectionsRequested, connectionsStarted := connections, 0;
      latency, slotsClaimed, slotsDue := None, 0, 0;
      locals := [];
    }

    method AbsorbAll(workers: seq<OpenLoopWorker>)
      requires Merged() && locals == []
      requires forall i :: 0 <= i < |workers| ==> Workable(workers[i])
      modifies this, histogram, histogram.slots, scheduleLag, scheduleLag.slots
      modifies connectionWait, connectionWait.slots, rigLag, rigLag.slots
      ensures Merged() && locals == TalliesOf(workers) && connectionsRequested == old(connectionsRequested)
    {
      hide Merged, OpenLoopWorker.Valid, Histogram.Valid;
      for i := 0 to |workers|
        invariant Merged() && locals == TalliesOf(workers)[..i]
        invariant connectionsRequested == old(connectionsRequested)
        invariant forall k :: 0 <= k < |workers| ==> Workable(workers[k])
      {
        assert TalliesOf(workers)[..i + 1] == TalliesOf(workers)[..i] + [workers[i].tally];
        Absorb(workers[i]);
      }
    }

    /** After the join: fold in every worker.  What the run reports is exactly what the workers
        recorded, and the accounts balance. */
    method Collect(workers: seq<OpenLoopWorker>, schedule: Schedule)
      requires plan.deadline > plan.recordFrom && Merged() && locals == []
      requires forall i :: 0 <= i < |workers| ==> Workable(workers[i])
      modifies this, histogram, histogram.slots, scheduleLag, scheduleLag.slots
      modifies connectionWait, connectionWait.slots, rigLag, rigLag.slots
      ensures connectionsRequested == old(connectionsRequested)
      ensures Result() == RunResult(attempted, errors, latency, plan.deadline - plan.recordFrom)
      ensures Merged() && locals == TalliesOf(workers)
      ensures slotsClaimed == schedule.Claimed() && connectionsStarted == |workers|
      ensures slotsDue == SlotsDue(plan.rate, plan.deadline - plan.recordFrom)
      ensures Result().Consistent()
      ensures attempted == (if latency.Some? then latency.value.samples else 0)
                           + errors.connect + errors.write + errors.read + errors.protocol
      ensures latency.None? <==> Latencies(Carried(locals)) == []
    {
      hide Merged, Workable, SlotsDue, Carried, Latencies, RunResult.Consistent;
      AbsorbAll(workers);
      Conclude(|workers|, schedule.Claimed());
    }

    method Conclude(started: nat, claimed: nat)
      requires plan.deadline > plan.recordFrom && Merged()
      modifies `latency, `connectionsStarted, `slotsClaimed, `slotsDue
      ensures Merged() && connectionsStarted == started && slotsClaimed == claimed
      ensures slotsDue == SlotsDue(plan.rate, plan.deadline - plan.recordFrom)
      ensures Result().Consistent()
      ensures attempted == (if latency.Some? then latency.value.samples else 0)
                           + errors.connect + errors.write + errors.read + errors.protocol
      ensures latency.None? <==> Latencies(Carried(locals)) == []
    {
      hide Apart, Lags, Waits, Rigs, Latencies, Carried, ErrorsByAll, AttemptedByAll, OpensByAll;
      hide Histogram.Valid, AtRank, TopClear, Rank, Of, SlotsDue;
      latency := Summarise(histogram, plan.deadline - plan.recordFrom);
      connectionsStarted := started;
      slotsClaimed := claimed;
      slotsDue := SlotsDue(plan.rate, plan.deadline - plan.recordFrom);
      RunBalances(locals);
    }

    /** The verdict on the sender: its median rig lag is short of ten intervals, or it had none. */
    method SenderKeptUp() returns (kept: bool)
      requires Merged()
      ensures kept == KeptUp(Rigs(Carried(locals)), plan.rate)
    {
      CountIsLength(rigLag.samples);
      if rigLag.count == 0 {
        return true;
      }
      var median := rigLag.Percentile(50.0);
      return median.Some? && median.value < Interval(plan.rate) * 10;
    }

    /** The verdict on the pool: the median wait for a connection reaches ten intervals. */
    method ConnectionsSaturated() returns (saturated: bool)
      requires Merged()
      ensures saturated == !KeptUp(Waits(Carried(locals)), plan.rate)
    {
      CountIsLength(connectionWait.samples);
      if connectionWait.count == 0 {
        return false;
      }
      var median := connectionWait.Percentile(50.0);
      return median.Some? && median.value >= Interval(plan.rate) * 10;
    }
  }

  /** The run object and the system of workers tell the same story: when the books collected and the
      slots claimed are those of a finished run, attempts less connect failures are exactly the claimed
      slots that came due before the deadline. */
  lemma CollectedRunConserves(run: OpenLoopRun, n: nat, states: seq<State>, actions: seq<Action>)
    requires run.Merged() && IsRun(run.plan, n, states, actions) && Finished(states[|actions|])
    requires run.locals == Locals(states[|actions|].workers) && run.slotsClaimed == states[|actions|].next
    ensures run.attempted - run.errors.connect == DueBefore(run.plan, run.slotsClaimed)
    ensures AllClocked(Carried(run.locals))
  {
    hide Histogram.Valid, Carried, Lags, Waits, Rigs, Latencies, IsRun, Finished;
    AccountsSettle(run.plan, n, states, actions);
  }

  lemma {:induction false} StoppedStays(plan: Plan, readings: seq<Reading>, n: nat)
    requires n <= |readings| && Drive(plan, readings[..n]).1
    ensures Drive(plan, readings) == Drive(plan, readings[..n])
    decreases |readings|
  {
    if n < |readings| {
      var front := readings[..|readings| - 1];
      assert front[..n] == readings[..n];
      StoppedStays(plan, front, n);
    } else {
      assert readings[..n] == readings;
    }
  }

  lemma OneTurn(plan: Plan, readings: seq<Reading>, turn: nat)
    requires Drive(plan, readings).1 && turn <= |readings| && !Drive(plan, readings[..turn]).1
    ensures turn < |readings|
    ensures Drive(plan, readings[..turn + 1]) == Turn(plan, Drive(plan, readings[..turn]).0, readings[turn])
    ensures Drive(plan, readings[..turn + 1]).1 ==> Drive(plan, readings) == Drive(plan, readings[..turn + 1])
  {
    assert readings[..|readings|] == readings;
    assert readings[..turn + 1] == readings[..turn] + [readings[turn]];
    DriveSnoc(plan, readings[..turn], readings[turn]);
    if Drive(plan, readings[..turn + 1]).1 {
      StoppedStays(plan, readings, turn + 1);
    }
  }
}
