/** src/load/worker.cpp and closed_loop.cpp as a system of N workers, each sending its next request
    when the last one is over, and all feeding one per-second series. */
module ClosedLoop {
  import opened Tallies
  import opened RunResults
  import opened Accounts
  import TS = TimeSeries

  datatype Plan = Plan(recordFrom: int, deadline: int, timeseries: bool)

  // ----- One worker's loop, driven by what it reads -----

  datatype Reading = Reading(now: int, connects: bool, result: Exchange, recordedAt: int)

  /** A closed-loop request is due the moment it is sent, so all of its latency is the exchange. */
  function Prompt(now: int, result: Exchange): Carriage {
    Carriage(now, now, now, result)
  }

  function Refused(plan: Plan, local: Local, now: int): Local {
    if now >= plan.recordFrom then local.(refused := local.refused + 1) else local
  }

  function Served(plan: Plan, local: Local, now: int, result: Exchange): Local {
    local.(socket := local.socket && result.usable,
           carried := if now >= plan.recordFrom then local.carried + [Prompt(now, result)] else local.carried)
  }

  function Turn(plan: Plan, local: Local, r: Reading): (Local, bool) {
    if r.now >= plan.deadline then (local, true)
    else if !local.socket && !r.connects then (Refused(plan, local, r.now), false)
    else (Served(plan, Opened(local), r.now, r.result), false)
  }

  function Drive(plan: Plan, turns: seq<Reading>): (Local, bool) {
    if turns == [] then (FRESH, false)
    else
      var (local, stopped) := Drive(plan, turns[..|turns| - 1]);
      if stopped then (local, true) else Turn(plan, local, turns[|turns| - 1])
  }

  lemma DriveSnoc(plan: Plan, turns: seq<Reading>, r: Reading)
    requires !Drive(plan, turns).1
    ensures Drive(plan, turns + [r]) == Turn(plan, Drive(plan, turns).0, r)
  {
    assert (turns + [r])[..|turns|] == turns;
  }

  /** Every exchange of a worker, measured or not, with the connection it went out on. */
  function Uses(plan: Plan, turns: seq<Reading>): seq<Use> {
    if turns == [] then []
    else
      var front, r := turns[..|turns| - 1], turns[|turns| - 1];
      var (local, stopped) := Drive(plan, front);
      if stopped || r.now >= plan.deadline || (!local.socket && !r.connects) then Uses(plan, front)
      else Uses(plan, front) + [Use(Opened(local).opens, r.result)]
  }

  /** Whatever the turns read, a connection that an exchange left unusable carries no further
      request. */
  lemma {:induction false} UnusableIsDropped(plan: Plan, turns: seq<Reading>)
    ensures InStep(Drive(plan, turns).0, Uses(plan, turns))
  {
    hide InStep;
    if turns == [] {
      assert InStep(FRESH, []) by { NothingUsed(); }
    } else {
      var front, r := turns[..|turns| - 1], turns[|turns| - 1];
      UnusableIsDropped(plan, front);
      var local := Drive(plan, front).0;
      if Uses(plan, turns) != Uses(plan, front) {
        UsedOnce(local, Uses(plan, front), Drive(plan, turns).0, r.result);
      } else {
        StillInStep(local, Drive(plan, turns).0, Uses(plan, front));
      }
    }
  }

  /** Turns of the loop that began inside the measured window. */
  function MeasuredTurns(plan: Plan, turns: seq<Reading>): nat {
    if turns == [] then 0
    else
      MeasuredTurns(plan, turns[..|turns| - 1])
      + if plan.recordFrom <= turns[|turns| - 1].now < plan.deadline then 1 else 0
  }

  /** Warm-up means one thing: what starts in the measured window counts, once, as an attempt;
      what starts before it or after the deadline leaves no trace at all. */
  lemma {:induction false} AttemptsAreMeasuredTurns(plan: Plan, turns: seq<Reading>)
    requires turns == [] || !Drive(plan, turns[..|turns| - 1]).1
    ensures Drive(plan, turns).0.Attempted() == MeasuredTurns(plan, turns)
    ensures forall i :: 0 <= i < |Drive(plan, turns).0.carried| ==>
              plan.recordFrom <= Drive(plan, turns).0.carried[i].sending < plan.deadline
  {
    if turns != [] {
      var front := turns[..|turns| - 1];
      assert front == [] || !Drive(plan, front[..|front| - 1]).1;
      AttemptsAreMeasuredTurns(plan, front);
    }
  }

  // ----- What a worker's turns add up to -----

  /** Has the worker returned, is its socket open: read off the turns alone. */
  datatype Standing = Standing(over: bool, open: bool)

  function Stand(plan: Plan, turns: seq<Reading>): Standing {
    if turns == [] then Standing(false, false)
    else
      var before, r := Stand(plan, turns[..|turns| - 1]), turns[|turns| - 1];
      if before.over then before
      else if r.now >= plan.deadline then before.(over := true)
      else if !before.open && !r.connects then before
      else Standing(false, r.result.usable)
  }

  /** Turns begun after warm-up that failed to connect. */
  function RefusedTurns(plan: Plan, turns: seq<Reading>): nat {
    if turns == [] then 0
    else
      var front, r := turns[..|turns| - 1], turns[|turns| - 1];
      var s := Stand(plan, front);
      RefusedTurns(plan, front)
      + if !s.over && plan.recordFrom <= r.now < plan.deadline && !s.open && !r.connects then 1 else 0
  }

  function ConnectedTurns(plan: Plan, turns: seq<Reading>): nat {
    if turns == [] then 0
    else
      var front, r := turns[..|turns| - 1], turns[|turns| - 1];
      var s := Stand(plan, front);
      ConnectedTurns(plan, front) + if !s.over && r.now < plan.deadline && !s.open && r.connects then 1 else 0
  }

  /** What the turns begun after warm-up exchanged, in order. */
  function MeasuredResults(plan: Plan, turns: seq<Reading>): seq<Exchange> {
    if turns == [] then []
    else
      var front, r := turns[..|turns| - 1], turns[|turns| - 1];
      var s := Stand(plan, front);
      MeasuredResults(plan, front)
      + if !s.over && plan.recordFrom <= r.now < plan.deadline && (s.open || r.connects) then [r.result] else []
  }

  function Results(cs: seq<Carriage>): seq<Exchange> {
    seq(|cs|, i requires 0 <= i < |cs| => cs[i].result)
  }

  /** A worker's books, counted off its turns; and every latency in them is the exchange's own time. */
  lemma {:induction false} BooksAreTurns(plan: Plan, turns: seq<Reading>)
    ensures var (local, stopped) := Drive(plan, turns);
            && stopped == Stand(plan, turns).over && local.socket == Stand(plan, turns).open
            && local.refused == RefusedTurns(plan, turns) && local.opens == ConnectedTurns(plan, turns)
            && Results(local.carried) == MeasuredResults(plan, turns)
            && forall i :: 0 <= i < |local.carried| ==>
                 local.carried[i].Latency() == local.carried[i].result.elapsed
  {
    if turns != [] {
      var front, r := turns[..|turns| - 1], turns[|turns| - 1];
      BooksAreTurns(plan, front);
      var before, after := Drive(plan, front).0.carried, Drive(plan, turns).0.carried;
      if after != before {
        assert after == before + [Prompt(r.now, r.result)];
        assert Results(after) == Results(before) + [r.result];
      }
    }
  }

  // ----- What the per-second series is told -----

  predicate Tells(plan: Plan, now: int, result: Exchange) {
    plan.timeseries && now >= plan.recordFrom && Timed(result.outcome)
  }

  datatype Telling = Telling(shared: seq<Tally>, writing: TS.Writing)

  function TellOne(plan: Plan, at: Telling, recordedAt: int, elapsed: nat): Telling {
    var second := TS.SecondOf(plan.recordFrom, recordedAt);
    Telling(TS.SharedAfterRecord(at.shared, at.writing, second), TS.AfterRecord(at.writing, second, elapsed))
  }

  /** One turn as the series sees it when nobody else is telling it anything. */
  function Tell(plan: Plan, local: Local, at: Telling, r: Reading): Telling {
    if r.now >= plan.deadline || (!local.socket && !r.connects) || !Tells(plan, r.now, r.result) then at
    else TellOne(plan, at, r.recordedAt, r.result.elapsed)
  }

  function Told(plan: Plan, turns: seq<Reading>, at: Telling): Telling {
    if turns == [] then at
    else
      var front := turns[..|turns| - 1];
      if Drive(plan, front).1 then Told(plan, front, at)
      else Tell(plan, Drive(plan, front).0, Told(plan, front, at), turns[|turns| - 1])
  }

  // ----- N workers and one series -----

  datatype Pc = Top | Connecting | Exchanging | Done

  datatype Worker = Worker(pc: Pc, local: Local, reading: Reading, turns: seq<Reading>)

  datatype State = State(now: int, series: TS.State, workers: seq<Worker>)

  datatype Action =
    | Tick(to: int)                      // time passes
    | Enter(w: nat)                      // top of the loop: one clock read
    | Connect(w: nat, ok: bool)
    | Finish(w: nat, result: Exchange)   // the exchange returns; account for it, tell the series
    | Flush(w: nat)                      // after the join, on the merging thread

  const NOTHING: Exchange := Exchange(WriteFailed, 0, false)

  function Blank(now: int): Reading {
    Reading(now, false, NOTHING, now)
  }

  function Start(plan: Plan, now: int, n: nat): State {
    State(now, TS.Start(plan.recordFrom, n), seq(n, _ => Worker(Top, FRESH, Blank(now), [])))
  }

  ghost predicate Joined(s: State) {
    forall i :: 0 <= i < |s.workers| ==> s.workers[i].pc.Done?
  }

  ghost predicate Enabled(s: State, a: Action) {
    if a.Tick? then s.now <= a.to
    else
      && a.w < |s.workers| == |s.series.writers|
      && match a
         case Enter(w) => s.workers[w].pc.Top?
         case Connect(w, _) => s.workers[w].pc.Connecting?
         case Finish(w, result) => s.workers[w].pc.Exchanging? && s.workers[w].reading.now + result.elapsed <= s.now
         case Flush(_) => Joined(s)
         case Tick(_) => true
  }

  function EndTurn(w: Worker, pc: Pc, r: Reading): Worker {
    w.(pc := pc, turns := w.turns + [r])
  }

  function Step(plan: Plan, now: int, w: Worker, a: Action): Worker {
    match a
    case Enter(_) =>
      if now >= plan.deadline then EndTurn(w, Done, Blank(now))
      else w.(reading := Blank(now), pc := if w.local.socket then Exchanging else Connecting)
    case Connect(_, ok) =>
      if ok then w.(pc := Exchanging, local := Opened(w.local), reading := w.reading.(connects := true))
      else EndTurn(w.(local := Refused(plan, w.local, w.reading.now)), Top, w.reading)
    case Finish(_, result) =>
      EndTurn(w.(local := Served(plan, w.local, w.reading.now, result)), Top,
              w.reading.(result := result, recordedAt := now))
    case _ => w
  }

  function SeriesAfter(plan: Plan, s: State, a: Action): TS.State
    requires !a.Tick? ==> a.w < |s.workers| == |s.series.writers|
  {
    match a
    case Finish(w, result) =>
      if Tells(plan, s.workers[w].reading.now, result)
      then TS.Apply(s.series, TS.Record(w, s.now, result.elapsed))
      else s.series
    case Flush(w) => if plan.timeseries then TS.Apply(s.series, TS.Flush(w)) else s.series
    case _ => s.series
  }

  ghost function Apply(plan: Plan, s: State, a: Action): State
    requires Enabled(s, a)
  {
    if a.Tick? then s.(now := a.to)
    else State(s.now, SeriesAfter(plan, s, a), s.workers[a.w := Step(plan, s.now, s.workers[a.w], a)])
  }

  ghost predicate IsRun(plan: Plan, n: nat, states: seq<State>, actions: seq<Action>) {
    && |states| == |actions| + 1
    && states[0] == Start(plan, states[0].now, n)
    && forall i :: 0 <= i < |actions| ==>
         Enabled(states[i], actions[i]) && states[i + 1] == Apply(plan, states[i], actions[i])
  }

  // ----- What every step keeps -----

  ghost predicate WorkerInv(plan: Plan, w: Worker) {
    var (local, stopped) := Drive(plan, w.turns);
    && stopped == w.pc.Done?
    && (if w.pc.Exchanging? then w.local == Opened(local) && (local.socket || w.reading.connects)
        else w.local == local)
    && (w.pc.Connecting? ==> !w.local.socket && !w.reading.connects)
    && (w.pc.Connecting? || w.pc.Exchanging? ==> w.reading.now < plan.deadline)
    && (w.turns == [] || !Drive(plan, w.turns[..|w.turns| - 1]).1)
  }

  function Books(workers: seq<Worker>): seq<Tally> {
    seq(|workers|, i requires 0 <= i < |workers| => Of(Latencies(workers[i].local.carried)))
  }

  ghost predicate ViewsAgree(plan: Plan, s: State) {
    plan.timeseries ==> Of(TS.Latencies(s.series.history)) == JoinAll(Books(s.workers))
  }

  ghost predicate Inv(plan: Plan, s: State) {
    && |s.series.writers| == |s.workers| && s.series.start == plan.recordFrom
    && (forall i :: 0 <= i < |s.workers| ==> WorkerInv(plan, s.workers[i]))
    && TS.Inv(s.series)
    && ViewsAgree(plan, s)
  }

  lemma StepKeepsWorker(plan: Plan, now: int, w: Worker, a: Action)
    requires WorkerInv(plan, w)
    requires match a
             case Enter(_) => w.pc.Top?
             case Connect(_, _) => w.pc.Connecting?
             case Finish(_, _) => w.pc.Exchanging?
             case _ => true
    ensures WorkerInv(plan, Step(plan, now, w, a))
  {
    hide Served, Refused, Drive, Opened;
    if w.local.socket {
      OpenStaysOpened(w.local);
    }
    var after := Step(plan, now, w, a);
    if after.turns != w.turns {
      var r := after.turns[|w.turns|];
      assert after.turns == w.turns + [r] && after.turns[..|w.turns|] == w.turns;
      DriveSnoc(plan, w.turns, r);
    }
  }

  lemma OtherStepsKeepBooks(plan: Plan, now: int, w: Worker, a: Action)
    requires !a.Finish?
    ensures Step(plan, now, w, a).local.carried == w.local.carried
  {
  }

  lemma PromptSample(cs: seq<Carriage>, now: int, result: Exchange)
    ensures var c := Prompt(now, result);
            Latencies(cs + [c]) == if Timed(result.outcome) then Latencies(cs) + [result.elapsed] else Latencies(cs)
  {
    assert (cs + [Prompt(now, result)])[..|cs|] == cs;
  }

  lemma FinishAddsToBooks(plan: Plan, w: Worker, now: int, a: Action)
    requires a.Finish?
    ensures var before, after := w.local.carried, Step(plan, now, w, a).local.carried;
            Of(Latencies(after))
            == if w.reading.now >= plan.recordFrom && Timed(a.result.outcome)
               then Plus(Of(Latencies(before)), a.result.elapsed) else Of(Latencies(before))
  {
    hide Of, Plus, Latencies;
    if w.reading.now >= plan.recordFrom {
      PromptSample(w.local.carried, w.reading.now, a.result);
      OfSnoc(Latencies(w.local.carried), a.result.elapsed);
    }
  }

  lemma ToldOneMore(s: TS.State, a: TS.Action)
    requires TS.Enabled(s, a)
    ensures var before, after := TS.Latencies(s.history), TS.Latencies(TS.Apply(s, a).history);
            after == if a.Record? then before + [a.latency] else before
  {
  }

  lemma StepKeepsViews(plan: Plan, s: State, a: Action)
    requires Inv(plan, s) && Enabled(s, a) && !a.Tick?
    ensures ViewsAgree(plan, Apply(plan, s, a))
  {
    hide Of, JoinAll, Join, Latencies, Plus, TS.Latencies, TS.Apply, TS.Inv, WorkerInv, Step;
    var w := s.workers[a.w];
    var after := Step(plan, s.now, w, a);
    var books := Books(s.workers);
    assert Books(s.workers[a.w := after]) == books[a.w := Of(Latencies(after.local.carried))];
    if a.Finish? {
      FinishAddsToBooks(plan, w, s.now, a);
      if Tells(plan, w.reading.now, a.result) {
        ToldOneMore(s.series, TS.Record(a.w, s.now, a.result.elapsed));
        OneMoreInTotal(books, a.w, a.result.elapsed, TS.Latencies(s.series.history));
      } else if plan.timeseries {
        assert books[a.w := books[a.w]] == books;
      }
    } else {
      OtherStepsKeepBooks(plan, s.now, w, a);
      assert books[a.w := books[a.w]] == books;
      if a.Flush? {
        ToldOneMore(s.series, TS.Flush(a.w));
      }
    }
  }

  lemma OneMoreInTotal(books: seq<Tally>, i: nat, v: nat, told: seq<nat>)
    requires i < |books| && Of(told) == JoinAll(books)
    ensures Of(told + [v]) == JoinAll(books[i := Plus(books[i], v)])
  {
    hide Of, JoinAll, Join, Plus;
    OfSnoc(told, v);
    PlusIsJoin(Of(told), v);
    PlusIsJoin(books[i], v);
    JoinAllAdds(books, i, Plus(Zero(), v));
  }

  lemma StepKeepsInv(plan: Plan, s: State, a: Action)
    requires Inv(plan, s) && Enabled(s, a)
    ensures Inv(plan, Apply(plan, s, a)) && |Apply(plan, s, a).workers| == |s.workers|
  {
    hide TS.Inv, TS.Apply, Of, WorkerInv, Step, Books;
    if !a.Tick? {
      var w := s.workers[a.w];
      StepKeepsViews(plan, s, a);
      StepKeepsWorker(plan, s.now, w, a);
      if SeriesAfter(plan, s, a) != s.series {
        var told := if a.Finish?
                    then TS.Record(a.w, s.now, a.result.elapsed)
                    else TS.Flush(a.w);
        TS.StepKeepsInv(s.series, told);
      }
    }
  }

  lemma StartInv(plan: Plan, now: int, n: nat)
    ensures Inv(plan, Start(plan, now, n))
  {
    hide TS.Inv;
    TS.StartInv(plan.recordFrom, n);
    assert Books(Start(plan, now, n).workers) == seq(n, _ => Zero());
    JoinAllZeros(n);
  }

  lemma {:induction false} RunKeepsInv(plan: Plan, n: nat, states: seq<State>, actions: seq<Action>, i: nat)
    requires IsRun(plan, n, states, actions) && i < |states|
    ensures Inv(plan, states[i]) && |states[i].workers| == n
  {
    hide Inv;
    if i == 0 {
      StartInv(plan, states[0].now, n);
    } else {
      RunKeepsInv(plan, n, states, actions, i - 1);
      assert states[i] == Apply(plan, states[i - 1], actions[i - 1]);
      StepKeepsInv(plan, states[i - 1], actions[i - 1]);
    }
  }

  // ----- Books and series, read off the run -----

  /** When worker w last began a turn, among the first i actions. */
  function LastEnter(states: seq<State>, actions: seq<Action>, w: nat, i: nat): int
    requires i <= |actions| && i <= |states|
  {
    if i == 0 then 0
    else if actions[i - 1] == Enter(w) then states[i - 1].now
    else LastEnter(states, actions, w, i - 1)
  }

  /** Every exchange of worker w that began after warm-up and finished. */
  function FinishedBy(plan: Plan, states: seq<State>, actions: seq<Action>, w: nat, i: nat): seq<Exchange>
    requires i <= |actions| && i <= |states|
  {
    if i == 0 then []
    else
      var a := actions[i - 1];
      FinishedBy(plan, states, actions, w, i - 1)
      + if a.Finish? && a.w == w && LastEnter(states, actions, w, i - 1) >= plan.recordFrom then [a.result] else []
  }

  /** Every success, rejection and timeout of any worker that began after warm-up, with the instant it
      finished at. */
  function TimedFinishes(plan: Plan, states: seq<State>, actions: seq<Action>, i: nat): seq<TS.Entry>
    requires i <= |actions| && i <= |states|
  {
    if i == 0 then []
    else
      var a := actions[i - 1];
      TimedFinishes(plan, states, actions, i - 1)
      + if a.Finish? && LastEnter(states, actions, a.w, i - 1) >= plan.recordFrom
           && a.result.outcome in [Succeeded, Rejected, TimedOut]
        then [TS.Entry(states[i - 1].now, a.result.elapsed)] else []
  }

  ghost predicate Timely(plan: Plan, states: seq<State>, actions: seq<Action>, w: nat, i: nat)
    requires i <= |actions| && i < |states| && w < |states[i].workers|
  {
    var worker := states[i].workers[w];
    && (worker.pc.Connecting? || worker.pc.Exchanging? ==> worker.reading.now == LastEnter(states, actions, w, i))
    && Results(worker.local.carried) == FinishedBy(plan, states, actions, w, i)
  }

  lemma StepIsTimely(plan: Plan, states: seq<State>, actions: seq<Action>, w: nat, i: nat)
    requires i < |actions| && i + 1 < |states| && w < |states[i].workers|
    requires Enabled(states[i], actions[i]) && states[i + 1] == Apply(plan, states[i], actions[i])
    requires Timely(plan, states, actions, w, i)
    ensures Timely(plan, states, actions, w, i + 1)
  {
    hide SeriesAfter;
    var a, worker := actions[i], states[i].workers[w];
    if !a.Tick? && a.w == w {
      match a
      case Enter(_) =>
      case Connect(_, _) =>
      case Finish(_, result) =>
        ResultsSnoc(worker.local.carried, Prompt(worker.reading.now, result));
      case Flush(_) =>
    }
  }

  lemma ResultsSnoc(cs: seq<Carriage>, c: Carriage)
    ensures Results(cs + [c]) == Results(cs) + [c.result]
  {
  }

  lemma StepTellsFinishes(plan: Plan, states: seq<State>, actions: seq<Action>, i: nat)
    requires i < |actions| && i + 1 < |states|
    requires Enabled(states[i], actions[i]) && states[i + 1] == Apply(plan, states[i], actions[i])
    requires actions[i].Finish? ==> Timely(plan, states, actions, actions[i].w, i)
    requires plan.timeseries && states[i].series.history == TimedFinishes(plan, states, actions, i)
    ensures states[i + 1].series.history == TimedFinishes(plan, states, actions, i + 1)
  {
    hide Step, FinishedBy, Results, TS.SharedAfterRecord, TS.SharedAfterFlush, TS.AfterRecord, TS.AfterFlush;
  }

  /** What is recorded, in every reachable state, is what the run did: each worker's exchanges that
      began after warm-up, and in the series each of them that was timed, at the instant it finished. */
  lemma {:induction false} RecordedIsWhatHappened(plan: Plan, n: nat, states: seq<State>, actions: seq<Action>, i: nat)
    requires IsRun(plan, n, states, actions) && i < |states|
    ensures |states[i].workers| == n
    ensures forall w :: 0 <= w < n ==> Timely(plan, states, actions, w, i)
    ensures plan.timeseries ==> states[i].series.history == TimedFinishes(plan, states, actions, i)
  {
    hide Timely, Inv, Enabled, Apply, TimedFinishes;
    RunKeepsInv(plan, n, states, actions, i);
    if i == 0 {
      StartIsTimely(plan, n, states, actions);
    } else {
      RecordedIsWhatHappened(plan, n, states, actions, i - 1);
      RunKeepsInv(plan, n, states, actions, i - 1);
      assert states[i] == Apply(plan, states[i - 1], actions[i - 1]);
      forall w | 0 <= w < n ensures Timely(plan, states, actions, w, i) {
        StepIsTimely(plan, states, actions, w, i - 1);
      }
      ActsOnWorker(states[i - 1], actions[i - 1]);
      if plan.timeseries {
        StepTellsFinishes(plan, states, actions, i - 1);
      }
    }
  }

  lemma ActsOnWorker(s: State, a: Action)
    requires Enabled(s, a)
    ensures a.Finish? ==> a.w < |s.workers|
  {
  }

  lemma StartIsTimely(plan: Plan, n: nat, states: seq<State>, actions: seq<Action>)
    requires IsRun(plan, n, states, actions)
    ensures |states[0].workers| == n && states[0].series.history == TimedFinishes(plan, states, actions, 0)
    ensures forall w :: 0 <= w < n ==> Timely(plan, states, actions, w, 0)
  {
  }

  // ----- What a finished run reports -----

  function Locals(workers: seq<Worker>): seq<Local> {
    seq(|workers|, i requires 0 <= i < |workers| => workers[i].local)
  }

  lemma {:induction false} BooksAddUp(workers: seq<Worker>)
    ensures JoinAll(Books(workers)) == Of(Latencies(Carried(Locals(workers))))
  {
    if workers != [] {
      var n := |workers| - 1;
      var front := workers[..n];
      BooksAddUp(front);
      assert Books(workers)[..n] == Books(front) && Locals(workers)[..n] == Locals(front);
      LatenciesConcat(Carried(Locals(front)), workers[n].local.carried);
      JoinIsUnion(Latencies(Carried(Locals(front))), Latencies(workers[n].local.carried));
    }
  }

  // ----- Each writer is its own worker's -----

  /** What a worker's writer holds after these turns, if nobody else touches it. */
  function Written(plan: Plan, turns: seq<Reading>): TS.Writing {
    Told(plan, turns, Telling([], TS.IDLE)).writing
  }

  /** A writer is not affected by what the others have shared. */
  lemma {:induction false} WritingIsPrivate(plan: Plan, turns: seq<Reading>, shared: seq<Tally>, writing: TS.Writing)
    ensures Told(plan, turns, Telling(shared, writing)).writing == Told(plan, turns, Telling([], writing)).writing
  {
    hide Drive, TS.AfterRecord, TS.SharedAfterRecord, Tells;
    if turns != [] {
      WritingIsPrivate(plan, turns[..|turns| - 1], shared, writing);
    }
  }

  lemma WrittenSnoc(plan: Plan, turns: seq<Reading>, r: Reading)
    requires !Drive(plan, turns).1
    ensures var local := Drive(plan, turns).0;
            Written(plan, turns + [r])
            == if r.now >= plan.deadline || (!local.socket && !r.connects) || !Tells(plan, r.now, r.result)
               then Written(plan, turns)
               else TS.AfterRecord(Written(plan, turns), TS.SecondOf(plan.recordFrom, r.recordedAt), r.result.elapsed)
  {
    hide Drive, TS.AfterRecord, TS.SharedAfterRecord, Tells;
    assert (turns + [r])[..|turns|] == turns;
  }

  ghost predicate WriterKept(plan: Plan, s: State, i: nat) {
    && i < |s.workers| == |s.series.writers|
    && var written := Written(plan, s.workers[i].turns);
       s.series.writers[i] == written || (Joined(s) && s.series.writers[i] == TS.AfterFlush(written))
  }

  lemma OwnStepKeepsWriter(plan: Plan, s: State, a: Action)
    requires !a.Tick? && !a.Flush? && Enabled(s, a) && plan.timeseries && s.series.start == plan.recordFrom
    requires WorkerInv(plan, s.workers[a.w]) && WriterKept(plan, s, a.w)
    ensures WriterKept(plan, Apply(plan, s, a), a.w)
  {
    hide Written, Served, Refused, Drive, TS.AfterRecord, TS.SharedAfterRecord, TS.AfterFlush, TS.SecondOf;
    var w, t := s.workers[a.w], Apply(plan, s, a);
    var after := Step(plan, s.now, w, a);
    assert !w.pc.Done? && s.series.writers[a.w] == Written(plan, w.turns);
    if after.turns != w.turns {
      var r := after.turns[|w.turns|];
      assert after.turns == w.turns + [r];
      WrittenSnoc(plan, w.turns, r);
    }
  }

  lemma FlushedOnce(w: TS.Writing)
    ensures TS.AfterFlush(TS.AfterFlush(w)) == TS.AfterFlush(w)
  {
  }

  lemma StepKeepsWriter(plan: Plan, s: State, a: Action, i: nat)
    requires Inv(plan, s) && Enabled(s, a) && plan.timeseries && WriterKept(plan, s, i)
    ensures WriterKept(plan, Apply(plan, s, a), i)
  {
    hide Written, WorkerInv, TS.Inv, ViewsAgree, Step, TS.AfterFlush, TS.AfterRecord;
    if a.Flush? {
      FlushedOnce(Written(plan, s.workers[a.w].turns));
      assert Apply(plan, s, a).workers == s.workers by { FlushKeepsWorkers(plan, s, a); }
    } else if !a.Tick? {
      assert !s.workers[a.w].pc.Done?;
      if a.w == i {
        OwnStepKeepsWriter(plan, s, a);
      }
    }
  }

  lemma FlushKeepsWorkers(plan: Plan, s: State, a: Action)
    requires Enabled(s, a) && a.Flush?
    ensures Apply(plan, s, a).workers == s.workers
  {
  }

  lemma StartWriter(plan: Plan, now: int, n: nat, i: nat)
    requires i < n
    ensures WriterKept(plan, Start(plan, now, n), i)
  {
  }

  /** In the interleaved system each writer holds what its own worker's turns alone would have left in
      it, until the merging thread has flushed it. */
  lemma {:induction false} WritersAreSequential(plan: Plan, n: nat, states: seq<State>, actions: seq<Action>,
                                                i: nat, w: nat)
    requires IsRun(plan, n, states, actions) && plan.timeseries && i < |states| && w < n
    ensures WriterKept(plan, states[i], w)
  {
    hide Inv, WriterKept, Apply, Enabled;
    if i == 0 {
      StartWriter(plan, states[0].now, n, w);
    } else {
      WritersAreSequential(plan, n, states, actions, i - 1, w);
      RunKeepsInv(plan, n, states, actions, i - 1);
      assert states[i] == Apply(plan, states[i - 1], actions[i - 1]);
      StepKeepsWriter(plan, states[i - 1], actions[i - 1], w);
    }
  }

  // ----- After the join: every writer flushed in turn, on the merging thread -----

  function Flushed(shared: seq<Tally>, writers: seq<TS.Writing>): seq<Tally> {
    if writers == [] then shared
    else TS.SharedAfterFlush(Flushed(shared, writers[..|writers| - 1]), writers[|writers| - 1])
  }

  function AfterFlushes(s: TS.State, k: nat): (t: TS.State)
    requires k <= |s.writers|
    ensures |t.writers| == |s.writers|
  {
    if k == 0 then s else TS.Apply(AfterFlushes(s, k - 1), TS.Flush(k - 1))
  }

  lemma {:induction false} FlushesSettle(s: TS.State, k: nat)
    requires TS.Inv(s) && k <= |s.writers|
    ensures var t := AfterFlushes(s, k);
            && TS.Inv(t) && t.start == s.start && t.history == s.history
            && t.shared == Flushed(s.shared, s.writers[..k])
            && forall i :: 0 <= i < |s.writers| ==>
                 t.writers[i] == if i < k then TS.AfterFlush(s.writers[i]) else s.writers[i]
  {
    hide TS.Inv, TS.SharedAfterFlush, TS.AfterFlush;
    if k > 0 {
      FlushesSettle(s, k - 1);
      TS.StepKeepsInv(AfterFlushes(s, k - 1), TS.Flush(k - 1));
      assert s.writers[..k][..k - 1] == s.writers[..k - 1];
    }
  }

  /** The two views agree for every closed-loop run, as the merging thread leaves them: once every
      worker has been joined and its writer flushed, the per-second list merges to exactly the run's
      histogram, and each of its seconds is exactly its own samples. */
  lemma JoinedRunViewsAgree(plan: Plan, n: nat, states: seq<State>, actions: seq<Action>)
    requires IsRun(plan, n, states, actions) && plan.timeseries && Joined(states[|actions|])
    ensures var s := states[|actions|];
            var perSecond := Flushed(s.series.shared, s.series.writers);
            && JoinAll(perSecond) == Of(Latencies(Carried(Locals(s.workers))))
            && forall second :: TS.At(perSecond, second) == Of(TS.Finished(plan.recordFrom, s.series.history, second))
  {
    hide Of, JoinAll, Latencies, Carried, TS.Inv, TS.At, WorkerInv;
    var s := states[|actions|];
    RunKeepsInv(plan, n, states, actions, |actions|);
    FlushesSettle(s.series, n);
    assert s.series.writers[..n] == s.series.writers;
    TS.FlushedSettles(AfterFlushes(s.series, n));
    BooksAddUp(s.workers);
  }

  /** Closed-loop accounting: whatever was interleaved, each worker's books are those of its own
      turns, and its attempts are exactly the turns it began inside the measured window. */
  lemma WorkersAreSequential(plan: Plan, n: nat, states: seq<State>, actions: seq<Action>, i: nat, w: nat)
    requires IsRun(plan, n, states, actions) && i < |states| && w < n
    ensures |states[i].workers| == n
    ensures var worker := states[i].workers[w];
            worker.pc.Done? ==>
              && Drive(plan, worker.turns) == (worker.local, true)
              && worker.local.Attempted() == MeasuredTurns(plan, worker.turns)
  {
    RunKeepsInv(plan, n, states, actions, i);
    var worker := states[i].workers[w];
    assert WorkerInv(plan, worker);
    if worker.pc.Done? {
      AttemptsAreMeasuredTurns(plan, worker.turns);
    }
  }
}
