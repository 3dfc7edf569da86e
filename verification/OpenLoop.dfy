/** src/load/open_loop.cpp as a system of N workers sharing one schedule.

    A worker's turn of its loop is cut where other workers can interleave: at every clock read, at
    the atomic claim, around the sleep and around the exchange.  The clock only moves forward.
    Everything below holds for every interleaving, every exchange outcome and every clock. */
module OpenLoop {
  import opened Tallies
  import opened Schedules
  import opened RunResults
  import opened Accounts

  datatype Plan = Plan(rate: Rate, recordFrom: int, deadline: int)

  function Due(plan: Plan, index: nat): int {
    SlotDue(plan.rate, plan.recordFrom, index)
  }

  // ----- One worker's loop, driven by what it reads -----

  /** Everything one turn of the loop can read from its environment. */
  datatype Reading = Reading(now: int, connects: bool, failedAt: int, freeAt: int, slot: nat,
                             sending: int, result: Exchange)

  function Refused(plan: Plan, local: Local, at: int): Local {
    if at >= plan.recordFrom then local.(refused := local.refused + 1) else local
  }

  function Served(plan: Plan, local: Local, c: Carriage): Local {
    local.(socket := local.socket && c.result.usable,
           carried := if c.due >= plan.recordFrom then local.carried + [c] else local.carried)
  }

  function CarriageOf(plan: Plan, r: Reading): Carriage {
    Carriage(Due(plan, r.slot), r.freeAt, r.sending, r.result)
  }

  /** One turn: the new tally, and whether the worker returns. */
  function Turn(plan: Plan, local: Local, r: Reading): (Local, bool) {
    if r.now >= plan.deadline then (local, true)
    else if !local.socket && !r.connects then (Refused(plan, local, r.failedAt), false)
    else if Due(plan, r.slot) >= plan.deadline then (Opened(local), true)
    else (Served(plan, Opened(local), CarriageOf(plan, r)), false)
  }

  function Drive(plan: Plan, turns: seq<Reading>): (Local, bool) {
    if turns == [] then (FRESH, false)
    else
      var (local, stopped) := Drive(plan, turns[..|turns| - 1]);
      if stopped then (local, true) else Turn(plan, local, turns[|turns| - 1])
  }

  lemma DriveSnoc(plan: Plan, turns: seq<Reading>, r: Reading)
    requires !Drive(plan, turns).1
    ensures Drive(plan, turns + [r]) == Turn(plan, Drive(plan, turns).0, r)
  {
    assert (turns + [r])[..|turns|] == turns;
  }

  /** Every exchange of a worker, measured or not, with the connection it went out on. */
  function Uses(plan: Plan, turns: seq<Reading>): seq<Use> {
    if turns == [] then []
    else
      var front, r := turns[..|turns| - 1], turns[|turns| - 1];
      var (local, stopped) := Drive(plan, front);
      if stopped || r.now >= plan.deadline || (!local.socket && !r.connects) || Due(plan, r.slot) >= plan.deadline
      then Uses(plan, front)
      else Uses(plan, front) + [Use(Opened(local).opens, r.result)]
  }

  /** Whatever the turns read, a connection that an exchange left unusable carries no further
      request. */
  lemma {:induction false} UnusableIsDropped(plan: Plan, turns: seq<Reading>)
    ensures InStep(Drive(plan, turns).0, Uses(plan, turns))
  {
    hide InStep;
    if turns == [] {
      assert InStep(FRESH, []) by { NothingUsed(); }
    } else {
      var front, r := turns[..|turns| - 1], turns[|turns| - 1];
      UnusableIsDropped(plan, front);
      var local := Drive(plan, front).0;
      if Uses(plan, turns) != Uses(plan, front) {
        UsedOnce(local, Uses(plan, front), Drive(plan, turns).0, r.result);
      } else {
        StillInStep(local, Drive(plan, turns).0, Uses(plan, front));
      }
    }
  }

  // ----- What a worker's turns add up to -----

  /** Has the worker returned, is its socket open: read off the turns alone. */
  datatype Standing = Standing(over: bool, open: bool)

  function Stand(plan: Plan, turns: seq<Reading>): Standing {
    if turns == [] then Standing(false, false)
    else
      var before, r := Stand(plan, turns[..|turns| - 1]), turns[|turns| - 1];
      if before.over then before
      else if r.now >= plan.deadline then before.(over := true)
      else if !before.open && !r.connects then before
      else if plan.recordFrom + DueAt(plan.rate, r.slot) >= plan.deadline then Standing(true, true)
      else Standing(false, r.result.usable)
  }

  /** Turns that failed to connect, the failure coming after warm-up. */
  function RefusedTurns(plan: Plan, turns: seq<Reading>): nat {
    if turns == [] then 0
    else
      var front, r := turns[..|turns| - 1], turns[|turns| - 1];
      var s := Stand(plan, front);
      RefusedTurns(plan, front)
      + if !s.over && r.now < plan.deadline && !s.open && !r.connects && r.failedAt >= plan.recordFrom then 1 else 0
  }

  function ConnectedTurns(plan: Plan, turns: seq<Reading>): nat {
    if turns == [] then 0
    else
      var front, r := turns[..|turns| - 1], turns[|turns| - 1];
      var s := Stand(plan, front);
      ConnectedTurns(plan, front) + if !s.over && r.now < plan.deadline && !s.open && r.connects then 1 else 0
  }

  /** Turns that sent a slot, and what each of them read, in order. */
  function SentTurns(plan: Plan, turns: seq<Reading>): seq<Carriage> {
    if turns == [] then []
    else
      var front, r := turns[..|turns| - 1], turns[|turns| - 1];
      var s, due := Stand(plan, front), plan.recordFrom + DueAt(plan.rate, r.slot);
      SentTurns(plan, front)
      + if !s.over && r.now < plan.deadline && (s.open || r.connects) && due < plan.deadline
        then [Carriage(due, r.freeAt, r.sending, r.result)] else []
  }

  /** A worker's books, counted off its turns: attempts that failed to connect, connections opened and
      requests carried are each exactly the turns that did so. */
  lemma {:induction false} BooksAreTurns(plan: Plan, turns: seq<Reading>)
    ensures var (local, stopped) := Drive(plan, turns);
            && stopped == Stand(plan, turns).over && local.socket == Stand(plan, turns).open
            && local.refused == RefusedTurns(plan, turns) && local.opens == ConnectedTurns(plan, turns)
            && local.carried == SentTurns(plan, turns)
  {
    hide DueAt;
    if turns != [] {
      BooksAreTurns(plan, turns[..|turns| - 1]);
      NeverEarly(plan, turns[|turns| - 1].slot);
    }
  }

  lemma NeverEarly(plan: Plan, index: nat)
    ensures Due(plan, index) == plan.recordFrom + DueAt(plan.rate, index) >= plan.recordFrom
  {
    ScheduleIsExact(plan.rate, index);
  }

  // ----- N workers and one schedule -----

  datatype Pc = Top | Connecting | Ready | Free | Claimed | Exchanging | Done

  /** `reading` collects what the current turn has read so far; `turns` are the finished ones. */
  datatype Worker = Worker(pc: Pc, local: Local, sent: seq<nat>, abandoned: seq<nat>,
                           reading: Reading, turns: seq<Reading>)

  datatype State = State(now: int, next: nat, workers: seq<Worker>)

  datatype Action =
    | Tick(to: int)                      // time passes
    | Enter(w: nat)                      // top of the loop: is the run over?
    | Connect(w: nat, ok: bool)          // open a socket, or fail and go round again
    | ComeFree(w: nat)                   // read free_at
    | Claim(w: nat)                      // atomic fetch-and-add on the schedule
    | Send(w: nat)                       // the sleep is over; the request goes out
    | Finish(w: nat, result: Exchange)   // the exchange returns; account for it

  const NO_EXCHANGE: Exchange := Exchange(WriteFailed, 0, false)

  /** A turn that has read nothing yet. */
  function Blank(plan: Plan, now: int): Reading {
    Reading(now, false, now, plan.recordFrom, 0, plan.recordFrom, NO_EXCHANGE)
  }

  function Start(plan: Plan, now: int, n: nat): State {
    State(now, 0, seq(n, _ => Worker(Top, FRESH, [], [], Blank(plan, now), [])))
  }

  predicate Enabled(plan: Plan, s: State, a: Action) {
    if a.Tick? then s.now <= a.to
    else
      && a.w < |s.workers|
      && var w := s.workers[a.w];
         match a
         case Enter(_) => w.pc.Top?
         case Connect(_, _) => w.pc.Connecting?
         case ComeFree(_) => w.pc.Ready?
         case Claim(_) => w.pc.Free?
         case Send(_) => w.pc.Claimed? && Due(plan, w.reading.slot) <= s.now
         case Finish(_, result) => w.pc.Exchanging? && w.reading.sending + result.elapsed <= s.now
         case Tick(_) => true
  }

  function EndTurn(w: Worker, pc: Pc, r: Reading): Worker {
    w.(pc := pc, turns := w.turns + [r])
  }

  function Step(plan: Plan, s: State, w: Worker, a: Action): Worker {
    match a
    case Tick(_) => w
    case Enter(_) =>
      var r := Blank(plan, s.now);
      if s.now >= plan.deadline then EndTurn(w, Done, r)
      else w.(reading := r, pc := if w.local.socket then Ready else Connecting)
    case Connect(_, ok) =>
      if ok then w.(pc := Ready, local := Opened(w.local), reading := w.reading.(connects := true))
      else EndTurn(w.(local := Refused(plan, w.local, s.now)), Top, w.reading.(failedAt := s.now))
    case ComeFree(_) => w.(pc := Free, reading := w.reading.(freeAt := s.now))
    case Claim(_) =>
      var due := Due(plan, s.next);
      if due >= plan.deadline then
        EndTurn(w.(abandoned := w.abandoned + [s.next]), Done,
                w.reading.(slot := s.next, sending := if due < w.reading.freeAt then w.reading.freeAt else due))
      else w.(pc := Claimed, reading := w.reading.(slot := s.next))
    case Send(_) =>
      w.(pc := Exchanging, sent := w.sent + [w.reading.slot], reading := w.reading.(sending := s.now))
    case Finish(_, result) =>
      var r := w.reading.(result := result);
      EndTurn(w.(local := Served(plan, w.local, CarriageOf(plan, r))), Top, r)
  }

  function Apply(plan: Plan, s: State, a: Action): State
    requires Enabled(plan, s, a)
  {
    if a.Tick? then s.(now := a.to)
    else s.(next := if a.Claim? then s.next + 1 else s.next,
            workers := s.workers[a.w := Step(plan, s, s.workers[a.w], a)])
  }

  /** A run of n workers: any sequence of enabled actions. */
  ghost predicate IsRun(plan: Plan, n: nat, states: seq<State>, actions: seq<Action>) {
    && |states| == |actions| + 1
    && states[0] == Start(plan, states[0].now, n)
    && forall i :: 0 <= i < |actions| ==>
         Enabled(plan, states[i], actions[i]) && states[i + 1] == Apply(plan, states[i], actions[i])
  }

  // ----- What every step keeps -----

  /** The indices a worker has taken from the schedule. */
  function Held(w: Worker): multiset<nat> {
    multiset(w.sent) + multiset(w.abandoned) + if w.pc.Claimed? then multiset{w.reading.slot} else multiset{}
  }

  function Union(bags: seq<multiset<nat>>): multiset<nat> {
    if bags == [] then multiset{} else Union(bags[..|bags| - 1]) + bags[|bags| - 1]
  }

  function Bags(workers: seq<Worker>): seq<multiset<nat>> {
    seq(|workers|, i requires 0 <= i < |workers| => Held(workers[i]))
  }

  function Upto(n: nat): seq<nat> {
    seq(n, i => i)
  }

  ghost predicate SlotsKept(plan: Plan, w: Worker) {
    && (forall i :: 0 <= i < |w.sent| ==> Due(plan, w.sent[i]) < plan.deadline)
    && (forall i :: 0 <= i < |w.abandoned| ==> Due(plan, w.abandoned[i]) >= plan.deadline)
    && |w.abandoned| <= (if w.pc.Done? then 1 else 0)
    && (w.pc.Claimed? ==> Due(plan, w.reading.slot) < plan.deadline)
    && (w.pc.Exchanging? ==> w.sent != [] && w.sent[|w.sent| - 1] == w.reading.slot)
    && |w.sent| == |w.local.carried| + (if w.pc.Exchanging? then 1 else 0)
    && (forall i :: 0 <= i < |w.local.carried| ==> w.local.carried[i].due == Due(plan, w.sent[i]))
  }

  ghost predicate ClockKept(plan: Plan, now: int, w: Worker) {
    && (w.pc.Free? || w.pc.Claimed? ==> w.reading.freeAt <= now)
    && (w.pc.Exchanging? ==> CarriageOf(plan, w.reading).Clocked() && w.reading.sending <= now)
    && AllClocked(w.local.carried)
  }

  ghost predicate SocketKept(w: Worker) {
    && w.local.opens == Broken(w.local.carried) + (if w.local.socket then 1 else 0)
    && (w.pc.Connecting? ==> !w.local.socket)
    && (w.pc.Ready? || w.pc.Free? || w.pc.Claimed? || w.pc.Exchanging? ==> w.local.socket)
  }

  /** A worker's tally is what the sequential loop computes from the worker's own readings,
      whatever the other workers did in between. */
  ghost predicate TurnsKept(plan: Plan, w: Worker) {
    var (local, stopped) := Drive(plan, w.turns);
    && stopped == w.pc.Done?
    && (if w.pc.Top? || w.pc.Connecting? || w.pc.Done? then w.local == local
        else w.local == Opened(local) && (local.socket || w.reading.connects))
    && (!w.pc.Top? && !w.pc.Done? ==> w.reading.now < plan.deadline)
    && (w.pc.Connecting? ==> !w.reading.connects)
    && (w.pc.Connecting? || w.pc.Ready? ==> CarriageOf(plan, w.reading).Clocked())
    && (w.pc.Claimed? || w.pc.Exchanging? ==> Due(plan, w.reading.slot) < plan.deadline)
    && forall i :: 0 <= i < |w.turns| ==> CarriageOf(plan, w.turns[i]).Clocked()
  }

  ghost predicate WorkerInv(plan: Plan, now: int, w: Worker) {
    SlotsKept(plan, w) && ClockKept(plan, now, w) && SocketKept(w) && TurnsKept(plan, w)
  }

  ghost predicate Inv(plan: Plan, s: State) {
    && (forall i :: 0 <= i < |s.workers| ==> WorkerInv(plan, s.now, s.workers[i]))
    && Union(Bags(s.workers)) == multiset(Upto(s.next))
  }

  lemma DueAfterStart(plan: Plan, index: nat)
    ensures Due(plan, index) >= plan.recordFrom && Due(plan, 0) == plan.recordFrom
  {
    ScheduleIsExact(plan.rate, index);
  }

  lemma StepKeepsSlots(plan: Plan, s: State, i: nat, a: Action)
    requires i < |s.workers| && !a.Tick? && a.w == i && Enabled(plan, s, a)
    requires WorkerInv(plan, s.now, s.workers[i])
    ensures SlotsKept(plan, Step(plan, s, s.workers[i], a))
  {
    hide ClockKept, SocketKept, TurnsKept, Due;
    DueAfterStart(plan, s.workers[i].reading.slot);
    match a
    case Enter(_) =>
    case Connect(_, _) =>
    case ComeFree(_) =>
    case Claim(_) =>
    case Send(_) =>
    case Finish(_, _) =>
  }

  lemma StepKeepsClock(plan: Plan, s: State, i: nat, a: Action)
    requires i < |s.workers| && !a.Tick? && a.w == i && Enabled(plan, s, a)
    requires WorkerInv(plan, s.now, s.workers[i])
    ensures ClockKept(plan, s.now, Step(plan, s, s.workers[i], a))
  {
    match a
    case Enter(_) =>
    case Connect(_, _) =>
    case ComeFree(_) =>
    case Claim(_) =>
    case Send(_) =>
    case Finish(_, _) =>
  }

  lemma StepKeepsSocket(plan: Plan, s: State, i: nat, a: Action)
    requires i < |s.workers| && !a.Tick? && a.w == i && Enabled(plan, s, a)
    requires WorkerInv(plan, s.now, s.workers[i])
    ensures SocketKept(Step(plan, s, s.workers[i], a))
  {
    hide SlotsKept, ClockKept, TurnsKept, Due, Broken, CarriageOf;
    var w := s.workers[i];
    match a
    case Enter(_) =>
    case Connect(_, _) =>
    case ComeFree(_) =>
    case Claim(_) =>
    case Send(_) =>
    case Finish(_, result) =>
      DueAfterStart(plan, w.reading.slot);
      BrokenSnoc(w.local.carried, CarriageOf(plan, w.reading.(result := result)));
      CarriageIs(plan, w.reading.(result := result));
  }

  lemma BrokenSnoc(cs: seq<Carriage>, c: Carriage)
    ensures Broken(cs + [c]) == Broken(cs) + if c.result.usable then 0 else 1
  {
    assert (cs + [c])[..|cs|] == cs;
  }

  lemma CarriageIs(plan: Plan, r: Reading)
    ensures CarriageOf(plan, r).due == Due(plan, r.slot) && CarriageOf(plan, r).result == r.result
  {
  }

  lemma StepKeepsTurns(plan: Plan, s: State, i: nat, a: Action)
    requires i < |s.workers| && !a.Tick? && a.w == i && Enabled(plan, s, a)
    requires WorkerInv(plan, s.now, s.workers[i])
    ensures TurnsKept(plan, Step(plan, s, s.workers[i], a))
  {
    hide Served, Refused, Drive, SlotsKept, AllClocked, Due;
    var w := s.workers[i];
    var after := Step(plan, s, w, a);
    DueAfterStart(plan, 0);
    if after.turns != w.turns {
      var r := after.turns[|w.turns|];
      assert after.turns == w.turns + [r];
      DriveSnoc(plan, w.turns, r);
    }
  }

  lemma {:induction false} BagGrows(bags: seq<multiset<nat>>, i: nat, extra: multiset<nat>)
    requires i < |bags|
    ensures Union(bags[i := bags[i] + extra]) == Union(bags) + extra
  {
    var n := |bags| - 1;
    var more := bags[i := bags[i] + extra];
    if i == n {
      assert more[..n] == bags[..n];
    } else {
      BagGrows(bags[..n], i, extra);
      assert more[..n] == bags[..n][i := bags[i] + extra];
    }
  }

  lemma BagsAfter(workers: seq<Worker>, i: nat, after: Worker, taken: multiset<nat>)
    requires i < |workers| && Held(after) == Held(workers[i]) + taken
    ensures Union(Bags(workers[i := after])) == Union(Bags(workers)) + taken
  {
    var bags := Bags(workers);
    BagGrows(bags, i, taken);
    assert Bags(workers[i := after]) == bags[i := bags[i] + taken];
  }

  lemma StepHolds(plan: Plan, s: State, w: Worker, a: Action)
    requires !a.Tick?
    requires match a
             case Claim(_) => w.pc.Free?
             case Send(_) => w.pc.Claimed?
             case _ => !w.pc.Claimed?
    ensures Held(Step(plan, s, w, a))
            == Held(w) + if a.Claim? then multiset{s.next} else multiset{}
  {
    hide Served, Refused, Due;
    var after := Step(plan, s, w, a);
    if a.Claim? && after.pc.Done? {
      MoreOnce(w.abandoned, s.next);
    } else if a.Send? {
      MoreOnce(w.sent, w.reading.slot);
    }
  }

  lemma MoreOnce(slots: seq<nat>, slot: nat)
    ensures multiset(slots + [slot]) == multiset(slots) + multiset{slot}
  {
  }

  lemma TickKeepsInv(plan: Plan, s: State, to: int)
    requires Inv(plan, s) && s.now <= to
    ensures Inv(plan, s.(now := to))
  {
    forall i | 0 <= i < |s.workers| ensures WorkerInv(plan, to, s.workers[i]) {
      assert WorkerInv(plan, s.now, s.workers[i]);
    }
  }

  lemma ActKeepsWorkers(plan: Plan, s: State, a: Action)
    requires Inv(plan, s) && Enabled(plan, s, a) && !a.Tick?
    ensures forall i :: 0 <= i < |s.workers| ==> WorkerInv(plan, s.now, Apply(plan, s, a).workers[i])
  {
    StepKeepsSlots(plan, s, a.w, a);
    StepKeepsClock(plan, s, a.w, a);
    StepKeepsSocket(plan, s, a.w, a);
    StepKeepsTurns(plan, s, a.w, a);
    var w := Step(plan, s, s.workers[a.w], a);
    assert WorkerInv(plan, s.now, w);
    forall i | 0 <= i < |s.workers| ensures WorkerInv(plan, s.now, Apply(plan, s, a).workers[i]) {
      assert Apply(plan, s, a).workers[i] == if i == a.w then w else s.workers[i];
    }
  }

  lemma UptoGrows(n: nat)
    ensures multiset(Upto(n + 1)) == multiset(Upto(n)) + multiset{n}
  {
    assert Upto(n + 1) == Upto(n) + [n];
  }

  lemma ActKeepsHeld(plan: Plan, s: State, a: Action)
    requires Union(Bags(s.workers)) == multiset(Upto(s.next)) && Enabled(plan, s, a) && !a.Tick?
    ensures Union(Bags(Apply(plan, s, a).workers)) == multiset(Upto(Apply(plan, s, a).next))
  {
    hide Union, Bags, Held;
    var w := s.workers[a.w];
    var after := Step(plan, s, w, a);
    var taken := if a.Claim? then multiset{s.next} else multiset{};
    StepHolds(plan, s, w, a);
    BagsAfter(s.workers, a.w, after, taken);
    UptoGrows(s.next);
  }

  lemma StepKeepsInv(plan: Plan, s: State, a: Action)
    requires Inv(plan, s) && Enabled(plan, s, a)
    ensures Inv(plan, Apply(plan, s, a)) && |Apply(plan, s, a).workers| == |s.workers|
  {
    if a.Tick? {
      TickKeepsInv(plan, s, a.to);
    } else {
      ActKeepsWorkers(plan, s, a);
      ActKeepsHeld(plan, s, a);
    }
  }

  lemma {:induction false} NothingHeld(bags: seq<multiset<nat>>)
    requires forall i :: 0 <= i < |bags| ==> bags[i] == multiset{}
    ensures Union(bags) == multiset{}
  {
    if bags != [] {
      NothingHeld(bags[..|bags| - 1]);
    }
  }

  lemma StartInv(plan: Plan, now: int, n: nat)
    ensures Inv(plan, Start(plan, now, n))
  {
    NothingHeld(Bags(Start(plan, now, n).workers));
    DueAfterStart(plan, 0);
  }

  /** The invariant holds in every state of every run. */
  lemma {:induction false} RunKeepsInv(plan: Plan, n: nat, states: seq<State>, actions: seq<Action>, i: nat)
    requires IsRun(plan, n, states, actions) && i < |states|
    ensures Inv(plan, states[i]) && |states[i].workers| == n
  {
    if i == 0 {
      StartInv(plan, states[0].now, n);
    } else {
      RunKeepsInv(plan, n, states, actions, i - 1);
      assert states[i] == Apply(plan, states[i - 1], actions[i - 1]);
      StepKeepsInv(plan, states[i - 1], actions[i - 1]);
    }
  }

  // ----- What a finished run has sent -----

  ghost predicate Finished(s: State) {
    forall i :: 0 <= i < |s.workers| ==> s.workers[i].pc.Done?
  }

  function SentBags(workers: seq<Worker>): seq<multiset<nat>> {
    seq(|workers|, i requires 0 <= i < |workers| => multiset(workers[i].sent))
  }

  function AbandonedBags(workers: seq<Worker>): seq<multiset<nat>> {
    seq(|workers|, i requires 0 <= i < |workers| => multiset(workers[i].abandoned))
  }

  /** How many of the first n slots are due before the deadline. */
  function DueBefore(plan: Plan, n: nat): nat {
    if n == 0 then 0 else DueBefore(plan, n - 1) + if Due(plan, n - 1) < plan.deadline then 1 else 0
  }

  /** The slots due in time are a prefix of the schedule. */
  lemma {:induction false} DuePrefix(plan: Plan, n: nat, j: nat)
    requires j < n
    ensures DueBefore(plan, n) <= n
    ensures j < DueBefore(plan, n) <==> Due(plan, j) < plan.deadline
    decreases n
  {
    DueOrdered(plan.rate, j, n - 1);
    if j < n - 1 {
      DuePrefix(plan, n - 1, j);
    } else if n > 1 {
      DuePrefix(plan, n - 1, n - 2);
      DueOrdered(plan.rate, n - 2, n - 1);
    }
  }

  lemma {:induction false} UnionSplits(whole: seq<multiset<nat>>, a: seq<multiset<nat>>, b: seq<multiset<nat>>)
    requires |whole| == |a| == |b| && forall i :: 0 <= i < |whole| ==> whole[i] == a[i] + b[i]
    ensures Union(whole) == Union(a) + Union(b)
  {
    if whole != [] {
      UnionSplits(whole[..|whole| - 1], a[..|a| - 1], b[..|b| - 1]);
    }
  }

  lemma {:induction false} UnionMember(bags: seq<multiset<nat>>, j: nat)
    requires j in Union(bags)
    ensures exists i :: 0 <= i < |bags| && j in bags[i]
  {
    var n := |bags| - 1;
    if j in bags[n] {
      assert 0 <= n < |bags|;
    } else {
      UnionMember(bags[..n], j);
      var i :| 0 <= i < n && j in bags[..n][i];
      assert j in bags[i];
    }
  }

  lemma {:induction false} UptoOnce(n: nat, j: nat)
    ensures multiset(Upto(n))[j] == if j < n then 1 else 0
  {
    if n > 0 {
      UptoGrows(n - 1);
      UptoOnce(n - 1, j);
    }
  }

  lemma SentInTime(plan: Plan, s: State, j: nat)
    requires Inv(plan, s) && j in Union(SentBags(s.workers))
    ensures Due(plan, j) < plan.deadline
  {
    UnionMember(SentBags(s.workers), j);
    var i :| 0 <= i < |s.workers| && j in SentBags(s.workers)[i];
    assert WorkerInv(plan, s.now, s.workers[i]);
    assert j in s.workers[i].sent;
  }

  lemma AbandonedTooLate(plan: Plan, s: State, j: nat)
    requires Inv(plan, s) && j in Union(AbandonedBags(s.workers))
    ensures Due(plan, j) >= plan.deadline
  {
    UnionMember(AbandonedBags(s.workers), j);
    var i :| 0 <= i < |s.workers| && j in AbandonedBags(s.workers)[i];
    assert WorkerInv(plan, s.now, s.workers[i]);
    assert j in s.workers[i].abandoned;
  }

  /** Mid-run: every index the schedule has handed out is held by exactly one worker, exactly once. */
  lemma EveryClaimHeldOnce(plan: Plan, n: nat, states: seq<State>, actions: seq<Action>, i: nat, j: nat)
    requires IsRun(plan, n, states, actions) && i < |states|
    ensures Union(Bags(states[i].workers))[j] == if j < states[i].next then 1 else 0
  {
    RunKeepsInv(plan, n, states, actions, i);
    UptoOnce(states[i].next, j);
  }

  lemma FinishedSplit(plan: Plan, s: State, j: nat)
    requires Inv(plan, s) && Finished(s)
    ensures Union(SentBags(s.workers))[j] + Union(AbandonedBags(s.workers))[j] == if j < s.next then 1 else 0
  {
    UptoOnce(s.next, j);
    UnionSplits(Bags(s.workers), SentBags(s.workers), AbandonedBags(s.workers));
  }

  /** The slots sent are exactly the claimed ones due before the deadline, each of them once; the
      slots abandoned are exactly the rest, a suffix of the schedule, at most one per worker. */
  ghost predicate Conserved(plan: Plan, s: State) {
    var intime := DueBefore(plan, s.next);
    && intime <= s.next <= intime + |s.workers|
    && (forall j: nat :: Union(SentBags(s.workers))[j] == if j < intime then 1 else 0)
    && (forall j: nat :: Union(AbandonedBags(s.workers))[j] == if intime <= j < s.next then 1 else 0)
    && (forall i :: 0 <= i < |s.workers| ==> |s.workers[i].abandoned| <= 1)
  }

  lemma FinishedConserves(plan: Plan, s: State)
    requires Inv(plan, s) && Finished(s)
    ensures Conserved(plan, s)
  {
    hide Inv, Finished, Union;
    var intime := DueBefore(plan, s.next);
    if s.next > 0 {
      DuePrefix(plan, s.next, s.next - 1);
    }
    forall j: nat
      ensures Union(SentBags(s.workers))[j] == if j < intime then 1 else 0
      ensures Union(AbandonedBags(s.workers))[j] == if intime <= j < s.next then 1 else 0
    {
      SlotSettled(plan, s, j);
    }
    OneAbandonedEach(plan, s);
    AtMostOneEach(AbandonedBags(s.workers));
    SettledCount(Union(AbandonedBags(s.workers)), intime, s.next);
  }

  lemma OneAbandonedEach(plan: Plan, s: State)
    requires Inv(plan, s)
    ensures forall i :: 0 <= i < |s.workers| ==> |s.workers[i].abandoned| <= 1
    ensures forall i :: 0 <= i < |s.workers| ==> |AbandonedBags(s.workers)[i]| <= 1
  {
    forall i | 0 <= i < |s.workers| ensures |s.workers[i].abandoned| <= 1 {
      assert WorkerInv(plan, s.now, s.workers[i]);
    }
  }

  /** Slot conservation: it holds at the end of every run of every number of workers, under every
      interleaving, every exchange outcome and every clock. */
  lemma SlotsConserved(plan: Plan, n: nat, states: seq<State>, actions: seq<Action>)
    requires IsRun(plan, n, states, actions) && Finished(states[|actions|])
    ensures |states[|actions|].workers| == n && Conserved(plan, states[|actions|])
  {
    RunKeepsInv(plan, n, states, actions, |actions|);
    FinishedConserves(plan, states[|actions|]);
  }

  lemma SlotSettled(plan: Plan, s: State, j: nat)
    requires Inv(plan, s) && Finished(s)
    ensures Union(SentBags(s.workers))[j] == if j < DueBefore(plan, s.next) then 1 else 0
    ensures Union(AbandonedBags(s.workers))[j] == if DueBefore(plan, s.next) <= j < s.next then 1 else 0
  {
    FinishedSplit(plan, s, j);
    if j < s.next {
      DuePrefix(plan, s.next, j);
    } else if s.next > 0 {
      DuePrefix(plan, s.next, s.next - 1);
    }
    if j in Union(SentBags(s.workers)) {
      SentInTime(plan, s, j);
    }
    if j in Union(AbandonedBags(s.workers)) {
      AbandonedTooLate(plan, s, j);
    }
  }

  lemma {:induction false} AtMostOneEach(bags: seq<multiset<nat>>)
    requires forall i :: 0 <= i < |bags| ==> |bags[i]| <= 1
    ensures |Union(bags)| <= |bags|
  {
    if bags != [] {
      AtMostOneEach(bags[..|bags| - 1]);
    }
  }

  lemma SettledCount(bag: multiset<nat>, lo: nat, hi: nat)
    requires lo <= hi && forall j: nat :: bag[j] == if lo <= j < hi then 1 else 0
    ensures |bag| == hi - lo
    decreases hi
  {
    if lo == hi {
      assert bag == multiset{};
    } else {
      assert bag == (bag - multiset{hi - 1}) + multiset{hi - 1};
      SettledCount(bag - multiset{hi - 1}, lo, hi - 1);
    }
  }

  // ----- The run's accounts -----

  function Locals(workers: seq<Worker>): seq<Local> {
    seq(|workers|, i requires 0 <= i < |workers| => workers[i].local)
  }

  lemma {:induction false} CarriedAsSent(workers: seq<Worker>)
    requires forall i :: 0 <= i < |workers| ==> |workers[i].local.carried| == |workers[i].sent|
    ensures |Carried(Locals(workers))| == |Union(SentBags(workers))|
  {
    if workers != [] {
      var n := |workers| - 1;
      CarriedAsSent(workers[..n]);
      assert Locals(workers)[..n] == Locals(workers[..n]);
      assert SentBags(workers)[..n] == SentBags(workers[..n]);
    }
  }

  lemma {:induction false} CarriedAreClocked(plan: Plan, now: int, workers: seq<Worker>)
    requires forall i :: 0 <= i < |workers| ==> WorkerInv(plan, now, workers[i])
    ensures AllClocked(Carried(Locals(workers)))
  {
    hide TurnsKept, SocketKept, SlotsKept;
    if workers != [] {
      var n := |workers| - 1;
      CarriedAreClocked(plan, now, workers[..n]);
      assert Locals(workers)[..n] == Locals(workers[..n]);
      assert ClockKept(plan, now, workers[n]);
    }
  }

  /** The accounts of a finished run: attempts less connect failures are exactly the claimed slots
      due before the deadline, and every recorded timing came from a forward-moving clock. */
  lemma AccountsSettle(plan: Plan, n: nat, states: seq<State>, actions: seq<Action>)
    requires IsRun(plan, n, states, actions) && Finished(states[|actions|])
    ensures var s := states[|actions|];
            var locals := Locals(s.workers);
            && AttemptedByAll(locals) - ErrorsByAll(locals).connect == DueBefore(plan, s.next)
            && AllClocked(Carried(locals))
  {
    var s := states[|actions|];
    RunKeepsInv(plan, n, states, actions, |actions|);
    FinishedConserves(plan, s);
    forall i | 0 <= i < n ensures |s.workers[i].local.carried| == |s.workers[i].sent| {
      assert WorkerInv(plan, s.now, s.workers[i]);
    }
    CarriedAsSent(s.workers);
    CarriedAreClocked(plan, s.now, s.workers);
    AttemptsCarried(Locals(s.workers));
    SettledCount(Union(SentBags(s.workers)), 0, DueBefore(plan, s.next));
  }

  // ----- A worker's books, read off the run -----

  /** When worker w last came free, last claimed and last sent, among the first i actions. */
  function LastFree(states: seq<State>, actions: seq<Action>, w: nat, i: nat): int
    requires i <= |actions| && i <= |states|
  {
    if i == 0 then 0
    else if actions[i - 1] == ComeFree(w) then states[i - 1].now
    else LastFree(states, actions, w, i - 1)
  }

  function LastClaim(states: seq<State>, actions: seq<Action>, w: nat, i: nat): nat
    requires i <= |actions| && i <= |states|
  {
    if i == 0 then 0
    else if actions[i - 1] == Claim(w) then states[i - 1].next
    else LastClaim(states, actions, w, i - 1)
  }

  function LastSend(states: seq<State>, actions: seq<Action>, w: nat, i: nat): int
    requires i <= |actions| && i <= |states|
  {
    if i == 0 then 0
    else if actions[i - 1] == Send(w) then states[i - 1].now
    else LastSend(states, actions, w, i - 1)
  }

  /** Every exchange of worker w that finished, with the times the run itself took. */
  function FinishedBy(plan: Plan, states: seq<State>, actions: seq<Action>, w: nat, i: nat): seq<Carriage>
    requires i <= |actions| && i <= |states|
  {
    if i == 0 then []
    else
      var a := actions[i - 1];
      FinishedBy(plan, states, actions, w, i - 1)
      + if a.Finish? && a.w == w
        then [Carriage(plan.recordFrom + DueAt(plan.rate, LastClaim(states, actions, w, i - 1)),
                       LastFree(states, actions, w, i - 1), LastSend(states, actions, w, i - 1), a.result)]
        else []
  }

  ghost predicate Timely(plan: Plan, states: seq<State>, actions: seq<Action>, w: nat, i: nat)
    requires i <= |actions| && i < |states| && w < |states[i].workers|
  {
    var worker := states[i].workers[w];
    && (worker.pc.Free? || worker.pc.Claimed? || worker.pc.Exchanging? ==>
          worker.reading.freeAt == LastFree(states, actions, w, i))
    && (worker.pc.Claimed? || worker.pc.Exchanging? ==> worker.reading.slot == LastClaim(states, actions, w, i))
    && (worker.pc.Exchanging? ==> worker.reading.sending == LastSend(states, actions, w, i))
    && worker.local.carried == FinishedBy(plan, states, actions, w, i)
  }

  lemma StepIsTimely(plan: Plan, states: seq<State>, actions: seq<Action>, w: nat, i: nat)
    requires i < |actions| && i + 1 < |states| && w < |states[i].workers|
    requires Enabled(plan, states[i], actions[i]) && states[i + 1] == Apply(plan, states[i], actions[i])
    requires Timely(plan, states, actions, w, i)
    ensures Timely(plan, states, actions, w, i + 1)
  {
    hide DueAt;
    var a, worker := actions[i], states[i].workers[w];
    NeverEarly(plan, worker.reading.slot);
    if !a.Tick? && a.w == w {
      match a
      case Enter(_) =>
      case Connect(_, _) =>
      case ComeFree(_) =>
      case Claim(_) =>
      case Send(_) =>
      case Finish(_, _) =>
    }
  }

  /** What each worker has recorded, in every reachable state, is what the run did: for each of its
      exchanges, the due time of the slot it had claimed, when it had come free, when it sent. */
  lemma {:induction false} CarriedIsWhatHappened(plan: Plan, n: nat, states: seq<State>, actions: seq<Action>,
                                                 w: nat, i: nat)
    requires IsRun(plan, n, states, actions) && i < |states| && w < n
    ensures |states[i].workers| == n && Timely(plan, states, actions, w, i)
  {
    hide Timely, Inv, Enabled, Apply;
    RunKeepsInv(plan, n, states, actions, i);
    if i == 0 {
      StartIsTimely(plan, n, states, actions, w);
    } else {
      CarriedIsWhatHappened(plan, n, states, actions, w, i - 1);
      assert states[i] == Apply(plan, states[i - 1], actions[i - 1]);
      StepIsTimely(plan, states, actions, w, i - 1);
    }
  }

  lemma StartIsTimely(plan: Plan, n: nat, states: seq<State>, actions: seq<Action>, w: nat)
    requires IsRun(plan, n, states, actions) && w < n
    ensures |states[0].workers| == n && Timely(plan, states, actions, w, 0)
  {
  }

  // ----- Connects, failed and successful, across the whole system -----

  /** Failed connects among the first i actions, by any worker, that came after warm-up. */
  function FailedConnects(plan: Plan, states: seq<State>, actions: seq<Action>, i: nat): nat
    requires i <= |actions| && i <= |states|
  {
    if i == 0 then 0
    else
      var a := actions[i - 1];
      FailedConnects(plan, states, actions, i - 1)
      + if a.Connect? && !a.ok && states[i - 1].now >= plan.recordFrom then 1 else 0
  }

  function MadeConnects(actions: seq<Action>, i: nat): nat
    requires i <= |actions|
  {
    if i == 0 then 0
    else MadeConnects(actions, i - 1) + if actions[i - 1].Connect? && actions[i - 1].ok then 1 else 0
  }

  lemma {:induction false} OneLocalChanges(locals: seq<Local>, i: nat, after: Local)
    requires i < |locals|
    ensures ErrorsByAll(locals[i := after]).connect == ErrorsByAll(locals).connect - locals[i].refused + after.refused
    ensures OpensByAll(locals[i := after]) == OpensByAll(locals) - locals[i].opens + after.opens
  {
    hide ErrorsOf;
    var n, changed := |locals| - 1, locals[i := after];
    if i == n {
      assert changed[..n] == locals[..n];
    } else {
      assert changed[..n] == locals[..n][i := after];
      OneLocalChanges(locals[..n], i, after);
    }
  }

  lemma {:induction false} NothingConnected(locals: seq<Local>)
    requires forall i :: 0 <= i < |locals| ==> locals[i] == FRESH
    ensures ErrorsByAll(locals).connect == 0 && OpensByAll(locals) == 0
  {
    hide ErrorsOf;
    if locals != [] {
      NothingConnected(locals[..|locals| - 1]);
    }
  }

  lemma StepConnects(plan: Plan, s: State, a: Action)
    requires Inv(plan, s) && Enabled(plan, s, a) && !a.Tick?
    ensures var before, after := s.workers[a.w].local, Step(plan, s, s.workers[a.w], a).local;
            && after.refused == before.refused
                                + (if a.Connect? && !a.ok && s.now >= plan.recordFrom then 1 else 0)
            && after.opens == before.opens + (if a.Connect? && a.ok then 1 else 0)
  {
    hide SlotsKept, ClockKept, TurnsKept, Due;
    assert WorkerInv(plan, s.now, s.workers[a.w]);
  }

  /** In every reachable state of every run, the connect errors reported are exactly the connects that
      failed after warm-up, and the connections opened exactly those that succeeded. */
  lemma {:induction false} ConnectsAreCounted(plan: Plan, n: nat, states: seq<State>, actions: seq<Action>, i: nat)
    requires IsRun(plan, n, states, actions) && i < |states|
    ensures ErrorsByAll(Locals(states[i].workers)).connect == FailedConnects(plan, states, actions, i)
    ensures OpensByAll(Locals(states[i].workers)) == MadeConnects(actions, i)
  {
    hide Inv, Step, Enabled, ErrorsByAll, OpensByAll;
    if i == 0 {
      NothingConnected(Locals(states[0].workers));
    } else {
      var s, a := states[i - 1], actions[i - 1];
      ConnectsAreCounted(plan, n, states, actions, i - 1);
      assert states[i] == Apply(plan, s, a);
      if a.Tick? {
        assert states[i].workers == s.workers;
      } else {
        RunKeepsInv(plan, n, states, actions, i - 1);
        EnabledWorker(plan, s, a);
        StepConnects(plan, s, a);
        var after := Step(plan, s, s.workers[a.w], a);
        OneLocalChanges(Locals(s.workers), a.w, after.local);
        assert Locals(states[i].workers) == Locals(s.workers)[a.w := after.local];
      }
    }
  }

  lemma EnabledWorker(plan: Plan, s: State, a: Action)
    requires Enabled(plan, s, a) && !a.Tick?
    ensures a.w < |s.workers|
  {
  }

  /** So the attempts of a finished run are exactly the claimed slots due before the deadline and the
      connects that failed after warm-up. */
  lemma AttemptsExactly(plan: Plan, n: nat, states: seq<State>, actions: seq<Action>)
    requires IsRun(plan, n, states, actions) && Finished(states[|actions|])
    ensures AttemptedByAll(Locals(states[|actions|].workers))
            == DueBefore(plan, states[|actions|].next) + FailedConnects(plan, states, actions, |actions|)
  {
    hide ErrorsByAll, AttemptedByAll, Finished, DueBefore, FailedConnects;
    AccountsSettle(plan, n, states, actions);
    ConnectsAreCounted(plan, n, states, actions, |actions|);
  }

  lemma {:induction false} DueBeforeIsPrefix(plan: Plan, n: nat, m: nat)
    requires m <= n
    requires forall j :: 0 <= j < n ==> (Due(plan, j) < plan.deadline <==> j < m)
    ensures DueBefore(plan, n) == m
  {
    hide Due;
    if n > 0 {
      DueBeforeIsPrefix(plan, n - 1, if m == n then m - 1 else m);
    }
  }

  /** A finished run sends at most one request more than its rate called for, and no fewer unless it
      claimed too few slots: `slots_due` and `slots_claimed` together bound what was attempted. */
  lemma AttemptsMeetTheRate(plan: Plan, n: nat, states: seq<State>, actions: seq<Action>)
    requires IsRun(plan, n, states, actions) && Finished(states[|actions|]) && plan.recordFrom <= plan.deadline
    ensures var locals, claimed := Locals(states[|actions|].workers), states[|actions|].next;
            var sent, due := AttemptedByAll(locals) - ErrorsByAll(locals).connect,
                             SlotsDue(plan.rate, plan.deadline - plan.recordFrom);
            && (if claimed <= due then sent == claimed else due <= sent <= due + 1)
  {
    var claimed := states[|actions|].next;
    var due := SlotsDue(plan.rate, plan.deadline - plan.recordFrom);
    AccountsSettle(plan, n, states, actions);
    forall j: nat
      ensures j < due ==> Due(plan, j) < plan.deadline
      ensures Due(plan, j) < plan.deadline ==> j <= due
    {
      SlotsDueCounts(plan.rate, plan.deadline - plan.recordFrom, j);
    }
    var m := if claimed <= due then claimed else if Due(plan, due) < plan.deadline then due + 1 else due;
    DueBeforeIsPrefix(plan, claimed, m);
  }

  /** Interleaving does not show: a worker that has returned has exactly the tally the sequential
      loop computes from that worker's own readings, and those readings are well clocked. */
  lemma WorkersAreSequential(plan: Plan, n: nat, states: seq<State>, actions: seq<Action>, i: nat, w: nat)
    requires IsRun(plan, n, states, actions) && i < |states| && w < n
    ensures |states[i].workers| == n
    ensures var worker := states[i].workers[w];
            && (worker.pc.Done? ==> Drive(plan, worker.turns) == (worker.local, true))
            && forall k :: 0 <= k < |worker.turns| ==> CarriageOf(plan, worker.turns[k]).Clocked()
  {
    RunKeepsInv(plan, n, states, actions, i);
    assert WorkerInv(plan, states[i].now, states[i].workers[w]);
  }

  /** Connection churn: every socket opened, over any reachable state, either broke on an exchange
      or is still open. */
  lemma SocketsAccounted(plan: Plan, n: nat, states: seq<State>, actions: seq<Action>, i: nat, w: nat)
    requires IsRun(plan, n, states, actions) && i < |states| && w < n
    ensures |states[i].workers| == n
    ensures var local := states[i].workers[w].local;
            local.opens == Broken(local.carried) + (if local.socket then 1 else 0)
  {
    RunKeepsInv(plan, n, states, actions, i);
    assert WorkerInv(plan, states[i].now, states[i].workers[w]);
  }

  /** Percentile dominance, exactly, in every reachable state of every run: lag over connection wait,
      and latency over lag when every request sent was timed, hold at every percentile if and only if
      the histograms compared are clear of the overflow boundary. */
  lemma RunPercentilesDominate(plan: Plan, n: nat, states: seq<State>, actions: seq<Action>, i: nat)
    requires IsRun(plan, n, states, actions) && i < |states| && Carried(Locals(states[i].workers)) != []
    ensures var locals := Locals(states[i].workers);
            var cs := Carried(locals);
            && |Lags(cs)| == |Waits(cs)| == |cs|
            && (PercentilesBelow(Of(Waits(cs)), Of(Lags(cs)), |cs|)
                <==> DominanceClear(Of(Lags(cs)), Of(Waits(cs))))
            && (ErrorsByAll(locals).Untimed() == ErrorsByAll(locals).connect ==>
                  && |Latencies(cs)| == |cs|
                  && (PercentilesBelow(Of(Lags(cs)), Of(Latencies(cs)), |cs|)
                      <==> DominanceClear(Of(Latencies(cs)), Of(Lags(cs)))))
  {
    hide Of, Lags, Waits, Latencies, ErrorsOf, ErrorsByAll, DominanceClear, PercentilesBelow, Inv, WorkerInv;
    var locals := Locals(states[i].workers);
    RunKeepsInv(plan, n, states, actions, i);
    InvWorkers(plan, states[i]);
    CarriedAreClocked(plan, states[i].now, states[i].workers);
    ErrorsMerge(locals);
    PercentilesDominate(Carried(locals));
  }

  lemma InvWorkers(plan: Plan, s: State)
    requires Inv(plan, s)
    ensures forall i :: 0 <= i < |s.workers| ==> WorkerInv(plan, s.now, s.workers[i])
  {
  }

  // ----- A sender that is never late of its own accord -----

  function Earliest(c: Carriage): int {
    if c.due < c.freeAt then c.freeAt else c.due
  }

  /** Every sleep in the run ended the instant it should have. */
  ghost predicate WokeOnTime(plan: Plan, states: seq<State>, actions: seq<Action>) {
    && |actions| < |states|
    && forall i :: 0 <= i < |actions| && actions[i].Send? && actions[i].w < |states[i].workers| ==>
         states[i].now == Earliest(CarriageOf(plan, states[i].workers[actions[i].w].reading))
  }

  ghost predicate OnTime(plan: Plan, w: Worker) {
    && Punctual(w.local.carried)
    && (w.pc.Exchanging? ==> w.reading.sending == Earliest(CarriageOf(plan, w.reading)))
  }

  lemma StepStaysOnTime(plan: Plan, s: State, a: Action)
    requires !a.Tick? && Enabled(plan, s, a) && OnTime(plan, s.workers[a.w])
    requires a.Send? ==> s.now == Earliest(CarriageOf(plan, s.workers[a.w].reading))
    ensures OnTime(plan, Step(plan, s, s.workers[a.w], a))
  {
    hide Due;
  }

  lemma {:induction false} RunStaysOnTime(plan: Plan, n: nat, states: seq<State>, actions: seq<Action>, i: nat, k: nat)
    requires IsRun(plan, n, states, actions) && WokeOnTime(plan, states, actions) && i < |states| && k < n
    ensures |states[i].workers| == n && OnTime(plan, states[i].workers[k])
  {
    hide Inv, Enabled, Step, OnTime;
    RunKeepsInv(plan, n, states, actions, i);
    if i == 0 {
      FreshOnTime(plan, states[0].now);
    } else {
      var before, a := states[i - 1], actions[i - 1];
      assert states[i] == Apply(plan, before, a);
      RunStaysOnTime(plan, n, states, actions, i - 1, k);
      if !a.Tick? && a.w == k {
        StepStaysOnTime(plan, before, a);
      }
    }
  }

  lemma FreshOnTime(plan: Plan, now: int)
    ensures OnTime(plan, Worker(Top, FRESH, [], [], Blank(plan, now), []))
  {
  }

  lemma {:induction false} AllPunctual(workers: seq<Worker>)
    requires forall i :: 0 <= i < |workers| ==> Punctual(workers[i].local.carried)
    ensures Punctual(Carried(Locals(workers)))
  {
    if workers != [] {
      var n := |workers| - 1;
      AllPunctual(workers[..n]);
      assert Locals(workers)[..n] == Locals(workers[..n]);
    }
  }

  /** If every sleep wakes exactly on time, no lateness is ever the rig's: however slow the target,
      however few the connections and whatever the rate, the sender is found to have kept up. */
  lemma PunctualRunKeepsUp(plan: Plan, n: nat, states: seq<State>, actions: seq<Action>)
    requires IsRun(plan, n, states, actions) && WokeOnTime(plan, states, actions)
    ensures var cs := Carried(Locals(states[|actions|].workers));
            Rigs(cs) == seq(|cs|, _ => 0) && KeptUp(Rigs(cs), plan.rate)
  {
    hide OnTime, Inv, KeptUp, Rigs;
    var workers := states[|actions|].workers;
    RunKeepsInv(plan, n, states, actions, |actions|);
    forall k | 0 <= k < n ensures Punctual(workers[k].local.carried) {
      RunStaysOnTime(plan, n, states, actions, |actions|, k);
      OnTimeIsPunctual(plan, workers[k]);
    }
    AllPunctual(workers);
    PunctualRigIsBlameless(Carried(Locals(workers)));
    PunctualSenderKeepsUp(Carried(Locals(workers)), plan.rate);
  }

  lemma OnTimeIsPunctual(plan: Plan, w: Worker)
    requires OnTime(plan, w)
    ensures Punctual(w.local.carried)
  {
  }
}
