/** src/stats/timeseries.hpp: latency by elapsed second, buffered privately by each writer and
    merged into a shared list under a lock.

    The classes are the source's objects; the state system below lets any number of writers
    interleave, one locked merge at a time, with timestamps that may go backwards. */
module TimeSeries {
  import opened Buckets
  import opened Tallies
  import opened Histograms

  const SECOND: nat := 1_000_000_000

  function SecondOf(start: int, now: int): nat {
    if now - start <= 0 then 0 else (now - start) / SECOND
  }

  /** The instants that belong to a second of the run; everything before the start is in the first. */
  predicate InSecond(start: int, at: int, second: nat) {
    && at < start + (second + 1) * 1_000_000_000
    && (second > 0 ==> start + second * 1_000_000_000 <= at)
  }

  /** The second an instant is put in is the one it lies in, and there is only one. */
  lemma SecondExactly(start: int, at: int, second: nat)
    ensures SecondOf(start, at) == second <==> InSecond(start, at, second)
    ensures at >= start ==>
              (SecondOf(start, at) == second
               <==> start + second * 1_000_000_000 <= at < start + (second + 1) * 1_000_000_000)
    ensures at < start ==> SecondOf(start, at) == 0
  {
  }

  // ----- The shared list, as a value -----

  function At(shared: seq<Tally>, second: nat): Tally {
    if second < |shared| then shared[second] else Zero()
  }

  function Resized(shared: seq<Tally>, size: nat): seq<Tally> {
    if |shared| < size then shared + seq(size - |shared|, _ => Zero()) else shared
  }

  function Absorbed(shared: seq<Tally>, second: nat, t: Tally): seq<Tally> {
    var grown := Resized(shared, second + 1);
    grown[second := Join(grown[second], t)]
  }

  lemma AbsorbedAt(shared: seq<Tally>, second: nat, t: Tally, s: nat)
    ensures At(Absorbed(shared, second, t), s)
            == if s == second then Join(At(shared, s), t) else At(shared, s)
  {
  }

  lemma {:induction false} JoinAllConcat(a: seq<Tally>, b: seq<Tally>)
    ensures JoinAll(a + b) == Join(JoinAll(a), JoinAll(b))
  {
    if b == [] {
      assert a + b == a;
      JoinZero(JoinAll(a));
    } else {
      var front := b[..|b| - 1];
      assert (a + b)[..|a + b| - 1] == a + front;
      JoinAllConcat(a, front);
      JoinAssociates(JoinAll(a), JoinAll(front), b[|b| - 1]);
    }
  }

  /** Absorbing into any second adds exactly that much to the whole. */
  lemma AbsorbedTotal(shared: seq<Tally>, second: nat, t: Tally)
    ensures JoinAll(Absorbed(shared, second, t)) == Join(JoinAll(shared), t)
  {
    hide JoinAll, Join;
    var grown := Resized(shared, second + 1);
    if |shared| < second + 1 {
      JoinAllConcat(shared, seq(second + 1 - |shared|, _ => Zero()));
      JoinAllZeros(second + 1 - |shared|);
      JoinZero(JoinAll(shared));
    }
    JoinAllAdds(grown, second, t);
  }

  // ----- A writer, as a value -----

  datatype Writing = Writing(pending: Tally, current: nat)

  const IDLE: Writing := Writing(Zero(), 0)

  function SharedAfterFlush(shared: seq<Tally>, w: Writing): seq<Tally> {
    if w.pending.count > 0 then Absorbed(shared, w.current, w.pending) else shared
  }

  function AfterFlush(w: Writing): Writing {
    if w.pending.count > 0 then w.(pending := Zero()) else w
  }

  function SharedAfterRecord(shared: seq<Tally>, w: Writing, second: nat): seq<Tally> {
    if second != w.current then SharedAfterFlush(shared, w) else shared
  }

  function AfterRecord(w: Writing, second: nat, latency: nat): Writing {
    var ready := if second != w.current then AfterFlush(w).(current := second) else w;
    ready.(pending := Plus(ready.pending, latency))
  }

  class Series {
    const start: int
    var seconds: seq<Tally>

    constructor (start: int)
      ensures this.start == start && seconds == []
    {
      this.start, seconds := start, [];
    }

    /** Runs with the lock held. */
    method Absorb(second: nat, histogram: Histogram)
      requires histogram.Valid()
      modifies this
      ensures seconds == Absorbed(old(seconds), second, histogram.View())
    {
      hide Join, Of, Zero;
      if |seconds| <= second {
        seconds := seconds + seq(second + 1 - |seconds|, _ => Zero());
      }
      seconds := seconds[second := Join(seconds[second], histogram.View())];
    }
  }

  class Writer {
    const owner: Series
    var pending: Histogram
    var current: nat

    ghost function View(): Writing
      requires pending.slots.Length == COUNT
      reads this, pending, pending.slots
    {
      Writing(pending.View(), current)
    }

    constructor (owner: Series)
      ensures this.owner == owner && fresh(pending) && fresh(pending.slots)
      ensures pending.Valid() && View() == IDLE
    {
      this.owner, current := owner, 0;
      pending := new Histogram();
    }

    method Flush()
      requires pending.Valid()
      modifies this, owner
      ensures pending.Valid()
      ensures pending == old(pending) || (fresh(pending) && fresh(pending.slots))
      ensures owner.seconds == SharedAfterFlush(old(owner.seconds), old(View()))
      ensures View() == AfterFlush(old(View()))
    {
      if pending.count > 0 {
        owner.Absorb(current, pending);
        pending := new Histogram();
      }
    }

    method Record(now: int, latency: int)
      requires pending.Valid() && latency >= 0
      modifies this, owner, pending, pending.slots
      ensures pending.Valid()
      ensures pending == old(pending) || (fresh(pending) && fresh(pending.slots))
      ensures owner.seconds
              == SharedAfterRecord(old(owner.seconds), old(View()), SecondOf(owner.start, now))
      ensures View() == AfterRecord(old(View()), SecondOf(owner.start, now), latency)
    {
      hide Of, Plus, Zero;
      var second := SecondOf(owner.start, now);
      if second != current {
        Flush();
        current := second;
      }
      OfSnoc(pending.samples, latency);
      pending.Record(latency);
    }
  }

  // ----- Any number of writers -----

  /** `history` is every sample recorded so far, with the instant it finished at. */
  datatype Entry = Entry(at: int, latency: nat)

  datatype State = State(start: int, shared: seq<Tally>, writers: seq<Writing>, history: seq<Entry>)

  datatype Action = Record(w: nat, now: int, latency: nat) | Flush(w: nat)

  function Start(start: int, n: nat): State {
    State(start, [], seq(n, _ => IDLE), [])
  }

  predicate Enabled(s: State, a: Action) {
    a.w < |s.writers|
  }

  function Apply(s: State, a: Action): State
    requires Enabled(s, a)
  {
    var w := s.writers[a.w];
    match a
    case Flush(i) =>
      s.(shared := SharedAfterFlush(s.shared, w), writers := s.writers[i := AfterFlush(w)])
    case Record(i, now, latency) =>
      var second := SecondOf(s.start, now);
      s.(shared := SharedAfterRecord(s.shared, w, second),
         writers := s.writers[i := AfterRecord(w, second, latency)],
         history := s.history + [Entry(now, latency)])
  }

  ghost predicate IsRun(start: int, n: nat, states: seq<State>, actions: seq<Action>) {
    && |states| == |actions| + 1
    && states[0] == Start(start, n)
    && forall i :: 0 <= i < |actions| ==>
         Enabled(states[i], actions[i]) && states[i + 1] == Apply(states[i], actions[i])
  }

  /** The samples that finished in a second of the run, in order. */
  function Finished(start: int, history: seq<Entry>, second: nat): seq<nat> {
    if history == [] then []
    else
      var e := history[|history| - 1];
      Finished(start, history[..|history| - 1], second) + if InSecond(start, e.at, second) then [e.latency] else []
  }

  function Latencies(history: seq<Entry>): seq<nat> {
    seq(|history|, i requires 0 <= i < |history| => history[i].latency)
  }

  /** What the writers still hold back for a second. */
  function Held(writers: seq<Writing>, second: nat): seq<Tally> {
    seq(|writers|, i requires 0 <= i < |writers| =>
      if writers[i].current == second then writers[i].pending else Zero())
  }

  function Pending(writers: seq<Writing>): seq<Tally> {
    seq(|writers|, i requires 0 <= i < |writers| => writers[i].pending)
  }

  ghost predicate Tidy(writers: seq<Writing>) {
    forall i :: 0 <= i < |writers| ==> (writers[i].pending.count == 0 ==> writers[i].pending == Zero())
  }

  ghost predicate Direct(s: State, second: nat) {
    Join(At(s.shared, second), JoinAll(Held(s.writers, second))) == Of(Finished(s.start, s.history, second))
  }

  ghost predicate Inv(s: State) {
    && Tidy(s.writers)
    && (forall second :: Direct(s, second))
    && Join(JoinAll(s.shared), JoinAll(Pending(s.writers))) == Of(Latencies(s.history))
    && (s.shared != [] ==> s.shared[|s.shared| - 1].count > 0)
  }

  /** Handing a part over changes nothing in the sum. */
  lemma MoveAcross(total: Tally, parts: seq<Tally>, i: nat)
    requires i < |parts|
    ensures Join(Join(total, parts[i]), JoinAll(parts[i := Zero()])) == Join(total, JoinAll(parts))
  {
    hide JoinAll, Join;
    var rest := JoinAll(parts[i := Zero()]);
    JoinAllSplitsOut(parts, i);
    JoinCommutes(rest, parts[i]);
    JoinAssociates(total, parts[i], rest);
  }

  function Emptied(s: State, i: nat): State
    requires i < |s.writers|
  {
    s.(shared := SharedAfterFlush(s.shared, s.writers[i]), writers := s.writers[i := AfterFlush(s.writers[i])])
  }

  lemma FlushKeepsDirect(s: State, i: nat, second: nat)
    requires Inv(s) && i < |s.writers|
    ensures Direct(Emptied(s, i), second)
  {
    hide JoinAll, Join, Of, Finished;
    var w := s.writers[i];
    assert Direct(s, second);
    if w.pending.count > 0 {
      var before, after := Held(s.writers, second), Held(Emptied(s, i).writers, second);
      AbsorbedAt(s.shared, w.current, w.pending, second);
      if second == w.current {
        assert after == before[i := Zero()];
        MoveAcross(At(s.shared, second), before, i);
      } else {
        assert after == before;
      }
    } else {
      assert Emptied(s, i).writers == s.writers;
    }
  }

  lemma FlushKeepsTotal(s: State, i: nat)
    requires Inv(s) && i < |s.writers|
    ensures var t := Emptied(s, i);
            Join(JoinAll(t.shared), JoinAll(Pending(t.writers))) == Of(Latencies(t.history))
  {
    hide JoinAll, Join, Of, Latencies, Direct;
    var w := s.writers[i];
    if w.pending.count > 0 {
      var parts := Pending(s.writers);
      AbsorbedTotal(s.shared, w.current, w.pending);
      assert Pending(Emptied(s, i).writers) == parts[i := Zero()];
      MoveAcross(JoinAll(s.shared), parts, i);
    } else {
      assert Emptied(s, i).writers == s.writers;
    }
  }

  lemma FlushKeepsInv(s: State, i: nat)
    requires Inv(s) && i < |s.writers|
    ensures Inv(Emptied(s, i)) && Emptied(s, i).writers[i].pending == Zero()
  {
    hide JoinAll, Of, Direct, Latencies;
    forall second ensures Direct(Emptied(s, i), second) {
      FlushKeepsDirect(s, i, second);
    }
    FlushKeepsTotal(s, i);
  }

  /** An emptied writer may turn to any second: it holds nothing back for either. */
  function Turned(s: State, i: nat, second: nat): State
    requires i < |s.writers|
  {
    s.(writers := s.writers[i := s.writers[i].(current := second)])
  }

  lemma TurnKeepsInv(s: State, i: nat, second: nat)
    requires Inv(s) && i < |s.writers| && s.writers[i].pending == Zero()
    ensures Inv(Turned(s, i, second))
  {
    hide JoinAll, Join, Of, Latencies, Finished;
    var t := Turned(s, i, second);
    forall other ensures Direct(t, other) {
      assert Direct(s, other);
      assert Held(t.writers, other) == Held(s.writers, other);
    }
    assert Pending(t.writers) == Pending(s.writers);
  }

  /** Recording into the second the writer is already at. */
  function Added(s: State, i: nat, now: int, latency: nat): State
    requires i < |s.writers|
  {
    var w := s.writers[i];
    s.(writers := s.writers[i := w.(pending := Plus(w.pending, latency))],
       history := s.history + [Entry(now, latency)])
  }

  lemma AddToPart(total: Tally, parts: seq<Tally>, i: nat, samples: seq<nat>, v: nat)
    requires i < |parts| && Join(total, JoinAll(parts)) == Of(samples)
    ensures Join(total, JoinAll(parts[i := Plus(parts[i], v)])) == Of(samples + [v])
  {
    hide JoinAll, Join, Of, Plus;
    var one := Plus(Zero(), v);
    PlusIsJoin(parts[i], v);
    JoinAllAdds(parts, i, one);
    JoinAssociates(total, JoinAll(parts), one);
    OfSnoc(samples, v);
    PlusIsJoin(Of(samples), v);
  }

  lemma FinishedSnoc(start: int, history: seq<Entry>, e: Entry, second: nat)
    ensures var before := Finished(start, history, second);
            Finished(start, history + [e], second)
            == if SecondOf(start, e.at) == second then before + [e.latency] else before
  {
    SecondExactly(start, e.at, second);
    assert (history + [e])[..|history|] == history;
  }

  lemma AddKeepsInv(s: State, i: nat, now: int, latency: nat)
    requires Inv(s) && i < |s.writers| && s.writers[i].current == SecondOf(s.start, now)
    ensures Inv(Added(s, i, now, latency))
  {
    hide JoinAll, Join, Of, Finished, SecondOf;
    var w, t := s.writers[i], Added(s, i, now, latency);
    forall second ensures Direct(t, second) {
      assert Direct(s, second);
      FinishedSnoc(s.start, s.history, Entry(now, latency), second);
      var before := Held(s.writers, second);
      if second == w.current {
        assert Held(t.writers, second) == before[i := Plus(before[i], latency)];
        AddToPart(At(s.shared, second), before, i, Finished(s.start, s.history, second), latency);
      } else {
        assert Held(t.writers, second) == before;
      }
    }
    var parts := Pending(s.writers);
    assert Pending(t.writers) == parts[i := Plus(parts[i], latency)];
    assert Latencies(t.history) == Latencies(s.history) + [latency];
    AddToPart(JoinAll(s.shared), parts, i, Latencies(s.history), latency);
  }

  lemma StepKeepsInv(s: State, a: Action)
    requires Inv(s) && Enabled(s, a)
    ensures Inv(Apply(s, a)) && |Apply(s, a).writers| == |s.writers| && Apply(s, a).start == s.start
  {
    hide Inv, SecondOf;
    match a
    case Flush(i) =>
      FlushKeepsInv(s, i);
    case Record(i, now, latency) =>
      var second := SecondOf(s.start, now);
      if second == s.writers[i].current {
        AddKeepsInv(s, i, now, latency);
      } else {
        var flushed := Emptied(s, i);
        var turned := Turned(flushed, i, second);
        FlushKeepsInv(s, i);
        TurnKeepsInv(flushed, i, second);
        AddKeepsInv(turned, i, now, latency);
        assert Apply(s, a) == Added(turned, i, now, latency);
      }
  }

  lemma NothingYet(n: nat, zeros: seq<Tally>)
    requires zeros == seq(n, _ => Zero())
    ensures Join(Zero(), JoinAll(zeros)) == Of([])
  {
    JoinAllZeros(n);
    JoinZero(Zero());
  }

  lemma StartInv(start: int, n: nat)
    ensures Inv(Start(start, n))
  {
    hide Join, JoinAll, Of;
    var s := Start(start, n);
    forall second ensures Direct(s, second) {
      assert At(s.shared, second) == Zero() && Finished(s.start, s.history, second) == [];
      NothingYet(n, Held(s.writers, second));
    }
    assert Latencies(s.history) == [] && JoinAll(s.shared) == Zero() by { NothingShared(); }
    NothingYet(n, Pending(s.writers));
  }

  lemma NothingShared()
    ensures JoinAll([]) == Zero()
  {
  }

  lemma {:induction false} RunKeepsInv(start: int, n: nat, states: seq<State>, actions: seq<Action>, i: nat)
    requires IsRun(start, n, states, actions) && i < |states|
    ensures Inv(states[i]) && |states[i].writers| == n && states[i].start == start
  {
    hide Inv;
    if i == 0 {
      StartInv(start, n);
    } else {
      RunKeepsInv(start, n, states, actions, i - 1);
      assert states[i] == Apply(states[i - 1], actions[i - 1]);
      StepKeepsInv(states[i - 1], actions[i - 1]);
    }
  }

  /** The shared series agrees with bucketing every sample directly: in every reachable state, for
      every second, the shared histogram joined with what the writers hold back for that second
      counts exactly the samples that finished in it. */
  lemma AgreesWithDirectBucketing(start: int, n: nat, states: seq<State>, actions: seq<Action>, i: nat, second: nat)
    requires IsRun(start, n, states, actions) && i < |states|
    ensures Join(At(states[i].shared, second), JoinAll(Held(states[i].writers, second)))
            == Of(Finished(start, states[i].history, second))
  {
    RunKeepsInv(start, n, states, actions, i);
    assert Direct(states[i], second);
  }

  ghost predicate NothingPending(s: State) {
    forall i :: 0 <= i < |s.writers| ==> s.writers[i].pending.count == 0
  }

  lemma FlushedSettles(s: State)
    requires Inv(s) && NothingPending(s)
    ensures forall second :: At(s.shared, second) == Of(Finished(s.start, s.history, second))
    ensures JoinAll(s.shared) == Of(Latencies(s.history))
  {
    hide Join, JoinAll, Of, Latencies, Finished;
    var n := |s.writers|;
    JoinAllZeros(n);
    forall second ensures At(s.shared, second) == Of(Finished(s.start, s.history, second)) {
      assert Direct(s, second);
      assert Held(s.writers, second) == seq(n, _ => Zero());
      JoinZero(At(s.shared, second));
    }
    assert Pending(s.writers) == seq(n, _ => Zero());
    JoinZero(JoinAll(s.shared));
  }

  /** Once every writer has flushed, each second's histogram is exactly its samples, nothing is
      missing from the whole, and the list ends at the last second in which anything finished. */
  lemma AfterFinalFlushes(start: int, n: nat, states: seq<State>, actions: seq<Action>)
    requires IsRun(start, n, states, actions) && NothingPending(states[|actions|])
    ensures var s := states[|actions|];
            && (forall second :: At(s.shared, second) == Of(Finished(s.start, s.history, second)))
            && JoinAll(s.shared) == Of(Latencies(s.history))
            && (s.shared != [] ==> Finished(s.start, s.history, |s.shared| - 1) != [])
            && (forall second :: second >= |s.shared| ==> Finished(s.start, s.history, second) == [])
  {
    hide JoinAll, Latencies, Finished, Join;
    var s := states[|actions|];
    RunKeepsInv(start, n, states, actions, |actions|);
    FlushedSettles(s);
    forall second: nat | second >= |s.shared| ensures Finished(s.start, s.history, second) == [] {
      CountIsLength(Finished(s.start, s.history, second));
      assert At(s.shared, second).count == 0;
    }
    if s.shared != [] {
      var last := |s.shared| - 1;
      CountIsLength(Finished(s.start, s.history, last));
      assert At(s.shared, last).count > 0;
    }
  }
}
