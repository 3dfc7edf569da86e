/** Where the two halves meet: the worker loops, which decide when a connection is dropped, and the
    exchanges, which keep a connection in step while it is not. */
module Connections {
  import opened Accounts
  import opened Exchanges
  import Framing
  import Open = OpenLoop
  import Closed = ClosedLoop

  /** Whatever an open-loop worker goes through, every reply it accepts is the reply to its own
      request, on every connection it ever opened. */
  lemma OpenLoopRepliesAreItsOwn(plan: Open.Plan, turns: seq<Open.Reading>, p: Framing.Protocol,
                                 wires: nat -> nat -> Read, frames: nat -> seq<string>)
    requires TargetReplies(p, wires, frames) && Performed(p, wires, Open.Uses(plan, turns))
    ensures OwnReplies(p, wires, frames, Open.Uses(plan, turns))
  {
    hide TargetReplies, Performed, Answered, OwnReplies;
    Open.UnusableIsDropped(plan, turns);
    PerformedIsAnswered(p, wires, Open.Uses(plan, turns));
    RepliesNeverMisattributed(p, wires, frames, Open.Uses(plan, turns));
  }

  /** The same of a closed-loop worker. */
  lemma ClosedLoopRepliesAreItsOwn(plan: Closed.Plan, turns: seq<Closed.Reading>, p: Framing.Protocol,
                                   wires: nat -> nat -> Read, frames: nat -> seq<string>)
    requires TargetReplies(p, wires, frames) && Performed(p, wires, Closed.Uses(plan, turns))
    ensures OwnReplies(p, wires, frames, Closed.Uses(plan, turns))
  {
    hide TargetReplies, Performed, Answered, OwnReplies;
    Closed.UnusableIsDropped(plan, turns);
    PerformedIsAnswered(p, wires, Closed.Uses(plan, turns));
    RepliesNeverMisattributed(p, wires, frames, Closed.Uses(plan, turns));
  }
}
