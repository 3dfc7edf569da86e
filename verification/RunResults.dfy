/** src/load/run_result.hpp and the outcome types of src/load/exchange.hpp. */
module RunResults {
  import opened Wrappers
  import opened Histograms

  datatype Outcome = Succeeded | Rejected | TimedOut | ProtocolError | ReadFailed | WriteFailed

  /** What one request did: how it ended, how long it took, and whether the connection survives. */
  datatype Exchange = Exchange(outcome: Outcome, elapsed: nat, usable: bool)

  /** The three outcomes that have a reply, or the lack of one, to time. */
  predicate Timed(outcome: Outcome) {
    outcome.Succeeded? || outcome.Rejected? || outcome.TimedOut?
  }

  datatype ErrorCounts = ErrorCounts(connect: nat, write: nat, read: nat,
                                     timeout: nat, protocol: nat, rejected: nat)
  {
    function Untimed(): nat {
      connect + write + read + protocol
    }

    function Merge(other: ErrorCounts): ErrorCounts {
      ErrorCounts(connect + other.connect, write + other.write, read + other.read,
                  timeout + other.timeout, protocol + other.protocol, rejected + other.rejected)
    }

    function Count(outcome: Outcome): ErrorCounts {
      match outcome
      case Succeeded => this
      case Rejected => this.(rejected := rejected + 1)
      case TimedOut => this.(timeout := timeout + 1)
      case ProtocolError => this.(protocol := protocol + 1)
      case ReadFailed => this.(read := read + 1)
      case WriteFailed => this.(write := write + 1)
    }
  }

  const NO_ERRORS: ErrorCounts := ErrorCounts(0, 0, 0, 0, 0, 0)

  lemma MergeButConnect(a: ErrorCounts, b: ErrorCounts)
    ensures a.Merge(b).(connect := 0) == a.(connect := 0).Merge(b.(connect := 0))
  {
  }

  datatype RunResult = RunResult(attempted: nat, errors: ErrorCounts, latency: Option<Summary>, duration: nat)
  {
    function TimedCount(): nat {
      if latency.Some? then latency.value.samples else 0
    }

    /** Does every attempt show up exactly once, as a timed sample or as an untimed error? */
    predicate Consistent() {
      attempted == TimedCount() + errors.Untimed()
    }
  }
}
