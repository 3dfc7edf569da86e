/** src/load/exchange.cpp: send one request, read one reply; and why a connection that is reused
    stays in step with its target. */
module Exchanges {
  import opened Text
  import opened Framing
  import Http
  import opened RunResults
  import opened Accounts

  // ----- What a socket answers -----

  /** One return of read_some, and the clock when it returned.  No bytes is a clean close. */
  datatype Read = Bytes(data: string, at: int) | NoneInTime(at: int) | Broken(at: int)

  datatype Written = Sent | NotInTime(at: int) | NotSent

  /** A connected socket: what its writes and reads will answer, and which have been made. */
  class Socket {
    const answers: nat -> Read
    const takes: nat -> Written
    var received: nat       // calls of ReadSome so far
    var wrote: seq<string>  // what each WriteAll was given

    constructor (answers: nat -> Read, takes: nat -> Written)
      ensures this.answers == answers && this.takes == takes && received == 0 && wrote == []
    {
      this.answers, this.takes, received, wrote := answers, takes, 0, [];
    }

    method WriteAll(data: string) returns (written: Written)
      modifies `wrote
      ensures written == takes(|old(wrote)|) && wrote == old(wrote) + [data]
    {
      written := takes(|wrote|);
      wrote := wrote + [data];
    }

    method ReadSome() returns (read: Read)
      modifies `received
      ensures read == answers(old(received)) && received == old(received) + 1
    {
      read := answers(received);
      received := received + 1;
    }
  }

  /** The caller's buffer, reused for every reply on a connection. */
  class Buffer {
    var bytes: string

    constructor ()
      ensures bytes == ""
    {
      bytes := "";
    }
  }

  // ----- One exchange -----

  /** How the reading of one reply ended. */
  datatype Reception = Reception(outcome: Outcome, usable: bool, received: string, upto: nat, at: int)

  function Room(p: Protocol, received: string): nat {
    if |received| < Limit(p) then Limit(p) - |received| else 0
  }

  function Receive(p: Protocol, answers: nat -> Read, begin: nat, received: string): Reception
    decreases Room(p, received)
  {
    match answers(begin)
    case NoneInTime(at) => Reception(TimedOut, false, received, begin + 1, at)
    case Broken(at) => Reception(ReadFailed, false, received, begin + 1, at)
    case Bytes(data, at) =>
      if data == "" then Reception(ReadFailed, false, received, begin + 1, at)
      else
        var now := received + data;
        match p.Consume(now)
        case NeedMore => WaitingIsBounded(p, now); Receive(p, answers, begin + 1, now)
        case Malformed => Reception(ProtocolError, false, now, begin + 1, at)
        case Complete => Reception(if p.Succeeded(now) then Succeeded else Rejected, true, now, begin + 1, at)
  }

  function Finished(r: Reception, sent: int): Exchange {
    Exchange(r.outcome, if Timed(r.outcome) then Positive(r.at - sent) else 0, r.usable)
  }

  /** What an exchange amounts to, by how its write ended and what its reads would bring. */
  function Concluded(written: Written, r: Reception, sent: int): Exchange {
    match written
    case NotInTime(at) => Exchange(TimedOut, Positive(at - sent), false)
    case NotSent => Exchange(WriteFailed, 0, false)
    case Sent => Finished(r, sent)
  }

  function Data(read: Read): string {
    if read.Bytes? then read.data else ""
  }

  /** Everything that arrived in a run of reads. */
  function Gathered(answers: nat -> Read, begin: nat, end: nat): string
    requires begin <= end
  {
    if begin == end then "" else Gathered(answers, begin, end - 1) + Data(answers(end - 1))
  }

  /** After the read before `mid` the reply is still unfinished: it brought bytes, and more are needed. */
  ghost predicate StillOpen(p: Protocol, answers: nat -> Read, begin: nat, mid: nat)
    requires begin < mid
  {
    && answers(mid - 1).Bytes? && answers(mid - 1).data != ""
    && p.Consume(Gathered(answers, begin, mid)).NeedMore?
  }

  /** What an exchange was told and what it made of it.  Every read but the last brought bytes that
      left the reply unfinished.  The last one decided: late, broken or empty, or bytes that settled
      the reply one way or the other. */
  ghost predicate Decided(p: Protocol, answers: nat -> Read, begin: nat, upto: nat, bytes: string,
                          sent: int, result: Exchange)
    requires begin < upto
  {
    && bytes == Gathered(answers, begin, upto)
    && (forall mid :: begin < mid < upto ==> StillOpen(p, answers, begin, mid))
    && match answers(upto - 1)
       case NoneInTime(at) => result == Exchange(TimedOut, Positive(at - sent), false)
       case Broken(_) => result == Exchange(ReadFailed, 0, false)
       case Bytes(data, at) =>
         if data == "" then result == Exchange(ReadFailed, 0, false)
         else
           match p.Consume(bytes)
           case NeedMore => false
           case Malformed => result == Exchange(ProtocolError, 0, false)
           case Complete =>
             result == Exchange(if p.RawEcho? || SaysYes(bytes) then Succeeded else Rejected, Positive(at - sent), true)
  }

  lemma {:induction false} ReadsDecide(p: Protocol, answers: nat -> Read, begin: nat, mid: nat, received: string,
                                       sent: int)
    requires begin <= mid && received == Gathered(answers, begin, mid)
    requires forall m :: begin < m <= mid ==> StillOpen(p, answers, begin, m)
    ensures var r := Receive(p, answers, mid, received);
            r.upto > mid && Decided(p, answers, begin, r.upto, r.received, sent, Finished(r, sent))
    decreases Room(p, received)
  {
    hide Protocol.Consume, Protocol.Succeeded, Limit, SaysYes;
    var read, now := answers(mid), received + Data(answers(mid));
    assert Gathered(answers, begin, mid + 1) == now;
    if read.Bytes? && read.data != "" {
      SuccessExactly(p, now);
      if p.Consume(now).NeedMore? {
        WaitingIsBounded(p, now);
        assert StillOpen(p, answers, begin, mid + 1);
        ReadsDecide(p, answers, begin, mid + 1, now, sent);
      }
    } else {
      assert now == received;
    }
  }

  lemma FirstReadsDecide(p: Protocol, answers: nat -> Read, begin: nat, sent: int)
    ensures var r := Receive(p, answers, begin, "");
            r.upto > begin && Decided(p, answers, begin, r.upto, r.received, sent, Finished(r, sent))
  {
    hide Receive, Decided, Finished;
    assert Gathered(answers, begin, begin) == "";
    ReadsDecide(p, answers, begin, begin, "", sent);
  }

  /** Whatever goes wrong becomes one of the outcomes, with a duration for those that have one.  The
      buffer is left holding exactly the bytes read for this reply. */
  method PerformRequest(socket: Socket, p: Protocol, buffer: Buffer, sent: int) returns (result: Exchange)
    modifies socket, buffer
    ensures socket.wrote == old(socket.wrote) + [if p.RawEcho? then p.payload else p.text]
    ensures var written := socket.takes(|old(socket.wrote)|);
            && (written.NotInTime? ==> result == Exchange(TimedOut, Positive(written.at - sent), false))
            && (written.NotSent? ==> result == Exchange(WriteFailed, 0, false))
            && (!written.Sent? ==> socket.received == old(socket.received))
            && (written.Sent? ==>
                  && socket.received > old(socket.received)
                  && Decided(p, socket.answers, old(socket.received), socket.received, buffer.bytes, sent, result))
    ensures var written := socket.takes(|old(socket.wrote)|);
            var r := Receive(p, socket.answers, old(socket.received), "");
            && result == Concluded(written, r, sent)
            && socket.received == (if written.Sent? then r.upto else old(socket.received))
            && buffer.bytes == (if written.Sent? then r.received else "")
  {
    hide Decided, Protocol.Consume, Protocol.Succeeded, Limit, Gathered;
    result := Exchange(WriteFailed, 0, false);
    buffer.bytes := "";
    var written := socket.WriteAll(p.Request());
    match written {
      case NotInTime(at) =>
        return Exchange(TimedOut, Positive(at - sent), false);
      case NotSent =>
        return;
      case Sent =>
    }
    ghost var whole := Receive(p, socket.answers, socket.received, "");
    FirstReadsDecide(p, socket.answers, socket.received, sent);
    while true
      invariant Receive(p, socket.answers, socket.received, buffer.bytes) == whole
      invariant result == Exchange(WriteFailed, 0, false) && socket.wrote == old(socket.wrote) + [p.Request()]
      decreases Room(p, buffer.bytes)
    {
      var read := socket.ReadSome();
      match read {
        case NoneInTime(at) =>
          return Exchange(TimedOut, Positive(at - sent), false);
        case Broken(_) =>
          return result.(outcome := ReadFailed);
        case Bytes(data, at) =>
          if data == "" {
            return result.(outcome := ReadFailed);
          }
          buffer.bytes := buffer.bytes + data;
          match p.Consume(buffer.bytes) {
            case NeedMore =>
              WaitingIsBounded(p, buffer.bytes);
              continue;
            case Malformed =>
              return result.(outcome := ProtocolError);
            case Complete =>
              var outcome := if p.Succeeded(buffer.bytes) then Succeeded else Rejected;
              return Exchange(outcome, Positive(at - sent), true);
          }
      }
    }
  }

  /** A 503 that arrives whole is a rejection, timed and on a usable connection; a 200 is a success. */
  lemma UnavailableIsRejected(answers: nat -> Read, begin: nat, at: int)
    ensures answers(begin) == Bytes(Bare(UNAVAILABLE_LINE), at) ==>
              Receive(Http11Get(""), answers, begin, "")
              == Reception(Rejected, true, Bare(UNAVAILABLE_LINE), begin + 1, at)
    ensures answers(begin) == Bytes(Bare(OK_LINE), at) ==>
              Receive(Http11Get(""), answers, begin, "")
              == Reception(Succeeded, true, Bare(OK_LINE), begin + 1, at)
  {
    hide Framed, Protocol.Succeeded, SaysYes;
    var rest := Http.CRLF + "Content-Length: 0" + Http.BLANK;
    YesAndNo(rest);
    BareIs(OK_LINE, rest);
    BareIs(UNAVAILABLE_LINE, rest);
    SuccessExactly(Http11Get(""), Bare(OK_LINE));
    SuccessExactly(Http11Get(""), Bare(UNAVAILABLE_LINE));
  }

  lemma BareIs(status: string, rest: string)
    requires rest == Http.CRLF + "Content-Length: 0" + Http.BLANK
    ensures Bare(status) == status + rest && "" + Bare(status) == Bare(status) != ""
  {
  }

  // ----- A connection in step with its target -----

  function Concat(frames: seq<string>): string {
    if frames == [] then "" else frames[0] + Concat(frames[1..])
  }

  lemma {:induction false} GatheredSplits(answers: nat -> Read, begin: nat, mid: nat, end: nat)
    requires begin <= mid <= end
    ensures Gathered(answers, begin, end) == Gathered(answers, begin, mid) + Gathered(answers, mid, end)
  {
    if mid < end {
      GatheredSplits(answers, begin, mid, end - 1);
    }
  }

  lemma GatheredOne(answers: nat -> Read, begin: nat)
    ensures Gathered(answers, begin, begin + 1) == Data(answers(begin))
  {
    assert Gathered(answers, begin, begin) == "";
  }

  lemma {:induction false} ReceptionGathers(p: Protocol, answers: nat -> Read, begin: nat, received: string)
    ensures var r := Receive(p, answers, begin, received);
            r.upto > begin && r.received == received + Gathered(answers, begin, r.upto)
    decreases Room(p, received)
  {
    hide Protocol.Consume, Protocol.Succeeded, Limit, Gathered;
    var read := answers(begin);
    GatheredOne(answers, begin);
    if read.Bytes? && read.data != "" && p.Consume(received + read.data).NeedMore? {
      var now := received + read.data;
      WaitingIsBounded(p, now);
      ReceptionGathers(p, answers, begin + 1, now);
      var upto := Receive(p, answers, begin + 1, now).upto;
      GatheredSplits(answers, begin, begin + 1, upto);
      Regroup(received, read.data, Gathered(answers, begin + 1, upto));
    }
  }

  lemma Regroup(a: string, b: string, c: string)
    ensures (a + b) + c == a + (b + c)
  {
  }

  /** What an exchange leaves in the buffer is what its reads brought, no more and no less, and the
      connection is usable exactly when that is one complete reply. */
  lemma {:induction false} ReceptionSettles(p: Protocol, answers: nat -> Read, begin: nat, received: string)
    requires !p.Consume(received).Complete?
    ensures Receive(p, answers, begin, received).upto > begin
    ensures var r := Receive(p, answers, begin, received);
            && r.received == received + Gathered(answers, begin, r.upto)
            && (r.usable <==> p.Consume(r.received).Complete?)
            && (r.usable <==> r.outcome == Succeeded || r.outcome == Rejected)
            && (r.outcome == Succeeded <==> r.usable && p.Succeeded(r.received))
    decreases Room(p, received)
  {
    hide Protocol.Consume, Protocol.Succeeded, Limit, Gathered;
    var read := answers(begin);
    ReceptionGathers(p, answers, begin, received);
    if read.Bytes? && read.data != "" && p.Consume(received + read.data).NeedMore? {
      WaitingIsBounded(p, received + read.data);
      ReceptionSettles(p, answers, begin + 1, received + read.data);
    }
  }

  /** Reads used up by the first k exchanges of a connection. */
  function ReadsAfter(p: Protocol, answers: nat -> Read, k: nat): nat {
    if k == 0 then 0 else Receive(p, answers, ReadsAfter(p, answers, k - 1), "").upto
  }

  /** The k-th exchange of a connection. */
  function Nth(p: Protocol, answers: nat -> Read, k: nat): Reception {
    Receive(p, answers, ReadsAfter(p, answers, k), "")
  }

  ghost predicate Reply(p: Protocol, frame: string) {
    p.Consume(frame).Complete?
  }

  /** The target writes these replies, one after another, and the network cuts them up at will. */
  ghost predicate Streamed(answers: nat -> Read, frames: seq<string>) {
    forall n: nat :: Gathered(answers, 0, n) <= Concat(frames)
  }

  /** Given that everything before belongs to earlier replies, whatever completes is the next one. */
  lemma NextReply(p: Protocol, answers: nat -> Read, frames: seq<string>, k: nat, begin: nat)
    requires p.RawEcho? ==> p.payload != ""
    requires forall i :: 0 <= i < |frames| ==> Reply(p, frames[i])
    requires Streamed(answers, frames) && k <= |frames| && Gathered(answers, 0, begin) == Concat(frames[..k])
    requires Receive(p, answers, begin, "").usable
    ensures k < |frames|
    ensures Receive(p, answers, begin, "").received == frames[k]
    ensures Gathered(answers, 0, Receive(p, answers, begin, "").upto) == Concat(frames[..k + 1])
  {
    hide Receive, Protocol.Consume, Gathered;
    var r := Receive(p, answers, begin, "");
    NothingIsNoReply(p);
    ReceptionSettles(p, answers, begin, "");
    GatheredSplits(answers, 0, begin, r.upto);
    ConcatSplits(frames, k);
    var rest := Concat(frames[k..]);
    AfterPrefix(Concat(frames[..k]), r.received, rest);
    assert rest[..|r.received|] == r.received;
    assert r.received != "";
    assert frames[k..][1..] == frames[k + 1..] && rest[..|frames[k]|] == frames[k];
    OneComplete(p, rest, |r.received|, |frames[k]|);
    ConcatSnoc(frames[..k], frames[k]);
    assert frames[..k] + [frames[k]] == frames[..k + 1];
  }

  lemma NothingIsNoReply(p: Protocol)
    requires p.RawEcho? ==> p.payload != ""
    ensures p.Consume("").NeedMore?
  {
  }

  lemma AfterPrefix(a: string, b: string, c: string)
    requires a + b <= a + c
    ensures b <= c
  {
    assert (a + c)[..|a + b|] == a + b;
    assert b == (a + b)[|a|..] == (a + c)[|a|..|a + b|] == c[..|b|];
  }

  lemma {:induction false} ConcatSplits(frames: seq<string>, k: nat)
    requires k <= |frames|
    ensures Concat(frames) == Concat(frames[..k]) + Concat(frames[k..])
  {
    if k == 0 {
      assert frames[0..] == frames;
    } else {
      ConcatSplits(frames[1..], k - 1);
      assert frames[..k][1..] == frames[1..][..k - 1] && frames[1..][k - 1..] == frames[k..];
    }
  }

  lemma {:induction false} ConcatSnoc(frames: seq<string>, frame: string)
    ensures Concat(frames + [frame]) == Concat(frames) + frame
  {
    ConcatSplits(frames + [frame], |frames|);
    assert (frames + [frame])[..|frames|] == frames && (frames + [frame])[|frames|..] == [frame];
    assert [frame][1..] == [];
  }

  /** Stream synchronisation.  However the network cuts up the target's replies, as long as every
      exchange so far left the connection usable, the k-th one received exactly the k-th reply and
      together they have consumed exactly the first k: no reply is ever credited to another request. */
  lemma {:induction false} StaysSynchronised(p: Protocol, answers: nat -> Read, frames: seq<string>, k: nat)
    requires p.RawEcho? ==> p.payload != ""
    requires forall i :: 0 <= i < |frames| ==> Reply(p, frames[i])
    requires Streamed(answers, frames)
    requires forall i :: 0 <= i < k ==> Nth(p, answers, i).usable
    ensures k <= |frames|
    ensures Gathered(answers, 0, ReadsAfter(p, answers, k)) == Concat(frames[..k])
    ensures forall i :: 0 <= i < k ==>
              && Nth(p, answers, i).received == frames[i]
              && Nth(p, answers, i).outcome == if p.Succeeded(frames[i]) then Succeeded else Rejected
  {
    hide Receive, Protocol.Consume, Protocol.Succeeded, Gathered, Streamed;
    if k == 0 {
      assert Gathered(answers, 0, 0) == "" by { NothingGathered(answers); }
    } else {
      StaysSynchronised(p, answers, frames, k - 1);
      assert Nth(p, answers, k - 1).usable;
      NextReply(p, answers, frames, k - 1, ReadsAfter(p, answers, k - 1));
      NothingIsNoReply(p);
      ReceptionSettles(p, answers, ReadsAfter(p, answers, k - 1), "");
    }
  }

  lemma NothingGathered(answers: nat -> Read)
    ensures Gathered(answers, 0, 0) == ""
  {
  }

  // ----- When an exchange succeeds -----

  /** Nothing went wrong in a run of reads: each of them brought bytes. */
  ghost predicate Flowing(answers: nat -> Read, begin: nat, end: nat) {
    forall j :: begin <= j < end ==> answers(j).Bytes? && answers(j).data != ""
  }

  lemma {:induction false} UsableFlows(p: Protocol, answers: nat -> Read, begin: nat, received: string)
    requires Receive(p, answers, begin, received).usable
    ensures Flowing(answers, begin, Receive(p, answers, begin, received).upto)
    decreases Room(p, received)
  {
    var now := received + answers(begin).data;
    if p.Consume(now).NeedMore? {
      WaitingIsBounded(p, now);
      UsableFlows(p, answers, begin + 1, now);
    }
  }

  /** No read but the last ends where the reply so far would be taken for anything but unfinished. */
  ghost predicate Unsettled(p: Protocol, answers: nat -> Read, begin: nat, received: string, end: nat) {
    forall mid :: begin < mid < end ==> p.Consume(received + Gathered(answers, begin, mid)).NeedMore?
  }

  lemma ShiftUnsettled(p: Protocol, answers: nat -> Read, begin: nat, received: string, end: nat)
    requires Unsettled(p, answers, begin, received, end)
    ensures Unsettled(p, answers, begin + 1, received + Data(answers(begin)), end)
  {
    hide Protocol.Consume, Gathered;
    var next, now := begin + 1, received + Data(answers(begin));
    GatheredOne(answers, begin);
    forall mid | next < mid < end ensures p.Consume(now + Gathered(answers, next, mid)).NeedMore? {
      GatheredSplits(answers, begin, next, mid);
      Regroup(received, Data(answers(begin)), Gathered(answers, next, mid));
    }
  }

  lemma {:induction false} FlowCompletes(p: Protocol, answers: nat -> Read, begin: nat, received: string, end: nat)
    requires begin < end && Flowing(answers, begin, end)
    requires Reply(p, received + Gathered(answers, begin, end))
    requires Unsettled(p, answers, begin, received, end)
    ensures Receive(p, answers, begin, received).usable
    decreases end - begin
  {
    hide Protocol.Consume, Protocol.Succeeded, Limit, Gathered;
    var data := answers(begin).data;
    GatheredOne(answers, begin);
    if begin + 1 < end {
      GatheredSplits(answers, begin, begin + 1, end);
      Regroup(received, data, Gathered(answers, begin + 1, end));
      assert p.Consume(received + data).NeedMore?;
      WaitingIsBounded(p, received + data);
      ShiftUnsettled(p, answers, begin, received, end);
      FlowCompletes(p, answers, begin + 1, received + data, end);
    }
  }

  lemma {:induction false} UsableUnsettled(p: Protocol, answers: nat -> Read, begin: nat, received: string)
    requires Receive(p, answers, begin, received).usable
    ensures Unsettled(p, answers, begin, received, Receive(p, answers, begin, received).upto)
    decreases Room(p, received)
  {
    hide Protocol.Consume, Protocol.Succeeded, Limit, Gathered;
    var data, upto := answers(begin).data, Receive(p, answers, begin, received).upto;
    if p.Consume(received + data).NeedMore? {
      WaitingIsBounded(p, received + data);
      UsableUnsettled(p, answers, begin + 1, received + data);
      forall mid | begin < mid < upto ensures p.Consume(received + Gathered(answers, begin, mid)).NeedMore? {
        GatheredOne(answers, begin);
        if begin + 1 < mid {
          GatheredSplits(answers, begin, begin + 1, mid);
          Regroup(received, data, Gathered(answers, begin + 1, mid));
        }
      }
    }
  }

  /** The one stretch of a reply in which stopping to look is fatal: past 64 KiB, with the blank line
      not yet whole. */
  predicate InOversizeHead(p: Protocol, frame: string, n: nat)
    requires Reply(p, frame)
  {
    p.Http11Get? && MAX_HEADER_BYTES < n < Find(frame, Http.BLANK, 0).value + 4
  }

  /** The reads from `begin` to `end` bring this reply whole, all of them bytes, and none but the last
      ends inside an oversize head. */
  ghost predicate ArrivesWhole(p: Protocol, answers: nat -> Read, begin: nat, end: nat, frame: string)
    requires Reply(p, frame)
  {
    && begin < end && Flowing(answers, begin, end) && Gathered(answers, begin, end) == frame
    && forall mid :: begin < mid < end ==> !InOversizeHead(p, frame, |Gathered(answers, begin, mid)|)
  }

  lemma FlowGathers(answers: nat -> Read, begin: nat, end: nat)
    requires begin < end && Flowing(answers, begin, end)
    ensures Gathered(answers, begin, end) != ""
  {
  }

  lemma PartOfReply(p: Protocol, answers: nat -> Read, begin: nat, mid: nat, end: nat, frame: string)
    requires begin < mid < end && Flowing(answers, begin, end)
    requires Gathered(answers, begin, end) == frame && Reply(p, frame)
    ensures p.Consume("" + Gathered(answers, begin, mid)).NeedMore?
            <==> !InOversizeHead(p, frame, |Gathered(answers, begin, mid)|)
  {
    hide Protocol.Consume, Gathered, Find;
    var part := Gathered(answers, begin, mid);
    GatheredSplits(answers, begin, mid, end);
    FlowGathers(answers, mid, end);
    assert |part| < |frame| && frame[..|part|] == part == "" + part;
    ShorterOfComplete(p, frame, |part|);
  }

  /** An exchange that starts in step leaves the connection usable exactly when its reply arrives
      whole in reads of its own: no timeout, no break, no byte of the next reply in the last read, and
      no read that stops inside a head of more than 64 KiB. */
  lemma UsableExactly(p: Protocol, answers: nat -> Read, frames: seq<string>, k: nat, begin: nat)
    requires p.RawEcho? ==> p.payload != ""
    requires forall i :: 0 <= i < |frames| ==> Reply(p, frames[i])
    requires Streamed(answers, frames) && k < |frames| && Gathered(answers, 0, begin) == Concat(frames[..k])
    ensures Receive(p, answers, begin, "").usable
            <==> exists end :: ArrivesWhole(p, answers, begin, end, frames[k])
  {
    hide Receive, Protocol.Consume, Streamed, Gathered, InOversizeHead;
    var r := Receive(p, answers, begin, "");
    if r.usable {
      NextReply(p, answers, frames, k, begin);
      NothingIsNoReply(p);
      ReceptionSettles(p, answers, begin, "");
      UsableFlows(p, answers, begin, "");
      UsableUnsettled(p, answers, begin, "");
      forall mid | begin < mid < r.upto ensures !InOversizeHead(p, frames[k], |Gathered(answers, begin, mid)|) {
        PartOfReply(p, answers, begin, mid, r.upto, frames[k]);
      }
      assert ArrivesWhole(p, answers, begin, r.upto, frames[k]);
    }
    if end :| ArrivesWhole(p, answers, begin, end, frames[k]) {
      forall mid | begin < mid < end ensures p.Consume("" + Gathered(answers, begin, mid)).NeedMore? {
        PartOfReply(p, answers, begin, mid, end, frames[k]);
      }
      assert "" + frames[k] == frames[k];
      FlowCompletes(p, answers, begin, "", end);
    }
  }

  // ----- The clock -----

  /** When the clock has not gone back since the request was sent, elapsed time is the plain
      difference: nothing is clamped. */
  lemma {:induction false} ElapsedIsDifference(p: Protocol, answers: nat -> Read, begin: nat, received: string,
                                               sent: int)
    requires forall j :: begin <= j ==> answers(j).at >= sent
    ensures var r := Receive(p, answers, begin, received);
            r.at >= sent && (Timed(r.outcome) ==> Finished(r, sent).elapsed == r.at - sent)
    decreases Room(p, received)
  {
    hide Protocol.Consume, Protocol.Succeeded, Limit;
    var read := answers(begin);
    assert read.at >= sent;
    if read.Bytes? && read.data != "" && p.Consume(received + read.data).NeedMore? {
      WaitingIsBounded(p, received + read.data);
      ElapsedIsDifference(p, answers, begin + 1, received + read.data, sent);
    }
  }

  // ----- Every exchange of a worker, over all its connections -----

  /** How many of the first n exchanges went out on a connection. */
  function CountOn(uses: seq<Use>, connection: nat, n: nat): nat
    requires n <= |uses|
  {
    if n == 0 then 0 else CountOn(uses, connection, n - 1) + if uses[n - 1].connection == connection then 1 else 0
  }

  lemma {:induction false} TurnOnConnection(uses: seq<Use>, connection: nat, n: nat, k: nat) returns (i: nat)
    requires n <= |uses| && k < CountOn(uses, connection, n)
    ensures i < n && uses[i].connection == connection && CountOn(uses, connection, i) == k
  {
    i := n - 1;
    if uses[i].connection != connection || CountOn(uses, connection, i) != k {
      i := TurnOnConnection(uses, connection, n - 1, k);
    }
  }

  /** What the i-th exchange of a worker read, given what each of its connections answers. */
  function Used(p: Protocol, wires: nat -> nat -> Read, uses: seq<Use>, i: nat): Reception
    requires i < |uses|
  {
    Nth(p, wires(uses[i].connection), CountOn(uses, uses[i].connection, i))
  }

  /** Every exchange came out as PerformRequest makes it, however its write ended. */
  ghost predicate Performed(p: Protocol, wires: nat -> nat -> Read, uses: seq<Use>) {
    forall j :: 0 <= j < |uses| ==>
      exists written, sent :: uses[j].result == Concluded(written, Used(p, wires, uses, j), sent)
  }

  /** What that leaves of a usable exchange: its reads completed a reply, and its outcome is theirs.
      One whose write failed is not usable, whatever its reads would have brought. */
  ghost predicate Answered(p: Protocol, wires: nat -> nat -> Read, uses: seq<Use>) {
    forall j :: 0 <= j < |uses| && uses[j].result.usable ==>
      Used(p, wires, uses, j).usable && uses[j].result.outcome == Used(p, wires, uses, j).outcome
  }

  lemma PerformedIsAnswered(p: Protocol, wires: nat -> nat -> Read, uses: seq<Use>)
    requires Performed(p, wires, uses)
    ensures Answered(p, wires, uses)
  {
    hide Used;
  }

  /** On every connection the target writes complete replies, one after another. */
  ghost predicate TargetReplies(p: Protocol, wires: nat -> nat -> Read, frames: nat -> seq<string>) {
    && (p.RawEcho? ==> p.payload != "")
    && (forall c, k :: 0 <= k < |frames(c)| ==> Reply(p, frames(c)[k]))
    && (forall c :: Streamed(wires(c), frames(c)))
  }

  /** The i-th exchange received the reply to its own request, the one its place on its connection
      calls for, and was recorded as that reply itself says. */
  ghost predicate OwnReply(p: Protocol, wires: nat -> nat -> Read, frames: nat -> seq<string>, uses: seq<Use>, i: nat)
    requires i < |uses|
  {
    var c := uses[i].connection;
    var k := CountOn(uses, c, i);
    && k < |frames(c)| && Used(p, wires, uses, i).received == frames(c)[k]
    && uses[i].result.outcome == if p.RawEcho? || SaysYes(frames(c)[k]) then Succeeded else Rejected
  }

  ghost predicate OwnReplies(p: Protocol, wires: nat -> nat -> Read, frames: nat -> seq<string>, uses: seq<Use>) {
    forall i :: 0 <= i < |uses| && uses[i].result.usable ==> OwnReply(p, wires, frames, uses, i)
  }

  /** Over the whole life of a worker that drops every connection an exchange left unusable, each
      reply it accepts is the reply to its own request: on each connection the n-th request is
      answered by the n-th thing the target wrote there, however the network cut the bytes up, and
      counted as the success or rejection it is. */
  lemma RepliesNeverMisattributed(p: Protocol, wires: nat -> nat -> Read, frames: nat -> seq<string>, uses: seq<Use>)
    requires TargetReplies(p, wires, frames) && NeverReused(uses) && Answered(p, wires, uses)
    ensures OwnReplies(p, wires, frames, uses)
  {
    hide TargetReplies, NeverReused, Answered, OwnReply;
    forall i | 0 <= i < |uses| && uses[i].result.usable ensures OwnReply(p, wires, frames, uses, i) {
      AcceptedIsOwn(p, wires, frames, uses, i);
    }
  }

  lemma AcceptedIsOwn(p: Protocol, wires: nat -> nat -> Read, frames: nat -> seq<string>, uses: seq<Use>, i: nat)
    requires TargetReplies(p, wires, frames) && NeverReused(uses) && Answered(p, wires, uses)
    requires i < |uses| && uses[i].result.usable
    ensures OwnReply(p, wires, frames, uses, i)
  {
    hide Receive, Protocol.Consume, Protocol.Succeeded, SaysYes, Gathered, Streamed;
    var c := uses[i].connection;
    var k := CountOn(uses, c, i);
    assert Used(p, wires, uses, i).usable;
    forall j | 0 <= j <= k ensures Nth(p, wires(c), j).usable {
      if j < k {
        var earlier := TurnOnConnection(uses, c, i, j);
        assert Used(p, wires, uses, earlier).usable;
      }
    }
    StaysSynchronised(p, wires(c), frames(c), k + 1);
    assert Used(p, wires, uses, i) == Nth(p, wires(c), k);
    SuccessExactly(p, frames(c)[k]);
  }
}
