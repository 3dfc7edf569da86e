/** src/fault/control.cpp: the control connection, which reassembles lines from whatever the network
    delivers, applies each to the knobs and answers it. */
module Control {
  import opened Wrappers
  import opened Text
  import opened Knobs

  // ----- Lines of a stream -----

  /** The lines a stream has completed. */
  function CompleteLines(stream: string): seq<string>
    decreases |stream|
  {
    match Cut(stream, '\n')
    case None => []
    case Some(i) => CutIs(stream, '\n'); [stream[..i]] + CompleteLines(stream[i + 1..])
  }

  /** What is still waiting for its newline. */
  function Leftover(stream: string): string
    decreases |stream|
  {
    match Cut(stream, '\n')
    case None => stream
    case Some(i) => CutIs(stream, '\n'); Leftover(stream[i + 1..])
  }

  function Stripped(line: string): string {
    if line != "" && line[|line| - 1] == '\r' then line[..|line| - 1] else line
  }

  /** Nothing is lost and nothing waits that could be answered. */
  lemma {:induction false} LinesCoverStream(stream: string)
    ensures Terminated(CompleteLines(stream)) + Leftover(stream) == stream
    ensures !Holds(Leftover(stream), '\n')
    ensures forall i :: 0 <= i < |CompleteLines(stream)| ==> !Holds(CompleteLines(stream)[i], '\n')
    decreases |stream|
  {
    hide Cut;
    CutIs(stream, '\n');
    match Cut(stream, '\n')
    case None =>
    case Some(i) =>
      var rest := stream[i + 1..];
      LinesCoverStream(rest);
      assert ([stream[..i]] + CompleteLines(rest))[1..] == CompleteLines(rest);
      assert stream == stream[..i] + "\n" + rest;
  }

  function Terminated(lines: seq<string>): string {
    if lines == [] then "" else lines[0] + "\n" + Terminated(lines[1..])
  }

  lemma FirstLine(pending: string, newline: nat)
    requires Cut(pending, '\n') == Some(newline)
    ensures newline < |pending|
    ensures CompleteLines(pending) == [pending[..newline]] + CompleteLines(pending[newline + 1..])
    ensures Leftover(pending) == Leftover(pending[newline + 1..])
  {
    hide Cut;
    CutIs(pending, '\n');
  }

  lemma NoLine(pending: string)
    requires Cut(pending, '\n').None?
    ensures CompleteLines(pending) == [] && Leftover(pending) == pending
  {
  }

  /** More bytes complete the line that was waiting and leave the earlier ones as they were. */
  lemma {:induction false} StreamGrows(stream: string, more: string)
    ensures CompleteLines(stream + more) == CompleteLines(stream) + CompleteLines(Leftover(stream) + more)
    ensures Leftover(stream + more) == Leftover(Leftover(stream) + more)
    decreases |stream|
  {
    hide Cut, CompleteLines, Leftover;
    CutIs(stream, '\n');
    if Cut(stream, '\n').None? {
      NoLine(stream);
    } else {
      var i := Cut(stream, '\n').value;
      var rest := stream[i + 1..];
      FirstLine(stream, i);
      StreamGrows(rest, more);
      assert (stream + more)[..i] == stream[..i] && (stream + more)[i + 1..] == rest + more;
      CutAt(stream + more, '\n', i);
      FirstLine(stream + more, i);
    }
  }

  // ----- What a client is told -----

  /** The reply to the last of these lines, and to each before it. */
  function Answers(numbers: Numbers, s: Settings, lines: seq<string>): seq<Reply> {
    if lines == [] then []
    else
      var front, line := lines[..|lines| - 1], lines[|lines| - 1];
      Answers(numbers, s, front) + [Execute(numbers, Settled(numbers, s, front), line).1]
  }

  function AllStripped(lines: seq<string>): seq<string> {
    seq(|lines|, i requires 0 <= i < |lines| => Stripped(lines[i]))
  }

  lemma StrippedConcat(a: seq<string>, b: seq<string>)
    ensures AllStripped(a + b) == AllStripped(a) + AllStripped(b)
  {
  }

  function Commands(stream: string): seq<string> {
    AllStripped(CompleteLines(stream))
  }

  lemma CommandsGrow(stream: string, more: string)
    ensures Commands(stream + more) == Commands(stream) + Commands(Leftover(stream) + more)
    ensures Leftover(stream + more) == Leftover(Leftover(stream) + more)
  {
    hide CompleteLines, Leftover, AllStripped;
    StreamGrows(stream, more);
    StrippedConcat(CompleteLines(stream), CompleteLines(Leftover(stream) + more));
  }

  lemma StrippedOne(line: string)
    ensures AllStripped([line]) == [Stripped(line)]
  {
  }

  lemma FirstCommand(pending: string, newline: nat)
    requires Cut(pending, '\n') == Some(newline)
    ensures newline < |pending|
    ensures Commands(pending) == [Stripped(pending[..newline])] + Commands(pending[newline + 1..])
    ensures Leftover(pending) == Leftover(pending[newline + 1..])
  {
    hide Cut, CompleteLines, Leftover, AllStripped;
    FirstLine(pending, newline);
    StrippedConcat([pending[..newline]], CompleteLines(pending[newline + 1..]));
    StrippedOne(pending[..newline]);
  }

  /** A carriage return before the newline is not part of the command, one and no more; anything else is. */
  lemma CommandOfLine(line: string, rest: string)
    requires !Holds(line, '\n')
    ensures Commands(line + "\r\n" + rest) == [line] + Commands(rest)
    ensures line == "" || line[|line| - 1] != '\r' ==> Commands(line + "\n" + rest) == [line] + Commands(rest)
  {
    hide Commands, Cut;
    var text := line + "\r" + "\n" + rest;
    assert text == line + "\r\n" + rest && text[..|line| + 1] == line + "\r" && text[|line| + 2..] == rest;
    CutAt(text, '\n', |line| + 1);
    FirstCommand(text, |line| + 1);
    var plain := line + "\n" + rest;
    assert plain[..|line|] == line && plain[|line| + 1..] == rest;
    CutAt(plain, '\n', |line|);
    FirstCommand(plain, |line|);
  }

  lemma NoCommand(pending: string)
    requires Cut(pending, '\n').None?
    ensures Commands(pending) == [] && Leftover(pending) == pending
  {
  }

  /** A connection to an operator: what each read will bring, and how many replies can be written
      before a write fails.  After the last chunk the connection is closed or broken. */
  class Client {
    const chunks: seq<string>
    const takes: nat
    var taken: nat
    var told: seq<Reply>

    constructor (chunks: seq<string>, takes: nat)
      ensures this.chunks == chunks && this.takes == takes && taken == 0 && told == []
    {
      this.chunks, this.takes, taken, told := chunks, takes, 0, [];
    }

    /** No bytes means the connection is over, by closing or by failing. */
    method ReadSome() returns (data: string)
      modifies `taken
      ensures data == if old(taken) < |chunks| then chunks[old(taken)] else ""
      ensures taken == old(taken) + 1
    {
      data := if taken < |chunks| then chunks[taken] else "";
      taken := taken + 1;
    }

    method WriteAll(reply: Reply) returns (sent: bool)
      modifies `told
      ensures sent == (|old(told)| < takes)
      ensures told == if sent then old(told) + [reply] else old(told)
    {
      sent := |told| < takes;
      if sent {
        told := told + [reply];
      }
    }
  }

  /** Everything read before the first empty read. */
  function Stream(chunks: seq<string>): string {
    if chunks == [] || chunks[0] == "" then "" else chunks[0] + Stream(chunks[1..])
  }

  /** How many commands a client that takes this many replies gets applied: the one whose reply could
      not be written is applied too. */
  function Reached(commands: nat, takes: nat): nat {
    if commands <= takes then commands else takes + 1
  }

  lemma {:induction false} StreamTaken(chunks: seq<string>, n: nat)
    requires n < |chunks| && chunks[n] != "" && forall i :: 0 <= i < n ==> chunks[i] != ""
    ensures Stream(chunks[..n + 1]) == Stream(chunks[..n]) + chunks[n]
  {
    if n == 0 {
      assert chunks[..1][1..] == [];
    } else {
      StreamTaken(chunks[1..], n - 1);
      assert chunks[..n + 1][1..] == chunks[1..][..n] && chunks[..n][1..] == chunks[1..][..n - 1];
    }
  }

  lemma {:induction false} StreamEnds(chunks: seq<string>, n: nat)
    requires n <= |chunks| && (n < |chunks| ==> chunks[n] == "") && forall i :: 0 <= i < n ==> chunks[i] != ""
    ensures Stream(chunks) == Stream(chunks[..n])
  {
    if n > 0 {
      StreamEnds(chunks[1..], n - 1);
      assert chunks[..n][1..] == chunks[1..][..n - 1];
    }
  }

  /** What remains of a longer stream's commands once a shorter part of it has been read. */
  lemma {:induction false} StreamExtends(chunks: seq<string>, n: nat)
    requires n <= |chunks| && forall i :: 0 <= i < n ==> chunks[i] != ""
    ensures Stream(chunks) == Stream(chunks[..n]) + Stream(chunks[n..])
  {
    if n == 0 {
      assert chunks[0..] == chunks;
    } else {
      StreamExtends(chunks[1..], n - 1);
      assert chunks[..n][1..] == chunks[1..][..n - 1] && chunks[1..][n - 1..] == chunks[n..];
    }
  }

  /** One line: strip its carriage return, apply it, and write the reply. */
  method AnswerLine(client: Client, knobs: FaultKnobs, numbers: Numbers, raw: string) returns (sent: bool)
    requires knobs.Valid()
    modifies client`told, knobs
    ensures knobs.Valid() && knobs.View() == Execute(numbers, old(knobs.View()), Stripped(raw)).0
    ensures sent == (|old(client.told)| < client.takes)
    ensures var reply := Execute(numbers, old(knobs.View()), Stripped(raw)).1;
            client.told == if sent then old(client.told) + [reply] else old(client.told)
  {
    hide Execute, FaultKnobs.Valid, FaultKnobs.View;
    var line := raw;
    if line != "" && line[|line| - 1] == '\r' {
      line := line[..|line| - 1];
    }
    var reply := knobs.ApplyCommand(numbers, line);
    sent := client.WriteAll(reply);
  }

  /** One connection.  What it does to the knobs and what it answers depend on the bytes of the
      stream alone, however they were cut into reads: every complete line is applied once, in order,
      and answered in order, until a reply cannot be written. */
  method Serve(client: Client, knobs: FaultKnobs, numbers: Numbers) returns (pending: string)
    requires knobs.Valid() && client.taken == 0 && client.told == []
    modifies client, knobs
    ensures knobs.Valid()
    ensures var commands := Commands(Stream(client.chunks));
            var reached := Reached(|commands|, client.takes);
            && knobs.View() == Settled(numbers, old(knobs.View()), commands[..reached])
            && client.told == Answers(numbers, old(knobs.View()),
                                      commands[..if |commands| <= client.takes then |commands| else client.takes])
            && (|commands| <= client.takes ==> pending == Leftover(Stream(client.chunks)))
  {
    hide Commands, Leftover, Stream, Settled, Answers, Execute, Cut, FaultKnobs.Valid, FaultKnobs.View;
    ghost var before := knobs.View();
    ghost var done: seq<string> := [];  // commands applied so far
    pending := "";
    NothingYet(numbers, before);
    while true
      invariant client.taken <= |client.chunks| && knobs.Valid()
      invariant forall i :: 0 <= i < client.taken ==> client.chunks[i] != ""
      invariant done == Commands(Stream(client.chunks[..client.taken]))
      invariant pending == Leftover(Stream(client.chunks[..client.taken]))
      invariant Commands(pending) == [] && Leftover(pending) == pending
      invariant |done| <= client.takes
      invariant knobs.View() == Settled(numbers, before, done)
      invariant client.told == Answers(numbers, before, done) && |client.told| == |done|
      decreases |client.chunks| - client.taken
    {
      ghost var n := client.taken;
      var data := client.ReadSome();
      if data == "" {
        StreamEnds(client.chunks, n);
        assert done[..|done|] == done;
        return;
      }
      pending := pending + data;
      StreamTaken(client.chunks, n);
      CommandsGrow(Stream(client.chunks[..n]), data);
      ghost var all := Commands(Stream(client.chunks[..n + 1]));
      var newline := Cut(pending, '\n');
      while newline.Some?
        invariant knobs.Valid() && newline == Cut(pending, '\n')
        invariant client.taken == n + 1
        invariant all == done + Commands(pending)
        invariant Leftover(pending) == Leftover(Stream(client.chunks[..n + 1]))
        invariant |done| <= client.takes
        invariant knobs.View() == Settled(numbers, before, done)
        invariant client.told == Answers(numbers, before, done) && |client.told| == |done|
        decreases |pending|
      {
        FirstCommand(pending, newline.value);
        var line := pending[..newline.value];
        ghost var command := Stripped(line);
        ghost var rest := pending[newline.value + 1..];
        pending := pending[newline.value + 1..];
        OneMore(numbers, before, done, command);
        var sent := AnswerLine(client, knobs, numbers, line);
        assert all == (done + [command]) + Commands(rest);
        if !sent {
          CutShort(client.chunks, n + 1, done, command, Commands(rest));
          return;
        }
        done := done + [command];
        newline := Cut(pending, '\n');
      }
      NoCommand(pending);
    }
  }

  lemma CutShort(chunks: seq<string>, n: nat, done: seq<string>, command: string, rest: seq<string>)
    requires n <= |chunks| && forall i :: 0 <= i < n ==> chunks[i] != ""
    requires Commands(Stream(chunks[..n])) == (done + [command]) + rest
    ensures var commands := Commands(Stream(chunks));
            |commands| > |done| && commands[..|done|] == done && commands[..|done| + 1] == done + [command]
  {
    hide Commands, Stream;
    StreamExtends(chunks, n);
    CommandsGrow(Stream(chunks[..n]), Stream(chunks[n..]));
  }

  lemma NothingYet(numbers: Numbers, s: Settings)
    ensures Stream([]) == "" && Commands("") == [] && Leftover("") == ""
    ensures Settled(numbers, s, []) == s && Answers(numbers, s, []) == []
  {
  }

  lemma OneMore(numbers: Numbers, s: Settings, done: seq<string>, command: string)
    ensures var (after, reply) := Execute(numbers, Settled(numbers, s, done), command);
            && Settled(numbers, s, done + [command]) == after
            && Answers(numbers, s, done + [command]) == Answers(numbers, s, done) + [reply]
  {
    hide Execute;
    assert (done + [command])[..|done|] == done;
  }
}
