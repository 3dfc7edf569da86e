/** src/load/protocol.hpp with its two implementations, raw_echo.cpp and http11_get.cpp: where one
    reply ends, decided afresh on everything received so far. */
module Framing {
  import opened Wrappers
  import opened Text
  import opened Http

  const MAX_HEADER_BYTES: nat := 64 * 1024

  datatype ResponseState = NeedMore | Complete | Malformed

  /** What a runner sends and how it recognises the reply. */
  datatype Protocol = RawEcho(payload: string) | Http11Get(text: string)
  {
    function Request(): string {
      if RawEcho? then payload else text
    }

    function Consume(response: string): ResponseState {
      if RawEcho? then Echoed(|payload|, response) else Framed(response)
    }

    function Succeeded(response: string): bool {
      RawEcho? || var status := StatusCode(response); status.Some? && 200 <= status.value < 300
    }
  }

  /** A status line that says yes: HTTP/1.1 or HTTP/1.0, and a code of exactly three digits of which the
      first is a 2. */
  predicate SaysYes(text: string) {
    && |text| >= 12
    && (text[..9] == "HTTP/1.1 " || text[..9] == "HTTP/1.0 ")
    && text[9] == '2' && '0' <= text[10] <= '9' && '0' <= text[11] <= '9'
    && (|text| > 12 ==> !('0' <= text[12] <= '9'))
  }

  /** Success, read off the bytes: an HTTP reply succeeds if and only if its status line says yes, and
      a complete echo always does. */
  lemma SuccessExactly(p: Protocol, response: string)
    ensures p.RawEcho? ==> p.Succeeded(response)
    ensures p.Http11Get? ==> (p.Succeeded(response) <==> SaysYes(response))
  {
    hide Value;
    if SaysYes(response) {
      YesHasStatus(response);
    }
    if HasStatus(response) {
      var code := response[9..12];
      assert code[0] == response[9] && code[1] == response[10] && code[2] == response[11];
      ThreeDigits(code);
    }
  }

  lemma YesHasStatus(response: string)
    requires SaysYes(response)
    ensures HasStatus(response)
  {
    assert AllDigits(response[9..12]);
    assert response[0..9] == response[..9];
  }

  // ----- Raw echo -----

  datatype EchoMisuse = EmptyPayload

  /** A zero-byte payload would make an empty buffer a finished reply, so it is refused. */
  method MakeRawEcho(size: nat) returns (protocol: Result<Protocol, EchoMisuse>)
    ensures protocol.Err? <==> size == 0
    ensures protocol.Ok? ==>
              && protocol.value.RawEcho? && |protocol.value.payload| == size
              && forall i :: 0 <= i < size ==> protocol.value.payload[i] as nat == 'a' as nat + i % 26
  {
    if size == 0 {
      return Err(EmptyPayload);
    }
    var payload := "";
    for i := 0 to size
      invariant |payload| == i
      invariant forall j :: 0 <= j < i ==> payload[j] as nat == 'a' as nat + j % 26
    {
      payload := payload + [('a' as nat + i % 26) as char];
    }
    return Ok(RawEcho(payload));
  }

  function Echoed(size: nat, response: string): ResponseState {
    if |response| < size then NeedMore
    else if |response| == size then Complete
    else Malformed
  }

  // ----- HTTP/1.1 -----

  predicate CarriesNoBody(status: nat) {
    status == 204 || status == 304 || 100 <= status < 200
  }

  /** Unsigned 64-bit arithmetic. */
  function Wrap64(n: nat): (wrapped: nat)
    ensures wrapped < U64 && wrapped <= n
    ensures n < U64 ==> wrapped == n
    ensures U64 <= n < U64 + U64 ==> wrapped == n - U64
  {
    if n < U64 then n else Wrap64(n - U64)
  }

  /** `total` is computed in 64 bits, so a large enough declared length wraps. */
  function Framed(response: string): ResponseState {
    match Find(response, BLANK, 0)
    case None => if |response| > MAX_HEADER_BYTES then Malformed else NeedMore
    case Some(blank) =>
      var headers, bodyBegins := response[..blank], blank + 4;
      if HeaderValue(headers, "transfer-encoding").Some? then Malformed
      else
        match ContentLength(headers)
        case None =>
          var status := StatusCode(response);
          if status.Some? && CarriesNoBody(status.value) && |response| == bodyBegins then Complete
          else Malformed
        case Some(declared) =>
          var total := Wrap64(bodyBegins + declared);
          if |response| < total then NeedMore
          else if |response| == total then Complete
          else Malformed
  }

  /** The same decisions, made by the scanning loops. */
  method ConsumeHttp(response: string) returns (state: ResponseState)
    ensures state == Framed(response)
  {
    hide Wrap64, Find, HeaderValue, ContentLength, StatusCode;
    var blank := Find(response, BLANK, 0);
    if blank.None? {
      return if |response| > MAX_HEADER_BYTES then Malformed else NeedMore;
    }
    var headers, bodyBegins := response[..blank.value], blank.value + 4;
    var coding := FindHeader(headers, "transfer-encoding");
    if coding.Some? {
      return Malformed;
    }
    var declared := ReadContentLength(headers);
    if declared.None? {
      var status := ReadStatusCode(response);
      if status.Some? && CarriesNoBody(status.value) {
        return if |response| == bodyBegins then Complete else Malformed;
      }
      return Malformed;
    }
    var total := Wrap64(bodyBegins + declared.value);
    if |response| < total {
      return NeedMore;
    }
    return if |response| == total then Complete else Malformed;
  }

  // ----- What the two have in common -----

  /** How far a reply can grow before it must have been settled one way or the other. */
  function Limit(p: Protocol): nat {
    if p.RawEcho? then |p.payload| else U64
  }

  /** Reading stops: a reply still being waited for is shorter than the limit.  What holds more
      tightly of HTTP is that at most 64 KiB have come without a blank line, or else fewer bytes than
      the head, the blank line and the declared body make together. */
  lemma WaitingIsBounded(p: Protocol, response: string)
    requires p.Consume(response).NeedMore?
    ensures |response| < Limit(p)
    ensures p.Http11Get? ==>
              match Find(response, BLANK, 0)
              case None => |response| <= MAX_HEADER_BYTES
              case Some(blank) =>
                var declared := ContentLength(response[..blank]);
                declared.Some? && |response| < blank + 4 + declared.value
  {
    hide Wrap64, HeaderValue, ContentLength, StatusCode, Find;
  }

  /** Before its end a complete reply is never taken for a whole one.  It is waited for, unless it
      is still inside a header block longer than the limit. */
  lemma ShorterOfComplete(p: Protocol, reply: string, n: nat)
    requires p.Consume(reply).Complete? && n < |reply|
    ensures p.Consume(reply[..n])
            == if p.Http11Get? && MAX_HEADER_BYTES < n < Find(reply, BLANK, 0).value + 4 then Malformed else NeedMore
  {
    hide Wrap64, HeaderValue, ContentLength, StatusCode, Find, At;
    if p.Http11Get? {
      BlankInPrefix(reply, n);
    }
  }

  /** When the code asks for more, exactly: an echo that is short of its size; no blank line yet in at
      most 64 KiB; or a head that names no transfer coding and declares a length, with less than that
      behind it. */
  lemma WaitsExactly(p: Protocol, response: string)
    requires |response| < 18_446_744_073_709_551_616
    ensures p.RawEcho? ==> (p.Consume(response).NeedMore? <==> |response| < |p.payload|)
    ensures p.RawEcho? ==> (p.Consume(response).Complete? <==> |response| == |p.payload|)
    ensures p.Http11Get? ==>
              (p.Consume(response).NeedMore?
               <==> match Find(response, "\r\n\r\n", 0)
                    case None => |response| <= 65_536
                    case Some(blank) =>
                      var head := response[..blank];
                      && HeaderValue(head, "transfer-encoding").None? && ContentLength(head).Some?
                      && |response| < blank + 4 + ContentLength(head).value < 18_446_744_073_709_551_616)
  {
    hide Wrap64, HeaderValue, ContentLength, StatusCode, Find, At;
    FoundFits(response);
    if p.Http11Get? && Find(response, BLANK, 0).Some? {
      DeclaredFits(response[..Find(response, BLANK, 0).value]);
    }
  }

  lemma FoundFits(response: string)
    ensures Find(response, BLANK, 0).Some? ==> Find(response, BLANK, 0).value + 4 <= |response|
  {
  }

  lemma DeclaredFits(head: string)
    ensures ContentLength(head).Some? ==> ContentLength(head).value < U64
  {
    hide HeaderValue, Value;
  }

  /** A prefix of a reply shows the same head, or none. */
  lemma BlankInPrefix(reply: string, n: nat)
    requires n <= |reply|
    ensures Find(reply, BLANK, 0).None? ==> Find(reply[..n], BLANK, 0).None?
    ensures Find(reply, BLANK, 0).Some? ==>
              var blank := Find(reply, BLANK, 0).value;
              if blank + 4 <= n then Find(reply[..n], BLANK, 0) == Some(blank) && reply[..n][..blank] == reply[..blank]
              else Find(reply[..n], BLANK, 0).None?
  {
    hide Find, At;
    FindInPrefix(reply, BLANK, n);
  }

  lemma LongerThanComplete(p: Protocol, reply: string, more: string)
    requires p.Consume(reply).Complete? && more != ""
    ensures p.Consume(reply + more).Malformed?
  {
    hide Wrap64, HeaderValue, ContentLength, StatusCode, Find, At;
    if p.Http11Get? {
      BlankInPrefix(reply + more, |reply|);
      assert (reply + more)[..|reply|] == reply;
    }
  }

  /** The framing law: of any bytes whatever, at most one prefix is a complete reply. */
  lemma OneComplete(p: Protocol, stream: string, a: nat, b: nat)
    requires a <= |stream| && b <= |stream|
    requires p.Consume(stream[..a]).Complete? && p.Consume(stream[..b]).Complete?
    ensures a == b
  {
    if a < b {
      assert stream[..b][..a] == stream[..a];
      ShorterOfComplete(p, stream[..b], a);
    } else if b < a {
      assert stream[..a][..b] == stream[..b];
      ShorterOfComplete(p, stream[..a], b);
    }
  }

  /** Every proper prefix of the reply is still waited for. */
  ghost predicate Awaited(p: Protocol, reply: string) {
    forall n :: 0 <= n < |reply| ==> p.Consume(reply[..n]).NeedMore?
  }

  /** A complete reply can be waited for through every prefix exactly when its header block, up to
      the last byte before the blank line is whole, fits in 64 KiB. */
  lemma AwaitedExactly(p: Protocol, reply: string)
    requires p.Consume(reply).Complete?
    ensures Awaited(p, reply) <==> p.RawEcho? || Find(reply, BLANK, 0).value + 3 <= 65_536
  {
    forall n | 0 <= n < |reply|
      ensures p.Consume(reply[..n]).NeedMore?
              <==> !(p.Http11Get? && n > MAX_HEADER_BYTES && n < Find(reply, BLANK, 0).value + 4)
    {
      ShorterOfComplete(p, reply, n);
    }
    if p.Http11Get? && Find(reply, BLANK, 0).value + 3 > MAX_HEADER_BYTES {
      var n := Find(reply, BLANK, 0).value + 3;
      assert n < |reply| && !p.Consume(reply[..n]).NeedMore?;
    }
  }

  /** A declared length whose total does not fit in 64 bits is never a complete reply, however many
      bytes arrive: the wrapped total is already behind what has been received. */
  lemma WrappedNeverCompletes(response: string)
    requires |response| < U64
    requires Find(response, BLANK, 0).Some?
    requires var blank := Find(response, BLANK, 0).value;
             var declared := ContentLength(response[..blank]);
             declared.Some? && blank + 4 + declared.value >= U64
    ensures Framed(response).Malformed?
  {
    hide Wrap64, HeaderValue, StatusCode, Find;
    var blank := Find(response, BLANK, 0).value;
    var wide := blank + 4 + ContentLength(response[..blank]).value;
    assert Wrap64(wide) == wide - U64 < blank + 4;
  }

  /** What is complete, without the wrap-around: a head with no blank line in it, a blank line, and a
      body of exactly the declared length, or no body at all where the status says there is none. */
  lemma CompleteExactly(head: string, body: string)
    requires Find(head + BLANK + body, BLANK, 0) == Some(|head|) && |head + BLANK + body| < U64
    ensures var reply := head + BLANK + body;
            Framed(reply).Complete? <==>
              && HeaderValue(head, "transfer-encoding").None?
              && match ContentLength(head)
                 case Some(n) => |body| == n
                 case None =>
                   && body == "" && StatusCode(reply).Some?
                   && var status := StatusCode(reply).value; status == 204 || status == 304 || 100 <= status < 200
  {
    hide Wrap64, HeaderValue, ContentLength, StatusCode, Find;
    var reply := head + BLANK + body;
    assert reply[..|head|] == head && |reply| == |head| + 4 + |body|;
    var declared := ContentLength(head);
    if declared.Some? && |head| + 4 + declared.value >= U64 {
      WrappedNeverCompletes(reply);
    }
  }

  /** A positive declared length is waited for, whatever the status. */
  lemma DeclaredIsAwaited(head: string, n: nat)
    requires Find(head + BLANK, BLANK, 0) == Some(|head|) && HeaderValue(head, "transfer-encoding").None?
    requires ContentLength(head) == Some(n) && n > 0 && |head| + 4 + n < U64
    ensures Framed(head + BLANK).NeedMore?
  {
    hide Wrap64, HeaderValue, ContentLength, StatusCode, Find, At;
    var reply := head + BLANK;
    assert reply[..|head|] == head && |reply| == |head| + 4;
  }

  /** What outranks a bodiless status.  Section 6.3 of RFC 9112 ends a 1xx, 204 or 304 at its headers;
      the code does so if and only if the head names no transfer coding and declares no length, or a
      length of zero. */
  lemma DeclaredOutranksStatus(head: string)
    requires Find(head + BLANK, BLANK, 0) == Some(|head|) && |head + BLANK| < U64
    requires StatusCode(head + BLANK).Some?
    requires var status := StatusCode(head + BLANK).value; status == 204 || status == 304 || 100 <= status < 200
    ensures Framed(head + BLANK).Complete?
            <==> && HeaderValue(head, "transfer-encoding").None?
                 && (ContentLength(head) == None || ContentLength(head) == Some(0))
  {
    hide HeaderValue, ContentLength, StatusCode, Find, Framed;
    assert head + BLANK + "" == head + BLANK;
    CompleteExactly(head, "");
  }

  // ----- A reply as a server writes it -----

  ghost predicate PlainLines(lines: seq<string>) {
    forall i :: 0 <= i < |lines| ==> Plain(lines[i]) && lines[i] != ""
  }

  /** Lines that are not empty hold no blank line between them. */
  lemma {:induction false} BlankAfterLines(lines: seq<string>, body: string)
    requires lines != [] && PlainLines(lines)
    ensures var head := JoinLines(lines);
            head != "" && head[0] == lines[0][0] && Find(head + BLANK + body, BLANK, 0) == Some(|head|)
  {
    var head, line := JoinLines(lines), lines[0];
    var text := head + BLANK + body;
    assert text[|head|..|head| + 4] == BLANK;
    if |lines| > 1 {
      BlankAfterLines(lines[1..], body);
      var rest := JoinLines(lines[1..]);
      assert head == line + CRLF + rest;
      BlankSkips(line, rest, body);
    } else {
      forall j | 0 <= j < |line| ensures !At(text, BLANK, j) {
        assert text[j] == line[j];
        Differs(text, BLANK, j, 0);
      }
      FirstOccurrence(text, BLANK, 0, |head|);
    }
  }

  lemma BlankSkips(line: string, rest: string, body: string)
    requires Plain(line) && line != "" && rest != "" && rest[0] != '\r'
    requires Find(rest + BLANK + body, BLANK, 0) == Some(|rest|)
    ensures Find(line + CRLF + rest + BLANK + body, BLANK, 0) == Some(|line + CRLF + rest|)
  {
    hide Find;
    var text, tail := line + CRLF + rest + BLANK + body, rest + BLANK + body;
    var skip := |line| + 2;
    assert text[skip..] == tail;
    FindInRest(text, BLANK, skip);
    forall j | 0 <= j < skip ensures !At(text, BLANK, j) {
      if j < |line| {
        assert text[j] == line[j];
      }
      assert text[|line| + 1] == '\n' && text[|line| + 2] == rest[0];
      Differs(text, BLANK, j, if j == |line| then 2 else 0);
    }
    var found := Find(text, BLANK, skip).value;
    assert found == |line + CRLF + rest|;
    FirstOccurrence(text, BLANK, 0, found);
  }

  function Head(status: string, before: seq<string>, field: string, length: nat, after: seq<string>): string {
    JoinLines([status] + before + [field + ":" + (" " + Print(length))] + after)
  }

  lemma HeadFields(status: string, before: seq<string>, field: string, length: nat, after: seq<string>)
    requires PlainLines([status] + before + after)
    requires Plain(field) && EqualIgnoringCase(field, "content-length") && !Holds(field, ':')
    requires forall line :: line in before ==> !Names(line, "content-length")
    requires forall line :: line in before + after ==> !Names(line, "transfer-encoding")
    ensures var head := Head(status, before, field, length, after);
            && HeaderValue(head, "content-length") == Some(Print(length))
            && HeaderValue(head, "transfer-encoding") == None
    ensures PlainLines([status] + before + [field + ":" + (" " + Print(length))] + after)
  {
    hide Find, Names, EqualIgnoringCase, FirstField, Lines, JoinLines, Trim, Print, Value;
    var value := " " + Print(length);
    var line := field + ":" + value;
    var lines := [status] + before + [line] + after;
    assert Plain(line) && line != "";
    forall i | 0 <= i < |lines| ensures Plain(lines[i]) && lines[i] != "" {
      assert lines[i] == line || lines[i] in [status] + before + after;
    }
    assert forall i :: 0 <= i < |before| ==> before[i] in before;
    FirstFieldWins(status, before, field, value, after, "content-length");
    assert value == " " + Print(length) + "";
    TrimExactly(" ", Print(length), "");
    NotTransferEncoding(field, value);
    forall i | 0 <= i < |lines[1..]| ensures !Names(lines[1..][i], "transfer-encoding") {
      assert lines[1..][i] == line || lines[1..][i] in before + after;
    }
    LinesReadBack(lines);
    NoFieldNoValue(lines[1..], "transfer-encoding");
  }

  lemma NotTransferEncoding(field: string, value: string)
    requires EqualIgnoringCase(field, "content-length") && !Holds(field, ':')
    ensures !Names(field + ":" + value, "transfer-encoding")
  {
    ColonFound(field, value);
    assert (field + ":" + value)[..|field|] == field;
  }

  /** However a server spells the name and whatever fields stand around it, a reply that declares n
      bytes is complete exactly when n bytes of body have arrived. */
  lemma DeclaredReplyCompletes(status: string, before: seq<string>, field: string, length: nat,
                               after: seq<string>, body: string)
    requires PlainLines([status] + before + after)
    requires Plain(field) && EqualIgnoringCase(field, "content-length") && !Holds(field, ':')
    requires forall line :: line in before ==> !Names(line, "content-length")
    requires forall line :: line in before + after ==> !Names(line, "transfer-encoding")
    requires length < U64 && |Head(status, before, field, length, after) + BLANK + body| < U64
    ensures Framed(Head(status, before, field, length, after) + BLANK + body).Complete? <==> |body| == length
  {
    hide Find, Names, EqualIgnoringCase, FirstField, Lines, JoinLines, Trim, Print, Value, Framed, HeaderValue;
    HeadFields(status, before, field, length, after);
    BlankAfterLines([status] + before + [field + ":" + (" " + Print(length))] + after, body);
    CompleteExactly(Head(status, before, field, length, after), body);
    PrintThenRead(length);
  }

  // ----- Replies that show where the conditions bite -----

  const NOT_MODIFIED: string := "HTTP/1.1 304 Not Modified" + CRLF + "Content-Length: 5" + BLANK

  lemma SpelledAlike()
    ensures EqualIgnoringCase("Content-Length", "content-length") && !Holds("Content-Length", ':')
    ensures Plain("Content-Length")
  {
  }

  lemma DigitPrints(n: nat)
    requires n < 10
    ensures Print(n) == [('0' as nat + n) as char] && Value(Print(n)) == n
  {
    PrintThenRead(n);
  }

  lemma StatusOf(a: char, b: char, c: char, rest: string)
    requires Digit(a) && Digit(b) && Digit(c) && (rest == "" || !Digit(rest[0]))
    ensures StatusCode("HTTP/1.1 " + [a, b, c] + rest)
            == Some(DigitValue(a) * 100 + DigitValue(b) * 10 + DigitValue(c))
  {
    var text := "HTTP/1.1 " + [a, b, c] + rest;
    assert text[0..9] == "HTTP/1.1 " && text[9..12] == [a, b, c];
    assert rest != "" ==> text[12] == rest[0];
    ValueSnoc("", a);
    ValueSnoc([a], b);
    ValueSnoc([a, b], c);
    assert "" + [a] == [a] && [a] + [b] == [a, b] && [a, b] + [c] == [a, b, c];
  }

  lemma JoinTwo(a: string, b: string)
    ensures JoinLines([a, b]) == a + CRLF + b
  {
    assert [a, b][1..] == [b];
  }

  lemma NotModifiedIs()
    ensures NOT_MODIFIED == Head("HTTP/1.1 304 Not Modified", [], "Content-Length", 5, []) + BLANK
  {
    hide Print, JoinLines;
    var status, line := "HTTP/1.1 304 Not Modified", "Content-Length" + ":" + (" " + Print(5));
    DigitPrints(5);
    assert line == "Content-Length: 5";
    assert [status] + [] + [line] + [] == [status, line];
    JoinTwo(status, line);
  }

  /** The input that fails: a 304 that declares five bytes is waited for after its headers, although
      no body follows a 304. */
  lemma NotModifiedWaits()
    ensures StatusCode(NOT_MODIFIED) == Some(304) && Framed(NOT_MODIFIED).NeedMore?
  {
    hide Find, Names, EqualIgnoringCase, FirstField, Lines, JoinLines, HeaderValue, Framed, Value, Print, AllDigits;
    var head := Head("HTTP/1.1 304 Not Modified", [], "Content-Length", 5, []);
    SpelledAlike();
    NotModifiedIs();
    HeadFields("HTTP/1.1 304 Not Modified", [], "Content-Length", 5, []);
    DigitPrints(5);
    BlankAfterLines(["HTTP/1.1 304 Not Modified"] + [] + ["Content-Length" + ":" + (" " + Print(5))] + [], "");
    assert head + BLANK + "" == head + BLANK;
    assert |head + BLANK| == |head| + 4;
    DeclaredIsAwaited(head, 5);
    NotModifiedStatus();
  }

  /** A status line's code is settled by its first thirteen bytes. */
  lemma StatusFromStart(start: string, rest: string)
    requires |start| >= 13
    ensures StatusCode(start + rest) == StatusCode(start)
  {
    assert (start + rest)[9..12] == start[9..12] && (start + rest)[0..9] == start[0..9];
  }

  lemma NotModifiedLine()
    ensures StatusCode("HTTP/1.1 304 Not Modified") == Some(304)
  {
    hide StatusCode;
    var start := "HTTP/1.1 " + ['3', '0', '4'] + " ";
    StatusOf('3', '0', '4', " ");
    assert "HTTP/1.1 304 Not Modified" == start + "Not Modified";
    StatusFromStart(start, "Not Modified");
  }

  lemma NotModifiedStatus()
    ensures StatusCode(NOT_MODIFIED) == Some(304)
  {
    hide StatusCode;
    var status := "HTTP/1.1 304 Not Modified";
    NotModifiedLine();
    StatusFromStart(status, CRLF + "Content-Length: 5" + BLANK);
    assert NOT_MODIFIED == status + (CRLF + "Content-Length: 5" + BLANK);
  }

  const CHUNKED_NOT_MODIFIED: string := "HTTP/1.1 304 Not Modified" + CRLF + "Transfer-Encoding: chunked" + BLANK

  lemma TransferEncodingSpelled()
    ensures EqualIgnoringCase("Transfer-Encoding", "transfer-encoding") && !Holds("Transfer-Encoding", ':')
    ensures Plain("Transfer-Encoding")
  {
  }

  lemma ChunkedPlain()
    ensures Plain("Transfer-Encoding: chunked")
    ensures "Transfer-Encoding" + ":" + " chunked" == "Transfer-Encoding: chunked"
  {
  }

  /** The other input that fails: a 304 that names a transfer coding declares no length, and is refused
      as malformed where its headers should end it. */
  lemma ChunkedNotModifiedIsRefused()
    ensures StatusCode(CHUNKED_NOT_MODIFIED) == Some(304) && Framed(CHUNKED_NOT_MODIFIED).Malformed?
  {
    hide Find, Names, EqualIgnoringCase, FirstField, Lines, JoinLines, HeaderValue, StatusCode, Trim;
    var status, line := "HTTP/1.1 304 Not Modified", "Transfer-Encoding: chunked";
    var head := status + CRLF + line;
    StatusFromStart(status, CRLF + line + BLANK);
    NotModifiedLine();
    assert CHUNKED_NOT_MODIFIED == status + (CRLF + line + BLANK) == head + BLANK;
    TransferEncodingSpelled();
    ChunkedPlain();
    JoinTwo(status, line);
    assert [status] + [] + ["Transfer-Encoding" + ":" + " chunked"] + [] == [status, line];
    FirstFieldWins(status, [], "Transfer-Encoding", " chunked", [], "transfer-encoding");
    BlankAfterLines([status, line], "");
    assert head + BLANK + "" == head + BLANK;
    assert (head + BLANK)[..|head|] == head;
  }

  /** A whole reply with no body, under a given status line. */
  function Bare(status: string): string {
    status + CRLF + "Content-Length: 0" + BLANK
  }

  lemma BareCompletes(status: string)
    requires Plain(status) && status != "" && |status| < 1000
    ensures Framed(Bare(status)).Complete?
  {
    hide Find, Names, EqualIgnoringCase, FirstField, Lines, JoinLines, HeaderValue, Framed, Value, Print, AllDigits;
    var line := "Content-Length" + ":" + (" " + Print(0));
    SpelledAlike();
    DigitPrints(0);
    assert line == "Content-Length: 0";
    JoinTwo(status, line);
    assert [status] + [] + [line] + [] == [status, line];
    assert Head(status, [], "Content-Length", 0, []) + BLANK + "" == Bare(status);
    DeclaredReplyCompletes(status, [], "Content-Length", 0, [], "");
  }

  const OK_LINE: string := "HTTP/1.1 200 OK"
  const UNAVAILABLE_LINE: string := "HTTP/1.1 503 Service Unavailable"

  /** A 200 and a 503, both whole replies: one says yes and the other no. */
  lemma YesAndNo(text: string)
    ensures Framed(Bare(OK_LINE)).Complete? && SaysYes(OK_LINE + text)
    ensures Framed(Bare(UNAVAILABLE_LINE)).Complete? && !SaysYes(UNAVAILABLE_LINE + text)
  {
    hide Plain, SaysYes, Framed, Bare;
    OkLine();
    UnavailableLine();
    BareCompletes(OK_LINE);
    BareCompletes(UNAVAILABLE_LINE);
    YesFromStart(OK_LINE, text);
    YesFromStart(UNAVAILABLE_LINE, text);
  }

  lemma OkLine()
    ensures Plain(OK_LINE) && SaysYes(OK_LINE) && 13 <= |OK_LINE| < 1000
  {
    assert OK_LINE[..9] == "HTTP/1.1 ";
  }

  lemma UnavailableLine()
    ensures Plain(UNAVAILABLE_LINE) && !SaysYes(UNAVAILABLE_LINE) && 13 <= |UNAVAILABLE_LINE| < 1000
  {
  }

  lemma YesFromStart(start: string, rest: string)
    requires |start| >= 13
    ensures SaysYes(start + rest) <==> SaysYes(start)
  {
    assert (start + rest)[..9] == start[..9];
  }

  /** A whole reply whose head is made long by one field. */
  function Padded(n: nat): string {
    Head("HTTP/1.1 200 OK", ["X:" + seq(n, _ => 'a')], "Content-Length", 0, []) + BLANK
  }

  lemma PaddingIsPlain(n: nat)
    ensures var line := "X:" + seq(n, _ => 'a');
            Plain(line) && line != "" && !Names(line, "content-length") && !Names(line, "transfer-encoding")
  {
    ColonFound("X", seq(n, _ => 'a'));
    assert "X" + ":" + seq(n, _ => 'a') == "X:" + seq(n, _ => 'a');
  }

  lemma {:induction false} JoinCoversLine(lines: seq<string>, i: nat)
    requires i < |lines|
    ensures |JoinLines(lines)| >= |lines[i]|
  {
    if i > 0 {
      JoinCoversLine(lines[1..], i - 1);
    }
  }

  /** The replies that fail: past 64 KiB of padding, a reply that is complete when it has come whole is
      refused when it is seen in part. */
  lemma OversizeHeadIsRefused(n: nat)
    requires n >= MAX_HEADER_BYTES && |Padded(n)| < U64
    ensures Framed(Padded(n)).Complete? && !Awaited(Http11Get(""), Padded(n))
  {
    hide Find, Names, EqualIgnoringCase, FirstField, Lines, JoinLines, HeaderValue, Framed, Value, Print, Awaited;
    var status, line := "HTTP/1.1 200 OK", "X:" + seq(n, _ => 'a');
    var lines := [status] + [line] + ["Content-Length" + ":" + (" " + Print(0))] + [];
    var head := Head(status, [line], "Content-Length", 0, []);
    SpelledAlike();
    PaddingIsPlain(n);
    HeadFields(status, [line], "Content-Length", 0, []);
    BlankAfterLines(lines, "");
    assert head + BLANK + "" == head + BLANK;
    DeclaredReplyCompletes(status, [line], "Content-Length", 0, [], "");
    JoinCoversLine(lines, 1);
    AwaitedExactly(Http11Get(""), Padded(n));
  }
}
