/** src/load/http.cpp: reading a status line and header fields.  Field names are matched without
    regard to ASCII case, per section 5.1 of RFC 9110. */
module Http {
  import opened Wrappers
  import opened Text

  const CRLF: string := "\r\n"
  const BLANK: string := "\r\n\r\n"
  const U64: nat := 0x1_0000_0000_0000_0000

  // ----- The status line -----

  /** Three digits after an HTTP/1.0 or HTTP/1.1 version, and no fourth. */
  predicate HasStatus(text: string) {
    && |text| >= 12
    && (At(text, "HTTP/1.1 ", 0) || At(text, "HTTP/1.0 ", 0))
    && AllDigits(text[9..12])
    && (|text| > 12 ==> !Digit(text[12]))
  }

  function StatusCode(text: string): Option<nat> {
    if HasStatus(text) then Some(Value(text[9..12])) else None
  }

  /** A code is read exactly from a version, three decimal digits and no fourth; it is their value. */
  lemma StatusExactly(text: string)
    ensures StatusCode(text).Some?
            <==> && |text| >= 12 && (text[..9] == "HTTP/1.1 " || text[..9] == "HTTP/1.0 ")
                 && (forall i :: 9 <= i < 12 ==> 48 <= text[i] as int <= 57)
                 && (|text| > 12 ==> !(48 <= text[12] as int <= 57))
    ensures StatusCode(text).Some? ==>
              StatusCode(text).value
              == 100 * (text[9] as int - 48) + 10 * (text[10] as int - 48) + (text[11] as int - 48)
  {
    hide Value;
    if |text| >= 12 {
      assert text[0..9] == text[..9];
      assert forall i :: 9 <= i < 12 ==> text[9..12][i - 9] == text[i];
      if AllDigits(text[9..12]) {
        ThreeDigits(text[9..12]);
      }
    }
  }

  lemma ThreeDigits(code: string)
    requires |code| == 3 && AllDigits(code)
    ensures Value(code) == DigitValue(code[0]) * 100 + DigitValue(code[1]) * 10 + DigitValue(code[2])
  {
    ValueSnoc("", code[0]);
    ValueSnoc([code[0]], code[1]);
    ValueSnoc([code[0], code[1]], code[2]);
    assert "" + [code[0]] == [code[0]] && [code[0]] + [code[1]] == [code[0], code[1]];
    assert code == [code[0], code[1]] + [code[2]];
  }

  method ReadStatusCode(text: string) returns (code: Option<nat>)
    ensures code == StatusCode(text)
  {
    if |text| < 12 {
      return None;
    }
    if text[0..9] != "HTTP/1.1 " && text[0..9] != "HTTP/1.0 " {
      return None;
    }
    var value := 0;
    for i := 9 to 12
      invariant AllDigits(text[9..i]) && value == Value(text[9..i])
    {
      var digit := text[i];
      assert text[9..12][i - 9] == digit;
      if digit < '0' || digit > '9' {
        return None;
      }
      assert text[9..i + 1] == text[9..i] + [digit];
      ValueSnoc(text[9..i], digit);
      value := value * 10 + (digit as nat - '0' as nat);
    }
    if |text| > 12 && '0' <= text[12] <= '9' {
      return None;
    }
    return Some(value);
  }

  // ----- Names -----

  function Lower(c: char): char {
    if 'A' <= c <= 'Z' then (c as nat + 32) as char else c
  }

  predicate EqualIgnoringCase(a: string, b: string) {
    |a| == |b| && forall i :: 0 <= i < |a| ==> Lower(a[i]) == Lower(b[i])
  }

  /** What ignoring case means: each pair of characters is equal, or is a letter from A to Z and the same
      letter from a to z. */
  lemma CaseExactly(a: string, b: string)
    ensures EqualIgnoringCase(a, b)
            <==> && |a| == |b|
                 && forall i :: 0 <= i < |a| ==>
                      || a[i] == b[i]
                      || (65 <= a[i] as int <= 90 && b[i] as int == a[i] as int + 32)
                      || (65 <= b[i] as int <= 90 && a[i] as int == b[i] as int + 32)
  {
    if |a| == |b| {
      forall i | 0 <= i < |a|
        ensures Lower(a[i]) == Lower(b[i])
                <==> || a[i] == b[i]
                     || (65 <= a[i] as int <= 90 && b[i] as int == a[i] as int + 32)
                     || (65 <= b[i] as int <= 90 && a[i] as int == b[i] as int + 32)
      {
        SameLetter(a[i], b[i]);
      }
    }
  }

  lemma SameLetter(a: char, b: char)
    ensures Lower(a) == Lower(b)
            <==> || a == b
                 || (65 <= a as int <= 90 && b as int == a as int + 32)
                 || (65 <= b as int <= 90 && a as int == b as int + 32)
  {
  }

  method MatchIgnoringCase(a: string, b: string) returns (equal: bool)
    ensures equal == EqualIgnoringCase(a, b)
  {
    if |a| != |b| {
      return false;
    }
    for i := 0 to |a|
      invariant forall j :: 0 <= j < i ==> Lower(a[j]) == Lower(b[j])
    {
      var left := if 'A' <= a[i] <= 'Z' then (a[i] as nat + 32) as char else a[i];
      var right := if 'A' <= b[i] <= 'Z' then (b[i] as nat + 32) as char else b[i];
      if left != right {
        return false;
      }
    }
    return true;
  }

  // ----- Whitespace -----

  predicate Space(c: char) {
    c == ' ' || c == '\t'
  }

  predicate AllSpace(text: string) {
    forall i :: 0 <= i < |text| ==> Space(text[i])
  }

  predicate Tight(text: string) {
    text == "" || (!Space(text[0]) && !Space(text[|text| - 1]))
  }

  function TrimFront(text: string): string {
    if text != "" && Space(text[0]) then TrimFront(text[1..]) else text
  }

  function TrimBack(text: string): string {
    if text != "" && Space(text[|text| - 1]) then TrimBack(text[..|text| - 1]) else text
  }

  function Trim(text: string): string {
    TrimBack(TrimFront(text))
  }

  method StripSpaces(text: string) returns (value: string)
    ensures value == Trim(text)
  {
    value := text;
    while value != "" && (value[0] == ' ' || value[0] == '\t')
      invariant TrimFront(value) == TrimFront(text)
      decreases |value|
    {
      value := value[1..];
    }
    ghost var front := value;
    while value != "" && (value[|value| - 1] == ' ' || value[|value| - 1] == '\t')
      invariant TrimBack(value) == TrimBack(front)
      decreases |value|
    {
      value := value[..|value| - 1];
    }
  }

  lemma {:induction false} TrimFrontOf(before: string, core: string)
    requires AllSpace(before) && (core == "" || !Space(core[0]))
    ensures TrimFront(before + core) == core
  {
    if before == "" {
      assert before + core == core;
    } else {
      assert (before + core)[1..] == before[1..] + core;
      TrimFrontOf(before[1..], core);
    }
  }

  lemma {:induction false} TrimBackOf(core: string, after: string)
    requires AllSpace(after) && (core == "" || !Space(core[|core| - 1]))
    ensures TrimBack(core + after) == core
  {
    if after == "" {
      assert core + after == core;
    } else {
      var short := after[..|after| - 1];
      assert (core + after)[..|core + after| - 1] == core + short;
      TrimBackOf(core, short);
    }
  }

  /** Trimming takes off all the spaces around a value and nothing else: it is the only way to write
      the text as spaces, a value with no space at either end, and spaces. */
  lemma TrimExactly(before: string, core: string, after: string)
    requires forall i :: 0 <= i < |before| ==> before[i] == ' ' || before[i] == '\t'
    requires forall i :: 0 <= i < |after| ==> after[i] == ' ' || after[i] == '\t'
    requires core != "" ==> core[0] != ' ' && core[0] != '\t'
    requires core != "" ==> core[|core| - 1] != ' ' && core[|core| - 1] != '\t'
    ensures Trim(before + core + after) == core
  {
    if core == "" {
      assert before + core + after == (before + after) + "";
      TrimFrontOf(before + after, "");
    } else {
      assert before + core + after == before + (core + after);
      TrimFrontOf(before, core + after);
      TrimBackOf(core, after);
    }
  }

  // ----- Lines -----

  /** The text cut at every line break. */
  function Lines(text: string): (lines: seq<string>)
    ensures lines != []
    decreases |text|
  {
    match Find(text, CRLF, 0)
    case None => [text]
    case Some(i) => [text[..i]] + Lines(text[i + 2..])
  }

  function JoinLines(lines: seq<string>): string
    requires lines != []
  {
    if |lines| == 1 then lines[0] else lines[0] + CRLF + JoinLines(lines[1..])
  }

  predicate Plain(text: string) {
    forall i :: 0 <= i < |text| ==> text[i] != '\r' && text[i] != '\n'
  }

  lemma FirstBreak(line: string, rest: string)
    requires Plain(line)
    ensures Find(line + CRLF + rest, CRLF, 0) == Some(|line|)
  {
    var text := line + CRLF + rest;
    assert text[|line|..|line| + 2] == CRLF;
    forall j | 0 <= j < |line| ensures !At(text, CRLF, j) {
      assert text[j] == line[j];
      Differs(text, CRLF, j, 0);
    }
    FirstOccurrence(text, CRLF, 0, |line|);
  }

  lemma NoBreak(line: string)
    requires Plain(line)
    ensures Find(line, CRLF, 0) == None
  {
    forall j | 0 <= j < |line| ensures !At(line, CRLF, j) {
      Differs(line, CRLF, j, 0);
    }
  }

  /** Lines that hold no line break of their own come back as they were joined. */
  lemma {:induction false} LinesReadBack(lines: seq<string>)
    requires lines != [] && forall i :: 0 <= i < |lines| ==> Plain(lines[i])
    ensures Lines(JoinLines(lines)) == lines
  {
    if |lines| == 1 {
      NoBreak(lines[0]);
    } else {
      var rest := JoinLines(lines[1..]);
      FirstBreak(lines[0], rest);
      var text := lines[0] + CRLF + rest;
      assert text[..|lines[0]|] == lines[0] && text[|lines[0]| + 2..] == rest;
      LinesReadBack(lines[1..]);
    }
  }

  /** Cutting loses nothing. */
  lemma {:induction false} LinesCoverText(text: string)
    ensures JoinLines(Lines(text)) == text
    decreases |text|
  {
    match Find(text, CRLF, 0)
    case None =>
    case Some(i) =>
      var rest := Lines(text[i + 2..]);
      LinesCoverText(text[i + 2..]);
      assert ([text[..i]] + rest)[1..] == rest;
      assert text == text[..i] + CRLF + text[i + 2..];
  }

  // ----- Header fields -----

  /** Does a line hold a field of this name? */
  predicate Names(line: string, name: string) {
    var colon := Find(line, ":", 0);
    colon.Some? && EqualIgnoringCase(line[..colon.value], name)
  }

  function FieldValue(line: string): string
    requires Find(line, ":", 0).Some?
  {
    Trim(line[Find(line, ":", 0).value + 1..])
  }

  function FirstField(lines: seq<string>, name: string): Option<string> {
    if lines == [] then None
    else if Names(lines[0], name) then Some(FieldValue(lines[0]))
    else FirstField(lines[1..], name)
  }

  /** The value of the first field of a name, after the status line. */
  function HeaderValue(headers: string, name: string): Option<string> {
    FirstField(Lines(headers)[1..], name)
  }

  /** Where the first line of the remaining text ends. */
  function LineEnd(rest: string): (end: nat)
    ensures end <= |rest|
  {
    match Find(rest, CRLF, 0) case Some(i) => i case None => |rest|
  }

  lemma OneLine(rest: string, name: string)
    ensures FirstField(Lines(rest), name)
            == var end := LineEnd(rest);
               if Names(rest[..end], name) then Some(FieldValue(rest[..end]))
               else if end + 2 <= |rest| then FirstField(Lines(rest[end + 2..]), name) else None
  {
    if Find(rest, CRLF, 0).Some? {
      assert ([rest[..LineEnd(rest)]] + Lines(rest[LineEnd(rest) + 2..]))[1..] == Lines(rest[LineEnd(rest) + 2..]);
    } else {
      assert rest[..|rest|] == rest && !At(rest, CRLF, 0);
    }
  }

  method FindHeader(headers: string, name: string) returns (value: Option<string>)
    ensures value == HeaderValue(headers, name)
  {
    hide Lines, FirstField, Find, Trim, EqualIgnoringCase;
    StatusLineSkipped(headers, name);
    var first := Find(headers, CRLF, 0);
    if first.None? {
      return None;
    }
    var lineBegins := first.value + 2;
    while lineBegins < |headers|
      invariant lineBegins <= |headers| ==> HeaderValue(headers, name) == FirstField(Lines(headers[lineBegins..]), name)
      invariant lineBegins > |headers| ==> HeaderValue(headers, name) == None
    {
      var lineEnds := match Find(headers, CRLF, lineBegins) case Some(i) => i case None => |headers|;
      var line := headers[lineBegins..lineEnds];
      ghost var rest := headers[lineBegins..];
      FindInRest(headers, CRLF, lineBegins);
      assert rest[..LineEnd(rest)] == line;
      OneLine(rest, name);
      var colon := Find(line, ":", 0);
      if colon.Some? {
        var matches := MatchIgnoringCase(line[..colon.value], name);
        if matches {
          var trimmed := StripSpaces(line[colon.value + 1..]);
          return Some(trimmed);
        }
      }
      lineBegins := lineEnds + 2;
      assert lineBegins <= |headers| ==> headers[lineBegins..] == rest[|line| + 2..];
    }
    NoFieldInNothing(name);
    assert lineBegins == |headers| ==> headers[lineBegins..] == "";
    return None;
  }

  lemma NoFieldInNothing(name: string)
    ensures FirstField(Lines(""), name) == None
  {
    OneLine("", name);
  }

  lemma StatusLineSkipped(headers: string, name: string)
    ensures HeaderValue(headers, name)
            == match Find(headers, CRLF, 0)
               case Some(i) => FirstField(Lines(headers[i + 2..]), name)
               case None => None
  {
    if Find(headers, CRLF, 0).Some? {
      var i := Find(headers, CRLF, 0).value;
      assert ([headers[..i]] + Lines(headers[i + 2..]))[1..] == Lines(headers[i + 2..]);
    }
  }

  lemma FindInRest(text: string, pattern: string, begin: nat)
    requires begin <= |text|
    ensures Find(text[begin..], pattern, 0)
            == match Find(text, pattern, begin) case Some(i) => Some(i - begin) case None => None
  {
    hide Find;
    var rest := text[begin..];
    forall i: nat ensures At(rest, pattern, i) <==> At(text, pattern, begin + i) {
      if i + |pattern| <= |rest| {
        assert rest[i..i + |pattern|] == text[begin + i..begin + i + |pattern|];
      }
    }
    var found := Find(text, pattern, begin);
    if found.Some? {
      FirstOccurrence(rest, pattern, 0, found.value - begin);
    }
  }

  // ----- Content-Length -----

  /** A plain decimal count that fits in 64 bits; anything else reads as absent. */
  function ContentLength(headers: string): Option<nat> {
    match HeaderValue(headers, "content-length")
    case None => None
    case Some(value) =>
      if value != "" && AllDigits(value) && Value(value) < U64 then Some(Value(value)) else None
  }

  /** A declared length is read exactly when the field's value is a non-empty run of decimal digits
      below 2^64. */
  lemma LengthExactly(headers: string)
    ensures ContentLength(headers).Some?
            <==> && HeaderValue(headers, "content-length").Some?
                 && var value := HeaderValue(headers, "content-length").value;
                    && value != "" && (forall i :: 0 <= i < |value| ==> 48 <= value[i] as int <= 57)
                    && Value(value) < 18_446_744_073_709_551_616
    ensures ContentLength(headers).Some? ==>
              ContentLength(headers).value == Value(HeaderValue(headers, "content-length").value)
  {
    hide HeaderValue, Value;
  }

  method ReadContentLength(headers: string) returns (length: Option<nat>)
    ensures length == ContentLength(headers)
  {
    var header := FindHeader(headers, "content-length");
    if header.None? || header.value == "" {
      return None;
    }
    var value := header.value;
    var total := 0;
    for i := 0 to |value|
      invariant AllDigits(value[..i]) && total == Value(value[..i]) && total < U64
    {
      var digit := value[i];
      if digit < '0' || digit > '9' {
        return None;
      }
      assert value[..i + 1] == value[..i] + [digit];
      ValueSnoc(value[..i], digit);
      if total > (U64 - 1 - (digit as nat - '0' as nat)) / 10 {
        if AllDigits(value) {
          ValueGrows(value, i + 1);
        }
        return None;
      }
      total := total * 10 + (digit as nat - '0' as nat);
    }
    assert value[..|value|] == value;
    return Some(total);
  }

  lemma {:induction false} EarlierLinesSkipped(before: seq<string>, lines: seq<string>, name: string)
    requires forall i :: 0 <= i < |before| ==> !Names(before[i], name)
    ensures FirstField(before + lines, name) == FirstField(lines, name)
  {
    if before == [] {
      assert before + lines == lines;
    } else {
      assert (before + lines)[1..] == before[1..] + lines;
      EarlierLinesSkipped(before[1..], lines, name);
    }
  }

  /** What header_value answers, read off the lines: the trimmed text after the first colon of the
      first line whose whole name matches.  The status line, another field's value and a name that
      merely contains this one never match. */
  lemma FirstFieldWins(status: string, before: seq<string>, field: string, value: string, after: seq<string>,
                       name: string)
    requires var lines := [status] + before + [field + ":" + value] + after;
             forall i :: 0 <= i < |lines| ==> Plain(lines[i])
    requires EqualIgnoringCase(field, name) && !Holds(field, ':')
    requires forall i :: 0 <= i < |before| ==> !Names(before[i], name)
    ensures HeaderValue(JoinLines([status] + before + [field + ":" + value] + after), name) == Some(Trim(value))
  {
    hide Trim, EqualIgnoringCase, Lines, JoinLines;
    var line := field + ":" + value;
    var fields := before + ([line] + after);
    var lines := [status] + before + [line] + after;
    assert lines[1..] == fields;
    LinesReadBack(lines);
    EarlierLinesSkipped(before, [line] + after, name);
    ColonFound(field, value);
    assert line[..|field|] == field && line[|field| + 1..] == value;
    assert ([line] + after)[0] == line;
  }

  lemma ColonFound(field: string, value: string)
    requires !Holds(field, ':')
    ensures Find(field + ":" + value, ":", 0) == Some(|field|)
  {
    var line := field + ":" + value;
    assert line[|field|..|field| + 1] == ":";
    forall j | 0 <= j < |field| ensures !At(line, ":", j) {
      assert line[j] == field[j];
      Differs(line, ":", j, 0);
    }
    FirstOccurrence(line, ":", 0, |field|);
  }

  /** No line answers to the name, so there is no value. */
  lemma {:induction false} NoFieldNoValue(lines: seq<string>, name: string)
    requires forall i :: 0 <= i < |lines| ==> !Names(lines[i], name)
    ensures FirstField(lines, name) == None
  {
    if lines != [] {
      NoFieldNoValue(lines[1..], name);
    }
  }

  // ----- Requests -----

  datatype Misuse = EmptyHost | PathWithoutSlash | BreakInHost | BreakInPath

  /** One GET, or the reason no well-formed one can be built. */
  function BuildGet(host: string, path: string, agent: string): Result<string, Misuse> {
    if host == "" then Err(EmptyHost)
    else if path == "" || path[0] != '/' then Err(PathWithoutSlash)
    else if !Plain(host) then Err(BreakInHost)
    else if !Plain(path) then Err(BreakInPath)
    else
      var requestLine := "GET " + path + " HTTP/1.1";
      var hostLine, agentLine := "Host: " + host, "User-Agent: " + agent;
      Ok(requestLine + CRLF + hostLine + CRLF + agentLine + CRLF + "Accept: */*" + CRLF + CRLF)
  }

  /** The refusals, each for its own fault, and the bytes that go out otherwise. */
  lemma RequestExactly(host: string, path: string, agent: string)
    ensures match BuildGet(host, path, agent)
            case Err(EmptyHost) => host == ""
            case Err(PathWithoutSlash) => host != "" && (path == "" || path[0] != '/')
            case Err(BreakInHost) => path != "" && path[0] == '/' && (Holds(host, '\r') || Holds(host, '\n'))
            case Err(BreakInPath) => path != "" && path[0] == '/' && (Holds(path, '\r') || Holds(path, '\n'))
            case Ok(request) =>
              && host != "" && path != "" && path[0] == '/'
              && !Holds(host, '\r') && !Holds(host, '\n') && !Holds(path, '\r') && !Holds(path, '\n')
              && request == ("GET " + path + " HTTP/1.1") + "\r\n" + ("Host: " + host) + "\r\n"
                            + ("User-Agent: " + agent) + "\r\n" + "Accept: */*" + "\r\n" + "\r\n"
  {
  }

  /** Whatever host and path are accepted, the target reads back exactly the request meant: one
      request line, three fields and a blank line, with no line slipped in by the arguments. */
  lemma RequestReadsBack(host: string, path: string, agent: string)
    requires BuildGet(host, path, agent).Ok? && Plain(agent)
    ensures Lines(BuildGet(host, path, agent).value)
            == ["GET " + path + " HTTP/1.1", "Host: " + host, "User-Agent: " + agent, "Accept: */*", "", ""]
  {
    FourLinesReadBack("GET " + path + " HTTP/1.1", "Host: " + host, "User-Agent: " + agent, "Accept: */*");
  }

  lemma FourLinesReadBack(a: string, b: string, c: string, d: string)
    requires Plain(a) && Plain(b) && Plain(c) && Plain(d)
    ensures Lines(a + CRLF + b + CRLF + c + CRLF + d + CRLF + CRLF) == [a, b, c, d, "", ""]
  {
    hide Lines, JoinLines;
    var lines := [a, b, c, d, "", ""];
    LinesReadBack(lines);
    JoinThree(d);
    JoinCons(c, [d, "", ""]);
    JoinCons(b, [c, d, "", ""]);
    JoinCons(a, [b, c, d, "", ""]);
    assert [c] + [d, "", ""] == [c, d, "", ""] && [b] + [c, d, "", ""] == [b, c, d, "", ""];
    assert [a] + [b, c, d, "", ""] == lines;
    Reassociate(a, b, c, d);
  }

  lemma Reassociate(a: string, b: string, c: string, d: string)
    ensures a + CRLF + b + CRLF + c + CRLF + d + CRLF + CRLF
            == a + CRLF + (b + CRLF + (c + CRLF + (d + CRLF + CRLF)))
  {
  }

  lemma JoinThree(line: string)
    ensures JoinLines([line, "", ""]) == line + CRLF + CRLF
  {
    assert [line, "", ""][1..] == ["", ""] && ["", ""][1..] == [""];
    assert "" + CRLF + "" == CRLF;
  }

  lemma JoinCons(head: string, tail: seq<string>)
    requires tail != []
    ensures JoinLines([head] + tail) == head + CRLF + JoinLines(tail)
  {
    assert ([head] + tail)[1..] == tail;
  }
}
