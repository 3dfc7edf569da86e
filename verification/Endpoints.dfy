/** src/core/endpoint.cpp: reading and printing "host:port". */
module Endpoints {
  import opened Wrappers
  import opened Text

  datatype Endpoint = Endpoint(host: string, port: nat)

  datatype Problem =
    | NoText | Unclosed | NoPortAfterBracket | NotAnAddress | NoColon | Unbracketed | BadCharacter(c: char)
    | PortMissing | PortNotDigit(c: char) | PortTooBig
    | EmptyHost | BracketInHost | PortZero

  // ----- Ports -----

  function Digits(text: string): Result<nat, Problem> {
    if text == "" then Ok(0)
    else
      match Digits(text[..|text| - 1])
      case Err(problem) => Err(problem)
      case Ok(port) =>
        var c := text[|text| - 1];
        if !Digit(c) then Err(PortNotDigit(c))
        else if port * 10 + DigitValue(c) > 65535 then Err(PortTooBig)
        else Ok(port * 10 + DigitValue(c))
  }

  function PortOf(text: string): Result<nat, Problem> {
    if text == "" then Err(PortMissing) else Digits(text)
  }

  lemma {:induction false} DigitsStop(text: string, n: nat)
    requires n <= |text| && Digits(text[..n]).Err?
    ensures Digits(text) == Digits(text[..n])
    decreases |text|
  {
    if n == |text| {
      assert text[..n] == text;
    } else {
      var front := text[..|text| - 1];
      assert front[..n] == text[..n];
      DigitsStop(front, n);
    }
  }

  method ParsePort(text: string) returns (port: Result<nat, Problem>)
    ensures port == PortOf(text)
  {
    if text == "" {
      return Err(PortMissing);
    }
    var value := 0;
    for i := 0 to |text|
      invariant Digits(text[..i]) == Ok(value)
    {
      var c := text[i];
      assert text[..i + 1][..i] == text[..i];
      if c < '0' || c > '9' {
        DigitsStop(text, i + 1);
        return Err(PortNotDigit(c));
      }
      value := value * 10 + (c as nat - '0' as nat);
      if value > 65535 {
        DigitsStop(text, i + 1);
        return Err(PortTooBig);
      }
    }
    assert text[..|text|] == text;
    return Ok(value);
  }

  /** Checking the bound digit by digit accepts exactly the decimal numbers up to 65535, however long. */
  lemma {:induction false} DigitsExactly(text: string)
    ensures Digits(text).Ok? <==> AllDigits(text) && Value(text) <= 65535
    ensures Digits(text).Ok? ==> Digits(text).value == Value(text)
  {
    if text != "" {
      var front, c := text[..|text| - 1], text[|text| - 1];
      DigitsExactly(front);
      assert AllDigits(text) <==> AllDigits(front) && Digit(c);
      if AllDigits(text) {
        ValueGrows(text, |text| - 1);
      }
    }
  }

  // ----- Hosts -----

  predicate Forbidden(c: char) {
    c == ' ' || c == '\t' || c == '/' || c == '\\' || c == '@' || c == '?'
  }

  function FirstForbidden(host: string): Option<char> {
    if host == "" then None
    else if Forbidden(host[0]) then Some(host[0])
    else FirstForbidden(host[1..])
  }

  predicate Clean(host: string) {
    forall i :: 0 <= i < |host| ==> !Forbidden(host[i])
  }

  lemma CleanMeans(host: string)
    ensures Clean(host) <==> forall i :: 0 <= i < |host| ==> host[i] !in [' ', '\t', '/', '\\', '@', '?']
  {
  }

  lemma {:induction false} CleanExactly(host: string)
    ensures FirstForbidden(host).None? <==> Clean(host)
  {
    if host != "" {
      CleanExactly(host[1..]);
      assert host == [host[0]] + host[1..];
    }
  }

  method ScanHost(host: string) returns (found: Option<char>)
    ensures found == FirstForbidden(host)
  {
    for i := 0 to |host|
      invariant FirstForbidden(host) == FirstForbidden(host[i..])
    {
      if Forbidden(host[i]) {
        return Some(host[i]);
      }
    }
    return None;
  }

  // ----- The constructor -----

  /** What every endpoint satisfies. */
  predicate Valid(e: Endpoint) {
    e.host != "" && !Holds(e.host, '[') && !Holds(e.host, ']') && 0 < e.port <= 65535
  }

  function Make(host: string, port: nat): Result<Endpoint, Problem> {
    if host == "" then Err(EmptyHost)
    else if Find(host, "[", 0).Some? || Find(host, "]", 0).Some? then Err(BracketInHost)
    else if port == 0 then Err(PortZero)
    else Ok(Endpoint(host, port))
  }

  lemma MakesExactlyValid(host: string, port: nat)
    requires port <= 65535
    ensures Make(host, port) == Ok(Endpoint(host, port)) <==> Valid(Endpoint(host, port))
    ensures Valid(Endpoint(host, port)) <==> host != "" && !Holds(host, '[') && !Holds(host, ']') && port > 0
    ensures Make(host, port).Ok? ==> Make(host, port).value == Endpoint(host, port)
  {
    CutIs(host, '[');
    CutIs(host, ']');
  }

  // ----- Reading -----

  function LastColon(text: string): (found: Option<nat>)
    ensures found.Some? ==> found.value < |text| && text[found.value] == ':' && !Holds(text[found.value + 1..], ':')
    ensures found.None? ==> !Holds(text, ':')
  {
    if text == "" then None
    else if text[|text| - 1] == ':' then Some(|text| - 1)
    else
      var front := text[..|text| - 1];
      assert forall i :: 0 <= i < |text| - 1 ==> text[i] == front[i];
      LastColon(front)
  }

  /** Split into host and port, or why not. */
  function Halves(text: string): Result<(string, string), Problem> {
    if text == "" then Err(NoText)
    else if text[0] == '[' then
      match Find(text, "]", 0)
      case None => Err(Unclosed)
      case Some(close) =>
        assert text[close..close + 1][0] == ']';
        var host, rest := text[1..close], text[close + 1..];
        if rest == "" || rest[0] != ':' then Err(NoPortAfterBracket)
        else if Find(host, ":", 0).None? then Err(NotAnAddress)
        else Ok((host, rest[1..]))
    else
      match LastColon(text)
      case None => Err(NoColon)
      case Some(colon) =>
        if Find(text[..colon], ":", 0).Some? then Err(Unbracketed)
        else Ok((text[..colon], text[colon + 1..]))
  }

  function Parse(text: string): Result<Endpoint, Problem> {
    match Halves(text)
    case Err(problem) => Err(problem)
    case Ok((host, port)) =>
      match FirstForbidden(host)
      case Some(c) => Err(BadCharacter(c))
      case None =>
        match PortOf(port)
        case Err(problem) => Err(problem)
        case Ok(number) => Make(host, number)
  }

  /** The same, by the scanning loops. */
  method ParseEndpoint(text: string) returns (endpoint: Result<Endpoint, Problem>)
    ensures endpoint == Parse(text)
  {
    hide Halves, FirstForbidden, PortOf, Make;
    var halves := Halves(text);
    if halves.Err? {
      return Err(halves.error);
    }
    var (host, port) := halves.value;
    var bad := ScanHost(host);
    if bad.Some? {
      return Err(BadCharacter(bad.value));
    }
    var number := ParsePort(port);
    if number.Err? {
      return Err(number.error);
    }
    return Make(host, number.value);
  }

  // ----- Printing -----

  predicate IsIpv6(e: Endpoint) {
    Find(e.host, ":", 0).Some?
  }

  function Joined(host: string, bracketed: bool, port: string): string {
    if bracketed then "[" + host + "]:" + port else host + ":" + port
  }

  function Str(e: Endpoint): string {
    Joined(e.host, IsIpv6(e), Print(e.port))
  }

  // ----- Round trips -----

  lemma {:induction false} LastColonIs(text: string, i: nat)
    requires i < |text| && text[i] == ':' && forall j :: i < j < |text| ==> text[j] != ':'
    ensures LastColon(text) == Some(i)
    decreases |text|
  {
    if i < |text| - 1 {
      LastColonIs(text[..|text| - 1], i);
    }
  }

  /** A text splits in exactly one way: brackets around the hosts that hold a colon and no others. */
  lemma HalvesOfJoined(host: string, port: string)
    requires host != "" && !Holds(host, '[') && !Holds(host, ']') && AllDigits(port)
    ensures Halves(Joined(host, Holds(host, ':'), port)) == Ok((host, port))
  {
    hide Find, LastColon;
    var text := Joined(host, Holds(host, ':'), port);
    CutIs(host, ':');
    if Holds(host, ':') {
      var close := |host| + 1;
      assert text[close..close + 1] == "]";
      forall j | 0 <= j < close ensures !At(text, "]", j) {
        assert text[j] == if j == 0 then '[' else host[j - 1];
        Differs(text, "]", j, 0);
      }
      FirstOccurrence(text, "]", 0, close);
      assert text[1..close] == host && text[close + 1..] == ":" + port;
    } else {
      var colon := |host|;
      assert text[0] == host[0];
      forall j | colon < j < |text| ensures text[j] != ':' {
        assert text[j] == port[j - colon - 1];
      }
      LastColonIs(text, colon);
      assert text[..colon] == host && text[colon + 1..] == port;
    }
  }

  lemma SplitJoins(text: string)
    requires Halves(text).Ok?
    ensures var (host, port) := Halves(text).value; text == Joined(host, Holds(host, ':'), port)
  {
    hide Find, LastColon;
    var (host, port) := Halves(text).value;
    CutIs(host, ':');
    CutIs(text, ']');
    if text[0] == '[' {
      BracketsSplit(text, Find(text, "]", 0).value);
    } else {
      ColonSplits(text, LastColon(text).value);
    }
  }

  lemma BracketsSplit(text: string, close: nat)
    requires 1 <= close < |text| - 1 && text[0] == '[' && text[close] == ']' && text[close + 1] == ':'
    ensures text == "[" + text[1..close] + "]:" + text[close + 1..][1..]
  {
  }

  lemma ColonSplits(text: string, colon: nat)
    requires colon < |text| && text[colon] == ':'
    ensures text == text[..colon] + ":" + text[colon + 1..]
  {
  }

  /** Printing and reading back returns the same endpoint exactly when its host holds none of the
      characters parse refuses; the constructor alone does not refuse them. */
  lemma RoundTripExactly(e: Endpoint)
    requires Valid(e)
    ensures Parse(Str(e)) == Ok(e)
            <==> forall i :: 0 <= i < |e.host| ==> e.host[i] !in [' ', '\t', '/', '\\', '@', '?']
  {
    CleanMeans(e.host);
    hide Halves, Joined, Print, Make, Find, Digits, FirstForbidden;
    CutIs(e.host, ':');
    HalvesOfJoined(e.host, Print(e.port));
    CleanExactly(e.host);
    DigitsExactly(Print(e.port));
    PrintThenRead(e.port);
    MakesExactlyValid(e.host, e.port);
  }

  /** The input that fails: a host with a space passes the constructor, prints, and is refused when
      read back. */
  lemma SpaceDoesNotComeBack()
    ensures var e := Endpoint("a b", 80); Valid(e) && Parse(Str(e)) == Err(BadCharacter(' '))
  {
    hide Halves, Joined, Print, Find;
    var e := Endpoint("a b", 80);
    CutIs(e.host, ':');
    HalvesOfJoined(e.host, Print(e.port));
    assert e.host[1..] == " b";
  }

  /** What an accepted text looks like. */
  ghost predicate Written(text: string, host: string, port: string) {
    && text == (if Holds(host, ':') then "[" + host + "]:" + port else host + ":" + port)
    && host != "" && !Holds(host, '[') && !Holds(host, ']')
    && (forall i :: 0 <= i < |host| ==> host[i] !in [' ', '\t', '/', '\\', '@', '?'])
    && port != "" && AllDigits(port) && 1 <= Value(port) <= 65535
  }

  /** Acceptance, exactly: a text parses if and only if it is a clean host and a port from 1 to 65535,
      with brackets around the host just when it holds a colon. */
  lemma AcceptsExactly(text: string)
    ensures Parse(text).Ok? <==> exists host, port :: Written(text, host, port)
    ensures forall host, port :: Written(text, host, port) ==> Parse(text) == Ok(Endpoint(host, Value(port)))
  {
    hide Halves, Find, Digits, FirstForbidden, Make;
    if Parse(text).Ok? {
      var (host, port) := Halves(text).value;
      SplitJoins(text);
      AcceptedIsWritten(text, host, port);
    }
    forall host, port | Written(text, host, port) ensures Parse(text) == Ok(Endpoint(host, Value(port))) {
      WrittenIsAccepted(text, host, port);
    }
  }

  lemma AcceptedIsWritten(text: string, host: string, port: string)
    requires Parse(text).Ok? && Halves(text) == Ok((host, port)) && text == Joined(host, Holds(host, ':'), port)
    ensures Written(text, host, port)
  {
    hide Halves, Find, Digits, FirstForbidden, Make;
    CleanExactly(host);
    CleanMeans(host);
    DigitsExactly(port);
    MakesExactlyValid(host, Value(port));
  }

  lemma WrittenIsAccepted(text: string, host: string, port: string)
    requires Written(text, host, port)
    ensures Parse(text) == Ok(Endpoint(host, Value(port)))
  {
    hide Halves, Find, Digits, FirstForbidden, Make;
    HalvesOfJoined(host, port);
    CleanExactly(host);
    CleanMeans(host);
    DigitsExactly(port);
    MakesExactlyValid(host, Value(port));
  }

  // ----- A refusal names a fault the text has -----

  lemma SplitFault(text: string)
    ensures match Halves(text)
            case Ok(_) => true
            case Err(NoText) => text == ""
            case Err(Unclosed) => text != "" && text[0] == '[' && !Holds(text, ']')
            case Err(NoPortAfterBracket) =>
              && text != "" && text[0] == '['
              && exists i :: 0 < i < |text| && text[i] == ']' && !Holds(text[..i], ']') && !At(text, ":", i + 1)
            case Err(NotAnAddress) =>
              && text != "" && text[0] == '['
              && exists i :: 0 < i < |text| && text[i] == ']' && !Holds(text[..i], ':') && At(text, ":", i + 1)
            case Err(NoColon) => text != "" && text[0] != '[' && !Holds(text, ':')
            case Err(Unbracketed) =>
              && text != "" && text[0] != '['
              && exists i, j :: 0 <= i < j < |text| && text[i] == ':' && text[j] == ':'
            case Err(_) => false
  {
    hide LastColon, Find;
    CutIs(text, ']');
    if text != "" && text[0] == '[' && Cut(text, ']').Some? {
      BracketFault(text, Cut(text, ']').value);
    } else if text != "" && text[0] != '[' && LastColon(text).Some? {
      CutIs(text[..LastColon(text).value], ':');
    }
  }

  lemma BracketFault(text: string, close: nat)
    requires 0 < close < |text| && text[0] == '[' && text[close] == ']' && !Holds(text[..close], ']')
    ensures At(text, ":", close + 1) <==> text[close + 1..] != "" && text[close + 1..][0] == ':'
    ensures Find(text[1..close], ":", 0).None? <==> !Holds(text[..close], ':')
  {
    hide Find;
    CutIs(text[1..close], ':');
    assert forall i :: 0 < i < close ==> text[..close][i] == text[1..close][i - 1];
    assert close + 1 < |text| ==> text[close + 1..close + 2] == [text[close + 1]];
  }

  lemma {:induction false} HostFault(host: string)
    ensures FirstForbidden(host).Some? ==>
              && FirstForbidden(host).value in host
              && FirstForbidden(host).value in [' ', '\t', '/', '\\', '@', '?']
  {
    if host != "" {
      HostFault(host[1..]);
    }
  }

  lemma {:induction false} PortFault(text: string)
    ensures match PortOf(text)
            case Ok(_) => text != ""
            case Err(PortMissing) => text == ""
            case Err(PortNotDigit(c)) => c in text && !('0' <= c <= '9')
            case Err(PortTooBig) => exists n :: 0 < n <= |text| && AllDigits(text[..n]) && Value(text[..n]) > 65535
            case Err(_) => false
  {
    if text != "" {
      var front := text[..|text| - 1];
      PortFault(front);
      DigitsExactly(front);
      assert text[..|text|] == text;
      if front != "" && PortOf(front) == Err(PortTooBig) {
        var n :| 0 < n <= |front| && AllDigits(front[..n]) && Value(front[..n]) > 65535;
        assert text[..n] == front[..n];
      }
      assert text == front + [text[|text| - 1]];
    }
  }

  lemma ConstructorFault(host: string, port: nat)
    ensures match Make(host, port)
            case Ok(e) => e == Endpoint(host, port)
            case Err(EmptyHost) => host == ""
            case Err(BracketInHost) => Holds(host, '[') || Holds(host, ']')
            case Err(PortZero) => port == 0
            case Err(_) => false
  {
    CutIs(host, '[');
    CutIs(host, ']');
  }

  /** Whatever parse accepts is a valid endpoint with a clean host, and prints to something that
      parses to it again. */
  lemma ParseStrParse(text: string)
    requires Parse(text).Ok?
    ensures var e := Parse(text).value; Valid(e) && Clean(e.host) && Parse(Str(e)) == Ok(e)
  {
    hide Halves, Str, Find, Digits, FirstForbidden;
    var (host, port) := Halves(text).value;
    CleanExactly(host);
    DigitsExactly(port);
    MakesExactlyValid(host, Value(port));
    RoundTripExactly(Parse(text).value);
  }

  /** No two endpoints print alike, clean hosts or not. */
  lemma StrInjective(a: Endpoint, b: Endpoint)
    requires Valid(a) && Valid(b) && Str(a) == Str(b)
    ensures a == b
  {
    hide Halves, Joined, Print, Find;
    CutIs(a.host, ':');
    CutIs(b.host, ':');
    HalvesOfJoined(a.host, Print(a.port));
    HalvesOfJoined(b.host, Print(b.port));
    PrintThenRead(a.port);
    PrintThenRead(b.port);
  }

  predicate Canonical(port: string) {
    port != "" && (|port| == 1 || port[0] != '0')
  }

  lemma {:induction false} PrintIsCanonical(n: nat)
    ensures Canonical(Print(n)) && (n > 0 ==> Print(n)[0] != '0')
  {
    if n >= 10 {
      PrintIsCanonical(n / 10);
    }
  }

  lemma {:induction false} ReadThenPrint(port: string)
    requires AllDigits(port) && Canonical(port)
    ensures Print(Value(port)) == port
  {
    var front, c := port[..|port| - 1], port[|port| - 1];
    if front != "" {
      ReadThenPrint(front);
      NotZero(front);
      assert Value(port) == Value(front) * 10 + DigitValue(c);
      assert Value(port) / 10 == Value(front) && Value(port) % 10 == DigitValue(c);
      assert port == front + [c];
    } else {
      assert port == [c] && Value("") == 0;
    }
  }

  lemma {:induction false} NotZero(text: string)
    requires AllDigits(text) && text != "" && text[0] != '0'
    ensures Value(text) > 0
  {
    var front := text[..|text| - 1];
    if front != "" {
      NotZero(front);
    }
  }

  /** The text a user typed is the text printed back exactly when its port has no leading zero. */
  lemma PrintedAsTypedExactly(text: string)
    requires Parse(text).Ok?
    ensures Str(Parse(text).value) == text <==> Canonical(Halves(text).value.1)
  {
    hide Halves, Joined, Print, Make, Find, Digits, FirstForbidden;
    var (host, port) := Halves(text).value;
    var e := Parse(text).value;
    DigitsExactly(port);
    MakesExactlyValid(host, Value(port));
    CutIs(host, ':');
    SplitJoins(text);
    if Canonical(port) {
      ReadThenPrint(port);
    }
    PrintIsCanonical(e.port);
    if Str(e) == text {
      SameTail(host, Holds(host, ':'), Print(e.port), port);
    }
  }

  /** The input that fails: a port with a leading zero is accepted and printed without it. */
  lemma LeadingZeroIsLost()
    ensures Parse("h:080") == Ok(Endpoint("h", 80)) && Str(Endpoint("h", 80)) != "h:080"
  {
    hide Halves, Print, Find, Digits, FirstForbidden;
    assert Joined("h", false, "080") == "h:080" && !Holds("h", ':');
    HalvesOfJoined("h", "080");
    CleanExactly("h");
    DigitsExactly("080");
    ValueOfEighty();
    MakesExactlyValid("h", 80);
    PrintedAsTypedExactly("h:080");
  }

  lemma ValueOfEighty()
    ensures AllDigits("080") && Value("080") == 80
  {
    assert "080"[..2] == "08" && "080"[..2][..1] == "0" && "080"[..2][..1][..0] == "";
  }

  lemma SameTail(host: string, bracketed: bool, a: string, b: string)
    requires Joined(host, bracketed, a) == Joined(host, bracketed, b)
    ensures a == b
  {
    var n := if bracketed then |host| + 3 else |host| + 1;
    assert Joined(host, bracketed, a)[n..] == a && Joined(host, bracketed, b)[n..] == b;
  }
}
