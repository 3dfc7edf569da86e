/** src/fault/knobs.cpp: the injected faults, the gates that make checking them nearly free, and the
    command language that turns them on and off. */
module Knobs {
  import opened Wrappers
  import opened Text

  // ----- Words -----

  /** The pieces between separators, empty ones left out. */
  function Words(text: string, separator: char): seq<string>
    decreases |text|
  {
    match Cut(text, separator)
    case None => if text == "" then [] else [text]
    case Some(i) => (if i == 0 then [] else [text[..i]]) + Words(text[i + 1..], separator)
  }

  /** A separator ends a word wherever it stands; with one word per separator-free text, this says
      everything about how a line is read. */
  lemma {:induction false} SeparatorSplits(a: string, separator: char, b: string)
    ensures Words(a + [separator] + b, separator) == Words(a, separator) + Words(b, separator)
    decreases |a|
  {
    hide Cut;
    var text := a + [separator] + b;
    CutIs(a, separator);
    match Cut(a, separator)
    case None =>
      assert text[..|a|] == a && text[|a| + 1..] == b;
      CutAt(text, separator, |a|);
    case Some(i) =>
      assert text[..i] == a[..i] && text[i + 1..] == a[i + 1..] + [separator] + b;
      CutAt(text, separator, i);
      SeparatorSplits(a[i + 1..], separator, b);
  }

  lemma OneWord(text: string, separator: char)
    requires !Holds(text, separator)
    ensures Words(text, separator) == if text == "" then [] else [text]
  {
    CutIs(text, separator);
  }

  method SplitOn(text: string, separator: char) returns (parts: seq<string>)
    ensures parts == Words(text, separator)
  {
    hide Words, Cut;
    parts := [];
    var current := "";
    assert current + text[0..] == text && parts + Words(text, separator) == Words(text, separator);
    for i := 0 to |text|
      invariant Words(text, separator) == parts + Words(current + text[i..], separator)
      invariant !Holds(current, separator)
    {
      var c := text[i];
      ghost var rest := text[i + 1..];
      if c == separator {
        assert current + text[i..] == current + [separator] + rest;
        SeparatorSplits(current, separator, rest);
        OneWord(current, separator);
        if current != "" {
          parts := parts + [current];
        }
        current := "";
        assert "" + rest == rest;
      } else {
        assert current + text[i..] == (current + [c]) + rest;
        current := current + [c];
      }
    }
    assert current + text[|text|..] == current;
    OneWord(current, separator);
    if current != "" {
      parts := parts + [current];
    }
  }

  // ----- Unordered pairs, stored ordered -----

  predicate Less(a: string, b: string) {
    if b == "" then false
    else if a == "" then true
    else a[0] < b[0] || (a[0] == b[0] && Less(a[1..], b[1..]))
  }

  lemma {:induction false} OneWayOnly(a: string, b: string)
    ensures a == b ==> !Less(a, b)
    ensures a != b ==> (Less(a, b) <==> !Less(b, a))
  {
    if a != "" && b != "" {
      OneWayOnly(a[1..], b[1..]);
      assert a == [a[0]] + a[1..] && b == [b[0]] + b[1..];
    }
  }

  function Ordered(a: string, b: string): (string, string) {
    if Less(b, a) then (b, a) else (a, b)
  }

  /** Two cuts are stored alike exactly when they are between the same two nodes, either way round. */
  lemma StoredAlike(a: string, b: string, c: string, d: string)
    ensures Ordered(a, b) == Ordered(c, d) <==> {a, b} == {c, d}
  {
    hide Less;
    OneWayOnly(a, b);
    OneWayOnly(c, d);
    if {a, b} == {c, d} {
      assert a in {c, d} && b in {c, d} && c in {a, b} && d in {a, b};
    }
    assert Ordered(a, b) == (a, b) || Ordered(a, b) == (b, a);
    assert Ordered(c, d) == (c, d) || Ordered(c, d) == (d, c);
  }

  ghost predicate AllOrdered(pairs: set<(string, string)>) {
    forall p :: p in pairs ==> p == Ordered(p.0, p.1)
  }

  /** The unordered pairs that stored pairs stand for. */
  ghost function CutsOf(pairs: set<(string, string)>): set<set<string>> {
    set p | p in pairs :: {p.0, p.1}
  }

  lemma OrderedTwice(a: string, b: string)
    ensures var p := Ordered(a, b); Ordered(p.0, p.1) == p && {p.0, p.1} == {a, b}
  {
    OneWayOnly(a, b);
  }

  /** Looking up the sorted pair is asking for the cut. */
  lemma FoundExactly(pairs: set<(string, string)>, a: string, b: string)
    requires AllOrdered(pairs)
    ensures Ordered(a, b) in pairs <==> {a, b} in CutsOf(pairs)
  {
    hide Ordered;
    OrderedTwice(a, b);
    if {a, b} in CutsOf(pairs) {
      var p :| p in pairs && {p.0, p.1} == {a, b};
      StoredAlike(p.0, p.1, a, b);
    }
  }

  lemma CutStored(pairs: set<(string, string)>, a: string, b: string)
    requires AllOrdered(pairs)
    ensures var more := pairs + {Ordered(a, b)};
            AllOrdered(more) && CutsOf(more) == CutsOf(pairs) + {{a, b}}
  {
    hide Ordered;
    OrderedTwice(a, b);
    var more := pairs + {Ordered(a, b)};
    forall cut ensures cut in CutsOf(more) <==> cut in CutsOf(pairs) + {{a, b}} {
      if cut == {a, b} {
        assert Ordered(a, b) in more;
      } else if cut in CutsOf(pairs) {
        var p :| p in pairs && {p.0, p.1} == cut;
        assert p in more;
      }
    }
  }

  lemma CutErased(pairs: set<(string, string)>, a: string, b: string)
    requires AllOrdered(pairs)
    ensures var fewer := pairs - {Ordered(a, b)};
            AllOrdered(fewer) && CutsOf(fewer) == CutsOf(pairs) - {{a, b}}
  {
    hide Ordered;
    OrderedTwice(a, b);
    var fewer := pairs - {Ordered(a, b)};
    forall cut ensures cut in CutsOf(fewer) <==> cut in CutsOf(pairs) - {{a, b}} {
      if cut in CutsOf(pairs) {
        var p :| p in pairs && {p.0, p.1} == cut;
        StoredAlike(p.0, p.1, a, b);
        assert cut != {a, b} ==> p in fewer;
      }
      if cut in CutsOf(fewer) {
        var p :| p in fewer && {p.0, p.1} == cut;
        StoredAlike(p.0, p.1, a, b);
      }
    }
  }

  lemma CutsWherePairs(pairs: set<(string, string)>)
    ensures pairs == {} <==> CutsOf(pairs) == {}
  {
    if p :| p in pairs {
      assert {p.0, p.1} in CutsOf(pairs);
    }
  }

  // ----- What the faults are, without gates -----

  /** `cuts` holds unordered pairs: a partition has no direction. */
  datatype Settings = Settings(latency: int, jitter: int, drop: int, hanging: bool,
                               identity: string, cuts: set<set<string>>)
  {
    predicate AnyFault() {
      latency != 0 || drop != 0 || hanging || cuts != {}
    }

    predicate Blocks(peer: string) {
      identity != "" && {identity, peer} in cuts
    }

    /** What every reachable setting satisfies. */
    ghost predicate Sane() {
      && 0 <= jitter <= latency
      && 0 <= drop <= 1_000_000
      && forall cut :: cut in cuts ==> exists a, b :: a != "" && b != "" && a != b && cut == {a, b}
    }
  }

  const NO_FAULTS: Settings := Settings(0, 0, 0, false, "", {})

  datatype Complaint =
    | EmptyCommand | Takes(verb: string, count: nat) | NotMillis(text: string) | NotNumber(text: string)
    | NegativeDelay | JitterAboveMean | NotProbability | NeedsTwoNames | SelfCut | Unknown(verb: string)

  datatype Reply = Done | FaultsActive | NoFaults | Refused(why: Complaint)

  /** Reading numbers is the standard library's business: some texts are numbers and some are not. */
  datatype Numbers = Numbers(millis: string -> Option<int>, probability: string -> Option<real>)

  const NANOS_PER_MILLI: int := 1_000_000

  function WithLatency(s: Settings, mean: int, jitter: int): (Settings, Reply) {
    if mean < 0 || jitter < 0 then (s, Refused(NegativeDelay))
    else if jitter > mean then (s, Refused(JitterAboveMean))
    else (s.(latency := mean * NANOS_PER_MILLI, jitter := jitter * NANOS_PER_MILLI), Done)
  }

  /** Parts per million, rounded half up. */
  function PartsPerMillion(probability: real): int {
    (probability * 1000000.0 + 0.5).Floor
  }

  function WithDrop(s: Settings, probability: real): (Settings, Reply) {
    if 0.0 <= probability <= 1.0 then (s.(drop := PartsPerMillion(probability)), Done)
    else (s, Refused(NotProbability))
  }

  function WithCut(s: Settings, a: string, b: string): (Settings, Reply) {
    if a == "" || b == "" then (s, Refused(NeedsTwoNames))
    else if a == b then (s, Refused(SelfCut))
    else (s.(cuts := s.cuts + {{a, b}}), Done)
  }

  function Healed(s: Settings, a: string, b: string): Settings {
    s.(cuts := s.cuts - {{a, b}})
  }

  function Cleared(s: Settings): Settings {
    NO_FAULTS.(identity := s.identity)
  }

  /** How many arguments a verb takes. */
  function Arity(verb: string): Option<nat> {
    if verb == "clear" || verb == "status" then Some(0)
    else if verb == "drop" || verb == "hang" || verb == "identity" then Some(1)
    else if verb == "latency" || verb == "partition" || verb == "heal" then Some(2)
    else None
  }

  /** One command line, by its words. */
  function Obey(numbers: Numbers, s: Settings, words: seq<string>): (Settings, Reply) {
    if words == [] then (s, Refused(EmptyCommand))
    else
      var verb := words[0];
      match Arity(verb)
      case None => (s, Refused(Unknown(verb)))
      case Some(count) =>
        if |words| != count + 1 then (s, Refused(Takes(verb, count)))
        else if verb == "latency" then
          match (numbers.millis(words[1]), numbers.millis(words[2]))
          case (Some(mean), Some(jitter)) => WithLatency(s, mean, jitter)
          case (None, _) => (s, Refused(NotMillis(words[1])))
          case (_, None) => (s, Refused(NotMillis(words[2])))
        else if verb == "drop" then
          match numbers.probability(words[1])
          case Some(probability) => WithDrop(s, probability)
          case None => (s, Refused(NotNumber(words[1])))
        else if verb == "hang" then (s.(hanging := words[1] == "1" || words[1] == "true"), Done)
        else if verb == "identity" then (s.(identity := words[1]), Done)
        else if verb == "partition" then WithCut(s, words[1], words[2])
        else if verb == "heal" then (Healed(s, words[1], words[2]), Done)
        else if verb == "clear" then (Cleared(s), Done)
        else (s, if s.AnyFault() then FaultsActive else NoFaults)
  }

  function Execute(numbers: Numbers, s: Settings, line: string): (Settings, Reply) {
    Obey(numbers, s, Words(line, ' '))
  }

  // ----- What each command does -----

  /** A line is its words, however many separators stand between them. */
  lemma TwoArguments(verb: string, a: string, b: string)
    requires verb != "" && a != "" && b != "" && !Holds(verb, ' ') && !Holds(a, ' ') && !Holds(b, ' ')
    ensures Words(verb, ' ') == [verb] && Words(verb + [' '] + a, ' ') == [verb, a]
    ensures Words(verb + [' '] + (a + [' '] + b), ' ') == [verb, a, b]
  {
    hide Words;
    OneWord(verb, ' ');
    OneWord(a, ' ');
    OneWord(b, ' ');
    SeparatorSplits(verb, ' ', a);
    SeparatorSplits(a, ' ', b);
    SeparatorSplits(verb, ' ', a + [' '] + b);
  }

  lemma LatencyCommand(numbers: Numbers, s: Settings, a: string, b: string)
    ensures Obey(numbers, s, ["latency", a, b])
            == match (numbers.millis(a), numbers.millis(b))
               case (None, _) => (s, Refused(NotMillis(a)))
               case (_, None) => (s, Refused(NotMillis(b)))
               case (Some(mean), Some(jitter)) =>
                 if mean < 0 || jitter < 0 then (s, Refused(NegativeDelay))
                 else if jitter > mean then (s, Refused(JitterAboveMean))
                 else (s.(latency := 1_000_000 * mean, jitter := 1_000_000 * jitter), Done)
  {
  }

  lemma DropCommand(numbers: Numbers, s: Settings, a: string)
    ensures var (after, reply) := Obey(numbers, s, ["drop", a]);
            match numbers.probability(a)
            case None => after == s && reply == Refused(NotNumber(a))
            case Some(p) =>
              if 0.0 <= p <= 1.0
              then reply == Done && after == s.(drop := after.drop)
                   && -0.5 < after.drop as real - p * 1000000.0 <= 0.5
              else after == s && reply == Refused(NotProbability)
  {
    hide PartsPerMillion;
    if numbers.probability(a).Some? && 0.0 <= numbers.probability(a).value <= 1.0 {
      DropInRange(numbers.probability(a).value);
    }
  }

  lemma CutCommands(numbers: Numbers, s: Settings, a: string, b: string)
    requires a != "" && b != ""
    ensures Obey(numbers, s, ["partition", a, b])
            == if a == b then (s, Refused(SelfCut)) else (s.(cuts := s.cuts + {{a, b}}), Done)
    ensures Obey(numbers, s, ["heal", a, b]) == (s.(cuts := s.cuts - {{a, b}}), Done)
  {
  }

  lemma OtherCommands(numbers: Numbers, s: Settings, a: string)
    ensures Obey(numbers, s, ["hang", a]) == (s.(hanging := a == "1" || a == "true"), Done)
    ensures Obey(numbers, s, ["identity", a]) == (s.(identity := a), Done)
    ensures Obey(numbers, s, ["clear"]) == (Settings(0, 0, 0, false, s.identity, {}), Done)
    ensures Obey(numbers, s, ["status"]).0 == s
  {
  }

  /** Status says there are no faults exactly when the settings are those of a fresh node. */
  lemma StatusCommand(numbers: Numbers, s: Settings)
    requires s.Sane()
    ensures Obey(numbers, s, ["status"]).1
            == if s == Settings(0, 0, 0, false, s.identity, {}) then NoFaults else FaultsActive
  {
  }

  /** Any other shape of line is refused, and told why. */
  lemma OtherLines(numbers: Numbers, s: Settings, words: seq<string>)
    ensures words == [] ==> Obey(numbers, s, words) == (s, Refused(EmptyCommand))
    ensures words != [] && words[0] in ["clear", "status"] && |words| != 1 ==>
              Obey(numbers, s, words) == (s, Refused(Takes(words[0], 0)))
    ensures words != [] && words[0] in ["drop", "hang", "identity"] && |words| != 2 ==>
              Obey(numbers, s, words) == (s, Refused(Takes(words[0], 1)))
    ensures words != [] && words[0] in ["latency", "partition", "heal"] && |words| != 3 ==>
              Obey(numbers, s, words) == (s, Refused(Takes(words[0], 2)))
    ensures words != [] && words[0] !in ["clear", "status", "drop", "hang", "identity", "latency", "partition",
                                         "heal"] ==>
              Obey(numbers, s, words) == (s, Refused(Unknown(words[0])))
  {
  }

  /** An error reply means nothing changed. */
  lemma RefusalChangesNothing(numbers: Numbers, s: Settings, line: string)
    requires Execute(numbers, s, line).1.Refused?
    ensures Execute(numbers, s, line).0 == s
  {
    hide Words, PartsPerMillion;
  }

  function Settled(numbers: Numbers, s: Settings, lines: seq<string>): Settings {
    if lines == [] then s
    else Execute(numbers, Settled(numbers, s, lines[..|lines| - 1]), lines[|lines| - 1]).0
  }

  lemma DropInRange(probability: real)
    requires 0.0 <= probability <= 1.0
    ensures 0 <= PartsPerMillion(probability) <= 1_000_000
    ensures PartsPerMillion(probability) == 0 <==> probability < 0.0000005
    ensures -0.5 < PartsPerMillion(probability) as real - probability * 1000000.0 <= 0.5
  {
    var ppm := probability * 1000000.0 + 0.5;
    assert 0.0 <= ppm < 1000001.0;
  }

  lemma SettersKeepSane(s: Settings, mean: int, jitter: int, probability: real, hanging: bool, a: string, b: string)
    requires s.Sane()
    ensures WithLatency(s, mean, jitter).0.Sane() && WithDrop(s, probability).0.Sane()
    ensures s.(hanging := hanging).Sane() && s.(identity := a).Sane()
    ensures WithCut(s, a, b).0.Sane() && Healed(s, a, b).Sane() && Cleared(s).Sane()
  {
    hide PartsPerMillion;
    if 0.0 <= probability <= 1.0 {
      DropInRange(probability);
    }
  }

  lemma CommandKeepsSane(numbers: Numbers, s: Settings, line: string)
    requires s.Sane()
    ensures Execute(numbers, s, line).0.Sane()
  {
    hide Settings.Sane, Words, WithLatency, WithDrop, WithCut, Healed, Cleared;
    var words := Words(line, ' ');
    var a, b := if |words| > 1 then words[1] else "", if |words| > 2 then words[2] else "";
    var mean := match numbers.millis(a) case Some(n) => n case None => 0;
    var jitter := match numbers.millis(b) case Some(n) => n case None => 0;
    var probability := match numbers.probability(a) case Some(p) => p case None => 0.0;
    SettersKeepSane(s, mean, jitter, probability, a == "1" || a == "true", a, b);
  }

  /** Whatever was sent, in whatever order, the settings stay sane. */
  lemma {:induction false} SettingsStaySane(numbers: Numbers, s: Settings, lines: seq<string>)
    requires s.Sane()
    ensures Settled(numbers, s, lines).Sane()
  {
    hide Settings.Sane, Execute;
    if lines != [] {
      SettingsStaySane(numbers, s, lines[..|lines| - 1]);
      CommandKeepsSane(numbers, Settled(numbers, s, lines[..|lines| - 1]), lines[|lines| - 1]);
    }
  }

  /** A partition blocks both of its nodes, a heal written either way round undoes it and touches no
      other cut, and clearing leaves no fault but remembers who the node is. */
  lemma PartitionThenHeal(s: Settings, a: string, b: string)
    requires a != "" && b != "" && a != b
    ensures var cut := WithCut(s, a, b).0;
            && cut.(identity := a).Blocks(b) && cut.(identity := b).Blocks(a)
            && Healed(cut, b, a) == Healed(s, a, b)
            && ({a, b} !in s.cuts ==> Healed(cut, b, a) == s)
            && (forall c, d :: {c, d} != {a, b} ==> (cut.(identity := c).Blocks(d) <==> s.(identity := c).Blocks(d)))
            && !Cleared(cut).AnyFault() && Cleared(cut).identity == s.identity
  {
    assert {a, b} == {b, a};
  }

  // ----- The knobs, with their gates -----

  class FaultKnobs {
    var any: bool
    var latency: int
    var jitter: int
    var drop: int
    var hanging: bool
    var identity: string
    var partitions: set<(string, string)>
    var anyPartition: bool

    ghost function View(): Settings
      reads this
    {
      Settings(latency, jitter, drop, hanging, identity, CutsOf(partitions))
    }

    /** The gates say what the knobs say. */
    ghost predicate Valid()
      reads this
    {
      && View().Sane() && AllOrdered(partitions)
      && anyPartition == (partitions != {})
      && any == View().AnyFault()
    }

    constructor ()
      ensures Valid() && View() == NO_FAULTS
    {
      any, latency, jitter, drop, hanging := false, 0, 0, 0, false;
      identity, partitions, anyPartition := "", {}, false;
    }

    method RefreshGate()
      requires View().Sane() && AllOrdered(partitions) && anyPartition == (partitions != {})
      modifies `any
      ensures Valid()
    {
      hide CutsOf, AllOrdered, Settings.Sane;
      CutsWherePairs(partitions);
      any := latency != 0 || drop != 0 || hanging || anyPartition;
    }

    method SetLatency(mean: int, jitterMean: int) returns (reply: Reply)
      requires Valid()
      modifies this
      ensures Valid() && (View(), reply) == WithLatency(old(View()), mean, jitterMean)
    {
      if mean < 0 || jitterMean < 0 {
        return Refused(NegativeDelay);
      }
      if jitterMean > mean {
        return Refused(JitterAboveMean);
      }
      latency := mean * NANOS_PER_MILLI;
      jitter := jitterMean * NANOS_PER_MILLI;
      RefreshGate();
      return Done;
    }

    method SetDropProbability(probability: real) returns (reply: Reply)
      requires Valid()
      modifies this
      ensures Valid() && (View(), reply) == WithDrop(old(View()), probability)
    {
      if !(probability >= 0.0 && probability <= 1.0) {
        return Refused(NotProbability);
      }
      DropInRange(probability);
      drop := PartsPerMillion(probability);
      RefreshGate();
      return Done;
    }

    method SetHangForever(on: bool)
      requires Valid()
      modifies this
      ensures Valid() && View() == old(View()).(hanging := on)
    {
      hanging := on;
      RefreshGate();
    }

    method SetIdentity(name: string)
      requires Valid()
      modifies this
      ensures Valid() && View() == old(View()).(identity := name)
    {
      identity := name;
    }

    method Partition(a: string, b: string) returns (reply: Reply)
      requires Valid()
      modifies this
      ensures Valid() && (View(), reply) == WithCut(old(View()), a, b)
    {
      if a == "" || b == "" {
        return Refused(NeedsTwoNames);
      }
      if a == b {
        return Refused(SelfCut);
      }
      hide CutsOf, AllOrdered, Settings.Sane, Ordered;
      SettersKeepSane(View(), 0, 0, 0.0, false, a, b);
      CutStored(partitions, a, b);
      partitions := partitions + {Ordered(a, b)};
      anyPartition := true;
      RefreshGate();
      return Done;
    }

    method Heal(a: string, b: string)
      requires Valid()
      modifies this
      ensures Valid() && View() == Healed(old(View()), a, b)
    {
      hide CutsOf, AllOrdered, Settings.Sane, Ordered;
      SettersKeepSane(View(), 0, 0, 0.0, false, a, b);
      CutErased(partitions, a, b);
      partitions := partitions - {Ordered(a, b)};
      anyPartition := partitions != {};
      RefreshGate();
    }

    method Clear()
      requires Valid()
      modifies this
      ensures Valid() && View() == Cleared(old(View()))
    {
      latency, jitter, drop, hanging := 0, 0, 0, false;
      partitions, anyPartition := {}, false;
      RefreshGate();
    }

    /** Two gates and a sorted pair, against the plain question: is there a cut between us? */
    method Blocked(peer: string) returns (blocked: bool)
      requires Valid()
      ensures blocked == View().Blocks(peer)
    {
      hide CutsOf, AllOrdered, Settings.Sane, Ordered;
      CutsWherePairs(partitions);
      FoundExactly(partitions, identity, peer);
      if !any || !anyPartition {
        return false;
      }
      if identity == "" {
        return false;
      }
      return Ordered(identity, peer) in partitions;
    }

    /** How long to hold a response back, for a jitter drawn from its range: never a negative time, so
        the configured mean is the mean. */
    method Delay(draw: int) returns (wait: int)
      requires Valid() && -jitter <= draw <= jitter
      ensures wait == View().latency + draw && wait >= 0
    {
      if !any {
        return 0;
      }
      wait := 0;
      if latency > 0 {
        wait := latency;
        if jitter > 0 {
          wait := wait + draw;
        }
      }
    }

    /** `draw` is uniform over a million values. */
    method ShouldDrop(draw: int) returns (dropped: bool)
      requires Valid() && 0 <= draw < 1_000_000
      ensures dropped <==> draw < View().drop
    {
      if !any {
        return false;
      }
      if drop <= 0 {
        return false;
      }
      return draw < drop;
    }

    method ApplyCommand(numbers: Numbers, line: string) returns (reply: Reply)
      requires Valid()
      modifies this
      ensures Valid() && (View(), reply) == Execute(numbers, old(View()), line)
    {
      hide Words, Valid, WithLatency, WithDrop, WithCut, Healed, Cleared;
      var words := SplitOn(line, ' ');
      if words == [] {
        return Refused(EmptyCommand);
      }
      var verb := words[0];
      var arity := Arity(verb);
      if arity.None? {
        return Refused(Unknown(verb));
      }
      if |words| != arity.value + 1 {
        return Refused(Takes(verb, arity.value));
      }
      reply := Done;
      if verb == "latency" {
        var mean, spread := numbers.millis(words[1]), numbers.millis(words[2]);
        if mean.None? {
          return Refused(NotMillis(words[1]));
        }
        if spread.None? {
          return Refused(NotMillis(words[2]));
        }
        reply := SetLatency(mean.value, spread.value);
      } else if verb == "drop" {
        var probability := numbers.probability(words[1]);
        if probability.None? {
          return Refused(NotNumber(words[1]));
        }
        reply := SetDropProbability(probability.value);
      } else if verb == "hang" {
        SetHangForever(words[1] == "1" || words[1] == "true");
      } else if verb == "identity" {
        SetIdentity(words[1]);
      } else if verb == "partition" {
        reply := Partition(words[1], words[2]);
      } else if verb == "heal" {
        Heal(words[1], words[2]);
      } else if verb == "clear" {
        Clear();
      } else {
        reply := Status();
      }
    }

    method Status() returns (reply: Reply)
      requires Valid()
      ensures reply == if View().AnyFault() then FaultsActive else NoFaults
    {
      return if any then FaultsActive else NoFaults;
    }
  }
}
