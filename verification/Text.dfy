/** Searching text and reading decimal numbers, as the parsers share them.  A byte is a character. */
module Text {
  import opened Wrappers

  // ----- Searching -----

  predicate At(text: string, pattern: string, i: nat) {
    i + |pattern| <= |text| && text[i..i + |pattern|] == pattern
  }

  /** The first occurrence at or after a position. */
  function Find(text: string, pattern: string, begin: nat): (found: Option<nat>)
    ensures found.Some? ==> begin <= found.value && At(text, pattern, found.value)
    ensures found.Some? ==> forall j :: begin <= j < found.value ==> !At(text, pattern, j)
    ensures found.None? ==> forall j :: begin <= j ==> !At(text, pattern, j)
    decreases |text| - begin
  {
    if begin + |pattern| > |text| then None
    else if At(text, pattern, begin) then Some(begin)
    else Find(text, pattern, begin + 1)
  }

  /** The ensures of Find determine it. */
  lemma FirstOccurrence(text: string, pattern: string, begin: nat, i: nat)
    requires begin <= i && At(text, pattern, i) && forall j :: begin <= j < i ==> !At(text, pattern, j)
    ensures Find(text, pattern, begin) == Some(i)
  {
  }

  /** One character out of place is enough for a pattern not to stand there. */
  lemma Differs(text: string, pattern: string, i: nat, k: nat)
    requires k < |pattern| && i + k < |text| && text[i + k] != pattern[k]
    ensures !At(text, pattern, i)
  {
    assert i + |pattern| <= |text| ==> text[i..i + |pattern|][k] == text[i + k];
  }

  /** Bytes that arrive later neither move nor hide the first occurrence, and a prefix too short to
      hold it holds none. */
  lemma FindInPrefix(text: string, pattern: string, n: nat)
    requires n <= |text|
    ensures Find(text[..n], pattern, 0)
            == match Find(text, pattern, 0)
               case Some(i) => if i + |pattern| <= n then Some(i) else None
               case None => None
  {
    hide Find;
    forall i: nat ensures At(text[..n], pattern, i) <==> At(text, pattern, i) && i + |pattern| <= n {
      if i + |pattern| <= n {
        assert text[..n][i..i + |pattern|] == text[i..i + |pattern|];
      }
    }
    var found := Find(text, pattern, 0);
    if found.Some? && found.value + |pattern| <= n {
      FirstOccurrence(text[..n], pattern, 0, found.value);
    }
  }

  predicate Holds(text: string, c: char) {
    exists i :: 0 <= i < |text| && text[i] == c
  }

  /** Where a character first stands. */
  function Cut(text: string, separator: char): Option<nat> {
    Find(text, [separator], 0)
  }

  lemma CutAt(text: string, separator: char, i: nat)
    requires i < |text| && text[i] == separator && !Holds(text[..i], separator)
    ensures Cut(text, separator) == Some(i)
  {
    assert text[i..i + 1] == [separator];
    forall j | 0 <= j < i ensures !At(text, [separator], j) {
      assert text[..i][j] == text[j];
      Differs(text, [separator], j, 0);
    }
    FirstOccurrence(text, [separator], 0, i);
  }

  lemma CutIs(text: string, separator: char)
    ensures Cut(text, separator).None? <==> !Holds(text, separator)
    ensures var cut := Cut(text, separator);
            cut.Some? ==> cut.value < |text| && text[cut.value] == separator && !Holds(text[..cut.value], separator)
  {
    var cut := Cut(text, separator);
    if cut.Some? {
      var i := cut.value;
      assert text[i..i + 1][0] == separator;
      forall j | 0 <= j < i ensures text[..i][j] != separator {
        assert !At(text, [separator], j);
        assert text[j..j + 1] == [text[j]];
      }
    } else {
      forall j | 0 <= j < |text| ensures text[j] != separator {
        assert !At(text, [separator], j);
        assert text[j..j + 1] == [text[j]];
      }
    }
  }

  // ----- Decimal numbers -----

  predicate Digit(c: char) {
    '0' <= c <= '9'
  }

  predicate AllDigits(text: string) {
    forall i :: 0 <= i < |text| ==> Digit(text[i])
  }

  function DigitValue(c: char): nat
    requires Digit(c)
  {
    c as nat - '0' as nat
  }

  function Value(text: string): nat
    requires AllDigits(text)
  {
    if text == "" then 0 else Value(text[..|text| - 1]) * 10 + DigitValue(text[|text| - 1])
  }

  lemma ValueSnoc(text: string, c: char)
    requires AllDigits(text) && Digit(c)
    ensures AllDigits(text + [c]) && Value(text + [c]) == Value(text) * 10 + DigitValue(c)
  {
    assert (text + [c])[..|text|] == text;
  }

  /** More digits never make a smaller number, so a number too big by some digit stays too big. */
  lemma {:induction false} ValueGrows(text: string, n: nat)
    requires AllDigits(text) && n <= |text|
    ensures Value(text[..n]) <= Value(text)
    decreases |text|
  {
    if n == |text| {
      assert text[..n] == text;
    } else {
      var front := text[..|text| - 1];
      assert front[..n] == text[..n];
      ValueGrows(front, n);
    }
  }

  /** Printed without sign or leading zero. */
  function Print(n: nat): (text: string)
    ensures text != "" && AllDigits(text)
  {
    var last := [('0' as nat + n % 10) as char];
    if n < 10 then last else Print(n / 10) + last
  }

  lemma {:induction false} PrintThenRead(n: nat)
    ensures Value(Print(n)) == n
  {
    var last := ('0' as nat + n % 10) as char;
    if n >= 10 {
      PrintThenRead(n / 10);
      ValueSnoc(Print(n / 10), last);
    }
  }
}
