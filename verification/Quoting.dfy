/** `quoted` of src/stats/csv.cpp, against a reader that follows section 2 of RFC 4180. */
module Quoting {
  import opened Wrappers

  // ----- Writing -----

  predicate Special(c: char) {
    c == ',' || c == '"' || c == '\r' || c == '\n'
  }

  predicate Needs(value: string) {
    exists i :: 0 <= i < |value| && Special(value[i])
  }

  function Doubled(value: string): string {
    if value == "" then ""
    else (if value[0] == '"' then "\"\"" else [value[0]]) + Doubled(value[1..])
  }

  function Quoted(value: string): string {
    if Needs(value) then "\"" + Doubled(value) + "\"" else value
  }

  lemma {:induction false} DoubledSnoc(value: string, c: char)
    ensures Doubled(value + [c]) == Doubled(value) + if c == '"' then "\"\"" else [c]
  {
    if value == "" {
      assert [c][1..] == "";
    } else {
      assert (value + [c])[1..] == value[1..] + [c];
      DoubledSnoc(value[1..], c);
    }
  }

  method Quote(value: string) returns (out: string)
    ensures out == Quoted(value)
  {
    var needs := false;
    for i := 0 to |value|
      invariant needs <==> exists j :: 0 <= j < i && Special(value[j])
    {
      if Special(value[i]) {
        needs := true;
      }
    }
    if !needs {
      return value;
    }
    out := "\"";
    for i := 0 to |value|
      invariant out == "\"" + Doubled(value[..i])
    {
      var c := value[i];
      assert value[..i + 1] == value[..i] + [c];
      DoubledSnoc(value[..i], c);
      if c == '"' {
        out := out + "\"\"";
      } else {
        out := out + [c];
      }
    }
    assert value[..|value|] == value;
    out := out + "\"";
  }

  /** Only what needs quotes gets them: a number, or any text without the four special characters, is
      written as it stands. */
  lemma UnquotedExactly(value: string)
    ensures Quoted(value) == value
            <==> forall i :: 0 <= i < |value| ==>
                   value[i] != ',' && value[i] != '"' && value[i] != '\r' && value[i] != '\n'
  {
    DoubledIsLonger(value);
  }

  lemma {:induction false} DoubledIsLonger(value: string)
    ensures |Doubled(value)| >= |value|
  {
    if value != "" {
      DoubledIsLonger(value[1..]);
    }
  }

  /** One record without its line break: quoted fields joined with commas. */
  function Written(fields: seq<string>): string {
    if fields == [] then ""
    else if |fields| == 1 then Quoted(fields[0])
    else Quoted(fields[0]) + "," + Written(fields[1..])
  }

  function WrittenFile(records: seq<seq<string>>): string {
    if records == [] then "" else Written(records[0]) + "\n" + WrittenFile(records[1..])
  }

  // ----- Reading -----

  datatype Piece<T> = Piece(value: T, rest: string)

  /** Inside quotes: everything up to a quote that is not doubled. */
  function ReadQuoted(text: string): (piece: Option<Piece<string>>)
    ensures piece.Some? ==> |piece.value.rest| < |text|
  {
    if text == "" then None
    else if text[0] != '"' then
      match ReadQuoted(text[1..])
      case None => None
      case Some(p) => Some(Piece([text[0]] + p.value, p.rest))
    else if |text| > 1 && text[1] == '"' then
      match ReadQuoted(text[2..])
      case None => None
      case Some(p) => Some(Piece("\"" + p.value, p.rest))
    else Some(Piece("", text[1..]))
  }

  /** Outside quotes: everything up to a comma or a line break; a quote cannot stand here. */
  function ReadBare(text: string): (piece: Option<Piece<string>>)
    ensures piece.Some? ==> |piece.value.rest| <= |text|
  {
    if text == "" || text[0] == ',' || text[0] == '\r' || text[0] == '\n' then Some(Piece("", text))
    else if text[0] == '"' then None
    else
      match ReadBare(text[1..])
      case None => None
      case Some(p) => Some(Piece([text[0]] + p.value, p.rest))
  }

  function ReadField(text: string): (piece: Option<Piece<string>>)
    ensures piece.Some? ==> |piece.value.rest| <= |text|
  {
    if text != "" && text[0] == '"' then ReadQuoted(text[1..]) else ReadBare(text)
  }

  /** A record runs to a line break or to the end of the text. */
  function ReadRecord(text: string): (piece: Option<Piece<seq<string>>>)
    ensures piece.Some? && text != "" ==> |piece.value.rest| < |text|
    decreases |text|
  {
    match ReadField(text)
    case None => None
    case Some(field) =>
      if field.rest == "" then Some(Piece([field.value], ""))
      else if field.rest[0] == ',' then
        match ReadRecord(field.rest[1..])
        case None => None
        case Some(more) => Some(Piece([field.value] + more.value, more.rest))
      else if field.rest[0] == '\n' then Some(Piece([field.value], field.rest[1..]))
      else if |field.rest| > 1 && field.rest[..2] == "\r\n" then Some(Piece([field.value], field.rest[2..]))
      else None
  }

  function ReadFile(text: string): Option<seq<seq<string>>>
    decreases |text|
  {
    if text == "" then Some([])
    else
      match ReadRecord(text)
      case None => None
      case Some(record) =>
        match ReadFile(record.rest)
        case None => None
        case Some(more) => Some([record.value] + more)
  }

  // ----- Round trip -----

  lemma {:induction false} QuotedReadsBack(value: string, rest: string)
    requires rest == "" || rest[0] != '"'
    ensures ReadQuoted(Doubled(value) + "\"" + rest) == Some(Piece(value, rest))
  {
    hide ReadQuoted;
    var text := Doubled(value) + "\"" + rest;
    if value == "" {
      assert text == "\"" + rest;
      QuoteCloses(rest);
    } else {
      var tail := Doubled(value[1..]) + "\"" + rest;
      QuotedReadsBack(value[1..], rest);
      assert value == [value[0]] + value[1..];
      if value[0] == '"' {
        assert text == "\"\"" + tail;
        QuoteDoubles(tail);
      } else {
        assert text == [value[0]] + tail;
        QuoteGoesOn(value[0], tail);
      }
    }
  }

  lemma QuoteCloses(rest: string)
    requires rest == "" || rest[0] != '"'
    ensures ReadQuoted("\"" + rest) == Some(Piece("", rest))
  {
    assert ("\"" + rest)[1..] == rest;
  }

  lemma QuoteDoubles(tail: string)
    ensures ReadQuoted("\"\"" + tail)
            == match ReadQuoted(tail) case None => None case Some(p) => Some(Piece("\"" + p.value, p.rest))
  {
    assert ("\"\"" + tail)[2..] == tail;
  }

  lemma QuoteGoesOn(c: char, tail: string)
    requires c != '"'
    ensures ReadQuoted([c] + tail)
            == match ReadQuoted(tail) case None => None case Some(p) => Some(Piece([c] + p.value, p.rest))
  {
    assert ([c] + tail)[1..] == tail;
  }

  lemma {:induction false} BareReadsBack(value: string, rest: string)
    requires !Needs(value)
    requires rest == "" || rest[0] == ',' || rest[0] == '\r' || rest[0] == '\n'
    ensures ReadBare(value + rest) == Some(Piece(value, rest))
  {
    if value == "" {
      assert value + rest == rest;
    } else {
      assert !Special(value[0]);
      assert forall i :: 0 <= i < |value[1..]| ==> value[1..][i] == value[i + 1];
      BareReadsBack(value[1..], rest);
      assert (value + rest)[1..] == value[1..] + rest && value == [value[0]] + value[1..];
    }
  }

  lemma FieldReadsBack(value: string, rest: string)
    requires rest == "" || rest[0] == ',' || rest[0] == '\r' || rest[0] == '\n'
    ensures ReadField(Quoted(value) + rest) == Some(Piece(value, rest))
  {
    hide Doubled, ReadQuoted, ReadBare, Needs;
    if Needs(value) {
      QuotedReadsBack(value, rest);
      StartsQuoted(Doubled(value), rest);
    } else {
      BareReadsBack(value, rest);
      BareStart(value, rest);
    }
  }

  lemma StartsQuoted(inside: string, rest: string)
    ensures var text := ("\"" + inside + "\"") + rest;
            text != "" && text[0] == '"' && text[1..] == inside + "\"" + rest
  {
  }

  lemma BareStart(value: string, rest: string)
    requires !Needs(value) && (rest == "" || rest[0] != '"')
    ensures value + rest == "" || (value + rest)[0] != '"'
  {
    assert value != "" ==> (value + rest)[0] == value[0] && !Special(value[0]);
  }

  /** One field and then a comma: the record goes on. */
  lemma CommaContinues(value: string, tail: string)
    ensures ReadRecord(Quoted(value) + "," + tail)
            == match ReadRecord(tail)
               case None => None
               case Some(more) => Some(Piece([value] + more.value, more.rest))
  {
    hide ReadField, Quoted;
    var rest := "," + tail;
    assert Quoted(value) + "," + tail == Quoted(value) + rest;
    FieldReadsBack(value, rest);
    assert rest[0] == ',' && rest[1..] == tail;
  }

  lemma NewlineEnds(value: string, more: string)
    ensures ReadRecord(Quoted(value) + "\n" + more) == Some(Piece([value], more))
  {
    hide ReadField, Quoted;
    var rest := "\n" + more;
    assert Quoted(value) + "\n" + more == Quoted(value) + rest;
    FieldReadsBack(value, rest);
    assert rest[0] == '\n' && rest[1..] == more;
  }

  lemma {:induction false} RecordReadsBack(fields: seq<string>, more: string)
    requires fields != []
    ensures ReadRecord(Written(fields) + "\n" + more) == Some(Piece(fields, more))
  {
    hide ReadRecord, Quoted;
    if |fields| == 1 {
      assert fields == [fields[0]];
      NewlineEnds(fields[0], more);
    } else {
      var tail := Written(fields[1..]) + "\n" + more;
      assert Written(fields) + "\n" + more == Quoted(fields[0]) + "," + tail;
      CommaContinues(fields[0], tail);
      RecordReadsBack(fields[1..], more);
      assert fields == [fields[0]] + fields[1..];
    }
  }

  lemma TextEnds(value: string)
    ensures ReadRecord(Quoted(value)) == Some(Piece([value], ""))
  {
    hide ReadField, Quoted;
    assert Quoted(value) + "" == Quoted(value);
    FieldReadsBack(value, "");
  }

  lemma {:induction false} LastRecordReadsBack(fields: seq<string>)
    requires fields != []
    ensures ReadRecord(Written(fields)) == Some(Piece(fields, ""))
  {
    hide ReadRecord, Quoted;
    if |fields| == 1 {
      assert fields == [fields[0]];
      TextEnds(fields[0]);
    } else {
      CommaContinues(fields[0], Written(fields[1..]));
      LastRecordReadsBack(fields[1..]);
      assert fields == [fields[0]] + fields[1..];
    }
  }

  /** A record of any strings whatever reads back as written, except the record of no fields, which
      cannot be told from a record of one empty field. */
  lemma RoundTripExactly(fields: seq<string>)
    ensures ReadRecord(Written(fields)) == Some(Piece(fields, "")) <==> fields != []
    ensures ReadRecord(Written([])) == Some(Piece([""], ""))
  {
    if fields != [] {
      LastRecordReadsBack(fields);
    }
    LastRecordReadsBack([""]);
    assert Quoted("") == "";
    assert Written([""]) == "";
  }

  /** So does a whole file: commas, quotes and line breaks inside a field never move a boundary. */
  lemma {:induction false} FileReadsBack(records: seq<seq<string>>)
    requires forall i :: 0 <= i < |records| ==> records[i] != []
    ensures ReadFile(WrittenFile(records)) == Some(records)
  {
    hide Written, ReadRecord;
    if records != [] {
      RecordReadsBack(records[0], WrittenFile(records[1..]));
      FileReadsBack(records[1..]);
      assert records == [records[0]] + records[1..];
    }
  }
}
