/** A reader for the CSV text that generateCSV writes, following section 2
    of RFC 4180 (fields separated by commas, a field holding a comma, a
    quote or a line break enclosed in quotes, an inner quote written as two
    quotes) except that records are separated by a line feed alone, as
    generateCSV separates them. It is the partner of the writer: reading
    what generateCSV wrote gives back the header row and, per record, the
    text of every field. */
module CsvReader {
  import opened JsText
  import opened Utils

  /** Reads the rest of a quoted field, positioned just after its opening
      quote: a doubled quote stands for one quote and a lone quote closes
      the field. Gives the field's text and what follows the closing quote. */
  function ReadQuoted(s: string): (p: (string, string))
    ensures |p.1| <= |s|
    decreases |s|
  {
    if s == [] then ([], [])
    else if s[0] == '"' then
      if |s| >= 2 && s[1] == '"' then
        var p := ReadQuoted(s[2..]);
        ("\"" + p.0, p.1)
      else ([], s[1..])
    else
      var p := ReadQuoted(s[1..]);
      ([s[0]] + p.0, p.1)
  }

  /** Reads an unquoted field: everything up to the next comma or line feed. */
  function ReadPlain(s: string): (p: (string, string))
    ensures |p.1| <= |s|
    decreases |s|
  {
    if s == [] || s[0] == ',' || s[0] == '\n' then ([], s)
    else
      var p := ReadPlain(s[1..]);
      ([s[0]] + p.0, p.1)
  }

  /** Reads one field, quoted or not. */
  function ReadField(s: string): (p: (string, string))
    ensures |p.1| <= |s|
  {
    if s != [] && s[0] == '"' then ReadQuoted(s[1..]) else ReadPlain(s)
  }

  /** Reads the fields of one record, up to a line feed or the end. */
  function ReadRecord(s: string): (p: (seq<string>, string))
    ensures |p.1| <= |s|
    decreases |s|
  {
    var f := ReadField(s);
    if f.1 != [] && f.1[0] == ',' then
      var r := ReadRecord(f.1[1..]);
      ([f.0] + r.0, r.1)
    else ([f.0], f.1)
  }

  /** Reads every record of a text. */
  function ReadRecords(s: string): seq<seq<string>>
    decreases |s|
  {
    var r := ReadRecord(s);
    if r.1 != [] && r.1[0] == '\n' then [r.0] + ReadRecords(r.1[1..]) else [r.0]
  }

  /** One line of written fields. */
  function EncodeLine(fields: seq<string>): string {
    Join(seq(|fields|, i requires 0 <= i < |fields| => EscapeField(fields[i])), ",")
  }

  /** A character that may follow a field: a separator or nothing. */
  predicate FieldEnd(tail: string) {
    tail == [] || tail[0] == ',' || tail[0] == '\n'
  }

  lemma {:induction false} ReadQuotedDoubled(s: string, tail: string)
    requires tail == [] || tail[0] != '"'
    ensures ReadQuoted(DoubleQuotes(s) + "\"" + tail) == (s, tail)
  {
    var t := DoubleQuotes(s) + "\"" + tail;
    if s == [] {
      assert t == "\"" + tail;
      assert t[1..] == tail;
    } else {
      ReadQuotedDoubled(s[1..], tail);
      var u := DoubleQuotes(s[1..]) + "\"" + tail;
      if s[0] == '"' {
        assert t == "\"\"" + u;
        assert t[2..] == u;
      } else {
        assert t == [s[0]] + u;
        assert t[1..] == u;
      }
      assert s == [s[0]] + s[1..];
    }
  }

  lemma {:induction false} ReadPlainVerbatim(s: string, tail: string)
    requires ',' !in s && '\n' !in s
    requires FieldEnd(tail)
    ensures ReadPlain(s + tail) == (s, tail)
  {
    if s == [] {
      assert s + tail == tail;
    } else {
      ReadPlainVerbatim(s[1..], tail);
      assert (s + tail)[1..] == s[1..] + tail;
      assert s == [s[0]] + s[1..];
    }
  }

  /** Reading a written field gives back its text and stops at the following
      separator. */
  lemma ReadFieldEscaped(s: string, tail: string)
    requires FieldEnd(tail)
    ensures ReadField(EscapeField(s) + tail) == (s, tail)
  {
    if NeedsQuotes(s) {
      var u := DoubleQuotes(s) + "\"" + tail;
      assert EscapeField(s) + tail == "\"" + u;
      ReadQuotedDoubled(s, tail);
      ReadFieldQuoted(u);
    } else {
      assert EscapeField(s) == s;
      ReadPlainVerbatim(s, tail);
      assert s + tail == [] || (s + tail)[0] != '"' by {
        if s != [] {
          assert (s + tail)[0] == s[0];
        }
      }
      ReadFieldPlain(s + tail);
    }
  }

  lemma ReadFieldQuoted(u: string)
    ensures ReadField("\"" + u) == ReadQuoted(u)
  {
    assert ("\"" + u)[1..] == u;
  }

  lemma ReadFieldPlain(t: string)
    requires t == [] || t[0] != '"'
    ensures ReadField(t) == ReadPlain(t)
  {
  }

  /** A record whose first field is followed by a comma. */
  lemma ReadRecordCons(s: string, field: string, u: string)
    requires ReadField(s) == (field, "," + u)
    ensures ReadRecord(s) == ([field] + ReadRecord(u).0, ReadRecord(u).1)
  {
    assert ("," + u)[1..] == u;
  }

  /** A record followed by a line feed. */
  lemma ReadRecordsCons(s: string, fields: seq<string>, u: string)
    requires ReadRecord(s) == (fields, "\n" + u)
    ensures ReadRecords(s) == [fields] + ReadRecords(u)
  {
    assert ("\n" + u)[1..] == u;
  }

  lemma EncodeLineCons(fields: seq<string>)
    requires |fields| >= 2
    ensures EncodeLine(fields) == EscapeField(fields[0]) + "," + EncodeLine(fields[1..])
  {
    var escaped := seq(|fields|, i requires 0 <= i < |fields| => EscapeField(fields[i]));
    var rest := fields[1..];
    var escapedRest := seq(|rest|, i requires 0 <= i < |rest| => EscapeField(rest[i]));
    assert escaped == [escaped[0]] + escapedRest;
    JoinCons(escaped[0], escapedRest, ",");
  }

  /** Reading a written record gives back its fields. */
  lemma {:induction false} ReadRecordEncoded(fields: seq<string>, tail: string)
    requires |fields| >= 1
    requires tail == [] || tail[0] == '\n'
    ensures ReadRecord(EncodeLine(fields) + tail) == (fields, tail)
    decreases |fields|
  {
    var t := EncodeLine(fields) + tail;
    if |fields| == 1 {
      assert t == EscapeField(fields[0]) + tail by {
        assert EncodeLine(fields) == EscapeField(fields[0]);
      }
      ReadFieldEscaped(fields[0], tail);
      assert fields == [fields[0]];
    } else {
      var rest := fields[1..];
      var u := EncodeLine(rest) + tail;
      assert t == EscapeField(fields[0]) + ("," + u) by {
        EncodeLineCons(fields);
      }
      ReadFieldEscaped(fields[0], "," + u);
      ReadRecordEncoded(rest, tail);
      ReadRecordCons(t, fields[0], u);
      assert fields == [fields[0]] + rest;
    }
  }

  /** Lines of written records joined by line feeds. */
  function EncodeLines(records: seq<seq<string>>): string {
    Join(seq(|records|, i requires 0 <= i < |records| => EncodeLine(records[i])), "\n")
  }

  lemma EncodeLinesCons(records: seq<seq<string>>)
    requires |records| >= 2
    ensures EncodeLines(records) == EncodeLine(records[0]) + ("\n" + EncodeLines(records[1..]))
  {
    var rest := records[1..];
    var lines := seq(|records|, i requires 0 <= i < |records| => EncodeLine(records[i]));
    var restLines := seq(|rest|, i requires 0 <= i < |rest| => EncodeLine(rest[i]));
    assert lines == [lines[0]] + restLines;
    JoinCons(lines[0], restLines, "\n");
  }

  lemma EncodeLinesOne(records: seq<seq<string>>)
    requires |records| == 1
    ensures EncodeLines(records) == EncodeLine(records[0]) + []
  {
    var lines := seq(|records|, i requires 0 <= i < |records| => EncodeLine(records[i]));
    assert lines == [EncodeLine(records[0])];
  }

  /** Reading written records gives back every record. */
  lemma {:induction false} ReadRecordsEncoded(records: seq<seq<string>>)
    requires |records| >= 1
    requires forall i | 0 <= i < |records| :: |records[i]| >= 1
    ensures ReadRecords(EncodeLines(records)) == records
    decreases |records|
  {
    if |records| == 1 {
      EncodeLinesOne(records);
      ReadRecordEncoded(records[0], []);
    } else {
      var rest := records[1..];
      var u := EncodeLines(rest);
      EncodeLinesCons(records);
      ReadRecordEncoded(records[0], "\n" + u);
      ReadRecordsCons(EncodeLines(records), records[0], u);
      assert ReadRecords(u) == rest by {
        assert forall i | 0 <= i < |rest| :: rest[i] == records[i + 1];
        ReadRecordsEncoded(rest);
      }
      assert records == [records[0]] + rest;
    }
  }

  /** The texts of a record's fields, in header order. */
  function FieldTexts(row: Record, headers: seq<string>): seq<string> {
    seq(|headers|, j requires 0 <= j < |headers| => FieldText(row, headers[j]))
  }

  /** Round trip of generateCSV: with at least one header and headers that
      need no quoting (the header line is written unescaped), reading the
      output gives the headers and then, for each data record in order, the
      text of each of its fields in header order. */
  lemma GenerateCSVRoundTrip(data: seq<Record>, headers: seq<string>)
    requires |headers| >= 1
    requires forall j | 0 <= j < |headers| :: !NeedsQuotes(headers[j])
    ensures ReadRecords(GenerateCSV(data, headers))
      == [headers] + seq(|data|, i requires 0 <= i < |data| => FieldTexts(data[i], headers))
  {
    var records := [headers] + seq(|data|, i requires 0 <= i < |data| => FieldTexts(data[i], headers));
    var lines := [Join(headers, ",")] + seq(|data|, i requires 0 <= i < |data| => EncodeRecord(data[i], headers));
    assert EncodeLine(headers) == Join(headers, ",") by {
      assert seq(|headers|, i requires 0 <= i < |headers| => EscapeField(headers[i])) == headers;
    }
    forall i | 0 <= i < |data| ensures EncodeRecord(data[i], headers) == EncodeLine(FieldTexts(data[i], headers)) {
      var t := FieldTexts(data[i], headers);
      forall j | 0 <= j < |headers| ensures EncodeCell(data[i], headers[j]) == EscapeField(t[j]) {
        EncodeCellIsEscape(data[i], headers[j]);
      }
      assert seq(|headers|, j requires 0 <= j < |headers| => EncodeCell(data[i], headers[j]))
          == seq(|t|, j requires 0 <= j < |t| => EscapeField(t[j]));
    }
    assert lines == seq(|records|, i requires 0 <= i < |records| => EncodeLine(records[i]));
    ReadRecordsEncoded(records);
  }
}
