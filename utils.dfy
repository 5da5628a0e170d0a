/** src/lib/utils.ts: the role-weight table, the naive CSV reader used by
    candidate import and the CSV writer used by results export. */
module Utils {
  import opened Common
  import opened JsText

  // ---------------------------------------------------------------------
  // Role weights
  // ---------------------------------------------------------------------

  /** ROLE_WEIGHTS. */
  const RoleWeights: map<string, nat> := map["learner" := 1, "instructor" := 3]

  /** `ROLE_WEIGHTS[role] || 1` for an ordinary role string: instructors
      weigh 3, learners and every other role weigh 1. */
  function RoleWeight(role: string): (w: nat)
    ensures w == 1 || w == 3
    ensures w == 3 <==> role == "instructor"
  {
    if role in RoleWeights && RoleWeights[role] != 0 then RoleWeights[role] else 1
  }

  // ---------------------------------------------------------------------
  // parseCSV
  // ---------------------------------------------------------------------

  /** A parsed row: header name to cell text. */
  type CsvRow = map<string, string>

  /** `csvText.trim().split('\n')`. */
  function Lines(csvText: string): seq<string> {
    Split(Trim(csvText), '\n')
  }

  /** `line.split(',').map((h) => h.trim().toLowerCase())`. */
  function HeaderCells(line: string): seq<string> {
    var cells := Split(line, ',');
    seq(|cells|, i requires 0 <= i < |cells| => ToLower(Trim(cells[i])))
  }

  /** `line.split(',').map((v) => v.trim())`. */
  function ValueCells(line: string): seq<string> {
    var cells := Split(line, ',');
    seq(|cells|, i requires 0 <= i < |cells| => Trim(cells[i]))
  }

  /** A data line is kept when it has as many cells as there are headers. */
  predicate WellShaped(headers: seq<string>, line: string) {
    |ValueCells(line)| == |headers|
  }

  /** The one key a `{}` literal does not store on assignment: `row['__proto__'] = v`
      runs the inherited setter, which ignores a string value. */
  const ProtoKey: string := "__proto__"

  /** The record `headers.forEach((header, index) => row[header] = values[index])`
      builds: assignments in header order, so a repeated header keeps the
      value at its last position, and a `__proto__` header adds no key. */
  function RowOf(headers: seq<string>, values: seq<string>): CsvRow
    requires |headers| == |values|
    decreases |headers|
  {
    if headers == [] then map[]
    else
      var row := RowOf(headers[..|headers| - 1], values[..|values| - 1]);
      var h := headers[|headers| - 1];
      if h == ProtoKey then row else row[h := values[|values| - 1]]
  }

  /** The rows the loop pushes for the given data lines, in order. */
  function KeptRows(headers: seq<string>, dataLines: seq<string>): seq<CsvRow>
    decreases |dataLines|
  {
    if dataLines == [] then []
    else
      var line := dataLines[|dataLines| - 1];
      KeptRows(headers, dataLines[..|dataLines| - 1])
        + (if WellShaped(headers, line) then [RowOf(headers, ValueCells(line))] else [])
  }

  /** What `parseCSV(csvText)` returns. */
  function ParsedRows(csvText: string): seq<CsvRow> {
    var lines := Lines(csvText);
    if |lines| < 2 then [] else KeptRows(HeaderCells(lines[0]), lines[1..])
  }

  /** parseCSV: fewer than two lines give no rows; otherwise one record per
      well-shaped data line, built by assigning each header its cell. */
  method ParseCSV(csvText: string) returns (rows: seq<CsvRow>)
    ensures rows == ParsedRows(csvText)
    ensures |Lines(csvText)| < 2 ==> rows == []
  {
    var lines := Split(Trim(csvText), '\n');
    if |lines| < 2 {
      return [];
    }
    var headers := HeaderCells(lines[0]);
    rows := [];
    for i := 1 to |lines|
      invariant rows == KeptRows(headers, lines[1..i])
    {
      var values := ValueCells(lines[i]);
      KeptRowsSnoc(headers, lines, i);
      if |values| == |headers| {
        var row := FillRow(headers, values);
        rows := rows + [row];
      }
    }
    assert lines[1..|lines|] == lines[1..];
  }

  /** One more data line: its record is pushed when it is well shaped. */
  lemma KeptRowsSnoc(headers: seq<string>, lines: seq<string>, i: nat)
    requires 1 <= i < |lines|
    ensures KeptRows(headers, lines[1..i + 1]) == KeptRows(headers, lines[1..i])
      + (if WellShaped(headers, lines[i]) then [RowOf(headers, ValueCells(lines[i]))] else [])
  {
    var seen := lines[1..i + 1];
    assert seen[..|seen| - 1] == lines[1..i] && seen[|seen| - 1] == lines[i];
  }

  /** The `headers.forEach` loop that fills one fresh record. */
  method FillRow(headers: seq<string>, values: seq<string>) returns (row: CsvRow)
    requires |headers| == |values|
    ensures row == RowOf(headers, values)
  {
    row := map[];
    for index := 0 to |headers|
      invariant row == RowOf(headers[..index], values[..index])
    {
      assert headers[..index + 1][..index] == headers[..index];
      assert values[..index + 1][..index] == values[..index];
      if headers[index] != ProtoKey {
        row := row[headers[index] := values[index]];
      }
    }
    assert headers[..|headers|] == headers && values[..|values|] == values;
  }

  /** A parsed record's keys are exactly the header names other than
      `__proto__`, and each such header maps to the cell at its last
      position among the headers (its own position when the headers are
      distinct). */
  lemma RowOfSpec(headers: seq<string>, values: seq<string>)
    requires |headers| == |values|
    ensures RowOf(headers, values).Keys == Elems(headers) - {ProtoKey}
    ensures forall i | 0 <= i < |headers| && headers[i] != ProtoKey
        && (forall j | i < j < |headers| :: headers[j] != headers[i]) ::
      RowOf(headers, values)[headers[i]] == values[i]
  {
    RowOfKeys(headers, values);
    forall i | 0 <= i < |headers| && headers[i] != ProtoKey
        && (forall j | i < j < |headers| :: headers[j] != headers[i])
      ensures RowOf(headers, values)[headers[i]] == values[i]
    {
      RowOfLast(headers, values, i);
    }
  }

  lemma {:induction false} RowOfKeys(headers: seq<string>, values: seq<string>)
    requires |headers| == |values|
    ensures RowOf(headers, values).Keys == Elems(headers) - {ProtoKey}
    decreases |headers|
  {
    if headers != [] {
      var n := |headers| - 1;
      RowOfKeys(headers[..n], values[..n]);
      assert headers == headers[..n] + [headers[n]];
      assert Elems(headers) == Elems(headers[..n]) + {headers[n]};
    }
  }

  /** A header not repeated later holds the value at its position, unless
      it is `__proto__`, which is never a key. */
  lemma {:induction false} RowOfLast(headers: seq<string>, values: seq<string>, i: nat)
    requires |headers| == |values| && i < |headers|
    requires forall j | i < j < |headers| :: headers[j] != headers[i]
    ensures (headers[i] in RowOf(headers, values) && RowOf(headers, values)[headers[i]] == values[i])
      <==> headers[i] != ProtoKey
    decreases |headers|
  {
    RowOfKeys(headers, values);
    var n := |headers| - 1;
    if i < n {
      var h, v := headers[..n], values[..n];
      assert headers[n] != headers[i];
      forall j | i < j < |h| ensures h[j] != h[i] {
        assert h[j] == headers[j] && h[i] == headers[i];
      }
      RowOfLast(h, v, i);
      assert h[i] == headers[i] && v[i] == values[i];
    }
  }

  /** The positions of the data lines that are kept, in ascending order. */
  function KeptPositions(headers: seq<string>, dataLines: seq<string>): seq<nat>
    decreases |dataLines|
  {
    if dataLines == [] then []
    else
      var n := |dataLines| - 1;
      KeptPositions(headers, dataLines[..n]) + (if WellShaped(headers, dataLines[n]) then [n] else [])
  }

  /** The kept positions are ascending positions of data lines, and line
      `i` is kept exactly when its cell count equals the header count. */
  lemma {:induction false} KeptPositionsSpec(headers: seq<string>, dataLines: seq<string>)
    ensures var pos := KeptPositions(headers, dataLines);
      |pos| <= |dataLines|
      && (forall k | 0 <= k < |pos| :: pos[k] < |dataLines|)
      && (forall k, l | 0 <= k < l < |pos| :: pos[k] < pos[l])
      && (forall i | 0 <= i < |dataLines| :: i in pos <==> WellShaped(headers, dataLines[i]))
    decreases |dataLines|
  {
    if dataLines != [] {
      var n := |dataLines| - 1;
      var prefix := dataLines[..n];
      KeptPositionsSpec(headers, prefix);
      var p := KeptPositions(headers, prefix);
      var pos := KeptPositions(headers, dataLines);
      assert n !in p;
      forall i | 0 <= i < |dataLines| ensures i in pos <==> WellShaped(headers, dataLines[i]) {
        if i < n {
          assert dataLines[i] == prefix[i];
        }
      }
    }
  }

  /** The parse loop is a filter: the k-th pushed row is the record of the
      k-th kept data line, so kept rows stay in input order. */
  lemma {:induction false} KeptRowsIsFilter(headers: seq<string>, dataLines: seq<string>)
    ensures var pos := KeptPositions(headers, dataLines);
      |KeptRows(headers, dataLines)| == |pos|
      && forall k | 0 <= k < |pos| :: pos[k] < |dataLines|
            && WellShaped(headers, dataLines[pos[k]])
            && KeptRows(headers, dataLines)[k] == RowOf(headers, ValueCells(dataLines[pos[k]]))
    decreases |dataLines|
  {
    if dataLines != [] {
      var n := |dataLines| - 1;
      var prefix := dataLines[..n];
      KeptRowsIsFilter(headers, prefix);
      KeptPositionsSpec(headers, prefix);
      var p := KeptPositions(headers, prefix);
      var pos := KeptPositions(headers, dataLines);
      forall k | 0 <= k < |pos|
        ensures pos[k] < |dataLines| && WellShaped(headers, dataLines[pos[k]])
          && KeptRows(headers, dataLines)[k] == RowOf(headers, ValueCells(dataLines[pos[k]]))
      {
        if k < |p| {
          assert pos[k] == p[k] && dataLines[p[k]] == prefix[p[k]];
          assert KeptRows(headers, dataLines)[k] == KeptRows(headers, prefix)[k];
        }
      }
    }
  }

  /** Consequences for parseCSV as a whole: no rows from fewer than two
      lines; otherwise at most one row per data line, each keyed by the
      trimmed, lower-cased header cells other than `__proto__`. */
  lemma ParsedRowsShape(csvText: string)
    ensures |Lines(csvText)| < 2 ==> ParsedRows(csvText) == []
    ensures |Lines(csvText)| >= 2 ==> |ParsedRows(csvText)| <= |Lines(csvText)| - 1
    ensures |Lines(csvText)| >= 2 ==> forall k | 0 <= k < |ParsedRows(csvText)| ::
      ParsedRows(csvText)[k].Keys == Elems(HeaderCells(Lines(csvText)[0])) - {ProtoKey}
  {
    var lines := Lines(csvText);
    if |lines| >= 2 {
      var headers, data := HeaderCells(lines[0]), lines[1..];
      KeptRowsIsFilter(headers, data);
      KeptPositionsSpec(headers, data);
      var pos := KeptPositions(headers, data);
      forall k | 0 <= k < |pos| ensures KeptRows(headers, data)[k].Keys == Elems(headers) - {ProtoKey} {
        RowOfSpec(headers, ValueCells(data[pos[k]]));
      }
    }
  }

  // ---------------------------------------------------------------------
  // generateCSV
  // ---------------------------------------------------------------------

  /** A value in a record handed to generateCSV: null, a string or a
      non-negative number (the only kinds the exporter produces). */
  datatype Cell = Null | Text(s: string) | Number(n: nat)

  /** A record handed to generateCSV; a missing key reads as undefined. */
  type Record = map<string, Cell>

  /** The text a field stands for: empty for null or undefined, otherwise
      `String(value)`. */
  function FieldText(row: Record, h: string): string {
    if h !in row then []
    else match row[h]
      case Null => []
      case Text(s) => s
      case Number(n) => NatToString(n)
  }

  /** `str.includes(',') || str.includes('"') || str.includes('\n')`. */
  predicate NeedsQuotes(s: string) {
    ',' in s || '"' in s || '\n' in s
  }

  /** `s.replace(/"/g, '""')`. */
  function DoubleQuotes(s: string): (r: string)
    ensures |r| >= |s|
  {
    if s == [] then []
    else (if s[0] == '"' then "\"\"" else [s[0]]) + DoubleQuotes(s[1..])
  }

  /** One emitted field: wrapped in quotes, with inner quotes doubled,
      exactly when the text holds a comma, a quote or a line feed;
      otherwise the text itself. */
  function EscapeField(s: string): (r: string)
    ensures NeedsQuotes(s) <==> (|r| >= 2 && r[0] == '"' && r[|r| - 1] == '"')
    ensures !NeedsQuotes(s) ==> r == s
  {
    if NeedsQuotes(s) then "\"" + DoubleQuotes(s) + "\"" else s
  }

  /** The field generateCSV writes for header `h` of `row`. */
  function EncodeCell(row: Record, h: string): string {
    if h !in row || row[h].Null? then []
    else EscapeField(FieldText(row, h))
  }

  /** `headers.map(...).join(',')` for one data record. */
  function EncodeRecord(row: Record, headers: seq<string>): string {
    Join(seq(|headers|, i requires 0 <= i < |headers| => EncodeCell(row, headers[i])), ",")
  }

  /** generateCSV: the header line, then one encoded record per data item,
      joined by line feeds. */
  function GenerateCSV(data: seq<Record>, headers: seq<string>): (r: string)
    ensures data == [] ==> r == Join(headers, ",")
  {
    Join([Join(headers, ",")] + seq(|data|, i requires 0 <= i < |data| => EncodeRecord(data[i], headers)), "\n")
  }

  /** A null or undefined value is written as the empty field, which is
      what escaping the empty text gives; so every field is the escape of
      its text. */
  lemma EncodeCellIsEscape(row: Record, h: string)
    ensures EncodeCell(row, h) == EscapeField(FieldText(row, h))
  {
  }

  /** Numbers are written verbatim: decimal digits never need quotes. */
  lemma NumbersUnquoted(n: nat)
    ensures EscapeField(NatToString(n)) == NatToString(n)
  {
  }

  /** Collapses each `""` back to one `"`. */
  function CollapseQuotes(t: string): string
    decreases |t|
  {
    if |t| >= 2 && t[0] == '"' && t[1] == '"' then "\"" + CollapseQuotes(t[2..])
    else if t == [] then []
    else [t[0]] + CollapseQuotes(t[1..])
  }

  /** Unquoting a field: strip the outer quotes of a quoted field and
      collapse doubled quotes; an unquoted field stands for itself. */
  function Unquote(t: string): string {
    if |t| >= 2 && t[0] == '"' && t[|t| - 1] == '"' then CollapseQuotes(t[1..|t| - 1]) else t
  }

  lemma {:induction false} CollapseDoubled(s: string)
    ensures CollapseQuotes(DoubleQuotes(s)) == s
  {
    if s != [] {
      CollapseDoubled(s[1..]);
      var d := DoubleQuotes(s[1..]);
      if s[0] == '"' {
        assert DoubleQuotes(s) == "\"\"" + d;
        assert (("\"\"" + d)[2..]) == d;
      } else {
        assert DoubleQuotes(s) == [s[0]] + d;
        assert ([s[0]] + d)[1..] == d;
      }
      assert s == [s[0]] + s[1..];
    }
  }

  /** Escaping is invertible: unquoting an emitted field gives back the
      text exactly. */
  lemma UnquoteEscape(s: string)
    ensures Unquote(EscapeField(s)) == s
  {
    if NeedsQuotes(s) {
      var t := EscapeField(s);
      assert t[1..|t| - 1] == DoubleQuotes(s);
      CollapseDoubled(s);
    } else if |s| >= 2 {
      assert s[0] != '"';
    }
  }
}
