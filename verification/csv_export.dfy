/** The CSV serialiser of the export service and the choice between CSV and
    JSON output. Writing the file and `JSON.stringify` are outside the model. */
module CsvExport {
  import opened Wrappers
  import opened Text
  import opened Extraction

  const Headers: seq<string> := ["ID", "URL", "Title", "Description", "Image", "Price", "Verified", "Created At"]

  /** The column headers joined with commas, the first line of every export. */
  const HeaderLine: string := Join(Headers, ",")

  /** The record fields written as quoted cells, in column order after the id. */
  const QuotedFields: seq<string> := ["url", "title", "description", "image", "price"]

  /** A label for the `TypeError` that calling `replace` on a number or `true`
      throws; the engine's own message names the receiver expression. */
  const ReplaceTypeError: string := "TypeError: replace is not a function"

  // ---------------------------------------------------------------- quoting

  /** `s.replace(/"/g, '""')`: every double quote doubled. */
  function DoubleQuotes(s: string): (r: string)
    ensures |r| >= |s|
    ensures '"' !in s ==> r == s
  {
    if |s| == 0 then ""
    else (if s[0] == '"' then "\"\"" else [s[0]]) + DoubleQuotes(s[1..])
  }

  /** Reading a quoted cell's inside back: a doubled quote is one quote, and a
      lone quote means the text was not written by `DoubleQuotes`. */
  function UndoubleQuotes(s: string): (r: Option<string>)
  {
    if |s| == 0 then Some("")
    else if s[0] != '"' then
      match UndoubleQuotes(s[1..])
      case Some(t) => Some([s[0]] + t)
      case None => None
    else if |s| >= 2 && s[1] == '"' then
      match UndoubleQuotes(s[2..])
      case Some(t) => Some("\"" + t)
      case None => None
    else None
  }

  /** Un-doubling the quotes recovers the original text. */
  lemma {:induction false} UndoubleDouble(s: string)
    ensures UndoubleQuotes(DoubleQuotes(s)) == Some(s)
    decreases |s|
  {
    if |s| > 0 {
      UndoubleDouble(s[1..]);
      UndoubleStep(s);
    }
  }

  /** One character of the round trip: a quote is doubled and read back as one,
      any other character is copied both ways. */
  lemma UndoubleStep(s: string)
    requires |s| > 0 && UndoubleQuotes(DoubleQuotes(s[1..])) == Some(s[1..])
    ensures UndoubleQuotes(DoubleQuotes(s)) == Some(s)
  {
    var d := DoubleQuotes(s);
    assert s == [s[0]] + s[1..];
    if s[0] == '"' {
      assert d[2..] == DoubleQuotes(s[1..]);
    } else {
      assert d[1..] == DoubleQuotes(s[1..]);
    }
  }

  /** `"${(v || '').replace(/"/g, '""')}"`: a falsy value gives `""`; a truthy
      value that is not a string has no `replace`, and the call throws. */
  function Quoted(v: Value): (r: Result<string, string>)
    ensures r.Failure? <==> Truthy(v) && !v.Str?
    ensures r.Success? ==> |r.value| >= 2 && r.value[0] == '"' && r.value[|r.value| - 1] == '"'
    ensures r.Success? && !Truthy(v) ==> r.value == "\"\""
  {
    if !Truthy(v) then Success("\"\"")
    else if v.Str? then Success("\"" + DoubleQuotes(v.s) + "\"")
    else Failure(ReplaceTypeError)
  }

  /** The text a cell stands for: the string, or "" for a falsy value. */
  function CellText(v: Value): string {
    if v.Str? then v.s else ""
  }

  /** Taking the quotes off a quoted cell and un-doubling gives its text back. */
  lemma QuotedRoundTrip(v: Value)
    requires Quoted(v).Success?
    ensures var q := Quoted(v).value; UndoubleQuotes(q[1..|q| - 1]) == Some(CellText(v))
  {
    if Truthy(v) {
      var q := Quoted(v).value;
      assert q[1..|q| - 1] == DoubleQuotes(v.s);
      UndoubleDouble(v.s);
    } else {
      var q := Quoted(v).value;
      assert q[1..|q| - 1] == "";
    }
  }

  /** How `Array.prototype.join` renders an element: null and undefined as "". */
  function Joined(v: Value): (r: string)
    ensures v.Null? || v.Undefined? ==> r == ""
    ensures v.Str? ==> r == v.s
  {
    if v.Null? || v.Undefined? then "" else ToStr(v)
  }

  // ---------------------------------------------------------------- rows

  /** The quoted cells of the named fields, in order; the first value that
      cannot be quoted stops the row. */
  function QuotedCells(row: Item, fields: seq<string>): (r: Result<seq<string>, string>)
    ensures r.Failure? <==> exists k :: 0 <= k < |fields| && Quoted(Prop(row, fields[k])).Failure?
    ensures r.Success? ==> |r.value| == |fields|
    ensures r.Success? ==> forall k :: 0 <= k < |fields| ==> Quoted(Prop(row, fields[k])) == Success(r.value[k])
  {
    if |fields| == 0 then Success([])
    else
      var first := Quoted(Prop(row, fields[0]));
      var rest := QuotedCells(row, fields[1..]);
      assert forall k :: 1 <= k < |fields| ==> fields[k] == fields[1..][k - 1];
      if first.Failure? then Failure(first.error)
      else if rest.Failure? then Failure(rest.error)
      else Success([first.value] + rest.value)
  }

  /** The eight values of one row, in header order. */
  function Cells(row: Item): (r: Result<seq<string>, string>)
    ensures r.Failure? <==> exists k :: 0 <= k < 5 && Quoted(Prop(row, QuotedFields[k])).Failure?
    ensures r.Success? ==>
      && |r.value| == 8
      && r.value[0] == Joined(Prop(row, "id"))
      && (forall k :: 1 <= k <= 5 ==> Quoted(Prop(row, QuotedFields[k - 1])) == Success(r.value[k]))
      && (r.value[6] == "Yes" <==> Truthy(Prop(row, "verified")))
      && (r.value[6] == "No" <==> !Truthy(Prop(row, "verified")))
      && r.value[7] == Joined(Prop(row, "created_at"))
  {
    match QuotedCells(row, QuotedFields)
    case Failure(e) => Failure(e)
    case Success(quoted) =>
      var verified := if Truthy(Prop(row, "verified")) then "Yes" else "No";
      var cells := [Joined(Prop(row, "id"))] + quoted + [verified, Joined(Prop(row, "created_at"))];
      assert forall k :: 1 <= k <= 5 ==> cells[k] == quoted[k - 1];
      assert "Yes"[0] != "No"[0];
      Success(cells)
  }

  /** Every quoted cell of a row reads back as the record's text for it. */
  lemma CellsReadBack(row: Item, k: nat)
    requires Cells(row).Success? && 1 <= k <= 5
    ensures var c := Cells(row).value[k];
      UndoubleQuotes(c[1..|c| - 1]) == Some(CellText(Prop(row, QuotedFields[k - 1])))
  {
    QuotedRoundTrip(Prop(row, QuotedFields[k - 1]));
  }

  /** The lines after the header, one per record, in order. */
  function RowLines(rows: seq<Item>): (r: Result<seq<string>, string>)
    ensures r.Failure? <==> exists i :: 0 <= i < |rows| && Cells(rows[i]).Failure?
    ensures r.Success? ==> |r.value| == |rows|
    ensures r.Success? ==> forall i :: 0 <= i < |rows| ==> r.value[i] == Join(Cells(rows[i]).value, ",")
  {
    if |rows| == 0 then Success([])
    else
      var first := Cells(rows[0]);
      var rest := RowLines(rows[1..]);
      assert forall i :: 1 <= i < |rows| ==> rows[i] == rows[1..][i - 1];
      if first.Failure? then Failure(first.error)
      else if rest.Failure? then Failure(rest.error)
      else Success([Join(first.value, ",")] + rest.value)
  }

  /** `toCSV(data)`: the header line and one line per record, joined with "\n". */
  function ToCsv(rows: seq<Item>): (r: Result<string, string>)
    ensures r.Failure? <==> RowLines(rows).Failure?
    ensures r.Success? ==> r.value == Join([HeaderLine] + RowLines(rows).value, "\n")
    ensures r.Success? ==> StartsWith(r.value, HeaderLine)
  {
    match RowLines(rows)
    case Failure(e) => Failure(e)
    case Success(lines) =>
      var text := Join([HeaderLine] + lines, "\n");
      JoinStartsWithFirst([HeaderLine] + lines, "\n");
      Success(text)
  }

  lemma HeaderHasNoBreak()
    ensures '\n' !in HeaderLine
  {
    JoinAvoids(Headers, ",", '\n');
  }

  /** When no value holds a line break, the export has exactly one line more
      than there are records, the first being the header. */
  lemma ToCsvLines(rows: seq<Item>)
    requires ToCsv(rows).Success?
    requires forall i :: 0 <= i < |rows| ==> '\n' !in RowLines(rows).value[i]
    ensures Split(ToCsv(rows).value, '\n') == [HeaderLine] + RowLines(rows).value
    ensures |Split(ToCsv(rows).value, '\n')| == |rows| + 1
    ensures Split(ToCsv(rows).value, '\n')[0] == HeaderLine
  {
    var lines := RowLines(rows).value;
    var parts := [HeaderLine] + lines;
    assert ToCsv(rows).value == Join(parts, ['\n']);
    HeaderHasNoBreak();
    assert forall k :: 0 <= k < |parts| ==> '\n' !in parts[k] by {
      forall k | 0 <= k < |parts| ensures '\n' !in parts[k] {
        if k > 0 {
          assert parts[k] == lines[k - 1];
        }
      }
    }
    SplitJoin(parts, '\n');
    assert |parts| == |rows| + 1;
  }

  // ---------------------------------------------------------------- format

  /** What `exportData` writes. */
  datatype Content = CsvText(text: string) | JsonOf(rows: seq<Item>)

  /** `format === 'csv' || filePath.endsWith('.csv')`. */
  predicate IsCsv(format: Value, filePath: string) {
    format == Str("csv") || EndsWith(filePath, ".csv")
  }

  /** `exportData(data, filePath, format)` up to the write: CSV exactly when
      the format says so or the path ends in ".csv", JSON otherwise. */
  function ExportContent(rows: seq<Item>, filePath: string, format: Value): (r: Result<Content, string>)
    ensures IsCsv(format, filePath) ==> (r.Success? <==> ToCsv(rows).Success?)
    ensures IsCsv(format, filePath) && r.Success? ==> r.value == CsvText(ToCsv(rows).value)
    ensures !IsCsv(format, filePath) ==> r == Success(JsonOf(rows))
  {
    if IsCsv(format, filePath) then
      match ToCsv(rows)
      case Success(text) => Success(CsvText(text))
      case Failure(e) => Failure(e)
    else Success(JsonOf(rows))
  }
}
