/** The CSV contact import of the lists page: split the trimmed text into
    lines, resolve the name / phone / email columns from the header, and turn
    every data line with enough cells into a contact row. */
module Csv {
  import opened Base
  import opened Text
  import opened Store

  datatype CsvRow = CsvRow(name: string, whatsappNumber: string, email: string)

  datatype ColumnKind = NameColumn | PhoneColumn | EmailColumn

  datatype Columns = Columns(name: nat, phone: nat, email: nat)

  /** Which header titles a column kind accepts. */
  predicate Accepts(kind: ColumnKind, title: string) {
    match kind
    case NameColumn => Contains(title, "name")
    case PhoneColumn => Contains(title, "whatsapp") || Contains(title, "phone")
    case EmailColumn => Contains(title, "email")
  }

  /** `lines[0].split(',').map(h => h.trim().toLowerCase())`. */
  function Headers(line: string): (hs: seq<string>)
    ensures |hs| == |Split(line, ',')|
    ensures forall i :: 0 <= i < |hs| ==> hs[i] == Lower(Trim(Split(line, ',')[i]))
  {
    var parts := Split(line, ',');
    seq(|parts|, i requires 0 <= i < |parts| => Lower(Trim(parts[i])))
  }

  /** `headers.findIndex(...)`: the least index whose title the kind accepts,
      or -1. */
  function ColumnIndex(hs: seq<string>, kind: ColumnKind): (r: int)
    ensures -1 <= r < |hs|
    ensures r == -1 <==> forall i :: 0 <= i < |hs| ==> !Accepts(kind, hs[i])
    ensures r >= 0 ==> Accepts(kind, hs[r]) && forall j :: 0 <= j < r ==> !Accepts(kind, hs[j])
  {
    if |hs| == 0 then -1
    else if Accepts(kind, hs[0]) then 0
    else
      var k := ColumnIndex(hs[1..], kind);
      assert forall i :: 1 <= i < |hs| ==> hs[i] == hs[1..][i - 1];
      if k == -1 then -1 else k + 1
  }

  /** All three columns, or `None` when any index is -1. */
  function ResolveColumns(hs: seq<string>): (r: Option<Columns>)
    ensures r.None? <==> ColumnIndex(hs, NameColumn) == -1 || ColumnIndex(hs, PhoneColumn) == -1 || ColumnIndex(hs, EmailColumn) == -1
    ensures r.Some? ==> r.value == Columns(ColumnIndex(hs, NameColumn), ColumnIndex(hs, PhoneColumn), ColumnIndex(hs, EmailColumn))
  {
    var n := ColumnIndex(hs, NameColumn);
    var p := ColumnIndex(hs, PhoneColumn);
    var e := ColumnIndex(hs, EmailColumn);
    if n == -1 || p == -1 || e == -1 then None else Some(Columns(n, p, e))
  }

  /** One cell: `v.trim().replace(/"/g, '')`. Trimming happens before the
      quotes go, so whitespace inside quotes survives. */
  function Cell(v: string): (c: string)
    ensures '"' !in c
  {
    Remove(Trim(v), '"')
  }

  function Cells(line: string): (cs: seq<string>)
    ensures |cs| == |Split(line, ',')|
    ensures forall i :: 0 <= i < |cs| ==> '"' !in cs[i]
  {
    var parts := Split(line, ',');
    seq(|parts|, i requires 0 <= i < |parts| => Cell(parts[i]))
  }

  function Widest(cols: Columns): nat {
    if cols.name >= cols.phone && cols.name >= cols.email then cols.name
    else if cols.phone >= cols.email then cols.phone
    else cols.email
  }

  /** `values.length >= Math.max(nameIndex, whatsappIndex, emailIndex) + 1`. */
  predicate Sufficient(line: string, cols: Columns) {
    |Split(line, ',')| >= Widest(cols) + 1
  }

  function RowOf(line: string, cols: Columns): (r: CsvRow)
    requires Sufficient(line, cols)
    ensures '"' !in r.name && '"' !in r.whatsappNumber && '"' !in r.email
  {
    var cs := Cells(line);
    CsvRow(cs[cols.name], cs[cols.phone], cs[cols.email])
  }

  /** What one data line contributes: its row, or nothing when it is short. */
  function LineRows(line: string, cols: Columns): (rows: seq<CsvRow>)
    ensures |rows| <= 1
    ensures |rows| == 1 <==> Sufficient(line, cols)
    ensures forall k :: 0 <= k < |rows| ==> Unquoted(rows[k])
  {
    if Sufficient(line, cols) then [RowOf(line, cols)] else []
  }

  /** No field of the row holds a `"`. */
  predicate Unquoted(r: CsvRow) {
    '"' !in r.name && '"' !in r.whatsappNumber && '"' !in r.email
  }

  function Reader(cols: Columns): string -> seq<CsvRow> {
    (line: string) => LineRows(line, cols)
  }

  /** The reference reading of the data lines: each line with enough cells
      becomes a row, the others contribute nothing. */
  function Expected(lines: seq<string>, cols: Columns): seq<CsvRow> {
    FlatMap(lines, Reader(cols))
  }

  lemma {:induction false} ExpectedAppend(a: seq<string>, b: seq<string>, cols: Columns)
    ensures Expected(a + b, cols) == Expected(a, cols) + Expected(b, cols)
  {
    FlatMapAppend(a, b, Reader(cols));
  }

  /** Reading one more line adds that line's rows. */
  lemma ExpectedStep(lines: seq<string>, i: nat, cols: Columns)
    requires i < |lines|
    ensures Expected(lines[..i + 1], cols) == Expected(lines[..i], cols) + LineRows(lines[i], cols)
  {
    assert lines[..i + 1] == lines[..i] + [lines[i]];
    FlatMapAppend(lines[..i], [lines[i]], Reader(cols));
    FlatMapOne(lines[i], Reader(cols));
  }

  /** The import loop over the data lines: short lines are skipped silently. */
  method ParseRows(lines: seq<string>, cols: Columns) returns (rows: seq<CsvRow>)
    ensures rows == Expected(lines, cols)
    ensures |rows| <= |lines|
    ensures forall k :: 0 <= k < |rows| ==> Unquoted(rows[k])
  {
    rows := [];
    var i := 0;
    while i < |lines|
      invariant 0 <= i <= |lines|
      invariant rows == Expected(lines[..i], cols)
    {
      ExpectedStep(lines, i, cols);
      rows := rows + LineRows(lines[i], cols);
      i := i + 1;
    }
    assert lines[..i] == lines;
    FlatMapAtMostOne(lines, Reader(cols));
    FlatMapAll(lines, Reader(cols), Unquoted);
  }

  /** `parseCsvData`. */
  method ParseCsv(text: string) returns (r: Result<seq<CsvRow>>)
    ensures var lines := Split(Trim(text), '\n');
      && (|lines| < 2 <==> r == Err(CsvTooShort))
      && (|lines| >= 2 ==> (r == Err(CsvMissingColumns) <==> ResolveColumns(Headers(lines[0])).None?))
      && (r.Ok? ==> |lines| >= 2 && ResolveColumns(Headers(lines[0])).Some?
                    && r.value == Expected(lines[1..], ResolveColumns(Headers(lines[0])).value))
    ensures r.Ok? ==> |r.value| <= |Split(Trim(text), '\n')| - 1
  {
    var lines := Split(Trim(text), '\n');
    if |lines| < 2 {
      return Err(CsvTooShort);
    }
    var cols := ResolveColumns(Headers(lines[0]));
    if cols.None? {
      return Err(CsvMissingColumns);
    }
    var rows := ParseRows(lines[1..], cols.value);
    return Ok(rows);
  }

  /** When every data line has enough cells, there is one row per line, in
      line order. */
  lemma AllSufficient(lines: seq<string>, cols: Columns)
    requires forall i :: 0 <= i < |lines| ==> Sufficient(lines[i], cols)
    ensures |Expected(lines, cols)| == |lines|
    ensures forall i :: 0 <= i < |lines| ==> Expected(lines, cols)[i] == RowOf(lines[i], cols)
  {
    FlatMapSingletons(lines, Reader(cols));
  }

  /** A line with too few cells contributes nothing. */
  lemma ShortLineSkipped(before: seq<string>, line: string, after: seq<string>, cols: Columns)
    requires !Sufficient(line, cols)
    ensures Expected(before + [line] + after, cols) == Expected(before + after, cols)
  {
    ExpectedAppend(before + [line], after, cols);
    ExpectedAppend(before, [line], cols);
    ExpectedAppend(before, after, cols);
    FlatMapOne(line, Reader(cols));
  }

  /** Quotes are removed after trimming, so a quoted cell yields exactly
      the text between its quotes, spaces at its ends included. */
  lemma QuotedSpacesSurvive(x: string)
    requires '"' !in x
    ensures Cell("\"" + x + "\"") == x
  {
    var s := "\"" + x + "\"";
    assert s[0] == '"' && s[|s| - 1] == '"';
    assert !IsWhitespace('"');
    TrimmedUnchanged(s);
    UnquoteQuoted(x);
  }

  /** Removing the quotes around quote-free text gives the text. */
  lemma UnquoteQuoted(x: string)
    requires '"' !in x
    ensures Remove("\"" + x + "\"", '"') == x
  {
    var q := "\"";
    RemoveAppend(q + x, q, '"');
    RemoveAppend(q, x, '"');
    RemoveAbsent(x, '"');
    assert Remove(q, '"') == "";
    assert "" + x + "" == x;
  }
}
