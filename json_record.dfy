/** `toJSON`: the record `JSON.stringify` serialises for a `.json`
    destination. Each kept sheet carries its title, header values, id (under
    the key `sheedId`), one list of display values per row, and one
    header-to-value object per row. */
module JsonRecord {
  import opened Wrappers
  import opened Strings
  import opened SheetModel

  /** A row's object: header name to the value the row's getter returns,
      `None` for `undefined` (a key `JSON.stringify` then omits). */
  type RowObject = map<string, Option<string>>

  datatype JsonSheet = JsonSheet(
    title: string,
    headerValues: Option<seq<string>>,
    sheedId: int,
    rows: seq<seq<string>>,
    data: seq<RowObject>)

  datatype JsonDoc = JsonDoc(title: string, sheets: seq<JsonSheet>)

  /** What a cell shows in the record: its hyperlink when truthy, otherwise
      its formatted value, otherwise the empty string. */
  function DisplayValue(cell: Cell): string {
    if Truthy(cell.hyperlink) then cell.hyperlink.value else Or(cell.formattedValue, "")
  }

  /** One row of `rows`: the display value of each cell, in order. */
  function RowValues(cells: seq<Cell>): seq<string> {
    if cells == [] then [] else RowValues(cells[..|cells| - 1]) + [DisplayValue(cells[|cells| - 1])]
  }

  /** `rows`: one list per row. */
  function RowsValues(rows: seq<Row>): seq<seq<string>> {
    if rows == [] then [] else RowsValues(rows[..|rows| - 1]) + [RowValues(rows[|rows| - 1].cells)]
  }

  /** `row[header]`: the value of the row's field, `undefined` when it has none. */
  function Lookup(fields: map<string, string>, header: string): Option<string> {
    if header in fields then Some(fields[header]) else None
  }

  /** `row.headerValues || sheet.headerValues || []` (an array is truthy even when empty). */
  function HeadersOf(sheet: Sheet, row: Row): seq<string> {
    if row.headerValues.Some? then row.headerValues.value
    else if sheet.headerValues.Some? then sheet.headerValues.value
    else []
  }

  /** The object built by the `forEach` over the headers: every non-empty
      header is set, a repeated header set again. */
  function ObjectOf(headers: seq<string>, fields: map<string, string>): RowObject {
    if headers == [] then map[]
    else
      var d := ObjectOf(headers[..|headers| - 1], fields);
      var h := headers[|headers| - 1];
      if h != "" then d[h := Lookup(fields, h)] else d
  }

  /** `data`: one object per row. */
  function RowsData(sheet: Sheet, rows: seq<Row>): seq<RowObject> {
    if rows == [] then []
    else
      var row := rows[|rows| - 1];
      RowsData(sheet, rows[..|rows| - 1]) + [ObjectOf(HeadersOf(sheet, row), row.fields)]
  }

  function SheetRecord(sheet: Sheet): JsonSheet
    requires sheet.rows.Some?
  {
    JsonSheet(sheet.title, sheet.headerValues, sheet.sheetId,
              RowsValues(sheet.rows.value), RowsData(sheet, sheet.rows.value))
  }

  /** The sheets pushed by the loop: those with rows, in order. */
  function SheetsRecord(sheets: seq<Sheet>): seq<JsonSheet> {
    if sheets == [] then []
    else
      var last := sheets[|sheets| - 1];
      SheetsRecord(sheets[..|sheets| - 1]) + (if last.rows.Some? then [SheetRecord(last)] else [])
  }

  function Record(doc: Doc): JsonDoc {
    JsonDoc(doc.title, SheetsRecord(doc.sheets))
  }

  /** `toJSON`. */
  method ToJson(doc: Doc) returns (ngs: JsonDoc)
    ensures ngs == Record(doc)
  {
    var sheets: seq<JsonSheet> := [];
    var sheetIndex := 0;
    while sheetIndex < |doc.sheets|
      invariant 0 <= sheetIndex <= |doc.sheets|
      invariant sheets == SheetsRecord(doc.sheets[..sheetIndex])
    {
      var sheet := doc.sheets[sheetIndex];
      assert doc.sheets[..sheetIndex + 1][..sheetIndex] == doc.sheets[..sheetIndex];
      if sheet.rows.Some? {
        var rows := RowsOf(sheet.rows.value);
        var data := DataOf(sheet, sheet.rows.value);
        sheets := sheets + [JsonSheet(sheet.title, sheet.headerValues, sheet.sheetId, rows, data)];
      }
      sheetIndex := sheetIndex + 1;
    }
    assert doc.sheets[..sheetIndex] == doc.sheets;
    ngs := JsonDoc(doc.title, sheets);
  }

  /** `sheet.rows.map(...)` building `rows`. */
  method RowsOf(rows: seq<Row>) returns (result: seq<seq<string>>)
    ensures result == RowsValues(rows)
  {
    result := [];
    var i := 0;
    while i < |rows|
      invariant 0 <= i <= |rows|
      invariant result == RowsValues(rows[..i])
    {
      assert rows[..i + 1][..i] == rows[..i];
      var values := CellValues(rows[i].cells);
      result := result + [values];
      i := i + 1;
    }
    assert rows[..i] == rows;
  }

  /** The loop pushing each cell's display value into `ngssr`. */
  method CellValues(cells: seq<Cell>) returns (ngssr: seq<string>)
    ensures ngssr == RowValues(cells)
  {
    ngssr := [];
    var col := 0;
    while col < |cells|
      invariant 0 <= col <= |cells|
      invariant ngssr == RowValues(cells[..col])
    {
      assert cells[..col + 1][..col] == cells[..col];
      var cell := cells[col];
      var content := Or(cell.formattedValue, "");
      if Truthy(cell.hyperlink) {
        content := cell.hyperlink.value;
      }
      ngssr := ngssr + [content];
      col := col + 1;
    }
    assert cells[..col] == cells;
  }

  /** `sheet.rows.map(...)` building `data`. */
  method DataOf(sheet: Sheet, rows: seq<Row>) returns (result: seq<RowObject>)
    ensures result == RowsData(sheet, rows)
  {
    result := [];
    var i := 0;
    while i < |rows|
      invariant 0 <= i <= |rows|
      invariant result == RowsData(sheet, rows[..i])
    {
      assert rows[..i + 1][..i] == rows[..i];
      var headers := if rows[i].headerValues.Some? then rows[i].headerValues.value
                     else if sheet.headerValues.Some? then sheet.headerValues.value
                     else [];
      var d := ObjectFor(headers, rows[i].fields);
      result := result + [d];
      i := i + 1;
    }
    assert rows[..i] == rows;
  }

  /** The `forEach` over the headers. */
  method ObjectFor(headers: seq<string>, fields: map<string, string>) returns (d: RowObject)
    ensures d == ObjectOf(headers, fields)
  {
    d := map[];
    var k := 0;
    while k < |headers|
      invariant 0 <= k <= |headers|
      invariant d == ObjectOf(headers[..k], fields)
    {
      assert headers[..k + 1][..k] == headers[..k];
      var header := headers[k];
      if header != "" {
        d := d[header := if header in fields then Some(fields[header]) else None];
      }
      k := k + 1;
    }
    assert headers[..k] == headers;
  }

  /** Each output row has one entry per cell, the cell's display value. */
  lemma {:induction false} RowValuesShape(cells: seq<Cell>)
    ensures |RowValues(cells)| == |cells|
    ensures forall k :: 0 <= k < |cells| ==> RowValues(cells)[k] == DisplayValue(cells[k])
  {
    if cells != [] {
      RowValuesShape(cells[..|cells| - 1]);
    }
  }

  /** `rows` has one entry per row, computed from that row's cells alone. */
  lemma {:induction false} RowsValuesShape(rows: seq<Row>)
    ensures |RowsValues(rows)| == |rows|
    ensures forall k :: 0 <= k < |rows| ==> RowsValues(rows)[k] == RowValues(rows[k].cells)
  {
    if rows != [] {
      var init := rows[..|rows| - 1];
      RowsValuesShape(init);
      forall k | 0 <= k < |rows| - 1
        ensures RowsValues(rows)[k] == RowValues(rows[k].cells)
      {
        assert RowsValues(rows)[k] == RowsValues(init)[k];
        assert init[k] == rows[k];
      }
    }
  }

  /** `data` has one object per row, built from that row's headers and fields alone. */
  lemma {:induction false} RowsDataShape(sheet: Sheet, rows: seq<Row>)
    ensures |RowsData(sheet, rows)| == |rows|
    ensures forall k :: 0 <= k < |rows| ==>
              RowsData(sheet, rows)[k] == ObjectOf(HeadersOf(sheet, rows[k]), rows[k].fields)
  {
    if rows != [] {
      var init := rows[..|rows| - 1];
      RowsDataShape(sheet, init);
      forall k | 0 <= k < |rows| - 1
        ensures RowsData(sheet, rows)[k] == ObjectOf(HeadersOf(sheet, rows[k]), rows[k].fields)
      {
        assert RowsData(sheet, rows)[k] == RowsData(sheet, init)[k];
        assert init[k] == rows[k];
      }
    }
  }

  /** A row's object has exactly the non-empty headers as keys, each bound
      to the row's value for it. */
  lemma {:induction false} ObjectKeys(headers: seq<string>, fields: map<string, string>)
    ensures forall h :: h in ObjectOf(headers, fields) <==> h in headers && h != ""
    ensures forall h :: h in ObjectOf(headers, fields) ==> ObjectOf(headers, fields)[h] == Lookup(fields, h)
  {
    if headers != [] {
      var init := headers[..|headers| - 1];
      ObjectKeys(init, fields);
      assert headers == init + [headers[|headers| - 1]];
    }
  }

  /** Sheets are kept in order: the record of a concatenation is the
      concatenation of the records. */
  lemma {:induction false} SheetsRecordAppend(a: seq<Sheet>, b: seq<Sheet>)
    ensures SheetsRecord(a + b) == SheetsRecord(a) + SheetsRecord(b)
  {
    if b == [] {
      assert a + b == a;
    } else {
      var init := b[..|b| - 1];
      var last := b[|b| - 1];
      assert (a + b)[..|a + b| - 1] == a + init;
      assert (a + b)[|a + b| - 1] == last;
      SheetsRecordAppend(a, init);
    }
  }

  /** A sheet is dropped exactly when it has no rows: an empty row list still
      yields a sheet record. */
  lemma SheetKept(sheet: Sheet)
    ensures sheet.rows.None? <==> SheetsRecord([sheet]) == []
    ensures sheet.rows.Some? ==> SheetsRecord([sheet]) == [SheetRecord(sheet)]
  {
    assert [sheet][..0] == [];
  }

  /** The number of sheets in the record is the number of sheets with rows. */
  function RowedCount(sheets: seq<Sheet>): nat {
    if sheets == [] then 0
    else RowedCount(sheets[..|sheets| - 1]) + (if sheets[|sheets| - 1].rows.Some? then 1 else 0)
  }

  lemma {:induction false} SheetsRecordCount(sheets: seq<Sheet>)
    ensures |SheetsRecord(sheets)| == RowedCount(sheets) <= |sheets|
  {
    if sheets != [] {
      SheetsRecordCount(sheets[..|sheets| - 1]);
    }
  }

  /** When every sheet has rows, nothing is dropped and the `i`-th record is
      the `i`-th sheet's. */
  lemma {:induction false} SheetsAllKept(sheets: seq<Sheet>)
    requires forall k :: 0 <= k < |sheets| ==> sheets[k].rows.Some?
    ensures |SheetsRecord(sheets)| == |sheets|
    ensures forall k :: 0 <= k < |sheets| ==> SheetsRecord(sheets)[k] == SheetRecord(sheets[k])
  {
    if sheets != [] {
      SheetsAllKept(sheets[..|sheets| - 1]);
    }
  }
}
