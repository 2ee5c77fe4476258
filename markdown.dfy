/** `toMarkdown` (src/lib/spreadsheet.js): a `#` title, then per sheet a `##`
    heading and a pipe table, then a footer naming the spreadsheet unless the
    options switch it off. `ToMarkdown` accumulates the text in nested loops as
    the source does; `Text` is the specification it is proved against. */
module Markdown {
  import opened Wrappers
  import opened Strings
  import opened SheetModel

  /** The escaper `str`: `|` becomes `--`, then each newline becomes `<br />`. */
  function Escape(s: string): (t: string)
    ensures '|' !in t && '\n' !in t
  {
    var u := ReplaceAll(s, '|', "--");
    var t := ReplaceAll(u, '\n', "<br />");
    ReplaceAllFree(s, '|', "--", '|');
    ReplaceAllFree(u, '\n', "<br />", '|');
    ReplaceAllFree(u, '\n', "<br />", '\n');
    t
  }

  /** One line of a pipe table. */
  function TableLine(cells: seq<string>): string {
    "| " + Join(cells, " | ") + " |\n"
  }

  /** Header cells: the escaped header values, or one blank per raw value of
      the first row (`ColumnCount` of them). */
  function HeaderCells(sheet: Sheet): seq<string> {
    if sheet.headerValues.Some? then EscapeAll(sheet.headerValues.value)
    else Repeat(" ", ColumnCount(sheet))
  }

  /** `headerValues.map(str)`. */
  function EscapeAll(hv: seq<string>): (r: seq<string>)
    ensures |r| == |hv|
  {
    if hv == [] then [] else EscapeAll(hv[..|hv| - 1]) + [Escape(hv[|hv| - 1])]
  }

  /** Separator cells: one `--` per header cell. */
  function SeparatorCells(sheet: Sheet): seq<string> {
    Repeat("--", ColumnCount(sheet))
  }

  /** A body cell's content: its escaped text, as the text of a link when it has a hyperlink. */
  function CellContent(cell: Cell): string {
    var content := Escape(Or(cell.formattedValue, ""));
    if Truthy(cell.hyperlink) then "[" + cell.hyperlink.value + "](" + content + ")" else content
  }

  /** The text a body cell contributes. */
  function CellText(cell: Cell): string {
    "| " + CellContent(cell) + " "
  }

  function CellsText(cells: seq<Cell>): string {
    if cells == [] then "" else CellsText(cells[..|cells| - 1]) + CellText(cells[|cells| - 1])
  }

  function RowText(row: Row): string {
    CellsText(row.cells) + " |\n"
  }

  function RowsText(rows: seq<Row>): string {
    if rows == [] then "" else RowsText(rows[..|rows| - 1]) + RowText(rows[|rows| - 1])
  }

  /** A sheet's heading, header row and separator row. */
  function SheetHead(sheet: Sheet): string {
    "\n## " + sheet.title + "\n\n" + TableLine(HeaderCells(sheet)) + TableLine(SeparatorCells(sheet))
  }

  function SheetText(sheet: Sheet): string {
    SheetHead(sheet) + (if sheet.rows.Some? then RowsText(sheet.rows.value) else "")
  }

  function SheetsText(sheets: seq<Sheet>): string {
    if sheets == [] then "" else SheetsText(sheets[..|sheets| - 1]) + SheetText(sheets[|sheets| - 1])
  }

  function Footer(spreadsheetId: string): string {
    "\n<hr>\n\nGenerated from a [Google spreadsheet](https://docs.google.com/spreadsheets/d/"
    + spreadsheetId + "/)\n"
  }

  /** The title and the sheets, the part of the text the options do not affect. */
  function Body(doc: Doc): string {
    "# " + doc.title + "\n" + SheetsText(doc.sheets)
  }

  /** The document `toMarkdown(options)` returns. */
  function Text(doc: Doc, options: Option<RenderOptions>): string {
    Body(doc) + (if ShowsSource(options) then Footer(doc.spreadsheetId) else "")
  }

  /** `toMarkdown`, text accumulated sheet by sheet. */
  method ToMarkdown(doc: Doc, options: Option<RenderOptions>) returns (text: string)
    requires Renderable(doc)
    ensures text == Text(doc, options)
  {
    text := "# " + doc.title + "\n";
    ghost var head := text;
    var sheetIndex := 0;
    while sheetIndex < |doc.sheets|
      invariant 0 <= sheetIndex <= |doc.sheets|
      invariant text == head + SheetsText(doc.sheets[..sheetIndex])
    {
      ghost var before := text;
      text := AppendSheet(text, doc.sheets[sheetIndex]);
      SheetsStep(head, before, text, doc.sheets, sheetIndex);
      sheetIndex := sheetIndex + 1;
    }
    assert doc.sheets[..sheetIndex] == doc.sheets;
    assert text == Body(doc);
    if ShowsSource(options) {
      text := text + Footer(doc.spreadsheetId);
    } else {
      assert text == Body(doc) + "";
    }
  }

  /** The body of the loop over sheets: heading, header row, separator row,
      then one line per row. */
  method AppendSheet(text: string, sheet: Sheet) returns (result: string)
    requires HeaderDefined(sheet)
    ensures result == text + SheetText(sheet)
  {
    result := text + ("\n## " + sheet.title + "\n\n");
    ghost var afterTitle := result;
    result := result + TableLine(HeaderCells(sheet));
    ghost var afterHeader := result;
    result := result + TableLine(SeparatorCells(sheet));
    HeadStep(text, afterTitle, afterHeader, result, sheet);
    if sheet.rows.Some? {
      result := AppendRows(result, sheet.rows.value);
      Assoc(text, SheetHead(sheet), RowsText(sheet.rows.value));
    }
  }

  lemma HeadStep(text: string, afterTitle: string, afterHeader: string, afterSeparator: string, sheet: Sheet)
    requires afterTitle == text + ("\n## " + sheet.title + "\n\n")
    requires afterHeader == afterTitle + TableLine(HeaderCells(sheet))
    requires afterSeparator == afterHeader + TableLine(SeparatorCells(sheet))
    ensures afterSeparator == text + SheetHead(sheet)
  {
    var title := "\n## " + sheet.title + "\n\n";
    Assoc(text, title, TableLine(HeaderCells(sheet)));
    Assoc(text, title + TableLine(HeaderCells(sheet)), TableLine(SeparatorCells(sheet)));
  }

  /** `sheet.rows.forEach`: one line per row. */
  method AppendRows(text: string, rows: seq<Row>) returns (result: string)
    ensures result == text + RowsText(rows)
  {
    result := text;
    var r := 0;
    while r < |rows|
      invariant 0 <= r <= |rows|
      invariant result == text + RowsText(rows[..r])
    {
      ghost var before := result;
      result := AppendRow(result, rows[r]);
      RowsStep(text, before, result, rows, r);
      r := r + 1;
    }
    assert rows[..r] == rows;
  }

  /** The body of `sheet.rows.forEach`: one `| content ` per cell, then ` |` and a newline. */
  method AppendRow(text: string, row: Row) returns (result: string)
    ensures result == text + RowText(row)
  {
    result := text;
    var cells := row.cells;
    var col := 0;
    while col < |cells|
      invariant 0 <= col <= |cells|
      invariant result == text + CellsText(cells[..col])
    {
      var cell := cells[col];
      var content := Escape(Or(cell.formattedValue, ""));
      if Truthy(cell.hyperlink) {
        content := "[" + cell.hyperlink.value + "](" + content + ")";
      }
      assert "| " + content + " " == CellText(cell);
      ghost var before := result;
      result := result + ("| " + content + " ");
      CellsStep(text, before, result, cells, col);
      col := col + 1;
    }
    assert cells[..col] == cells;
    result := result + " |\n";
  }

  lemma SheetsStep(head: string, before: string, after: string, sheets: seq<Sheet>, i: nat)
    requires i < |sheets|
    requires before == head + SheetsText(sheets[..i])
    requires after == before + SheetText(sheets[i])
    ensures after == head + SheetsText(sheets[..i + 1])
  {
    assert sheets[..i + 1][..i] == sheets[..i];
    assert SheetsText(sheets[..i + 1]) == SheetsText(sheets[..i]) + SheetText(sheets[i]);
    Assoc(head, SheetsText(sheets[..i]), SheetText(sheets[i]));
  }

  lemma RowsStep(head: string, before: string, after: string, rows: seq<Row>, i: nat)
    requires i < |rows|
    requires before == head + RowsText(rows[..i])
    requires after == before + RowText(rows[i])
    ensures after == head + RowsText(rows[..i + 1])
  {
    assert rows[..i + 1][..i] == rows[..i];
    assert RowsText(rows[..i + 1]) == RowsText(rows[..i]) + RowText(rows[i]);
    Assoc(head, RowsText(rows[..i]), RowText(rows[i]));
  }

  lemma CellsStep(head: string, before: string, after: string, cells: seq<Cell>, i: nat)
    requires i < |cells|
    requires before == head + CellsText(cells[..i])
    requires after == before + CellText(cells[i])
    ensures after == head + CellsText(cells[..i + 1])
  {
    assert cells[..i + 1][..i] == cells[..i];
    assert CellsText(cells[..i + 1]) == CellsText(cells[..i]) + CellText(cells[i]);
    Assoc(head, CellsText(cells[..i]), CellText(cells[i]));
  }

  /** The escaper works character by character: `|` gives `--`, a newline
      gives `<br />`, every other character is kept. */
  lemma EscapeSpec(a: string, b: string, x: char)
    ensures Escape(a + b) == Escape(a) + Escape(b)
    ensures Escape([x]) == if x == '|' then "--" else if x == '\n' then "<br />" else [x]
  {
    ReplaceAllAppend(a, b, '|', "--");
    ReplaceAllAppend(ReplaceAll(a, '|', "--"), ReplaceAll(b, '|', "--"), '\n', "<br />");
    EscapeChar(x);
  }

  lemma EscapeChar(x: char)
    ensures Escape([x]) == if x == '|' then "--" else if x == '\n' then "<br />" else [x]
  {
    assert [x][1..] == [];
    var u := ReplaceAll([x], '|', "--");
    assert u == (if x == '|' then "--" else [x]) + ReplaceAll([], '|', "--");
    if x == '|' {
      assert u == "--";
      ReplaceAllAbsent("--", '\n', "<br />");
    } else {
      assert u == [x];
      assert ReplaceAll(u, '\n', "<br />") == (if x == '\n' then "<br />" else [x]) + ReplaceAll([], '\n', "<br />");
    }
  }

  lemma {:induction false} NoPipeInCells(xs: seq<string>)
    requires forall k :: 0 <= k < |xs| ==> '|' !in xs[k]
    ensures CountIn(xs, '|') == 0
  {
    if xs != [] {
      NoPipeInCells(xs[..|xs| - 1]);
    }
  }

  /** A table line over cells free of `|` holds one `|` per column plus one
      (two for a line without cells). */
  lemma TableLinePipes(xs: seq<string>)
    requires forall k :: 0 <= k < |xs| ==> '|' !in xs[k]
    ensures Count(TableLine(xs), '|') == if |xs| == 0 then 2 else |xs| + 1
  {
    CountAppend("| ", Join(xs, " | "), '|');
    CountAppend("| " + Join(xs, " | "), " |\n", '|');
    if |xs| > 0 {
      NoPipeInCells(xs);
      JoinCount(xs, " | ", '|');
    }
  }

  /** The header row and the separator row have the same number of columns:
      the number of header values if the sheet has them, else the number of
      raw values of the first row; escaping keeps the two `|` counts equal. */
  lemma HeaderColumns(sheet: Sheet)
    requires HeaderDefined(sheet)
    ensures |HeaderCells(sheet)| == |SeparatorCells(sheet)| == ColumnCount(sheet)
    ensures Count(TableLine(HeaderCells(sheet)), '|') == Count(TableLine(SeparatorCells(sheet)), '|')
    ensures Count(TableLine(SeparatorCells(sheet)), '|')
            == if ColumnCount(sheet) == 0 then 2 else ColumnCount(sheet) + 1
  {
    if sheet.headerValues.Some? {
      EscapedCellsFree(sheet.headerValues.value);
    } else {
      RepeatElements(" ", ColumnCount(sheet));
    }
    RepeatElements("--", ColumnCount(sheet));
    TableLinePipes(HeaderCells(sheet));
    TableLinePipes(SeparatorCells(sheet));
  }

  lemma {:induction false} EscapedCellsFree(hv: seq<string>)
    ensures forall k :: 0 <= k < |hv| ==> '|' !in EscapeAll(hv)[k]
  {
    if hv != [] {
      EscapedCellsFree(hv[..|hv| - 1]);
    }
  }

  /** The `|` characters the hyperlinks of `cells` carry (they are not escaped). */
  function LinkPipes(cells: seq<Cell>): nat {
    if cells == [] then 0
    else
      var c := cells[|cells| - 1];
      LinkPipes(cells[..|cells| - 1]) + (if Truthy(c.hyperlink) then Count(c.hyperlink.value, '|') else 0)
  }

  lemma CellPipes(cell: Cell)
    ensures Count(CellText(cell), '|')
            == 1 + (if Truthy(cell.hyperlink) then Count(cell.hyperlink.value, '|') else 0)
  {
    var content := Escape(Or(cell.formattedValue, ""));
    var linked := CellContent(cell);
    assert Count(content, '|') == 0;
    if Truthy(cell.hyperlink) {
      var url := cell.hyperlink.value;
      assert Count("[", '|') == 0 && Count("](", '|') == 0 && Count(")", '|') == 0;
      CountAppend("[", url, '|');
      CountAppend("[" + url, "](", '|');
      CountAppend("[" + url + "](", content, '|');
      CountAppend("[" + url + "](" + content, ")", '|');
    }
    assert Count("| ", '|') == 1 && Count(" ", '|') == 0;
    CountAppend("| ", linked, '|');
    CountAppend("| " + linked, " ", '|');
  }

  /** Every body cell contributes exactly one `| ` segment and the row closes
      with one more `|`; the only other `|` characters are the ones in
      hyperlinks, which are written unescaped. */
  lemma {:induction false} RowPipes(row: Row)
    ensures Count(RowText(row), '|') == |row.cells| + 1 + LinkPipes(row.cells)
  {
    CellsPipes(row.cells);
    CountAppend(CellsText(row.cells), " |\n", '|');
  }

  lemma {:induction false} CellsPipes(cells: seq<Cell>)
    ensures Count(CellsText(cells), '|') == |cells| + LinkPipes(cells)
  {
    if cells != [] {
      var init := cells[..|cells| - 1];
      CellsPipes(init);
      CellPipes(cells[|cells| - 1]);
      CountAppend(CellsText(init), CellText(cells[|cells| - 1]), '|');
    }
  }

  /** The footer is written unless the options are given with `nosource`
      exactly `false`; nothing else depends on the options. */
  lemma FooterRule(doc: Doc, options: Option<RenderOptions>)
    ensures ShowsSource(options) <==> !(options.Some? && options.value.nosource == Some(false))
    ensures ShowsSource(options) ==> Text(doc, options) == Body(doc) + Footer(doc.spreadsheetId)
    ensures !ShowsSource(options) ==> Text(doc, options) == Body(doc)
  {
    if !ShowsSource(options) {
      assert Text(doc, options) == Body(doc) + "";
    }
  }

}
