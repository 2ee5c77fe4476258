/** `toHTML` (src/lib/spreadsheet.js): a page with a style sheet, a banner
    (logo and title, or the title alone), then per sheet an `h2` with a
    self-link and a table whose body cells carry inline styles derived from
    the cell's effective format, then an optional footer. `ToHtml` builds the
    text in nested loops as the source does; `Document` is its specification. */
module Html {
  import opened Wrappers
  import opened Strings
  import opened SheetModel

  /** What the nested `color` helper turns a colour into. */
  datatype CssColor = White | Black | Rgb(red: Channel, green: Channel, blue: Channel)

  /** The red fallback of `color`: a falsy red channel takes the green one's value. */
  function Normalize(c: Color): Color {
    if ChannelTruthy(c.red) then c else c.(red := c.green)
  }

  /** The classification `color` makes after the fallback: all channels
      exactly 1 is white, all exactly 0 is black, anything else an rgb colour. */
  function ColorOf(c: Color): CssColor {
    var n := Normalize(c);
    if n.red == Some(1.0) && n.green == Some(1.0) && n.blue == Some(1.0) then White
    else if n.red == Some(0.0) && n.green == Some(0.0) && n.blue == Some(0.0) then Black
    else Rgb(n.red, n.green, n.blue)
  }

  /** `x.toPrecision(3)`: JavaScript's number formatting (an opaque function:
      its digits are not part of this model). */
  const ToPrecision3: real -> string

  /** One channel of an `rgb(...)` colour: the percentage as `toPrecision(3)`
      prints it, or `NaN` for a channel the API omitted. */
  function Percent(ch: Channel): string {
    if ch.Some? then ToPrecision3(ch.value * 100.0) else "NaN"
  }

  function CssText(c: CssColor): string {
    match c
    case White => "white"
    case Black => "black"
    case Rgb(r, g, b) =>
      "rgb(" + Percent(r) + "% " + Percent(g) + "% " + Percent(b) + "%)"
  }

  /** `color(gsc)`: the text of the colour. */
  function ColorText(c: Color): string {
    CssText(ColorOf(c))
  }

  /** One declaration of a cell's inline style. */
  datatype Decl = Italic | Bold | LineThrough | Underline | Background(color: CssColor) | Foreground(color: CssColor)

  /** The position of a declaration's kind in the style. */
  function Rank(d: Decl): nat {
    match d
    case Italic => 0
    case Bold => 1
    case LineThrough => 2
    case Underline => 2
    case Background(_) => 3
    case Foreground(_) => 4
  }

  function BackgroundDecls(bg: Option<Color>): seq<Decl> {
    if bg.Some? && ColorOf(bg.value) != White then [Background(ColorOf(bg.value))] else []
  }

  function ForegroundDecls(fg: Option<Color>): seq<Decl> {
    if fg.Some? && ChannelTruthy(fg.value.red) && ColorOf(fg.value) != Black then [Foreground(ColorOf(fg.value))] else []
  }

  /** The declarations the text format alone decides. */
  function FontDecls(tf: TextFormat): seq<Decl> {
    (if tf.italic then [Italic] else [])
    + (if tf.bold then [Bold] else [])
    + (if tf.strikethrough then [LineThrough] else if tf.underline then [Underline] else [])
  }

  /** The declarations of a cell with the given effective format, in the order they are written. */
  function Decls(format: Option<Format>): seq<Decl> {
    if format.None? then []
    else
      var tf := format.value.textFormat;
      FontDecls(tf) + BackgroundDecls(format.value.backgroundColor) + ForegroundDecls(tf.foregroundColor)
  }

  function DeclText(d: Decl): string {
    match d
    case Italic => "font-style:italic;"
    case Bold => "font-weight:bold;"
    case LineThrough => "text-decoration:line-through;"
    case Underline => "text-decoration:underline;"
    case Background(c) => "background-color:" + CssText(c) + ";"
    case Foreground(c) => "color:" + CssText(c) + ";"
  }

  function StyleText(ds: seq<Decl>): string {
    if ds == [] then "" else StyleText(ds[..|ds| - 1]) + DeclText(ds[|ds| - 1])
  }

  /** The `style` attribute, left out when there is no declaration. */
  function StyleAttr(style: string): string {
    if style == "" then "" else " style=\"" + style + "\""
  }

  /** A body cell's content: its formatted value or a non-breaking space,
      wrapped in a link when it has a hyperlink. Nothing is escaped. */
  function CellContent(cell: Cell): string {
    var content := Or(cell.formattedValue, "&nbsp;");
    if Truthy(cell.hyperlink) then "<a href=\"" + cell.hyperlink.value + "\">" + content + "</a>" else content
  }

  function CellHtml(cell: Cell): string {
    "<td" + StyleAttr(StyleText(Decls(cell.effectiveFormat))) + ">" + CellContent(cell) + "</td>"
  }

  function CellsHtml(cells: seq<Cell>): string {
    if cells == [] then "" else CellsHtml(cells[..|cells| - 1]) + CellHtml(cells[|cells| - 1])
  }

  /** The placeholder cell of a row without cells. */
  const EmptyCell: string := "<td class='empty'>&nbsp;</td>"

  function RowHtml(row: Row): string {
    "<tr>" + CellsHtml(row.cells) + (if |row.cells| == 0 then EmptyCell else "") + "</tr>\n"
  }

  function RowsHtml(rows: seq<Row>): string {
    if rows == [] then "" else RowsHtml(rows[..|rows| - 1]) + RowHtml(rows[|rows| - 1])
  }

  /** A header value once trimmed and with its newlines turned into `<br />`. */
  function HeaderLine(s: string): (t: string)
    ensures '\n' !in t
  {
    ReplaceAllFree(Trim(s), '\n', "<br />", '\n');
    ReplaceAll(Trim(s), '\n', "<br />")
  }

  /** The header helper `str` of `toHTML`: the value is normalised by
      `HeaderLine`, then linked. */
  function HeaderCell(s: string): string {
    Linked(HeaderLine(s))
  }

  /** A value starting with `https://` becomes a link; up to its first space
      is the address and the rest the text, and without a space the text is
      the address without its scheme. */
  function Linked(u: string): string {
    if StartsWith(u, "https://") then
      var index := IndexOf(u, ' ');
      if index != -1 then "<a href='" + u[..index] + "'>" + u[index..] + "</a>"
      else "<a href='" + u + "'>" + u[8..] + "</a>"
    else u
  }

  /** Header cells: the header values through `HeaderCell`, or one `&nbsp;`
      per raw value of the first row. */
  function HeaderCells(sheet: Sheet): seq<string> {
    if sheet.headerValues.Some? then HeaderCellsOf(sheet.headerValues.value)
    else Repeat("&nbsp;", ColumnCount(sheet))
  }

  /** `headerValues.map(str)`. */
  function HeaderCellsOf(hv: seq<string>): (r: seq<string>)
    ensures |r| == |hv|
  {
    if hv == [] then [] else HeaderCellsOf(hv[..|hv| - 1]) + [HeaderCell(hv[|hv| - 1])]
  }

  function HeaderRow(sheet: Sheet): string {
    "<th>" + Join(HeaderCells(sheet), "</th><th>") + "</th>\n"
  }

  /** The fixed pieces of a sheet's markup. */
  const HeadingOpen: string := "\n<h2 id='sheetundefined'><a class='self-link' aria-label='ยง' href='#sheet"
  const HeadingLink: string := "'></a>"
  const TableOpen: string := "</h2>\n\n<table><thead><tr>"
  const BodyOpen: string := "</thead>\n<tbody>\n"
  const TableClose: string := "</tbody>\n</table>\n"

  /** The `h2` of a sheet and the opening of its table. The `id` reads a
      property sheets do not have, so it is `sheetundefined` for every sheet,
      while the self-link names the sheet's id. */
  function SheetHeading(sheet: Sheet): string {
    HeadingOpen + IntText(sheet.sheetId) + HeadingLink + sheet.title + TableOpen
  }

  function SheetHead(sheet: Sheet): string {
    SheetHeading(sheet) + HeaderRow(sheet) + BodyOpen
  }

  function SheetHtml(sheet: Sheet): string {
    SheetHead(sheet) + (if sheet.rows.Some? then RowsHtml(sheet.rows.value) else "") + TableClose
  }

  function SheetsHtml(sheets: seq<Sheet>): string {
    if sheets == [] then "" else SheetsHtml(sheets[..|sheets| - 1]) + SheetHtml(sheets[|sheets| - 1])
  }

  /** The fixed `<style>` element of the page (an opaque constant: its text is
      not part of this model). */
  const StyleSheet: string

  /** The fixed SVG logo of the banner (an opaque constant: its text is not
      part of this model). */
  const Logo: string

  /** The content of the `h1`: the logo and the title, or the title alone. */
  function Banner(title: string, options: Option<RenderOptions>): string {
    if ShowsLogo(options) then Logo + "<span  style=\"vertical-align: top\">" + title + "</span>" else title
  }

  /** Everything before the first sheet. */
  function Head(doc: Doc, options: Option<RenderOptions>): string {
    "<html><head><meta charset=utf-8><title>" + doc.title + "</title>\n"
    + StyleSheet + "</head><body>\n" + "<h1>" + Banner(doc.title, options) + "</h1>\n"
  }

  function Footer(spreadsheetId: string): string {
    "<hr><p>Generated from a <a href=\"https://docs.google.com/spreadsheets/d/" + spreadsheetId
    + "/\">google spreadsheet</a>.</p>\n"
  }

  /** The page `toHTML(options)` returns. */
  function Document(doc: Doc, options: Option<RenderOptions>): string {
    Head(doc, options) + SheetsHtml(doc.sheets)
    + (if ShowsSource(options) then Footer(doc.spreadsheetId) else "") + "</body></html>"
  }

  /** `toHTML`, text accumulated piece by piece. */
  method ToHtml(doc: Doc, options: Option<RenderOptions>) returns (text: string)
    requires Renderable(doc)
    ensures text == Document(doc, options)
  {
    text := WriteHead(doc, options);
    text := AppendSheets(text, doc.sheets);
    ghost var body := text;
    if ShowsSource(options) {
      text := text + Footer(doc.spreadsheetId);
    } else {
      assert text == body + "";
    }
    text := text + "</body></html>";
  }

  /** The page up to the end of the `h1`. */
  method WriteHead(doc: Doc, options: Option<RenderOptions>) returns (text: string)
    ensures text == Head(doc, options)
  {
    text := "<html><head><meta charset=utf-8><title>" + doc.title + "</title>\n";
    text := text + StyleSheet;
    text := text + "</head><body>\n";
    text := text + "<h1>";
    if ShowsLogo(options) {
      text := text + (Logo + "<span  style=\"vertical-align: top\">" + doc.title + "</span>");
    } else {
      text := text + doc.title;
    }
    text := text + "</h1>\n";
  }

  /** The loop over the sheets. */
  method AppendSheets(text: string, sheets: seq<Sheet>) returns (result: string)
    requires forall sheet :: sheet in sheets ==> HeaderDefined(sheet)
    ensures result == text + SheetsHtml(sheets)
  {
    result := text;
    var sheetIndex := 0;
    while sheetIndex < |sheets|
      invariant 0 <= sheetIndex <= |sheets|
      invariant result == text + SheetsHtml(sheets[..sheetIndex])
    {
      ghost var before := result;
      result := AppendSheet(result, sheets[sheetIndex]);
      SheetsStep(text, before, result, sheets, sheetIndex);
      sheetIndex := sheetIndex + 1;
    }
    assert sheets[..sheetIndex] == sheets;
  }

  /** The body of the loop over sheets. */
  method AppendSheet(text: string, sheet: Sheet) returns (result: string)
    requires HeaderDefined(sheet)
    ensures result == text + SheetHtml(sheet)
  {
    result := text + SheetHeading(sheet);
    ghost var afterHeading := result;
    result := result + HeaderRow(sheet);
    ghost var afterHeader := result;
    result := result + BodyOpen;
    HeadStep(text, afterHeading, afterHeader, result, sheet);
    ghost var afterHead := result;
    var rowsText := "";
    if sheet.rows.Some? {
      result := AppendRows(result, sheet.rows.value);
      rowsText := RowsHtml(sheet.rows.value);
    } else {
      assert result == afterHead + "";
    }
    ghost var afterRows := result;
    result := result + TableClose;
    TailStep(text, afterHead, afterRows, result, sheet, rowsText);
  }

  lemma HeadStep(text: string, afterHeading: string, afterHeader: string, afterHead: string, sheet: Sheet)
    requires afterHeading == text + SheetHeading(sheet)
    requires afterHeader == afterHeading + HeaderRow(sheet)
    requires afterHead == afterHeader + BodyOpen
    ensures afterHead == text + SheetHead(sheet)
  {
    Assoc(text, SheetHeading(sheet), HeaderRow(sheet));
    Assoc(text, SheetHeading(sheet) + HeaderRow(sheet), BodyOpen);
  }

  lemma TailStep(text: string, afterHead: string, afterRows: string, result: string, sheet: Sheet,
                 rowsText: string)
    requires afterHead == text + SheetHead(sheet)
    requires rowsText == if sheet.rows.Some? then RowsHtml(sheet.rows.value) else ""
    requires afterRows == afterHead + rowsText
    requires result == afterRows + TableClose
    ensures result == text + SheetHtml(sheet)
  {
    Assoc(text, SheetHead(sheet), rowsText);
    Assoc(text, SheetHead(sheet) + rowsText, TableClose);
  }

  /** `sheet.rows.forEach`: one table row per sheet row. */
  method AppendRows(text: string, rows: seq<Row>) returns (result: string)
    ensures result == text + RowsHtml(rows)
  {
    result := text;
    var r := 0;
    while r < |rows|
      invariant 0 <= r <= |rows|
      invariant result == text + RowsHtml(rows[..r])
    {
      ghost var before := result;
      result := AppendRow(result, rows[r]);
      RowsStep(text, before, result, rows, r);
      r := r + 1;
    }
    assert rows[..r] == rows;
  }

  /** The body of `sheet.rows.forEach`: `<tr>`, one `td` per cell (the
      placeholder cell when there is none), `</tr>`. */
  method AppendRow(text: string, row: Row) returns (result: string)
    ensures result == text + RowHtml(row)
  {
    result := text + "<tr>";
    ghost var start := result;
    var cells := row.cells;
    var col := 0;
    while col < |cells|
      invariant 0 <= col <= |cells|
      invariant result == start + CellsHtml(cells[..col])
    {
      var cell := cells[col];
      var style := CellStyle(cell.effectiveFormat);
      var content := Or(cell.formattedValue, "&nbsp;");
      if Truthy(cell.hyperlink) {
        content := "<a href=\"" + cell.hyperlink.value + "\">" + content + "</a>";
      }
      assert content == CellContent(cell);
      assert "<td" + style + ">" + content + "</td>" == CellHtml(cell);
      ghost var before := result;
      result := result + ("<td" + style + ">" + content + "</td>");
      CellsStep(start, before, result, cells, col);
      col := col + 1;
    }
    assert cells[..col] == cells;
    ghost var afterCells := result;
    var placeholder := "";
    if |cells| == 0 {
      result := result + EmptyCell;
      placeholder := EmptyCell;
    } else {
      assert result == afterCells + "";
    }
    ghost var afterPlaceholder := result;
    result := result + "</tr>\n";
    RowStep(text, afterCells, afterPlaceholder, result, row, placeholder);
  }

  lemma RowStep(text: string, afterCells: string, afterPlaceholder: string, result: string, row: Row,
                placeholder: string)
    requires afterCells == text + "<tr>" + CellsHtml(row.cells)
    requires placeholder == if |row.cells| == 0 then EmptyCell else ""
    requires afterPlaceholder == afterCells + placeholder
    requires result == afterPlaceholder + "</tr>\n"
    ensures result == text + RowHtml(row)
  {
    var cells := CellsHtml(row.cells);
    Assoc(text, "<tr>", cells);
    Assoc(text, "<tr>" + cells, placeholder);
    Assoc(text, "<tr>" + cells + placeholder, "</tr>\n");
  }

  /** The `style` attribute of a cell, built declaration by declaration. */
  method CellStyle(format: Option<Format>) returns (style: string)
    ensures style == StyleAttr(StyleText(Decls(format)))
  {
    style := "";
    if format.Some? {
      style := FormatStyle(format.value);
    }
    if style != "" {
      style := " style=\"" + style + "\"";
    }
  }

  /** The declarations of a cell that has an effective format. */
  method FormatStyle(rs: Format) returns (style: string)
    ensures style == StyleText(Decls(Some(rs)))
  {
    ghost var ds: seq<Decl> := [];
    style, ds := AddFontDecls("", ds, rs.textFormat);
    assert ds == FontDecls(rs.textFormat);
    style, ds := AddBackground(style, ds, rs.backgroundColor);
    style, ds := AddForeground(style, ds, rs.textFormat.foregroundColor);
    assert ds == Decls(Some(rs));
  }

  /** The italic, bold and decoration steps: a strikethrough suppresses the underline. */
  method AddFontDecls(style: string, ghost ds: seq<Decl>, tf: TextFormat)
    returns (style': string, ghost ds': seq<Decl>)
    requires style == StyleText(ds)
    ensures ds' == ds + FontDecls(tf)
    ensures style' == StyleText(ds')
  {
    ghost var italic: seq<Decl> := if tf.italic then [Italic] else [];
    ghost var bold: seq<Decl> := if tf.bold then [Bold] else [];
    ghost var decoration: seq<Decl> := if tf.strikethrough then [LineThrough] else if tf.underline then [Underline] else [];
    style', ds' := style, ds;
    if tf.italic {
      style', ds' := AddDecl(style', ds', Italic);
    } else {
      assert ds' == ds + [];
    }
    if tf.bold {
      style', ds' := AddDecl(style', ds', Bold);
    } else {
      assert ds' == ds' + [];
    }
    if tf.strikethrough {
      style', ds' := AddDecl(style', ds', LineThrough);
    } else if tf.underline {
      style', ds' := AddDecl(style', ds', Underline);
    } else {
      assert ds' == ds' + [];
    }
    assert ds' == ds + italic + bold + decoration;
    Assoc(ds, italic, bold);
    Assoc(ds, italic + bold, decoration);
  }

  /** The background step: any background colour but white is written. */
  method AddBackground(style: string, ghost ds: seq<Decl>, bg: Option<Color>)
    returns (style': string, ghost ds': seq<Decl>)
    requires style == StyleText(ds)
    ensures ds' == ds + BackgroundDecls(bg)
    ensures style' == StyleText(ds')
  {
    style', ds' := style, ds;
    if bg.Some? {
      var c := ColorText(bg.value);
      ColorTextNames(bg.value);
      if c != "white" {
        style', ds' := AddDecl(style', ds', Background(ColorOf(bg.value)));
      }
    }
  }

  /** The foreground step: a colour with a truthy red channel is written unless it is black. */
  method AddForeground(style: string, ghost ds: seq<Decl>, fg: Option<Color>)
    returns (style': string, ghost ds': seq<Decl>)
    requires style == StyleText(ds)
    ensures ds' == ds + ForegroundDecls(fg)
    ensures style' == StyleText(ds')
  {
    style', ds' := style, ds;
    if fg.Some? && ChannelTruthy(fg.value.red) {
      var c := ColorText(fg.value);
      ColorTextNames(fg.value);
      if c != "black" {
        style', ds' := AddDecl(style', ds', Foreground(ColorOf(fg.value)));
      }
    }
  }

  /** One `style +=` step, with the declaration it writes. */
  method AddDecl(style: string, ghost ds: seq<Decl>, d: Decl)
    returns (style': string, ghost ds': seq<Decl>)
    requires style == StyleText(ds)
    ensures ds' == ds + [d]
    ensures style' == StyleText(ds')
  {
    style' := style + DeclText(d);
    ds' := ds + [d];
    assert ds'[..|ds'| - 1] == ds;
  }

  lemma SheetsStep(head: string, before: string, after: string, sheets: seq<Sheet>, i: nat)
    requires i < |sheets|
    requires before == head + SheetsHtml(sheets[..i])
    requires after == before + SheetHtml(sheets[i])
    ensures after == head + SheetsHtml(sheets[..i + 1])
  {
    SheetsSnoc(sheets, i);
    Assoc(head, SheetsHtml(sheets[..i]), SheetHtml(sheets[i]));
  }

  lemma SheetsSnoc(sheets: seq<Sheet>, i: nat)
    requires i < |sheets|
    ensures SheetsHtml(sheets[..i + 1]) == SheetsHtml(sheets[..i]) + SheetHtml(sheets[i])
  {
    var prefix := sheets[..i + 1];
    assert prefix[..i] == sheets[..i];
    assert prefix[i] == sheets[i];
  }

  lemma RowsStep(head: string, before: string, after: string, rows: seq<Row>, i: nat)
    requires i < |rows|
    requires before == head + RowsHtml(rows[..i])
    requires after == before + RowHtml(rows[i])
    ensures after == head + RowsHtml(rows[..i + 1])
  {
    RowsSnoc(rows, i);
    Assoc(head, RowsHtml(rows[..i]), RowHtml(rows[i]));
  }

  lemma RowsSnoc(rows: seq<Row>, i: nat)
    requires i < |rows|
    ensures RowsHtml(rows[..i + 1]) == RowsHtml(rows[..i]) + RowHtml(rows[i])
  {
    var prefix := rows[..i + 1];
    assert prefix[..i] == rows[..i];
    assert prefix[i] == rows[i];
  }

  lemma CellsStep(head: string, before: string, after: string, cells: seq<Cell>, i: nat)
    requires i < |cells|
    requires before == head + CellsHtml(cells[..i])
    requires after == before + CellHtml(cells[i])
    ensures after == head + CellsHtml(cells[..i + 1])
  {
    CellsSnoc(cells, i);
    Assoc(head, CellsHtml(cells[..i]), CellHtml(cells[i]));
  }

  lemma CellsSnoc(cells: seq<Cell>, i: nat)
    requires i < |cells|
    ensures CellsHtml(cells[..i + 1]) == CellsHtml(cells[..i]) + CellHtml(cells[i])
  {
    var prefix := cells[..i + 1];
    assert prefix[..i] == cells[..i];
    assert prefix[i] == cells[i];
  }

  /** Comparing the text of a colour with `white` or `black`, as the source
      does, is the same as comparing its classification. */
  lemma ColorTextNames(c: Color)
    ensures ColorText(c) == "white" <==> ColorOf(c) == White
    ensures ColorText(c) == "black" <==> ColorOf(c) == Black
  {
    var t := ColorText(c);
    if ColorOf(c).Rgb? {
      assert t[0] == 'r';
    }
  }

  /** The classification after the red fallback: `{green: 1, blue: 1}` with
      no red is white, and an omitted or zero red channel borrows green's value. */
  lemma ColorRules(c: Color)
    ensures ColorOf(c) == White
            <==> c.green == Some(1.0) && c.blue == Some(1.0) && (c.red == Some(1.0) || !ChannelTruthy(c.red))
    ensures ColorOf(c) == Black
            <==> c.green == Some(0.0) && c.blue == Some(0.0) && (c.red == Some(0.0) || c.red == None)
    ensures ColorOf(c).Rgb? ==>
              ColorOf(c) == Rgb(if ChannelTruthy(c.red) then c.red else c.green, c.green, c.blue)
  {
  }

  /** `color` writes the fallback back into its argument; the write-back is
      harmless, because a colour that went through it classifies the same,
      and a format whose background went through it gets the same
      declarations when it is rendered again. */
  lemma NormalizeIdempotent(c: Color, tf: TextFormat)
    ensures Normalize(Normalize(c)) == Normalize(c)
    ensures ColorOf(Normalize(c)) == ColorOf(c)
    ensures Decls(Some(Format(tf, Some(Normalize(c))))) == Decls(Some(Format(tf, Some(c))))
  {
  }

  predicate HasBackground(ds: seq<Decl>) {
    exists d :: d in ds && d.Background?
  }

  predicate HasForeground(ds: seq<Decl>) {
    exists d :: d in ds && d.Foreground?
  }

  /** Declarations in strictly increasing rank: a fixed order, at most one of each kind. */
  predicate Ordered(ds: seq<Decl>) {
    forall i, j :: 0 <= i < j < |ds| ==> Rank(ds[i]) < Rank(ds[j])
  }

  lemma OrderedAppend(a: seq<Decl>, b: seq<Decl>, k: nat)
    requires Ordered(a) && Ordered(b)
    requires forall d :: d in a ==> Rank(d) < k
    requires forall d :: d in b ==> k <= Rank(d)
    ensures Ordered(a + b)
  {
    var ab := a + b;
    forall i, j | 0 <= i < j < |ab|
      ensures Rank(ab[i]) < Rank(ab[j])
    {
      if i < |a| && |a| <= j {
        assert ab[i] == a[i] && a[i] in a;
        assert ab[j] == b[j - |a|] && b[j - |a|] in b;
      }
    }
  }

  /** The font part: italic, bold, then one decoration, where a
      strikethrough suppresses the underline. */
  lemma FontRules(tf: TextFormat)
    ensures Italic in FontDecls(tf) <==> tf.italic
    ensures Bold in FontDecls(tf) <==> tf.bold
    ensures LineThrough in FontDecls(tf) <==> tf.strikethrough
    ensures Underline in FontDecls(tf) <==> tf.underline && !tf.strikethrough
  {
    var i: seq<Decl> := if tf.italic then [Italic] else [];
    var b: seq<Decl> := if tf.bold then [Bold] else [];
    var c: seq<Decl> := if tf.strikethrough then [LineThrough] else if tf.underline then [Underline] else [];
    assert FontDecls(tf) == i + b + c;
    assert forall d :: d in i + b + c <==> d in i || d in b || d in c;
  }

  /** The font part comes first, in its fixed order. */
  lemma FontOrder(tf: TextFormat)
    ensures forall d :: d in FontDecls(tf) ==> Rank(d) <= 2
    ensures Ordered(FontDecls(tf))
  {
    var i: seq<Decl> := if tf.italic then [Italic] else [];
    var b: seq<Decl> := if tf.bold then [Bold] else [];
    var c: seq<Decl> := if tf.strikethrough then [LineThrough] else if tf.underline then [Underline] else [];
    assert FontDecls(tf) == i + b + c;
    OrderedAppend(i, b, 1);
    OrderedAppend(i + b, c, 2);
    forall d | d in i + b + c
      ensures Rank(d) <= 2
    {
      assert d in i || d in b || d in c;
    }
  }

  /** A formatted cell's declarations are its font, background and
      foreground parts, and nothing else. */
  lemma DeclsParts(format: Format)
    ensures forall d :: d in Decls(Some(format)) <==>
              d in FontDecls(format.textFormat) || d in BackgroundDecls(format.backgroundColor)
              || d in ForegroundDecls(format.textFormat.foregroundColor)
  {
    var tf := format.textFormat;
    assert Decls(Some(format)) == FontDecls(tf) + BackgroundDecls(format.backgroundColor) + ForegroundDecls(tf.foregroundColor);
  }

  /** Which font declarations a formatted cell gets. */
  lemma DeclsFont(format: Format)
    ensures var ds := Decls(Some(format));
            var tf := format.textFormat;
            && (Italic in ds <==> tf.italic)
            && (Bold in ds <==> tf.bold)
            && (LineThrough in ds <==> tf.strikethrough)
            && (Underline in ds <==> tf.underline && !tf.strikethrough)
  {
    DeclsParts(format);
    FontRules(format.textFormat);
  }

  /** The font part holds no colour. */
  lemma FontPlain(tf: TextFormat)
    ensures forall d :: d in FontDecls(tf) ==> !d.Background? && !d.Foreground?
  {
    FontOrder(tf);
  }

  /** A formatted cell gets a background declaration exactly when it has a
      background that is not white. */
  lemma DeclsBackground(format: Format)
    ensures HasBackground(Decls(Some(format)))
            <==> format.backgroundColor.Some? && ColorOf(format.backgroundColor.value) != White
  {
    var bg := BackgroundDecls(format.backgroundColor);
    DeclsParts(format);
    FontPlain(format.textFormat);
    if bg != [] {
      assert bg[0] in Decls(Some(format));
    }
  }

  /** A formatted cell gets a foreground declaration exactly when its text
      colour has a truthy red channel and is not black. */
  lemma DeclsForeground(format: Format)
    ensures var fg := format.textFormat.foregroundColor;
            HasForeground(Decls(Some(format)))
            <==> fg.Some? && ChannelTruthy(fg.value.red) && ColorOf(fg.value) != Black
  {
    var fg := ForegroundDecls(format.textFormat.foregroundColor);
    DeclsParts(format);
    FontPlain(format.textFormat);
    if fg != [] {
      assert fg[0] in Decls(Some(format));
    }
  }

  /** The colours written are the classified ones, and a cell without an
      effective format has no declaration. */
  lemma DeclsColors(format: Option<Format>)
    ensures format.None? ==> Decls(format) == []
    ensures forall d :: d in Decls(format) && d.Background? ==> d.color == ColorOf(format.value.backgroundColor.value)
    ensures forall d :: d in Decls(format) && d.Foreground? ==> d.color == ColorOf(format.value.textFormat.foregroundColor.value)
  {
    if format.Some? {
      FontOrder(format.value.textFormat);
    }
  }

  /** Declarations appear in a fixed order, at most one of each kind (so never
      both a line-through and an underline). */
  lemma DeclsOrder(format: Option<Format>)
    ensures Ordered(Decls(format))
  {
    if format.Some? {
      var tf := format.value.textFormat;
      var font := FontDecls(tf);
      var bg := BackgroundDecls(format.value.backgroundColor);
      var fg := ForegroundDecls(tf.foregroundColor);
      FontOrder(tf);
      OrderedAppend(font, bg, 3);
      OrderedAppend(font + bg, fg, 4);
      assert Decls(format) == font + bg + fg;
    }
  }

  /** The `style` attribute is left out exactly when there is no declaration. */
  lemma {:induction false} StyleEmpty(ds: seq<Decl>)
    ensures StyleAttr(StyleText(ds)) == "" <==> ds == []
    ensures StyleText(ds) == "" <==> ds == []
  {
    if ds != [] {
      StyleEmpty(ds[..|ds| - 1]);
      var d := ds[|ds| - 1];
      assert |DeclText(d)| > 0;
    }
  }

  /** A character absent from `u` is absent from every slice of it. */
  lemma SliceFree(u: string, c: char, i: int, j: int)
    requires c !in u
    requires 0 <= i <= j <= |u|
    ensures c !in u[i..j]
  {
    assert forall k :: 0 <= k < j - i ==> u[i..j][k] == u[i + k];
  }

  /** A header cell never holds a newline, so the header row is one line. */
  lemma HeaderCellOneLine(s: string)
    ensures '\n' !in HeaderCell(s)
  {
    var u := HeaderLine(s);
    if StartsWith(u, "https://") {
      var index := IndexOf(u, ' ');
      if index != -1 {
        SliceFree(u, '\n', 0, index);
        SliceFree(u, '\n', index, |u|);
        assert u[index..] == u[index..|u|];
        LinkOneLine(u[..index], u[index..]);
      } else {
        SliceFree(u, '\n', 8, |u|);
        assert u[8..] == u[8..|u|];
        LinkOneLine(u, u[8..]);
      }
    }
  }

  /** A link built from one-line address and text is one line. */
  lemma LinkOneLine(address: string, text: string)
    requires '\n' !in address && '\n' !in text
    ensures '\n' !in "<a href='" + address + "'>" + text + "</a>"
  {
  }

  /** The first space of a value starting with `https://` comes after the scheme. */
  lemma SpaceAfterScheme(u: string)
    requires StartsWith(u, "https://")
    ensures IndexOf(u, ' ') == -1 || IndexOf(u, ' ') >= 8
  {
    forall k | 0 <= k < 8
      ensures u[k] != ' '
    {
      assert u[k] == u[..8][k];
    }
  }

  /** A header value `u` starting with `https://` (once trimmed, with its
      newlines as `<br />`) becomes a link: its address is `u` up to its first
      space, which lies after the scheme, and its text the rest of `u` from
      that space on; without a space the address is all of `u` and the text
      `u` without the scheme. Any other value is written as `u`. */
  lemma HeaderCellLink(s: string)
    ensures StartsWith(HeaderLine(s), "https://") ==> StartsWith(HeaderCell(s), "<a href='https://")
    ensures var u := HeaderLine(s);
            var index := IndexOf(u, ' ');
            StartsWith(u, "https://") && index != -1 ==>
              && 8 <= index && u[index] == ' ' && ' ' !in u[..index]
              && u[..index] + u[index..] == u
              && HeaderCell(s) == "<a href='" + u[..index] + "'>" + u[index..] + "</a>"
    ensures var u := HeaderLine(s);
            StartsWith(u, "https://") && IndexOf(u, ' ') == -1 ==>
              && ' ' !in u && u[..8] + u[8..] == u
              && HeaderCell(s) == "<a href='" + u + "'>" + u[8..] + "</a>"
    ensures !StartsWith(HeaderLine(s), "https://") ==> HeaderCell(s) == HeaderLine(s)
  {
    LinkedRule(HeaderLine(s));
  }

  /** `Linked` on a normalised value, as `HeaderCellLink` states it. */
  lemma LinkedRule(u: string)
    ensures StartsWith(u, "https://") ==> StartsWith(Linked(u), "<a href='https://")
    ensures var index := IndexOf(u, ' ');
            StartsWith(u, "https://") && index != -1 ==>
              && 8 <= index && u[index] == ' ' && ' ' !in u[..index]
              && u[..index] + u[index..] == u
              && Linked(u) == "<a href='" + u[..index] + "'>" + u[index..] + "</a>"
    ensures StartsWith(u, "https://") && IndexOf(u, ' ') == -1 ==>
              && ' ' !in u && u[..8] + u[8..] == u
              && Linked(u) == "<a href='" + u + "'>" + u[8..] + "</a>"
    ensures !StartsWith(u, "https://") ==> Linked(u) == u
  {
    if StartsWith(u, "https://") {
      if IndexOf(u, ' ') != -1 {
        LinkedAtSpace(u);
      } else {
        LinkedWhole(u);
      }
    }
  }

  lemma LinkedAtSpace(u: string)
    requires StartsWith(u, "https://") && IndexOf(u, ' ') != -1
    ensures var index := IndexOf(u, ' ');
            && 8 <= index && u[index] == ' ' && ' ' !in u[..index]
            && u[..index] + u[index..] == u
            && Linked(u) == "<a href='" + u[..index] + "'>" + u[index..] + "</a>"
            && StartsWith(Linked(u), "<a href='https://")
  {
    SpaceAfterScheme(u);
    var index := IndexOf(u, ' ');
    var href := u[..index];
    assert StartsWith(href, "https://") by {
      assert href[..8] == u[..8];
    }
    LinkPrefix(href, u[index..]);
  }

  lemma LinkedWhole(u: string)
    requires StartsWith(u, "https://") && IndexOf(u, ' ') == -1
    ensures && ' ' !in u && u[..8] + u[8..] == u
            && Linked(u) == "<a href='" + u + "'>" + u[8..] + "</a>"
            && StartsWith(Linked(u), "<a href='https://")
  {
    LinkPrefix(u, u[8..]);
  }

  lemma LinkPrefix(href: string, rest: string)
    requires StartsWith(href, "https://")
    ensures StartsWith("<a href='" + href + "'>" + rest + "</a>", "<a href='https://")
  {
    StartsWithPrepend("<a href='", href, "https://");
    StartsWithAppend("<a href='" + href, "'>", "<a href='https://");
    StartsWithAppend("<a href='" + href + "'>", rest, "<a href='https://");
    StartsWithAppend("<a href='" + href + "'>" + rest, "</a>", "<a href='https://");
  }

  lemma {:induction false} HeaderCellsOneLine(hv: seq<string>)
    ensures forall k :: 0 <= k < |hv| ==> '\n' !in HeaderCellsOf(hv)[k]
  {
    if hv != [] {
      HeaderCellsOneLine(hv[..|hv| - 1]);
      HeaderCellOneLine(hv[|hv| - 1]);
    }
  }

  /** The header row has one cell per column and ends the only line it takes. */
  lemma HeaderRowShape(sheet: Sheet)
    ensures |HeaderCells(sheet)| == ColumnCount(sheet)
    ensures Count(HeaderRow(sheet), '\n') == 1
  {
    var cells := HeaderCells(sheet);
    if sheet.headerValues.Some? {
      HeaderCellsOneLine(sheet.headerValues.value);
    } else {
      RepeatElements("&nbsp;", ColumnCount(sheet));
    }
    JoinFree(cells, "</th><th>", '\n');
    RowLineCount(Join(cells, "</th><th>"));
  }

  lemma RowLineCount(joined: string)
    requires '\n' !in joined
    ensures Count("<th>" + joined + "</th>\n", '\n') == 1
  {
    CountAppend("<th>", joined, '\n');
    CountAppend("<th>" + joined, "</th>\n", '\n');
    assert Count("</th>\n", '\n') == 1;
  }

  /** The self-link of a sheet's heading never targets the heading: the
      heading's `id` is `sheetundefined`, the link names `sheet` and a number. */
  lemma SelfLinkDangling(sheet: Sheet)
    ensures "sheet" + IntText(sheet.sheetId) != "sheetundefined"
  {
    var t := IntText(sheet.sheetId);
    assert t[0] == '-' || '0' <= t[0] <= '9' by {
      if sheet.sheetId >= 0 {
        assert t[0] in NatText(sheet.sheetId);
      }
    }
    assert ("sheet" + t)[5] == t[0];
    assert "sheetundefined"[5] == 'u';
  }

  /** The options only decide the banner and the footer: two options that
      agree on showing the logo and the source give the same page. The banner
      is the bare title exactly when `nologo` is `false`, and options with
      neither `nologo` nor `nosource` exactly `false` give the page of no
      options at all. */
  lemma OptionsRule(doc: Doc, a: Option<RenderOptions>, b: Option<RenderOptions>)
    ensures ShowsLogo(a) <==> !(a.Some? && a.value.nologo == Some(false))
    ensures ShowsSource(a) <==> !(a.Some? && a.value.nosource == Some(false))
    ensures ShowsLogo(a) == ShowsLogo(b) && ShowsSource(a) == ShowsSource(b) ==>
              Document(doc, a) == Document(doc, b)
    ensures Banner(doc.title, a) == doc.title <==> a.Some? && a.value.nologo == Some(false)
    ensures !(a.Some? && a.value.nologo == Some(false)) && !(a.Some? && a.value.nosource == Some(false)) ==>
              Document(doc, a) == Document(doc, None)
  {
    if ShowsLogo(a) {
      assert |Banner(doc.title, a)| > |doc.title|;
    }
    if ShowsLogo(a) && ShowsSource(a) {
      assert Banner(doc.title, a) == Banner(doc.title, None);
      assert Head(doc, a) == Head(doc, None);
    }
    if ShowsLogo(a) == ShowsLogo(b) && ShowsSource(a) == ShowsSource(b) {
      assert Banner(doc.title, a) == Banner(doc.title, b);
      assert Head(doc, a) == Head(doc, b);
    }
  }
}
