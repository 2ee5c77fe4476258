/** The "enhanced" spreadsheet document the renderers read: the loaded
    spreadsheet (title, id, sheets), each sheet's header row and rows, and each
    row's cells as the Sheets API returns them (formatted value, hyperlink,
    effective format). JavaScript's `undefined` is `None`; its truthiness rules
    are spelled out by the predicates below. */
module SheetModel {
  import opened Wrappers

  /** A colour channel as the Sheets API sends it: omitted, or a number in [0, 1]. */
  type Channel = Option<real>

  datatype Color = Color(red: Channel, green: Channel, blue: Channel)

  datatype TextFormat = TextFormat(
    bold: bool,
    italic: bool,
    strikethrough: bool,
    underline: bool,
    foregroundColor: Option<Color>)

  /** A cell's `effectiveFormat`. */
  datatype Format = Format(textFormat: TextFormat, backgroundColor: Option<Color>)

  /** A cell's raw data (`cell._rawData`). */
  datatype Cell = Cell(
    formattedValue: Option<string>,
    hyperlink: Option<string>,
    effectiveFormat: Option<Format>)

  /** A row from `getRows()`: its 1-based row number, its raw values, its own
      header names when it has them, the values its getter `row[header]`
      returns, and the cells attached during assembly. */
  datatype Row = Row(
    rowNumber: int,
    rawData: Option<seq<string>>,
    headerValues: Option<seq<string>>,
    fields: map<string, string>,
    cells: seq<Cell>)

  datatype Sheet = Sheet(
    title: string,
    sheetId: int,
    headerValues: Option<seq<string>>,
    rows: Option<seq<Row>>)

  /** `sheetCount` is `|sheets|` and `sheetsByIndex[i]` is `sheets[i]`. */
  datatype Doc = Doc(title: string, spreadsheetId: string, sheets: seq<Sheet>)

  /** The `options` object of a configuration entry. A non-boolean value of a
      key behaves as `None`: only the boolean `false` is ever compared against. */
  datatype RenderOptions = RenderOptions(nosource: Option<bool>, nologo: Option<bool>)

  /** JavaScript truthiness of an optional string. */
  predicate Truthy(s: Option<string>) {
    s.Some? && s.value != ""
  }

  /** `s || fallback`. */
  function Or(s: Option<string>, fallback: string): string {
    if Truthy(s) then s.value else fallback
  }

  /** JavaScript truthiness of a colour channel (NaN never comes from the API). */
  predicate ChannelTruthy(ch: Channel) {
    ch.Some? && ch.value != 0.0
  }

  /** `!options || options.nosource !== false`: the source footer is shown. */
  predicate ShowsSource(options: Option<RenderOptions>) {
    options.None? || options.value.nosource != Some(false)
  }

  /** `!options || options.nologo !== false`: the logo is shown. */
  predicate ShowsLogo(options: Option<RenderOptions>) {
    options.None? || options.value.nologo != Some(false)
  }

  /** The Markdown and HTML renderers take the header row from `headerValues`
      and otherwise dereference `rows[0]._rawData`: a sheet without header
      values must have a first row with raw data. */
  predicate HeaderDefined(sheet: Sheet) {
    sheet.headerValues.Some?
    || (sheet.rows.Some? && |sheet.rows.value| > 0 && sheet.rows.value[0].rawData.Some?)
  }

  /** The number of header cells the Markdown and HTML renderers emit when
      `HeaderDefined(sheet)` holds (the renderers are never run otherwise). */
  function ColumnCount(sheet: Sheet): nat {
    if sheet.headerValues.Some? then |sheet.headerValues.value|
    else if HeaderDefined(sheet) then |sheet.rows.value[0].rawData.value|
    else 0
  }

  predicate Renderable(doc: Doc) {
    forall i :: 0 <= i < |doc.sheets| ==> HeaderDefined(doc.sheets[i])
  }
}
