# gsheets snapshots, modelled in Dafny

gsheets copies Google spreadsheets into GitHub repositories. It reads a list of
entries. Each entry gives a spreadsheet id (or link), one or more locations and
rendering options. For each entry it loads the spreadsheet, renders it as
Markdown, HTML or JSON according to each location's extension, and writes the
text to the GitHub file that the location names.

This project models the deterministic core around the Google and GitHub calls:

- `SheetModel` (`sheet_model.dfy`): the loaded document. A document has sheets,
  a sheet has rows, a row has cells, and a cell has a formatted value, a
  hyperlink and an effective format. The module also holds the JavaScript
  truthiness the renderers test, and the rendering options.
- `Markdown` (`markdown.dfy`): `toMarkdown`. The `ToMarkdown` method keeps the
  source's loops. It is proved equal to the function `Text`, and the lemmas
  are about `Text`.
- `Html` (`html.dfy`): `toHTML`, with its header helper `str` and its `color`
  classification. The `ToHtml` method is proved equal to `Document`, and the
  per-cell style is proved equal to `StyleText(Decls(format))`.
- `JsonRecord` (`json_record.dfy`): `toJSON`. It builds the record, not its
  printed text.
- `Assembly` (`assembly.dfy`): two steps of `fetch_spreadsheet`. One extracts
  the spreadsheet key from a link. The other builds `row.cells` from the loaded
  cell grid.
- `Encoding` (`encoding.dfy`): UTF-8 and base64 (section 4 of RFC 4648), used
  for the content of a write.
- `GitHub` (`github.js` → `github.dfy`): the `Repository` class (its
  constructor and the `createContent` decision), and the `w3c.json` group
  normalisation as a class that updates its record in place.
- `Locations` (`locations.dfy`): the `GH` pattern, searched through a location
  the way `String.prototype.match` does.
- `Router` (`router.dfy`): `save_spreadsheet` and `run`. `Save` takes one
  location to a rejection, an invalid-location log or a write. `ReportOf`
  classifies the settled write. The `Run` method, with its `continue`s and its
  fan-out loop, is proved equal to `Plan` over the entries it gets through
  before a rejected save ends the process.

Where the project's documentation and its code disagree, the model follows the code:

- The option keys are lowercase: `nosource` and `nologo`. Only the boolean
  `false` suppresses the footer or the logo. A `noSource: false` key therefore
  leaves the footer in place.
- The JSON key is `sheedId`.
- The HTML heading's id reads the missing `sheet.sheedId`, so every heading's id
  is `sheetundefined`. The self-link points at `#sheet<sheetId>`.
- A foreground colour is written only when its red channel is truthy and the
  colour is not black. A falsy red channel is replaced by the green one before
  white or black is decided.
- Only `null` ids and locations are rejected as invalid entries.
  - A missing id makes the load reject, so that entry is skipped as not loaded.
  - A missing or non-string location makes the save's promise reject.
- A location that does not start with `https://github.com/` is logged as
  invalid and never written. This includes a local path with a known
  extension.
- The `GH` pattern is not anchored. The `.` in `github.com` matches any
  character except a line terminator.
- Any status other than 200 or 201 is reported as unexpected. A failed read or
  write is reported as an error.

## Model

| member | source | states |
|---|---|---|
| Markdown.Escape | src/lib/spreadsheet.js:9 | escaped text contains no `\|` and no newline |
| Markdown.EscapeSpec | src/lib/spreadsheet.js:9 | escaping works character by character: `\|` becomes `--`, a newline becomes `<br />`, every other character is kept |
| Markdown.EscapedCellsFree | src/lib/spreadsheet.js:16 | every escaped header cell is free of `\|` |
| Markdown.ToMarkdown | src/lib/spreadsheet.js:8-40 | the loops build exactly `Text(doc, options)`: the title, then per sheet its heading, header row, separator row and body rows, then the footer |
| Markdown.AppendSheet | src/lib/spreadsheet.js:13-34 | one pass of the sheet loop appends exactly that sheet's text |
| Markdown.AppendRows | src/lib/spreadsheet.js:22-34 | the row loop appends the rows' text in order |
| Markdown.AppendRow | src/lib/spreadsheet.js:24-32 | the cell loop appends one `\| content ` per cell, then ` \|` and a newline |
| Markdown.TableLinePipes | src/lib/spreadsheet.js:16-20 | a table line of `n` pipe-free cells holds `n + 1` pipes (2 when empty) |
| Markdown.HeaderColumns | src/lib/spreadsheet.js:15-20 | header and separator rows have the same number of columns: `headerValues.length`, or else `rows[0]._rawData.length` |
| Markdown.CellPipes | src/lib/spreadsheet.js:24-30 | a body cell contributes one `\|` of its own; the rest come only from an unescaped hyperlink |
| Markdown.RowPipes | src/lib/spreadsheet.js:23-33 | a body row's pipes are one per cell, plus the closing one, plus those inside hyperlinks |
| Markdown.CellsPipes | src/lib/spreadsheet.js:24-31 | the cells of a row contribute one pipe each, plus those inside hyperlinks |
| Markdown.FooterRule | src/lib/spreadsheet.js:36-38 | the footer is written unless the options exist and `nosource` is exactly `false`; otherwise the text is the same |
| Html.HeaderLine | src/lib/spreadsheet.js:83 | a trimmed header with its newlines replaced holds no newline |
| Html.HeaderCellsOf | src/lib/spreadsheet.js:124 | one header cell per header value |
| Html.HeaderCellOneLine | src/lib/spreadsheet.js:82-93 | a rendered header cell, link or not, holds no newline |
| Html.SpaceAfterScheme | src/lib/spreadsheet.js:84-87 | in a text starting with `https://`, the first space, if any, comes after the scheme |
| Html.HeaderCellLink | src/lib/spreadsheet.js:82-92 | after trimming and turning newlines into `<br />`, a value starting with `https://` becomes a link: the address runs up to the first space, which lies after the scheme, and the text is the rest from that space on; without a space the address is the whole value and the text the value without `https://`; any other value is written as normalised |
| Html.HeaderCellsOneLine | src/lib/spreadsheet.js:124 | no rendered header cell holds a newline |
| Html.HeaderRowShape | src/lib/spreadsheet.js:123-127 | the header row has one cell per column and is exactly one line |
| Html.ToHtml | src/lib/spreadsheet.js:81-195 | the statements and loops build exactly `Document(doc, options)` |
| Html.WriteHead | src/lib/spreadsheet.js:94-119 | the head, style sheet and `h1` banner, with or without the logo |
| Html.AppendSheets | src/lib/spreadsheet.js:120-189 | the sheet loop appends every sheet's table in order |
| Html.AppendSheet | src/lib/spreadsheet.js:121-188 | one sheet: heading, header row, body, table close |
| Html.AppendRows | src/lib/spreadsheet.js:129-187 | the row loop appends every row in order |
| Html.AppendRow | src/lib/spreadsheet.js:130-186 | one `<tr>` with a `<td>` per cell, or the single empty placeholder cell when there are no cells |
| Html.CellStyle | src/lib/spreadsheet.js:134-175 | the inline style attribute is the declarations of the cell's format, or nothing when it has none |
| Html.FormatStyle | src/lib/spreadsheet.js:136-172 | the style text of a present format is its font, background and foreground declarations, in that order |
| Html.AddFontDecls | src/lib/spreadsheet.js:137-147 | appends the italic, bold and strikethrough-or-underline declarations |
| Html.AddBackground | src/lib/spreadsheet.js:160-165 | appends the background declaration |
| Html.AddForeground | src/lib/spreadsheet.js:166-171 | appends the foreground declaration |
| Html.ColorTextNames | src/lib/spreadsheet.js:148-159 | the colour text is `white` or `black` exactly when the colour is classified so |
| Html.ColorRules | src/lib/spreadsheet.js:148-159 | white iff green and blue are 1 and red is 1 or falsy; black iff green and blue are 0 and red is 0 or missing; otherwise rgb with the falsy red replaced by green |
| Html.NormalizeIdempotent | src/lib/spreadsheet.js:149-151 | writing green into a falsy red is idempotent and does not change the classification, and a format whose background went through the write gets the same declarations when rendered again |
| Html.FontRules | src/lib/spreadsheet.js:137-147 | italic, bold and strikethrough each appear iff set; underline appears iff set and strikethrough is not |
| Html.FontOrder | src/lib/spreadsheet.js:137-147 | font declarations come in source order |
| Html.DeclsParts | src/lib/spreadsheet.js:136-171 | a cell's declarations are exactly its font, background and foreground ones |
| Html.DeclsFont | src/lib/spreadsheet.js:137-147 | strikethrough suppresses underline in a cell's style |
| Html.FontPlain | src/lib/spreadsheet.js:137-147 | font declarations are never colours |
| Html.DeclsBackground | src/lib/spreadsheet.js:160-165 | a background is written iff one is present and it is not white |
| Html.DeclsForeground | src/lib/spreadsheet.js:166-171 | a foreground is written iff one is present, its red is truthy and it is not black |
| Html.DeclsColors | src/lib/spreadsheet.js:160-171 | no format means no declarations; written colours are the classified ones |
| Html.DeclsOrder | src/lib/spreadsheet.js:136-171 | declarations come in source order: font, then background, then foreground |
| Html.StyleEmpty | src/lib/spreadsheet.js:173-175 | the style attribute is empty iff there are no declarations |
| Html.SelfLinkDangling | src/lib/spreadsheet.js:122 | the self-link target never equals the heading id `sheetundefined` |
| Html.OptionsRule | src/lib/spreadsheet.js:99-192 | the `h1` holds the bare title, without the logo, exactly when the options exist and `nologo` is `false`; options in which neither `nologo` nor `nosource` is exactly `false` give the same page as no options; the page depends on the options only through the logo and footer choices |
| JsonRecord.ToJson | src/lib/spreadsheet.js:42-78 | the loops build exactly the record `Record(doc)` |
| JsonRecord.RowsOf | src/lib/spreadsheet.js:54-65 | `rows` has one list per row |
| JsonRecord.CellValues | src/lib/spreadsheet.js:55-64 | the display value of each cell, in order |
| JsonRecord.DataOf | src/lib/spreadsheet.js:66-73 | `data` has one object per row |
| JsonRecord.ObjectFor | src/lib/spreadsheet.js:67-72 | the object built by the header loop |
| JsonRecord.RowValuesShape | src/lib/spreadsheet.js:56-63 | an output row has one entry per cell: the hyperlink when truthy, else the formatted value, else `""` |
| JsonRecord.RowsValuesShape | src/lib/spreadsheet.js:54-65 | `rows[i]` is computed from row `i`'s cells alone |
| JsonRecord.RowsDataShape | src/lib/spreadsheet.js:66-73 | `data[i]` is computed from row `i`'s headers and fields alone |
| JsonRecord.ObjectKeys | src/lib/spreadsheet.js:68-71 | `data[i]`'s keys are exactly the non-empty header names, each bound to the row's value |
| JsonRecord.SheetsRecordAppend | src/lib/spreadsheet.js:47-76 | sheet order is kept |
| JsonRecord.SheetKept | src/lib/spreadsheet.js:53-75 | a sheet is dropped iff its rows are absent; an empty row list is kept |
| JsonRecord.SheetsRecordCount | src/lib/spreadsheet.js:47-76 | the record has as many sheets as the document has sheets with rows |
| JsonRecord.SheetsAllKept | src/lib/spreadsheet.js:47-76 | when every sheet has rows, record `i` is sheet `i`'s |
| Assembly.ExtractIdRule | src/lib/spreadsheet.js:199-206 | a non-link id is kept; a link yields the `/`-free text after the prefix, up to the first `/` |
| Assembly.ExtractIdOfLink | src/lib/spreadsheet.js:199-206 | the key of a link with or without a trailing path is read back |
| Assembly.ExtractIdIdempotent | src/lib/spreadsheet.js:199-206 | extracting twice is extracting once |
| Assembly.AttachCells | src/lib/spreadsheet.js:224-230 | the loop fetching each cell builds exactly `Attached(grid, row)` |
| Assembly.CellsFromFails | src/lib/spreadsheet.js:226-229 | the first cell that is not loaded makes the row fail |
| Assembly.CellsFromRule | src/lib/spreadsheet.js:226-229 | the cells load iff every position is in the grid; cell `k` is the grid's cell at `(rowNumber - 1, k)` |
| Assembly.AttachedRule | src/lib/spreadsheet.js:223-231 | a row without raw data gets no cells; otherwise one cell per raw value, nothing else changes |
| Assembly.AttachAll | src/lib/spreadsheet.js:223-232 | the row map builds exactly `AttachedRows(grid, rows)` |
| Assembly.RowsFail | src/lib/spreadsheet.js:223-232 | after a failing row, the result stays that failure |
| Assembly.AttachedRowsRule | src/lib/spreadsheet.js:223-232 | on success, row `k` is row `k` with its cells attached |
| Assembly.Assemble | src/lib/spreadsheet.js:218-239 | the document loads iff every sheet assembles, and then it holds the assembled sheets |
| Assembly.SheetsFail | src/lib/spreadsheet.js:219-236 | after a failing sheet, the result stays that failure |
| Assembly.AssembledSheetsRule | src/lib/spreadsheet.js:219-236 | on success, sheet `k` is sheet `k` with its rows attached |
| Encoding.Utf8RoundTrip | src/lib/github.js:56 | decoding the UTF-8 bytes of a text gives the text back |
| Encoding.Base64RoundTrip | src/lib/github.js:56 | decoding the base64 text of bytes gives the bytes back |
| Encoding.ContentRoundTrip | src/lib/github.js:56 | the written content decodes back to the text |
| GitHub.Repository.constructor | src/lib/github.js:8-14 | `full_name` is the input, `owner` and `name` its first two `/`-separated parts, `ttl` as given |
| GitHub.RepositoryNames | src/lib/github.js:10-12 | the owner is the text before the first `/`; the name is the text between the first and second `/`, absent without a `/` |
| GitHub.OwnerNameRoundTrip | src/lib/github.js:10-12 | `owner/name` splits back into its owner and name |
| Strings.SplitJoin | src/lib/github.js:10 | joining the parts of a split with the separator gives the text back |
| GitHub.Repository.CreateContent | src/lib/github.js:36-65 | the statements take exactly the decision `PutDecision` |
| GitHub.PutDecisionRule | src/lib/github.js:44-55 | 200 and not a file fails; a status other than 200 and 404 is rethrown; otherwise a write carries the file's `sha` for 200 and none for 404 |
| GitHub.PutCarries | src/lib/github.js:56-64 | the write carries repo, path, message and branch, and the base64 of the UTF-8 content, which decodes back to it |
| GitHub.W3cRecord.NormalizeGroup | src/lib/github.js:19-21 | the record becomes its normalisation, in place |
| GitHub.GroupRule | src/lib/github.js:19-21 | a truthy non-array group becomes a one-element list; arrays, falsy and absent groups and all other keys are unchanged |
| GitHub.GroupIdempotent | src/lib/github.js:19-21 | normalising twice is normalising once |
| Locations.RunEndFree | src/index.js:12 | a `[^/]+` run holds no `/` |
| Locations.LineEndFree | src/index.js:12 | the `(.*)` path holds no line terminator |
| Locations.MatchShape | src/index.js:12 | a match reads `owner/name/blob/branch/path` after the prefix: owner, name and branch non-empty and `/`-free, the path one line |
| Locations.SearchLeftmost | src/index.js:27 | `match` returns the leftmost match; no match means no position matches |
| Locations.ParseCanonical | src/index.js:12 | `https://github.com/owner/name/blob/branch/path` parses into exactly those parts |
| Router.ExtensionsExclusive | src/index.js:16-22 | at most one of `.json`, `.md`, `.html` ends a location |
| Router.ContentRule | src/index.js:15-22 | the content is the JSON record, the Markdown or the HTML by extension, none for any other location; rendering fails only for a header-less sheet without rows |
| Router.SaveRule | src/index.js:23-35 | a write happens only for a location with the GitHub prefix that the pattern matches; otherwise the location is logged invalid |
| Router.JsonPublished | src/index.js:14-37 | a `.json` GitHub location is written, at its repo, branch and path, with content that decodes to the serialised record |
| Router.ReportRule | src/index.js:37-51 | 200 is reported as updated, 201 as created, any other status as unexpected, and a failure as an error |
| Router.Run | src/index.js:57-77 | the loop takes exactly the actions `Plan` gives for the entries it gets through: all of them when a rejected save only warns, the first `Reached(entries)` when it ends the process |
| Router.ReachedRule | src/index.js:62-75 | when a rejected save ends the process, the run waits for a load only while no save has rejected; it stops short only at the first such wait after a rejection, with a prefix of the whole run's actions; with no rejected save it handles every entry |
| Router.FanOut | src/index.js:71-72 | one save per array element, in order |
| Router.SavesOfRule | src/index.js:71-75 | an array location yields one save per element, element `k`'s save at `k` |
| Router.EntryRule | src/index.js:62-75 | a null entry is logged invalid, an entry that does not load is skipped, a non-array location saves once |
| Router.PlanRule | src/index.js:60-76 | actions follow entry order, and every save belongs to a non-null entry that loaded |

## Left out

- The Google Sheets library is not modelled: `loadInfo`, `loadCells`,
  `getRows`, `getCell`, `useApiKey` and the row getter `row[header]`.
  - The loaded sheets, the cell grid and each row's fields are given as values.
  - A cell that was not loaded stands for `getCell` throwing.
- The HTTP calls of `createContent` are not modelled. The read's settled
  response and the write's settled status are inputs.
- Octokit, `octokit-cache`, `Repository.config`, `GitHub.ratelimit`, `monitor`
  logging and `console.error` are not modelled.
- The configuration files (`config.json`, `spreadsheets.json`) are not
  modelled. The entries are a parameter of `Run`.
- Asynchrony is not modelled.
  - The saves of `run` are not awaited and may settle in any order. `Plan` gives
    the order in which they are started.
  - `Promise.all` is not modelled.
  - A save whose promise rejects is the outcome `Crashed`. Nothing handles
    that rejection. `Run` takes the runtime's reaction as a parameter: only a
    warning, or the end of the process at the next wait for the network, as
    Node.js does by default from version 15 on.
  - When the process ends, writes still in flight are cut off and never
    reported. The model does not follow the writes past their start.
- Router.ReachedRule: only rejected saves count as rejections that end the
  process. Inside `fetch_spreadsheet`, the `getRows` promise of every sheet
  but the last has no handler until `Promise.all` runs after the loop over
  the sheets. If one of them rejects (`getRows` fails, or `getCell` throws)
  while a later sheet's `loadCells` is pending, it can end the process too.
  The model records such a load as `NotLoaded` and carries on, so the run may
  stop earlier than `Reached` says. `Router.Entry.loaded == None` covers only
  failures that reject the promise `fetch_spreadsheet` returns.
- `Router.Entry.loaded` stands for the whole of `fetch_spreadsheet` after its
  key extraction. It is an input; its relation to `Assembly.Assemble` is not
  stated as a lemma.
- `Number.prototype.toPrecision(3)` is an opaque function `Html.ToPrecision3`,
  because it is floating-point formatting. Only the white, black or rgb
  classification of colours is modelled.
- The style sheet and SVG logo texts are opaque constants `Html.StyleSheet` and
  `Html.Logo`.
- `JSON.stringify` is an opaque function `Router.Stringify`. The record it
  prints is modelled; the printed form is not.
- JsonRecord.ObjectFor: each `data` object is a `map`, so the order of its
  keys is not modelled. In the source a repeated header keeps the place where
  it was first set, integer-like keys come first, and `JSON.stringify`
  prints the keys in that order.
- `color` writes green into a falsy red channel of the cell's format object.
  This is modelled by value: `Html.Normalize` computes that write.
  `Html.NormalizeIdempotent` shows that rendering the written-to format again
  gives the same style. The aliasing itself is not modelled.
- Within `fetch_spreadsheet`, `row.cells` is built by value (`Assembly.Attached`)
  rather than by mutating the library's row object.
- Option values other than booleans are not modelled. Options are
  `Option<bool>` per key, and only `false` suppresses.
- JavaScript strings are modelled as sequences of Unicode scalar values. Lone
  surrogates are not modelled, so `Encoding.Utf8` never meets one.
- `Router.Entry.options` is taken as already parsed into `RenderOptions`.
- A cell's effective format always has a `textFormat`, as the Sheets API
  supplies it. A format without one, where `toHTML` would throw, is not
  modelled.
