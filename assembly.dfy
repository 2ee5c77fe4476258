/** What `fetch_spreadsheet` does around the Google calls: it reduces a
    configured id or link to the spreadsheet id, and after the cells and
    rows are loaded it attaches to every row the raw data of the cells at
    its position (`row.cells`). The loading itself is not part of this model:
    its results are inputs here. */
module Assembly {
  import opened Wrappers
  import opened Strings
  import opened SheetModel

  const GoogleUrl: string := "https://docs.google.com/spreadsheets/d/"

  /** The id passed to the Google client: a link to a spreadsheet is cut
      down to the text after `GoogleUrl` up to the next `/`; anything else is
      kept as it is. */
  function ExtractId(id: string): string {
    if StartsWith(id, GoogleUrl) then
      var rest := id[|GoogleUrl|..];
      var idx := IndexOf(rest, '/');
      if idx != -1 then rest[..idx] else rest
    else id
  }

  /** A link is cut to the longest `/`-free text after the prefix: the whole
      rest, or a text that a `/` follows. Any other id is unchanged. */
  lemma ExtractIdRule(id: string)
    ensures !StartsWith(id, GoogleUrl) ==> ExtractId(id) == id
    ensures StartsWith(id, GoogleUrl) ==>
              var key := ExtractId(id);
              '/' !in key && (id == GoogleUrl + key || StartsWith(id, GoogleUrl + key + "/"))
  {
    if StartsWith(id, GoogleUrl) {
      var rest := id[|GoogleUrl|..];
      var idx := IndexOf(rest, '/');
      assert id == GoogleUrl + rest;
      if idx != -1 {
        var key := rest[..idx];
        assert rest[..idx + 1] == key + "/";
        assert id[..|GoogleUrl + key + "/"|] == GoogleUrl + rest[..idx + 1];
      }
    }
  }

  /** The id of a link built from a key (and any path after it) is the key. */
  lemma ExtractIdOfLink(key: string, suffix: string)
    requires '/' !in key
    ensures ExtractId(GoogleUrl + key) == key
    ensures ExtractId(GoogleUrl + key + "/" + suffix) == key
  {
    var link := GoogleUrl + key + "/" + suffix;
    assert link[..|GoogleUrl|] == GoogleUrl;
    assert link[|GoogleUrl|..] == key + ("/" + suffix);
    KeyBeforeSlash(key, suffix);
    assert (GoogleUrl + key)[..|GoogleUrl|] == GoogleUrl;
    assert (GoogleUrl + key)[|GoogleUrl|..] == key;
  }

  lemma KeyBeforeSlash(key: string, suffix: string)
    requires '/' !in key
    ensures IndexOf(key + ("/" + suffix), '/') == |key|
  {
    IndexOfAfter(key, "/" + suffix, '/');
  }

  /** Reducing an id twice gives what reducing it once gives. */
  lemma ExtractIdIdempotent(id: string)
    ensures ExtractId(ExtractId(id)) == ExtractId(id)
  {
    ExtractIdRule(id);
    var key := ExtractId(id);
    if StartsWith(id, GoogleUrl) {
      NotALink(key);
    }
  }

  /** A text without `/` is never taken for a link. */
  lemma NotALink(key: string)
    requires '/' !in key
    ensures !StartsWith(key, GoogleUrl)
  {
    if |key| >= |GoogleUrl| {
      assert key[..|GoogleUrl|][7] == key[7];
    }
  }

  /** The loaded cells of a sheet: the raw data `getCell(r, c)` returns, by
      position; a position that was not loaded is absent. */
  type Grid = map<(int, int), Cell>

  /** `getCell` throws for a position that was not loaded. */
  datatype AssemblyError = CellNotLoaded(rowIndex: int, columnIndex: int)

  /** The first `n` cells of row `r`, failing at the first position that was not loaded. */
  function CellsFrom(grid: Grid, r: int, n: nat): Result<seq<Cell>, AssemblyError> {
    if n == 0 then Success([])
    else match CellsFrom(grid, r, n - 1)
      case Failure(e) => Failure(e)
      case Success(cells) =>
        if (r, n - 1) in grid then Success(cells + [grid[(r, n - 1)]])
        else Failure(CellNotLoaded(r, n - 1))
  }

  /** `row.cells`: one cell per raw value, read at the row's 0-based
      position; a row without raw data gets no cells. */
  function RowCells(grid: Grid, row: Row): Result<seq<Cell>, AssemblyError> {
    if row.rawData.None? then Success([]) else CellsFrom(grid, row.rowNumber - 1, |row.rawData.value|)
  }

  function Attached(grid: Grid, row: Row): Result<Row, AssemblyError> {
    match RowCells(grid, row)
    case Failure(e) => Failure(e)
    case Success(cells) => Success(row.(cells := cells))
  }

  /** The loop filling `row.cells`; the row is returned with its cells set. */
  method AttachCells(grid: Grid, row: Row) returns (r: Result<Row, AssemblyError>)
    ensures r == Attached(grid, row)
  {
    var cells: seq<Cell> := [];
    if row.rawData.Some? {
      var n := |row.rawData.value|;
      var idx := 0;
      while idx < n
        invariant 0 <= idx <= n
        invariant CellsFrom(grid, row.rowNumber - 1, idx) == Success(cells)
      {
        if (row.rowNumber - 1, idx) !in grid {
          CellsFromFails(grid, row.rowNumber - 1, idx, n);
          return Failure(CellNotLoaded(row.rowNumber - 1, idx));
        }
        cells := cells + [grid[(row.rowNumber - 1, idx)]];
        idx := idx + 1;
      }
    }
    r := Success(row.(cells := cells));
  }

  /** Once a position is missing, every longer run of the row fails there. */
  lemma {:induction false} CellsFromFails(grid: Grid, r: int, k: nat, n: nat)
    requires k < n
    requires CellsFrom(grid, r, k).Success? && (r, k) !in grid
    ensures CellsFrom(grid, r, n) == Failure(CellNotLoaded(r, k))
  {
    if n > k + 1 {
      CellsFromFails(grid, r, k, n - 1);
    }
  }

  /** The cells of a row are found exactly when every position of the row
      was loaded, and then the `k`-th cell is the one at column `k`. */
  lemma {:induction false} CellsFromRule(grid: Grid, r: int, n: nat)
    ensures CellsFrom(grid, r, n).Success? <==> forall k :: 0 <= k < n ==> (r, k) in grid
    ensures CellsFrom(grid, r, n).Success? ==>
              var cells := CellsFrom(grid, r, n).value;
              |cells| == n && forall k :: 0 <= k < n ==> cells[k] == grid[(r, k)]
  {
    if n > 0 {
      CellsFromRule(grid, r, n - 1);
    }
  }

  /** Attaching changes a row's cells only: one per raw value, or none
      without raw data. */
  lemma AttachedRule(grid: Grid, row: Row)
    ensures row.rawData.None? ==> Attached(grid, row) == Success(row.(cells := []))
    ensures Attached(grid, row).Success? ==>
              var a := Attached(grid, row).value;
              a == row.(cells := a.cells)
              && |a.cells| == (if row.rawData.Some? then |row.rawData.value| else 0)
  {
    if row.rawData.Some? {
      CellsFromRule(grid, row.rowNumber - 1, |row.rawData.value|);
    }
  }

  /** `rows.map(...)`: every row attached, failing at the first row that fails. */
  function AttachedRows(grid: Grid, rows: seq<Row>): Result<seq<Row>, AssemblyError> {
    if rows == [] then Success([])
    else match AttachedRows(grid, rows[..|rows| - 1])
      case Failure(e) => Failure(e)
      case Success(done) =>
        match Attached(grid, rows[|rows| - 1])
        case Failure(e) => Failure(e)
        case Success(row) => Success(done + [row])
  }

  method AttachAll(grid: Grid, rows: seq<Row>) returns (r: Result<seq<Row>, AssemblyError>)
    ensures r == AttachedRows(grid, rows)
  {
    var done: seq<Row> := [];
    var i := 0;
    while i < |rows|
      invariant 0 <= i <= |rows|
      invariant AttachedRows(grid, rows[..i]) == Success(done)
    {
      assert rows[..i + 1][..i] == rows[..i];
      var a := AttachCells(grid, rows[i]);
      if a.Failure? {
        assert rows[..i + 1][i] == rows[i];
        RowsFail(grid, rows, i + 1, |rows|);
        assert rows[..|rows|] == rows;
        return Failure(a.error);
      }
      done := done + [a.value];
      i := i + 1;
    }
    assert rows[..i] == rows;
    r := Success(done);
  }

  /** A failure among the first `k` rows is the failure of all of them. */
  lemma {:induction false} RowsFail(grid: Grid, rows: seq<Row>, k: nat, n: nat)
    requires k <= n <= |rows|
    requires AttachedRows(grid, rows[..k]).Failure?
    ensures AttachedRows(grid, rows[..n]) == AttachedRows(grid, rows[..k])
  {
    if n > k {
      RowsFail(grid, rows, k, n - 1);
      assert rows[..n][..n - 1] == rows[..n - 1];
    }
  }

  /** The rows keep their order and count, each with its cells attached. */
  lemma {:induction false} AttachedRowsRule(grid: Grid, rows: seq<Row>)
    ensures AttachedRows(grid, rows).Success? ==>
              var done := AttachedRows(grid, rows).value;
              |done| == |rows| && forall k :: 0 <= k < |rows| ==> Success(done[k]) == Attached(grid, rows[k])
  {
    if rows != [] {
      var init := rows[..|rows| - 1];
      AttachedRowsRule(grid, init);
      if AttachedRows(grid, rows).Success? {
        var done := AttachedRows(grid, rows).value;
        var before := AttachedRows(grid, init).value;
        forall k | 0 <= k < |rows| - 1
          ensures Success(done[k]) == Attached(grid, rows[k])
        {
          assert done[k] == before[k];
          assert init[k] == rows[k];
        }
      }
    }
  }

  /** A sheet as loaded: its properties, its cells and the rows `getRows` gave. */
  datatype LoadedSheet = LoadedSheet(sheet: Sheet, grid: Grid, rows: seq<Row>)

  /** The sheets of the enhanced document, each with its rows set. */
  function AssembledSheets(loaded: seq<LoadedSheet>): Result<seq<Sheet>, AssemblyError> {
    if loaded == [] then Success([])
    else match AssembledSheets(loaded[..|loaded| - 1])
      case Failure(e) => Failure(e)
      case Success(done) =>
        var l := loaded[|loaded| - 1];
        match AttachedRows(l.grid, l.rows)
        case Failure(e) => Failure(e)
        case Success(rows) => Success(done + [l.sheet.(rows := Some(rows))])
  }

  /** The document `fetch_spreadsheet` resolves to, or the error it rejects with. */
  method Assemble(title: string, spreadsheetId: string, loaded: seq<LoadedSheet>)
    returns (r: Result<Doc, AssemblyError>)
    ensures r.Success? <==> AssembledSheets(loaded).Success?
    ensures r.Success? ==> r.value == Doc(title, spreadsheetId, AssembledSheets(loaded).value)
  {
    var sheets: seq<Sheet> := [];
    var i := 0;
    while i < |loaded|
      invariant 0 <= i <= |loaded|
      invariant AssembledSheets(loaded[..i]) == Success(sheets)
    {
      assert loaded[..i + 1][..i] == loaded[..i];
      var rows := AttachAll(loaded[i].grid, loaded[i].rows);
      if rows.Failure? {
        SheetsFail(loaded, i + 1, |loaded|);
        assert loaded[..|loaded|] == loaded;
        return Failure(rows.error);
      }
      sheets := sheets + [loaded[i].sheet.(rows := Some(rows.value))];
      i := i + 1;
    }
    assert loaded[..i] == loaded;
    r := Success(Doc(title, spreadsheetId, sheets));
  }

  lemma {:induction false} SheetsFail(loaded: seq<LoadedSheet>, k: nat, n: nat)
    requires k <= n <= |loaded|
    requires AssembledSheets(loaded[..k]).Failure?
    ensures AssembledSheets(loaded[..n]) == AssembledSheets(loaded[..k])
  {
    if n > k {
      SheetsFail(loaded, k, n - 1);
      assert loaded[..n][..n - 1] == loaded[..n - 1];
    }
  }

  /** Every assembled sheet is its loaded sheet with its rows present, one
      per row `getRows` gave. */
  lemma {:induction false} AssembledSheetsRule(loaded: seq<LoadedSheet>)
    ensures AssembledSheets(loaded).Success? ==>
              var sheets := AssembledSheets(loaded).value;
              |sheets| == |loaded|
              && forall k :: 0 <= k < |loaded| ==>
                   sheets[k] == loaded[k].sheet.(rows := sheets[k].rows)
                   && sheets[k].rows.Some?
                   && Success(sheets[k].rows.value) == AttachedRows(loaded[k].grid, loaded[k].rows)
  {
    if loaded != [] {
      var init := loaded[..|loaded| - 1];
      AssembledSheetsRule(init);
      if AssembledSheets(loaded).Success? {
        var sheets := AssembledSheets(loaded).value;
        var before := AssembledSheets(init).value;
        forall k | 0 <= k < |loaded| - 1
          ensures sheets[k] == loaded[k].sheet.(rows := sheets[k].rows)
          ensures sheets[k].rows.Some?
          ensures Success(sheets[k].rows.value) == AttachedRows(loaded[k].grid, loaded[k].rows)
        {
          assert sheets[k] == before[k];
          assert init[k] == loaded[k];
        }
      }
    }
  }
}
