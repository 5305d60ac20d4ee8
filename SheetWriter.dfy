/**
 * Turning a table into worksheet operations: `_cellrepr` gives each cell its
 * text and `set_with_dataframe` lays the table, with an optional header row
 * and index column, out as a list of 1-based `(row, col, text)` cell updates.
 * The worksheet itself is not modelled; the operations that would be sent to
 * it are the result.
 */
module SheetWriter {
  import opened Basics
  import opened PyStrings
  import opened PyValues
  import opened Frames

  /** The text of a cell before escaping: empty for null, `repr` for a float, `str` otherwise. */
  function CellText(v: Value): (t: string)
    ensures v == Null ==> t == ""
    ensures v.Float? ==> t == v.repr
    ensures !v.Null? && !v.Float? ==> t == PyStr(v)
  {
    match v
    case Null => ""
    case Float(r) => r
    case _ => PyStr(v)
  }

  /** Whether `_cellrepr` puts an apostrophe in front of the text `t`. */
  predicate NeedsEscape(t: string, allowFormulas: bool) {
    StartsWith(t, "'") || (!allowFormulas && StartsWith(t, "="))
  }

  /** `_cellrepr(value, allow_formulas)`. */
  function CellRepr(v: Value, allowFormulas: bool): (r: string)
    ensures NeedsEscape(CellText(v), allowFormulas) ==> r == "'" + CellText(v)
    ensures !NeedsEscape(CellText(v), allowFormulas) ==> r == CellText(v)
  {
    var t := CellText(v);
    if NeedsEscape(t, allowFormulas) then "'" + t else t
  }

  /** What a spreadsheet makes of text entered as a user would type it. */
  datatype Entry =
    | Literal(text: string)     // a leading apostrophe: the rest is kept as plain text
    | Formula(source: string)   // a leading `=`: the rest is evaluated
    | Typed(text: string)       // anything else, parsed as a number, date or text

  function Interpret(t: string): Entry {
    if StartsWith(t, "'") then Literal(t[1..])
    else if StartsWith(t, "=") then Formula(t[1..])
    else Typed(t)
  }

  /** The text the user typed, as the spreadsheet keeps it. */
  function Source(e: Entry): string {
    match e
    case Literal(t) => t
    case Formula(s) => "=" + s
    case Typed(t) => t
  }

  /**
   * Escaping loses nothing: the sheet keeps the cell's text exactly, a text
   * that starts with an apostrophe stays plain text, and with formulas off no
   * cell becomes a formula.
   */
  lemma CellReprRoundTrip(v: Value, allowFormulas: bool)
    ensures Source(Interpret(CellRepr(v, allowFormulas))) == CellText(v)
    ensures StartsWith(CellText(v), "'") ==> Interpret(CellRepr(v, allowFormulas)) == Literal(CellText(v))
    ensures !allowFormulas ==> !Interpret(CellRepr(v, allowFormulas)).Formula?
    ensures allowFormulas ==> (Interpret(CellRepr(v, allowFormulas)).Formula? <==> StartsWith(CellText(v), "="))
  {
    var t := CellText(v);
    if NeedsEscape(t, allowFormulas) {
      assert ("'" + t)[1..] == t;
    } else if StartsWith(t, "=") {
      assert t == "=" + t[1..];
    }
  }

  /** A cell update: 1-based row and column and the text to enter. */
  datatype CellUpdate = CellUpdate(row: int, col: int, text: string)

  /** An operation on the worksheet. */
  datatype SheetOp =
    | Clear
    | Resize(rows: int, cols: int)
    | UpdateCells(cells: seq<CellUpdate>)

  /** The header row: the index name when the index is written, then the column labels. */
  function HeaderRow(f: Frame, indexName: Value, includeIndex: bool): (h: Row)
    ensures |h| == |f.columns| + (if includeIndex then 1 else 0)
  {
    (if includeIndex then [indexName] else []) + seq(|f.columns|, j requires 0 <= j < |f.columns| => Str(f.columns[j]))
  }

  /** Data row `i`: its index value when the index is written, then its cells. */
  function BodyRow(f: Frame, index: seq<Value>, includeIndex: bool, i: nat): Row
    requires |index| == |f.rows| && i < |f.rows|
  {
    (if includeIndex then [index[i]] else []) + f.rows[i]
  }

  /** Cell `j` of data row `i` as written: the index label first when the index is written. */
  function DataCell(f: Frame, index: seq<Value>, includeIndex: bool, i: nat, j: nat): Value
    requires Rectangular(f) && |index| == |f.rows| && i < |f.rows| && j < Width(f, includeIndex)
  {
    if !includeIndex then f.rows[i][j] else if j == 0 then index[i] else f.rows[i][j - 1]
  }

  function BodyRows(f: Frame, index: seq<Value>, includeIndex: bool): (b: seq<Row>)
    requires |index| == |f.rows|
    ensures |b| == |f.rows|
  {
    seq(|f.rows|, i requires 0 <= i < |f.rows| => BodyRow(f, index, includeIndex, i))
  }

  /** The cells the sheet receives, row by row: the header row if written, then the data rows. */
  function VirtualGrid(f: Frame, index: seq<Value>, indexName: Value,
                       includeIndex: bool, includeHeader: bool): seq<Row>
    requires |index| == |f.rows|
  {
    (if includeHeader then [HeaderRow(f, indexName, includeIndex)] else [])
      + BodyRows(f, index, includeIndex)
  }

  function Height(f: Frame, includeHeader: bool): nat {
    |f.rows| + (if includeHeader then 1 else 0)
  }

  function Width(f: Frame, includeIndex: bool): nat {
    |f.columns| + (if includeIndex then 1 else 0)
  }

  /** The texts `_cellrepr` gives a row of cells. */
  function Texts(cells: Row, allowFormulas: bool): (ts: seq<string>)
    ensures |ts| == |cells|
  {
    seq(|cells|, j requires 0 <= j < |cells| => CellRepr(cells[j], allowFormulas))
  }

  /** The texts of every row of a grid of cells. */
  function TextGrid(grid: seq<Row>, allowFormulas: bool): (g: seq<seq<string>>)
    ensures |g| == |grid|
  {
    seq(|grid|, i requires 0 <= i < |grid| => Texts(grid[i], allowFormulas))
  }

  lemma TextGridAppend(a: seq<Row>, b: seq<Row>, allowFormulas: bool)
    ensures TextGrid(a + b, allowFormulas) == TextGrid(a, allowFormulas) + TextGrid(b, allowFormulas)
  {
  }

  /** The updates for one row of texts at sheet row `r`, starting at column `col`. */
  function RowUpdates(texts: seq<string>, r: int, col: int): (u: seq<CellUpdate>)
    ensures |u| == |texts|
    ensures forall j :: 0 <= j < |texts| ==> u[j].row == r && u[j].col == col + j && u[j].text == texts[j]
  {
    seq(|texts|, j requires 0 <= j < |texts| => CellUpdate(r, col + j, texts[j]))
  }

  /** The updates for a grid of texts anchored at `(row, col)`, row after row. */
  function GridUpdates(grid: seq<seq<string>>, row: int, col: int): seq<CellUpdate> {
    if grid == [] then []
    else RowUpdates(grid[0], row, col) + GridUpdates(grid[1..], row + 1, col)
  }

  lemma {:induction false} GridUpdatesSnoc(grid: seq<seq<string>>, x: seq<string>, row: int, col: int)
    ensures GridUpdates(grid + [x], row, col) == GridUpdates(grid, row, col) + RowUpdates(x, row + |grid|, col)
  {
    if grid == [] {
      assert grid + [x] == [x];
      assert [x][1..] == [];
    } else {
      assert (grid + [x])[1..] == grid[1..] + [x];
      GridUpdatesSnoc(grid[1..], x, row + 1, col);
    }
  }

  lemma {:induction false} GridUpdatesAppend(a: seq<seq<string>>, b: seq<seq<string>>, row: int, col: int)
    ensures GridUpdates(a + b, row, col) == GridUpdates(a, row, col) + GridUpdates(b, row + |a|, col)
  {
    if a == [] {
      assert a + b == b;
    } else {
      assert (a + b)[1..] == a[1..] + b;
      GridUpdatesAppend(a[1..], b, row + 1, col);
    }
  }

  /** Every row of the grid has `w` entries. */
  predicate Uniform<T>(grid: seq<seq<T>>, w: nat) {
    forall i :: 0 <= i < |grid| ==> |grid[i]| == w
  }

  /** `n * w` as repeated addition, so that the layout proofs below stay linear. */
  function Mul(n: nat, w: nat): nat {
    if n == 0 then 0 else Mul(n - 1, w) + w
  }

  lemma {:induction false} MulIsProduct(n: nat, w: nat)
    ensures Mul(n, w) == n * w
    ensures Mul(n, w) == 0 <==> n == 0 || w == 0
  {
    if n > 0 {
      MulIsProduct(n - 1, w);
    }
  }

  lemma {:induction false} GridUpdatesLength(grid: seq<seq<string>>, w: nat, row: int, col: int)
    requires Uniform(grid, w)
    ensures |GridUpdates(grid, row, col)| == Mul(|grid|, w)
  {
    if grid != [] {
      GridUpdatesLength(grid[1..], w, row + 1, col);
    }
  }

  /** Update `i * w + j` enters entry `(i, j)` of the grid at `(row + i, col + j)`. */
  lemma {:induction false} GridUpdatesAt(grid: seq<seq<string>>, w: nat, row: int, col: int, i: nat, j: nat)
    requires Uniform(grid, w) && i < |grid| && j < w
    ensures Mul(i, w) + j < |GridUpdates(grid, row, col)|
    ensures GridUpdates(grid, row, col)[Mul(i, w) + j] == CellUpdate(row + i, col + j, grid[i][j])
  {
    var rest := grid[1..];
    var head := RowUpdates(grid[0], row, col);
    var tail := GridUpdates(rest, row + 1, col);
    assert GridUpdates(grid, row, col) == head + tail;
    if i > 0 {
      GridUpdatesAt(rest, w, row + 1, col, i - 1, j);
      assert rest[i - 1] == grid[i];
      assert (head + tail)[Mul(i, w) + j] == tail[Mul(i - 1, w) + j];
    } else {
      assert (head + tail)[j] == head[j];
    }
  }

  /**
   * A grid of `h` rows of `w` entries gives `h * w` updates in row-major
   * order: update `i * w + j` enters entry `(i, j)` at `(row + i, col + j)`.
   */
  lemma GridUpdatesLayout(grid: seq<seq<string>>, w: nat, row: int, col: int, i: nat, j: nat)
    requires Uniform(grid, w) && i < |grid| && j < w
    ensures |GridUpdates(grid, row, col)| == |grid| * w
    ensures 0 <= i * w + j < |GridUpdates(grid, row, col)|
    ensures GridUpdates(grid, row, col)[i * w + j] == CellUpdate(row + i, col + j, grid[i][j])
  {
    GridUpdatesLength(grid, w, row, col);
    GridUpdatesAt(grid, w, row, col, i, j);
    MulIsProduct(|grid|, w);
    MulIsProduct(i, w);
  }

  /** Every update lies inside the `h` by `w` footprint anchored at `(row, col)`. */
  lemma {:induction false} GridUpdatesFootprint(grid: seq<seq<string>>, w: nat, row: int, col: int)
    requires Uniform(grid, w)
    ensures forall u :: u in GridUpdates(grid, row, col) ==>
      row <= u.row < row + |grid| && col <= u.col < col + w
  {
    if grid != [] {
      GridUpdatesFootprint(grid[1..], w, row + 1, col);
    }
  }

  lemma VirtualGridShape(f: Frame, index: seq<Value>, indexName: Value, includeIndex: bool, includeHeader: bool,
                         allowFormulas: bool)
    requires Rectangular(f) && |index| == |f.rows|
    ensures |VirtualGrid(f, index, indexName, includeIndex, includeHeader)| == Height(f, includeHeader)
    ensures Uniform(VirtualGrid(f, index, indexName, includeIndex, includeHeader), Width(f, includeIndex))
    ensures Uniform(TextGrid(VirtualGrid(f, index, indexName, includeIndex, includeHeader), allowFormulas),
                    Width(f, includeIndex))
  {
  }


  lemma AppendEmpty<T>(a: seq<T>)
    ensures [] + a == a && a + [] == a
  {
  }

  /** Appends the updates for one row of cells, one cell after the other. */
  method EmitRow(updates: seq<CellUpdate>, cells: Row, r: int, col: int, allowFormulas: bool)
    returns (out: seq<CellUpdate>)
    ensures out == updates + RowUpdates(Texts(cells, allowFormulas), r, col)
  {
    ghost var u := RowUpdates(Texts(cells, allowFormulas), r, col);
    out := updates;
    var xIdx := 0;
    while xIdx < |cells|
      invariant 0 <= xIdx <= |cells|
      invariant out == updates + u[..xIdx]
    {
      var cell := CellUpdate(r, col + xIdx, CellRepr(cells[xIdx], allowFormulas));
      assert u[..xIdx + 1] == u[..xIdx] + [cell];
      AppendAssoc(updates, u[..xIdx], [cell]);
      out := out + [cell];
      xIdx := xIdx + 1;
    }
    assert u[..xIdx] == u;
  }

  lemma GridUpdatesStep(g: seq<seq<string>>, n: nat, r: int, col: int)
    requires n < |g|
    ensures GridUpdates(g[..n + 1], r, col) == GridUpdates(g[..n], r, col) + RowUpdates(g[n], r + n, col)
  {
    assert g[..n + 1] == g[..n] + [g[n]];
    GridUpdatesSnoc(g[..n], g[n], r, col);
  }

  /** Appends the updates for the data rows, row after row, the first at sheet row `r`. */
  /** One more row of updates extends the updates of the rows before it. */
  lemma EmitRowsStep(updates: seq<CellUpdate>, before: seq<CellUpdate>, after: seq<CellUpdate>,
                     g: seq<seq<string>>, n: nat, r: int, col: int)
    requires n < |g|
    requires before == updates + GridUpdates(g[..n], r, col)
    requires after == before + RowUpdates(g[n], r + n, col)
    ensures after == updates + GridUpdates(g[..n + 1], r, col)
  {
    GridUpdatesStep(g, n, r, col);
    AppendAssoc(updates, GridUpdates(g[..n], r, col), RowUpdates(g[n], r + n, col));
  }

  method EmitRows(updates: seq<CellUpdate>, values: seq<Row>, r: int, col: int, allowFormulas: bool)
    returns (out: seq<CellUpdate>)
    ensures out == updates + GridUpdates(TextGrid(values, allowFormulas), r, col)
  {
    ghost var g := TextGrid(values, allowFormulas);
    out := updates;
    var yIdx := 0;
    while yIdx < |values|
      invariant 0 <= yIdx <= |values|
      invariant out == updates + GridUpdates(g[..yIdx], r, col)
    {
      assert g[yIdx] == Texts(values[yIdx], allowFormulas);
      ghost var before := out;
      out := EmitRow(out, values[yIdx], r + yIdx, col, allowFormulas);
      EmitRowsStep(updates, before, out, g, yIdx, r, col);
      yIdx := yIdx + 1;
    }
    assert g[..yIdx] == g;
  }

  /** The data rows, each with its index value in front when the index is written. */
  method ValueRows(frame: Frame, index: seq<Value>, includeIndex: bool) returns (values: seq<Row>)
    requires |index| == |frame.rows|
    ensures values == BodyRows(frame, index, includeIndex)
  {
    values := [];
    var i := 0;
    while i < |frame.rows|
      invariant 0 <= i <= |frame.rows|
      invariant values == BodyRows(frame, index, includeIndex)[..i]
    {
      var valueRow := frame.rows[i];
      if includeIndex {
        valueRow := [index[i]] + valueRow;
      }
      assert valueRow == BodyRow(frame, index, includeIndex, i);
      assert BodyRows(frame, index, includeIndex)[..i + 1] == BodyRows(frame, index, includeIndex)[..i] + [valueRow];
      values := values + [valueRow];
      i := i + 1;
    }
    assert BodyRows(frame, index, includeIndex)[..i] == BodyRows(frame, index, includeIndex);
  }

  lemma HeaderUpdates(f: Frame, indexName: Value, includeIndex: bool, row: int, col: int, allowFormulas: bool)
    ensures GridUpdates(TextGrid([HeaderRow(f, indexName, includeIndex)], allowFormulas), row, col)
            == RowUpdates(Texts(HeaderRow(f, indexName, includeIndex), allowFormulas), row, col)
  {
    var t := TextGrid([HeaderRow(f, indexName, includeIndex)], allowFormulas);
    assert t == [Texts(HeaderRow(f, indexName, includeIndex), allowFormulas)];
    assert t[1..] == [];
  }

  lemma VirtualGridUpdates(f: Frame, index: seq<Value>, indexName: Value, includeIndex: bool, includeHeader: bool,
                            row: int, col: int, allowFormulas: bool)
    requires |index| == |f.rows|
    ensures var header := if includeHeader then [HeaderRow(f, indexName, includeIndex)] else [];
      GridUpdates(TextGrid(VirtualGrid(f, index, indexName, includeIndex, includeHeader), allowFormulas), row, col)
      == GridUpdates(TextGrid(header, allowFormulas), row, col)
         + GridUpdates(TextGrid(BodyRows(f, index, includeIndex), allowFormulas), row + |header|, col)
  {
    var header := if includeHeader then [HeaderRow(f, indexName, includeIndex)] else [];
    TextGridAppend(header, BodyRows(f, index, includeIndex), allowFormulas);
    GridUpdatesAppend(TextGrid(header, allowFormulas), TextGrid(BodyRows(f, index, includeIndex), allowFormulas), row, col);
  }

  /**
   * `set_with_dataframe(worksheet, dataframe, row, col, include_index,
   * include_column_header, resize, allow_formulas)`: the resize request if
   * asked for, then one batch with the updates of the whole grid unless there
   * are none.
   */
  method SetWithDataframe(frame: Frame, index: seq<Value>, indexName: Value,
                          row: int := 1, col: int := 1, includeIndex: bool := false,
                          includeHeader: bool := true, resize: bool := false,
                          allowFormulas: bool := true)
    returns (ops: seq<SheetOp>)
    requires Rectangular(frame) && |index| == |frame.rows|
    ensures var u := GridUpdates(TextGrid(VirtualGrid(frame, index, indexName, includeIndex, includeHeader), allowFormulas), row, col);
      ops == (if resize then [Resize(Height(frame, includeHeader), Width(frame, includeIndex))] else [])
             + (if u == [] then [] else [UpdateCells(u)])
  {
    var y, x := |frame.rows|, |frame.columns|;
    if includeIndex {
      x := x + 1;
    }
    if includeHeader {
      y := y + 1;
    }
    ops := [];
    if resize {
      ops := ops + [Resize(y, x)];
    }
    assert ops == if resize then [Resize(Height(frame, includeHeader), Width(frame, includeIndex))] else [];

    var updates: seq<CellUpdate> := [];
    var r := row;
    if includeHeader {
      var elts: Row := seq(|frame.columns|, j requires 0 <= j < |frame.columns| => Str(frame.columns[j]));
      if includeIndex {
        elts := [indexName] + elts;
      }
      assert elts == HeaderRow(frame, indexName, includeIndex);
      updates := EmitRow(updates, elts, r, col, allowFormulas);
      AppendEmpty(RowUpdates(Texts(elts, allowFormulas), r, col));
      r := r + 1;
      HeaderUpdates(frame, indexName, includeIndex, row, col, allowFormulas);
    }
    ghost var header := if includeHeader then [HeaderRow(frame, indexName, includeIndex)] else [];
    assert updates == GridUpdates(TextGrid(header, allowFormulas), row, col);
    assert r == row + |header|;

    var values := ValueRows(frame, index, includeIndex);
    updates := EmitRows(updates, values, r, col, allowFormulas);
    VirtualGridUpdates(frame, index, indexName, includeIndex, includeHeader, row, col, allowFormulas);
    assert updates == GridUpdates(TextGrid(VirtualGrid(frame, index, indexName, includeIndex, includeHeader), allowFormulas), row, col);

    if updates != [] {
      ops := ops + [UpdateCells(updates)];
    } else {
      AppendEmpty(ops);
    }
  }

  /**
   * The batch `set_with_dataframe` sends holds exactly `Height * Width`
   * updates, all inside the footprint, and it is empty exactly when the grid
   * has no rows or no columns.
   */
  lemma {:induction false} SetWithDataframeLayout(f: Frame, index: seq<Value>, indexName: Value, row: int, col: int,
                               includeIndex: bool, includeHeader: bool, allowFormulas: bool)
    requires Rectangular(f) && |index| == |f.rows|
    ensures var u := GridUpdates(TextGrid(VirtualGrid(f, index, indexName, includeIndex, includeHeader), allowFormulas), row, col);
      && |u| == Height(f, includeHeader) * Width(f, includeIndex)
      && (u == [] <==> Height(f, includeHeader) == 0 || Width(f, includeIndex) == 0)
      && (forall c :: c in u ==>
            row <= c.row < row + Height(f, includeHeader) && col <= c.col < col + Width(f, includeIndex))
  {
    var grid := TextGrid(VirtualGrid(f, index, indexName, includeIndex, includeHeader), allowFormulas);
    VirtualGridShape(f, index, indexName, includeIndex, includeHeader, allowFormulas);
    GridUpdatesLength(grid, Width(f, includeIndex), row, col);
    MulIsProduct(Height(f, includeHeader), Width(f, includeIndex));
    GridUpdatesFootprint(grid, Width(f, includeIndex), row, col);
  }

  lemma VirtualGridRow(f: Frame, index: seq<Value>, indexName: Value, includeIndex: bool, includeHeader: bool, i: nat)
    requires |index| == |f.rows| && i < |f.rows|
    ensures var h := if includeHeader then 1 else 0;
      h + i < |VirtualGrid(f, index, indexName, includeIndex, includeHeader)| &&
      VirtualGrid(f, index, indexName, includeIndex, includeHeader)[h + i] == BodyRow(f, index, includeIndex, i)
  {
  }

  /**
   * With a header row, update `j` enters header cell `j` at the origin row
   * and column `col + j`: the index name first when the index is written,
   * then the column labels.
   */
  lemma SetWithDataframeHeader(f: Frame, index: seq<Value>, indexName: Value, row: int, col: int,
                               includeIndex: bool, allowFormulas: bool, j: nat)
    requires Rectangular(f) && |index| == |f.rows| && j < Width(f, includeIndex)
    ensures var u := GridUpdates(TextGrid(VirtualGrid(f, index, indexName, includeIndex, true), allowFormulas), row, col);
      var cell := if !includeIndex then Str(f.columns[j]) else if j == 0 then indexName else Str(f.columns[j - 1]);
      && j < |u|
      && u[j] == CellUpdate(row, col + j, CellRepr(cell, allowFormulas))
  {
    var grid := TextGrid(VirtualGrid(f, index, indexName, includeIndex, true), allowFormulas);
    VirtualGridShape(f, index, indexName, includeIndex, true, allowFormulas);
    GridUpdatesLayout(grid, Width(f, includeIndex), row, col, 0, j);
    assert VirtualGrid(f, index, indexName, includeIndex, true)[0] == HeaderRow(f, indexName, includeIndex);
  }

  /**
   * Cell `j` of data row `i` (its index value first when the index is
   * written) is update `(h + i) * width + j`, entered at row `row + h + i`
   * and column `col + j`, `h` being 1 below a header row and 0 without one.
   */
  lemma SetWithDataframeBody(f: Frame, index: seq<Value>, indexName: Value, row: int, col: int,
                             includeIndex: bool, includeHeader: bool, allowFormulas: bool, i: nat, j: nat)
    requires Rectangular(f) && |index| == |f.rows|
    requires i < |f.rows| && j < Width(f, includeIndex)
    ensures var u := GridUpdates(TextGrid(VirtualGrid(f, index, indexName, includeIndex, includeHeader), allowFormulas), row, col);
      var h := if includeHeader then 1 else 0;
      var cell := DataCell(f, index, includeIndex, i, j);
      && 0 <= (h + i) * Width(f, includeIndex) + j < |u|
      && u[(h + i) * Width(f, includeIndex) + j] == CellUpdate(row + (h + i), col + j, CellRepr(cell, allowFormulas))
  {
    var h := if includeHeader then 1 else 0;
    var grid := TextGrid(VirtualGrid(f, index, indexName, includeIndex, includeHeader), allowFormulas);
    BodyText(f, index, indexName, includeIndex, includeHeader, allowFormulas, i, j);
    var text := CellRepr(DataCell(f, index, includeIndex, i, j), allowFormulas);
    BodyGridUniform(f, index, indexName, includeIndex, includeHeader, allowFormulas);
    var w, k := Width(f, includeIndex), h + i;
    GridCellUpdate(grid, w, row, col, k, j, text);
    var u := GridUpdates(grid, row, col);
    assert 0 <= k * w + j < |u| && u[k * w + j] == CellUpdate(row + k, col + j, text);
  }

  /** Every row of the written texts is as wide as the frame plus its index column. */
  lemma BodyGridUniform(f: Frame, index: seq<Value>, indexName: Value, includeIndex: bool, includeHeader: bool,
                         allowFormulas: bool)
    requires Rectangular(f) && |index| == |f.rows|
    ensures Uniform(TextGrid(VirtualGrid(f, index, indexName, includeIndex, includeHeader), allowFormulas), Width(f, includeIndex))
  {
    VirtualGridShape(f, index, indexName, includeIndex, includeHeader, allowFormulas);
  }

  /** The update for one cell of a uniform grid, given its text. */
  lemma GridCellUpdate(grid: seq<seq<string>>, w: nat, row: int, col: int, k: nat, j: nat, text: string)
    requires Uniform(grid, w) && k < |grid| && j < w && grid[k][j] == text
    ensures 0 <= k * w + j < |GridUpdates(grid, row, col)|
    ensures GridUpdates(grid, row, col)[k * w + j] == CellUpdate(row + k, col + j, text)
  {
    GridUpdatesLayout(grid, w, row, col, k, j);
  }

  /** The text of body cell `(i, j)` sits at row `h + i` of the text grid. */
  lemma BodyText(f: Frame, index: seq<Value>, indexName: Value, includeIndex: bool, includeHeader: bool,
                 allowFormulas: bool, i: nat, j: nat)
    requires Rectangular(f) && |index| == |f.rows|
    requires i < |f.rows| && j < Width(f, includeIndex)
    ensures var grid := TextGrid(VirtualGrid(f, index, indexName, includeIndex, includeHeader), allowFormulas);
      var h := if includeHeader then 1 else 0;
      var cell := DataCell(f, index, includeIndex, i, j);
      && h + i < |grid| && j < |grid[h + i]| && grid[h + i][j] == CellRepr(cell, allowFormulas)
  {
    var h := if includeHeader then 1 else 0;
    var cells := VirtualGrid(f, index, indexName, includeIndex, includeHeader);
    var grid := TextGrid(cells, allowFormulas);
    VirtualGridRow(f, index, indexName, includeIndex, includeHeader, i);
    BodyCell(f, index, includeIndex, i, j);
    assert grid[h + i] == Texts(cells[h + i], allowFormulas);
  }

  /** Cell `j` of body row `i`: the index label first when the index is written, then the row's own cells. */
  lemma BodyCell(f: Frame, index: seq<Value>, includeIndex: bool, i: nat, j: nat)
    requires Rectangular(f) && |index| == |f.rows| && i < |f.rows| && j < Width(f, includeIndex)
    ensures j < |BodyRow(f, index, includeIndex, i)|
    ensures BodyRow(f, index, includeIndex, i)[j]
      == DataCell(f, index, includeIndex, i, j)
  {
    assert f.rows[i] in f.rows;
  }
}
