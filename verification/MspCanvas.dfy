/** The OSD character grid: the DisplayPort commands on a two-dimensional canvas, and
    the row-major vector that implements it. */
module MspCanvases {
  import opened Bytes

  const ROWS_SD := 16
  const COLS_SD := 30
  const ROWS_HD := 20
  const COLS_HD := 53

  datatype Cell = Cell(glyph: nat, attributes: byte)

  const BLANK := Cell(0, 0)

  type Grid = seq<seq<Cell>>

  // Two dimensions.

  function BlankGrid(rows: nat, cols: nat): Grid {
    seq(rows, _ => seq(cols, _ => BLANK))
  }

  /** How much of a string is shown: up to the right edge, or to its NUL. */
  function Visible(text: seq<byte>, room: nat): (n: nat)
    ensures n <= |text| && n <= room
  {
    if text == [] || room == 0 || text[0] == 0 then 0 else 1 + Visible(text[1..], room - 1)
  }

  /** One turn of the loop over a string. */
  lemma VisibleTurn(text: seq<byte>, i: nat, room: nat)
    requires i <= |text|
    ensures Visible(text[i..], room) ==
            if i == |text| || room == 0 || text[i] == 0 then 0 else 1 + Visible(text[i + 1..], room - 1)
  {
    assert i < |text| ==> text[i..][1..] == text[i + 1..];
  }

  function Glyphs(text: seq<byte>, attribute: byte): seq<Cell> {
    seq(|text|, i requires 0 <= i < |text| => Cell(text[i] + 256 * (attribute % 4), attribute))
  }

  /** A string laid over a line from column `col` on. */
  function Overlay(line: seq<Cell>, col: nat, run: seq<Cell>): seq<Cell>
    requires col + |run| <= |line|
  {
    line[..col] + run + line[col + |run|..]
  }

  function WriteString(grid: Grid, row: nat, col: nat, attribute: byte, text: seq<byte>): Grid {
    if row >= |grid| || col >= |grid[row]| then grid
    else grid[row := Overlay(grid[row], col, Glyphs(text[..Visible(text, |grid[row]| - col)], attribute))]
  }

  function Resize(grid: Grid, cols: nat, newRows: int, newCols: int): (Grid, nat) {
    if newRows <= 0 || newCols <= 0 || (|grid| == newRows && cols == newCols) then (grid, cols)
    else (BlankGrid(newRows, newCols), newCols)
  }

  /** The display: a canvas of `cols` columns, the frames published and the draw count. */
  datatype Display = Display(grid: Grid, cols: nat, published: seq<Grid>, frames: nat)
  {
    ghost predicate Rectangular() {
      forall r :: 0 <= r < |grid| ==> |grid[r]| == cols
    }

    function Clear(): Display {
      this.(grid := BlankGrid(|grid|, cols))
    }

    function SetCanvas(rows: int, newCols: int): Display {
      var (g, c) := Resize(grid, cols, rows, newCols);
      this.(grid := g, cols := c)
    }

    function Publish(): Display {
      this.(published := published + [grid])
    }

    /** One DisplayPort payload: a subcommand and its arguments. */
    function Apply(payload: seq<byte>): Display {
      if payload == [] then this
      else if payload[0] == 1 then Clear().Publish()
      else if payload[0] == 2 then Clear()
      else if payload[0] == 3 then
        if |payload| < 4 then this
        else this.(grid := WriteString(grid, payload[1], payload[2], payload[3], payload[4..]))
      else if payload[0] == 4 then Publish().(frames := frames + 1)
      else if payload[0] == 5 then
        if |payload| < 3 then this
        else if payload[2] == 0 then SetCanvas(ROWS_SD, COLS_SD)
        else SetCanvas(ROWS_HD, COLS_HD)
      else this
    }
  }

  /** Every cell's font page is the one its attribute byte names. */
  ghost predicate PagesAgree(grid: Grid) {
    forall r, c :: 0 <= r < |grid| && 0 <= c < |grid[r]| ==> grid[r][c].glyph / 256 == grid[r][c].attributes % 4
  }

  lemma WriteStringKeeps(grid: Grid, row: nat, col: nat, attribute: byte, text: seq<byte>)
    ensures var g := WriteString(grid, row, col, attribute, text);
            && |g| == |grid| && (forall r :: 0 <= r < |grid| ==> |g[r]| == |grid[r]|)
            && (PagesAgree(grid) ==> PagesAgree(g))
  {
  }

  /** What one write shows, cell by cell: the visible characters from the given
      column on, and every other cell as it was. */
  lemma WriteStringShows(grid: Grid, row: nat, col: nat, attribute: byte, text: seq<byte>, r: nat, c: nat)
    requires r < |grid| && c < |grid[r]|
    ensures var g := WriteString(grid, row, col, attribute, text);
            && |g| == |grid| && |g[r]| == |grid[r]|
            && g[r][c] == if r == row && col <= c && c < col + Visible(text, |grid[r]| - col)
                          then Cell(text[c - col] + 256 * (attribute % 4), attribute) else grid[r][c]
  {
  }

  /** Where a string stops: the first NUL or the room left, whichever comes first. */
  lemma {:induction false} VisibleStops(text: seq<byte>, room: nat)
    ensures var n := Visible(text, room);
            && (forall i :: 0 <= i < n ==> text[i] != 0)
            && (n == |text| || n == room || text[n] == 0)
  {
    if text != [] && room > 0 && text[0] != 0 {
      VisibleStops(text[1..], room - 1);
      var n := Visible(text, room);
      forall i | 0 <= i < n
        ensures text[i] != 0
      {
        if i > 0 { assert text[i] == text[1..][i - 1]; }
      }
    }
  }

  lemma ApplyKeeps(d: Display, payload: seq<byte>)
    requires d.Rectangular() && PagesAgree(d.grid)
    ensures d.Apply(payload).Rectangular() && PagesAgree(d.Apply(payload).grid)
  {
    if payload != [] && payload[0] == 3 && |payload| >= 4 {
      WriteStringKeeps(d.grid, payload[1], payload[2], payload[3], payload[4..]);
    }
  }

  // One dimension: the vector the source keeps, row after row.

  /** The rows of a flat vector. */
  function Rows(cells: seq<Cell>, rows: nat, cols: nat): (grid: Grid)
    requires |cells| == rows * cols
    ensures |grid| == rows
    ensures forall r :: 0 <= r < rows ==> |grid[r]| == cols
    decreases rows
  {
    if rows == 0 then [] else
    assert |cells| == cols + (rows - 1) * cols;
    [cells[..cols]] + Rows(cells[cols..], rows - 1, cols)
  }

  lemma IndexInBounds(rows: nat, cols: nat, row: nat, col: nat)
    requires row < rows && col < cols
    ensures 0 <= row * cols + col < rows * cols
  {
    assert row * cols + cols == (row + 1) * cols;
    assert (row + 1) * cols <= rows * cols;
  }

  lemma RowBelow(cols: nat, row: nat, col: nat)
    requires row > 0
    ensures row * cols + col == cols + ((row - 1) * cols + col)
    ensures row * cols == cols + (row - 1) * cols
  {
  }

  lemma WritesFirstRow(cells: seq<Cell>, rows: nat, cols: nat, col: nat, x: Cell)
    requires |cells| == rows * cols && 0 < rows && col < cols && col < |cells|
    ensures Rows(cells[col := x], rows, cols) == Rows(cells, rows, cols)[0 := Rows(cells, rows, cols)[0][col := x]]
  {
    RowBelow(cols, rows, 0);
    assert cells[col := x][..cols] == cells[..cols][col := x] && cells[col := x][cols..] == cells[cols..];
  }

  lemma WritesLaterRow(cells: seq<Cell>, rows: nat, cols: nat, k: nat, x: Cell)
    requires |cells| == rows * cols && 0 < rows && cols <= k < |cells|
    ensures |cells[cols..]| == (rows - 1) * cols
    ensures Rows(cells, rows, cols) == [cells[..cols]] + Rows(cells[cols..], rows - 1, cols)
    ensures Rows(cells[k := x], rows, cols) == [cells[..cols]] + Rows(cells[cols..][k - cols := x], rows - 1, cols)
  {
    RowBelow(cols, rows, 0);
    assert cells[k := x][..cols] == cells[..cols] && cells[k := x][cols..] == cells[cols..][k - cols := x];
  }

  /** Writing at row * cols + col writes the cell (row, col) and no other. */
  lemma {:induction false} WritesCell(cells: seq<Cell>, rows: nat, cols: nat, row: nat, col: nat, x: Cell)
    requires |cells| == rows * cols && row < rows && col < cols
    ensures 0 <= row * cols + col < |cells|
    ensures var grid := Rows(cells, rows, cols);
            Rows(cells[row * cols + col := x], rows, cols) == grid[row := grid[row][col := x]]
    decreases rows
  {
    hide Rows;
    IndexInBounds(rows, cols, row, col);
    if row == 0 {
      assert row * cols + col == col;
      WritesFirstRow(cells, rows, cols, col, x);
    } else {
      RowBelow(cols, row, col);
      IndexInBounds(rows - 1, cols, row - 1, col);
      WritesLaterRow(cells, rows, cols, row * cols + col, x);
      WritesCell(cells[cols..], rows - 1, cols, row - 1, col, x);
      var first, rest := cells[..cols], Rows(cells[cols..], rows - 1, cols);
      assert ([first] + rest)[row] == rest[row - 1];
    }
  }

  /** One character more of a run laid over a row. */
  lemma PutsGlyph(
    cells: seq<Cell>, rows: nat, cols: nat, before: Grid, row: nat, col: nat, run: seq<Cell>, i: nat)
    requires |cells| == rows * cols && row < rows == |before| && |before[row]| == cols && i < |run| && col + i < cols
    requires Rows(cells, rows, cols) == before[row := Overlay(before[row], col, run[..i])]
    ensures 0 <= row * cols + col + i < |cells|
    ensures Rows(cells[row * cols + col + i := run[i]], rows, cols) ==
            before[row := Overlay(before[row], col, run[..i + 1])]
  {
    hide Rows;
    WritesCell(cells, rows, cols, row, col + i, run[i]);
    assert Overlay(before[row], col, run[..i])[col + i := run[i]] == Overlay(before[row], col, run[..i + 1]);
  }

  lemma {:induction false} BlankRows(rows: nat, cols: nat)
    ensures |seq(rows * cols, _ => BLANK)| == rows * cols
    ensures Rows(seq(rows * cols, _ => BLANK), rows, cols) == BlankGrid(rows, cols)
    decreases rows
  {
    if rows > 0 {
      var cells := seq(rows * cols, _ => BLANK);
      assert |cells| == cols + (rows - 1) * cols;
      assert cells[..cols] == seq(cols, _ => BLANK);
      assert cells[cols..] == seq((rows - 1) * cols, _ => BLANK);
      BlankRows(rows - 1, cols);
      assert BlankGrid(rows, cols) == [seq(cols, _ => BLANK)] + BlankGrid(rows - 1, cols);
    }
  }
}
