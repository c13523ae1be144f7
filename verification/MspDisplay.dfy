/** What a frame with a DisplayPort message shows, subcommand by subcommand, cell by cell. */
module MspDisplays {
  import opened Bytes
  import opened MspChecksums
  import opened MspParsers
  import opened MspIntegrity
  import opened MspCanvases
  import opened MspDecoders

  /** A decoder between frames, and a message it can be sent. */
  ghost predicate Ready(d: Decoder, v2: bool, direction: byte, payload: seq<byte>) {
    && d.parser.stage == Idle && IsDirection(direction) && d.display.Rectangular()
    && if v2 then |payload| <= 1024 else |payload| < 256
  }

  /** The display after a DisplayPort message in a frame of either layout. */
  function After(d: Decoder, v2: bool, direction: byte, flags: byte, payload: seq<byte>): Display
    requires Encodable(v2, 182, payload)
  {
    d.Push(Encode(v2, direction, flags, 182, payload)).display
  }

  lemma AfterIs(d: Decoder, v2: bool, direction: byte, flags: byte, payload: seq<byte>)
    requires Ready(d, v2, direction, payload)
    ensures Encodable(v2, 182, payload) && After(d, v2, direction, flags, payload) == d.display.Apply(payload)
  {
    hide Decoder.Push, Encode, Display.Apply;
    FrameTakesEffect(d, v2, direction, flags, 182, payload);
  }

  /** Character k of a string is reached: no NUL comes before it, nor is it one. */
  predicate InRun(text: seq<byte>, k: int) {
    0 <= k < |text| && forall i :: 0 <= i <= k ==> text[i] != 0
  }

  lemma VisibleIsRun(text: seq<byte>, room: nat, k: nat)
    ensures k < Visible(text, room) <==> k < room && InRun(text, k)
  {
    VisibleStops(text, room);
  }

  /** Nothing but the grid differs. */
  predicate OnlyGrid(s: Display, t: Display) {
    t.cols == s.cols && t.published == s.published && t.frames == s.frames && |t.grid| == |s.grid|
  }

  predicate AllBlank(grid: Grid, rows: int, cols: int) {
    |grid| == rows && forall r :: 0 <= r < rows ==>
      |grid[r]| == cols && forall c :: 0 <= c < cols ==> grid[r][c] == Cell(0, 0)
  }

  /** The text stands in its row from its column on, up to a NUL or the edge, in the font
      page that the two low bits of the attribute select; every other cell is as before. */
  ghost predicate TextShown(s: Display, t: Display, row: byte, col: byte, attribute: byte, text: seq<byte>) {
    && OnlyGrid(s, t)
    && forall r, c :: 0 <= r < |s.grid| && 0 <= c < s.cols ==>
         |s.grid[r]| == |t.grid[r]| == s.cols &&
         t.grid[r][c] == if r == row && InRun(text, c - col)
                         then Cell(text[c - col] + 256 * (attribute % 4), attribute) else s.grid[r][c]
  }

  lemma WriteStringText(s: Display, row: byte, col: byte, attribute: byte, text: seq<byte>)
    requires s.Rectangular()
    ensures TextShown(s, s.(grid := WriteString(s.grid, row, col, attribute, text)), row, col, attribute, text)
  {
    hide WriteString, Visible;
    var g := WriteString(s.grid, row, col, attribute, text);
    WriteStringKeeps(s.grid, row, col, attribute, text);
    forall r, c | 0 <= r < |s.grid| && 0 <= c < s.cols
      ensures g[r][c] == if r == row && InRun(text, c - col)
                         then Cell(text[c - col] + 256 * (attribute % 4), attribute) else s.grid[r][c]
    {
      WriteStringShows(s.grid, row, col, attribute, text, r, c);
      TextAt(text, s.cols, col, c);
    }
  }

  /** Subcommand 3: row, column, attribute, then the text. */
  lemma WritesText(
    d: Decoder, v2: bool, direction: byte, flags: byte, row: byte, col: byte, attribute: byte, text: seq<byte>)
    requires Ready(d, v2, direction, [3, row, col, attribute] + text)
    ensures Encodable(v2, 182, [3, row, col, attribute] + text)
    ensures var t := After(d, v2, direction, flags, [3, row, col, attribute] + text);
            TextShown(d.display, t, row, col, attribute, text)
  {
    var payload := [3, row, col, attribute] + text;
    AfterIs(d, v2, direction, flags, payload);
    assert payload[4..] == text;
    assert d.display.Apply(payload) == d.display.(grid := WriteString(d.display.grid, row, col, attribute, text));
    hide Display.Apply, WriteString, After, TextShown;
    WriteStringText(d.display, row, col, attribute, text);
  }

  lemma TextAt(text: seq<byte>, cols: nat, col: byte, c: nat)
    requires c < cols
    ensures (col <= c && c < col + Visible(text, cols - col)) <==> InRun(text, c - col)
  {
    if col <= c {
      VisibleIsRun(text, cols - col, c - col);
    }
  }

  /** Subcommand 2 leaves every cell blank and publishes nothing. */
  lemma Clears(d: Decoder, v2: bool, direction: byte, flags: byte, rest: seq<byte>)
    requires Ready(d, v2, direction, [2] + rest)
    ensures Encodable(v2, 182, [2] + rest)
    ensures var s, t := d.display, After(d, v2, direction, flags, [2] + rest);
            OnlyGrid(s, t) && AllBlank(t.grid, |s.grid|, s.cols)
  {
    AfterIs(d, v2, direction, flags, [2] + rest);
  }

  /** Subcommand 1 leaves every cell blank and publishes that. */
  lemma Releases(d: Decoder, v2: bool, direction: byte, flags: byte, rest: seq<byte>)
    requires Ready(d, v2, direction, [1] + rest)
    ensures Encodable(v2, 182, [1] + rest)
    ensures var s, t := d.display, After(d, v2, direction, flags, [1] + rest);
            && t.cols == s.cols && t.frames == s.frames && AllBlank(t.grid, |s.grid|, s.cols)
            && t.published == s.published + [t.grid]
  {
    AfterIs(d, v2, direction, flags, [1] + rest);
  }

  /** Subcommand 4 publishes the grid as it is and counts one draw. */
  lemma Draws(d: Decoder, v2: bool, direction: byte, flags: byte, rest: seq<byte>)
    requires Ready(d, v2, direction, [4] + rest)
    ensures Encodable(v2, 182, [4] + rest)
    ensures var s, t := d.display, After(d, v2, direction, flags, [4] + rest);
            && t.grid == s.grid && t.cols == s.cols
            && t.published == s.published + [s.grid] && t.frames == s.frames + 1
  {
    AfterIs(d, v2, direction, flags, [4] + rest);
  }

  /** Subcommand 5: 16 by 30 for variant zero, 20 by 53 for any other, blank unless the
      canvas has that size already. */
  lemma Resizes(d: Decoder, v2: bool, direction: byte, flags: byte, font: byte, variant: byte, rest: seq<byte>)
    requires Ready(d, v2, direction, [5, font, variant] + rest)
    ensures Encodable(v2, 182, [5, font, variant] + rest)
    ensures var s, t := d.display, After(d, v2, direction, flags, [5, font, variant] + rest);
            var rows, cols := if variant == 0 then 16 else 20, if variant == 0 then 30 else 53;
            && |t.grid| == rows && t.cols == cols && t.published == s.published && t.frames == s.frames
            && if |s.grid| == rows && s.cols == cols then t.grid == s.grid else AllBlank(t.grid, rows, cols)
  {
    AfterIs(d, v2, direction, flags, [5, font, variant] + rest);
  }

  /** Every other message changes nothing: other subcommands, none, and those that are too
      short for their arguments. */
  lemma IgnoresOthers(d: Decoder, v2: bool, direction: byte, flags: byte, payload: seq<byte>)
    requires Ready(d, v2, direction, payload)
    requires payload == [] || payload[0] == 0 || payload[0] > 5 || (payload[0] == 3 && |payload| < 4)
             || (payload[0] == 5 && |payload| < 3)
    ensures Encodable(v2, 182, payload) && After(d, v2, direction, flags, payload) == d.display
  {
    AfterIs(d, v2, direction, flags, payload);
  }

  /** Other functions change nothing but the message count. */
  lemma IgnoresOtherFunctions(
    d: Decoder, v2: bool, direction: byte, flags: byte, functionId: uint16, payload: seq<byte>)
    requires d.parser.stage == Idle && IsDirection(direction) && Encodable(v2, functionId, payload) && functionId != 182
    ensures var t := d.Push(Encode(v2, direction, flags, functionId, payload));
            t.display == d.display && t.messages == d.messages + 1 && t.errors == d.errors
  {
    FrameTakesEffect(d, v2, direction, flags, functionId, payload);
  }

  /** A fresh decoder shows a blank canvas of 20 by 53. */
  lemma StartsBlank()
    ensures AllBlank(START.display.grid, 20, 53) && START.display.cols == 53
    ensures START.display.published == [] && START.display.frames == 0 && START.messages == 0 && START.errors == 0
  {
  }

  /** A forced layout: nothing for a size that is not positive or already there. */
  lemma ForcesLayout(s: Display, rows: int, cols: int)
    ensures var t := s.SetCanvas(rows, cols);
            && t.published == s.published && t.frames == s.frames
            && if rows <= 0 || cols <= 0 || (|s.grid| == rows && s.cols == cols) then t == s
               else AllBlank(t.grid, rows, cols) && t.cols == cols
  {
  }

  /** Row r, column c of the canvas is the vector's cell number r * cols + c. */
  lemma {:induction false} CellAt(cells: seq<Cell>, rows: nat, cols: nat, r: nat, c: nat)
    requires |cells| == rows * cols && r < rows && c < cols
    ensures 0 <= r * cols + c < |cells| && Rows(cells, rows, cols)[r][c] == cells[r * cols + c]
    decreases rows
  {
    IndexInBounds(rows, cols, r, c);
    RowBelow(cols, rows, 0);
    if r > 0 {
      RowBelow(cols, r, c);
      CellAt(cells[cols..], rows - 1, cols, r - 1, c);
    }
  }
}
