/** The MSP OSD decoder: the automaton driving the canvas, as a class updated byte by
    byte, and end-to-end laws of what it shows. */
module MspDecoders {
  import opened Bytes
  import opened MspChecksums
  import opened MspParsers
  import opened MspIntegrity
  import opened MspCanvases

  const MSP_DISPLAYPORT := 182

  datatype Decoder = Decoder(parser: Parser, display: Display, messages: nat, errors: nat)
  {
    function React(e: Event): Decoder {
      match e
      case Quiet => this
      case Dispatch(functionId, payload) =>
        this.(messages := messages + 1,
              display := if functionId == MSP_DISPLAYPORT then display.Apply(payload) else display)
      case ChecksumError => this.(errors := errors + 1)
    }

    function ReactAll(events: seq<Event>): Decoder
      decreases |events|
    {
      if events == [] then this else React(events[0]).ReactAll(events[1..])
    }

    function HandleByte(b: byte): Decoder {
      var (next, e) := parser.Step(b);
      this.(parser := next).React(e)
    }

    function Push(bytes: seq<byte>): Decoder
      decreases |bytes|
    {
      if bytes == [] then this else HandleByte(bytes[0]).Push(bytes[1..])
    }
  }

  const START := Decoder(FRESH, Display(BlankGrid(ROWS_HD, COLS_HD), COLS_HD, [], 0), 0, 0)

  /** The decoder is the automaton followed by its events. */
  lemma {:induction false} PushReactsToEvents(d: Decoder, bytes: seq<byte>)
    ensures d.Push(bytes) == d.(parser := d.parser.Feed(bytes)).ReactAll(d.parser.Events(bytes))
    decreases |bytes|
  {
    hide Parser.Step, Display.Apply;
    if bytes != [] {
      var (next, e) := d.parser.Step(bytes[0]);
      var rest := next.Events(bytes[1..]);
      PushReactsToEvents(d.HandleByte(bytes[0]), bytes[1..]);
      if e == Quiet {
        assert [] + rest == rest;
      } else {
        assert ([e] + rest)[0] == e && ([e] + rest)[1..] == rest;
      }
    }
  }

  lemma {:induction false} ReactAllKeeps(d: Decoder, events: seq<Event>)
    requires d.display.Rectangular() && PagesAgree(d.display.grid)
    ensures var t := d.ReactAll(events);
            t.display.Rectangular() && PagesAgree(t.display.grid)
    decreases |events|
  {
    hide Display.Apply, PagesAgree, Display.Rectangular;
    if events != [] {
      if events[0].Dispatch? {
        ApplyKeeps(d.display, events[0].payload);
      }
      ReactAllKeeps(d.React(events[0]), events[1..]);
    }
  }

  /** A use of the decoder: bytes off the stream, or a layout forced by the user. */
  datatype Use = Bytes(bytes: seq<byte>) | Layout(rows: int, cols: int)

  function Using(d: Decoder, uses: seq<Use>): Decoder
    decreases |uses|
  {
    if uses == [] then d else
    Using(match uses[0]
          case Bytes(bytes) => d.Push(bytes)
          case Layout(rows, cols) => d.(display := d.display.SetCanvas(rows, cols)), uses[1..])
  }

  lemma {:induction false} UsingKeeps(d: Decoder, uses: seq<Use>)
    requires d.display.Rectangular() && PagesAgree(d.display.grid)
    ensures var t := Using(d, uses); t.display.Rectangular() && PagesAgree(t.display.grid)
    decreases |uses|
  {
    if uses != [] {
      match uses[0]
      case Bytes(bytes) =>
        PushReactsToEvents(d, bytes);
        ReactAllKeeps(d.(parser := d.parser.Feed(bytes)), d.parser.Events(bytes));
        UsingKeeps(d.Push(bytes), uses[1..]);
      case Layout(rows, cols) =>
        UsingKeeps(d.(display := d.display.SetCanvas(rows, cols)), uses[1..]);
    }
  }

  /** Over every use of the decoder the canvas stays a rectangle, and every cell's
      glyph comes from the font page its attribute byte selects. */
  lemma CanvasLaw(uses: seq<Use>)
    ensures var t := Using(START, uses); t.display.Rectangular() && PagesAgree(t.display.grid)
  {
    UsingKeeps(START, uses);
  }

  /** A DisplayPort frame, in either layout, has exactly the effect of its payload. */
  lemma FrameTakesEffect(d: Decoder, v2: bool, direction: byte, flags: byte, functionId: uint16, payload: seq<byte>)
    requires d.parser.stage == Idle && IsDirection(direction) && Encodable(v2, functionId, payload)
    ensures var t := d.Push(Encode(v2, direction, flags, functionId, payload));
            && t.parser.stage == Idle && t.messages == d.messages + 1 && t.errors == d.errors
            && t.display == if functionId == MSP_DISPLAYPORT then d.display.Apply(payload) else d.display
  {
    hide Parser.Step, Display.Apply;
    var frame := Encode(v2, direction, flags, functionId, payload);
    RoundTrip(d.parser, v2, direction, flags, functionId, payload);
    PushReactsToEvents(d, frame);
    ReactOne(d.(parser := d.parser.Feed(frame)), Dispatch(functionId, payload));
  }

  lemma ReactOne(d: Decoder, e: Event)
    ensures d.ReactAll([e]) == d.React(e)
  {
    hide Decoder.React;
    assert [e][1..] == [];
  }

  /** A frame with one byte damaged is counted once and shows nothing. */
  lemma DamageShowsNothing(
    d: Decoder, v2: bool, direction: byte, flags: byte, functionId: uint16, payload: seq<byte>, k: nat, x: byte)
    requires d.parser.stage == Idle && IsDirection(direction) && Encodable(v2, functionId, payload)
    requires var frame := Encode(v2, direction, flags, functionId, payload);
             3 <= k < |frame| && !SizeField(v2, k) && x != frame[k]
    ensures var t := d.Push(Encode(v2, direction, flags, functionId, payload)[k := x]);
            t == Decoder(t.parser, d.display, d.messages, d.errors + 1) && t.parser.stage == Idle
  {
    hide Parser.Step, Display.Apply;
    var damaged := Encode(v2, direction, flags, functionId, payload)[k := x];
    DetectsDamage(d.parser, v2, direction, flags, functionId, payload, k, x);
    PushReactsToEvents(d, damaged);
    ReactOne(d.(parser := d.parser.Feed(damaged)), ChecksumError);
  }

  // The class.

  datatype RawFrame = RawFrame(rows: nat, cols: nat, cells: seq<Cell>)

  type OsdFrame = f: RawFrame | |f.cells| == f.rows * f.cols witness RawFrame(0, 0, [])

  function Grids(frames: seq<OsdFrame>): seq<Grid> {
    seq(|frames|, i requires 0 <= i < |frames| => Rows(frames[i].cells, frames[i].rows, frames[i].cols))
  }

  class MspOsdDecoder {
    var stage: Stage
    var v2: bool
    var functionId: uint16
    var expectedSize: uint16
    var checksum: bv8
    var payload: seq<byte>
    var rows: nat
    var cols: nat
    var cells: seq<Cell>  // row-major
    const listening: bool           // whether a callback is installed
    var published: seq<OsdFrame>    // what the callback has received
    ghost var due: seq<OsdFrame>    // what it has received, or would have
    var frames: nat
    var messages: nat
    var checksumErrors: nat

    ghost predicate Valid()
      reads this`rows, this`cols, this`cells, this`published, this`due
    {
      |cells| == rows * cols && published == if listening then due else []
    }

    ghost function Automaton(): Parser
      reads this`stage, this`v2, this`functionId, this`expectedSize, this`checksum, this`payload
    {
      Parser(stage, v2, functionId, expectedSize, checksum, payload)
    }

    ghost function Shown(): Display
      requires Valid()
      reads this`rows, this`cols, this`cells, this`published, this`due, this`frames
    {
      Display(Rows(cells, rows, cols), cols, Grids(due), frames)
    }

    ghost function View(): Decoder
      requires Valid()
      reads this
    {
      Decoder(Automaton(), Shown(), messages, checksumErrors)
    }

    constructor (listening: bool)
      ensures Valid() && View() == START && this.listening == listening
    {
      this.listening, due := listening, [];
      stage, v2, functionId, expectedSize, checksum, payload := Idle, false, 0, 0, 0, [];
      rows, cols, cells := 0, 0, [];
      published, frames, messages, checksumErrors := [], 0, 0, 0;
      new;
      SetCanvas(ROWS_HD, COLS_HD);
    }

    method SetCanvas(newRows: int, newCols: int)
      requires Valid()
      modifies this`rows, this`cols, this`cells
      ensures Valid() && Shown() == old(Shown()).SetCanvas(newRows, newCols)
    {
      if newRows <= 0 || newCols <= 0 { return; }
      if rows == newRows && cols == newCols { return; }
      rows := newRows;
      cols := newCols;
      cells := seq(rows * cols, _ => BLANK);
      BlankRows(rows, cols);
    }

    method Clear()
      requires Valid()
      modifies this`cells
      ensures Valid() && Shown() == old(Shown()).Clear()
    {
      cells := seq(|cells|, _ => BLANK);
      BlankRows(rows, cols);
    }

    method Publish()
      requires Valid()
      modifies this`published, this`due
      ensures Valid() && Shown() == old(Shown()).Publish()
    {
      due := due + [RawFrame(rows, cols, cells)];
      if listening { published := published + [RawFrame(rows, cols, cells)]; }
    }

    /** The loop that writes characters into a row until the edge or a NUL. */
    method WriteCells(row: nat, col: nat, attribute: byte, text: seq<byte>)
      requires Valid() && row < rows && col < cols
      modifies this`cells
      ensures Valid() && Shown() == old(Shown()).(grid := WriteString(old(Shown()).grid, row, col, attribute, text))
    {
      hide Rows, Visible;
      ghost var before := Rows(cells, rows, cols);
      ghost var line, glyphs := before[row], Glyphs(text, attribute);
      var page := 256 * (attribute % 4);
      var i := 0;
      assert Overlay(line, col, glyphs[..0]) == line && before[row := line] == before && text[0..] == text;
      while i < |text|
        invariant 0 <= i <= |text| && col + i <= cols && |cells| == rows * cols
        invariant i + Visible(text[i..], cols - col - i) == Visible(text, cols - col)
        invariant Rows(cells, rows, cols) == before[row := Overlay(line, col, glyphs[..i])]
      {
        VisibleTurn(text, i, cols - col - i);
        if col + i >= cols { break; }
        if text[i] == 0 { break; }
        IndexInBounds(rows, cols, row, col + i);
        PutsGlyph(cells, rows, cols, before, row, col, glyphs, i);
        cells := cells[row * cols + col + i := Cell(text[i] + page, attribute)];
        i := i + 1;
      }
      VisibleTurn(text, i, cols - col - i);
      assert glyphs[..i] == Glyphs(text[..i], attribute);
    }

    method HandleDisplayPort(data: seq<byte>)
      requires Valid()
      modifies this`rows, this`cols, this`cells, this`published, this`due, this`frames
      ensures Valid() && Shown() == old(Shown()).Apply(data)
    {
      if |data| < 1 { return; }
      var command := data[0];
      if command == 2 {
        Clear();
      } else if command == 3 {
        if |data| < 4 { return; }
        var row, col := data[1], data[2];
        if row >= rows || col >= cols { return; }
        WriteCells(row, col, data[3], data[4..]);
      } else if command == 4 {
        frames := frames + 1;
        Publish();
      } else if command == 5 {
        if |data| >= 3 {
          if data[2] == 0 { SetCanvas(ROWS_SD, COLS_SD); } else { SetCanvas(ROWS_HD, COLS_HD); }
        }
      } else if command == 1 {
        Clear();
        Publish();
      }
    }

    method DispatchMessage()
      requires Valid()
      modifies this`rows, this`cols, this`cells, this`published, this`due, this`frames, this`messages
      ensures Valid() && View() == old(View()).React(Dispatch(functionId, payload))
    {
      messages := messages + 1;
      if functionId == MSP_DISPLAYPORT {
        HandleDisplayPort(payload);
      }
    }

    method Verdict(b: byte)
      requires Valid() && (stage == V1Checksum || stage == V2Checksum)
      modifies this
      ensures Valid() && View() == old(View()).HandleByte(b)
    {
      hide Display.Apply;
      if Value(checksum) == b {
        DispatchMessage();
      } else {
        checksumErrors := checksumErrors + 1;
      }
      stage := Idle;
    }

    /** The header, and version 1 up to its checksum. */
    method AdvanceV1(b: byte)
      requires stage in {Idle, HeaderM, HeaderArrow, V1Size, V1Command, V1Payload}
      modifies this`stage, this`v2, this`functionId, this`expectedSize, this`checksum, this`payload
      ensures (Automaton(), Quiet) == old(Automaton()).Step(b)
    {
      hide Crc8, Xor8, Bits;
      match stage
      case Idle =>
        if b == DOLLAR { stage := HeaderM; }
      case HeaderM =>
        if b == LETTER_M {
          v2 := false;
          stage := HeaderArrow;
        } else if b == LETTER_X {
          v2 := true;
          stage := HeaderArrow;
        } else if b == DOLLAR {
          // a second '$' restarts the header
        } else {
          stage := Idle;
        }
      case HeaderArrow =>
        if IsDirection(b) {
          payload, checksum := [], 0;
          stage := if v2 then V2Flags else V1Size;
        } else {
          stage := Idle;
        }
      case V1Size =>
        expectedSize, checksum, stage := b, Bits(b), V1Command;
      case V1Command =>
        functionId, checksum := b, Xor8(checksum, b);
        stage := if expectedSize > 0 then V1Payload else V1Checksum;
      case V1Payload =>
        payload, checksum := payload + [b], Xor8(checksum, b);
        if |payload| >= expectedSize { stage := V1Checksum; }
    }

    /** Version 2 up to its checksum. */
    method AdvanceV2(b: byte)
      requires stage in {V2Flags, V2FunctionLo, V2FunctionHi, V2SizeLo, V2SizeHi, V2Payload}
      modifies this`stage, this`functionId, this`expectedSize, this`checksum, this`payload
      ensures (Automaton(), Quiet) == old(Automaton()).Step(b)
    {
      hide Crc8, Xor8, Bits;
      match stage
      case V2Flags =>
        checksum := Crc8DvbS2(0, b);
        stage := V2FunctionLo;
      case V2FunctionLo =>
        functionId := b;
        checksum := Crc8DvbS2(checksum, b);
        stage := V2FunctionHi;
      case V2FunctionHi =>
        functionId := functionId % 256 + 256 * b;
        checksum := Crc8DvbS2(checksum, b);
        stage := V2SizeLo;
      case V2SizeLo =>
        expectedSize := b;
        checksum := Crc8DvbS2(checksum, b);
        stage := V2SizeHi;
      case V2SizeHi =>
        expectedSize := expectedSize % 256 + 256 * b;
        checksum := Crc8DvbS2(checksum, b);
        stage := if expectedSize > MAX_V2_PAYLOAD then Idle else if expectedSize > 0 then V2Payload else V2Checksum;
      case V2Payload =>
        payload := payload + [b];
        checksum := Crc8DvbS2(checksum, b);
        if |payload| >= expectedSize { stage := V2Checksum; }
    }

    method HandleByte(b: byte)
      requires Valid()
      modifies this
      ensures Valid() && View() == old(View()).HandleByte(b)
    {
      if stage == V1Checksum || stage == V2Checksum {
        Verdict(b);
      } else {
        hide Parser.Step;
        if stage in {Idle, HeaderM, HeaderArrow, V1Size, V1Command, V1Payload} { AdvanceV1(b); } else { AdvanceV2(b); }
      }
    }

    method Push(data: seq<byte>)
      requires Valid()
      modifies this
      ensures Valid() && View() == old(View()).Push(data)
    {
      hide Decoder.HandleByte;
      var i := 0;
      assert data[0..] == data;
      while i < |data|
        invariant 0 <= i <= |data| && Valid()
        invariant View().Push(data[i..]) == old(View()).Push(data)
      {
        assert data[i..][1..] == data[i + 1..];
        HandleByte(data[i]);
        i := i + 1;
      }
    }
  }
}
