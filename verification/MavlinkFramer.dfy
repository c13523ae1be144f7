/** The MAVLink framer: an incremental scanner over a growing buffer, the pure scan
    it refines, and why the way a stream is cut does not matter. */
module MavlinkFramers {
  import opened Bytes

  const MAGIC_V1: byte := 0xfe
  const MAGIC_V2: byte := 0xfd
  const V1_HEADER_SIZE := 6
  const V2_HEADER_SIZE := 10
  const CHECKSUM_SIZE := 2
  const SIGNATURE_SIZE := 13
  const MAX_FRAME_SIZE := 280

  predicate IsMagic(b: byte) {
    b == MAGIC_V1 || b == MAGIC_V2
  }

  datatype Message = Message(data: seq<byte>, v2: bool, systemId: byte, componentId: byte, msgId: nat)

  function HeaderSize(magic: byte): nat {
    if magic == MAGIC_V2 then V2_HEADER_SIZE else V1_HEADER_SIZE
  }

  /** The length a frame announces once its header is there. */
  function FrameLength(b: seq<byte>): (n: nat)
    requires b != [] && IsMagic(b[0]) && |b| >= HeaderSize(b[0])
    ensures HeaderSize(b[0]) + CHECKSUM_SIZE <= n <= MAX_FRAME_SIZE
  {
    HeaderSize(b[0]) + b[1] + CHECKSUM_SIZE + if b[0] == MAGIC_V2 && b[2] % 2 == 1 then SIGNATURE_SIZE else 0
  }

  function ReadMessage(frame: seq<byte>): Message
    requires frame != [] && IsMagic(frame[0]) && |frame| >= HeaderSize(frame[0])
  {
    if frame[0] == MAGIC_V2 then
      Message(frame, true, frame[5], frame[6], ReadLe24(frame[7], frame[8], frame[9]))
    else Message(frame, false, frame[3], frame[4], frame[5])
  }

  /** The start of a frame whose end has not arrived yet. */
  predicate Partial(b: seq<byte>) {
    b != [] && IsMagic(b[0]) && (|b| < HeaderSize(b[0]) || |b| < FrameLength(b))
  }

  /** A buffer that starts with a whole frame. */
  predicate StartsFrame(b: seq<byte>) {
    b != [] && IsMagic(b[0]) && |b| >= HeaderSize(b[0]) && |b| >= FrameLength(b)
  }

  /** What a framer has handed out and skipped so far, and what it still holds. */
  datatype Scanned = Scanned(messages: seq<Message>, dropped: nat, residue: seq<byte>)
  {
    function Then(next: Scanned): Scanned {
      Scanned(messages + next.messages, dropped + next.dropped, next.residue)
    }

    /** One more chunk: scan it behind the residue. */
    function Push(chunk: seq<byte>): Scanned {
      Then(Scan(residue + chunk))
    }

    function PushAll(chunks: seq<seq<byte>>): Scanned
      decreases |chunks|
    {
      if chunks == [] then this else Push(chunks[0]).PushAll(chunks[1..])
    }
  }

  const EMPTY := Scanned([], 0, [])

  /** Everything a byte string yields: whole frames, skipped bytes, and what is left for later. */
  function Scan(b: seq<byte>): Scanned {
    if b == [] || Partial(b) then Scanned([], 0, b)
    else if !IsMagic(b[0]) then
      var rest := Scan(b[1..]);
      rest.(dropped := rest.dropped + 1)
    else
      var rest := Scan(b[FrameLength(b)..]);
      rest.(messages := [ReadMessage(b[..FrameLength(b)])] + rest.messages)
  }

  /** One turn of the scan, after `before` messages. */
  lemma ScanTurn(b: seq<byte>, before: seq<Message>)
    ensures b == [] || Partial(b) ==> Scan(b) == Scanned([], 0, b) && before + Scan(b).messages == before
    ensures b != [] && !IsMagic(b[0]) ==>
              var rest := Scan(b[1..]); Scan(b) == Scanned(rest.messages, rest.dropped + 1, rest.residue)
    ensures StartsFrame(b) ==>
              var n := FrameLength(b);
              var message, rest := ReadMessage(b[..n]), Scan(b[n..]);
              && Scan(b).dropped == rest.dropped && Scan(b).residue == rest.residue
              && before + Scan(b).messages == before + [message] + rest.messages
  {
    if StartsFrame(b) {
      var n := FrameLength(b);
      ConcatAssoc(before, [ReadMessage(b[..n])], Scan(b[n..]).messages, []);
    }
  }

  class MavlinkFramer {
    var buffer: seq<byte>
    var messages: nat
    var droppedBytes: nat
    var received: seq<Message>  // what the callback has seen

    ghost predicate Valid()
      reads this
    {
      messages == |received|
    }

    ghost function View(): Scanned
      reads this
    {
      Scanned(received, droppedBytes, buffer)
    }

    constructor ()
      ensures Valid() && View() == EMPTY
    {
      buffer, messages, droppedBytes, received := [], 0, 0, [];
    }

    /** Appends a chunk and takes every whole frame out. Both size guards of the
        source stand where it has them; neither is ever taken. */
    method Push(data: seq<byte>)
      requires Valid()
      modifies this
      ensures Valid() && View() == old(View()).Push(data)
      ensures |buffer| <= 279
    {
      hide Scan;
      buffer := buffer + data;
      ghost var whole := Scan(buffer);
      ghost var soFar: seq<Message>, skipped: nat := [], 0;
      var offset := 0;
      assert buffer[0..] == buffer && soFar + whole.messages == whole.messages;
      while offset < |buffer|
        invariant 0 <= offset <= |buffer| && buffer == old(buffer) + data
        invariant received == old(received) + soFar && messages == old(messages) + |soFar|
        invariant droppedBytes == old(droppedBytes) + skipped
        invariant var rest := Scan(buffer[offset..]);
                  whole == Scanned(soFar + rest.messages, skipped + rest.dropped, rest.residue)
        decreases |buffer| - offset
      {
        ghost var rest := buffer[offset..];
        ScanTurn(rest, soFar);
        var magic := buffer[offset];
        if !IsMagic(magic) {
          SlicesOfRest(buffer, offset, 1);
          offset := offset + 1;
          droppedBytes := droppedBytes + 1;
          skipped := skipped + 1;
          continue;
        }
        var v2 := magic == MAGIC_V2;
        var header := if v2 then V2_HEADER_SIZE else V1_HEADER_SIZE;
        if |buffer| - offset < header { break; }
        var frameLength: nat := header + buffer[offset + 1] + CHECKSUM_SIZE;
        if v2 && buffer[offset + 2] % 2 == 1 {
          frameLength := frameLength + SIGNATURE_SIZE;
        }
        assert frameLength == FrameLength(rest);
        if frameLength > MAX_FRAME_SIZE { assert false; }  // the oversize branch
        if |buffer| - offset < frameLength { break; }
        var frame := buffer[offset..offset + frameLength];
        SlicesOfRest(buffer, offset, frameLength);
        hide FrameLength, ReadMessage;
        var message := ReadMessage(frame);
        messages := messages + 1;
        received := received + [message];
        soFar := soFar + [message];
        offset := offset + frameLength;
      }
      ScanTurn(buffer[offset..], soFar);
      buffer := buffer[offset..];
      if |buffer| > 4 * MAX_FRAME_SIZE { assert false; }  // the buffer-reset guard
    }
  }
}
