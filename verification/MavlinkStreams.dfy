/** Laws of the MAVLink framer over whole streams. */
module MavlinkStreams {
  import opened Bytes
  import opened MavlinkFramers

  /** More bytes do not change what a buffer that is not partial starts with. */
  lemma PrefixDecides(a: seq<byte>, b: seq<byte>)
    requires a != []
    ensures StartsFrame(a) ==> StartsFrame(a + b) && FrameLength(a + b) == FrameLength(a)
    ensures !Partial(a) ==> !Partial(a + b)
  {
  }

  /** Scanning in one go is scanning the front, then the rest behind its residue. */
  lemma {:induction false} ScanConcat(a: seq<byte>, b: seq<byte>)
    ensures Scan(a + b) == Scan(a).Push(b)
    decreases |a|
  {
    hide ReadMessage;
    ScanTurn(a, []);
    if a == [] || Partial(a) {
      assert [] + Scan(a + b).messages == Scan(a + b).messages;
    } else {
      PrefixDecides(a, b);
      if !IsMagic(a[0]) {
        assert (a + b)[1..] == a[1..] + b;
        ScanConcat(a[1..], b);
      } else {
        var n := FrameLength(a);
        assert (a + b)[n..] == a[n..] + b && (a + b)[..n] == a[..n];
        ScanConcat(a[n..], b);
        ConcatAssoc([ReadMessage(a[..n])], Scan(a[n..]).messages, Scan(Scan(a).residue + b).messages, []);
      }
    }
  }

  lemma {:induction false} PushAllIsScan(done: seq<byte>, chunks: seq<seq<byte>>)
    ensures Scan(done).PushAll(chunks) == Scan(done + Flatten(chunks))
    decreases |chunks|
  {
    hide Scan;
    if chunks == [] {
      assert done + [] == done;
    } else {
      ScanConcat(done, chunks[0]);
      PushAllIsScan(done + chunks[0], chunks[1..]);
      ConcatAssoc(done, chunks[0], Flatten(chunks[1..]), []);
    }
  }

  /** Chunk independence: however a stream is cut, a framer ends with the same
      messages, dropped bytes and residue as from one push of the whole stream. */
  lemma ChunkIndependence(chunks: seq<seq<byte>>)
    ensures EMPTY.PushAll(chunks) == Scan(Flatten(chunks))
  {
    hide Scan;
    ScanNothing();
    PushAllIsScan([], chunks);
    assert [] + Flatten(chunks) == Flatten(chunks);
  }

  lemma ScanNothing()
    ensures Scan([]) == EMPTY
  {
  }

  // What a scan means: the one way to read a stream as frames and noise.

  datatype Segment = Noise(skipped: byte) | Frame(data: seq<byte>)
  {
    predicate Valid() {
      if Noise? then !IsMagic(skipped) else StartsFrame(data) && FrameLength(data) == |data|
    }

    function Raw(): seq<byte> {
      if Noise? then [skipped] else data
    }
  }

  ghost predicate AllValid(segments: seq<Segment>) {
    forall i :: 0 <= i < |segments| ==> segments[i].Valid()
  }

  function Raw(segments: seq<Segment>): seq<byte> {
    if segments == [] then [] else segments[0].Raw() + Raw(segments[1..])
  }

  function Messages(segments: seq<Segment>): seq<Message>
    requires AllValid(segments)
  {
    if segments == [] then []
    else if segments[0].Noise? then Messages(segments[1..])
    else [ReadMessage(segments[0].data)] + Messages(segments[1..])
  }

  function NoiseCount(segments: seq<Segment>): nat {
    if segments == [] then 0 else (if segments[0].Noise? then 1 else 0) + NoiseCount(segments[1..])
  }

  /** Frames and noise, in any mixture, are read back exactly; whatever starts a
      frame without finishing it is kept. */
  lemma {:induction false} ScanReads(segments: seq<Segment>, tail: seq<byte>)
    requires AllValid(segments) && (tail == [] || Partial(tail))
    ensures Scan(Raw(segments) + tail) == Scanned(Messages(segments), NoiseCount(segments), tail)
    decreases |segments|
  {
    hide FrameLength, ReadMessage, Scan, Segment.Raw, Segment.Valid;
    if segments == [] {
      assert Raw(segments) + tail == tail;
      ScanTurn(tail, []);
      assert [] + Scan(tail).messages == Scan(tail).messages;
    } else {
      var rest := Raw(segments[1..]) + tail;
      ScanReads(segments[1..], tail);
      ScansSegment(segments[0], rest);
      ConcatAssoc(segments[0].Raw(), Raw(segments[1..]), tail, []);
    }
  }

  /** A segment in front of anything is read first. */
  lemma ScansSegment(first: Segment, rest: seq<byte>)
    requires first.Valid()
    ensures Scan(first.Raw() + rest) ==
            if first.Noise? then Scan(rest).(dropped := Scan(rest).dropped + 1)
            else Scan(rest).(messages := [ReadMessage(first.data)] + Scan(rest).messages)
  {
    hide FrameLength, ReadMessage;
    var raw := first.Raw();
    var b := raw + rest;
    assert b[|raw|..] == rest && b[..|raw|] == raw;
    PrefixDecides(raw, rest);
  }

  /** The segments a scan finds. */
  function Segments(b: seq<byte>): seq<Segment> {
    if b == [] || Partial(b) then []
    else if !IsMagic(b[0]) then [Noise(b[0])] + Segments(b[1..])
    else [Frame(b[..FrameLength(b)])] + Segments(b[FrameLength(b)..])
  }

  /** What it means for a scan to have tiled a byte string. */
  ghost predicate Tiled(b: seq<byte>, segments: seq<Segment>, s: Scanned) {
    && AllValid(segments)
    && b == Raw(segments) + s.residue
    && s.messages == Messages(segments) && s.dropped == NoiseCount(segments)
    && (s.residue == [] || Partial(s.residue)) && |s.residue| < MAX_FRAME_SIZE
  }

  lemma TilesMore(first: Segment, b: seq<byte>, segments: seq<Segment>, s: Scanned)
    requires first.Valid() && Tiled(b, segments, s)
    ensures Tiled(first.Raw() + b, [first] + segments,
                  if first.Noise? then s.(dropped := s.dropped + 1)
                  else s.(messages := [ReadMessage(first.data)] + s.messages))
  {
    hide FrameLength, ReadMessage, Partial;
    assert ([first] + segments)[1..] == segments;
    ConcatAssoc(first.Raw(), Raw(segments), s.residue, []);
  }

  /** Every byte string is segments and a residue: nothing is lost or made up, only
      bytes that start no frame are skipped, and the residue is short. */
  lemma {:induction false} ScanTiles(b: seq<byte>)
    ensures Tiled(b, Segments(b), Scan(b))
    decreases |b|
  {
    if b == [] || Partial(b) {
      assert [] + b == b;
    } else {
      var n := if IsMagic(b[0]) then FrameLength(b) else 1;
      var first := if IsMagic(b[0]) then Frame(b[..n]) else Noise(b[0]);
      FirstSegment(b, n, first);
      hide Tiled, ReadMessage, FrameLength, Partial;
      ScanTiles(b[n..]);
      TilesMore(first, b[n..], Segments(b[n..]), Scan(b[n..]));
    }
  }

  lemma FirstSegment(b: seq<byte>, n: nat, first: Segment)
    requires b != [] && !Partial(b)
    requires n == if IsMagic(b[0]) then FrameLength(b) else 1
    requires first == if IsMagic(b[0]) then Frame(b[..n]) else Noise(b[0])
    ensures first.Valid() && first.Raw() + b[n..] == b && Segments(b) == [first] + Segments(b[n..])
  {
  }

  function TotalSize(messages: seq<Message>): nat {
    if messages == [] then 0 else |messages[0].data| + TotalSize(messages[1..])
  }

  lemma {:induction false} RawSize(segments: seq<Segment>)
    requires AllValid(segments)
    ensures |Raw(segments)| == TotalSize(Messages(segments)) + NoiseCount(segments)
  {
    if segments != [] {
      RawSize(segments[1..]);
    }
  }

  /** Conservation: every byte pushed is in a message, counted as dropped, or still held. */
  lemma Conservation(chunks: seq<seq<byte>>)
    ensures var s := EMPTY.PushAll(chunks);
            |Flatten(chunks)| == TotalSize(s.messages) + s.dropped + |s.residue|
  {
    ChunkIndependence(chunks);
    ScanTiles(Flatten(chunks));
    RawSize(Segments(Flatten(chunks)));
  }

  // What a sender writes.

  datatype Packet =
    | V1(sequence: byte, systemId: byte, componentId: byte, msgid: nat, payload: seq<byte>, checksum: uint16)
    | V2(incompatFlags: byte, compatFlags: byte, sequence: byte, systemId: byte, componentId: byte, msgid: nat,
         payload: seq<byte>, checksum: uint16, signature: seq<byte>)
  {
    /** A signature is there exactly when the signed flag says so. */
    predicate Valid() {
      |payload| < 256 && msgid < (if V1? then 0x100 else 0x100_0000) &&
      (V2? ==> |signature| == if incompatFlags % 2 == 1 then SIGNATURE_SIZE else 0)
    }

    function Encode(): seq<byte>
      requires Valid()
    {
      match this
      case V1(sequence, systemId, componentId, msgid, payload, checksum) =>
        [MAGIC_V1, |payload|, sequence, systemId, componentId, msgid] + payload + Be16(checksum)
      case V2(incompat, compat, sequence, systemId, componentId, msgid, payload, checksum, signature) =>
        [MAGIC_V2, |payload|, incompat, compat, sequence, systemId, componentId,
         msgid % 256, msgid / 256 % 256, msgid / 0x1_0000] + payload + Be16(checksum) + signature
    }

    function Sent(): Message
      requires Valid()
    {
      Message(Encode(), V2?, systemId, componentId, msgid)
    }
  }

  /** A packet of either version, signed or not, is one frame that reads back as sent. */
  lemma PacketIsFrame(p: Packet)
    requires p.Valid()
    ensures Frame(p.Encode()).Valid() && ReadMessage(p.Encode()) == p.Sent()
  {
    var b := p.Encode();
    if p.V2? {
      assert ReadLe24(b[7], b[8], b[9]) == p.msgid by {
        assert p.msgid / 256 / 256 == p.msgid / 0x1_0000;
      }
    }
  }

  /** A version 1 packet on the wire. */
  lemma WireV1(p: Packet)
    requires p.V1? && p.Valid()
    ensures p.Encode() == [0xfe, |p.payload|, p.sequence, p.systemId, p.componentId, p.msgid] + p.payload
                          + [p.checksum / 256, p.checksum % 256]
  {
  }

  /** A version 2 packet on the wire: the message number with its low byte first, and 13
      bytes of signature when the lowest incompatibility flag is set. */
  lemma WireV2(p: Packet)
    requires p.V2? && p.Valid()
    ensures p.Encode() == [0xfd, |p.payload|, p.incompatFlags, p.compatFlags, p.sequence, p.systemId, p.componentId,
                           p.msgid % 256, p.msgid / 256 % 256, p.msgid / 0x1_0000] + p.payload
                          + [p.checksum / 256, p.checksum % 256] + p.signature
    ensures |p.signature| == if p.incompatFlags % 2 == 1 then 13 else 0
  {
  }

  lemma FrameIsV1(data: seq<byte>) returns (p: Packet)
    requires Frame(data).Valid() && data[0] == MAGIC_V1
    ensures p.Valid() && p.V1? && data == p.Encode()
  {
    var n: int := data[1];
    p := Packet.V1(data[2], data[3], data[4], data[5], data[6..6 + n], ReadBe16(data[6 + n], data[7 + n]));
  }

  lemma FrameIsV2(data: seq<byte>) returns (p: Packet)
    requires Frame(data).Valid() && data[0] == MAGIC_V2
    ensures p.Valid() && p.V2? && data == p.Encode()
  {
    var n: int := data[1];
    var msgid := ReadLe24(data[7], data[8], data[9]);
    MessageNumberBytes(data[7], data[8], data[9]);
    hide ReadLe24;
    p := Packet.V2(data[2], data[3], data[4], data[5], data[6], msgid, data[10..10 + n],
                   ReadBe16(data[10 + n], data[11 + n]), data[12 + n..]);
  }

  /** Conversely, every whole frame is a packet, and read as that. */
  lemma FrameIsPacket(data: seq<byte>) returns (p: Packet)
    requires Frame(data).Valid()
    ensures p.Valid() && data == p.Encode() && ReadMessage(data) == p.Sent()
  {
    if data[0] == MAGIC_V1 {
      p := FrameIsV1(data);
    } else {
      p := FrameIsV2(data);
    }
    hide Packet.Encode, FrameLength, ReadMessage;
    PacketIsFrame(p);
  }

  lemma MessageNumberBytes(a: byte, b: byte, c: byte)
    ensures var n := ReadLe24(a, b, c); n < 0x100_0000 && n % 256 == a && n / 256 % 256 == b && n / 0x1_0000 == c
  {
    var x: int, y: int, z: int := a, b, c;
    TakesOff(z * 256 + y, x);
    TakesOff(z, y);
    assert x + y * 256 + z * 0x1_0000 == (z * 256 + y) * 256 + x;
  }

  ghost predicate BeginsPacket(b: seq<byte>, p: Packet)
    requires p.Valid()
  {
    |b| < |p.Encode()| && b == p.Encode()[..|b|]
  }

  function Zeros(n: nat): seq<byte> {
    seq(n, _ => 0)
  }

  /** Any beginning of a frame can be finished. */
  lemma Finishes(b: seq<byte>) returns (data: seq<byte>)
    requires Partial(b)
    ensures Frame(data).Valid() && |b| < |data| && b == data[..|b|]
  {
    var header := HeaderSize(b[0]);
    var begun := if |b| < header then b + Zeros(header - |b|) else b;
    data := begun + Zeros(FrameLength(begun) - |begun|);
  }

  /** What is kept for later is exactly the beginnings of packets. */
  lemma PartialExactly(b: seq<byte>)
    ensures Partial(b) <==> b != [] && exists p: Packet :: p.Valid() && BeginsPacket(b, p)
  {
    if Partial(b) {
      var data := Finishes(b);
      var p := FrameIsPacket(data);
      assert BeginsPacket(b, p);
    }
    if b != [] {
      forall p: Packet | p.Valid() && BeginsPacket(b, p)
        ensures Partial(b)
      {
        PacketIsFrame(p);
        BeginningIsPartial(b, p.Encode());
      }
    }
  }

  lemma BeginningIsPartial(b: seq<byte>, data: seq<byte>)
    requires Frame(data).Valid() && 0 < |b| < |data| && b == data[..|b|]
    ensures Partial(b)
  {
    assert forall i :: 0 <= i < |b| ==> b[i] == data[i];
  }

  datatype Traffic = Filler(bytes: seq<byte>) | Packet(packet: Packet)

  ghost predicate ValidTraffic(traffic: seq<Traffic>) {
    forall i :: 0 <= i < |traffic| ==>
      match traffic[i]
      case Filler(bytes) => forall k :: 0 <= k < |bytes| ==> !IsMagic(bytes[k])
      case Packet(p) => p.Valid()
  }

  function Transmitted(traffic: seq<Traffic>): seq<byte>
    requires ValidTraffic(traffic)
  {
    if traffic == [] then []
    else (match traffic[0] case Filler(bytes) => bytes case Packet(p) => p.Encode()) + Transmitted(traffic[1..])
  }

  function SentMessages(traffic: seq<Traffic>): seq<Message>
    requires ValidTraffic(traffic)
  {
    if traffic == [] then []
    else (match traffic[0] case Filler(_) => [] case Packet(p) => [p.Sent()]) + SentMessages(traffic[1..])
  }

  function FillerSize(traffic: seq<Traffic>): nat {
    if traffic == [] then 0
    else (match traffic[0] case Filler(bytes) => |bytes| case Packet(_) => 0) + FillerSize(traffic[1..])
  }

  /** Filler as the noise it is, byte by byte. */
  function NoiseOf(filler: seq<byte>): (r: seq<Segment>)
    ensures |r| == |filler| && forall i :: 0 <= i < |r| ==> r[i] == Noise(filler[i])
  {
    seq(|filler|, i requires 0 <= i < |filler| => Noise(filler[i]))
  }

  /** Traffic as segments. */
  function AsSegments(traffic: seq<Traffic>): seq<Segment>
    requires ValidTraffic(traffic)
  {
    if traffic == [] then [] else
    (match traffic[0] case Filler(bytes) => NoiseOf(bytes) case Packet(p) => [Frame(p.Encode())])
    + AsSegments(traffic[1..])
  }

  /** What one segment in front adds to the reading of the others. */
  lemma SegmentBefore(first: Segment, rest: seq<Segment>)
    requires first.Valid() && AllValid(rest)
    ensures var all := [first] + rest;
            && AllValid(all) && Raw(all) == first.Raw() + Raw(rest)
            && Messages(all) == (if first.Noise? then [] else [ReadMessage(first.data)]) + Messages(rest)
            && NoiseCount(all) == (if first.Noise? then 1 else 0) + NoiseCount(rest)
  {
    hide Segment.Raw, Segment.Valid, ReadMessage;
    assert ([first] + rest)[1..] == rest;
    assert [] + Messages(rest) == Messages(rest);
  }

  lemma {:induction false} NoiseBefore(filler: seq<byte>, rest: seq<Segment>)
    requires (forall k :: 0 <= k < |filler| ==> !IsMagic(filler[k])) && AllValid(rest)
    ensures var all := NoiseOf(filler) + rest;
            && AllValid(all) && Raw(all) == filler + Raw(rest) && Messages(all) == Messages(rest)
            && NoiseCount(all) == |filler| + NoiseCount(rest)
    decreases |filler|
  {
    hide Raw, Messages, NoiseCount, AllValid, NoiseOf, IsMagic;
    if filler == [] {
      assert NoiseOf(filler) + rest == rest && filler + Raw(rest) == Raw(rest);
    } else {
      var more := NoiseOf(filler[1..]) + rest;
      NoiseBefore(filler[1..], rest);
      SegmentBefore(Noise(filler[0]), more);
      assert NoiseOf(filler) + rest == [Noise(filler[0])] + more;
      assert filler == [filler[0]] + filler[1..];
      ConcatAssoc([filler[0]], filler[1..], Raw(rest), []);
      assert [] + Messages(more) == Messages(more);
    }
  }

  lemma {:induction false} TrafficSegments(traffic: seq<Traffic>)
    requires ValidTraffic(traffic)
    ensures var segments := AsSegments(traffic);
            && AllValid(segments) && Raw(segments) == Transmitted(traffic)
            && Messages(segments) == SentMessages(traffic) && NoiseCount(segments) == FillerSize(traffic)
    decreases |traffic|
  {
    hide Raw, Messages, NoiseCount, NoiseOf, ReadMessage, Packet.Encode, AllValid;
    if traffic == [] {
      NoSegments();
    } else {
      TrafficSegments(traffic[1..]);
      var rest := AsSegments(traffic[1..]);
      match traffic[0]
      case Filler(bytes) =>
        NoiseBefore(bytes, rest);
        assert [] + SentMessages(traffic[1..]) == SentMessages(traffic[1..]);
      case Packet(p) =>
        PacketIsFrame(p);
        SegmentBefore(Frame(p.Encode()), rest);
    }
  }

  lemma NoSegments()
    ensures AllValid([]) && Raw([]) == [] && Messages([]) == [] && NoiseCount([]) == 0
  {
  }

  lemma TrafficScans(traffic: seq<Traffic>)
    requires ValidTraffic(traffic)
    ensures Scan(Transmitted(traffic)) == Scanned(SentMessages(traffic), FillerSize(traffic), [])
  {
    hide Raw, Messages, NoiseCount, AsSegments, Transmitted, SentMessages, FillerSize;
    TrafficSegments(traffic);
    ScanReads(AsSegments(traffic), []);
    assert Raw(AsSegments(traffic)) + [] == Transmitted(traffic);
  }

  /** Round trip with noise: packets of every kind between filler free of magic
      bytes, in chunks of any size, arrive exactly, in order, with their fields. */
  lemma TrafficRecovered(traffic: seq<Traffic>, chunks: seq<seq<byte>>)
    requires ValidTraffic(traffic) && Flatten(chunks) == Transmitted(traffic)
    ensures EMPTY.PushAll(chunks) == Scanned(SentMessages(traffic), FillerSize(traffic), [])
  {
    ChunkIndependence(chunks);
    TrafficScans(traffic);
  }

  predicate AllNoise(bytes: seq<byte>) {
    forall k :: 0 <= k < |bytes| ==> !IsMagic(bytes[k])
  }

  /** Whatever came before, 279 bytes of noise leave nothing unfinished. */
  lemma NoiseSettles(history: seq<byte>, noise: seq<byte>)
    requires AllNoise(noise) && |noise| >= 279
    ensures Scan(history + noise).residue == []
  {
    hide Scan, FrameLength, AllNoise;
    var residue := Scan(history + noise).residue;
    ScanTiles(history + noise);
    if residue != [] {
      NoiseAtEnd(history, noise, Raw(Segments(history + noise)), residue);
    }
  }

  lemma NoiseAtEnd(history: seq<byte>, noise: seq<byte>, front: seq<byte>, end: seq<byte>)
    requires AllNoise(noise) && history + noise == front + end && 0 < |end| <= |noise|
    ensures !IsMagic(end[0])
  {
    assert (history + noise)[|front|] == noise[|noise| - |end|];
  }

  /** Resynchronisation: after any history and then 279 bytes of noise, in chunks of any
      size, everything sent is received exactly. */
  lemma RecoversAfterNoise(history: seq<byte>, noise: seq<byte>, traffic: seq<Traffic>, chunks: seq<seq<byte>>)
    requires AllNoise(noise) && |noise| >= 279 && ValidTraffic(traffic)
    requires Flatten(chunks) == history + noise + Transmitted(traffic)
    ensures EMPTY.PushAll(chunks) ==
            Scan(history + noise).Then(Scanned(SentMessages(traffic), FillerSize(traffic), []))
  {
    hide Scan, AllNoise, Transmitted, SentMessages, FillerSize, ValidTraffic;
    NoiseSettles(history, noise);
    ChunkIndependence(chunks);
    ScanConcat(history + noise, Transmitted(traffic));
    assert [] + Transmitted(traffic) == Transmitted(traffic);
    TrafficScans(traffic);
  }
}
