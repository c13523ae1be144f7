/** RTP packets (sections 5.1 and 5.3.1 of RFC 3550): the parser, and a sender
    that writes every header the parser accepts. */
module RtpPackets {
  import opened Bytes

  const RTP_HEADER_SIZE := 12

  datatype Header = Header(
    payloadType: nat, sequence: uint16, timestamp: uint32, marker: bool, payloadOffset: nat)

  /** A parsed packet with a non-empty payload. */
  datatype Accepted = Accepted(sequence: uint16, timestamp: uint32, marker: bool, payload: seq<byte>)

  function ParseRtp(data: seq<byte>): (h: Option<Header>)
    ensures h.Some? ==> RTP_HEADER_SIZE <= h.value.payloadOffset <= |data|
  {
    if |data| < RTP_HEADER_SIZE || data[0] / 64 != 2 then None else
    var padding := data[0] / 32 % 2 == 1;
    var extension := data[0] / 16 % 2 == 1;
    var afterCsrc := RTP_HEADER_SIZE + data[0] % 16 * 4;
    if afterCsrc > |data| || (extension && afterCsrc + 4 > |data|) then None else
    var offset :=
      if extension then afterCsrc + 4 + ReadBe16(data[afterCsrc + 2], data[afterCsrc + 3]) * 4 else afterCsrc;
    if offset > |data| then None else
    var pad := data[|data| - 1];
    if padding && (pad == 0 || offset + pad > |data|) then None else
    Some(Header(data[1] % 128, ReadBe16(data[2], data[3]), ReadBe32(data[4], data[5], data[6], data[7]),
                data[1] >= 128, offset))
  }

  function PayloadSize(data: seq<byte>, offset: nat): (size: nat)
    requires |data| > 0
    ensures offset <= |data| ==> offset + size <= |data|
  {
    var pad := data[|data| - 1];
    var end := if data[0] / 32 % 2 == 1 && pad > 0 && offset + pad <= |data| then |data| - pad else |data|;
    if end > offset then end - offset else 0
  }

  /** What the depacketiser gets to see of a packet: nothing when the header is
      malformed or the payload is empty. */
  function Accept(data: seq<byte>): (a: Option<Accepted>)
    ensures a.Some? ==> a.value.payload != []
  {
    match ParseRtp(data)
    case None => None
    case Some(h) =>
      var size := PayloadSize(data, h.payloadOffset);
      if size == 0 then None
      else Some(Accepted(h.sequence, h.timestamp, h.marker, data[h.payloadOffset..h.payloadOffset + size]))
  }

  // The sender's side.

  datatype Extension = Extension(profile: uint16, words: seq<byte>)

  datatype Fields = Fields(
    marker: bool, payloadType: nat, timestamp: uint32, ssrc: uint32,
    csrcs: seq<uint32>, extension: Option<Extension>, padding: seq<byte>)
  {
    /** Every header RFC 3550 allows: up to 15 contributing sources, an
        extension of whole 32-bit words, padding whose last byte is its length. */
    ghost predicate Legal() {
      && payloadType < 128
      && |csrcs| < 16
      && (extension.Some? ==> |extension.value.words| % 4 == 0 && |extension.value.words| / 4 < 0x1_0000)
      && |padding| < 256
      && (padding != [] ==> padding[|padding| - 1] == |padding|)
    }
  }

  function CsrcBytes(csrcs: seq<uint32>): (b: seq<byte>)
    ensures |b| == 4 * |csrcs|
  {
    if csrcs == [] then [] else Be32(csrcs[0]) + CsrcBytes(csrcs[1..])
  }

  function ExtensionBytes(e: Option<Extension>): seq<byte>
    requires e.Some? ==> |e.value.words| / 4 < 0x1_0000
  {
    if e.None? then [] else Be16(e.value.profile) + Be16(|e.value.words| / 4) + e.value.words
  }

  ghost function FirstByte(f: Fields): byte
    requires f.Legal()
  {
    128 + (if f.padding != [] then 32 else 0) + (if f.extension.Some? then 16 else 0) + |f.csrcs|
  }

  ghost function FixedHeader(f: Fields, sequence: uint16): (b: seq<byte>)
    requires f.Legal()
    ensures |b| == RTP_HEADER_SIZE
  {
    [FirstByte(f), (if f.marker then 128 else 0) + f.payloadType]
    + Be16(sequence) + Be32(f.timestamp) + Be32(f.ssrc)
  }

  ghost function BuildRtp(f: Fields, sequence: uint16, payload: seq<byte>): seq<byte>
    requires f.Legal()
  {
    FixedHeader(f, sequence) + CsrcBytes(f.csrcs) + ExtensionBytes(f.extension) + payload + f.padding
  }

  lemma FirstByteFields(f: Fields)
    requires f.Legal()
    ensures var b := FirstByte(f);
            && b / 64 == 2
            && (b / 32 % 2 == 1) == (f.padding != [])
            && (b / 16 % 2 == 1) == f.extension.Some?
            && b % 16 == |f.csrcs|
  {
    var n: int, p: int, x: int := |f.csrcs|, if f.padding != [] then 1 else 0, if f.extension.Some? then 1 else 0;
    assert FirstByte(f) == 16 * (8 + 2 * p + x) + n;
    assert FirstByte(f) / 16 == 8 + 2 * p + x;
    assert FirstByte(f) / 32 == 4 + p;
  }

  lemma FixedHeaderFields(f: Fields, sequence: uint16)
    requires f.Legal()
    ensures var b := FixedHeader(f, sequence);
            && b[0] == FirstByte(f)
            && (b[1] >= 128) == f.marker && b[1] % 128 == f.payloadType
            && ReadBe16(b[2], b[3]) == sequence
            && ReadBe32(b[4], b[5], b[6], b[7]) == f.timestamp
  {
    ReadsBackBe32(f.timestamp);
  }

  /** Where the payload of a built packet starts, as the parser finds it. */
  lemma ParseBuilt(f: Fields, sequence: uint16, payload: seq<byte>)
    requires f.Legal()
    ensures var h := ParseRtp(BuildRtp(f, sequence, payload));
            h.Some? && h.value.payloadType == f.payloadType && h.value.sequence == sequence
            && h.value.timestamp == f.timestamp && h.value.marker == f.marker
            && h.value.payloadOffset == RTP_HEADER_SIZE + 4 * |f.csrcs| + |ExtensionBytes(f.extension)|
  {
    var fixed, csrc, ext := FixedHeader(f, sequence), CsrcBytes(f.csrcs), ExtensionBytes(f.extension);
    var data := BuildRtp(f, sequence, payload);
    FixedHeaderFields(f, sequence);
    FirstByteFields(f);
    assert forall i :: 0 <= i < RTP_HEADER_SIZE ==> data[i] == fixed[i];
    var afterCsrc := RTP_HEADER_SIZE + |csrc|;
    if f.extension.Some? {
      assert data[afterCsrc + 2] == ext[2] && data[afterCsrc + 3] == ext[3];
      assert ReadBe16(ext[2], ext[3]) == |f.extension.value.words| / 4;
      assert |f.extension.value.words| / 4 * 4 == |f.extension.value.words|;
    }
    assert f.padding != [] ==> data[|data| - 1] == |f.padding|;
  }

  /** Round trip: whatever legal header the sender chooses, the receiver reads
      back its fields and exactly the payload. */
  lemma AcceptBuilt(f: Fields, sequence: uint16, payload: seq<byte>)
    requires f.Legal() && payload != []
    ensures Accept(BuildRtp(f, sequence, payload)) == Some(Accepted(sequence, f.timestamp, f.marker, payload))
  {
    var data := BuildRtp(f, sequence, payload);
    ParseBuilt(f, sequence, payload);
    var offset := ParseRtp(data).value.payloadOffset;
    assert data[0] == FirstByte(f);
    FirstByteFields(f);
    assert data[offset..offset + |payload|] == payload;
    assert f.padding != [] ==> data[|data| - 1] == |f.padding|;
  }
}
