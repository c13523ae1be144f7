/** MSP on the wire, written out: frames byte by byte, and the two checksums by what
    defines them. */
module MspWires {
  import opened Bytes
  import opened MspChecksums
  import opened MspParsers
  import opened MspIntegrity
  import opened MspSoundness

  // The CRC: the remainder modulo x^8 + x^7 + x^6 + x^4 + x^2 + 1, over bits.

  /** The upper and the lower byte of a product with that polynomial. */
  function ProductHigh(q: bv8): bv8 {
    q ^ (q >> 1) ^ (q >> 2) ^ (q >> 4) ^ (q >> 6)
  }

  function ProductLow(q: bv8): bv8 {
    (q << 7) ^ (q << 6) ^ (q << 4) ^ (q << 2) ^ q
  }

  /** The quotient of x^8 times a byte by that polynomial. */
  function Quotient(c: bv8): bv8 {
    c ^ (c >> 1) ^ (c >> 3) ^ (c >> 6) ^ (c >> 7)
  }

  lemma EightShifts(c: bv8)
    ensures CrcShifts(c, 8) == CrcShift(CrcShift(CrcShift(CrcShift(CrcShift(CrcShift(CrcShift(CrcShift(c))))))))
  {
    hide CrcShift;
    assert CrcShifts(c, 1) == CrcShift(CrcShifts(c, 0));
    assert CrcShifts(c, 2) == CrcShift(CrcShifts(c, 1));
    assert CrcShifts(c, 3) == CrcShift(CrcShifts(c, 2));
    assert CrcShifts(c, 4) == CrcShift(CrcShifts(c, 3));
    assert CrcShifts(c, 5) == CrcShift(CrcShifts(c, 4));
    assert CrcShifts(c, 6) == CrcShift(CrcShifts(c, 5));
    assert CrcShifts(c, 7) == CrcShift(CrcShifts(c, 6));
  }

  lemma Divides(c: bv8)
    ensures ProductHigh(Quotient(c)) == c
    ensures CrcShift(CrcShift(CrcShift(CrcShift(CrcShift(CrcShift(CrcShift(CrcShift(c)))))))) == ProductLow(Quotient(c))
  {
  }

  /** One byte under the CRC: the sum and the byte together, times x^8, are a multiple of
      the polynomial but for the new sum: upper bytes equal, lower bytes differ by it. */
  lemma CrcIsRemainder(crc: bv8, b: byte) returns (q: bv8)
    ensures ProductHigh(q) == crc ^ Bits(b) && ProductLow(q) == Crc8(crc, b)
  {
    q := Quotient(crc ^ Bits(b));
    EightShifts(crc ^ Bits(b));
    Divides(crc ^ Bits(b));
  }

  // The XOR: bit by bit the parity.

  function Count(bytes: seq<byte>, mask: bv8): nat {
    if bytes == [] then 0 else (if Bits(bytes[0]) & mask != 0 then 1 else 0) + Count(bytes[1..], mask)
  }

  lemma {:induction false} XorFrom(sum: bv8, bytes: seq<byte>, mask: bv8)
    requires mask in {0x01, 0x02, 0x04, 0x08, 0x10, 0x20, 0x40, 0x80}
    ensures (Checksum(false, sum, bytes) & mask != 0) ==
            (((if sum & mask != 0 then 1 else 0) + Count(bytes, mask)) % 2 == 1)
    decreases |bytes|
  {
    hide Bits;
    if bytes != [] {
      XorFrom(sum ^ Bits(bytes[0]), bytes[1..], mask);
      XorBit(sum, Bits(bytes[0]), mask);
    }
  }

  lemma XorBit(x: bv8, y: bv8, mask: bv8)
    requires mask in {0x01, 0x02, 0x04, 0x08, 0x10, 0x20, 0x40, 0x80}
    ensures ((x ^ y) & mask != 0) == ((x & mask != 0) != (y & mask != 0))
  {
  }

  /** A bit of the version 1 checksum says whether an odd number of bytes has it. */
  lemma XorIsParity(bytes: seq<byte>, mask: bv8)
    requires mask in {0x01, 0x02, 0x04, 0x08, 0x10, 0x20, 0x40, 0x80}
    ensures (Checksum(false, 0, bytes) & mask != 0) == (Count(bytes, mask) % 2 == 1)
  {
    XorFrom(0, bytes, mask);
  }

  // Frames.

  /** A version 1 frame: "$M", direction, size, function, payload, checksum of what is
      between the direction and itself. */
  lemma WireV1(direction: byte, flags: byte, functionId: uint16, payload: seq<byte>)
    requires functionId < 256 && |payload| < 256
    ensures Encodable(false, functionId, payload)
    ensures var body := [|payload|, functionId] + payload;
            Encode(false, direction, flags, functionId, payload) ==
            [0x24, 0x4d, direction] + body + [Checksum(false, 0, body) as int]
  {
  }

  /** A version 2 frame: "$X", direction, flags, function and size with their low bytes
      first, payload, CRC of all that behind the direction. */
  lemma WireV2(direction: byte, flags: byte, functionId: uint16, payload: seq<byte>)
    requires |payload| <= 1024
    ensures Encodable(true, functionId, payload)
    ensures var body := [flags, functionId % 256, functionId / 256, |payload| % 256, |payload| / 256] + payload;
            Encode(true, direction, flags, functionId, payload) ==
            [0x24, 0x58, direction] + body + [Checksum(true, 0, body) as int]
  {
  }

  /** '<', '>' and '!' are directions, and nothing else is. */
  lemma Directions(b: byte)
    ensures IsDirection(b) <==> b in {0x3c, 0x3e, 0x21}
  {
  }

  lemma RefusesSize(q: Parser, flags: byte, lo: byte, hi: byte, sizeLo: byte, sizeHi: byte)
    requires q.stage == V2Flags && 256 * (sizeHi as int) + sizeLo as int > 1024
    ensures var header := [flags, lo, hi, sizeLo, sizeHi];
            q.Feed(header).stage == Idle && q.Events(header) == []
  {
    hide Crc8;
    FeedFive(q, flags, lo, hi, sizeLo, sizeHi);
    hide Parser.Feed, Parser.Events;
  }

  /** What is not a frame is not dispatched: a version 2 header that announces more than
      1024 bytes leads back to idle and nothing happens. */
  lemma RefusesOversize(p: Parser, direction: byte, flags: byte, lo: byte, hi: byte, sizeLo: byte, sizeHi: byte)
    requires p.stage == Idle && IsDirection(direction) && 256 * (sizeHi as int) + sizeLo as int > 1024
    ensures var header := [0x24, 0x58, direction] + [flags, lo, hi, sizeLo, sizeHi];
            p.Feed(header).stage == Idle && p.Events(header) == []
  {
    hide Parser.Step, Parser.Feed, Parser.Events;
    ReadsHeader(p, true, direction);
    RefusesSize(p.Feed([0x24, 0x58, direction]), flags, lo, hi, sizeLo, sizeHi);
    FeedConcat(p, [0x24, 0x58, direction], [flags, lo, hi, sizeLo, sizeHi]);
  }

  /** Which bodies a frame can have. */
  lemma BodiesExactly(v2: bool, body: seq<byte>)
    ensures IsBody(v2, body) <==>
            if v2 then |body| >= 5 && |body| - 5 == 256 * (body[4] as int) + body[3] as int && |body| - 5 <= 1024
            else |body| >= 2 && |body| - 2 == body[0]
    ensures IsBody(v2, body) ==>
              && FunctionOf(v2, body) == (if v2 then 256 * (body[2] as int) + body[1] as int else body[1])
              && PayloadOf(v2, body) == body[if v2 then 5 else 2..]
  {
  }
}
