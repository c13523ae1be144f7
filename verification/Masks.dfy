/** The model writes the source's bit operators as quotients and remainders. Here the
    decoders' decisions are written with the operators themselves - on bytes as bit
    vectors, on wider words bit by bit - and shown to be the model's on every input. */
module Masks {
  import opened Bytes
  import Octets
  import opened RtpPackets
  import opened RtpDepacketizers
  import opened RtpSender
  import MavlinkTelemetry

  // Each operator on bit vectors.

  function AndBits(x: bv8, mask: bv8): byte {
    (x & mask) as int
  }

  function ShiftBits(x: bv8, places: bv3): byte {
    (x >> places) as int
  }

  /** The header byte rebuilt from a payload header and an FU header. */
  function RebuiltBits(codec: Codec, x: bv8, y: bv8): byte {
    if codec == H264 then ((x & 0xe0) | (y & 0x1f)) as int else ((x & 0x81) | ((y & 0x3f) << 1)) as int
  }

  lemma LowBit(x: bv8)
    ensures AndBits(x, 0x01) == x as int % 2
  {
  }

  lemma LowTwo(x: bv8)
    ensures AndBits(x, 0x03) == x as int % 4
  {
  }

  lemma LowThree(x: bv8)
    ensures AndBits(x, 0x07) == x as int % 8
  {
  }

  lemma LowFour(x: bv8)
    ensures AndBits(x, 0x0f) == x as int % 16
  {
  }

  lemma LowFive(x: bv8)
    ensures AndBits(x, 0x1f) == x as int % 32
  {
  }

  lemma LowSix(x: bv8)
    ensures AndBits(x, 0x3f) == x as int % 64
  {
  }

  lemma LowSeven(x: bv8)
    ensures AndBits(x, 0x7f) == x as int % 128
  {
  }

  lemma UpperBits(x: bv8)
    ensures (AndBits(x, 0x80) != 0) == (x as int >= 128) && (AndBits(x, 0x40) != 0) == (x as int / 64 % 2 == 1)
  {
  }

  lemma SixthBit(x: bv8)
    ensures (AndBits(x, 0x20) != 0) == (x as int / 32 % 2 == 1)
  {
  }

  lemma FifthBit(x: bv8)
    ensures (AndBits(x, 0x10) != 0) == (x as int / 16 % 2 == 1)
  {
  }

  lemma HighThree(x: bv8)
    ensures AndBits(x, 0xe0) == x as int / 32 * 32
  {
  }

  lemma Outer(x: bv8)
    ensures AndBits(x, 0x81) == x as int / 128 * 128 + x as int % 2
  {
  }

  lemma Shifts(x: bv8)
    ensures ShiftBits(x, 6) == x as int / 64 && ShiftBits(x, 1) == x as int / 2
  {
  }

  lemma JoinsThreeAndFive(x: bv8, y: bv8)
    ensures RebuiltBits(H264, x, y) == AndBits(x, 0xe0) + AndBits(y, 0x1f)
  {
  }

  lemma JoinsOuterAndInner(x: bv8, y: bv8)
    ensures RebuiltBits(H265, x, y) == AndBits(x, 0x81) + 2 * AndBits(y, 0x3f)
  {
  }

  // The operators on the model's bytes.

  function And(b: byte, mask: bv8): byte {
    AndBits(b as bv8, mask)
  }

  function ShiftRight(b: byte, places: bv3): byte {
    ShiftBits(b as bv8, places)
  }

  lemma Masked(b: byte)
    ensures And(b, 0x01) == b % 2 && And(b, 0x03) == b % 4 && And(b, 0x07) == b % 8
    ensures And(b, 0x0f) == b % 16 && And(b, 0x1f) == b % 32 && And(b, 0x3f) == b % 64 && And(b, 0x7f) == b % 128
    ensures And(b, 0xe0) == b / 32 * 32 && And(b, 0x81) == b / 128 * 128 + b % 2
    ensures ShiftRight(b, 6) == b / 64 && ShiftRight(b, 1) == b / 2
  {
    hide AndBits, ShiftBits;
    Octets.ConvertsBack(b);
    var x := b as bv8;
    LowBit(x);
    LowTwo(x);
    LowThree(x);
    LowFour(x);
    LowFive(x);
    LowSix(x);
    LowSeven(x);
    HighThree(x);
    Outer(x);
    Shifts(x);
  }

  lemma Tested(b: byte)
    ensures (And(b, 0x80) != 0) == (b >= 128) && (And(b, 0x40) != 0) == (b / 64 % 2 == 1)
    ensures (And(b, 0x20) != 0) == (b / 32 % 2 == 1) && (And(b, 0x10) != 0) == (b / 16 % 2 == 1)
  {
    hide AndBits;
    Octets.ConvertsBack(b);
    UpperBits(b as bv8);
    SixthBit(b as bv8);
    FifthBit(b as bv8);
  }

  // Wider words, over natural numbers bit by bit; a shift is a product or a quotient.

  function BitOr(a: nat, b: nat): nat {
    if a == 0 && b == 0 then 0 else 2 * BitOr(a / 2, b / 2) + if a % 2 == 1 || b % 2 == 1 then 1 else 0
  }

  function BitAnd(a: nat, b: nat): nat {
    if a == 0 || b == 0 then 0 else 2 * BitAnd(a / 2, b / 2) + if a % 2 == 1 && b % 2 == 1 then 1 else 0
  }

  function PowerOfTwo(k: nat): (p: nat)
    ensures p > 0
  {
    if k == 0 then 1 else 2 * PowerOfTwo(k - 1)
  }

  lemma {:induction false} OrWithZero(a: nat)
    ensures BitOr(a, 0) == a
    decreases a
  {
    if a > 0 {
      OrWithZero(a / 2);
    }
  }

  /** Bits above and bits below a position do not meet. */
  lemma {:induction false} OrAdds(hi: nat, lo: nat, k: nat)
    requires lo < PowerOfTwo(k)
    ensures BitOr(hi * PowerOfTwo(k), lo) == hi * PowerOfTwo(k) + lo
    decreases k
  {
    if k == 0 {
      OrWithZero(hi);
    } else {
      var half := hi * PowerOfTwo(k - 1);
      assert hi * PowerOfTwo(k) == 2 * half;
      OrAdds(hi, lo / 2, k - 1);
    }
  }

  lemma {:induction false} OrCommutes(a: nat, b: nat)
    ensures BitOr(a, b) == BitOr(b, a)
    decreases a + b
  {
    if a > 0 || b > 0 {
      OrCommutes(a / 2, b / 2);
    }
  }

  lemma AndStep(n: nat, p: nat)
    requires p > 0
    ensures BitAnd(n, 2 * p - 1) == 2 * BitAnd(n / 2, p - 1) + n % 2
  {
    assert (2 * p - 1) / 2 == p - 1 && (2 * p - 1) % 2 == 1;
  }

  lemma RestStep(n: nat, p: nat)
    requires p > 0 && BitAnd(n / 2, p - 1) == n / 2 % p
    ensures BitAnd(n, 2 * p - 1) == n % (2 * p)
  {
    hide BitAnd;
    AndStep(n, p);
    RestByHalves(n, p);
  }

  /** The bits below a position are the remainder. */
  lemma {:induction false} AndTakesRest(n: nat, k: nat)
    ensures BitAnd(n, PowerOfTwo(k) - 1) == n % PowerOfTwo(k)
    decreases k
  {
    if k > 0 {
      AndTakesRest(n / 2, k - 1);
      RestStep(n, PowerOfTwo(k - 1));
    }
  }

  lemma RestByHalves(n: nat, p: nat)
    requires p > 0
    ensures n % (2 * p) == 2 * (n / 2 % p) + n % 2
  {
    var q, r := n / 2 / p, n / 2 % p;
    assert n / 2 == q * p + r;
    assert n == q * (2 * p) + (2 * r + n % 2);
    QuotientOf(n, 2 * p, q, 2 * r + n % 2);
  }

  lemma QuotientOf(n: nat, d: nat, q: nat, r: nat)
    requires n == q * d + r && r < d
    ensures n % d == r
  {
    assert n == n / d * d + n % d;
    SameQuotient(q, n / d, d, r, n % d);
  }

  lemma SameQuotient(p: nat, q: nat, d: nat, r: nat, s: nat)
    requires p * d + r == q * d + s && r < d && s < d
    ensures p == q && r == s
  {
    assert p < q ==> p * d + d <= q * d by {
      if p < q { Multiples(p + 1, q, d); }
    }
    assert q < p ==> q * d + d <= p * d by {
      if q < p { Multiples(q + 1, p, d); }
    }
  }

  lemma Multiples(p: nat, q: nat, d: nat)
    requires p <= q
    ensures p * d <= q * d
  {
  }

  lemma Powers()
    ensures PowerOfTwo(8) == 0x100 && PowerOfTwo(16) == 0x1_0000 && PowerOfTwo(24) == 0x100_0000
  {
    assert PowerOfTwo(4) == 16;
    assert PowerOfTwo(8) == 256;
    assert PowerOfTwo(12) == 16 * 256;
    assert PowerOfTwo(16) == 256 * 256;
    assert PowerOfTwo(20) == 16 * 256 * 256;
  }

  /** Two bytes shifted together. */
  function Join(hi: byte, lo: byte): (w: uint16)
    ensures w == ReadBe16(hi, lo)
  {
    OrAddsBytes(hi, lo);
    BitOr(hi * 0x100, lo)
  }

  lemma OrAddsBytes(hi: nat, lo: byte)
    ensures BitOr(hi * 0x100, lo) == hi * 0x100 + lo
  {
    Powers();
    OrAdds(hi, lo, 8);
  }

  lemma WordMasked(a: byte, b: byte, c: byte, d: byte)
    ensures BitOr(BitOr(BitOr(a * 0x100_0000, b * 0x1_0000), c * 0x100), d) == ReadBe32(a, b, c, d)
  {
    hide BitOr, PowerOfTwo;
    Powers();
    OrAdds(a, b * 0x1_0000, 24);
    OrAdds(a * 0x100 + b, c * 0x100, 16);
    OrAddsBytes(a * 0x1_0000 + b * 0x100 + c, d);
  }

  /** Four bytes shifted together, most significant first. */
  function Word(a: byte, b: byte, c: byte, d: byte): (w: uint32)
    ensures w == ReadBe32(a, b, c, d)
  {
    WordMasked(a, b, c, d);
    BitOr(BitOr(BitOr(a * 0x100_0000, b * 0x1_0000), c * 0x100), d)
  }

  /** Three bytes shifted together, least significant first: the message number. */
  lemma Word24Masked(a: byte, b: byte, c: byte)
    ensures BitOr(BitOr(a, b * 0x100), c * 0x1_0000) == ReadLe24(a, b, c)
  {
    hide BitOr, PowerOfTwo;
    Powers();
    OrCommutes(a, b * 0x100);
    OrAdds(b, a, 8);
    OrCommutes(b * 0x100 + a, c * 0x1_0000);
    OrAdds(c, b * 0x100 + a, 16);
  }

  /** A word taken apart: each byte shifted down and masked. */
  lemma BytesMasked(n: uint32)
    ensures Be32(n) == [BitAnd(n / 0x100_0000, 0xff), BitAnd(n / 0x1_0000, 0xff),
                        BitAnd(n / 0x100, 0xff), BitAnd(n, 0xff)]
  {
    hide BitAnd, PowerOfTwo;
    Powers();
    AndTakesRest(n / 0x100_0000, 8);
    AndTakesRest(n / 0x1_0000, 8);
    AndTakesRest(n / 0x100, 8);
    AndTakesRest(n, 8);
  }

  // The decisions, as the source writes them.

  function ParseRtpMasked(data: seq<byte>): Option<Header> {
    if |data| < RTP_HEADER_SIZE || And(ShiftRight(data[0], 6), 0x03) != 2 then None else
    var padding, extension := And(data[0], 0x20) != 0, And(data[0], 0x10) != 0;
    var afterCsrc := RTP_HEADER_SIZE + And(data[0], 0x0f) * 4;
    if afterCsrc > |data| || (extension && afterCsrc + 4 > |data|) then None else
    var offset :=
      if extension then afterCsrc + 4 + Join(data[afterCsrc + 2], data[afterCsrc + 3]) * 4 else afterCsrc;
    if offset > |data| then None else
    var pad := data[|data| - 1];
    if padding && (pad == 0 || offset + pad > |data|) then None else
    Some(Header(And(data[1], 0x7f), Join(data[2], data[3]), Word(data[4], data[5], data[6], data[7]),
                And(data[1], 0x80) != 0, offset))
  }

  lemma FirstByteMasked(b: byte)
    ensures And(ShiftRight(b, 6), 0x03) == b / 64 && And(b, 0x0f) == b % 16
    ensures (And(b, 0x20) != 0) == (b / 32 % 2 == 1) && (And(b, 0x10) != 0) == (b / 16 % 2 == 1)
  {
    hide And, ShiftRight;
    Masked(b);
    Tested(b);
    Masked(ShiftRight(b, 6));
  }

  lemma SecondByteMasked(b: byte)
    ensures And(b, 0x7f) == b % 128 && (And(b, 0x80) != 0) == (b >= 128)
  {
    hide And;
    Masked(b);
    Tested(b);
  }

  lemma ParsesMasked(data: seq<byte>)
    ensures ParseRtpMasked(data) == ParseRtp(data)
  {
    hide And, ShiftRight, Join, Word, ReadBe16, ReadBe32;
    if |data| >= RTP_HEADER_SIZE {
      FirstByteMasked(data[0]);
      SecondByteMasked(data[1]);
    }
  }

  function DetectMasked(payload: seq<byte>): Codec {
    if |payload| < 2 then Unknown else
    var h265Type, h264Type := And(ShiftRight(payload[0], 1), 0x3f), And(payload[0], 0x1f);
    if And(payload[0], 0x80) == 0 && And(payload[1], 0x07) != 0 && (h265Type <= 40 || h265Type == 48 || h265Type == 49)
    then H265
    else if And(payload[0], 0x80) == 0 && h264Type != 0 && (h264Type <= 23 || h264Type == 24 || h264Type == 28)
    then H264
    else Unknown
  }

  lemma DetectsMasked(payload: seq<byte>)
    ensures DetectMasked(payload) == DetectPayload(payload)
  {
    hide And, ShiftRight;
    if |payload| >= 2 {
      Masked(payload[0]);
      Tested(payload[0]);
      Masked(ShiftRight(payload[0], 1));
      Masked(payload[1]);
    }
  }

  function RebuiltMasked(codec: Codec, b: byte, fu: byte): byte {
    RebuiltBits(codec, b as bv8, fu as bv8)
  }

  lemma RebuildsMasked(codec: Codec, b: byte, fu: byte)
    requires codec != Unknown
    ensures RebuiltMasked(codec, b, fu) == if codec == H264 then RebuiltH264(b, fu) else RebuiltH265(b, fu)
  {
    hide AndBits, RebuiltBits;
    Octets.ConvertsBack(b);
    Octets.ConvertsBack(fu);
    var x, y := b as bv8, fu as bv8;
    if codec == H264 {
      JoinsThreeAndFive(x, y);
      HighThree(x);
      LowFive(y);
    } else {
      JoinsOuterAndInner(x, y);
      Outer(x);
      LowSix(y);
    }
  }

  /** What a fragmentation unit says: start, end, and the NAL header rebuilt. */
  lemma FragmentMasked(codec: Codec, payload: seq<byte>)
    requires codec != Unknown && |payload| > HeaderSize(codec)
    requires NalType(codec, payload[0]) == if codec == H264 then 28 else 49
    ensures var fu, unit := payload[HeaderSize(codec)], Classify(codec, payload);
            && unit.Fragment? && unit.start == (And(fu, 0x80) != 0) && unit.end == (And(fu, 0x40) != 0)
            && unit.header == [RebuiltMasked(codec, payload[0], fu)] + payload[1..HeaderSize(codec)]
  {
    hide And, RebuiltMasked, RebuiltH264, RebuiltH265;
    var fu := payload[HeaderSize(codec)];
    Tested(fu);
    RebuildsMasked(codec, payload[0], fu);
  }

  /** The types a payload is told apart by, the sizes in an aggregation packet, the
      signed flag, the armed flag and the font page. */
  lemma FieldsMasked(b: byte, c: byte)
    ensures NalType(H264, b) == And(b, 0x1f) && NalType(H265, b) == And(ShiftRight(b, 1), 0x3f)
    ensures ReadBe16(b, c) == Join(b, c)
    ensures (b % 2 == 1) == (And(b, 0x01) != 0) && MavlinkTelemetry.Armed(b) == (And(b, 0x80) != 0)
    ensures c + 256 * (b % 4) == Join(And(b, 0x03), c)
  {
    Masked(b);
    Tested(b);
    Masked(ShiftRight(b, 1));
  }
}
