/** The sending side: how a list of NAL units becomes RTP payloads (sections 5.6,
    5.7.1 and 5.8 of RFC 6184; sections 4.4.1 to 4.4.3 of RFC 7798), and that
    each payload format is read back for what it is. */
module RtpSender {
  import opened Bytes
  import opened RtpPackets
  import opened RtpDepacketizers

  /** One sending decision: a NAL unit on its own, several in one packet, or one
      spread over as many packets as there are `bodies`. */
  datatype Item =
    | One(nal: seq<byte>)
    | Several(header: seq<byte>, units: seq<seq<byte>>)
    | Split(nal: seq<byte>, bodies: seq<seq<byte>>)

  function HeaderSize(codec: Codec): nat {
    if codec == H264 then 1 else 2
  }

  function NalType(codec: Codec, first: byte): nat {
    if codec == H264 then first % 32 else first / 2 % 64
  }

  ghost predicate Valid(codec: Codec, item: Item)
    requires codec != Unknown
  {
    match item
    case One(nal) =>
      |nal| >= HeaderSize(codec) &&
      if codec == H264 then 1 <= NalType(codec, nal[0]) <= 23 else NalType(codec, nal[0]) <= 47
    case Several(header, units) =>
      |header| == HeaderSize(codec) && NalType(codec, header[0]) == (if codec == H264 then 24 else 48)
      && forall i :: 0 <= i < |units| ==> 0 < |units[i]| < 0x1_0000
    case Split(nal, bodies) =>
      |nal| >= HeaderSize(codec) && bodies != [] && Flatten(bodies) == nal[HeaderSize(codec)..]
  }

  /** The NAL units an item stands for. */
  function Nals(item: Item): seq<seq<byte>> {
    match item
    case One(nal) => [nal]
    case Several(_, units) => units
    case Split(nal, _) => [nal]
  }

  function SizePrefixed(units: seq<seq<byte>>): seq<byte>
    requires forall i :: 0 <= i < |units| ==> 0 < |units[i]| < 0x1_0000
  {
    if units == [] then [] else Be16(|units[0]|) + units[0] + SizePrefixed(units[1..])
  }

  function FuPayload(codec: Codec, nal: seq<byte>, start: bool, end: bool, body: seq<byte>): seq<byte>
    requires |nal| >= HeaderSize(codec)
  {
    var flags := (if start then 128 else 0) + (if end then 64 else 0);
    if codec == H264 then [nal[0] / 32 * 32 + 28, flags + nal[0] % 32] + body
    else [nal[0] / 128 * 128 + 98 + nal[0] % 2, nal[1], flags + nal[0] / 2 % 64] + body
  }

  function PacketCount(item: Item): nat {
    if item.Split? then |item.bodies| else 1
  }

  /** The payload of an item's i-th packet. */
  ghost function Payload(codec: Codec, item: Item, i: nat): seq<byte>
    requires codec != Unknown && Valid(codec, item) && i < PacketCount(item)
  {
    match item
    case One(nal) => nal
    case Several(header, units) => header + SizePrefixed(units)
    case Split(nal, bodies) => FuPayload(codec, nal, i == 0, i == |bodies| - 1, bodies[i])
  }

  lemma {:induction false} ReadsSizePrefixed(before: seq<byte>, units: seq<seq<byte>>)
    requires forall i :: 0 <= i < |units| ==> 0 < |units[i]| < 0x1_0000
    ensures Aggregated(before + SizePrefixed(units), |before|) == Whole(units, true)
    decreases |units|
  {
    hide Aggregated, Be16;
    if units == [] {
      assert before + SizePrefixed(units) == before;
      NothingAggregated(before);
    } else {
      var unit, rest := units[0], SizePrefixed(units[1..]);
      ReadsSizePrefixed(before + Be16(|unit|) + unit, units[1..]);
      PrependsUnit(before, unit, rest, units[1..]);
      ConcatAssoc(before, Be16(|unit|), unit, rest);
      assert [unit] + units[1..] == units;
    }
  }

  lemma NothingAggregated(payload: seq<byte>)
    ensures Aggregated(payload, |payload|) == Whole([], true)
  {
  }

  lemma PrependsUnit(before: seq<byte>, unit: seq<byte>, rest: seq<byte>, units: seq<seq<byte>>)
    requires 0 < |unit| < 0x1_0000
    requires Aggregated(before + Be16(|unit|) + unit + rest, |before| + 2 + |unit|) == Whole(units, true)
    ensures Aggregated(before + Be16(|unit|) + unit + rest, |before|) == Whole([unit] + units, true)
  {
    ReadsUnit(before, unit, rest);
  }

  lemma ReadsUnit(before: seq<byte>, unit: seq<byte>, rest: seq<byte>)
    requires 0 < |unit| < 0x1_0000
    ensures var payload := before + Be16(|unit|) + unit + rest;
            && payload[|before|] == Be16(|unit|)[0] && payload[|before| + 1] == Be16(|unit|)[1]
            && ReadBe16(payload[|before|], payload[|before| + 1]) == |unit|
            && payload[|before| + 2..|before| + 2 + |unit|] == unit
  {
    ReadsBackBe16(|unit|);
  }

  lemma RebuildsH264Byte(b: byte, flags: int)
    requires flags in {0, 64, 128, 192}
    ensures var fu := flags + b % 32;
            && RebuiltH264(b / 32 * 32 + 28, fu) == b && (fu >= 128) == (flags >= 128)
            && (fu / 64 % 2 == 1) == (flags in {64, 192})
    ensures NalType(H264, b / 32 * 32 + 28) == 28
  {
  }

  lemma RebuildsH265Byte(b: byte, flags: int)
    requires flags in {0, 64, 128, 192}
    ensures var fu := flags + b / 2 % 64;
            && RebuiltH265(b / 128 * 128 + 98 + b % 2, fu) == b && (fu >= 128) == (flags >= 128)
            && (fu / 64 % 2 == 1) == (flags in {64, 192})
    ensures NalType(H265, b / 128 * 128 + 98 + b % 2) == 49
  {
    var top: int, mid: int, low: int := b / 128, b / 2 % 64, b % 2;
    assert b == top * 128 + mid * 2 + low;
    assert (flags + mid) % 64 == mid;
    assert (flags + mid) / 64 == flags / 64;
    var p := top * 128 + 98 + low;
    assert p / 128 == top && p % 2 == low;
    assert p / 2 == top * 64 + 49;
  }

  lemma ClassifiesH264Fragment(nal: seq<byte>, start: bool, end: bool, body: seq<byte>)
    requires |nal| >= 1
    ensures ClassifyH264(FuPayload(H264, nal, start, end, body)) == Fragment(start, end, nal[..1], body)
  {
    RebuildsH264Byte(nal[0], (if start then 128 else 0) + (if end then 64 else 0));
    assert FuPayload(H264, nal, start, end, body)[2..] == body;
  }

  lemma ClassifiesH265Fragment(nal: seq<byte>, start: bool, end: bool, body: seq<byte>)
    requires |nal| >= 2
    ensures ClassifyH265(FuPayload(H265, nal, start, end, body)) == Fragment(start, end, nal[..2], body)
  {
    RebuildsH265Byte(nal[0], (if start then 128 else 0) + (if end then 64 else 0));
    assert FuPayload(H265, nal, start, end, body)[3..] == body;
  }

  /** The role the i-th packet of an item plays. */
  ghost function UnitOf(codec: Codec, item: Item, i: nat): Unit
    requires codec != Unknown && Valid(codec, item) && i < PacketCount(item)
  {
    match item
    case One(nal) => Whole([nal], true)
    case Several(_, units) => Whole(units, true)
    case Split(nal, bodies) => Fragment(i == 0, i == |bodies| - 1, nal[..HeaderSize(codec)], bodies[i])
  }

  /** Every packet of every valid item is read back for what it is. */
  lemma ClassifiesItem(codec: Codec, item: Item, i: nat)
    requires codec != Unknown && Valid(codec, item) && i < PacketCount(item)
    ensures Classify(codec, Payload(codec, item, i)) == UnitOf(codec, item, i)
    ensures Payload(codec, item, i) != []
  {
    match item
    case One(_) =>
    case Several(header, units) =>
      ReadsSizePrefixed(header, units);
    case Split(nal, bodies) =>
      if codec == H264 {
        ClassifiesH264Fragment(nal, i == 0, i == |bodies| - 1, bodies[i]);
      } else {
        ClassifiesH265Fragment(nal, i == 0, i == |bodies| - 1, bodies[i]);
      }
  }
}
