/** What the MSP automaton makes of frames, whole and damaged. */
module MspIntegrity {
  import opened Bytes
  import opened MspChecksums
  import opened MspParsers

  /** The payload loop of either version. */
  lemma {:induction false} ReadsPayload(p: Parser, bytes: seq<byte>)
    requires p.stage == V1Payload || p.stage == V2Payload
    requires bytes != [] && |p.payload| + |bytes| == p.expectedSize
    ensures var v2 := p.stage == V2Payload;
            p.Feed(bytes) == p.(payload := p.payload + bytes, checksum := Checksum(v2, p.checksum, bytes),
                                stage := if v2 then V2Checksum else V1Checksum)
    ensures p.Events(bytes) == []
    decreases |bytes|
  {
    hide Crc8, Xor8;
    if |bytes| == 1 {
      assert bytes == [bytes[0]] && bytes[1..] == [];
    } else {
      var next := p.Step(bytes[0]).0;
      ReadsPayload(next, bytes[1..]);
      assert p.payload + [bytes[0]] + bytes[1..] == p.payload + bytes;
    }
  }

  /** The state after the header and the fixed part of the body. */
  function AfterPrefix(v2: bool, prefix: seq<byte>, size: uint16): Parser
    requires |prefix| == if v2 then 5 else 2
  {
    Parser(if size > 0 then (if v2 then V2Payload else V1Payload) else if v2 then V2Checksum else V1Checksum,
           v2, if v2 then ReadBe16(prefix[2], prefix[1]) else prefix[1], size, Checksum(v2, 0, prefix), [])
  }

  lemma ReadsHeader(p: Parser, v2: bool, direction: byte)
    requires p.stage == Idle && IsDirection(direction)
    ensures var header := [DOLLAR, if v2 then LETTER_X else LETTER_M, direction];
            && p.Feed(header) == p.(v2 := v2, payload := [], checksum := 0, stage := if v2 then V2Flags else V1Size)
            && p.Events(header) == []
  {
    var a := p.Step(DOLLAR).0;
    var b := a.Step(if v2 then LETTER_X else LETTER_M).0;
    var c := b.Step(direction).0;
    hide Parser.Step;
    FeedThree(p, DOLLAR, if v2 then LETTER_X else LETTER_M, direction);
  }

  lemma FeedTwo(p: Parser, x: byte, y: byte)
    ensures p.Feed([x, y]) == p.Step(x).0.Step(y).0
    ensures p.Step(x).1 == Quiet && p.Step(x).0.Step(y).1 == Quiet ==> p.Events([x, y]) == []
  {
    hide Parser.Step;
    assert [x, y][1..] == [y];
    FeedOne(p.Step(x).0, y);
  }

  lemma FeedThree(p: Parser, x: byte, y: byte, z: byte)
    ensures p.Feed([x, y, z]) == p.Step(x).0.Step(y).0.Step(z).0
    ensures p.Step(x).1 == Quiet && p.Step(x).0.Step(y).1 == Quiet && p.Step(x).0.Step(y).0.Step(z).1 == Quiet ==>
              p.Events([x, y, z]) == []
  {
    hide Parser.Step;
    assert [x, y, z][1..] == [y, z];
    FeedTwo(p.Step(x).0, y, z);
  }

  lemma FeedOne(p: Parser, x: byte)
    ensures p.Feed([x]) == p.Step(x).0 && p.Events([x]) == if p.Step(x).1 == Quiet then [] else [p.Step(x).1]
  {
    hide Parser.Step;
    assert [x][1..] == [];
  }

  lemma ChecksumTwo(v2: bool, sum: bv8, x: byte, y: byte)
    ensures Checksum(v2, sum, [x, y]) == Mix(v2, Mix(v2, sum, x), y)
  {
    hide Mix;
    assert [x, y] == [x] + [y];
    ChecksumSnoc(v2, sum, [x], y);
    ChecksumSnoc(v2, sum, [], x);
    assert [] + [x] == [x];
  }

  lemma ChecksumFive(a: byte, b: byte, c: byte, d: byte, e: byte)
    ensures Checksum(true, 0, [a, b, c, d, e]) == Crc8(Crc8(Crc8(Crc8(Crc8(0, a), b), c), d), e)
  {
    hide Crc8;
    assert [a, b, c, d, e] == [a, b] + [c, d] + [e];
    ChecksumTwo(true, 0, a, b);
    ChecksumTwo(true, Checksum(true, 0, [a, b]), c, d);
    ChecksumConcat(true, 0, [a, b], [c, d]);
    ChecksumSnoc(true, 0, [a, b] + [c, d], e);
  }

  lemma ReadsV1Prefix(p: Parser, prefix: seq<byte>)
    requires p.stage == V1Size && !p.v2 && p.payload == [] && |prefix| == 2
    ensures p.Feed(prefix) == AfterPrefix(false, prefix, prefix[0]) && p.Events(prefix) == []
  {
    hide Bits;
    assert prefix == [prefix[0], prefix[1]];
    ChecksumTwo(false, 0, prefix[0], prefix[1]);
    XorZero(Bits(prefix[0]));
    FeedTwo(p, prefix[0], prefix[1]);
  }

  lemma XorZero(x: bv8)
    ensures 0 ^ x == x
  {
  }

  lemma ReadsV2Prefix(p: Parser, prefix: seq<byte>)
    requires p.stage == V2Flags && p.v2 && p.payload == [] && |prefix| == 5
    requires ReadBe16(prefix[4], prefix[3]) <= MAX_V2_PAYLOAD
    ensures p.Feed(prefix) == AfterPrefix(true, prefix, ReadBe16(prefix[4], prefix[3])) && p.Events(prefix) == []
  {
    hide Crc8, Checksum;
    var a, b, c, d, e := prefix[0], prefix[1], prefix[2], prefix[3], prefix[4];
    var p2 := p.Step(a).0.Step(b).0;
    var p4 := p2.Step(c).0.Step(d).0;
    assert p4 == Parser(V2SizeHi, true, ReadBe16(c, b), d, Crc8(Crc8(Crc8(Crc8(0, a), b), c), d), []);
    ChecksumFive(a, b, c, d, e);
    assert p4.Step(e).0 == AfterPrefix(true, [a, b, c, d, e], ReadBe16(e, d));
    FeedFive(p, a, b, c, d, e);
    assert prefix == [a, b, c, d, e];
  }

  lemma FeedFive(p: Parser, a: byte, b: byte, c: byte, d: byte, e: byte)
    ensures p.Feed([a, b, c, d, e]) == p.Step(a).0.Step(b).0.Step(c).0.Step(d).0.Step(e).0
    ensures (&& p.Step(a).1 == Quiet && p.Step(a).0.Step(b).1 == Quiet
             && p.Step(a).0.Step(b).0.Step(c).1 == Quiet
             && p.Step(a).0.Step(b).0.Step(c).0.Step(d).1 == Quiet
             && p.Step(a).0.Step(b).0.Step(c).0.Step(d).0.Step(e).1 == Quiet)
            ==> p.Events([a, b, c, d, e]) == []
  {
    hide Parser.Step;
    assert [a, b, c, d, e] == [a, b] + [c, d, e];
    FeedTwo(p, a, b);
    FeedThree(p.Feed([a, b]), c, d, e);
    FeedConcat(p, [a, b], [c, d, e]);
  }

  /** The body of a frame, from the end of the header to the checksum. */
  lemma ReadsBody(p: Parser, v2: bool, body: seq<byte>)
    requires p.stage == (if v2 then V2Flags else V1Size) && p.v2 == v2 && p.payload == [] && IsBody(v2, body)
    ensures var q := p.Feed(body);
            && q.stage == (if v2 then V2Checksum else V1Checksum)
            && q.functionId == FunctionOf(v2, body) && q.payload == PayloadOf(v2, body)
            && q.checksum == Checksum(v2, 0, body)
    ensures p.Events(body) == []
  {
    hide Parser.Step;
    var n := if v2 then 5 else 2;
    var prefix, payload := body[..n], body[n..];
    if v2 { ReadsV2Prefix(p, prefix); } else { ReadsV1Prefix(p, prefix); }
    assert body == prefix + payload;
    FeedConcat(p, prefix, payload);
    ChecksumConcat(v2, 0, prefix, payload);
    if payload != [] {
      ReadsPayload(p.Feed(prefix), payload);
      assert [] + payload == payload;
    }
  }

  /** Whatever its body and its checksum byte, a frame is read in one piece: the
      automaton is idle again and has either dispatched it or counted one error. */
  lemma ReadsFrame(p: Parser, v2: bool, direction: byte, body: seq<byte>, check: byte)
    requires p.stage == Idle && IsDirection(direction) && IsBody(v2, body)
    ensures var frame := Frame(v2, direction, body, check);
            p.Feed(frame).stage == Idle && p.Events(frame) == [Outcome(v2, body, check)]
  {
    hide Parser.Feed, Parser.Events, IsBody;
    var header := [DOLLAR, if v2 then LETTER_X else LETTER_M, direction];
    ReadsHeader(p, v2, direction);
    var q := p.Feed(header);
    ReadsBody(q, v2, body);
    FeedOne(q.Feed(body), check);
    hide Parser.Step;
    FeedConcat(p, header, body);
    FeedConcat(p, header + body, [check]);
  }

  // The encoder.

  predicate Encodable(v2: bool, functionId: uint16, payload: seq<byte>) {
    if v2 then |payload| <= MAX_V2_PAYLOAD else |payload| < 256 && functionId < 256
  }

  function Body(v2: bool, flags: byte, functionId: uint16, payload: seq<byte>): (body: seq<byte>)
    requires Encodable(v2, functionId, payload)
    ensures IsBody(v2, body) && FunctionOf(v2, body) == functionId && PayloadOf(v2, body) == payload
  {
    if v2 then [flags, functionId % 256, functionId / 256, |payload| % 256, |payload| / 256] + payload
    else [|payload|, functionId] + payload
  }

  function Encode(v2: bool, direction: byte, flags: byte, functionId: uint16, payload: seq<byte>): seq<byte>
    requires Encodable(v2, functionId, payload)
  {
    var body := Body(v2, flags, functionId, payload);
    Frame(v2, direction, body, CheckByte(v2, body))
  }

  /** Round trip: from idle, an encoded frame is dispatched exactly once, as it was sent. */
  lemma RoundTrip(p: Parser, v2: bool, direction: byte, flags: byte, functionId: uint16, payload: seq<byte>)
    requires p.stage == Idle && IsDirection(direction) && Encodable(v2, functionId, payload)
    ensures var frame := Encode(v2, direction, flags, functionId, payload);
            p.Feed(frame).stage == Idle && p.Events(frame) == [Dispatch(functionId, payload)]
  {
    var body := Body(v2, flags, functionId, payload);
    ReadsFrame(p, v2, direction, body, CheckByte(v2, body));
  }

  /** The positions of a frame that hold its size; a change there moves the frame's end. */
  predicate SizeField(v2: bool, k: int) {
    if v2 then k == 6 || k == 7 else k == 3
  }

  /** Error detection: change any one byte behind the direction byte other than the
      size, and the frame counts as one checksum error and nothing else. */
  lemma DetectsDamage(
    p: Parser, v2: bool, direction: byte, flags: byte, functionId: uint16, payload: seq<byte>, k: nat, x: byte)
    requires p.stage == Idle && IsDirection(direction) && Encodable(v2, functionId, payload)
    requires var frame := Encode(v2, direction, flags, functionId, payload);
             3 <= k < |frame| && !SizeField(v2, k) && x != frame[k]
    ensures var damaged := Encode(v2, direction, flags, functionId, payload)[k := x];
            p.Feed(damaged).stage == Idle && p.Events(damaged) == [ChecksumError]
  {
    var body := Body(v2, flags, functionId, payload);
    var check := CheckByte(v2, body);
    var frame := Frame(v2, direction, body, check);
    if k == |frame| - 1 {
      assert frame[k := x] == Frame(v2, direction, body, x);
      ReadsFrame(p, v2, direction, body, x);
    } else {
      var damaged := body[k - 3 := x];
      assert frame[k] == body[k - 3];
      assert frame[k := x] == Frame(v2, direction, damaged, check);
      DamagedBody(v2, body, k - 3, x);
      ReadsFrame(p, v2, direction, damaged, check);
    }
  }

  lemma DamagedBody(v2: bool, body: seq<byte>, k: nat, x: byte)
    requires IsBody(v2, body) && k < |body| && !SizeField(v2, k + 3) && x != body[k]
    ensures IsBody(v2, body[k := x]) && CheckByte(v2, body[k := x]) != CheckByte(v2, body)
  {
    hide Value;
    DetectsOneByte(v2, 0, body, k, x);
    BitsOfValue(Checksum(v2, 0, body));
    BitsOfValue(Checksum(v2, 0, body[k := x]));
  }
}
