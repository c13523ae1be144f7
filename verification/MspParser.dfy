/** The MSP byte automaton: fourteen states, two frame layouts, two checksums. */
module MspParsers {
  import opened Bytes
  import opened MspChecksums

  datatype Stage =
    | Idle | HeaderM | HeaderArrow
    | V1Size | V1Command | V1Payload | V1Checksum
    | V2Flags | V2FunctionLo | V2FunctionHi | V2SizeLo | V2SizeHi | V2Payload | V2Checksum

  const DOLLAR: byte := 36
  const LETTER_M: byte := 77
  const LETTER_X: byte := 88
  const MAX_V2_PAYLOAD := 1024

  predicate IsDirection(b: byte) {
    b == 60 || b == 62 || b == 33  // '<', '>', '!'
  }

  datatype Event = Quiet | Dispatch(functionId: uint16, payload: seq<byte>) | ChecksumError

  datatype Parser = Parser(
    stage: Stage, v2: bool, functionId: uint16, expectedSize: uint16, checksum: bv8, payload: seq<byte>)
  {
    function To(next: Stage): Parser {
      this.(stage := next)
    }

    function Finish(b: byte): (Parser, Event) {
      (To(Idle), if Value(checksum) == b then Dispatch(functionId, payload) else ChecksumError)
    }

    /** The function's high byte joins its low byte; until then `functionId` is below 256. */
    function Step(b: byte): (Parser, Event) {
      match stage
      case Idle => (if b == DOLLAR then To(HeaderM) else this, Quiet)
      case HeaderM =>
        (if b == LETTER_M then this.(v2 := false, stage := HeaderArrow)
         else if b == LETTER_X then this.(v2 := true, stage := HeaderArrow)
         else if b == DOLLAR then this
         else To(Idle), Quiet)
      case HeaderArrow =>
        (if IsDirection(b) then this.(payload := [], checksum := 0, stage := if v2 then V2Flags else V1Size)
         else To(Idle), Quiet)
      case V1Size => (this.(expectedSize := b, checksum := Bits(b), stage := V1Command), Quiet)
      case V1Command =>
        (this.(functionId := b, checksum := Xor8(checksum, b),
               stage := if expectedSize > 0 then V1Payload else V1Checksum), Quiet)
      case V1Payload => (this.(checksum := Xor8(checksum, b), payload := payload + [b],
                               stage := if |payload| + 1 >= expectedSize then V1Checksum else V1Payload), Quiet)
      case V1Checksum => Finish(b)
      case V2Flags => (this.(checksum := Crc8(0, b), stage := V2FunctionLo), Quiet)
      case V2FunctionLo => (this.(functionId := b, checksum := Crc8(checksum, b), stage := V2FunctionHi), Quiet)
      case V2FunctionHi =>
        (this.(functionId := functionId % 256 + 256 * b, checksum := Crc8(checksum, b), stage := V2SizeLo), Quiet)
      case V2SizeLo => (this.(expectedSize := b, checksum := Crc8(checksum, b), stage := V2SizeHi), Quiet)
      case V2SizeHi =>
        var size := expectedSize % 256 + 256 * b;
        (this.(expectedSize := size, checksum := Crc8(checksum, b),
               stage := if size > MAX_V2_PAYLOAD then Idle else if size > 0 then V2Payload else V2Checksum), Quiet)
      case V2Payload => (this.(checksum := Crc8(checksum, b), payload := payload + [b],
                               stage := if |payload| + 1 >= expectedSize then V2Checksum else V2Payload), Quiet)
      case V2Checksum => Finish(b)
    }

    function Feed(bytes: seq<byte>): Parser
      decreases |bytes|
    {
      if bytes == [] then this else Step(bytes[0]).0.Feed(bytes[1..])
    }

    /** Everything that happens along the way. */
    function Events(bytes: seq<byte>): seq<Event>
      decreases |bytes|
    {
      if bytes == [] then [] else
      var (next, e) := Step(bytes[0]);
      (if e == Quiet then [] else [e]) + next.Events(bytes[1..])
    }
  }

  const FRESH := Parser(Idle, false, 0, 0, 0, [])

  lemma {:induction false} FeedConcat(p: Parser, a: seq<byte>, b: seq<byte>)
    ensures p.Feed(a + b) == p.Feed(a).Feed(b)
    ensures p.Events(a + b) == p.Events(a) + p.Feed(a).Events(b)
    decreases |a|
  {
    hide Parser.Step;
    if a == [] {
      assert a + b == b;
    } else {
      assert (a + b)[0] == a[0] && (a + b)[1..] == a[1..] + b;
      FeedConcat(p.Step(a[0]).0, a[1..], b);
    }
  }

  // Frames. The body is everything the checksum covers.

  predicate IsBody(v2: bool, body: seq<byte>) {
    if v2 then |body| >= 5 && |body| == 5 + ReadBe16(body[4], body[3]) && |body| <= 5 + MAX_V2_PAYLOAD
    else |body| >= 2 && |body| - 2 == body[0]
  }

  function FunctionOf(v2: bool, body: seq<byte>): uint16
    requires IsBody(v2, body)
  {
    if v2 then ReadBe16(body[2], body[1]) else body[1]
  }

  function PayloadOf(v2: bool, body: seq<byte>): seq<byte>
    requires IsBody(v2, body)
  {
    body[if v2 then 5 else 2..]
  }

  function CheckByte(v2: bool, body: seq<byte>): byte {
    Value(Checksum(v2, 0, body))
  }

  function Frame(v2: bool, direction: byte, body: seq<byte>, check: byte): seq<byte> {
    [DOLLAR, if v2 then LETTER_X else LETTER_M, direction] + body + [check]
  }

  function Outcome(v2: bool, body: seq<byte>, check: byte): Event
    requires IsBody(v2, body)
  {
    if check == CheckByte(v2, body) then Dispatch(FunctionOf(v2, body), PayloadOf(v2, body)) else ChecksumError
  }
}
