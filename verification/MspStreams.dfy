/** MSP traffic over whole streams: frames between filler, damaged or not, behind anything. */
module MspStreams {
  import opened Bytes
  import opened MspChecksums
  import opened MspParsers
  import opened MspIntegrity
  import opened MspSoundness

  /** What is sent: bytes without a '$', a frame, or a frame with another checksum byte. */
  datatype Traffic =
    | Filler(bytes: seq<byte>)
    | Message(v2: bool, direction: byte, flags: byte, functionId: uint16, payload: seq<byte>)
    | Garbled(v2: bool, direction: byte, body: seq<byte>, check: byte)
  {
    predicate Valid() {
      match this
      case Filler(bytes) => forall i :: 0 <= i < |bytes| ==> bytes[i] != DOLLAR
      case Message(v2, direction, _, functionId, payload) =>
        IsDirection(direction) && Encodable(v2, functionId, payload)
      case Garbled(v2, direction, body, check) =>
        IsDirection(direction) && IsBody(v2, body) && check != CheckByte(v2, body)
    }

    function Raw(): seq<byte>
      requires Valid()
    {
      match this
      case Filler(bytes) => bytes
      case Message(v2, direction, flags, functionId, payload) => Encode(v2, direction, flags, functionId, payload)
      case Garbled(v2, direction, body, check) => Frame(v2, direction, body, check)
    }

    /** What the automaton ought to make of it. */
    function Due(): seq<Event> {
      match this
      case Filler(_) => []
      case Message(_, _, _, functionId, payload) => [Dispatch(functionId, payload)]
      case Garbled(_, _, _, _) => [ChecksumError]
    }
  }

  ghost predicate AllSent(traffic: seq<Traffic>) {
    forall i :: 0 <= i < |traffic| ==> traffic[i].Valid()
  }

  function Transmitted(traffic: seq<Traffic>): seq<byte>
    requires AllSent(traffic)
  {
    if traffic == [] then [] else traffic[0].Raw() + Transmitted(traffic[1..])
  }

  function AllDue(traffic: seq<Traffic>): seq<Event> {
    if traffic == [] then [] else traffic[0].Due() + AllDue(traffic[1..])
  }

  lemma {:induction false} ReadsFiller(p: Parser, bytes: seq<byte>)
    requires p.stage == Idle && forall i :: 0 <= i < |bytes| ==> bytes[i] != DOLLAR
    ensures p.Feed(bytes) == p && p.Events(bytes) == []
    decreases |bytes|
  {
    if bytes != [] {
      ReadsFiller(p, bytes[1..]);
    }
  }

  lemma ReadsOne(p: Parser, t: Traffic)
    requires p.stage == Idle && t.Valid()
    ensures p.Feed(t.Raw()).stage == Idle && p.Events(t.Raw()) == t.Due()
  {
    hide Parser.Feed, Parser.Events, Encode, Encodable, Frame, IsBody, CheckByte;
    match t
    case Filler(bytes) => ReadsFiller(p, bytes);
    case Message(v2, direction, flags, functionId, payload) => RoundTrip(p, v2, direction, flags, functionId, payload);
    case Garbled(v2, direction, body, check) => ReadsFrame(p, v2, direction, body, check);
  }

  /** From idle, any traffic is read for exactly what it is. */
  lemma {:induction false} ReadsTraffic(p: Parser, traffic: seq<Traffic>)
    requires p.stage == Idle && AllSent(traffic)
    ensures p.Feed(Transmitted(traffic)).stage == Idle && p.Events(Transmitted(traffic)) == AllDue(traffic)
    decreases |traffic|
  {
    hide Parser.Step, Traffic.Raw, Traffic.Due, Traffic.Valid;
    if traffic != [] {
      var first, rest := traffic[0].Raw(), Transmitted(traffic[1..]);
      ReadsOne(p, traffic[0]);
      ReadsTraffic(p.Feed(first), traffic[1..]);
      FeedConcat(p, first, rest);
    }
  }

  /** Resynchronisation: whatever came before, behind 1032 bytes without a '$' every frame
      is dispatched, every damaged one counted, once and in order, and nothing else happens. */
  lemma ReadsAfterQuiet(history: seq<byte>, quiet: seq<byte>, traffic: seq<Traffic>)
    requires |quiet| >= 1032 && (forall i :: 0 <= i < |quiet| ==> quiet[i] != DOLLAR) && AllSent(traffic)
    ensures FRESH.Events(history + quiet + Transmitted(traffic)) == FRESH.Events(history + quiet) + AllDue(traffic)
  {
    hide Parser.Feed, Parser.Events, Transmitted, AllDue, AllSent;
    QuietResynchronises(history, quiet);
    ReadsTraffic(FRESH.Feed(history + quiet), traffic);
    FeedConcat(FRESH, history + quiet, Transmitted(traffic));
  }
}
