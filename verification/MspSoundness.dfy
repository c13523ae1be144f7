/** The MSP automaton on arbitrary bytes: what its state says about the past, and
    how soon it forgets. */
module MspSoundness {
  import opened Bytes
  import opened MspChecksums
  import opened MspParsers

  ghost predicate EndsWith(history: seq<byte>, s: seq<byte>) {
    |history| >= |s| && history[|history| - |s|..] == s
  }

  lemma EndsWithSnoc(history: seq<byte>, s: seq<byte>, b: byte)
    requires EndsWith(history, s)
    ensures EndsWith(history + [b], s + [b])
  {
    assert (history + [b])[|history| - |s|..] == history[|history| - |s|..] + [b];
  }

  function Letter(v2: bool): byte {
    if v2 then LETTER_X else LETTER_M
  }

  /** What checksum, sizes and payload say about the part of the body read so far. */
  ghost predicate Covered(p: Parser, body: seq<byte>) {
    && p.checksum == Checksum(p.v2, 0, body)
    && match p.stage
       case V1Size => !p.v2 && body == [] && p.payload == []
       case V1Command => !p.v2 && |body| == 1 && p.expectedSize == body[0] && p.payload == []
       case V1Payload => V1Read(p, body) && |p.payload| < p.expectedSize
       case V1Checksum => V1Read(p, body) && |p.payload| == p.expectedSize
       case V2Flags => p.v2 && body == [] && p.payload == []
       case V2FunctionLo => p.v2 && |body| == 1 && p.payload == []
       case V2FunctionHi => p.v2 && |body| == 2 && p.functionId == body[1] && p.payload == []
       case V2SizeLo => p.v2 && |body| == 3 && p.functionId == ReadBe16(body[2], body[1]) && p.payload == []
       case V2SizeHi => p.v2 && |body| == 4 && p.functionId == ReadBe16(body[2], body[1])
                        && p.expectedSize == body[3] && p.payload == []
       case V2Payload => V2Read(p, body) && |p.payload| < p.expectedSize
       case V2Checksum => V2Read(p, body) && |p.payload| == p.expectedSize
       case _ => false
  }

  ghost predicate V1Read(p: Parser, body: seq<byte>) {
    !p.v2 && |body| >= 2 && p.expectedSize == body[0] && p.functionId == body[1] && p.payload == body[2..]
  }

  ghost predicate V2Read(p: Parser, body: seq<byte>) {
    && p.v2 && |body| >= 5 && p.functionId == ReadBe16(body[2], body[1])
    && p.expectedSize == ReadBe16(body[4], body[3]) <= MAX_V2_PAYLOAD && p.payload == body[5..]
  }

  /** The beginning of a frame that the automaton is in the middle of. */
  function Pending(p: Parser, direction: byte, body: seq<byte>): seq<byte> {
    match p.stage
    case Idle => []
    case HeaderM => [DOLLAR]
    case HeaderArrow => [DOLLAR, Letter(p.v2)]
    case _ => [DOLLAR, Letter(p.v2), direction] + body
  }

  ghost predicate Reading(p: Parser, direction: byte, body: seq<byte>) {
    p.stage in {Idle, HeaderM, HeaderArrow} || (IsDirection(direction) && Covered(p, body))
  }

  /** The whole-automaton invariant: the bytes just read are the beginning of a frame
      with this direction and body. */
  ghost predicate InFrame(p: Parser, history: seq<byte>, direction: byte, body: seq<byte>) {
    EndsWith(history, Pending(p, direction, body)) && Reading(p, direction, body)
  }

  /** One more byte of a body. */
  lemma CoversMore(p: Parser, body: seq<byte>, b: byte)
    requires Covered(p, body) && p.stage != V1Checksum && p.stage != V2Checksum
    ensures var q := p.Step(b).0; q.stage == Idle || (q.v2 == p.v2 && Covered(q, body + [b]))
    ensures p.Step(b).1 == Quiet
  {
    hide Crc8, Xor8, Bits, Checksum;
    ChecksumSnoc(p.v2, 0, body, b);
    if p.stage == V1Size {
      ChecksumSnoc(false, 0, [], b);
      ChecksumStart(false, b);
    } else if p.stage == V2Flags {
      ChecksumStart(true, b);
    }
  }

  lemma ChecksumStart(v2: bool, b: byte)
    ensures Checksum(v2, 0, [] + [b]) == if v2 then Crc8(0, b) else Bits(b)
  {
    hide Crc8, Bits;
    assert [] + [b] == [b] && [b][1..] == [];
    assert 0 ^ Bits(b) == Bits(b);
  }

  /** One byte more, whatever was read before. What is pending continues, or ends where
      it matters no more - or completes a frame, with its verdict. */
  ghost predicate Grows(p: Parser, direction: byte, body: seq<byte>, b: byte, direction': byte, body': seq<byte>) {
    var (q, e) := p.Step(b);
    && Reading(q, direction', body')
    && (e == Quiet ==> EndsWith(Pending(p, direction, body) + [b], Pending(q, direction', body')))
    && (e != Quiet ==> q.stage == Idle && IsDirection(direction) && IsBody(p.v2, body)
                       && Pending(p, direction, body) + [b] == Frame(p.v2, direction, body, b)
                       && e == Outcome(p.v2, body, b))
  }

  lemma PendingGrows(p: Parser, direction: byte, body: seq<byte>, b: byte) returns (direction': byte, body': seq<byte>)
    requires Reading(p, direction, body)
    ensures Grows(p, direction, body, b, direction', body')
  {
    direction', body' := direction, body;
    if p.stage == Idle || p.stage == HeaderM {
      HeaderGrows(p, direction, body, b);
    } else if p.stage == HeaderArrow {
      direction', body' := b, [];
      DirectionStarts(p, direction, body, b);
    } else if p.stage == V1Checksum || p.stage == V2Checksum {
      FrameEnds(p, direction, body, b);
    } else {
      body' := body + [b];
      BodyGrows(p, direction, body, b);
    }
  }

  lemma EndsWithLast(front: seq<byte>, b: byte)
    ensures EndsWith(front + [b], [b]) && EndsWith(front + [b], front + [b]) && EndsWith(front + [b], [])
  {
  }

  lemma HeaderGrows(p: Parser, direction: byte, body: seq<byte>, b: byte)
    requires p.stage == Idle || p.stage == HeaderM
    ensures Grows(p, direction, body, b, direction, body)
  {
    hide Covered, EndsWith, Crc8, Xor8, Bits;
    if p.stage == Idle {
      EndsWithLast([], b);
      assert [] + [b] == [b];
    } else {
      EndsWithLast([DOLLAR], b);
      assert [DOLLAR] + [b] == [DOLLAR, b];
    }
  }

  lemma DirectionStarts(p: Parser, direction: byte, body: seq<byte>, b: byte)
    requires p.stage == HeaderArrow
    ensures Grows(p, direction, body, b, b, [])
  {
    ChecksumEmpty(p.v2);
    assert [DOLLAR, Letter(p.v2)] + [b] == [DOLLAR, Letter(p.v2), b] + [];
  }

  lemma BodyGrows(p: Parser, direction: byte, body: seq<byte>, b: byte)
    requires Reading(p, direction, body)
    requires p.stage !in {Idle, HeaderM, HeaderArrow, V1Checksum, V2Checksum}
    ensures Grows(p, direction, body, b, direction, body + [b])
  {
    CoversMore(p, body, b);
    hide Parser.Step, Covered;
    var header := [DOLLAR, Letter(p.v2), direction];
    assert header + body + [b] == header + (body + [b]);
  }

  lemma FrameEnds(p: Parser, direction: byte, body: seq<byte>, b: byte)
    requires Reading(p, direction, body) && (p.stage == V1Checksum || p.stage == V2Checksum)
    ensures Grows(p, direction, body, b, direction, body)
  {
    hide Checksum, Value;
  }

  lemma FrameGrows(p: Parser, history: seq<byte>, direction: byte, body: seq<byte>, b: byte)
    returns (direction': byte, body': seq<byte>)
    requires InFrame(p, history, direction, body)
    ensures InFrame(p.Step(b).0, history + [b], direction', body')
  {
    hide Reading, Pending, Parser.Step;
    direction', body' := PendingGrows(p, direction, body, b);
    EndsWithSnoc(history, Pending(p, direction, body), b);
    NothingPending(p.Step(b).0, direction', body');
  }

  lemma NothingPending(p: Parser, direction: byte, body: seq<byte>)
    ensures p.stage == Idle ==> Pending(p, direction, body) == []
  {
  }

  lemma ChecksumEmpty(v2: bool)
    ensures Checksum(v2, 0, []) == 0
  {
  }

  lemma {:induction false} Tracks(history: seq<byte>) returns (direction: byte, body: seq<byte>)
    ensures InFrame(FRESH.Feed(history), history, direction, body)
    decreases |history|
  {
    hide Parser.Step, InFrame;
    if history == [] {
      direction, body := 60, [];
      assert InFrame(FRESH, [], 60, []) by { FreshInFrame(); }
    } else {
      var before, last := history[..|history| - 1], history[|history| - 1];
      var d, c := Tracks(before);
      direction, body := FrameGrows(FRESH.Feed(before), before, d, c, last);
      assert history == before + [last] && [last][1..] == [];
      FeedConcat(FRESH, before, [last]);
    }
  }

  lemma FreshInFrame()
    ensures InFrame(FRESH, [], 60, [])
  {
  }

  /** Soundness: on any input, an event that the byte b causes is the verdict on a
      complete frame that the input ends in: a message is dispatched only with the
      function and payload of such a frame, and only if its checksum is right. */
  lemma EventsAreVerdicts(history: seq<byte>, b: byte) returns (v2: bool, direction: byte, body: seq<byte>)
    ensures var e := FRESH.Feed(history).Step(b).1;
            e != Quiet ==>
              && IsDirection(direction) && IsBody(v2, body)
              && EndsWith(history + [b], Frame(v2, direction, body, b))
              && e == Outcome(v2, body, b)
  {
    var p := FRESH.Feed(history);
    v2 := p.v2;
    direction, body := Tracks(history);
    var _, _ := PendingGrows(p, direction, body, b);
    hide Parser.Step, Pending, Reading;
    EndsWithSnoc(history, Pending(p, direction, body), b);
  }

  // Whole inputs.

  /** A stretch of input: bytes that led to nothing, or a frame. */
  datatype Piece = Skipped(bytes: seq<byte>) | Whole(v2: bool, direction: byte, body: seq<byte>, check: byte)
  {
    predicate Valid() {
      Whole? ==> IsDirection(direction) && IsBody(v2, body)
    }

    function Raw(): seq<byte> {
      if Skipped? then bytes else Frame(v2, direction, body, check)
    }

    function Verdict(): seq<Event>
      requires Valid()
    {
      if Skipped? then [] else [Outcome(v2, body, check)]
    }
  }

  ghost predicate AllValid(pieces: seq<Piece>) {
    forall i :: 0 <= i < |pieces| ==> pieces[i].Valid()
  }

  function Raw(pieces: seq<Piece>): seq<byte> {
    if pieces == [] then [] else Raw(pieces[..|pieces| - 1]) + pieces[|pieces| - 1].Raw()
  }

  function Verdicts(pieces: seq<Piece>): seq<Event>
    requires AllValid(pieces)
  {
    if pieces == [] then [] else Verdicts(pieces[..|pieces| - 1]) + pieces[|pieces| - 1].Verdict()
  }

  lemma PieceMore(pieces: seq<Piece>, piece: Piece)
    requires AllValid(pieces) && piece.Valid()
    ensures AllValid(pieces + [piece])
    ensures Raw(pieces + [piece]) == Raw(pieces) + piece.Raw()
    ensures Verdicts(pieces + [piece]) == Verdicts(pieces) + piece.Verdict()
  {
    hide Piece.Raw, Piece.Verdict, Piece.Valid;
    assert (pieces + [piece])[..|pieces|] == pieces;
  }

  /** The next stretch, when one byte more is read. */
  lemma NextPiece(p: Parser, direction: byte, body: seq<byte>, b: byte, direction': byte, body': seq<byte>)
    returns (piece: Piece)
    requires Grows(p, direction, body, b, direction', body')
    ensures var (q, e) := p.Step(b);
            && piece.Valid() && piece.Verdict() == (if e == Quiet then [] else [e])
            && Pending(p, direction, body) + [b] == piece.Raw() + Pending(q, direction', body')
  {
    hide Parser.Step, Reading, IsBody;
    var (q, e) := p.Step(b);
    var all := Pending(p, direction, body) + [b];
    if e == Quiet {
      var n := |all| - |Pending(q, direction', body')|;
      piece := Skipped(all[..n]);
      assert all == all[..n] + all[n..];
    } else {
      piece := Whole(p.v2, direction, body, b);
      NothingPending(q, direction', body');
      assert piece.Raw() + [] == piece.Raw();
    }
  }

  /** The input is these pieces and what is pending; what happened are the pieces' verdicts. */
  ghost predicate Tiles(
    history: seq<byte>, p: Parser, events: seq<Event>, pieces: seq<Piece>, direction: byte, body: seq<byte>)
  {
    && AllValid(pieces) && Reading(p, direction, body)
    && history == Raw(pieces) + Pending(p, direction, body) && events == Verdicts(pieces)
  }

  lemma TilesMore(
    before: seq<byte>, p: Parser, events: seq<Event>, front: seq<Piece>, direction: byte, body: seq<byte>, b: byte)
    returns (pieces: seq<Piece>, direction': byte, body': seq<byte>)
    requires Tiles(before, p, events, front, direction, body)
    ensures var (q, e) := p.Step(b);
            Tiles(before + [b], q, events + (if e == Quiet then [] else [e]), pieces, direction', body')
  {
    hide Parser.Step, Reading, Pending, Grows, Piece.Raw, Piece.Verdict, Piece.Valid, Raw, Verdicts, AllValid;
    direction', body' := PendingGrows(p, direction, body, b);
    GrowsReading(p, direction, body, b, direction', body');
    var piece := NextPiece(p, direction, body, b, direction', body');
    pieces := front + [piece];
    PieceMore(front, piece);
    ConcatAssoc(Raw(front), Pending(p, direction, body), [b], []);
    ConcatAssoc(Raw(front), piece.Raw(), Pending(p.Step(b).0, direction', body'), []);
  }

  /** Soundness over whole inputs: any input is frames that do not overlap, bytes between
      them, and what is pending; and what happened is, in order, one verdict for each of
      those frames and nothing else. */
  lemma {:induction false} EventsTileInput(history: seq<byte>)
    returns (pieces: seq<Piece>, direction: byte, body: seq<byte>)
    ensures Tiles(history, FRESH.Feed(history), FRESH.Events(history), pieces, direction, body)
    decreases |history|
  {
    hide Parser.Step, Tiles;
    if history == [] {
      pieces, direction, body := [], 60, [];
      assert Tiles([], FRESH, [], [], 60, []) by { NothingTiles(); }
    } else {
      var before, b := history[..|history| - 1], history[|history| - 1];
      var front, d, c := EventsTileInput(before);
      pieces, direction, body := TilesMore(before, FRESH.Feed(before), FRESH.Events(before), front, d, c, b);
      FeedSnoc(before, b);
      assert history == before + [b];
    }
  }

  lemma NothingTiles()
    ensures Tiles([], FRESH, [], [], 60, [])
  {
  }

  lemma GrowsReading(p: Parser, direction: byte, body: seq<byte>, b: byte, direction': byte, body': seq<byte>)
    requires Grows(p, direction, body, b, direction', body')
    ensures Reading(p.Step(b).0, direction', body')
  {
    hide Reading, Pending, Parser.Step;
  }

  lemma FeedSnoc(before: seq<byte>, b: byte)
    ensures FRESH.Feed(before + [b]) == FRESH.Feed(before).Step(b).0
    ensures var e := FRESH.Feed(before).Step(b).1;
            FRESH.Events(before + [b]) == FRESH.Events(before) + if e == Quiet then [] else [e]
  {
    hide Parser.Step;
    FeedConcat(FRESH, before, [b]);
    assert [b][1..] == [];
  }

  // Resynchronisation.

  /** What every reachable parser keeps about its sizes. */
  predicate Sized(p: Parser) {
    |p.payload| <= MAX_V2_PAYLOAD &&
    match p.stage
    case V1Command => p.expectedSize < 256 && p.payload == []
    case V1Payload => |p.payload| < p.expectedSize < 256
    case V1Checksum => |p.payload| == p.expectedSize < 256
    case V2Payload => |p.payload| < p.expectedSize <= MAX_V2_PAYLOAD
    case V2Checksum => |p.payload| == p.expectedSize <= MAX_V2_PAYLOAD
    case V1Size | V2Flags | V2FunctionLo | V2FunctionHi | V2SizeLo | V2SizeHi => p.payload == []
    case Idle | HeaderM | HeaderArrow => true
  }

  /** How many more bytes can pass before the automaton is idle again. */
  function Rank(p: Parser): int {
    match p.stage
    case Idle => 0
    case HeaderM => 1032
    case HeaderArrow => 1031
    case V1Size => 258
    case V1Command => 257
    case V1Payload | V2Payload => 1 + p.expectedSize - |p.payload|
    case V1Checksum | V2Checksum => 1
    case V2Flags => 1030
    case V2FunctionLo => 1029
    case V2FunctionHi => 1028
    case V2SizeLo => 1027
    case V2SizeHi => 1026
  }

  lemma StepSizedV1(p: Parser, b: byte)
    requires Sized(p) && p.stage in {Idle, HeaderM, HeaderArrow, V1Size, V1Command, V1Payload, V1Checksum}
    ensures Sized(p.Step(b).0)
  {
    hide Crc8, Xor8, Bits;
  }

  lemma StepSizedV2(p: Parser, b: byte)
    requires Sized(p) && p.stage in {V2Flags, V2FunctionLo, V2FunctionHi, V2SizeLo, V2SizeHi, V2Payload, V2Checksum}
    ensures Sized(p.Step(b).0)
  {
    hide Crc8, Xor8, Bits;
  }

  lemma StepSized(p: Parser, b: byte)
    requires Sized(p)
    ensures Sized(p.Step(b).0)
  {
    hide Parser.Step;
    if p.stage in {Idle, HeaderM, HeaderArrow, V1Size, V1Command, V1Payload, V1Checksum} {
      StepSizedV1(p, b);
    } else {
      StepSizedV2(p, b);
    }
  }

  /** Past the header every byte brings the automaton closer to idle; in the header
      every byte but '$' does. */
  lemma RankDecreases(p: Parser, b: byte)
    requires Sized(p) && p.stage != Idle && (p.stage == HeaderM ==> b != DOLLAR)
    ensures Rank(p.Step(b).0) < Rank(p)
  {
    hide Crc8, Xor8, Bits;
  }

  lemma {:induction false} ReachableSized(p: Parser, bytes: seq<byte>)
    requires Sized(p)
    ensures Sized(p.Feed(bytes))
    decreases |bytes|
  {
    hide Parser.Step, Sized;
    if bytes != [] {
      StepSized(p, bytes[0]);
      ReachableSized(p.Step(bytes[0]).0, bytes[1..]);
    }
  }

  lemma {:induction false} DrainsBy(p: Parser, bytes: seq<byte>) returns (k: nat)
    requires Sized(p) && p.stage != HeaderM && |bytes| >= Rank(p)
    ensures k <= Rank(p) && k <= |bytes| && p.Feed(bytes[..k]).stage == Idle
    decreases |bytes|
  {
    hide Parser.Step, Sized;
    if p.stage == Idle {
      k := 0;
      assert bytes[..0] == [];
    } else {
      assert Rank(p) > 0 by { RankPositive(p); }
      RankDecreases(p, bytes[0]);
      StepSized(p, bytes[0]);
      PastHeader(p, bytes[0]);
      k := DrainsBy(p.Step(bytes[0]).0, bytes[1..]);
      k := k + 1;
      assert bytes[..k][1..] == bytes[1..][..k - 1];
    }
  }

  lemma RankPositive(p: Parser)
    requires Sized(p) && p.stage != Idle
    ensures Rank(p) > 0
  {
  }

  lemma PastHeader(p: Parser, b: byte)
    requires p.stage != Idle && p.stage != HeaderM
    ensures p.Step(b).0.stage != HeaderM
  {
  }

  /** Bounded resynchronisation: whatever came before and whatever comes now, a parser
      past the two header bytes is idle again within 1031 bytes, and its payload
      never exceeds 1024 bytes. */
  lemma ResynchronisesWithin1031(history: seq<byte>, bytes: seq<byte>) returns (k: nat)
    requires FRESH.Feed(history).stage != HeaderM && |bytes| >= 1031
    ensures k <= 1031 && FRESH.Feed(history + bytes[..k]).stage == Idle
  {
    ReachableSized(FRESH, history);
    var p := FRESH.Feed(history);
    assert Rank(p) <= 1031;
    k := DrainsBy(p, bytes);
    FeedConcat(FRESH, history, bytes[..k]);
  }

  lemma PayloadBounded(history: seq<byte>)
    ensures |FRESH.Feed(history).payload| <= MAX_V2_PAYLOAD
  {
    ReachableSized(FRESH, history);
  }

  lemma {:induction false} QuietDrains(p: Parser, bytes: seq<byte>)
    requires Sized(p) && |bytes| >= Rank(p)
    requires forall i :: 0 <= i < |bytes| ==> bytes[i] != DOLLAR
    ensures p.Feed(bytes).stage == Idle
    decreases |bytes|
  {
    hide Parser.Step, Sized;
    if bytes == [] {
      if p.stage != Idle { RankPositive(p); }
    } else {
      StepSized(p, bytes[0]);
      if p.stage == Idle {
        StaysIdle(p, bytes[0]);
      } else {
        RankDecreases(p, bytes[0]);
      }
      QuietDrains(p.Step(bytes[0]).0, bytes[1..]);
    }
  }

  lemma StaysIdle(p: Parser, b: byte)
    requires b != DOLLAR
    ensures p.stage == Idle ==> p.Step(b).0 == p
  {
  }

  /** From any reachable state, 1032 bytes without a '$' end in idle. */
  lemma QuietResynchronises(history: seq<byte>, bytes: seq<byte>)
    requires |bytes| >= 1032 && forall i :: 0 <= i < |bytes| ==> bytes[i] != DOLLAR
    ensures FRESH.Feed(history + bytes).stage == Idle
  {
    ReachableSized(FRESH, history);
    var p := FRESH.Feed(history);
    assert Rank(p) <= 1032;
    QuietDrains(p, bytes);
    FeedConcat(FRESH, history, bytes);
  }
}
