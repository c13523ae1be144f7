/** The RTP depacketiser: what each payload format means (RFC 6184, RFC 7798),
    the reassembly state machine, and the class that implements it in place. */
module RtpDepacketizers {
  import opened Bytes
  import opened RtpPackets

  const START_CODE: seq<byte> := [0, 0, 0, 1]

  datatype Codec = Unknown | H264 | H265

  datatype NalUnit = NalUnit(data: seq<byte>, timestamp: uint32, marker: bool)

  /** The role a payload plays. `Whole` carries the NAL units that stand in it in
      full, and whether its size fields were sound to the end. `Fragment` carries
      the NAL header it stands for, rebuilt from its indicator and FU header. */
  datatype Unit =
    | Whole(nals: seq<seq<byte>>, sound: bool)
    | Fragment(start: bool, end: bool, header: seq<byte>, body: seq<byte>)
    | TooShort
    | Unsupported

  /** An accepted packet with the role its payload plays. */
  datatype Event = Event(sequence: uint16, unit: Unit, timestamp: uint32, marker: bool)

  function ClassifyH264(payload: seq<byte>): Unit {
    if |payload| < 1 then TooShort else
    var nalType := payload[0] % 32;
    if 1 <= nalType <= 23 then Whole([payload], true)
    else if nalType == 24 then Aggregated(payload, 1)
    else if nalType == 28 then
      if |payload| < 2 then TooShort
      else Fragment(payload[1] >= 128, payload[1] / 64 % 2 == 1, [RebuiltH264(payload[0], payload[1])], payload[2..])
    else Unsupported
  }

  function ClassifyH265(payload: seq<byte>): Unit {
    if |payload| < 2 then TooShort else
    var nalType := payload[0] / 2 % 64;
    if nalType <= 47 then Whole([payload], true)
    else if nalType == 48 then Aggregated(payload, 2)
    else if nalType == 49 then
      if |payload| < 3 then TooShort
      else Fragment(payload[2] >= 128, payload[2] / 64 % 2 == 1,
                    [RebuiltH265(payload[0], payload[2]), payload[1]], payload[3..])
    else Unsupported
  }

  /** F and NRI of the indicator, type of the FU header. */
  function RebuiltH264(indicator: byte, fuHeader: byte): byte {
    indicator / 32 * 32 + fuHeader % 32
  }

  /** F and the layer bit of the payload header, type of the FU header. */
  function RebuiltH265(payloadHeader: byte, fuHeader: byte): byte {
    payloadHeader / 128 * 128 + fuHeader % 64 * 2 + payloadHeader % 2
  }

  function Classify(codec: Codec, payload: seq<byte>): Unit
    requires codec != Unknown
  {
    if codec == H264 then ClassifyH264(payload) else ClassifyH265(payload)
  }

  /** The NAL units of an aggregation packet from `offset` on. */
  function Aggregated(payload: seq<byte>, offset: nat): (u: Unit)
    ensures u.Whole?
    decreases |payload| - offset
  {
    if offset + 2 > |payload| then Whole([], true) else
    var size, from := ReadBe16(payload[offset], payload[offset + 1]), offset + 2;
    if size == 0 || from + size > |payload| then Whole([], false) else
    var rest := Aggregated(payload, from + size);
    Whole([payload[from..from + size]] + rest.nals, rest.sound)
  }

  /** One turn of the loop over an aggregation packet. */
  lemma AggregatedTurn(payload: seq<byte>, offset: nat, done: seq<seq<byte>>)
    ensures offset + 2 > |payload| ==> Aggregated(payload, offset) == Whole([], true)
    ensures offset + 2 <= |payload| ==>
              var size, from := ReadBe16(payload[offset], payload[offset + 1]), offset + 2;
              var u := Aggregated(payload, offset);
              if size == 0 || from + size > |payload| then u == Whole([], false)
              else var rest := Aggregated(payload, from + size);
                   u.sound == rest.sound && done + u.nals == done + [payload[from..from + size]] + rest.nals
  {
    if offset + 2 <= |payload| {
      var size, from := ReadBe16(payload[offset], payload[offset + 1]), offset + 2;
      if size != 0 && from + size <= |payload| {
        ConcatAssoc(done, [payload[from..from + size]], Aggregated(payload, from + size).nals, []);
      }
    }
  }

  /** NAL units as they are handed to the callback, behind a start code. */
  function AnnexB(nals: seq<seq<byte>>, timestamp: uint32, marker: bool): seq<NalUnit> {
    seq(|nals|, i requires 0 <= i < |nals| => NalUnit(START_CODE + nals[i], timestamp, marker))
  }

  lemma AnnexBConcat(a: seq<seq<byte>>, b: seq<seq<byte>>, timestamp: uint32, marker: bool)
    ensures AnnexB([], timestamp, marker) == []
    ensures AnnexB(a + b, timestamp, marker) == AnnexB(a, timestamp, marker) + AnnexB(b, timestamp, marker)
  {
  }

  /** A single unit has one start code. */
  lemma AnnexBOne(nal: seq<byte>, timestamp: uint32, marker: bool)
    ensures AnnexB([nal], timestamp, marker) == [NalUnit([0, 0, 0, 1] + nal, timestamp, marker)]
  {
  }

  function DetectCodec(data: seq<byte>): Codec {
    match Accept(data)
    case None => Unknown
    case Some(a) => DetectPayload(a.payload)
  }

  function DetectPayload(payload: seq<byte>): Codec {
    if |payload| < 2 then Unknown else
    var h265Type := payload[0] / 2 % 64;
    var h264Type := payload[0] % 32;
    if payload[0] < 128 && payload[1] % 8 != 0 && (h265Type <= 40 || h265Type == 48 || h265Type == 49) then H265
    else if payload[0] < 128 && h264Type != 0 && (h264Type <= 23 || h264Type == 24 || h264Type == 28) then H264
    else Unknown
  }

  /** Reassembly: the fragmented NAL unit being put together, if any, the sequence
      number that may continue it, and all that was handed to the callback. */
  datatype Reassembly = Reassembly(held: Option<seq<byte>>, expectedSeq: uint16, out: seq<NalUnit>)
  {
    /** A packet out of sequence gives up the fragment in flight. */
    predicate Gap(sequence: uint16) {
      held.Some? && sequence != expectedSeq
    }

    function Resequence(sequence: uint16): Reassembly {
      Reassembly(if Gap(sequence) then None else held, (sequence + 1) % 0x1_0000, out)
    }

    /** A continuation whose start was missed. */
    predicate Orphan(unit: Unit) {
      unit.Fragment? && !unit.start && held.None?
    }

    function Handle(e: Event): Reassembly {
      match e.unit
      case Whole(nals, _) => this.(out := out + AnnexB(nals, e.timestamp, e.marker))
      case Fragment(start, end, header, body) =>
        if Orphan(e.unit) then this else
        var joined := (if start then header else held.value) + body;
        if end then Reassembly(None, expectedSeq, out + AnnexB([joined], e.timestamp, e.marker))
        else this.(held := Some(joined))
      case _ => this
    }

    function Take(e: Event): Reassembly {
      Resequence(e.sequence).Handle(e)
    }

    function TakeAll(events: seq<Event>): Reassembly
      decreases |events|
    {
      if events == [] then this else Take(events[0]).TakeAll(events[1..])
    }
  }

  /** Payloads that count as dropped. */
  predicate Refused(unit: Unit) {
    unit.Unsupported? || (unit.Whole? && !unit.sound)
  }

  datatype State = State(codec: Codec, reassembly: Reassembly, packets: nat, dropped: nat, broken: nat)
  {
    /** A payload of known codec, after the sequence number check. */
    function Handle(e: Event): (State, bool) {
      (State(codec, reassembly.Handle(e), packets,
             dropped + (if Refused(e.unit) then 1 else 0),
             broken + (if reassembly.Orphan(e.unit) then 1 else 0)),
       !Refused(e.unit) && !reassembly.Orphan(e.unit) && !e.unit.TooShort?)
    }

    function Resequence(sequence: uint16): State {
      this.(reassembly := reassembly.Resequence(sequence),
            broken := broken + if reassembly.Gap(sequence) then 1 else 0)
    }

    function Detect(payload: seq<byte>): State {
      if codec == Unknown then this.(codec := DetectPayload(payload)) else this
    }

    /** A parsed packet: sequence check, codec detection, reassembly. */
    function Receive(a: Accepted): (State, bool) {
      var s := Resequence(a.sequence).Detect(a.payload);
      if s.codec == Unknown then (s.(dropped := s.dropped + 1), false) else s.Handle(EventOf(s.codec, a))
    }

    function Push(data: seq<byte>): (State, bool) {
      var counted := this.(packets := packets + 1);
      match Accept(data)
      case None => (counted.(dropped := dropped + 1), false)
      case Some(a) => counted.Receive(a)
    }

    function Run(packetList: seq<seq<byte>>): State
      decreases |packetList|
    {
      if packetList == [] then this else Push(packetList[0]).0.Run(packetList[1..])
    }
  }

  function Initial(codec: Codec): State {
    State(codec, Reassembly(None, 0, []), 0, 0, 0)
  }

  function EventOf(codec: Codec, a: Accepted): Event
    requires codec != Unknown
  {
    Event(a.sequence, Classify(codec, a.payload), a.timestamp, a.marker)
  }

  lemma PushTakes(s: State, data: seq<byte>)
    requires s.codec != Unknown && Accept(data).Some?
    ensures var t := s.Push(data).0;
            t.codec == s.codec && t.reassembly == s.reassembly.Take(EventOf(s.codec, Accept(data).value))
  {
  }

  lemma {:induction false} TakeAllConcat(s: Reassembly, a: seq<Event>, b: seq<Event>)
    ensures s.TakeAll(a + b) == s.TakeAll(a).TakeAll(b)
    decreases |a|
  {
    if a == [] {
      assert a + b == b;
    } else {
      assert (a + b)[0] == a[0] && (a + b)[1..] == a[1..] + b;
      TakeAllConcat(s.Take(a[0]), a[1..], b);
    }
  }

  class RtpDepacketizer {
    var codec: Codec
    var fragment: seq<byte>
    var inFragment: bool
    var expectedSeq: uint16
    var packets: nat
    var nals: nat
    var dropped: nat
    var brokenFragments: nat
    const listening: bool           // whether a callback is installed
    var emitted: seq<NalUnit>       // what the callback has received
    ghost var due: seq<NalUnit>     // what it has received, or would have

    /** Units are counted and handed out exactly when a callback is installed. */
    ghost predicate Heard()
      reads this
    {
      nals == |emitted| && emitted == if listening then due else []
    }

    ghost predicate Valid()
      reads this
    {
      Heard() && inFragment == (fragment != [])
    }

    ghost function View(): State
      reads this
    {
      State(codec, Reassembly(if inFragment then Some(fragment) else None, expectedSeq, due),
            packets, dropped, brokenFragments)
    }

    constructor (codec: Codec, listening: bool)
      ensures Valid() && View() == Initial(codec) && this.listening == listening
    {
      this.listening, due := listening, [];
      this.codec, fragment, inFragment, expectedSeq := codec, [], false, 0;
      packets, nals, dropped, brokenFragments, emitted := 0, 0, 0, 0, [];
    }

    method SetCodec(codec: Codec)
      requires Valid()
      modifies this
      ensures Valid() && View() == old(View()).(codec := codec)
    {
      this.codec := codec;
    }

    method ResetFragment()
      modifies this`fragment, this`inFragment
      ensures fragment == [] && !inFragment
    {
      fragment := [];
      inFragment := false;
    }

    method EmitNal(nal: seq<byte>, timestamp: uint32, marker: bool)
      requires Heard()
      modifies this`nals, this`emitted, this`due
      ensures Heard()
      ensures due == old(due) + if nal == [] then [] else [NalUnit([0, 0, 0, 1] + nal, timestamp, marker)]
    {
      due := due + if nal == [] then [] else [NalUnit(START_CODE + nal, timestamp, marker)];
      if |nal| == 0 || !listening { return; }
      nals := nals + 1;
      emitted := emitted + [NalUnit(START_CODE + nal, timestamp, marker)];
    }

    /** The loop that walks the size-prefixed NAL units of STAP-A and AP packets. */
    method EmitAggregated(payload: seq<byte>, start: nat, timestamp: uint32, marker: bool) returns (ok: bool)
      requires start <= |payload| && Heard()
      modifies this`nals, this`emitted, this`due, this`dropped
      ensures Heard() && due == old(due) + AnnexB(Aggregated(payload, start).nals, timestamp, marker)
      ensures ok == Aggregated(payload, start).sound && dropped == old(dropped) + (if ok then 0 else 1)
    {
      hide AnnexB, Aggregated;
      ghost var done: seq<seq<byte>> := [];
      var offset := start;
      AnnexBConcat([], [], timestamp, marker);
      assert done + Aggregated(payload, offset).nals == Aggregated(payload, offset).nals;
      while offset + 2 <= |payload|
        invariant start <= offset <= |payload|
        invariant Heard() && due == old(due) + AnnexB(done, timestamp, marker)
        invariant dropped == old(dropped)
        invariant var rest := Aggregated(payload, offset);
                  Aggregated(payload, start) == Whole(done + rest.nals, rest.sound)
        decreases |payload| - offset
      {
        AggregatedTurn(payload, offset, done);
        var size := ReadBe16(payload[offset], payload[offset + 1]);
        offset := offset + 2;
        if size == 0 || offset + size > |payload| {
          assert done + [] == done;
          dropped := dropped + 1;
          return false;
        }
        AnnexBConcat(done, [payload[offset..offset + size]], timestamp, marker);
        AnnexBOne(payload[offset..offset + size], timestamp, marker);
        done := done + [payload[offset..offset + size]];
        EmitNal(payload[offset..offset + size], timestamp, marker);
        offset := offset + size;
      }
      AggregatedTurn(payload, offset, done);
      assert done + [] == done;
      return true;
    }

    method HandleH264(payload: seq<byte>, timestamp: uint32, marker: bool, ghost sequence: uint16) returns (ok: bool)
      requires Valid()
      modifies this
      ensures Valid() && (View(), ok) == old(View()).Handle(Event(sequence, ClassifyH264(payload), timestamp, marker))
    {
      hide Aggregated, AnnexB, RebuiltH264;
      if |payload| < 1 { return false; }
      var nalType := payload[0] % 32;
      if 1 <= nalType <= 23 {
        AnnexBOne(payload, timestamp, marker);
        EmitNal(payload, timestamp, marker);
        return true;
      }
      if nalType == 24 {
        ok := EmitAggregated(payload, 1, timestamp, marker);
        return;
      }
      if nalType == 28 {
        if |payload| < 2 { return false; }
        var start, end := payload[1] >= 128, payload[1] / 64 % 2 == 1;
        if start {
          fragment := [];
          fragment := fragment + [RebuiltH264(payload[0], payload[1])];
          inFragment := true;
        } else if !inFragment {
          brokenFragments := brokenFragments + 1;
          return false;
        }
        ghost var header := [RebuiltH264(payload[0], payload[1])];
        assert fragment == if start then header else old(fragment);
        fragment := fragment + payload[2..];
        assert fragment == (if start then header else old(fragment)) + payload[2..];
        if end {
          assert fragment != [];
          AnnexBOne(fragment, timestamp, marker);
          EmitNal(fragment, timestamp, marker);
          ResetFragment();
        }
        return true;
      }
      dropped := dropped + 1;
      return false;
    }

    method HandleH265(payload: seq<byte>, timestamp: uint32, marker: bool, ghost sequence: uint16) returns (ok: bool)
      requires Valid()
      modifies this
      ensures Valid() && (View(), ok) == old(View()).Handle(Event(sequence, ClassifyH265(payload), timestamp, marker))
    {
      hide Aggregated, AnnexB, RebuiltH265;
      if |payload| < 2 { return false; }
      var nalType := payload[0] / 2 % 64;
      if nalType <= 47 {
        AnnexBOne(payload, timestamp, marker);
        EmitNal(payload, timestamp, marker);
        return true;
      }
      if nalType == 48 {
        ok := EmitAggregated(payload, 2, timestamp, marker);
        return;
      }
      if nalType == 49 {
        if |payload| < 3 { return false; }
        var start, end := payload[2] >= 128, payload[2] / 64 % 2 == 1;
        if start {
          fragment := [RebuiltH265(payload[0], payload[2])];
          fragment := fragment + [payload[1]];
          inFragment := true;
        } else if !inFragment {
          brokenFragments := brokenFragments + 1;
          return false;
        }
        ghost var header := [RebuiltH265(payload[0], payload[2]), payload[1]];
        assert fragment == if start then header else old(fragment);
        fragment := fragment + payload[3..];
        assert fragment == (if start then header else old(fragment)) + payload[3..];
        if end {
          assert fragment != [];
          AnnexBOne(fragment, timestamp, marker);
          EmitNal(fragment, timestamp, marker);
          ResetFragment();
        }
        return true;
      }
      dropped := dropped + 1;
      return false;
    }

    /** The second half of Push: the packet parsed and its payload is not empty. */
    method Receive(a: Accepted) returns (ok: bool)
      requires Valid()
      modifies this
      ensures Valid() && (View(), ok) == old(View()).Receive(a)
    {
      hide ClassifyH264, ClassifyH265, DetectPayload, AnnexB, Reassembly.Handle, Refused;
      if inFragment && a.sequence != expectedSeq {
        brokenFragments := brokenFragments + 1;
        ResetFragment();
      }
      expectedSeq := (a.sequence + 1) % 0x1_0000;
      assert View() == old(View()).Resequence(a.sequence);
      if codec == Unknown {
        codec := DetectPayload(a.payload);
        if codec == Unknown {
          dropped := dropped + 1;
          return false;
        }
      }
      if codec == H264 {
        ok := HandleH264(a.payload, a.timestamp, a.marker, a.sequence);
      } else {
        ok := HandleH265(a.payload, a.timestamp, a.marker, a.sequence);
      }
    }

    method Push(data: seq<byte>) returns (ok: bool)
      requires Valid()
      modifies this
      ensures Valid() && (View(), ok) == old(View()).Push(data)
    {
      hide ParseRtp, PayloadSize, State.Receive;
      packets := packets + 1;
      var header := ParseRtp(data);
      if header.None? {
        dropped := dropped + 1;
        return false;
      }
      var h := header.value;
      var size := PayloadSize(data, h.payloadOffset);
      if size == 0 {
        dropped := dropped + 1;
        return false;
      }
      ok := Receive(Accepted(h.sequence, h.timestamp, h.marker, data[h.payloadOffset..h.payloadOffset + size]));
    }
  }
}
