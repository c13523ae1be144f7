/** Starting without a declared codec: what auto-detection changes, and when the
    guess is right. */
module RtpDetection {
  import opened Bytes
  import opened RtpPackets
  import opened RtpDepacketizers
  import opened RtpSender
  import opened RtpRecovery
  import opened RtpAliasing

  /** How many packets pass before one gives the codec away. */
  function FirstDetectable(trace: seq<seq<byte>>): (k: nat)
    ensures k <= |trace|
  {
    if trace == [] || DetectCodec(trace[0]) != Unknown then 0 else 1 + FirstDetectable(trace[1..])
  }

  /** Before detection nothing is emitted, held or broken: packets are only counted and dropped. */
  ghost predicate Waiting(s: State, n: nat) {
    s.codec == Unknown && s.reassembly.held.None? && s.reassembly.out == []
    && s.packets == n && s.dropped == n && s.broken == 0
  }

  lemma UndetectablePacket(s: State, n: nat, data: seq<byte>)
    requires Waiting(s, n) && DetectCodec(data) == Unknown
    ensures Waiting(s.Push(data).0, n + 1)
  {
  }

  /** At the first detectable packet the sequence number left behind does not matter. */
  lemma DetectingPacket(s: State, n: nat, data: seq<byte>, codec: Codec)
    requires Waiting(s, n) && DetectCodec(data) == codec != Unknown
    ensures Shifted(s.Push(data).0, Initial(codec).Push(data).0, n)
  {
  }

  /** Two states that differ in how many packets they counted and dropped before. */
  ghost predicate Shifted(s: State, t: State, n: nat) {
    s == t.(packets := t.packets + n, dropped := t.dropped + n)
  }

  lemma ShiftedPush(s: State, t: State, n: nat, data: seq<byte>)
    requires Shifted(s, t, n) && t.codec != Unknown
    ensures Shifted(s.Push(data).0, t.Push(data).0, n) && t.Push(data).0.codec != Unknown
  {
  }

  lemma {:induction false} ShiftedRun(s: State, t: State, n: nat, trace: seq<seq<byte>>)
    requires Shifted(s, t, n) && t.codec != Unknown
    ensures Shifted(s.Run(trace), t.Run(trace), n)
    decreases |trace|
  {
    hide State.Push, Shifted;
    if trace != [] {
      ShiftedPush(s, t, n, trace[0]);
      ShiftedRun(s.Push(trace[0]).0, t.Push(trace[0]).0, n, trace[1..]);
    }
  }

  lemma {:induction false} WaitingRun(s: State, n: nat, trace: seq<seq<byte>>)
    requires Waiting(s, n)
    ensures var k := FirstDetectable(trace);
            if k == |trace| then Waiting(s.Run(trace), n + k)
            else var codec := DetectCodec(trace[k]);
                 codec != Unknown && Shifted(s.Run(trace), Initial(codec).Run(trace[k..]), n + k)
    decreases |trace|
  {
    hide State.Push, DetectCodec, Waiting;
    if trace != [] {
      var codec := DetectCodec(trace[0]);
      if codec == Unknown {
        UndetectablePacket(s, n, trace[0]);
        WaitingRun(s.Push(trace[0]).0, n + 1, trace[1..]);
        var k := FirstDetectable(trace[1..]);
        assert trace[1..][k..] == trace[k + 1..];
      } else {
        DetectingPacket(s, n, trace[0], codec);
        DetectedCodecStays(codec, trace[0]);
        ShiftedRun(s.Push(trace[0]).0, Initial(codec).Push(trace[0]).0, n, trace[1..]);
        assert trace[0..] == trace;
      }
    }
  }

  lemma DetectedCodecStays(codec: Codec, data: seq<byte>)
    requires codec != Unknown
    ensures Initial(codec).Push(data).0.codec == codec
  {
  }

  /** Auto-detection refines declaration: on any trace an undeclared receiver does
      what one declared with the detected codec does from the first detectable
      packet on, and counts every packet before that as dropped. */
  lemma DetectionRefinesDeclaration(trace: seq<seq<byte>>)
    ensures var k, s := FirstDetectable(trace), Initial(Unknown).Run(trace);
            if k == |trace| then Waiting(s, k)
            else var codec := DetectCodec(trace[k]);
                 codec != Unknown && Shifted(s, Initial(codec).Run(trace[k..]), k)
  {
    StartsWaiting();
    hide State.Run, DetectCodec, Waiting, Shifted, FirstDetectable, Initial;
    WaitingRun(Initial(Unknown), 0, trace);
  }

  lemma StartsWaiting()
    ensures Waiting(Initial(Unknown), 0)
  {
  }

  // When the guess is right.

  /** The header an item's packets start from. */
  function LeadingHeader(item: Item): seq<byte> {
    match item
    case One(nal) => nal
    case Several(header, _) => header
    case Split(nal, _) => nal
  }

  /** A header as the codecs' standards allow it: forbidden bit clear and, in H.265,
      a temporal id of at least one. */
  predicate Clean(codec: Codec, item: Item) {
    |LeadingHeader(item)| >= HeaderSize(codec) && LeadingHeader(item)[0] < 128 &&
    (codec == H265 ==> LeadingHeader(item)[1] % 8 != 0)
  }

  /** Which packets give their codec away. H.265 packets do unless they carry a single
      NAL unit of a reserved type. H.264 packets do when the low bits of their second
      byte are zero or, for all but a few types, their importance is two or more. */
  predicate GivesAway(codec: Codec, item: Item)
    requires Clean(codec, item) && codec != Unknown
  {
    var b := LeadingHeader(item)[0];
    if codec == H265 then !(item.One? && 41 <= b / 2 % 64)
    else
      var importance, nalType := b / 32, b % 32;
      match item
      case One(nal) =>
        |nal| >= 2 &&
        (nal[1] % 8 == 0 || (importance == 2 && nalType >= 18) || (importance == 3 && nalType >= 4))
      case Several(_, units) => units != [] && (|units[0]| / 256 % 8 == 0 || importance >= 2)
      case Split(_, _) => b % 8 == 0 || importance >= 2
  }

  lemma DetectsH265(item: Item, i: nat)
    requires Valid(H265, item) && Clean(H265, item) && i < PacketCount(item)
    ensures DetectPayload(Payload(H265, item, i)) == H265 <==> GivesAway(H265, item)
  {
    match item
    case One(_) =>
    case Several(header, _) =>
      assert Payload(H265, item, i)[..2] == header;
    case Split(nal, _) =>
      RebuildsH265Byte(nal[0], 0);
  }

  lemma DetectsAggregate(item: Item)
    requires Valid(H264, item) && Clean(H264, item) && item.Several?
    ensures DetectPayload(Payload(H264, item, 0)) == H264 <==> GivesAway(H264, item)
  {
    var payload := Payload(H264, item, 0);
    assert payload[0] == item.header[0];
    if item.units != [] {
      assert payload[1] == |item.units[0]| / 256;
      DetectsH264Exactly(payload);
    }
  }

  lemma DetectsFragment(item: Item, i: nat)
    requires Valid(H264, item) && Clean(H264, item) && item.Split? && i < PacketCount(item)
    ensures DetectPayload(Payload(H264, item, i)) == H264 <==> GivesAway(H264, item)
  {
    FragmentBytes(item, i);
    hide Payload, DetectPayload, Valid;
    DetectsH264Exactly(Payload(H264, item, i));
  }

  lemma FragmentBytes(item: Item, i: nat)
    requires Valid(H264, item) && item.Split? && i < PacketCount(item)
    ensures var payload, b := Payload(H264, item, i), item.nal[0];
            && |payload| >= 2 && payload[0] / 32 == b / 32 && payload[0] % 32 == 28 && payload[1] % 8 == b % 8
            && (b < 128 ==> payload[0] < 128)
  {
    FuHeaderBits(item.nal[0] % 32, i == 0, i == |item.bodies| - 1);
    assert item.nal[0] % 32 % 8 == item.nal[0] % 8;
  }

  /** The guess from any packet of any valid, clean item. */
  lemma DetectsExactly(codec: Codec, item: Item, i: nat)
    requires codec != Unknown && Valid(codec, item) && Clean(codec, item) && i < PacketCount(item)
    ensures DetectPayload(Payload(codec, item, i)) == codec <==> GivesAway(codec, item)
  {
    hide DetectPayload;
    if codec == H265 {
      DetectsH265(item, i);
    } else if item.Several? {
      DetectsAggregate(item);
    } else if item.Split? {
      DetectsFragment(item, i);
    } else if |item.nal| >= 2 {
      DetectsH264Exactly(item.nal);
    } else {
      TooShortToTell(item.nal);
    }
  }

  lemma TooShortToTell(payload: seq<byte>)
    requires |payload| < 2
    ensures DetectPayload(payload) == Unknown
  {
  }

  lemma FuHeaderBits(nalType: nat, start: bool, end: bool)
    ensures ((if start then 128 else 0) + (if end then 64 else 0) + nalType) % 8 == nalType % 8
  {
  }

  /** Which H.264 payloads are taken for H.264: it goes wrong exactly when the second byte
      could carry a temporal id and importance and type fall in these ranges. */
  lemma DetectsH264Exactly(payload: seq<byte>)
    requires |payload| >= 2 && payload[0] < 128
    requires var nalType := payload[0] % 32; 1 <= nalType <= 24 || nalType == 28
    ensures var nri, nalType := payload[0] / 32, payload[0] % 32;
            DetectPayload(payload) == H264 <==>
            payload[1] % 8 == 0 || !(nri <= 1 || (nri == 2 && nalType <= 17) || (nri == 3 && nalType <= 3))
    ensures DetectPayload(payload) != Unknown
  {
    TypesOf(payload[0]);
  }

  /** The type an H.265 receiver would read in an H.264 header. */
  lemma TypesOf(b: byte)
    requires b < 128
    ensures var nri, nalType := b / 32, b % 32;
            0 <= nri <= 3 && b / 2 % 64 == 16 * nri + nalType / 2
  {
    var nri: int, nalType: int := b / 32, b % 32;
    assert b == 32 * nri + nalType;
    assert b / 2 == 16 * nri + nalType / 2;
  }

  /** A P slice of a reference picture, taken for H.265. */
  lemma MistakesSliceForH265()
    ensures var item := One([0x41, 0x9a]);
            Valid(H264, item) && Clean(H264, item) && DetectPayload(Payload(H264, item, 0)) == H265
  {
  }

  /** A unit of the reserved H.265 type 41, which the receiver passes on, taken for H.264. */
  lemma MistakesReservedForH264()
    ensures var item := One([0x52, 0x01]);
            Valid(H265, item) && Clean(H265, item) && DetectPayload(Payload(H265, item, 0)) == H264
  {
  }

  // Recovery without a declared codec.

  ghost predicate AllGiveAway(codec: Codec, stream: seq<Sending>)
    requires codec != Unknown
  {
    forall i :: 0 <= i < |stream| ==> Clean(codec, stream[i].item) && GivesAway(codec, stream[i].item)
  }

  ghost predicate AllDetected(codec: Codec, packets: seq<seq<byte>>) {
    forall i :: 0 <= i < |packets| ==> DetectCodec(packets[i]) == codec
  }

  lemma {:induction false} ItemDetected(codec: Codec, s: Sending, i: nat, pos: nat)
    requires codec != Unknown && ValidSending(codec, s) && i <= PacketCount(s.item)
    requires Clean(codec, s.item) && GivesAway(codec, s.item)
    ensures AllDetected(codec, PacketsFrom(codec, s, i, pos))
    decreases PacketCount(s.item) - i
  {
    hide Accept, BuildRtp, Payload, Valid, GivesAway, DetectPayload;
    if i < PacketCount(s.item) {
      ClassifiesItem(codec, s.item, i);
      AcceptBuilt(s.headers[i], pos % 0x1_0000, Payload(codec, s.item, i));
      DetectsExactly(codec, s.item, i);
      ItemDetected(codec, s, i + 1, pos + 1);
    }
  }

  lemma {:induction false} StreamDetected(codec: Codec, stream: seq<Sending>, pos: nat)
    requires ValidStream(codec, stream) && AllGiveAway(codec, stream)
    ensures AllDetected(codec, Wire(codec, stream, pos))
    decreases |stream|
  {
    hide DetectCodec, PacketsFrom, GivesAway, Clean;
    if stream != [] {
      ItemDetected(codec, stream[0], 0, pos);
      StreamDetected(codec, stream[1..], pos + PacketCount(stream[0].item));
    }
  }

  lemma {:induction false} ArrivedDetected(codec: Codec, packets: seq<seq<byte>>, kept: seq<bool>, p: nat)
    requires AllDetected(codec, packets) && |kept| == |packets| && p <= |kept|
    ensures AllDetected(codec, Arrived(packets, kept, p))
  {
    hide DetectCodec;
    if p > 0 {
      ArrivedDetected(codec, packets, kept, p - 1);
    }
  }

  lemma NothingRun(codec: Codec)
    ensures Initial(codec).Run([]).reassembly.out == []
  {
  }

  /** A loss pattern without its first d arrivals. */
  function Without(kept: seq<bool>, d: nat): (r: seq<bool>)
    ensures |r| == |kept|
  {
    seq(|kept|, k requires 0 <= k < |kept| => kept[k] && |Arrivals(kept, k)| >= d)
  }

  lemma {:induction false} ArrivedWithout<T>(sent: seq<T>, kept: seq<bool>, d: nat, p: nat)
    requires p <= |kept| == |sent|
    ensures var a := Arrived(sent, kept, p);
            Arrived(sent, Without(kept, d), p) == if d <= |a| then a[d..] else []
  {
    if p > 0 {
      ArrivedWithout(sent, kept, d, p - 1);
      ArrivedAt(sent, kept, p - 1);
      assert Without(kept, d)[p - 1] == (kept[p - 1] && |Arrivals(kept, p - 1)| >= d);
    }
  }

  /** Told nothing, the receiver loses what arrives before the first packet that it takes
      for anything. If it takes that one for what it is, all the rest is recovered exactly,
      unless it is spliced. */
  lemma UndeclaredRecovery(codec: Codec, stream: seq<Sending>, first: nat, kept: seq<bool>)
    requires ValidStream(codec, stream) && |kept| == PacketTotal(stream)
    requires var arrived := Delivered(Wire(codec, stream, first), kept);
             var d := FirstDetectable(arrived);
             d < |arrived| ==> DetectCodec(arrived[d]) == codec
    ensures var arrived := Delivered(Wire(codec, stream, first), kept);
            var rest := Without(kept, FirstDetectable(arrived));
            Received(Unknown, arrived) == Recoverable(codec, stream, rest) <==>
            !SplicesFrom(WireEvents(codec, stream, first), rest, 0)
  {
    hide State.Run, Arrived, DetectCodec, FirstDetectable, Wire, WireEvents;
    hide Recoverable, SplicesFrom, ValidSending, Without;
    var packets := Wire(codec, stream, first);
    var arrived := Delivered(packets, kept);
    var d := FirstDetectable(arrived);
    ArrivedWithout(packets, kept, d, |kept|);
    RecoversExactlyUnlessSpliced(codec, stream, first, Without(kept, d));
    DetectionRefinesDeclaration(arrived);
    if d == |arrived| {
      assert arrived[d..] == [];
      NothingRun(codec);
    }
  }

  lemma NothingDetectedBefore(codec: Codec, packets: seq<seq<byte>>)
    requires codec != Unknown && AllDetected(codec, packets)
    ensures FirstDetectable(packets) == 0
  {
  }

  lemma WithoutNothing(kept: seq<bool>)
    ensures Without(kept, 0) == kept
  {
  }

  /** So it recovers every stream whose items all give it away, whatever is lost: all of
      H.265, but for single NAL units of reserved types. */
  lemma RecoversUndeclared(codec: Codec, stream: seq<Sending>, first: nat, kept: seq<bool>)
    requires ValidStream(codec, stream) && |kept| == PacketTotal(stream) && AllGiveAway(codec, stream)
    ensures Received(Unknown, Delivered(Wire(codec, stream, first), kept)) == Recoverable(codec, stream, kept) <==>
            !SplicesFrom(WireEvents(codec, stream, first), kept, 0)
  {
    hide Received, Arrived, Wire, Recoverable, SplicesFrom, WireEvents, ValidSending;
    hide DetectCodec, AllGiveAway, FirstDetectable, Without;
    StreamDetected(codec, stream, first);
    ArrivedDetected(codec, Wire(codec, stream, first), kept, |kept|);
    NothingDetectedBefore(codec, Delivered(Wire(codec, stream, first), kept));
    WithoutNothing(kept);
    UndeclaredRecovery(codec, stream, first, kept);
  }
}
