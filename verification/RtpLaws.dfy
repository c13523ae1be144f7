/** What the depacketiser hands out and counts, unit by unit and packet by packet. */
module RtpLaws {
  import opened Bytes
  import opened RtpPackets
  import opened RtpDepacketizers
  import opened RtpSender
  import opened RtpSplicing
  import opened RtpRecovery

  // The units of a stream, one by one.

  /** All packets of the i-th item arrive. */
  predicate InFull(stream: seq<Sending>, kept: seq<bool>, i: nat)
    requires i < |stream|
  {
    var from := PacketTotal(stream[..i]);
    var to := from + PacketCount(stream[i].item);
    to <= |kept| && forall p :: from <= p < to ==> kept[p]
  }

  /** How many NAL units the first i items that arrive in full hold. */
  function UnitsBefore(stream: seq<Sending>, kept: seq<bool>, i: nat): nat
    requires i <= |stream|
  {
    if i == 0 then 0
    else UnitsBefore(stream, kept, i - 1) + if InFull(stream, kept, i - 1) then |Nals(stream[i - 1].item)| else 0
  }

  lemma {:induction false} TotalsBehind(stream: seq<Sending>, i: nat)
    requires stream != [] && 0 < i <= |stream|
    ensures PacketTotal(stream[..i]) == PacketCount(stream[0].item) + PacketTotal(stream[1..][..i - 1])
  {
    assert stream[..i][0] == stream[0] && stream[..i][1..] == stream[1..][..i - 1];
  }

  lemma InFullBehind(stream: seq<Sending>, kept: seq<bool>, i: nat)
    requires stream != [] && 0 < i < |stream| && PacketCount(stream[0].item) <= |kept|
    ensures InFull(stream, kept, i) == InFull(stream[1..], kept[PacketCount(stream[0].item)..], i - 1)
  {
    var n, later := PacketCount(stream[0].item), kept[PacketCount(stream[0].item)..];
    TotalsBehind(stream, i);
    var from, count := PacketTotal(stream[1..][..i - 1]), PacketCount(stream[i].item);
    assert stream[1..][i - 1] == stream[i];
    if InFull(stream, kept, i) {
      forall p | from <= p < from + count
        ensures later[p]
      {
        assert kept[n + p];
      }
    }
    if InFull(stream[1..], later, i - 1) {
      forall p | n + from <= p < n + from + count
        ensures kept[p]
      {
        assert later[p - n];
      }
    }
  }

  lemma {:induction false} UnitsBehind(stream: seq<Sending>, kept: seq<bool>, i: nat)
    requires stream != [] && 0 < i <= |stream| && PacketCount(stream[0].item) <= |kept|
    ensures UnitsBefore(stream, kept, i) ==
            UnitsBefore(stream, kept, 1) + UnitsBefore(stream[1..], kept[PacketCount(stream[0].item)..], i - 1)
    decreases i
  {
    hide InFull;
    if i > 1 {
      UnitsBehind(stream, kept, i - 1);
      InFullBehind(stream, kept, i - 1);
    }
  }

  lemma FirstInFull(codec: Codec, stream: seq<Sending>, kept: seq<bool>)
    requires ValidStream(codec, stream) && stream != [] && |kept| == PacketTotal(stream)
    ensures InFull(stream, kept, 0) == AllKept(kept[..PacketCount(stream[0].item)])
    ensures UnitsBefore(stream, kept, 1) == |Due(codec, stream[0], kept[..PacketCount(stream[0].item)])|
  {
    var n := PacketCount(stream[0].item);
    assert stream[..0] == [];
    assert forall p :: 0 <= p < n ==> kept[..n][p] == kept[p];
  }

  lemma {:induction false} RecoverableUnits(codec: Codec, stream: seq<Sending>, kept: seq<bool>)
    requires ValidStream(codec, stream) && |kept| == PacketTotal(stream)
    ensures |Recoverable(codec, stream, kept)| == UnitsBefore(stream, kept, |stream|)
    decreases |stream|
  {
    hide InFull, Due, ValidSending;
    if stream != [] {
      FirstInFull(codec, stream, kept);
      UnitsBehind(stream, kept, |stream|);
      RecoverableUnits(codec, stream[1..], kept[PacketCount(stream[0].item)..]);
    }
  }

  /** The k-th unit of the i-th item stands right behind the units of the items before,
      with a start code, and the timestamp and the marker of the item's last packet. */
  ghost predicate UnitAt(out: seq<NalUnit>, stream: seq<Sending>, kept: seq<bool>, i: nat, k: nat)
    requires i < |stream| && k < |Nals(stream[i].item)|
  {
    var at, headers := UnitsBefore(stream, kept, i) + k, stream[i].headers;
    && at < |out| && headers != []
    && out[at] == NalUnit([0, 0, 0, 1] + Nals(stream[i].item)[k],
                          headers[|headers| - 1].timestamp, headers[|headers| - 1].marker)
  }

  lemma FirstUnits(codec: Codec, stream: seq<Sending>, kept: seq<bool>, k: nat)
    requires ValidStream(codec, stream) && |kept| == PacketTotal(stream) && stream != []
    requires InFull(stream, kept, 0) && k < |Nals(stream[0].item)|
    ensures UnitAt(Due(codec, stream[0], kept[..PacketCount(stream[0].item)]), stream, kept, 0, k)
  {
    FirstInFull(codec, stream, kept);
    assert ValidSending(codec, stream[0]);
    hide Valid, InFull;
  }

  lemma {:induction false} RecoverableAt(codec: Codec, stream: seq<Sending>, kept: seq<bool>, i: nat, k: nat)
    requires ValidStream(codec, stream) && |kept| == PacketTotal(stream)
    requires i < |stream| && InFull(stream, kept, i) && k < |Nals(stream[i].item)|
    ensures UnitAt(Recoverable(codec, stream, kept), stream, kept, i, k)
    decreases i
  {
    hide InFull, Due, ValidSending;
    var n := PacketCount(stream[0].item);
    if i == 0 {
      FirstUnits(codec, stream, kept, k);
    } else {
      FirstInFull(codec, stream, kept);
      InFullBehind(stream, kept, i);
      UnitsBehind(stream, kept, i);
      RecoverableAt(codec, stream[1..], kept[n..], i - 1, k);
    }
  }

  /** What the receiver hands out, unit by unit: unless something splices, every NAL unit
      of every item that arrives in full, in its place, and no others. */
  lemma UnitByUnit(codec: Codec, stream: seq<Sending>, first: nat, kept: seq<bool>)
    requires ValidStream(codec, stream) && |kept| == PacketTotal(stream)
    requires !SplicesFrom(WireEvents(codec, stream, first), kept, 0)
    ensures var out := Received(codec, Delivered(Wire(codec, stream, first), kept));
            && |out| == UnitsBefore(stream, kept, |stream|)
            && forall i, k :: 0 <= i < |stream| && InFull(stream, kept, i) && 0 <= k < |Nals(stream[i].item)| ==>
                 UnitAt(out, stream, kept, i, k)
  {
    hide Received, Delivered, Wire, WireEvents, SplicesFrom, Recoverable, InFull, UnitsBefore, ValidSending, UnitAt;
    RecoversExactlyUnlessSpliced(codec, stream, first, kept);
    RecoverableUnits(codec, stream, kept);
    forall i, k | 0 <= i < |stream| && InFull(stream, kept, i) && 0 <= k < |Nals(stream[i].item)|
      ensures UnitAt(Recoverable(codec, stream, kept), stream, kept, i, k)
    {
      RecoverableAt(codec, stream, kept, i, k);
    }
  }

  // Which packets are accepted: exactly those a sender may build.

  function CsrcsOf(b: seq<byte>): seq<uint32>
    requires |b| % 4 == 0
  {
    if b == [] then [] else [ReadBe32(b[0], b[1], b[2], b[3])] + CsrcsOf(b[4..])
  }

  lemma {:induction false} CsrcsBack(b: seq<byte>)
    requires |b| % 4 == 0
    ensures |CsrcsOf(b)| == |b| / 4 && CsrcBytes(CsrcsOf(b)) == b
    decreases |b|
  {
    hide ReadBe32, Be32;
    if b != [] {
      CsrcsBack(b[4..]);
      WritesBackBe32(b[0], b[1], b[2], b[3]);
      assert b == [b[0], b[1], b[2], b[3]] + b[4..];
    }
  }

  function ExtensionOf(b: seq<byte>): Option<Extension>
    requires b == [] || |b| >= 4
  {
    if b == [] then None else Some(Extension(ReadBe16(b[0], b[1]), b[4..]))
  }

  lemma ExtensionBack(b: seq<byte>)
    requires b == [] || (|b| >= 4 && |b| == 4 + 4 * ReadBe16(b[2], b[3]))
    ensures var e := ExtensionOf(b);
            (e.Some? ==> |e.value.words| % 4 == 0 && |e.value.words| / 4 < 0x1_0000) && ExtensionBytes(e) == b
  {
    if b != [] {
      var n: int := ReadBe16(b[2], b[3]);
      assert |b[4..]| == 4 * n && |b[4..]| / 4 == n;
      assert Be16(n) == [b[2], b[3]] && Be16(ReadBe16(b[0], b[1])) == [b[0], b[1]];
      assert b == [b[0], b[1]] + [b[2], b[3]] + b[4..];
    }
  }

  /** The header fields a packet was built from, given where its parts end. */
  function FieldsOf(data: seq<byte>, csrcEnd: nat, payloadFrom: nat, payloadTo: nat): Fields
    requires 12 <= csrcEnd && (csrcEnd == payloadFrom || csrcEnd + 4 <= payloadFrom) && csrcEnd % 4 == 0
    requires payloadFrom <= payloadTo <= |data|
  {
    Fields(data[1] >= 128, data[1] % 128, ReadBe32(data[4], data[5], data[6], data[7]),
           ReadBe32(data[8], data[9], data[10], data[11]),
           CsrcsOf(data[12..csrcEnd]), ExtensionOf(data[csrcEnd..payloadFrom]), data[payloadTo..])
  }

  /** What the parser demands, in the shape of the packet. */
  ghost predicate Parts(data: seq<byte>, a: Accepted, csrcEnd: nat, payloadFrom: nat, payloadTo: nat) {
    && 12 <= csrcEnd <= payloadFrom < payloadTo <= |data| && data[0] / 64 == 2
    && csrcEnd == 12 + 4 * (data[0] % 16)
    && (if data[0] / 16 % 2 == 1
        then csrcEnd + 4 <= payloadFrom
             && payloadFrom == csrcEnd + 4 + 4 * ReadBe16(data[csrcEnd + 2], data[csrcEnd + 3])
        else csrcEnd == payloadFrom)
    && (if data[0] / 32 % 2 == 1 then data[|data| - 1] == |data| - payloadTo > 0 else payloadTo == |data|)
    && a == Accepted(ReadBe16(data[2], data[3]), ReadBe32(data[4], data[5], data[6], data[7]), data[1] >= 128,
                     data[payloadFrom..payloadTo])
  }

  lemma AcceptedParts(data: seq<byte>, a: Accepted) returns (csrcEnd: nat, payloadFrom: nat, payloadTo: nat)
    requires Accept(data) == Some(a)
    ensures Parts(data, a, csrcEnd, payloadFrom, payloadTo)
  {
    csrcEnd := 12 + 4 * (data[0] % 16);
    payloadFrom := ParseRtp(data).value.payloadOffset;
    payloadTo := payloadFrom + PayloadSize(data, payloadFrom);
  }

  lemma RebuildsFixed(data: seq<byte>, f: Fields)
    requires |data| >= 12 && f.Legal() && data[0] == FirstByte(f)
    requires f.marker == (data[1] >= 128) && f.payloadType == data[1] % 128
    requires f.timestamp == ReadBe32(data[4], data[5], data[6], data[7])
    requires f.ssrc == ReadBe32(data[8], data[9], data[10], data[11])
    ensures FixedHeader(f, ReadBe16(data[2], data[3])) == data[..12]
  {
    WritesBackBe32(data[4], data[5], data[6], data[7]);
    WritesBackBe32(data[8], data[9], data[10], data[11]);
    assert Be16(ReadBe16(data[2], data[3])) == [data[2], data[3]];
    hide Be32, ReadBe32, FirstByte, Be16, ReadBe16;
    assert (if f.marker then 128 else 0) + f.payloadType == data[1];
  }

  lemma FirstByteBack(b: byte, f: Fields)
    requires b / 64 == 2 && f.Legal() && |f.csrcs| == b % 16
    requires f.extension.Some? == (b / 16 % 2 == 1) && (f.padding != []) == (b / 32 % 2 == 1)
    ensures FirstByte(f) == b
  {
    var top: int, p: int, x: int, n: int := b / 64, b / 32 % 2, b / 16 % 2, b % 16;
    assert b / 16 == 4 * top + 2 * p + x;
    assert b == 16 * (b / 16) + n;
  }

  lemma SlicesJoin(data: seq<byte>, i: nat, j: nat, k: nat, l: nat)
    requires i <= j <= k <= l <= |data|
    ensures data == data[..i] + data[i..j] + data[j..k] + data[k..l] + data[l..]
  {
  }

  lemma PartsOfHeader(data: seq<byte>, a: Accepted, csrcEnd: nat, payloadFrom: nat, payloadTo: nat)
    requires Parts(data, a, csrcEnd, payloadFrom, payloadTo)
    ensures csrcEnd % 4 == 0 && (csrcEnd == payloadFrom || csrcEnd + 4 <= payloadFrom)
    ensures var csrc, ext, padding := data[12..csrcEnd], data[csrcEnd..payloadFrom], data[payloadTo..];
            && |csrc| == 4 * (data[0] % 16) && |csrc| % 4 == 0
            && (ext == [] || (|ext| >= 4 && |ext| == 4 + 4 * ReadBe16(ext[2], ext[3])))
            && (ext != []) == (data[0] / 16 % 2 == 1) && (padding != []) == (data[0] / 32 % 2 == 1)
            && |padding| < 256 && (padding != [] ==> padding[|padding| - 1] == |padding|) && data[0] / 64 == 2
  {
    hide ReadBe16, ReadBe32;
  }

  lemma PartsLegal(data: seq<byte>, a: Accepted, csrcEnd: nat, payloadFrom: nat, payloadTo: nat)
    requires Parts(data, a, csrcEnd, payloadFrom, payloadTo)
    ensures csrcEnd % 4 == 0 && (csrcEnd == payloadFrom || csrcEnd + 4 <= payloadFrom)
    ensures var f := FieldsOf(data, csrcEnd, payloadFrom, payloadTo);
            && f.Legal() && f.timestamp == a.timestamp && f.marker == a.marker
            && CsrcBytes(f.csrcs) == data[12..csrcEnd] && ExtensionBytes(f.extension) == data[csrcEnd..payloadFrom]
            && FirstByte(f) == data[0]
  {
    PartsOfHeader(data, a, csrcEnd, payloadFrom, payloadTo);
    assert a.timestamp == ReadBe32(data[4], data[5], data[6], data[7]) && a.marker == (data[1] >= 128);
    hide Parts, CsrcBytes, CsrcsOf, ExtensionBytes, ReadBe32, ReadBe16, FirstByte;
    CsrcsBack(data[12..csrcEnd]);
    ExtensionBack(data[csrcEnd..payloadFrom]);
    FirstByteBack(data[0], FieldsOf(data, csrcEnd, payloadFrom, payloadTo));
  }

  lemma PartsAreBuilt(data: seq<byte>, a: Accepted, csrcEnd: nat, payloadFrom: nat, payloadTo: nat)
    requires Parts(data, a, csrcEnd, payloadFrom, payloadTo)
    ensures csrcEnd % 4 == 0
    ensures var f := FieldsOf(data, csrcEnd, payloadFrom, payloadTo);
            && f.Legal() && f.timestamp == a.timestamp && f.marker == a.marker
            && data == BuildRtp(f, a.sequence, a.payload)
  {
    PartsLegal(data, a, csrcEnd, payloadFrom, payloadTo);
    var f := FieldsOf(data, csrcEnd, payloadFrom, payloadTo);
    RebuildsFixed(data, f);
    SlicesJoin(data, 12, csrcEnd, payloadFrom, payloadTo);
    hide CsrcBytes, CsrcsOf, ExtensionBytes, ExtensionOf, FixedHeader, FirstByte, ReadBe32, ReadBe16, Fields.Legal;
  }

  /** The parser accepts exactly the packets that RFC 3550 lets a sender build, with a
      payload: of any bytes at all, it takes those and reads them for what they are. */
  lemma AcceptsExactlyBuilt(data: seq<byte>, a: Accepted)
    ensures Accept(data) == Some(a) <==>
            a.payload != [] &&
            exists f: Fields :: f.Legal() && f.timestamp == a.timestamp && f.marker == a.marker
                                && data == BuildRtp(f, a.sequence, a.payload)
  {
    hide Accept, BuildRtp, Parts;
    if Accept(data) == Some(a) {
      var csrcEnd, payloadFrom, payloadTo := AcceptedParts(data, a);
      PartsAreBuilt(data, a, csrcEnd, payloadFrom, payloadTo);
    }
    if a.payload != [] {
      forall f: Fields | f.Legal() && f.timestamp == a.timestamp && f.marker == a.marker
                         && data == BuildRtp(f, a.sequence, a.payload)
        ensures Accept(data) == Some(a)
      {
        AcceptBuilt(f, a.sequence, a.payload);
      }
    }
  }

  // What a payload counts as.

  /** H.264: the types nobody reassembles, and what is too short to tell. */
  lemma RefusesH264Exactly(payload: seq<byte>)
    ensures ClassifyH264(payload).Unsupported? <==> payload != [] && payload[0] % 32 in {0, 25, 26, 27, 29, 30, 31}
    ensures ClassifyH264(payload).TooShort? <==> payload == [] || (|payload| == 1 && payload[0] % 32 == 28)
    ensures ClassifyH264(payload).Fragment? <==> |payload| >= 2 && payload[0] % 32 == 28
    ensures payload != [] && 1 <= payload[0] % 32 <= 23 ==> ClassifyH264(payload) == Whole([payload], true)
    ensures payload != [] && payload[0] % 32 == 24 ==> ClassifyH264(payload) == Aggregated(payload, 1)
  {
  }

  /** H.265 the same. */
  lemma RefusesH265Exactly(payload: seq<byte>)
    ensures ClassifyH265(payload).Unsupported? <==> |payload| >= 2 && payload[0] / 2 % 64 >= 50
    ensures ClassifyH265(payload).TooShort? <==> |payload| < 2 || (|payload| == 2 && payload[0] / 2 % 64 == 49)
    ensures ClassifyH265(payload).Fragment? <==> |payload| >= 3 && payload[0] / 2 % 64 == 49
    ensures |payload| >= 2 && payload[0] / 2 % 64 <= 47 ==> ClassifyH265(payload) == Whole([payload], true)
    ensures |payload| >= 2 && payload[0] / 2 % 64 == 48 ==> ClassifyH265(payload) == Aggregated(payload, 2)
  {
  }

  /** What a fragment carries, bit by bit. */
  lemma FragmentPartsH264(payload: seq<byte>)
    requires ClassifyH264(payload).Fragment?
    ensures var u, b, fu := ClassifyH264(payload), payload[0], payload[1];
            && u.start == (fu >= 128) && u.end == (fu % 128 >= 64) && u.body == payload[2..] && |u.header| == 1
            && u.header[0] / 32 == b / 32 && u.header[0] % 32 == fu % 32
  {
  }

  lemma FragmentPartsH265(payload: seq<byte>)
    requires ClassifyH265(payload).Fragment?
    ensures var u, b, fu := ClassifyH265(payload), payload[0], payload[2];
            && u.start == (fu >= 128) && u.end == (fu % 128 >= 64) && u.body == payload[3..] && |u.header| == 2
            && u.header[0] / 128 == b / 128 && u.header[0] % 2 == b % 2 && u.header[0] / 2 % 64 == fu % 64
            && u.header[1] == payload[1]
  {
    RebuiltParts(payload[0], payload[2]);
    hide RebuiltH265;
  }

  lemma RebuiltParts(b: byte, fu: byte)
    ensures var h := RebuiltH265(b, fu); h / 128 == b / 128 && h % 2 == b % 2 && h / 2 % 64 == fu % 64
  {
    var top: int, mid: int, low: int := b / 128, fu % 64, b % 2;
    var h := top * 128 + mid * 2 + low;
    assert h / 2 == top * 64 + mid && h / 128 == top && h % 2 == low;
  }

  /** What is left of an aggregation packet: too short for a size, or with an unsound one. */
  ghost predicate RestOf(u: Unit, rest: seq<byte>)
    requires u.Whole?
  {
    if u.sound then |rest| < 2
    else |rest| >= 2 && var size := 256 * (rest[0] as int) + rest[1] as int; size == 0 || size > |rest| - 2
  }

  ghost predicate Tiles(here: seq<byte>, u: Unit, rest: seq<byte>)
    requires u.Whole?
  {
    && (forall i :: 0 <= i < |u.nals| ==> 0 < |u.nals[i]| < 0x1_0000)
    && here == SizePrefixed(u.nals) + rest && RestOf(u, rest)
  }

  lemma TilesEnd(payload: seq<byte>, offset: nat)
    requires offset <= |payload|
    requires offset + 2 > |payload| ||
             var size := ReadBe16(payload[offset], payload[offset + 1]); size == 0 || offset + 2 + size > |payload|
    ensures Tiles(payload[offset..], Aggregated(payload, offset), payload[offset..])
  {
    var here := payload[offset..];
    assert offset + 2 <= |payload| ==> here[0] == payload[offset] && here[1] == payload[offset + 1];
    assert here == SizePrefixed([]) + here;
  }

  lemma TilesMore(payload: seq<byte>, offset: nat, rest: seq<byte>)
    requires offset + 2 <= |payload|
    requires var size := ReadBe16(payload[offset], payload[offset + 1]);
             0 < size && offset + 2 + size <= |payload|
             && Tiles(payload[offset + 2 + size..], Aggregated(payload, offset + 2 + size), rest)
    ensures Tiles(payload[offset..], Aggregated(payload, offset), rest)
  {
    hide SizePrefixed, ReadBe16;
    var size := ReadBe16(payload[offset], payload[offset + 1]);
    PrefixMore(payload, offset, size, Aggregated(payload, offset + 2 + size).nals, rest);
  }

  /** Any aggregation packet is size-prefixed units and a rest; it is unsound exactly when
      the rest announces nothing, or more than there is. */
  lemma {:induction false} AggregateTiles(payload: seq<byte>, offset: nat) returns (rest: seq<byte>)
    requires offset <= |payload|
    ensures Tiles(payload[offset..], Aggregated(payload, offset), rest)
    decreases |payload| - offset
  {
    hide Tiles, Aggregated;
    if offset + 2 <= |payload| {
      var size := ReadBe16(payload[offset], payload[offset + 1]);
      if 0 < size && offset + 2 + size <= |payload| {
        rest := AggregateTiles(payload, offset + 2 + size);
        TilesMore(payload, offset, rest);
        return;
      }
    }
    TilesEnd(payload, offset);
    rest := payload[offset..];
  }

  lemma PrefixMore(payload: seq<byte>, offset: nat, size: nat, nals: seq<seq<byte>>, rest: seq<byte>)
    requires offset + 2 + size <= |payload| && 0 < size == ReadBe16(payload[offset], payload[offset + 1])
    requires forall i :: 0 <= i < |nals| ==> 0 < |nals[i]| < 0x1_0000
    requires payload[offset + 2 + size..] == SizePrefixed(nals) + rest
    ensures var unit := payload[offset + 2..offset + 2 + size];
            var all := [unit] + nals;
            && (forall i :: 0 <= i < |all| ==> 0 < |all[i]| < 0x1_0000)
            && payload[offset..] == SizePrefixed(all) + rest
  {
    var unit := payload[offset + 2..offset + 2 + size];
    var all := [unit] + nals;
    assert all[0] == unit && all[1..] == nals;
    assert Be16(size) == [payload[offset], payload[offset + 1]];
    assert SizePrefixed(all) == Be16(size) + unit + SizePrefixed(nals);
    assert payload[offset..] == [payload[offset], payload[offset + 1]] + unit + payload[offset + 2 + size..];
    ConcatAssoc(Be16(size) + unit, SizePrefixed(nals), rest, []);
  }

  // Counters and results, after any trace.

  ghost predicate Open(history: seq<Event>) {
    exists j: nat :: OpenSpan(history, j)
  }

  /** A packet out of sequence gives up what is open. */
  ghost predicate Breaks(history: seq<Event>, e: Event) {
    history != [] && Open(history) && e.sequence != (history[|history| - 1].sequence + 1) % 0x1_0000
  }

  /** A fragment that neither starts nor continues anything. */
  ghost predicate Misses(history: seq<Event>, e: Event) {
    e.unit.Fragment? && !e.unit.start && (!Open(history) || Breaks(history, e))
  }

  lemma StateAfter(codec: Codec, trace: seq<seq<byte>>)
    requires codec != Unknown
    ensures var s, h := Initial(codec).Run(trace), History(codec, trace);
            && s.codec == codec && s.reassembly.held.Some? == Open(h)
            && (h != [] ==> s.reassembly.expectedSeq == (h[|h| - 1].sequence + 1) % 0x1_0000)
  {
    hide State.Run, History, OpenSpan, Assembled;
    RunTakesHistory(Initial(codec), trace);
    HistoryRemembered(History(codec, trace));
  }

  /** After any trace, what one packet adds to the counters, and what is returned. */
  lemma CountsExactly(codec: Codec, trace: seq<seq<byte>>, data: seq<byte>)
    requires codec != Unknown
    ensures var s, h := Initial(codec).Run(trace), History(codec, trace);
            var (t, ok) := s.Push(data);
            && t.packets == s.packets + 1
            && match Accept(data)
               case None => t.dropped == s.dropped + 1 && t.broken == s.broken && !ok
               case Some(a) =>
                 var e := EventOf(codec, a);
                 && t.dropped == s.dropped + (if e.unit.Unsupported? || (e.unit.Whole? && !e.unit.sound) then 1 else 0)
                 && t.broken == s.broken + (if Breaks(h, e) then 1 else 0) + (if Misses(h, e) then 1 else 0)
                 && ok == ((e.unit.Whole? && e.unit.sound) || (e.unit.Fragment? && !Misses(h, e)))
  {
    StateAfter(codec, trace);
    NothingOpen();
    hide State.Run, History, Open, Accept, EventOf, AnnexB;
  }

  lemma NothingOpen()
    ensures !Open([])
  {
  }

  /** Told no codec: a packet that gives none away is dropped and refused; one that does is
      treated as if the codec had been told just before. */
  lemma DetectsFirst(s: State, data: seq<byte>)
    requires s.codec == Unknown && s.reassembly.held.None?
    ensures var (t, ok) := s.Push(data);
            if DetectCodec(data) == Unknown
            then t.codec == Unknown && t.packets == s.packets + 1 && t.dropped == s.dropped + 1 && t.broken == s.broken
                 && t.reassembly.out == s.reassembly.out && t.reassembly.held.None? && !ok
            else (t, ok) == s.(codec := DetectCodec(data)).Push(data)
  {
    hide DetectPayload, ParseRtp, PayloadSize, State.Handle;
  }

  lemma CountsFrom(codec: Codec)
    ensures Initial(codec).packets == 0 && Initial(codec).dropped == 0 && Initial(codec).broken == 0
    ensures Initial(codec).reassembly.out == []
  {
  }
}
