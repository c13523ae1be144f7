/** How much loss exact recovery survives. Sequence numbers have 16 bits, so a run
    of lost packets whose length is a multiple of 2^16 goes unnoticed. */
module RtpAliasing {
  import opened Bytes
  import opened RtpPackets
  import opened RtpDepacketizers
  import opened RtpSender
  import opened RtpSplicing
  import opened RtpRecovery

  /** Positions i < j both arrive and nothing between them does. */
  predicate Neighbours(kept: seq<bool>, i: int, j: int) {
    0 <= i < j < |kept| && kept[i] && kept[j] && forall k :: i < k < j ==> !kept[k]
  }

  /** No run lost between two arrivals has a length that is a positive multiple of 2^16. */
  ghost predicate Unaliased(kept: seq<bool>) {
    forall i, j :: Neighbours(kept, i, j) ==> j - i == 1 || (j - i - 1) % 0x1_0000 != 0
  }

  /** The loss the original design has in mind: every run lost is shorter than 2^16. */
  ghost predicate ShortRuns(kept: seq<bool>) {
    forall i, j :: Neighbours(kept, i, j) ==> j - i - 1 < 0x1_0000
  }

  lemma ShortRunsUnaliased(kept: seq<bool>)
    requires ShortRuns(kept)
    ensures Unaliased(kept)
  {
    forall i, j | Neighbours(kept, i, j)
      ensures j - i == 1 || (j - i - 1) % 0x1_0000 != 0
    {
      assert j - i - 1 < 0x1_0000;
    }
  }

  // An unaliased loss splices nothing.

  /** Sequence numbers are positions modulo 2^16. */
  predicate Numbered(sent: seq<Event>, first: nat) {
    forall k :: 0 <= k < |sent| ==> sent[k].sequence == (first + k) % 0x1_0000
  }

  lemma {:induction false} ItemNumbered(codec: Codec, s: Sending, i: nat, pos: nat)
    requires codec != Unknown && ValidSending(codec, s) && i <= PacketCount(s.item)
    ensures Numbered(EventsFrom(codec, s, i, pos), pos)
    decreases PacketCount(s.item) - i
  {
    hide ValidSending;
    if i < PacketCount(s.item) {
      ItemNumbered(codec, s, i + 1, pos + 1);
    }
  }

  lemma {:induction false} WireNumbered(codec: Codec, stream: seq<Sending>, pos: nat)
    requires ValidStream(codec, stream)
    ensures Numbered(WireEvents(codec, stream, pos), pos)
    decreases |stream|
  {
    hide ValidSending, EventsFrom;
    if stream != [] {
      ItemNumbered(codec, stream[0], 0, pos);
      WireNumbered(codec, stream[1..], pos + PacketCount(stream[0].item));
    }
  }

  /** Every position that arrives is among the arrivals. */
  lemma {:induction false} ArrivalAt(kept: seq<bool>, p: nat, k: nat) returns (i: nat)
    requires k < p <= |kept| && kept[k]
    ensures i < |Arrivals(kept, p)| && Arrivals(kept, p)[i] == k
  {
    if k == p - 1 {
      i := |Arrivals(kept, p - 1)|;
    } else {
      i := ArrivalAt(kept, p - 1, k);
    }
  }

  lemma ArrivalsAreNeighbours(kept: seq<bool>, p: nat, i: nat)
    requires p <= |kept| && 0 < i < |Arrivals(kept, p)|
    ensures Neighbours(kept, Arrivals(kept, p)[i - 1], Arrivals(kept, p)[i])
  {
    var a := Arrivals(kept, p);
    forall k | a[i - 1] < k < a[i]
      ensures !kept[k]
    {
      if kept[k] {
        var x := ArrivalAt(kept, p, k);
        assert false;
      }
    }
  }

  lemma SameResidue(x: nat, y: nat)
    requires x % 0x1_0000 == (y % 0x1_0000 + 1) % 0x1_0000 && y < x
    ensures (x - y - 1) % 0x1_0000 == 0
  {
    assert (y % 0x1_0000 + 1) % 0x1_0000 == (y + 1) % 0x1_0000;
    assert x == 0x1_0000 * (x / 0x1_0000) + x % 0x1_0000;
    assert y + 1 == 0x1_0000 * ((y + 1) / 0x1_0000) + (y + 1) % 0x1_0000;
    assert x - y - 1 == 0x1_0000 * (x / 0x1_0000 - (y + 1) / 0x1_0000);
  }

  /** In a span of consecutive numbers nothing is lost, if no gap is aliased. */
  lemma {:induction false} SpanIsContiguous(sent: seq<Event>, first: nat, kept: seq<bool>, p: nat, j: nat, i: nat)
    requires p <= |kept| == |sent| && Numbered(sent, first) && Unaliased(kept)
    requires Consecutive(Arrived(sent, kept, p), j) && j <= i < |Arrivals(kept, p)|
    ensures Arrivals(kept, p)[i] == Arrivals(kept, p)[j] + (i - j)
    decreases i
  {
    if j < i {
      SpanIsContiguous(sent, first, kept, p, j, i - 1);
      ArrivedAt(sent, kept, p);
      var a, h := Arrivals(kept, p), Arrived(sent, kept, p);
      ArrivalsAreNeighbours(kept, p, i);
      assert h[i].sequence == (h[i - 1].sequence + 1) % 0x1_0000;
      assert h[i] == sent[a[i]] && h[i - 1] == sent[a[i - 1]];
      SameResidue(first + a[i], first + a[i - 1]);
    }
  }

  lemma UnaliasedNeverSplices(sent: seq<Event>, first: nat, kept: seq<bool>)
    requires |kept| == |sent| && Numbered(sent, first) && Unaliased(kept)
    ensures !SplicesFrom(sent, kept, 0)
  {
    if p: nat, j: nat :| p < |kept| && Splices(sent, kept, p, j) {
      SpanIsContiguous(sent, first, kept, p + 1, j, |Arrivals(kept, p + 1)| - 1);
      assert false;
    }
  }

  /** Exact recovery whenever no gap is aliased. */
  lemma ExactRecovery(codec: Codec, stream: seq<Sending>, first: nat, kept: seq<bool>)
    requires ValidStream(codec, stream) && |kept| == PacketTotal(stream) && Unaliased(kept)
    ensures Recovers(codec, stream, first, kept)
  {
    hide Recovers, WireEvents, SplicesFrom, Numbered, Unaliased;
    WireNumbered(codec, stream, first);
    UnaliasedNeverSplices(WireEvents(codec, stream, first), first, kept);
    RecoversExactlyUnlessSpliced(codec, stream, first, kept);
  }

  // What is emitted was sent.

  /** The k-th NAL unit of a sending, behind a start code, with its last packet's times. */
  ghost predicate IsUnitOf(s: Sending, k: int, unit: NalUnit) {
    && 0 <= k < |Nals(s.item)| && s.headers != []
    && var last := s.headers[|s.headers| - 1];
       unit == NalUnit([0, 0, 0, 1] + Nals(s.item)[k], last.timestamp, last.marker)
  }

  ghost predicate IsSent(stream: seq<Sending>, unit: NalUnit) {
    exists i, k :: 0 <= i < |stream| && IsUnitOf(stream[i], k, unit)
  }

  /** Made up: not even its bytes were sent. */
  ghost predicate IsForeign(stream: seq<Sending>, unit: NalUnit) {
    forall i, k :: 0 <= i < |stream| && 0 <= k < |Nals(stream[i].item)| ==>
      unit.data != [0, 0, 0, 1] + Nals(stream[i].item)[k]
  }

  lemma ForeignIsNotSent(stream: seq<Sending>, unit: NalUnit)
    requires IsForeign(stream, unit)
    ensures !IsSent(stream, unit)
  {
  }

  lemma SentLater(stream: seq<Sending>, unit: NalUnit)
    requires stream != [] && IsSent(stream[1..], unit)
    ensures IsSent(stream, unit)
  {
    hide IsUnitOf;
    var i, k :| 0 <= i < |stream[1..]| && IsUnitOf(stream[1..][i], k, unit);
    assert IsUnitOf(stream[i + 1], k, unit);
  }

  lemma SentNow(stream: seq<Sending>, unit: NalUnit)
    requires stream != [] && stream[0].headers != [] && unit in LastOutput(stream[0])
    ensures IsSent(stream, unit)
  {
    var k :| 0 <= k < |LastOutput(stream[0])| && unit == LastOutput(stream[0])[k];
    assert IsUnitOf(stream[0], k, unit);
  }

  lemma {:induction false} RecoverableIsSent(codec: Codec, stream: seq<Sending>, kept: seq<bool>, unit: NalUnit)
    requires ValidStream(codec, stream) && |kept| == PacketTotal(stream) && unit in Recoverable(codec, stream, kept)
    ensures IsSent(stream, unit)
    decreases |stream|
  {
    assert ValidSending(codec, stream[0]);
    hide AllKept, Valid, LastOutput, IsSent;
    if unit in Recoverable(codec, stream[1..], kept[PacketCount(stream[0].item)..]) {
      RecoverableIsSent(codec, stream[1..], kept[PacketCount(stream[0].item)..], unit);
      SentLater(stream, unit);
    } else {
      HasHeader(codec, stream[0]);
      SentNow(stream, unit);
    }
  }

  lemma AllSent(codec: Codec, stream: seq<Sending>, kept: seq<bool>)
    requires ValidStream(codec, stream) && |kept| == PacketTotal(stream)
    ensures forall unit :: unit in Recoverable(codec, stream, kept) ==> IsSent(stream, unit)
  {
    forall unit | unit in Recoverable(codec, stream, kept)
      ensures IsSent(stream, unit)
    {
      RecoverableIsSent(codec, stream, kept, unit);
    }
  }

  lemma HasHeader(codec: Codec, s: Sending)
    requires codec != Unknown && ValidSending(codec, s)
    ensures s.headers != []
  {
  }

  /** The receiver hands out nothing but NAL units of the stream. */
  ghost predicate OnlySent(codec: Codec, stream: seq<Sending>, first: nat, kept: seq<bool>)
    requires ValidStream(codec, stream) && |kept| == PacketTotal(stream)
  {
    forall unit :: unit in Received(codec, Delivered(Wire(codec, stream, first), kept)) ==> IsSent(stream, unit)
  }

  ghost predicate NothingForeign(codec: Codec, stream: seq<Sending>, first: nat, kept: seq<bool>)
    requires ValidStream(codec, stream) && |kept| == PacketTotal(stream)
  {
    forall unit :: unit in Received(codec, Delivered(Wire(codec, stream, first), kept)) ==> !IsForeign(stream, unit)
  }

  lemma SentIsNotForeign(codec: Codec, stream: seq<Sending>, first: nat, kept: seq<bool>)
    requires ValidStream(codec, stream) && |kept| == PacketTotal(stream) && OnlySent(codec, stream, first, kept)
    ensures NothingForeign(codec, stream, first, kept)
  {
    hide Received, Delivered, Wire, IsSent, IsForeign;
    forall unit | unit in Received(codec, Delivered(Wire(codec, stream, first), kept))
      ensures !IsForeign(stream, unit)
    {
      if IsForeign(stream, unit) { ForeignIsNotSent(stream, unit); }
    }
  }

  // The other direction: an aliased gap splices some stream.

  /** A gap of a multiple of 2^16 between two fragments, the one starting and the other
      ending a NAL unit, goes unnoticed: out comes one header with the two bodies. */
  lemma EndsSplice(sent: seq<Event>, first: nat, kept: seq<bool>, i: nat, j: nat)
    requires |kept| == |sent| && Numbered(sent, first) && Neighbours(kept, i, j) && (j - i - 1) % 0x1_0000 == 0
    requires Starts(sent[i]) && !Ends(sent[i]) && !Starts(sent[j]) && Ends(sent[j])
    ensures var nal := sent[i].unit.header + sent[i].unit.body + sent[j].unit.body;
            Out(sent, kept, j + 1) ==
            Out(sent, kept, j) + [NalUnit([0, 0, 0, 1] + nal, sent[j].timestamp, sent[j].marker)]
  {
    hide Out, Emission;
    var h, x := Arrived(sent, kept, j + 1), |Arrivals(kept, i)|;
    TwoArrivals(sent, kept, i, j);
    AliasedSequence(first + i, j - i);
    Step(sent, kept, j);
    assert CompleteSpan(h, x);
    EmitsSpan(h, x);
    BodiesOf(h, x, [sent[i].unit.body, sent[j].unit.body]);
    ConcatAssoc(sent[i].unit.header, sent[i].unit.body, sent[j].unit.body, []);
    assert Flatten([sent[i].unit.body, sent[j].unit.body]) == sent[i].unit.body + sent[j].unit.body by {
      FlattenTwo(sent[i].unit.body, sent[j].unit.body);
    }
  }

  lemma FlattenTwo<T>(a: seq<T>, b: seq<T>)
    ensures Flatten([a, b]) == a + b
  {
    assert [a, b][1..] == [b] && [b][1..] == [];
    assert Flatten([b]) == b + Flatten([]);
  }

  lemma TwoArrivals(sent: seq<Event>, kept: seq<bool>, i: nat, j: nat)
    requires |kept| == |sent| && Neighbours(kept, i, j)
    ensures Arrived(sent, kept, j + 1) == Arrived(sent, kept, i) + [sent[i], sent[j]]
    ensures |Arrived(sent, kept, i)| == |Arrivals(kept, i)|
  {
    ArrivedAt(sent, kept, i);
    LostRun(sent, kept, i + 1, j);
    var h := Arrived(sent, kept, i);
    ArrivedMore(sent, kept, i);
    ArrivedMore(sent, kept, j);
    hide Arrived, Arrivals;
    assert h + [sent[i]] + [sent[j]] == h + [sent[i], sent[j]];
  }

  lemma ArrivedMore(sent: seq<Event>, kept: seq<bool>, p: nat)
    requires p < |kept| == |sent| && kept[p]
    ensures Arrived(sent, kept, p + 1) == Arrived(sent, kept, p) + [sent[p]]
  {
  }

  lemma {:induction false} LostRun(sent: seq<Event>, kept: seq<bool>, i: nat, j: nat)
    requires i <= j <= |kept| == |sent| && forall k :: i <= k < j ==> !kept[k]
    ensures Arrived(sent, kept, j) == Arrived(sent, kept, i)
    decreases j
  {
    if i < j {
      LostRun(sent, kept, i, j - 1);
    }
  }

  lemma AliasedSequence(pos: nat, last: nat)
    requires last > 0 && (last - 1) % 0x1_0000 == 0
    ensures (pos + last) % 0x1_0000 == (pos % 0x1_0000 + 1) % 0x1_0000
  {
    var turns: int := (last - 1) / 0x1_0000;
    assert pos + last == pos + 1 + 0x1_0000 * turns;
  }

  // The witness: single NAL units all around, and one NAL unit, a byte a packet, cut
  // so that its first and last packet are the two neighbours of the gap.

  function SmallNal(codec: Codec): (nal: seq<byte>)
    ensures |nal| == HeaderSize(codec)
  {
    if codec == H264 then [0x65] else [0x26, 0x01]
  }

  const PLAIN := Fields(true, 96, 90000, 0, [], None, [])

  function Singles(codec: Codec, n: nat): seq<Sending> {
    seq(n, _ => Sending(One(SmallNal(codec)), [PLAIN]))
  }

  function LongSplit(codec: Codec, parts: nat): Sending {
    Sending(Split(SmallNal(codec) + seq(parts, _ => 0xaa), seq(parts, _ => [0xaa])), seq(parts, _ => PLAIN))
  }

  lemma {:induction false} OneByteParts(n: nat)
    ensures Flatten<byte>(seq(n, _ => [0xaa])) == seq(n, _ => 0xaa)
  {
    if n > 0 {
      var s := seq<seq<byte>>(n, _ => [0xaa]);
      assert s[1..] == seq<seq<byte>>(n - 1, _ => [0xaa]);
      OneByteParts(n - 1);
    }
  }

  lemma {:induction false} SinglesTotal(codec: Codec, n: nat)
    requires codec != Unknown
    ensures ValidStream(codec, Singles(codec, n)) && PacketTotal(Singles(codec, n)) == n
  {
    if n > 0 {
      assert Singles(codec, n)[1..] == Singles(codec, n - 1);
      SinglesTotal(codec, n - 1);
    }
  }

  lemma LongSplitValid(codec: Codec, parts: nat)
    requires codec != Unknown && parts > 0
    ensures ValidSending(codec, LongSplit(codec, parts))
  {
    OneByteParts(parts);
    assert (SmallNal(codec) + seq(parts, _ => 0xaa))[HeaderSize(codec)..] == seq(parts, _ => 0xaa);
  }

  /** The stream that a mask with an aliased gap from i to j splices. */
  function Victim(codec: Codec, kept: seq<bool>, i: nat, j: nat): seq<Sending>
    requires i < j < |kept|
  {
    Singles(codec, i) + ([LongSplit(codec, j - i + 1)] + Singles(codec, |kept| - j - 1))
  }

  lemma {:induction false} PacketTotalConcat(a: seq<Sending>, b: seq<Sending>)
    ensures PacketTotal(a + b) == PacketTotal(a) + PacketTotal(b)
  {
    if a == [] {
      assert a + b == b;
    } else {
      assert (a + b)[0] == a[0] && (a + b)[1..] == a[1..] + b;
      PacketTotalConcat(a[1..], b);
    }
  }

  lemma {:induction false} WireEventsConcat(codec: Codec, a: seq<Sending>, b: seq<Sending>, pos: nat)
    requires ValidStream(codec, a) && ValidStream(codec, b) && ValidStream(codec, a + b)
    ensures WireEvents(codec, a + b, pos) == WireEvents(codec, a, pos) + WireEvents(codec, b, pos + PacketTotal(a))
    decreases |a|
  {
    hide WireEvents, EventsFrom, ValidSending;
    if a == [] {
      assert a + b == b;
      assert WireEvents(codec, a, pos) == [];
      assert [] + WireEvents(codec, b, pos) == WireEvents(codec, b, pos);
    } else {
      var n := PacketCount(a[0].item);
      assert (a + b)[0] == a[0] && (a + b)[1..] == a[1..] + b;
      WireEventsConcat(codec, a[1..], b, pos + n);
      WireEventsHead(codec, a, pos);
      WireEventsHead(codec, a + b, pos);
      ConcatAssoc(EventsFrom(codec, a[0], 0, pos), WireEvents(codec, a[1..], pos + n),
                  WireEvents(codec, b, pos + PacketTotal(a)), []);
    }
  }

  lemma WireEventsHead(codec: Codec, stream: seq<Sending>, pos: nat)
    requires ValidStream(codec, stream) && stream != []
    ensures WireEvents(codec, stream, pos) ==
            EventsFrom(codec, stream[0], 0, pos) + WireEvents(codec, stream[1..], pos + PacketCount(stream[0].item))
  {
  }

  lemma VictimValid(codec: Codec, kept: seq<bool>, i: nat, j: nat)
    requires codec != Unknown && i < j < |kept|
    ensures var v, split := Victim(codec, kept, i, j), LongSplit(codec, j - i + 1);
            && ValidStream(codec, v) && PacketTotal(v) == |kept| && ValidSending(codec, split)
            && |kept| == |WireEvents(codec, v, 0)| && StandsAt(codec, split, 0, WireEvents(codec, v, 0), i)
  {
    hide ValidSending, WireEvents, StandsAt;
    var before, split, after := Singles(codec, i), LongSplit(codec, j - i + 1), Singles(codec, |kept| - j - 1);
    var tail := [split] + after;
    SinglesTotal(codec, i);
    SinglesTotal(codec, |kept| - j - 1);
    LongSplitValid(codec, j - i + 1);
    hide Singles, LongSplit;
    assert PacketCount(split.item) == j - i + 1 by { LongSplitCount(codec, j - i + 1); }
    assert tail[0] == split && tail[1..] == after;
    PacketTotalConcat(before, tail);
    WireEventsConcat(codec, before, tail, 0);
    FirstStands(codec, tail, 0, WireEvents(codec, before + tail, 0), i);
  }

  lemma LongSplitCount(codec: Codec, parts: nat)
    ensures PacketCount(LongSplit(codec, parts).item) == parts
  {
  }

  lemma {:induction false} OutGrows(sent: seq<Event>, kept: seq<bool>, p: nat, q: nat, unit: NalUnit)
    requires p <= q <= |kept| == |sent| && unit in Out(sent, kept, p)
    ensures unit in Out(sent, kept, q)
  {
    hide Out, Arrived, Emission;
    if p < q {
      OutGrows(sent, kept, p, q - 1, unit);
      Step(sent, kept, q - 1);
    }
  }

  /** What the two ends of the long NAL unit are spliced to. */
  function Monster(codec: Codec): NalUnit {
    NalUnit([0, 0, 0, 1] + SmallNal(codec) + [0xaa, 0xaa], 90000, true)
  }

  lemma MonsterIsForeign(codec: Codec, kept: seq<bool>, i: nat, j: nat)
    requires codec != Unknown && i + 1 < j < |kept|
    ensures IsForeign(Victim(codec, kept, i, j), Monster(codec))
  {
    var v := Victim(codec, kept, i, j);
    forall x, k | 0 <= x < |v| && 0 <= k < |Nals(v[x].item)|
      ensures |Nals(v[x].item)[k]| != HeaderSize(codec) + 2
    {
    }
  }

  /** The receiver makes up a NAL unit whose bytes are not in the stream. */
  lemma VictimSpliced(codec: Codec, kept: seq<bool>, i: nat, j: nat)
    requires codec != Unknown && Neighbours(kept, i, j) && j - i > 1 && (j - i - 1) % 0x1_0000 == 0
    ensures var v := Victim(codec, kept, i, j);
            && ValidStream(codec, v) && PacketTotal(v) == |kept| && IsForeign(v, Monster(codec))
            && Monster(codec) in Received(codec, Delivered(Wire(codec, v, 0), kept))
  {
    hide Received, Delivered, Wire, WireEvents, ValidSending, ValidStream, Victim, LongSplit;
    hide Out, Numbered, IsForeign, StandsAt, Monster;
    var v, split := Victim(codec, kept, i, j), LongSplit(codec, j - i + 1);
    VictimValid(codec, kept, i, j);
    MonsterIsForeign(codec, kept, i, j);
    var sent := WireEvents(codec, v, 0);
    LongSplitCount(codec, j - i + 1);
    WireNumbered(codec, v, 0);
    EndsOfLongSplit(codec, split, 0, sent, i);
    EndsSplice(sent, 0, kept, i, j);
    OutGrows(sent, kept, j + 1, |kept|, Monster(codec));
    ReceivedIsOut(codec, v, 0, kept);
  }

  lemma EndsOfLongSplit(codec: Codec, split: Sending, first: nat, sent: seq<Event>, i: nat)
    requires codec != Unknown && ValidSending(codec, split) && StandsAt(codec, split, first, sent, i)
    requires split == LongSplit(codec, PacketCount(split.item)) && PacketCount(split.item) > 1
    ensures var e, f := sent[i], sent[i + PacketCount(split.item) - 1];
            && Starts(e) && !Ends(e) && !Starts(f) && Ends(f)
            && var nal := e.unit.header + e.unit.body + f.unit.body;
               NalUnit([0, 0, 0, 1] + nal, f.timestamp, f.marker) == Monster(codec)
  {
    var n := PacketCount(split.item);
    SentFragment(codec, split, 0, first + i);
    SentFragment(codec, split, n - 1, first + i + n - 1);
    assert sent[i] == SentEvent(codec, split, 0, first + i);
    assert sent[i + n - 1] == SentEvent(codec, split, n - 1, first + i + n - 1);
    hide SentEvent, ValidSending, StandsAt;
    assert split.item.nal[..HeaderSize(codec)] == SmallNal(codec);
    assert [0, 0, 0, 1] + (SmallNal(codec) + [0xaa] + [0xaa]) == [0, 0, 0, 1] + SmallNal(codec) + [0xaa, 0xaa];
  }

  /** The channel may do what it likes, short of losing a run of packets whose length is
      a positive multiple of 2^16 between two arrivals. That, and only that, can make
      the receiver emit something else than what arrived whole; and that, and only
      that, can make it hand out a NAL unit - or one with other times - that was never
      sent, even one whose bytes never were. */
  lemma RecoversExactlyWhenUnaliased(codec: Codec, kept: seq<bool>)
    requires codec != Unknown
    ensures Unaliased(kept) <==>
            forall stream, first ::
              ValidStream(codec, stream) && PacketTotal(stream) == |kept| ==> Recovers(codec, stream, first, kept)
    ensures Unaliased(kept) <==>
            forall stream, first ::
              ValidStream(codec, stream) && PacketTotal(stream) == |kept| ==> OnlySent(codec, stream, first, kept)
    ensures Unaliased(kept) <==>
            forall stream, first ::
              ValidStream(codec, stream) && PacketTotal(stream) == |kept| ==> NothingForeign(codec, stream, first, kept)
  {
    hide ValidSending, Received, Delivered, Wire, IsSent, IsForeign, Recoverable;
    if Unaliased(kept) {
      forall stream, first | ValidStream(codec, stream) && PacketTotal(stream) == |kept|
        ensures Recovers(codec, stream, first, kept) && OnlySent(codec, stream, first, kept)
        ensures NothingForeign(codec, stream, first, kept)
      {
        ExactRecovery(codec, stream, first, kept);
        AllSent(codec, stream, kept);
        SentIsNotForeign(codec, stream, first, kept);
      }
    } else {
      var i, j :| Neighbours(kept, i, j) && j - i != 1 && (j - i - 1) % 0x1_0000 == 0;
      var v := Victim(codec, kept, i, j);
      VictimSpliced(codec, kept, i, j);
      AllSent(codec, v, kept);
      ForeignIsNotSent(v, Monster(codec));
      assert !Recovers(codec, v, 0, kept) && !OnlySent(codec, v, 0, kept) && !NothingForeign(codec, v, 0, kept);
    }
  }
}
