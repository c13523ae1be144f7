/** Packetise, lose packets, reassemble: what comes out of the depacketiser when an
    in-order channel deletes any packets it likes. */
module RtpRecovery {
  import opened Bytes
  import opened RtpPackets
  import opened RtpDepacketizers
  import opened RtpSender
  import opened RtpSplicing

  /** An item with one RTP header per packet. */
  datatype Sending = Sending(item: Item, headers: seq<Fields>)

  ghost predicate ValidSending(codec: Codec, s: Sending)
    requires codec != Unknown
  {
    && Valid(codec, s.item)
    && |s.headers| == PacketCount(s.item)
    && forall i :: 0 <= i < |s.headers| ==> s.headers[i].Legal()
  }

  ghost predicate ValidStream(codec: Codec, stream: seq<Sending>) {
    codec != Unknown && forall i :: 0 <= i < |stream| ==> ValidSending(codec, stream[i])
  }

  /** An item's packets from its i-th on; `pos` is the position of that packet in
      the stream, and sequence numbers are positions modulo 2^16. */
  ghost function PacketsFrom(codec: Codec, s: Sending, i: nat, pos: nat): (r: seq<seq<byte>>)
    requires codec != Unknown && ValidSending(codec, s) && i <= PacketCount(s.item)
    ensures |r| == PacketCount(s.item) - i
    decreases PacketCount(s.item) - i
  {
    if i == PacketCount(s.item) then []
    else [BuildRtp(s.headers[i], pos % 0x1_0000, Payload(codec, s.item, i))] + PacketsFrom(codec, s, i + 1, pos + 1)
  }

  /** The same packets as the receiver reads them. */
  ghost function EventsFrom(codec: Codec, s: Sending, i: nat, pos: nat): (r: seq<Event>)
    requires codec != Unknown && ValidSending(codec, s) && i <= PacketCount(s.item)
    ensures |r| == PacketCount(s.item) - i
    decreases PacketCount(s.item) - i
  {
    if i == PacketCount(s.item) then []
    else [SentEvent(codec, s, i, pos)] + EventsFrom(codec, s, i + 1, pos + 1)
  }

  ghost function SentEvent(codec: Codec, s: Sending, i: nat, pos: nat): Event
    requires codec != Unknown && ValidSending(codec, s) && i < PacketCount(s.item)
  {
    Event(pos % 0x1_0000, UnitOf(codec, s.item, i), s.headers[i].timestamp, s.headers[i].marker)
  }

  ghost function WireEvents(codec: Codec, stream: seq<Sending>, pos: nat): (r: seq<Event>)
    requires ValidStream(codec, stream)
    ensures |r| == PacketTotal(stream)
  {
    if stream == [] then []
    else EventsFrom(codec, stream[0], 0, pos) + WireEvents(codec, stream[1..], pos + PacketCount(stream[0].item))
  }

  ghost function Wire(codec: Codec, stream: seq<Sending>, pos: nat): (r: seq<seq<byte>>)
    requires ValidStream(codec, stream)
    ensures |r| == PacketTotal(stream)
  {
    if stream == [] then []
    else PacketsFrom(codec, stream[0], 0, pos) + Wire(codec, stream[1..], pos + PacketCount(stream[0].item))
  }

  function PacketTotal(stream: seq<Sending>): nat {
    if stream == [] then 0 else PacketCount(stream[0].item) + PacketTotal(stream[1..])
  }

  /** The channel: `kept[i]` says whether the i-th packet arrives. This much of the first p does. */
  function Arrived<T>(sent: seq<T>, kept: seq<bool>, p: nat): (r: seq<T>)
    requires p <= |kept| == |sent|
  {
    if p == 0 then [] else Arrived(sent, kept, p - 1) + if kept[p - 1] then [sent[p - 1]] else []
  }

  function Delivered<T>(sent: seq<T>, kept: seq<bool>): seq<T>
    requires |sent| == |kept|
  {
    Arrived(sent, kept, |kept|)
  }

  predicate AllKept(kept: seq<bool>) {
    forall i :: 0 <= i < |kept| ==> kept[i]
  }

  /** What an item that arrives in full is worth: its NAL units behind start codes, with
      the timestamp and marker of its last packet. */
  function LastOutput(s: Sending): seq<NalUnit>
    requires s.headers != []
  {
    var nals, last := Nals(s.item), s.headers[|s.headers| - 1];
    seq(|nals|, k requires 0 <= k < |nals| => NalUnit([0, 0, 0, 1] + nals[k], last.timestamp, last.marker))
  }

  /** What an item is worth when these of its packets arrive. */
  ghost function Due(codec: Codec, s: Sending, now: seq<bool>): seq<NalUnit>
    requires codec != Unknown && ValidSending(codec, s)
  {
    if AllKept(now) then LastOutput(s) else []
  }

  /** What the receiver ought to emit: exactly the NAL units all of whose packets
      arrived, with the timestamp and marker of the last of them. */
  ghost function Recoverable(codec: Codec, stream: seq<Sending>, kept: seq<bool>): seq<NalUnit>
    requires ValidStream(codec, stream) && |kept| == PacketTotal(stream)
  {
    if stream == [] then [] else
    var n := PacketCount(stream[0].item);
    Due(codec, stream[0], kept[..n]) + Recoverable(codec, stream[1..], kept[n..])
  }

  // The arrivals, by their positions.

  /** The positions below p that arrive. */
  function Arrivals(kept: seq<bool>, p: nat): (a: seq<nat>)
    requires p <= |kept|
    ensures forall i :: 0 <= i < |a| ==> a[i] < p && kept[a[i]]
    ensures forall i, j :: 0 <= i < j < |a| ==> a[i] < a[j]
  {
    if p == 0 then [] else Arrivals(kept, p - 1) + if kept[p - 1] then [p - 1] else []
  }

  lemma {:induction false} ArrivedAt<T>(sent: seq<T>, kept: seq<bool>, p: nat)
    requires p <= |kept| == |sent|
    ensures |Arrived(sent, kept, p)| == |Arrivals(kept, p)|
    ensures forall i :: 0 <= i < |Arrivals(kept, p)| ==> Arrived(sent, kept, p)[i] == sent[Arrivals(kept, p)[i]]
  {
    if p > 0 {
      ArrivedAt(sent, kept, p - 1);
    }
  }

  /** A run of arrivals with nothing lost. */
  lemma {:induction false} ArrivesInFull(kept: seq<bool>, pos: nat, n: nat)
    requires pos + n <= |kept| && forall k :: pos <= k < pos + n ==> kept[k]
    ensures var h, a := |Arrivals(kept, pos)|, Arrivals(kept, pos + n);
            |a| == h + n && forall k :: h <= k < h + n ==> a[k] == pos + (k - h)
  {
    if n > 0 {
      ArrivesInFull(kept, pos, n - 1);
    }
  }

  lemma {:induction false} Spread(kept: seq<bool>, p: nat, j: nat, i: nat)
    requires p <= |kept| && j <= i < |Arrivals(kept, p)|
    ensures var a := Arrivals(kept, p); a[j] + (i - j) <= a[i]
    decreases i
  {
    if j < i {
      Spread(kept, p, j, i - 1);
      assert Arrivals(kept, p)[i - 1] < Arrivals(kept, p)[i];
    }
  }

  /** From the j-th arrival to the last there are as many positions as arrivals or
      more; if as many, nothing in between is lost. */
  lemma NothingLost(kept: seq<bool>, p: nat, j: nat)
    requires p <= |kept| && j < |Arrivals(kept, p)|
    ensures var a := Arrivals(kept, p);
            var x, last := a[j], a[|a| - 1];
            && x + (|a| - 1 - j) <= last
            && (x + (|a| - 1 - j) == last ==> forall i :: j <= i < |a| ==> a[i] == x + (i - j))
  {
    var a := Arrivals(kept, p);
    Spread(kept, p, j, |a| - 1);
    if a[j] + (|a| - 1 - j) == a[|a| - 1] {
      forall i | j <= i < |a|
        ensures a[i] == a[j] + (i - j)
      {
        Spread(kept, p, j, i);
        Spread(kept, p, i, |a| - 1);
      }
    }
  }

  // Splices.

  /** The packet at p arrives and, for all sequence numbers can tell, closes the
      fragmented NAL unit that the j-th arrival started - but between the two
      packets were lost. */
  predicate Splices(sent: seq<Event>, kept: seq<bool>, p: nat, j: nat)
    requires p < |kept| == |sent|
  {
    kept[p] && CompleteSpan(Arrived(sent, kept, p + 1), j) && j < |Arrivals(kept, p + 1)|
    && Arrivals(kept, p + 1)[j] + (|Arrivals(kept, p + 1)| - 1 - j) < p
  }

  ghost predicate SplicesAt(sent: seq<Event>, kept: seq<bool>, p: nat)
    requires p < |kept| == |sent|
  {
    exists j: nat :: Splices(sent, kept, p, j)
  }

  /** What comes out below p. */
  ghost function Out(sent: seq<Event>, kept: seq<bool>, p: nat): seq<NalUnit>
    requires p <= |kept| == |sent|
  {
    Emissions(Arrived(sent, kept, p))
  }

  /** What comes out at one position. */
  lemma Step(sent: seq<Event>, kept: seq<bool>, p: nat)
    requires p < |kept| == |sent|
    ensures var before, after, e, h := Out(sent, kept, p), Out(sent, kept, p + 1), sent[p], Arrived(sent, kept, p + 1);
            && (!kept[p] ==> after == before && !SplicesAt(sent, kept, p))
            && (kept[p] ==> h != [] && h[|h| - 1] == e && after == before + Emission(h))
            && (kept[p] && e.unit.Whole? ==> after == before + UnitsOf(e))
            && (e.unit.Fragment? && !Ends(e) ==> after == before)
            && (!Ends(e) ==> !SplicesAt(sent, kept, p))
  {
    var h := Arrived(sent, kept, p + 1);
    if kept[p] {
      assert h[..|h| - 1] == Arrived(sent, kept, p) && h[|h| - 1] == sent[p];
    } else {
      assert h == Arrived(sent, kept, p);
    }
  }

  /** Packets that end nothing: the inner ones of a fragmented NAL unit. */
  lemma {:induction false} InnerEmitNothing(sent: seq<Event>, kept: seq<bool>, pos: nat, n: nat)
    requires pos + n <= |kept| == |sent|
    requires forall k :: pos <= k < pos + n ==> sent[k].unit.Fragment? && !Ends(sent[k])
    ensures Out(sent, kept, pos + n) == Out(sent, kept, pos)
    ensures forall k :: pos <= k < pos + n ==> !SplicesAt(sent, kept, k)
  {
    hide Out, SplicesAt, Arrived;
    if n > 0 {
      InnerEmitNothing(sent, kept, pos, n - 1);
      Step(sent, kept, pos + n - 1);
    }
  }

  /** The packets of one fragmented NAL unit stand at pos. */
  ghost predicate SplitAt(sent: seq<Event>, pos: nat, n: nat) {
    && 0 < n && pos + n <= |sent|
    && forall k :: pos <= k < pos + n ==>
         sent[k].unit.Fragment? && Starts(sent[k]) == (k == pos) && Ends(sent[k]) == (k == pos + n - 1)
  }

  /** Its packets carry these bodies, numbered one after the other. */
  ghost predicate Carries(sent: seq<Event>, pos: nat, bodies: seq<seq<byte>>)
    requires SplitAt(sent, pos, |bodies|)
  {
    forall k :: pos <= k < pos + |bodies| ==>
      sent[k].unit.body == bodies[k - pos] && (k > pos ==> sent[k].sequence == (sent[k - 1].sequence + 1) % 0x1_0000)
  }

  /** The bodies of fragments that stand one behind the other in a history. */
  lemma {:induction false} BodiesOf(history: seq<Event>, j: nat, bodies: seq<seq<byte>>)
    requires |history| == j + |bodies|
    requires forall k :: j <= k < |history| ==> history[k].unit.Fragment? && history[k].unit.body == bodies[k - j]
    ensures Bodies(history, j) == Flatten(bodies)
    decreases |bodies|
  {
    if bodies != [] {
      var n := |bodies| - 1;
      BodiesOf(history[..|history| - 1], j, bodies[..n]);
      FlattenConcat(bodies[..n], [bodies[n]]);
      assert bodies[..n] + [bodies[n]] == bodies;
      assert Flatten([bodies[n]]) == bodies[n] + Flatten([]) == bodies[n];
    }
  }

  /** There is at most one complete span, so it is the one emitted. */
  lemma EmitsSpan(history: seq<Event>, j: nat)
    requires CompleteSpan(history, j)
    ensures var e := history[|history| - 1];
            Emission(history) == [NalUnit([0, 0, 0, 1] + Assembled(history, j), e.timestamp, e.marker)]
    ensures forall i: nat :: CompleteSpan(history, i) ==> i == j
  {
    forall i: nat | CompleteSpan(history, i)
      ensures i == j
    {
      assert Starts(history[i]) && Starts(history[j]);
    }
  }

  /** Seen in full, a fragmented NAL unit is the last thing in the history. */
  lemma HeardInFull(sent: seq<Event>, kept: seq<bool>, pos: nat, n: nat)
    requires |kept| == |sent| && pos + n <= |sent| && forall k :: pos <= k < pos + n ==> kept[k]
    ensures var h, a, j := Arrived(sent, kept, pos + n), Arrivals(kept, pos + n), |Arrivals(kept, pos)|;
            |h| == |a| == j + n && forall k :: j <= k < j + n ==> a[k] == pos + (k - j) && h[k] == sent[pos + (k - j)]
  {
    ArrivedAt(sent, kept, pos + n);
    ArrivesInFull(kept, pos, n);
  }

  lemma NoSplice(sent: seq<Event>, kept: seq<bool>, p: nat, h: seq<Event>, j: nat)
    requires p < |kept| == |sent| && j < |Arrivals(kept, p + 1)| && h == Arrived(sent, kept, p + 1)
    requires forall i: nat :: CompleteSpan(h, i) ==> i == j
    requires Arrivals(kept, p + 1)[j] + (|Arrivals(kept, p + 1)| - 1 - j) == p
    ensures !SplicesAt(sent, kept, p)
  {
    hide CompleteSpan, Arrivals;
  }

  lemma SpanOf(sent: seq<Event>, history: seq<Event>, j: nat, pos: nat, bodies: seq<seq<byte>>)
    requires SplitAt(sent, pos, |bodies|) && |history| == j + |bodies|
    requires forall k :: j <= k < |history| ==> history[k] == sent[pos + (k - j)]
    requires Carries(sent, pos, bodies)
    ensures CompleteSpan(history, j) && Assembled(history, j) == sent[pos].unit.header + Flatten(bodies)
  {
    BodiesOf(history, j, bodies);
  }

  /** A fragmented NAL unit all of whose packets arrive comes out, whatever was held before. */
  lemma SplitInFull(sent: seq<Event>, kept: seq<bool>, pos: nat, bodies: seq<seq<byte>>)
    requires SplitAt(sent, pos, |bodies|) && |kept| == |sent| && forall k :: pos <= k < pos + |bodies| ==> kept[k]
    requires Carries(sent, pos, bodies)
    ensures var e := sent[pos + |bodies| - 1];
            Out(sent, kept, pos + |bodies|) ==
            Out(sent, kept, pos)
            + [NalUnit([0, 0, 0, 1] + (sent[pos].unit.header + Flatten(bodies)), e.timestamp, e.marker)]
    ensures forall p :: pos <= p < pos + |bodies| ==> !SplicesAt(sent, kept, p)
  {
    hide Arrived, Arrivals, Out, Emission, SplicesAt, CompleteSpan, Assembled, Flatten, Carries;
    var n, j := |bodies|, |Arrivals(kept, pos)|;
    var h := Arrived(sent, kept, pos + n);
    HeardInFull(sent, kept, pos, n);
    SpanOf(sent, h, j, pos, bodies);
    InnerEmitNothing(sent, kept, pos, n - 1);
    hide SplitAt;
    var p := pos + n - 1;
    Step(sent, kept, p);
    EmitsSpan(h, j);
    NoSplice(sent, kept, p, h, j);
  }

  /** A start at x, and everything from there to p arrives without another start. */
  ghost predicate FullFrom(sent: seq<Event>, kept: seq<bool>, x: nat, p: nat)
    requires p < |kept| == |sent|
  {
    x <= p && Starts(sent[x]) && forall k :: x <= k <= p ==> kept[k] && (k > x ==> !Starts(sent[k]))
  }

  /** A complete span is a splice, or nothing in it is lost. */
  lemma SpliceOrFull(sent: seq<Event>, kept: seq<bool>, p: nat, j: nat)
    requires p < |kept| == |sent| && kept[p] && CompleteSpan(Arrived(sent, kept, p + 1), j)
    ensures Splices(sent, kept, p, j) || exists x: nat :: FullFrom(sent, kept, x, p)
  {
    hide CompleteSpan, Arrived, Arrivals, Starts, FullFrom;
    var h, a := Arrived(sent, kept, p + 1), Arrivals(kept, p + 1);
    ArrivedAt(sent, kept, p + 1);
    LastArrives(kept, p);
    SpanInside(h, j);
    NothingLost(kept, p + 1, j);
    if a[j] + (|a| - 1 - j) == p {
      NoneMissing(sent, kept, h, a, p, j);
    }
  }

  lemma LastArrives(kept: seq<bool>, p: nat)
    requires p < |kept| && kept[p]
    ensures var a := Arrivals(kept, p + 1); a != [] && a[|a| - 1] == p
  {
  }

  lemma SpanInside(history: seq<Event>, j: nat)
    requires CompleteSpan(history, j)
    ensures j < |history|
  {
  }

  lemma NoneMissing(sent: seq<Event>, kept: seq<bool>, h: seq<Event>, a: seq<nat>, p: nat, j: nat)
    requires p < |kept| == |sent| && |h| == |a| && CompleteSpan(h, j) && a[j] + (|a| - 1 - j) == p
    requires forall i :: 0 <= i < |a| ==> a[i] <= p && kept[a[i]] && h[i] == sent[a[i]]
    requires forall i :: j <= i < |a| ==> a[i] == a[j] + (i - j)
    ensures FullFrom(sent, kept, a[j], p)
  {
    hide Consecutive;
    forall k | a[j] <= k <= p
      ensures kept[k] && (k > a[j] ==> !Starts(sent[k]))
    {
      assert a[j + (k - a[j])] == k;
    }
  }

  /** The latest start without a gap behind it is the start of the NAL unit that ends. */
  lemma FullIsSplit(sent: seq<Event>, kept: seq<bool>, pos: nat, n: nat, x: nat)
    requires SplitAt(sent, pos, n) && |kept| == |sent| && FullFrom(sent, kept, x, pos + n - 1)
    ensures forall k :: pos <= k < pos + n ==> kept[k]
  {
    assert Starts(sent[pos]) && (x <= pos ==> kept[pos]);
  }

  lemma EmitsAtEnd(history: seq<Event>)
    requires history != [] && history[|history| - 1].unit.Fragment?
    ensures if exists j: nat :: CompleteSpan(history, j) then |Emission(history)| == 1 else Emission(history) == []
  {
  }

  lemma SpliceIsSpan(sent: seq<Event>, kept: seq<bool>, p: nat, h: seq<Event>)
    requires p < |kept| == |sent| && SplicesAt(sent, kept, p) && h == Arrived(sent, kept, p + 1)
    ensures kept[p] && exists j: nat :: CompleteSpan(h, j)
  {
    hide CompleteSpan, Arrived, Arrivals;
  }

  /** A fragmented NAL unit one of whose packets is lost: nothing, or - when its last
      packet closes a span all the same - a splice. */
  lemma BrokenSplit(sent: seq<Event>, kept: seq<bool>, pos: nat, n: nat)
    requires SplitAt(sent, pos, n) && |kept| == |sent| && exists k :: pos <= k < pos + n && !kept[k]
    ensures forall p :: pos <= p < pos + n - 1 ==> !SplicesAt(sent, kept, p)
    ensures if SplicesAt(sent, kept, pos + n - 1)
            then |Out(sent, kept, pos + n)| == |Out(sent, kept, pos)| + 1
            else Out(sent, kept, pos + n) == Out(sent, kept, pos)
  {
    hide Out, Arrived, Emission, CompleteSpan, Splices;
    var p := pos + n - 1;
    var h := Arrived(sent, kept, p + 1);
    InnerEmitNothing(sent, kept, pos, n - 1);
    Step(sent, kept, p);
    if kept[p] {
      EmitsAtEnd(h);
      if j: nat :| CompleteSpan(h, j) {
        SpliceOrFull(sent, kept, p, j);
        if x: nat :| FullFrom(sent, kept, x, p) {
          FullIsSplit(sent, kept, pos, n, x);
        }
      } else if SplicesAt(sent, kept, p) {
        SpliceIsSpan(sent, kept, p, h);
      }
    }
  }

  // Items and streams.

  /** The item's packets stand at pos in what is sent. */
  ghost predicate StandsAt(codec: Codec, s: Sending, first: nat, sent: seq<Event>, pos: nat)
    requires codec != Unknown && ValidSending(codec, s)
  {
    var n := PacketCount(s.item);
    pos + n <= |sent| && forall k :: pos <= k < pos + n ==> sent[k] == SentEvent(codec, s, k - pos, first + k)
  }

  lemma SentFragment(codec: Codec, s: Sending, i: nat, pos: nat)
    requires codec != Unknown && ValidSending(codec, s) && s.item.Split? && i < PacketCount(s.item)
    ensures var e, n := SentEvent(codec, s, i, pos), PacketCount(s.item);
            && e.unit == Fragment(i == 0, i == n - 1, s.item.nal[..HeaderSize(codec)], s.item.bodies[i])
            && e.sequence == pos % 0x1_0000 && (pos + 1) % 0x1_0000 == (e.sequence + 1) % 0x1_0000
  {
  }

  lemma SplitStands(codec: Codec, s: Sending, first: nat, sent: seq<Event>, pos: nat)
    requires codec != Unknown && ValidSending(codec, s) && s.item.Split? && StandsAt(codec, s, first, sent, pos)
    ensures var n := PacketCount(s.item);
            && SplitAt(sent, pos, n)
            && Carries(sent, pos, s.item.bodies)
  {
    hide SentEvent, Valid;
    assert PacketCount(s.item) > 0 by { NonEmpty(codec, s); }
    forall k | pos <= k < pos + PacketCount(s.item)
      ensures sent[k].unit.Fragment? && Starts(sent[k]) == (k == pos)
      ensures Ends(sent[k]) == (k == pos + PacketCount(s.item) - 1) && sent[k].unit.body == s.item.bodies[k - pos]
      ensures k > pos ==> sent[k].sequence == (sent[k - 1].sequence + 1) % 0x1_0000
    {
      SentFragment(codec, s, k - pos, first + k);
      if k > pos {
        SentFragment(codec, s, k - 1 - pos, first + k - 1);
      }
    }
  }

  lemma NonEmpty(codec: Codec, s: Sending)
    requires codec != Unknown && ValidSending(codec, s)
    ensures PacketCount(s.item) > 0
  {
  }

  /** Exactly what is due comes out of n packets at pos, unless the last of them splices:
      then one unit more. */
  ghost predicate Through(sent: seq<Event>, kept: seq<bool>, pos: nat, n: nat, due: seq<NalUnit>)
    requires 0 < n && pos + n <= |sent| == |kept|
  {
    && (forall p :: pos <= p < pos + n - 1 ==> !SplicesAt(sent, kept, p))
    && if SplicesAt(sent, kept, pos + n - 1) then |Out(sent, kept, pos + n)| == |Out(sent, kept, pos)| + |due| + 1
       else Out(sent, kept, pos + n) == Out(sent, kept, pos) + due
  }

  lemma SplitThrough(codec: Codec, s: Sending, first: nat, sent: seq<Event>, kept: seq<bool>, pos: nat)
    requires codec != Unknown && ValidSending(codec, s) && s.item.Split? && StandsAt(codec, s, first, sent, pos)
    requires |kept| == |sent|
    ensures var n := PacketCount(s.item);
            0 < n && Through(sent, kept, pos, n, Due(codec, s, kept[pos..pos + n]))
  {
    hide Out, SplicesAt;
    var n := PacketCount(s.item);
    var now := kept[pos..pos + n];
    SplitStands(codec, s, first, sent, pos);
    if AllKept(now) {
      assert forall k :: pos <= k < pos + n ==> now[k - pos] == kept[k];
      SplitInFull(sent, kept, pos, s.item.bodies);
      assert sent[pos] == SentEvent(codec, s, 0, first + pos);
      assert s.item.nal[..HeaderSize(codec)] + Flatten(s.item.bodies) == s.item.nal;
    } else {
      assert forall k :: 0 <= k < n ==> now[k] == kept[pos + k];
      BrokenSplit(sent, kept, pos, n);
    }
  }

  lemma SentWhole(codec: Codec, s: Sending, pos: nat)
    requires codec != Unknown && ValidSending(codec, s) && !s.item.Split?
    ensures var e := SentEvent(codec, s, 0, pos);
            && s.headers != [] && e.unit == Whole(Nals(s.item), true)
            && UnitsOf(e) == LastOutput(s)
  {
  }

  /** Packets that hold whole NAL units do not depend on what was lost or held before. */
  lemma WholeThrough(sent: seq<Event>, kept: seq<bool>, pos: nat)
    requires pos < |sent| == |kept| && sent[pos].unit.Whole?
    ensures var e := sent[pos];
            Through(sent, kept, pos, 1, if AllKept(kept[pos..pos + 1]) then UnitsOf(e) else [])
  {
    hide Out, Arrived, SplicesAt, Emission, UnitsOf;
    Step(sent, kept, pos);
    assert kept[pos..pos + 1] == [kept[pos]];
    assert Out(sent, kept, pos) + [] == Out(sent, kept, pos);
  }

  lemma WholeItemThrough(codec: Codec, s: Sending, first: nat, sent: seq<Event>, kept: seq<bool>, pos: nat)
    requires codec != Unknown && ValidSending(codec, s) && !s.item.Split? && StandsAt(codec, s, first, sent, pos)
    requires |kept| == |sent|
    ensures pos < |sent| && Through(sent, kept, pos, 1, Due(codec, s, kept[pos..pos + 1]))
  {
    assert sent[pos] == SentEvent(codec, s, 0, first + pos);
    SentWhole(codec, s, first + pos);
    hide SentEvent, ValidSending, StandsAt, Through, AllKept, LastOutput, UnitsOf, Nals;
    WholeThrough(sent, kept, pos);
  }

  /** One item through the channel: its units if all its packets arrive, otherwise
      nothing - or, when its last packet splices, one unit too many. */
  lemma ItemThrough(codec: Codec, s: Sending, first: nat, sent: seq<Event>, kept: seq<bool>, pos: nat)
    requires codec != Unknown && ValidSending(codec, s) && StandsAt(codec, s, first, sent, pos) && |kept| == |sent|
    ensures var n := PacketCount(s.item);
            0 < n && Through(sent, kept, pos, n, Due(codec, s, kept[pos..pos + n]))
  {
    hide Through, StandsAt, ValidSending, Due;
    if s.item.Split? {
      SplitThrough(codec, s, first, sent, kept, pos);
    } else {
      WholeItemThrough(codec, s, first, sent, kept, pos);
    }
  }

  ghost predicate SplicesFrom(sent: seq<Event>, kept: seq<bool>, pos: nat)
    requires |kept| == |sent|
  {
    exists p :: pos <= p < |kept| && SplicesAt(sent, kept, p)
  }

  /** The rest of a stream through the channel: what is recoverable, and more if and
      only if some packet splices. */
  lemma {:induction false} StreamThrough(
    codec: Codec, stream: seq<Sending>, first: nat, sent: seq<Event>, kept: seq<bool>, pos: nat)
    requires ValidStream(codec, stream) && |sent| == |kept| == pos + PacketTotal(stream)
    requires sent[pos..] == WireEvents(codec, stream, first + pos)
    ensures var before, after := Out(sent, kept, pos), Out(sent, kept, |sent|);
            var due := Recoverable(codec, stream, kept[pos..]);
            if SplicesFrom(sent, kept, pos) then |after| > |before| + |due| else after == before + due
    decreases |stream|
  {
    hide Out, StandsAt, ValidSending, Due, WireEvents, Through, SplicesAt;
    if stream != [] {
      var n := PacketCount(stream[0].item);
      FirstStands(codec, stream, first, sent, pos);
      ItemThrough(codec, stream[0], first, sent, kept, pos);
      StreamThrough(codec, stream[1..], first, sent, kept, pos + n);
      assert kept[pos..][..n] == kept[pos..pos + n] && kept[pos..][n..] == kept[pos + n..];
      var now := Due(codec, stream[0], kept[pos..pos + n]);
      ThroughMore(sent, kept, pos, n, now, Recoverable(codec, stream[1..], kept[pos + n..]));
    } else {
      assert Out(sent, kept, pos) + [] == Out(sent, kept, pos);
    }
  }

  lemma ThroughMore(sent: seq<Event>, kept: seq<bool>, pos: nat, n: nat, now: seq<NalUnit>, later: seq<NalUnit>)
    requires 0 < n && pos + n <= |sent| == |kept| && Through(sent, kept, pos, n, now)
    requires var before, after := Out(sent, kept, pos + n), Out(sent, kept, |sent|);
             if SplicesFrom(sent, kept, pos + n) then |after| > |before| + |later| else after == before + later
    ensures var before, after := Out(sent, kept, pos), Out(sent, kept, |sent|);
            if SplicesFrom(sent, kept, pos) then |after| > |before| + |now + later| else after == before + (now + later)
  {
    hide Out, SplicesAt;
    SplicesFromMore(sent, kept, pos, n);
    hide SplicesFrom;
    ConcatAssoc(Out(sent, kept, pos), now, later, []);
  }

  lemma SplicesFromMore(sent: seq<Event>, kept: seq<bool>, pos: nat, n: nat)
    requires 0 < n && pos + n <= |sent| == |kept| && forall p :: pos <= p < pos + n - 1 ==> !SplicesAt(sent, kept, p)
    ensures SplicesFrom(sent, kept, pos) == (SplicesAt(sent, kept, pos + n - 1) || SplicesFrom(sent, kept, pos + n))
  {
    hide SplicesAt;
  }

  lemma FirstStands(codec: Codec, stream: seq<Sending>, first: nat, sent: seq<Event>, pos: nat)
    requires ValidStream(codec, stream) && stream != [] && |sent| == pos + PacketTotal(stream)
    requires sent[pos..] == WireEvents(codec, stream, first + pos)
    ensures StandsAt(codec, stream[0], first, sent, pos)
    ensures var n := PacketCount(stream[0].item); sent[pos + n..] == WireEvents(codec, stream[1..], first + (pos + n))
  {
    hide SentEvent, ValidSending;
    var n := PacketCount(stream[0].item);
    var events := EventsFrom(codec, stream[0], 0, first + pos);
    assert sent[pos + n..] == sent[pos..][n..];
    forall k | pos <= k < pos + n
      ensures sent[k] == SentEvent(codec, stream[0], k - pos, first + k)
    {
      EventAt(codec, stream[0], 0, first + pos, k - pos);
      assert sent[k] == sent[pos..][k - pos] == events[k - pos];
    }
  }

  lemma {:induction false} EventAt(codec: Codec, sending: Sending, i: nat, pos: nat, k: nat)
    requires codec != Unknown && ValidSending(codec, sending) && i + k < PacketCount(sending.item)
    ensures EventsFrom(codec, sending, i, pos)[k] == SentEvent(codec, sending, i + k, pos + k)
    decreases k
  {
    hide SentEvent, ValidSending;
    if k > 0 {
      EventAt(codec, sending, i + 1, pos + 1, k - 1);
    }
  }

  // From events back to bytes.

  lemma SentMeans(codec: Codec, sending: Sending, i: nat, pos: nat)
    requires codec != Unknown && ValidSending(codec, sending) && i < PacketCount(sending.item)
    ensures var a := Accept(BuildRtp(sending.headers[i], pos % 0x1_0000, Payload(codec, sending.item, i)));
            a.Some? && EventOf(codec, a.value) == SentEvent(codec, sending, i, pos)
  {
    hide Accept, BuildRtp;
    ClassifiesItem(codec, sending.item, i);
    AcceptBuilt(sending.headers[i], pos % 0x1_0000, Payload(codec, sending.item, i));
  }

  /** Every packet sent is accepted, as the event it stands for. */
  lemma {:induction false} ItemHistory(codec: Codec, sending: Sending, i: nat, pos: nat)
    requires codec != Unknown && ValidSending(codec, sending) && i <= PacketCount(sending.item)
    ensures History(codec, PacketsFrom(codec, sending, i, pos)) == EventsFrom(codec, sending, i, pos)
    decreases PacketCount(sending.item) - i
  {
    hide Accept, EventOf, BuildRtp, SentEvent, Payload, UnitOf, Valid;
    if i < PacketCount(sending.item) {
      SentMeans(codec, sending, i, pos);
      ItemHistory(codec, sending, i + 1, pos + 1);
    }
  }

  lemma {:induction false} WireHistory(codec: Codec, stream: seq<Sending>, pos: nat)
    requires ValidStream(codec, stream)
    ensures History(codec, Wire(codec, stream, pos)) == WireEvents(codec, stream, pos)
    decreases |stream|
  {
    hide History, PacketsFrom, EventsFrom, Valid;
    if stream == [] {
      assert History(codec, []) == [] by { NoHistory(codec); }
    } else {
      var n := PacketCount(stream[0].item);
      var first, rest := PacketsFrom(codec, stream[0], 0, pos), Wire(codec, stream[1..], pos + n);
      ItemHistory(codec, stream[0], 0, pos);
      WireHistory(codec, stream[1..], pos + n);
      HistoryConcat(codec, first, rest);
    }
  }

  lemma NoHistory(codec: Codec)
    requires codec != Unknown
    ensures History(codec, []) == []
  {
  }

  lemma {:induction false} HistoryConcat(codec: Codec, a: seq<seq<byte>>, b: seq<seq<byte>>)
    requires codec != Unknown
    ensures History(codec, a + b) == History(codec, a) + History(codec, b)
    decreases |a|
  {
    hide Accept, EventOf;
    if a == [] {
      assert a + b == b;
    } else {
      assert (a + b)[0] == a[0] && (a + b)[1..] == a[1..] + b;
      HistoryConcat(codec, a[1..], b);
    }
  }

  lemma {:induction false} HistoryAt(codec: Codec, packets: seq<seq<byte>>, k: nat)
    requires codec != Unknown && |History(codec, packets)| == |packets| && k < |packets|
    ensures History(codec, [packets[k]]) == [History(codec, packets)[k]]
    decreases k
  {
    hide Accept, EventOf;
    HistoryShorter(codec, packets[1..]);
    if k > 0 {
      HistoryAt(codec, packets[1..], k - 1);
    }
  }

  /** Of packets that are all accepted, the channel loses events as it loses packets. */
  lemma {:induction false} ArrivedHistory(codec: Codec, packets: seq<seq<byte>>, kept: seq<bool>, p: nat)
    requires codec != Unknown && |History(codec, packets)| == |packets| == |kept| && p <= |kept|
    ensures History(codec, Arrived(packets, kept, p)) == Arrived(History(codec, packets), kept, p)
  {
    hide History;
    if p == 0 {
      NoHistory(codec);
    } else {
      ArrivedHistory(codec, packets, kept, p - 1);
      if kept[p - 1] {
        HistoryAt(codec, packets, p - 1);
        HistoryConcat(codec, Arrived(packets, kept, p - 1), [packets[p - 1]]);
      } else {
        assert Arrived(packets, kept, p) == Arrived(packets, kept, p - 1);
      }
    }
  }

  lemma {:induction false} HistoryShorter(codec: Codec, packets: seq<seq<byte>>)
    requires codec != Unknown
    ensures |History(codec, packets)| <= |packets|
    decreases |packets|
  {
    hide Accept, EventOf;
    if packets != [] {
      HistoryShorter(codec, packets[1..]);
    }
  }

  /** What the receiver hands out when the channel is done with a stream. */
  function Received(codec: Codec, arrived: seq<seq<byte>>): seq<NalUnit> {
    Initial(codec).Run(arrived).reassembly.out
  }

  lemma ReceivedIsOut(codec: Codec, stream: seq<Sending>, first: nat, kept: seq<bool>)
    requires ValidStream(codec, stream) && |kept| == PacketTotal(stream)
    ensures Received(codec, Delivered(Wire(codec, stream, first), kept)) ==
            Out(WireEvents(codec, stream, first), kept, |kept|)
  {
    var packets, sent := Wire(codec, stream, first), WireEvents(codec, stream, first);
    hide Wire, WireEvents, Arrived, History;
    WireHistory(codec, stream, first);
    ArrivedHistory(codec, packets, kept, |kept|);
    EmitsExactlyCompleteSpans(codec, Delivered(packets, kept));
  }

  /** The receiver emits exactly the NAL units all of whose packets arrived. */
  ghost predicate Recovers(codec: Codec, stream: seq<Sending>, first: nat, kept: seq<bool>)
    requires ValidStream(codec, stream) && |kept| == PacketTotal(stream)
  {
    Received(codec, Delivered(Wire(codec, stream, first), kept)) == Recoverable(codec, stream, kept)
  }

  /** Exact recovery through a lossy channel: on bytes, for any stream and any loss, the
      depacketiser emits the NAL units all of whose packets arrived, in order and byte
      for byte, and nothing else - if and only if no packet splices. */
  lemma RecoversExactlyUnlessSpliced(codec: Codec, stream: seq<Sending>, first: nat, kept: seq<bool>)
    requires ValidStream(codec, stream) && |kept| == PacketTotal(stream)
    ensures Recovers(codec, stream, first, kept) <==> !SplicesFrom(WireEvents(codec, stream, first), kept, 0)
  {
    hide Received, Wire, Delivered, WireEvents, Recoverable, SplicesFrom;
    var sent := WireEvents(codec, stream, first);
    ReceivedIsOut(codec, stream, first, kept);
    assert sent[0..] == sent && kept[0..] == kept;
    assert Out(sent, kept, 0) == [];
    hide Out;
    StreamThrough(codec, stream, first, sent, kept, 0);
  }
}
