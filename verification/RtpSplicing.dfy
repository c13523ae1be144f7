/** What the depacketiser emits on arbitrary traces - garbled, reordered,
    duplicated - stated over the history alone, without its state. */
module RtpSplicing {
  import opened Bytes
  import opened RtpPackets
  import opened RtpDepacketizers

  predicate Starts(e: Event) {
    e.unit.Fragment? && e.unit.start
  }

  predicate Ends(e: Event) {
    e.unit.Fragment? && e.unit.end
  }

  /** Every packet after position j follows its predecessor's sequence number. */
  predicate Consecutive(history: seq<Event>, j: nat) {
    forall k :: j < k < |history| ==> history[k].sequence == (history[k - 1].sequence + 1) % 0x1_0000
  }

  /** A fragmented NAL unit starts at j, the latest start, and is still open. */
  predicate OpenSpan(history: seq<Event>, j: nat) {
    && j < |history| && Starts(history[j])
    && (forall k :: j < k < |history| ==> !Starts(history[k]))
    && (forall k :: j <= k < |history| ==> !Ends(history[k]))
    && Consecutive(history, j)
  }

  /** The same, closed by the very last packet. */
  predicate CompleteSpan(history: seq<Event>, j: nat) {
    && j < |history| && Starts(history[j]) && Ends(history[|history| - 1])
    && (forall k :: j < k < |history| ==> !Starts(history[k]))
    && (forall k :: j <= k < |history| - 1 ==> !Ends(history[k]))
    && Consecutive(history, j)
  }

  /** The fragment bodies from position j on; packets in between that are no fragments add nothing. */
  function Bodies(history: seq<Event>, j: nat): seq<byte>
    decreases |history|
  {
    if |history| <= j then [] else
    var last := history[|history| - 1];
    Bodies(history[..|history| - 1], j) + if last.unit.Fragment? then last.unit.body else []
  }

  /** The header rebuilt from the start packet, then every body since. */
  function Assembled(history: seq<Event>, j: nat): seq<byte>
    requires j < |history| && Starts(history[j])
  {
    history[j].unit.header + Bodies(history, j)
  }

  /** The NAL units a packet carries whole, each behind a start code, with the packet's
      timestamp and marker. */
  function UnitsOf(e: Event): seq<NalUnit>
    requires e.unit.Whole?
  {
    var nals := e.unit.nals;
    seq(|nals|, k requires 0 <= k < |nals| => NalUnit([0, 0, 0, 1] + nals[k], e.timestamp, e.marker))
  }

  /** What the last packet of a history ought to make the receiver emit. */
  ghost function Emission(history: seq<Event>): seq<NalUnit>
    requires history != []
  {
    var e := history[|history| - 1];
    if e.unit.Whole? then UnitsOf(e)
    else if j: nat :| CompleteSpan(history, j) then
      [NalUnit([0, 0, 0, 1] + Assembled(history, j), e.timestamp, e.marker)]
    else []
  }

  ghost function Emissions(history: seq<Event>): seq<NalUnit> {
    if history == [] then [] else Emissions(history[..|history| - 1]) + Emission(history)
  }

  const FRESH := Reassembly(None, 0, [])

  lemma TakeAllSnoc(s: Reassembly, history: seq<Event>)
    requires history != []
    ensures s.TakeAll(history) == s.TakeAll(history[..|history| - 1]).Take(history[|history| - 1])
  {
    hide Reassembly.Take;
    var e := history[|history| - 1];
    assert history == history[..|history| - 1] + [e];
    TakeAllConcat(s, history[..|history| - 1], [e]);
    assert [e][1..] == [];
  }

  /** What the state remembers of the history. */
  ghost predicate Remembers(r: Reassembly, history: seq<Event>) {
    && (history != [] ==> r.expectedSeq == (history[|history| - 1].sequence + 1) % 0x1_0000)
    && (r.held.Some? ==> exists j: nat :: OpenSpan(history, j))
    && (forall j: nat :: OpenSpan(history, j) ==> r.held == Some(Assembled(history, j)))
  }

  /** An open span of the longer history is one of the shorter, continued in sequence. */
  lemma SpanGrows(history: seq<Event>, j: nat)
    requires history != []
    ensures var n, e := |history| - 1, history[|history| - 1];
            OpenSpan(history, j) == (!Ends(e) &&
              if j == n then Starts(e)
              else OpenSpan(history[..n], j) && !Starts(e) && e.sequence == (history[n - 1].sequence + 1) % 0x1_0000)
    ensures var n, e := |history| - 1, history[|history| - 1];
            CompleteSpan(history, j) == (Ends(e) &&
              if j == n then Starts(e)
              else OpenSpan(history[..n], j) && !Starts(e) && e.sequence == (history[n - 1].sequence + 1) % 0x1_0000)
  {
    var n, e := |history| - 1, history[|history| - 1];
    var before := history[..n];
    if j < n {
      assert forall k :: 0 <= k < n ==> before[k] == history[k];
      assert Consecutive(history, j) ==
             (Consecutive(before, j) && e.sequence == (history[n - 1].sequence + 1) % 0x1_0000);
    }
  }

  lemma AssembledGrows(history: seq<Event>, j: nat)
    requires j < |history| && Starts(history[j])
    ensures var n, e := |history| - 1, history[|history| - 1];
            Assembled(history, j) ==
              if j == n then e.unit.header + e.unit.body
              else if e.unit.Fragment? then Assembled(history[..n], j) + e.unit.body
              else Assembled(history[..n], j)
  {
    var n := |history| - 1;
    if j < n {
      var e := history[n];
      ConcatAssoc(history[j].unit.header, Bodies(history[..n], j), if e.unit.Fragment? then e.unit.body else [], []);
    } else {
      assert Bodies(history[..n], j) == [];
      assert [] + history[n].unit.body == history[n].unit.body;
    }
  }

  lemma StateRemembers(r: Reassembly, history: seq<Event>)
    requires history != [] && Remembers(r, history[..|history| - 1])
    requires |history| == 1 ==> r.held.None?
    ensures Remembers(r.Take(history[|history| - 1]), history)
  {
    hide AnnexB;
    var n, e := |history| - 1, history[|history| - 1];
    var t := r.Take(e);
    forall j: nat
      ensures OpenSpan(history, j) ==> t.held == Some(Assembled(history, j))
    {
      SpanGrows(history, j);
      if OpenSpan(history, j) {
        AssembledGrows(history, j);
      }
    }
    if t.held.Some? {
      if Starts(e) {
        SpanGrows(history, n);
      } else {
        var j: nat :| OpenSpan(history[..n], j);
        SpanGrows(history, j);
      }
    }
  }

  lemma ClosesSpan(r: Reassembly, history: seq<Event>, j: nat)
    requires history != [] && Remembers(r, history[..|history| - 1]) && CompleteSpan(history, j)
    requires |history| == 1 ==> r.held.None?
    ensures var e := history[|history| - 1];
            r.Take(e).out == r.out + [NalUnit([0, 0, 0, 1] + Assembled(history, j), e.timestamp, e.marker)]
  {
    var e := history[|history| - 1];
    AnnexBOne(Assembled(history, j), e.timestamp, e.marker);
    hide AnnexB;
    SpanGrows(history, j);
    AssembledGrows(history, j);
  }

  lemma ClosesNothing(r: Reassembly, history: seq<Event>)
    requires history != [] && Remembers(r, history[..|history| - 1]) && !history[|history| - 1].unit.Whole?
    requires !exists j: nat :: CompleteSpan(history, j)
    requires |history| == 1 ==> r.held.None?
    ensures r.Take(history[|history| - 1]).out == r.out
  {
    hide AnnexB;
    var n, e := |history| - 1, history[|history| - 1];
    if Ends(e) {
      SpanGrows(history, n);
      if r.held.Some? {
        var j: nat :| OpenSpan(history[..n], j);
        SpanGrows(history, j);
      }
    }
  }

  lemma HandsOutWhole(r: Reassembly, e: Event)
    requires e.unit.Whole?
    ensures r.Take(e).out == r.out + UnitsOf(e)
  {
    assert AnnexB(e.unit.nals, e.timestamp, e.marker) == UnitsOf(e);
  }

  /** One more packet: the state keeps remembering, and emits what the history says. */
  lemma Remember(r: Reassembly, history: seq<Event>)
    requires history != [] && Remembers(r, history[..|history| - 1])
    requires |history| == 1 ==> r.held.None?
    ensures var t := r.Take(history[|history| - 1]);
            Remembers(t, history) && t.out == r.out + Emission(history)
  {
    StateRemembers(r, history);
    hide Reassembly.Take, Remembers, CompleteSpan, Assembled, UnitsOf;
    var e := history[|history| - 1];
    if e.unit.Whole? {
      HandsOutWhole(r, e);
    } else if exists j: nat :: CompleteSpan(history, j) {
      forall j: nat | CompleteSpan(history, j)
        ensures r.Take(e).out == r.out + [NalUnit([0, 0, 0, 1] + Assembled(history, j), e.timestamp, e.marker)]
      {
        ClosesSpan(r, history, j);
      }
    } else {
      ClosesNothing(r, history);
      assert r.out + [] == r.out;
    }
  }

  lemma {:induction false} HistoryRemembered(history: seq<Event>)
    ensures var r := FRESH.TakeAll(history); Remembers(r, history) && r.out == Emissions(history)
    ensures history == [] ==> FRESH.TakeAll(history).held.None?
    decreases |history|
  {
    if history != [] {
      var before := history[..|history| - 1];
      HistoryRemembered(before);
      TakeAllSnoc(FRESH, history);
      Remember(FRESH.TakeAll(before), history);
      ConcatAssoc(FRESH.TakeAll(before).out, Emission(history), [], []);
    }
  }

  /** The accepted packets of a trace. */
  function History(codec: Codec, trace: seq<seq<byte>>): seq<Event>
    requires codec != Unknown
  {
    if trace == [] then [] else
    match Accept(trace[0])
    case None => History(codec, trace[1..])
    case Some(a) => [EventOf(codec, a)] + History(codec, trace[1..])
  }

  lemma {:induction false} RunTakesHistory(s: State, trace: seq<seq<byte>>)
    requires s.codec != Unknown
    ensures s.Run(trace).codec == s.codec && s.Run(trace).reassembly == s.reassembly.TakeAll(History(s.codec, trace))
    decreases |trace|
  {
    hide Accept, Reassembly.Take, EventOf;
    if trace != [] {
      var t := s.Push(trace[0]).0;
      if Accept(trace[0]).Some? {
        PushTakes(s, trace[0]);
      }
      RunTakesHistory(t, trace[1..]);
    }
  }

  /** No splicing, and nothing withheld: on any trace at all the receiver emits
      exactly the whole NAL units its packets carry and, for every packet that
      closes a complete span, the NAL unit assembled from that span. */
  lemma EmitsExactlyCompleteSpans(codec: Codec, trace: seq<seq<byte>>)
    requires codec != Unknown
    ensures Initial(codec).Run(trace).reassembly.out == Emissions(History(codec, trace))
  {
    RunTakesHistory(Initial(codec), trace);
    HistoryRemembered(History(codec, trace));
  }
}
