/** Keyframe requests: a code drawn at a loss and repeated over several messages. */
module AlinkIdrs {
  import opened Bytes

  /** One report: whether packets were lost in its interval, and the code that would be drawn. */
  datatype Tick = Tick(lost: bool, drawn: seq<byte>)

  datatype Idr = Idr(code: seq<byte>, remaining: int)
  {
    function Request(allowed: bool, tick: Tick, maxMessages: int): Idr {
      if tick.lost && allowed then Idr(tick.drawn, maxMessages) else this
    }

    /** The next message: the state it leaves and the code it carries. */
    function Send(): (Idr, seq<byte>) {
      if code != [] && remaining > 0 then
        (Idr(if remaining - 1 == 0 then [] else code, remaining - 1), code)
      else (this, [])
    }

    function Step(allowed: bool, tick: Tick, maxMessages: int): (Idr, seq<byte>) {
      Request(allowed, tick, maxMessages).Send()
    }
  }

  const NO_REQUEST := Idr([], 0)

  function After(ticks: seq<Tick>, allowed: bool, maxMessages: int): Idr {
    if ticks == [] then NO_REQUEST
    else After(ticks[..|ticks| - 1], allowed, maxMessages).Step(allowed, ticks[|ticks| - 1], maxMessages).0
  }

  /** The code that the i-th message carries; empty when it carries none. */
  function Sent(ticks: seq<Tick>, i: nat, allowed: bool, maxMessages: int): seq<byte>
    requires i < |ticks|
  {
    After(ticks[..i], allowed, maxMessages).Step(allowed, ticks[i], maxMessages).1
  }

  /** The latest loss among the first n reports, or -1. */
  function LatestLoss(ticks: seq<Tick>, n: nat): (j: int)
    requires n <= |ticks|
    ensures -1 <= j < n
    ensures j >= 0 ==> ticks[j].lost
    ensures forall k :: j < k < n ==> !ticks[k].lost
  {
    if n == 0 then -1 else if ticks[n - 1].lost then n - 1 else LatestLoss(ticks, n - 1)
  }

  /** What n reports leave behind. */
  ghost predicate Leaves(s: Idr, ticks: seq<Tick>, n: nat, maxMessages: int)
    requires n <= |ticks|
  {
    var j := LatestLoss(ticks, n);
    if j < 0 then s == NO_REQUEST
    else if maxMessages <= 0 then s == Idr(ticks[j].drawn, maxMessages)
    else if n - j < maxMessages then s == Idr(ticks[j].drawn, maxMessages - (n - j))
    else s == NO_REQUEST
  }

  lemma {:induction false} StateLaw(ticks: seq<Tick>, n: nat, maxMessages: int)
    requires n <= |ticks| && forall k :: 0 <= k < |ticks| ==> ticks[k].drawn != []
    ensures Leaves(After(ticks[..n], true, maxMessages), ticks, n, maxMessages)
  {
    if n > 0 {
      StateLaw(ticks, n - 1, maxMessages);
      assert ticks[..n][..n - 1] == ticks[..n - 1];
    }
  }

  /** Keyframe-request trace law: a message carries a code exactly when fewer than the
      configured number of messages, itself not counted, were sent since the latest
      loss, and it is the code drawn at that loss. */
  lemma TraceLaw(ticks: seq<Tick>, i: nat, maxMessages: int)
    requires i < |ticks| && forall k :: 0 <= k < |ticks| ==> ticks[k].drawn != []
    ensures var j := LatestLoss(ticks, i + 1);
            Sent(ticks, i, true, maxMessages) == if j >= 0 && i - j < maxMessages then ticks[j].drawn else []
  {
    StateLaw(ticks, i, maxMessages);
  }

  /** In every reachable state the code is empty exactly when no message is left to
      carry it - unless the configured number of messages is zero and a loss was seen. */
  lemma CodeEmptyExactly(ticks: seq<Tick>, maxMessages: int)
    requires forall k :: 0 <= k < |ticks| ==> ticks[k].drawn != []
    ensures var s := After(ticks, true, maxMessages);
            (s.code == [] <==> s.remaining == 0) <==> (maxMessages != 0 || LatestLoss(ticks, |ticks|) < 0)
  {
    StateLaw(ticks, |ticks|, maxMessages);
    assert ticks[..|ticks|] == ticks;
  }

  lemma {:induction false} NothingWhenForbidden(ticks: seq<Tick>, maxMessages: int)
    ensures After(ticks, false, maxMessages) == NO_REQUEST
    ensures forall i :: 0 <= i < |ticks| ==> Sent(ticks, i, false, maxMessages) == []
    decreases |ticks|
  {
    if ticks != [] {
      var before := ticks[..|ticks| - 1];
      NothingWhenForbidden(before, maxMessages);
      forall i | 0 <= i < |ticks|
        ensures Sent(ticks, i, false, maxMessages) == []
      {
        if i < |before| {
          assert ticks[..i] == before[..i];
          assert Sent(before, i, false, maxMessages) == [];
        } else {
          assert ticks[..i] == before;
        }
      }
    }
  }
}
