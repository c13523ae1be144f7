/** Signal accounting: per-path accumulators over one interval, and the snapshot
    that must report exactly the samples of that interval. */
module WfbSignals {
  import opened Bytes
  import opened WfbAddressing

  type int8 = x: int | -128 <= x < 128

  const PATHS := 4

  /** Receive metadata: four slots, of which the first `paths` are populated. */
  datatype RawMeta = RawMeta(
    rssi: seq<int8>, snr: seq<int8>, paths: int, frequency: uint16, mcsIndex: byte, bandwidth: byte, wlanIndex: byte)
  {
    function Populated(): nat {
      if paths < 0 then 0 else if paths < PATHS then paths else PATHS
    }
  }

  type FrameMeta = m: RawMeta | |m.rssi| == PATHS && |m.snr| == PATHS
    witness RawMeta([0, 0, 0, 0], [0, 0, 0, 0], 0, 0, 0, 0, 0)

  datatype Accumulator = Accumulator(
    count: nat, rssiSum: int, snrSum: int, rssiMin: int8, rssiMax: int8, snrMin: int8, snrMax: int8)
  {
    function Absorb(rssi: int8, snr: int8): Accumulator {
      var first := count == 0;
      Accumulator(count + 1, rssiSum + rssi, snrSum + snr,
                  if first || rssi < rssiMin then rssi else rssiMin,
                  if first || rssi > rssiMax then rssi else rssiMax,
                  if first || snr < snrMin then snr else snrMin,
                  if first || snr > snrMax then snr else snrMax)
    }
  }

  const NO_SAMPLES := Accumulator(0, 0, 0, 0, 0, 0, 0)

  // The samples of an interval, path by path.

  function Rssi(interval: seq<FrameMeta>, path: nat): (s: seq<int8>)
    requires path < PATHS
    ensures |s| <= |interval|
  {
    if interval == [] then [] else
    var last := interval[|interval| - 1];
    Rssi(interval[..|interval| - 1], path) + if path < last.Populated() then [last.rssi[path]] else []
  }

  function Snr(interval: seq<FrameMeta>, path: nat): (s: seq<int8>)
    requires path < PATHS
    ensures |s| == |Rssi(interval, path)|
  {
    if interval == [] then [] else
    var last := interval[|interval| - 1];
    Snr(interval[..|interval| - 1], path) + if path < last.Populated() then [last.snr[path]] else []
  }

  function Sum(s: seq<int8>): int {
    if s == [] then 0 else Sum(s[..|s| - 1]) + s[|s| - 1]
  }

  /** lo and hi are the least and greatest element. */
  ghost predicate Extremes(s: seq<int8>, lo: int8, hi: int8) {
    lo in s && hi in s && forall i :: 0 <= i < |s| ==> lo <= s[i] <= hi
  }

  /** What an accumulator says about the samples it has absorbed. */
  ghost predicate Accounts(a: Accumulator, rssi: seq<int8>, snr: seq<int8>) {
    && a.count == |rssi| == |snr|
    && a.rssiSum == Sum(rssi) && a.snrSum == Sum(snr)
    && (a.count == 0 ==> a == NO_SAMPLES)
    && (a.count > 0 ==> Extremes(rssi, a.rssiMin, a.rssiMax) && Extremes(snr, a.snrMin, a.snrMax))
  }

  lemma ExtremesSnoc(s: seq<int8>, lo: int8, hi: int8, x: int8)
    requires s == [] || Extremes(s, lo, hi)
    ensures Extremes(s + [x], if s == [] || x < lo then x else lo, if s == [] || x > hi then x else hi)
  {
    var t := s + [x];
    assert t[|s|] == x;
    assert forall i :: 0 <= i < |s| ==> t[i] == s[i];
  }

  lemma AbsorbAccounts(a: Accumulator, rssi: seq<int8>, snr: seq<int8>, x: int8, y: int8)
    requires Accounts(a, rssi, snr)
    ensures Accounts(a.Absorb(x, y), rssi + [x], snr + [y])
  {
    ExtremesSnoc(rssi, a.rssiMin, a.rssiMax, x);
    ExtremesSnoc(snr, a.snrMin, a.snrMax, y);
    assert (rssi + [x])[..|rssi|] == rssi && (snr + [y])[..|snr|] == snr;
  }

  /** One more frame, for a path that it populates and for one that it does not. */
  lemma FrameAccounts(a: Accumulator, before: seq<FrameMeta>, meta: FrameMeta, path: nat)
    requires path < PATHS && Accounts(a, Rssi(before, path), Snr(before, path))
    ensures Accounts(if path < meta.Populated() then a.Absorb(meta.rssi[path], meta.snr[path]) else a,
                     Rssi(before + [meta], path), Snr(before + [meta], path))
  {
    var after := before + [meta];
    assert after[..|after| - 1] == before;
    if path < meta.Populated() {
      AbsorbAccounts(a, Rssi(before, path), Snr(before, path), meta.rssi[path], meta.snr[path]);
    } else {
      assert Rssi(before, path) + [] == Rssi(before, path) && Snr(before, path) + [] == Snr(before, path);
    }
  }

  // The snapshot.

  /** C++ integer division: toward zero. */
  function DivTrunc(a: int, b: int): int
    requires b > 0
  {
    if a >= 0 then a / b else -(-a / b)
  }

  lemma {:induction false} SumBounds(s: seq<int8>, lo: int8, hi: int8)
    requires forall i :: 0 <= i < |s| ==> lo <= s[i] <= hi
    ensures |s| * lo <= Sum(s) <= |s| * hi
    ensures -128 * |s| <= Sum(s) <= 127 * |s|
  {
    if s != [] {
      SumBounds(s[..|s| - 1], lo, hi);
      assert |s| * lo == (|s| - 1) * lo + lo && |s| * hi == (|s| - 1) * hi + hi;
    }
  }

  lemma ScalesUp(n: int, x: int, y: int)
    requires n > 0 && x <= y
    ensures n * x <= n * y
  {
  }

  lemma FloorBetween(a: int, n: int, lo: int, hi: int)
    requires n > 0 && a >= 0 && n * lo <= a <= n * hi
    ensures lo <= a / n <= hi
  {
    var q := a / n;
    assert n * q <= a < n * (q + 1);
    if q > hi { ScalesUp(n, hi + 1, q); }
    if q < lo { ScalesUp(n, q + 1, lo); }
  }

  lemma QuotientBetween(a: int, n: int, lo: int, hi: int)
    requires n > 0 && n * lo <= a <= n * hi
    ensures lo <= DivTrunc(a, n) <= hi
  {
    if a >= 0 {
      FloorBetween(a, n, lo, hi);
    } else {
      assert n * -hi == -(n * hi) && n * -lo == -(n * lo);
      FloorBetween(-a, n, -hi, -lo);
    }
  }

  /** q is the sum's share of n, rounded toward zero. */
  ghost predicate TruncatedMean(q: int, sum: int, n: int) {
    && (sum >= 0 ==> 0 <= q && q * n <= sum < (q + 1) * n)
    && (sum <= 0 ==> q <= 0 && -q * n <= -sum < (-q + 1) * n)
  }

  lemma DividesTowardZero(sum: int, n: int)
    requires n > 0
    ensures TruncatedMean(DivTrunc(sum, n), sum, n)
  {
    if sum >= 0 {
      FloorQuotient(sum, n);
    } else {
      FloorQuotient(-sum, n);
    }
  }

  lemma FloorQuotient(a: int, n: int)
    requires a >= 0 && n > 0
    ensures 0 <= a / n && a / n * n <= a < (a / n + 1) * n
  {
    assert a == n * (a / n) + a % n;
  }

  /** There is only one such number. */
  lemma OneTruncatedMean(p: int, q: int, sum: int, n: int)
    requires n > 0 && TruncatedMean(p, sum, n) && TruncatedMean(q, sum, n)
    ensures p == q
  {
    if sum >= 0 {
      if p < q { ScalesUp(n, p + 1, q); }
      if q < p { ScalesUp(n, q + 1, p); }
    } else {
      if -p < -q { ScalesUp(n, -p + 1, -q); }
      if -q < -p { ScalesUp(n, -q + 1, -p); }
    }
  }

  /** The mean of samples, rounded toward zero, lies between their extremes, so it fits the
      byte it is stored in. */
  lemma MeanBetween(s: seq<int8>, lo: int8, hi: int8)
    requires s != [] && Extremes(s, lo, hi)
    ensures lo <= DivTrunc(Sum(s), |s|) <= hi
    ensures TruncatedMean(DivTrunc(Sum(s), |s|), Sum(s), |s|)
  {
    DividesTowardZero(Sum(s), |s|);
    SumBounds(s, lo, hi);
    QuotientBetween(Sum(s), |s|, lo, hi);
  }

  datatype AntennaStat = AntennaStat(
    antennaId: nat, count: nat, rssiMin: int8, rssiAvg: int8, rssiMax: int8, snrMin: int8, snrAvg: int8, snrMax: int8)

  /** A conversion to a signed byte, wrapping as C++ does. */
  function ToInt8(x: int): int8 {
    (x + 128) % 256 - 128
  }

  function Stat(id: nat, a: Accumulator): AntennaStat
    requires a.count > 0
  {
    AntennaStat(id, a.count, a.rssiMin, ToInt8(DivTrunc(a.rssiSum, a.count)), a.rssiMax,
                a.snrMin, ToInt8(DivTrunc(a.snrSum, a.count)), a.snrMax)
  }

  /** A statistic reports exactly these samples. */
  ghost predicate Reports(st: AntennaStat, rssi: seq<int8>, snr: seq<int8>) {
    && st.count == |rssi| == |snr| > 0
    && Extremes(rssi, st.rssiMin, st.rssiMax) && Extremes(snr, st.snrMin, st.snrMax)
    && TruncatedMean(st.rssiAvg, Sum(rssi), |rssi|) && TruncatedMean(st.snrAvg, Sum(snr), |snr|)
    && st.rssiMin <= st.rssiAvg <= st.rssiMax && st.snrMin <= st.snrAvg <= st.snrMax
  }

  lemma StatReports(id: nat, a: Accumulator, rssi: seq<int8>, snr: seq<int8>)
    requires Accounts(a, rssi, snr) && a.count > 0
    ensures Reports(Stat(id, a), rssi, snr) && Stat(id, a).antennaId == id
  {
    MeanBetween(rssi, a.rssiMin, a.rssiMax);
    MeanBetween(snr, a.snrMin, a.snrMax);
    hide TruncatedMean, DivTrunc, Sum, Extremes;
  }

  /** A sum is what its parts add up to. */
  lemma {:induction false} SumConcat(a: seq<int8>, b: seq<int8>)
    ensures Sum(a + b) == Sum(a) + Sum(b)
    ensures forall x: int8 :: Sum([x]) == x
    decreases |b|
  {
    forall x: int8
      ensures Sum([x]) == x
    {
      assert [x][..0] == [];
    }
    if b == [] {
      assert a + b == a;
    } else {
      var n := |b| - 1;
      assert (a + b)[..|a + b| - 1] == a + b[..n];
      SumConcat(a, b[..n]);
    }
  }

  /** What one more frame adds to a path: its sample, if the frame has that path. */
  lemma SamplesMore(interval: seq<FrameMeta>, meta: FrameMeta, path: nat)
    requires path < 4
    ensures Rssi([], path) == Snr([], path) == []
    ensures Rssi(interval + [meta], path) == Rssi(interval, path) + if path < meta.paths then [meta.rssi[path]] else []
    ensures Snr(interval + [meta], path) == Snr(interval, path) + if path < meta.paths then [meta.snr[path]] else []
  {
    assert (interval + [meta])[..|interval|] == interval;
  }

  /** The populated slots are always the first ones, so a path never has more samples
      than the path before it. */
  lemma {:induction false} CountsFall(interval: seq<FrameMeta>, path: nat)
    requires path + 1 < PATHS
    ensures |Rssi(interval, path + 1)| <= |Rssi(interval, path)|
    decreases |interval|
  {
    if interval != [] {
      CountsFall(interval[..|interval| - 1], path);
    }
  }

  /** How many paths saw a sample: they are the first ones. */
  function Active(interval: seq<FrameMeta>, path: nat): nat
    requires path <= PATHS
    decreases PATHS - path
  {
    if path == PATHS || Rssi(interval, path) == [] then path else Active(interval, path + 1)
  }

  lemma {:induction false} ActivePrefix(interval: seq<FrameMeta>, path: nat, i: nat)
    requires path <= i < PATHS
    ensures Rssi(interval, i) != [] <==> i < Active(interval, path)
    ensures path <= Active(interval, path) <= PATHS
    decreases PATHS - path
  {
    if Rssi(interval, path) != [] && path < i {
      ActivePrefix(interval, path + 1, i);
    } else if Rssi(interval, path) == [] {
      EmptyFrom(interval, path, i);
    } else if path + 1 < PATHS {
      ActivePrefix(interval, path + 1, path + 1);
    }
  }

  lemma {:induction false} EmptyFrom(interval: seq<FrameMeta>, path: nat, i: nat)
    requires path <= i < PATHS && Rssi(interval, path) == []
    ensures Rssi(interval, i) == []
    decreases i - path
  {
    if path < i {
      CountsFall(interval, path);
      EmptyFrom(interval, path + 1, i);
    }
  }

  /** With at most 2^24 frames in an interval no 32-bit counter or sum overflows. */
  lemma NoOverflow(interval: seq<FrameMeta>, path: nat, a: Accumulator)
    requires path < PATHS && |interval| <= 0x100_0000 && Accounts(a, Rssi(interval, path), Snr(interval, path))
    ensures a.count < 0x8000_0000
    ensures -0x8000_0000 <= a.rssiSum < 0x8000_0000 && -0x8000_0000 <= a.snrSum < 0x8000_0000
  {
    SumBounds(Rssi(interval, path), -128, 127);
    SumBounds(Snr(interval, path), -128, 127);
  }

  function Max(a: int, b: int): int {
    if a < b then b else a
  }

  datatype Snapshot = Snapshot(antennas: seq<AntennaStat>, bestRssi: int, bestSnr: int)

  /** The least value at least `floor` and every value of s. */
  ghost predicate IsBest(best: int, floor: int, s: seq<int>) {
    && best >= floor && (best == floor || best in s)
    && forall i :: 0 <= i < |s| ==> s[i] <= best
  }

  function RssiAvgs(antennas: seq<AntennaStat>): seq<int> {
    seq(|antennas|, i requires 0 <= i < |antennas| => antennas[i].rssiAvg)
  }

  function SnrAvgs(antennas: seq<AntennaStat>): seq<int> {
    seq(|antennas|, i requires 0 <= i < |antennas| => antennas[i].snrAvg)
  }

  lemma BestSnoc(best: int, floor: int, s: seq<int>, x: int)
    requires IsBest(best, floor, s)
    ensures IsBest(Max(best, x), floor, s + [x])
  {
    assert (s + [x])[|s|] == x;
    assert forall i :: 0 <= i < |s| ==> (s + [x])[i] == s[i];
  }

  /** A snapshot reports an interval: its antennas are exactly the paths with samples,
      numbered by path, each with exactly that path's samples. */
  ghost predicate Covers(s: Snapshot, interval: seq<FrameMeta>) {
    && |s.antennas| == Active(interval, 0) <= PATHS
    && (forall i :: 0 <= i < |s.antennas| ==>
         s.antennas[i].antennaId == i && Reports(s.antennas[i], Rssi(interval, i), Snr(interval, i)))
    && (forall i :: |s.antennas| <= i < PATHS ==> Rssi(interval, i) == [])
    && IsBest(s.bestRssi, -105, RssiAvgs(s.antennas)) && IsBest(s.bestSnr, 0, SnrAvgs(s.antennas))
  }

  /** What a snapshot says of the best: no less than -105 and zero, and no less than any
      path's mean; and one of those. */
  lemma BestExactly(s: Snapshot, interval: seq<FrameMeta>)
    requires Covers(s, interval)
    ensures s.bestRssi >= -105 && forall i :: 0 <= i < |s.antennas| ==> s.antennas[i].rssiAvg <= s.bestRssi
    ensures s.bestRssi == -105 || exists i :: 0 <= i < |s.antennas| && s.antennas[i].rssiAvg == s.bestRssi
    ensures s.bestSnr >= 0 && forall i :: 0 <= i < |s.antennas| ==> s.antennas[i].snrAvg <= s.bestSnr
    ensures s.bestSnr == 0 || exists i :: 0 <= i < |s.antennas| && s.antennas[i].snrAvg == s.bestSnr
    ensures |s.antennas| <= 4
  {
    var rssi, snr := RssiAvgs(s.antennas), SnrAvgs(s.antennas);
    assert forall i :: 0 <= i < |s.antennas| ==> rssi[i] == s.antennas[i].rssiAvg && snr[i] == s.antennas[i].snrAvg;
    if s.bestRssi != -105 {
      var i :| 0 <= i < |rssi| && rssi[i] == s.bestRssi;
    }
    if s.bestSnr != 0 {
      var i :| 0 <= i < |snr| && snr[i] == s.bestSnr;
    }
  }

  /** The snapshot loop after the first i paths. */
  ghost predicate CoversUpTo(s: Snapshot, interval: seq<FrameMeta>, i: nat) {
    && i <= PATHS
    && |s.antennas| == (if Active(interval, 0) < i then Active(interval, 0) else i)
    && (forall k :: 0 <= k < |s.antennas| ==>
         s.antennas[k].antennaId == k && Reports(s.antennas[k], Rssi(interval, k), Snr(interval, k)))
    && IsBest(s.bestRssi, -105, RssiAvgs(s.antennas)) && IsBest(s.bestSnr, 0, SnrAvgs(s.antennas))
  }

  function Extend(s: Snapshot, st: AntennaStat): Snapshot {
    Snapshot(s.antennas + [st], Max(s.bestRssi, st.rssiAvg), Max(s.bestSnr, st.snrAvg))
  }

  lemma ExtendsBest(s: Snapshot, st: AntennaStat)
    requires IsBest(s.bestRssi, -105, RssiAvgs(s.antennas)) && IsBest(s.bestSnr, 0, SnrAvgs(s.antennas))
    ensures var t := Extend(s, st);
            IsBest(t.bestRssi, -105, RssiAvgs(t.antennas)) && IsBest(t.bestSnr, 0, SnrAvgs(t.antennas))
  {
    hide IsBest;
    BestSnoc(s.bestRssi, -105, RssiAvgs(s.antennas), st.rssiAvg);
    BestSnoc(s.bestSnr, 0, SnrAvgs(s.antennas), st.snrAvg);
    assert RssiAvgs(s.antennas + [st]) == RssiAvgs(s.antennas) + [st.rssiAvg as int];
    assert SnrAvgs(s.antennas + [st]) == SnrAvgs(s.antennas) + [st.snrAvg as int];
  }

  lemma CoversOneMore(s: Snapshot, interval: seq<FrameMeta>, i: nat, a: Accumulator)
    requires CoversUpTo(s, interval, i) && i < PATHS && Accounts(a, Rssi(interval, i), Snr(interval, i))
    ensures CoversUpTo(if a.count == 0 then s else Extend(s, Stat(|s.antennas|, a)), interval, i + 1)
  {
    ActivePrefix(interval, 0, i);
    assert a.count == |Rssi(interval, i)|;
    if a.count != 0 {
      assert |s.antennas| == i;
      StatReports(i, a, Rssi(interval, i), Snr(interval, i));
      AddsAntenna(s, interval, i, Stat(i, a));
    }
  }

  lemma AddsAntenna(s: Snapshot, interval: seq<FrameMeta>, i: nat, st: AntennaStat)
    requires CoversUpTo(s, interval, i) && |s.antennas| == i < Active(interval, 0) && i < PATHS
    requires st.antennaId == i && Reports(st, Rssi(interval, i), Snr(interval, i))
    ensures CoversUpTo(Extend(s, st), interval, i + 1)
  {
    hide Rssi, Snr, Reports, IsBest, Active, RssiAvgs, SnrAvgs;
    ExtendsBest(s, st);
    var t := Extend(s, st);
    assert t.antennas == s.antennas + [st];
    forall k | 0 <= k < i + 1
      ensures t.antennas[k].antennaId == k && Reports(t.antennas[k], Rssi(interval, k), Snr(interval, k))
    {
      if k < i {
        assert t.antennas[k] == s.antennas[k];
      } else {
        assert t.antennas[k] == st;
      }
    }
  }

  lemma CoversNone(interval: seq<FrameMeta>)
    ensures CoversUpTo(Snapshot([], -105, 0), interval, 0)
  {
  }

  lemma CoversAll(s: Snapshot, interval: seq<FrameMeta>)
    requires CoversUpTo(s, interval, PATHS)
    ensures Covers(s, interval)
  {
    hide Reports, IsBest;
    ActivePrefix(interval, 0, 0);
    forall k | |s.antennas| <= k < PATHS
      ensures Rssi(interval, k) == []
    {
      ActivePrefix(interval, 0, k);
    }
  }

  // What an aggregator is handed.

  const RX_ANT_MAX := 4  // wfb-ng's, the slots of a frame's metadata

  /** The synthetic noise floor, as the conversion to a signed byte leaves it. */
  function NoiseFloor(rssi: int, snr: int): int8 {
    ToInt8(rssi - snr)
  }

  datatype Forwarded = Forwarded(
    port: byte, payload: seq<byte>, wlanIndex: byte, antenna: seq<byte>, rssi: seq<int8>, noise: seq<int8>,
    frequency: uint16, mcsIndex: byte, bandwidth: byte)

  /** At least one slot is filled, however many paths the driver reports. */
  function Slots(meta: FrameMeta): (n: nat)
    ensures 1 <= n <= RX_ANT_MAX
  {
    if meta.paths < 1 then 1 else if meta.paths < RX_ANT_MAX then meta.paths else RX_ANT_MAX
  }

  function Forward(port: byte, payload: seq<byte>, meta: FrameMeta): Forwarded {
    Forwarded(
      port, payload, meta.wlanIndex,
      seq(RX_ANT_MAX, i requires 0 <= i < RX_ANT_MAX => if i < Slots(meta) then i else 0xff),
      seq(RX_ANT_MAX, i requires 0 <= i < RX_ANT_MAX => if i < Slots(meta) then meta.rssi[i] else 0),
      seq(RX_ANT_MAX, i requires 0 <= i < RX_ANT_MAX =>
            if i < Slots(meta) then NoiseFloor(meta.rssi[i], meta.snr[i]) else 127),
      meta.frequency, meta.mcsIndex, meta.bandwidth)
  }

  /** The four slots: those of the reported paths, at least one and at most four, carry
      number, signal and noise floor modulo 256; the others are marked unused. */
  lemma ForwardsSlots(port: byte, payload: seq<byte>, meta: FrameMeta, i: nat)
    requires i < 4
    ensures var f := Forward(port, payload, meta);
            && |f.antenna| == |f.rssi| == |f.noise| == 4
            && (if i == 0 || i < meta.paths
                then f.antenna[i] == i && f.rssi[i] == meta.rssi[i] &&
                     (f.noise[i] as int - (meta.rssi[i] as int - meta.snr[i] as int)) % 256 == 0
                else f.antenna[i] == 0xff && f.rssi[i] == 0 && f.noise[i] == 127)
            && f.port == port && f.payload == payload && f.wlanIndex == meta.wlanIndex
            && f.frequency == meta.frequency && f.mcsIndex == meta.mcsIndex && f.bandwidth == meta.bandwidth
  {
    WrapsToInt8(meta.rssi[i] as int - meta.snr[i] as int);
    hide ToInt8;
  }

  lemma WrapsToInt8(x: int)
    ensures (ToInt8(x) as int - x) % 256 == 0
  {
    assert x + 128 == 256 * ((x + 128) / 256) + (x + 128) % 256;
  }

  /** The difference between signal and noise as they are handed on is the driver's SNR
      exactly when the synthetic noise floor fits in a signed byte. */
  lemma NoiseFloorExactly(port: byte, payload: seq<byte>, meta: FrameMeta, i: nat)
    requires i < Slots(meta)
    ensures var f, rssi: int, snr: int := Forward(port, payload, meta), meta.rssi[i], meta.snr[i];
            && f.antenna[i] == i && f.rssi[i] == rssi
            && (rssi - (f.noise[i] as int) == snr <==> -128 <= rssi - snr < 128)
  {
  }

  /** The receiver, with wfb-ng's aggregators reduced to what they are handed. */
  class WfbReceiver {
    const linkId: uint32
    const primaryPort: byte := 0
    var subscribed: set<byte>
    const paths: array<Accumulator>
    var handedOn: seq<Forwarded>
    ghost var interval: seq<FrameMeta>  // the primary port's frames since the last snapshot

    ghost predicate Valid()
      reads this, paths
    {
      paths.Length == PATHS &&
      forall i :: 0 <= i < PATHS ==> Accounts(paths[i], Rssi(interval, i), Snr(interval, i))
    }

    constructor (linkId: uint32)
      ensures Valid() && this.linkId == linkId && subscribed == {} && handedOn == [] && interval == []
      ensures fresh(paths)
    {
      this.linkId, subscribed, handedOn, interval := linkId, {}, [], [];
      paths := new Accumulator[PATHS](_ => NO_SAMPLES);
    }

    method AddStream(port: byte)
      requires Valid()
      modifies this`subscribed
      ensures Valid() && subscribed == old(subscribed) + {port}
    {
      subscribed := subscribed + {port};
    }

    method AccumulateSignal(meta: FrameMeta)
      requires Valid()
      modifies this`interval, paths
      ensures Valid() && interval == old(interval) + [meta]
    {
      hide Accounts, Rssi, Snr;
      var n := if meta.paths < PATHS then meta.paths else PATHS;
      ghost var before := interval;
      var i := 0;
      while i < n
        invariant 0 <= i <= meta.Populated() && interval == before
        invariant forall k :: 0 <= k < i ==> Accounts(paths[k], Rssi(before + [meta], k), Snr(before + [meta], k))
        invariant forall k :: i <= k < PATHS ==> Accounts(paths[k], Rssi(before, k), Snr(before, k))
      {
        FrameAccounts(paths[i], before, meta, i);
        paths[i] := paths[i].Absorb(meta.rssi[i], meta.snr[i]);
        i := i + 1;
      }
      forall k | i <= k < PATHS
        ensures Accounts(paths[k], Rssi(before + [meta], k), Snr(before + [meta], k))
      {
        FrameAccounts(paths[k], before, meta, k);
      }
      interval := interval + [meta];
    }

    method ResetSignal()
      requires paths.Length == PATHS
      modifies this`interval, paths
      ensures Valid() && interval == []
    {
      for i := 0 to PATHS
        invariant forall k :: 0 <= k < i ==> paths[k] == NO_SAMPLES
      {
        paths[i] := NO_SAMPLES;
      }
      interval := [];
    }

    method ProcessFrame(frame: seq<byte>, meta: FrameMeta)
      requires Valid()
      modifies this`interval, this`handedOn, paths
      ensures Valid()
      ensures var port := ClassifyFrame(frame, linkId);
              && interval == old(interval) + (if port in subscribed && port == 0 then [meta] else [])
              && handedOn == old(handedOn) +
                   (if port in subscribed then [Forward(port, frame[24..|frame| - 4], meta)] else [])
    {
      RefusesOthers(frame, linkId);
      hide ClassifyFrame, Forward;
      var port := ClassifyFrame(frame, linkId);
      if port < 0 { return; }
      if port !in subscribed { return; }
      if port == primaryPort {
        AccumulateSignal(meta);
      }
      var forwarded := FillSlots(port, PayloadSlice(frame), meta);
      handedOn := handedOn + [forwarded];
    }

    /** The per-antenna arrays, slot by slot. */
    method FillSlots(port: byte, payload: seq<byte>, meta: FrameMeta) returns (f: Forwarded)
      ensures f == Forward(port, payload, meta)
    {
      hide NoiseFloor;
      ghost var due := Forward(port, payload, meta);
      assert |due.antenna| == |due.rssi| == |due.noise| == RX_ANT_MAX;
      var antenna: seq<byte>, rssi: seq<int8>, noise: seq<int8> := [], [], [];
      var paths := if meta.paths < RX_ANT_MAX then meta.paths else RX_ANT_MAX;
      if paths < 1 { paths := 1; }
      for i := 0 to RX_ANT_MAX
        invariant |antenna| == |rssi| == |noise| == i
        invariant forall k :: 0 <= k < i ==>
          antenna[k] == due.antenna[k] && rssi[k] == due.rssi[k] && noise[k] == due.noise[k]
      {
        if i < paths {
          antenna, rssi := antenna + [i], rssi + [meta.rssi[i]];
          noise := noise + [NoiseFloor(meta.rssi[i], meta.snr[i])];
        } else {
          antenna, rssi, noise := antenna + [0xff], rssi + [0], noise + [127];
        }
      }
      assert antenna == due.antenna && rssi == due.rssi && noise == due.noise;
      f := Forwarded(port, payload, meta.wlanIndex, antenna, rssi, noise,
                     meta.frequency, meta.mcsIndex, meta.bandwidth);
    }

    method TakeSnapshot() returns (s: Snapshot)
      requires Valid()
      modifies this`interval, paths
      ensures Covers(s, old(interval))
      ensures Valid() && interval == []
    {
      hide CoversUpTo, Covers, Accounts;
      s := Snapshot([], -105, 0);
      assert CoversUpTo(s, interval, 0) by { CoversNone(interval); }
      var i := 0;
      while i < PATHS
        invariant 0 <= i <= PATHS && CoversUpTo(s, interval, i)
        invariant Valid() && interval == old(interval)
      {
        CoversOneMore(s, interval, i, paths[i]);
        if paths[i].count != 0 {
          s := Extend(s, Stat(|s.antennas|, paths[i]));
        }
        i := i + 1;
      }
      CoversAll(s, interval);
      ResetSignal();
    }
  }
}
