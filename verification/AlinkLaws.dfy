/** The adaptive link by its values: the exact score, the exact escalation, the exact
    error ratio, and what stands in a message. */
module AlinkLaws {
  import opened Bytes
  import opened AlinkFilters
  import opened AlinkScores
  import opened AlinkIdrs
  import opened AlinkWires
  import opened AlinkControllers

  function Within(x: real, lo: real, hi: real): real {
    if x < lo then lo else if x > hi then hi else x
  }

  /** A value within its span, as a share of that span. */
  lemma ShareOfSpan(x: real, lo: real, hi: real)
    requires lo < hi
    ensures Normalized(x, lo, hi) * (hi - lo) == Within(x, lo, hi) - lo
  {
    var q := (x - lo) / (hi - lo);
    QuotientTimes(x - lo, hi - lo);
    if x < lo {
      NegativeShare(q, hi - lo, x - lo);
      assert Normalized(x, lo, hi) == 0.0;
    } else if x > hi {
      ShareAboveOne(q, hi - lo, x - lo);
      assert Normalized(x, lo, hi) == 1.0;
    } else {
      ProperShare(q, hi - lo, x - lo);
      assert Normalized(x, lo, hi) == q;
    }
  }

  lemma QuotientTimes(x: real, span: real)
    requires span > 0.0
    ensures x / span * span == x
  {
  }

  lemma NegativeShare(q: real, span: real, part: real)
    requires span > 0.0 && part == q * span && part < 0.0
    ensures q < 0.0
  {
    if q >= 0.0 { ProductNonNegative(q, span); }
  }

  lemma ShareAboveOne(q: real, span: real, part: real)
    requires span > 0.0 && part == q * span && part > span
    ensures q > 1.0
  {
    if q <= 1.0 { ProductMonotone(q, 1.0, span); }
  }

  lemma ProperShare(q: real, span: real, part: real)
    requires span > 0.0 && part == q * span && 0.0 <= part <= span
    ensures 0.0 <= q <= 1.0
  {
    if q < 0.0 { ProductStrict(q, 0.0, span); }
    if q > 1.0 { ProductStrict(1.0, q, span); }
  }

  lemma Combines(w: real, v: real, a: real, b: real, s: real, r: real, p: real, q: real, total: real)
    requires a * s == p && b * r == q && total == (w * a + v * b) * 1000.0
    ensures total * s * r == 1000.0 * (w * p * r + v * q * s)
  {
    assert w * a * s * r == w * p * r by { assert w * (a * s) == w * p; }
    assert v * b * s * r == v * q * s by { assert v * (b * r) == v * q; }
    Spreads(w * a, v * b, s, r);
  }

  lemma RawScoreAbove(c: Config, rssi: int, snr: int)
    ensures var a, b := Normalized(snr as real, c.snrMin, c.snrMax), Normalized(rssi as real, c.rssiMin, c.rssiMax);
            RawScore(c, rssi, snr) - 1000.0 == (c.snrWeight * a + c.rssiWeight * b) * 1000.0
  {
    hide Normalized;
  }

  lemma Spreads(x: real, y: real, s: real, r: real)
    ensures (x + y) * 1000.0 * s * r == 1000.0 * (x * s * r + y * s * r)
  {
  }

  /** The exact raw score: 1000 and the weighted shares of a thousand, each of SNR and RSSI
      as far as it lies within its span. */
  lemma RawScoreExactly(c: Config, rssi: int, snr: int)
    requires c.snrMin < c.snrMax && c.rssiMin < c.rssiMax
    ensures var s, r := c.snrMax - c.snrMin, c.rssiMax - c.rssiMin;
            var x := Within(snr as real, c.snrMin, c.snrMax) - c.snrMin;
            var y := Within(rssi as real, c.rssiMin, c.rssiMax) - c.rssiMin;
            (RawScore(c, rssi, snr) - 1000.0) * s * r == 1000.0 * (c.snrWeight * x * r + c.rssiWeight * y * s)
  {
    hide Normalized, Within, RawScore;
    ShareOfSpan(snr as real, c.snrMin, c.snrMax);
    ShareOfSpan(rssi as real, c.rssiMin, c.rssiMax);
    RawScoreAbove(c, rssi, snr);
    Combines(c.snrWeight, c.rssiWeight,
             Normalized(snr as real, c.snrMin, c.snrMax), Normalized(rssi as real, c.rssiMin, c.rssiMax),
             c.snrMax - c.snrMin, c.rssiMax - c.rssiMin,
             Within(snr as real, c.snrMin, c.snrMax) - c.snrMin, Within(rssi as real, c.rssiMin, c.rssiMax) - c.rssiMin,
             RawScore(c, rssi, snr) - 1000.0);
  }

  /** At or above both maxima the raw score is 2000, at or below both minima 1000. */
  lemma RawScoreSaturates(c: Config, rssi: int, snr: int)
    requires c.Sane()
    ensures snr as real >= c.snrMax && rssi as real >= c.rssiMax ==> RawScore(c, rssi, snr) == 2000.0
    ensures snr as real <= c.snrMin && rssi as real <= c.rssiMin ==> RawScore(c, rssi, snr) == 1000.0
  {
    if snr as real >= c.snrMax && rssi as real >= c.rssiMax {
      Saturates(snr as real, c.snrMin, c.snrMax);
      Saturates(rssi as real, c.rssiMin, c.rssiMax);
    }
    if snr as real <= c.snrMin && rssi as real <= c.rssiMin {
      Saturates(snr as real, c.snrMin, c.snrMax);
      Saturates(rssi as real, c.rssiMin, c.rssiMax);
    }
  }

  lemma Saturates(x: real, lo: real, hi: real)
    requires lo < hi
    ensures x >= hi ==> Normalized(x, lo, hi) == 1.0
    ensures x <= lo ==> Normalized(x, lo, hi) == 0.0
  {
    ShareOfSpan(x, lo, hi);
    var within := Within(x, lo, hi) - lo;
    assert (x >= hi ==> within == hi - lo) && (x <= lo ==> within == 0.0);
    hide Normalized, Within;
    if x >= hi { OnlyOne(Normalized(x, lo, hi), hi - lo, within); }
    if x <= lo { OnlyZero(Normalized(x, lo, hi), hi - lo, within); }
  }

  lemma OnlyOne(t: real, span: real, part: real)
    requires span > 0.0 && part == t * span && part == span
    ensures t == 1.0
  {
    if t > 1.0 { ProductStrict(1.0, t, span); }
    if t < 1.0 { ProductStrict(t, 1.0, span); }
  }

  /** A span of nothing counts for nothing. */
  lemma FlatSpans(c: Config, rssi: int, snr: int)
    ensures c.snrMin == c.snrMax && c.rssiMin == c.rssiMax ==> RawScore(c, rssi, snr) == 1000.0
    ensures c.snrMin == c.snrMax && c.rssiMin < c.rssiMax && rssi as real >= c.rssiMax ==>
              RawScore(c, rssi, snr) == 1000.0 + c.rssiWeight * 1000.0
    ensures c.rssiMin == c.rssiMax && c.snrMin < c.snrMax && snr as real >= c.snrMax ==>
              RawScore(c, rssi, snr) == 1000.0 + c.snrWeight * 1000.0
  {
    if c.rssiMin < c.rssiMax { Saturates(rssi as real, c.rssiMin, c.rssiMax); }
    if c.snrMin < c.snrMax { Saturates(snr as real, c.snrMin, c.snrMax); }
  }

  /** The number sent for a score: its whole part. */
  lemma ScoreIsWholePart(c: Config, rssi: int, snr: int, noise: real)
    requires c.Sane()
    ensures var final := RawScore(c, rssi, snr) + Penalty(c, rssi, snr, noise);
            Score(c, rssi, snr, noise) as real <= final < Score(c, rssi, snr, noise) as real + 1.0
  {
    RawScoreMonotone(c, rssi, snr, rssi, snr);
    DeductionMonotone(c, noise, noise);
    hide RawScore, Deduction, Config.Sane, Penalised;
    PenalisedMonotone(RawScore(c, rssi, snr), RawScore(c, rssi, snr), Deduction(c, noise), Deduction(c, noise));
  }

  /** Without penalties nothing is taken off. */
  lemma NoPenalty(c: Config, rssi: int, snr: int, noise: real)
    requires !c.allowPenalty
    ensures Penalty(c, rssi, snr, noise) == 0.0
  {
  }

  /** With them, up to the whole thousand of what the score has above 1000: nothing below
      the minimum noise, and from there on the power of the noise's share of its span, but
      not more than all. */
  lemma PenaltyExactly(c: Config, rssi: int, snr: int, noise: real) returns (t: real, taken: real)
    requires c.Sane() && c.allowPenalty
    ensures Penalty(c, rssi, snr, noise) == -(RawScore(c, rssi, snr) - 1000.0) * taken
    ensures noise < c.minNoise ==> taken == 0.0
    ensures noise >= c.minNoise ==> t * (c.maxNoise - c.minNoise) == noise - c.minNoise
                                    && taken == if c.power(t) > 1.0 then 1.0 else c.power(t)
  {
    t, taken := (noise - c.minNoise) / (c.maxNoise - c.minNoise), Deduction(c, noise);
    TakesOff(RawScore(c, rssi, snr), taken);
    hide RawScore;
  }

  lemma TakesOff(raw: real, taken: real)
    ensures Penalised(raw, taken) - raw == -(raw - 1000.0) * taken
  {
    var x := raw - 1000.0;
    assert x * (1.0 - taken) == x - x * taken;
  }

  /** For a power that is 0 at 0 and 1 at 1: no penalty at the minimum noise, everything
      from the maximum on, where the score is 1000. */
  lemma PenaltyAtEnds(c: Config, rssi: int, snr: int, noise: real)
    requires c.Sane() && c.allowPenalty && c.power(0.0) == 0.0 && c.power(1.0) == 1.0
    ensures noise <= c.minNoise ==> Penalty(c, rssi, snr, noise) == 0.0
    ensures noise >= c.maxNoise ==>
              Penalty(c, rssi, snr, noise) == 1000.0 - RawScore(c, rssi, snr) && Score(c, rssi, snr, noise) == 1000
  {
    var t, taken := PenaltyExactly(c, rssi, snr, noise);
    ScoreIsWholePart(c, rssi, snr, noise);
    hide RawScore, Penalty, Score;
    var raw := RawScore(c, rssi, snr);
    if noise <= c.minNoise {
      if noise == c.minNoise { OnlyZero(t, c.maxNoise - c.minNoise, noise - c.minNoise); }
      assert taken == 0.0;
    } else if noise >= c.maxNoise {
      AtLeastOne(t, c.maxNoise - c.minNoise, noise - c.minNoise);
      PowerAtLeastOne(c, t);
      assert taken == 1.0;
    }
  }

  lemma PowerAtLeastOne(c: Config, t: real)
    requires c.Sane() && t >= 1.0 && c.power(1.0) == 1.0
    ensures c.power(t) >= 1.0
  {
  }

  lemma AtLeastOne(t: real, span: real, part: real)
    requires span > 0.0 && part == t * span && part >= span
    ensures t >= 1.0
  {
    if t < 1.0 { ProductStrict(t, 1.0, span); }
  }

  lemma OnlyZero(t: real, span: real, part: real)
    requires span > 0.0 && part == t * span && part == 0.0
    ensures t == 0.0
  {
    if t > 0.0 { ProductPositive(t, span); }
    if t < 0.0 { ProductPositive(-t, span); }
  }

  /** Without a span of noise, any noise from the minimum on counts as the whole span. */
  lemma PenaltyWithoutSpan(c: Config, rssi: int, snr: int, noise: real)
    requires c.allowPenalty && c.minNoise == c.maxNoise
    ensures var taken := if noise < c.minNoise then 0.0 else if c.power(1.0) > 1.0 then 1.0 else c.power(1.0);
            Penalty(c, rssi, snr, noise) == -(RawScore(c, rssi, snr) - 1000.0) * taken
  {
    TakesOff(RawScore(c, rssi, snr), Deduction(c, noise));
    hide RawScore;
  }

  /** A conversion to int drops the fraction, on either side of zero. */
  lemma DropsFraction(x: real)
    ensures x >= 0.0 ==> Trunc(x) as real <= x < Trunc(x) as real + 1.0
    ensures x <= 0.0 ==> Trunc(x) as real - 1.0 < x <= Trunc(x) as real
  {
  }

  // The escalation.

  lemma NearestRising(t: real, x: real, span: real)
    requires span > 0.0 && x > 0.0 && t * span == 5.0 * x
    ensures var r := LRound(t) as real; (2.0 * r - 1.0) * span <= 10.0 * x < (2.0 * r + 1.0) * span
  {
    if t < 0.0 { ProductStrict(t, 0.0, span); }
    var r := LRound(t) as real;
    Rounds(t);
    Doubled(r - 0.5, t, r + 0.5, span, 5.0 * x);
  }

  lemma NearestFalling(t: real, x: real, span: real)
    requires span < 0.0 && t < 0.0 && t * span == 5.0 * x
    ensures var r := LRound(t) as real; (-2.0 * r - 1.0) * -span <= 10.0 * x < (-2.0 * r + 1.0) * -span
  {
    var r := LRound(t) as real;
    Rounds(t);
    assert (-t) * (-span) == 5.0 * x;
    Doubled(-r - 0.5, -t, -r + 0.5, -span, 5.0 * x);
  }

  lemma Doubled(lo: real, t: real, hi: real, span: real, x: real)
    requires span > 0.0 && lo <= t < hi && t * span == x
    ensures 2.0 * lo * span <= 2.0 * x < 2.0 * hi * span
  {
    ProductMonotone(lo, t, span);
    ProductStrict(t, hi, span);
  }

  /** The escalation for any noise: none when off or up to the first threshold, five steps
      from the last on, and in between five times the share of the span, to the nearest
      step, halves away from zero - or none if there is no span. */
  lemma FecExactly(c: Config, noise: real)
    ensures var x, span := noise - c.minNoiseForFecChange, c.maxNoise - c.minNoiseForFecChange;
            var r := FecChange(c, noise) as real;
            && (!c.allowFecIncrease || x <= 0.0 ==> r == 0.0)
            && (c.allowFecIncrease && x > 0.0 && noise >= c.noiseForMaxFecChange ==> r == 5.0)
            && (c.allowFecIncrease && x > 0.0 && noise < c.noiseForMaxFecChange ==>
                 && (span > 0.0 ==> (2.0 * r - 1.0) * span <= 10.0 * x < (2.0 * r + 1.0) * span)
                 && (span < 0.0 ==> (-2.0 * r - 1.0) * -span <= 10.0 * x < (-2.0 * r + 1.0) * -span)
                 && (span == 0.0 ==> r == 0.0))
  {
    if c.allowFecIncrease && c.minNoiseForFecChange < noise < c.noiseForMaxFecChange {
      FecInBetween(c, noise);
      hide FecChange;
    }
  }

  lemma FecInBetween(c: Config, noise: real)
    requires c.allowFecIncrease && c.minNoiseForFecChange < noise < c.noiseForMaxFecChange
    ensures var x, span := noise - c.minNoiseForFecChange, c.maxNoise - c.minNoiseForFecChange;
            var r := FecChange(c, noise) as real;
            && (span > 0.0 ==> (2.0 * r - 1.0) * span <= 10.0 * x < (2.0 * r + 1.0) * span)
            && (span < 0.0 ==> (-2.0 * r - 1.0) * -span <= 10.0 * x < (-2.0 * r + 1.0) * -span)
            && (span == 0.0 ==> r == 0.0)
  {
    var x, span := noise - c.minNoiseForFecChange, c.maxNoise - c.minNoiseForFecChange;
    if span != 0.0 {
      var t := (x / span) * 5.0;
      FiveSteps(x, span);
      assert FecChange(c, noise) == LRound(t);
      hide FecChange, LRound;
      if span > 0.0 {
        NearestRising(t, x, span);
      } else {
        FallingRamp(x, span);
        NearestFalling(t, x, span);
      }
    }
  }

  lemma Rounds(t: real)
    ensures t >= 0.0 ==> LRound(t) as real - 0.5 <= t < LRound(t) as real + 0.5
    ensures t < 0.0 ==> LRound(t) as real - 0.5 < t <= LRound(t) as real + 0.5
  {
  }

  // The filter and what it measures.

  /** The filter weighs the old estimate by the measurement variance and the measurement by
      the predicted error. */
  lemma UpdateWeighs(k: Kalman, n: Noise, m: real)
    requires k.error + n.process + n.measurement != 0.0
    ensures var p, r, t := k.error + n.process, n.measurement, k.Update(n, m);
            t.estimate * (p + r) == k.estimate * r + m * p && t.error * (p + r) == r * p
  {
    var p, r, g := k.error + n.process, n.measurement, k.Gain(n);
    assert g * (p + r) == p;
    Weighs(g, p, r, k.estimate, m);
    NextEstimate(k, n, m);
  }

  lemma Weighs(g: real, p: real, r: real, x: real, m: real)
    requires g * (p + r) == p
    ensures (x + g * (m - x)) * (p + r) == x * r + m * p && (1.0 - g) * p * (p + r) == r * p
  {
    var d := p + r;
    assert (x + g * (m - x)) * d == x * d + g * d * (m - x);
    assert (1.0 - g) * p * d == p * d - g * d * p;
  }

  /** The error ratio: five for a lost packet, and for a recovered one six shared among one
      more than the redundant packets, per packet and antenna; one for each if the
      redundancy is not known. */
  lemma ErrorRatioExactly(s: Snapshot)
    requires s.Weighable()
    ensures s.packetsAll == 0 || s.numAntennas <= 0 ==> ErrorRatio(s) == 0.0
    ensures s.packetsAll > 0 && s.numAntennas > 0 && (s.fecK < 0 || s.fecN <= 0) ==>
              ErrorRatio(s) * s.packetsAll as real ==
              s.numAntennas as real * (5.0 * s.packetsLost as real + s.fecRecovered as real)
    ensures s.packetsAll > 0 && s.numAntennas > 0 && s.fecK >= 0 && s.fecN > 0 ==>
              var d := 1.0 + (s.fecN - s.fecK) as real;
              ErrorRatio(s) * s.packetsAll as real * d ==
              s.numAntennas as real * (5.0 * s.packetsLost as real * d + 6.0 * s.fecRecovered as real)
  {
    if s.Measures() {
      var all, antennas := s.packetsAll as real, s.numAntennas as real;
      var errors := 5.0 * s.packetsLost as real + AdjustFecRecovered(s.fecRecovered as real, s.fecK, s.fecN);
      PerAntenna(errors, all, antennas);
      if s.fecK >= 0 && s.fecN > 0 {
        var d, recovered := 1.0 + (s.fecN - s.fecK) as real, s.fecRecovered as real;
        Weighted(recovered, d);
        WeightedErrors(ErrorRatio(s), all, antennas, 5.0 * s.packetsLost as real, recovered * (6.0 / d), d, recovered);
      }
    }
  }

  lemma PerAntenna(errors: real, all: real, antennas: real)
    requires all > 0.0 && antennas > 0.0
    ensures errors / (all / antennas) * all == antennas * errors
  {
    var each := all / antennas;
    assert each * antennas == all;
    assert each != 0.0;
    var q := errors / each;
    assert q * each == errors;
    assert q * all == q * each * antennas;
  }

  lemma Weighted(recovered: real, d: real)
    requires d != 0.0
    ensures recovered * (6.0 / d) * d == 6.0 * recovered
  {
    var w := 6.0 / d;
    assert w * d == 6.0;
    assert recovered * w * d == recovered * (w * d);
  }

  lemma WeightedErrors(ratio: real, all: real, antennas: real, lost: real, adjusted: real, d: real, recovered: real)
    requires ratio * all == antennas * (lost + adjusted) && adjusted * d == 6.0 * recovered
    ensures ratio * all * d == antennas * (lost * d + 6.0 * recovered)
  {
    assert antennas * (lost + adjusted) * d == antennas * (lost * d + adjusted * d);
  }

  /** An idle interval reports no noise and leaves the filter alone; any other reports the
      estimate that its error ratio leads to. */
  lemma NoiseReported(k: Kalman, c: Config, s: Snapshot)
    requires s.Weighable() && k.error + c.noise.process + c.noise.measurement != 0.0
    ensures s.packetsAll == 0 || s.numAntennas <= 0 ==> FilteredNoise(k, c, s) == 0.0 && NextKalman(k, c, s) == k
    ensures s.packetsAll > 0 && s.numAntennas > 0 ==>
              NextKalman(k, c, s) == k.Update(c.noise, ErrorRatio(s)) &&
              FilteredNoise(k, c, s) == k.Update(c.noise, ErrorRatio(s)).estimate
  {
  }

  /** A keyframe is asked for by the intervals that lost packets, and by no others. */
  lemma LossesAsk(reports: seq<Report>, i: nat)
    requires i < |reports|
    ensures Ticks(reports)[i].lost <==> reports[i].snapshot.packetsLost >= 1
    ensures Ticks(reports)[i].drawn == reports[i].drawn
  {
  }

  // Messages.

  /** Ten fields, in this order: time, the score twice, packets recovered and lost, RSSI and
      SNR, antennas, the whole part of the penalty and the change of redundancy. */
  lemma MessageSays(c: Config, s: Snapshot, time: nat, noise: real, code: seq<byte>)
    requires c.Sane() && RampFits(c) && Reportable(s, time, code)
    ensures var fields := Split(MessageText(Numbers(c, s, time, noise), code));
            && |fields| == (if code == [] then 10 else 11) && (code != [] ==> fields[10] == code)
            && Parse(fields[0]) == time
            && Parse(fields[1]) == Parse(fields[2]) == Score(c, s.bestRssi, s.bestSnr, noise)
            && Parse(fields[3]) == s.fecRecovered && Parse(fields[4]) == s.packetsLost
            && Parse(fields[5]) == s.bestRssi && Parse(fields[6]) == s.bestSnr
            && Parse(fields[7]) == s.numAntennas
            && Parse(fields[8]) as real - 1.0 < Penalty(c, s.bestRssi, s.bestSnr, noise) <= Parse(fields[8]) as real
            && Parse(fields[9]) == FecChange(c, noise)
  {
    MessagesReadBack(c, s, time, noise, code);
    ScoreLaw(c, s.bestRssi, s.bestSnr, noise, s.bestRssi, s.bestSnr, noise);
    DropsFraction(Penalty(c, s.bestRssi, s.bestSnr, noise));
    hide Score, Penalty, FecChange, Trunc, Config.Sane, RampFits, Split, Parse, MessageText;
  }

  /** Numbers in ASCII, without leading zeros. */
  lemma PrintsDecimal(n: int)
    ensures 0 <= n < 10 ==> Print(n) == [0x30 + n]
    ensures n >= 10 ==> Print(n) == Print(n / 10) + [0x30 + n % 10]
    ensures n < 0 ==> Print(n) == [0x2d] + Print(-n)
  {
  }

  /** Fields are joined by ':', and the code is one more field. */
  lemma JoinsByColon(field: seq<byte>, fields: seq<seq<byte>>)
    ensures Join([field]) == field
    ensures fields != [] ==> Join([field] + fields) == field + [0x3a] + Join(fields)
  {
    assert ([field] + fields)[1..] == fields;
  }

  lemma TextIsJoined(numbers: seq<int>, code: seq<byte>)
    requires Printable(numbers)
    ensures MessageText(numbers, code) == Join(Printed(numbers)) + if code == [] then [] else [0x3a] + code
    ensures |Printed(numbers)| == 10 && forall i :: 0 <= i < 10 ==> Printed(numbers)[i] == Print(numbers[i])
  {
    NumericFits(numbers);
    hide Join, Print;
  }

  /** A frame is the message's length, most significant byte first, and the message. */
  lemma FramesByLength(message: seq<byte>)
    requires |message| < 0x1_0000_0000
    ensures var n := |message|;
            Frame(message) == [n / 0x100_0000, n / 0x1_0000 % 256, n / 0x100 % 256, n % 256] + message
  {
    FrameParts(message);
  }
}
