/** The link score and the FEC escalation, over the reals. */
module AlinkScores {
  import opened AlinkFilters

  /** The tuning constants. `power` stands for t ↦ pow(t, deduction_exponent). */
  datatype Config = Config(
    snrWeight: real, rssiWeight: real, snrMin: real, snrMax: real, rssiMin: real, rssiMax: real,
    allowIdr: bool, idrMaxMessages: int, allowPenalty: bool, allowFecIncrease: bool,
    minNoise: real, maxNoise: real, power: real -> real, minNoiseForFecChange: real, noiseForMaxFecChange: real,
    noise: Noise)
  {
    /** Positive spans, and weights that share out the score. */
    ghost predicate Sane() {
      && snrMin < snrMax && rssiMin < rssiMax && minNoise < maxNoise
      && snrWeight >= 0.0 && rssiWeight >= 0.0 && snrWeight + rssiWeight == 1.0
      && (forall t :: t >= 0.0 ==> power(t) >= 0.0)
      && (forall s, t :: 0.0 <= s <= t ==> power(s) <= power(t))
    }
  }

  function Min(a: real, b: real): real {
    if b < a then b else a
  }

  function Clamp01(v: real): real {
    if Min(1.0, v) > 0.0 then Min(1.0, v) else 0.0
  }

  /** A C++ conversion to int: toward zero. */
  function Trunc(x: real): int {
    if x >= 0.0 then x.Floor else -(-x).Floor
  }

  /** std::lround: to the nearest, halves away from zero. */
  function LRound(x: real): int {
    if x >= 0.0 then (x + 0.5).Floor else -(-x + 0.5).Floor
  }

  function Normalized(value: real, lo: real, hi: real): real {
    if hi - lo != 0.0 then Clamp01((value - lo) / (hi - lo)) else 0.0
  }

  function Blend(w: real, v: real, x: real, y: real): real {
    w * x + v * y
  }

  function ScoreNormalized(c: Config, rssi: int, snr: int): real {
    Blend(c.snrWeight, c.rssiWeight,
          Normalized(snr as real, c.snrMin, c.snrMax), Normalized(rssi as real, c.rssiMin, c.rssiMax))
  }

  function RawScore(c: Config, rssi: int, snr: int): real {
    1000.0 + ScoreNormalized(c, rssi, snr) * 1000.0
  }

  function Deduction(c: Config, noise: real): real {
    if noise < c.minNoise then 0.0
    else
      var span := c.maxNoise - c.minNoise;
      Min(c.power(if span != 0.0 then (noise - c.minNoise) / span else 1.0), 1.0)
  }

  function Penalised(raw: real, deduction: real): real {
    1000.0 + (raw - 1000.0) * (1.0 - deduction)
  }

  function FinalScore(c: Config, rssi: int, snr: int, noise: real): real {
    var raw := RawScore(c, rssi, snr);
    if c.allowPenalty then Penalised(raw, Deduction(c, noise)) else raw
  }

  function Penalty(c: Config, rssi: int, snr: int, noise: real): real {
    if c.allowPenalty then FinalScore(c, rssi, snr, noise) - RawScore(c, rssi, snr) else 0.0
  }

  function Score(c: Config, rssi: int, snr: int, noise: real): int {
    Trunc(FinalScore(c, rssi, snr, noise))
  }

  function FecChange(c: Config, noise: real): int {
    if !c.allowFecIncrease || noise <= c.minNoiseForFecChange then 0
    else if noise >= c.noiseForMaxFecChange then 5
    else
      var span := c.maxNoise - c.minNoiseForFecChange;
      LRound((if span != 0.0 then (noise - c.minNoiseForFecChange) / span else 0.0) * 5.0)
  }

  // The score.

  lemma QuotientMonotone(a: real, b: real, d: real)
    requires a <= b && d > 0.0
    ensures a / d <= b / d
  {
    var q, r := a / d, b / d;
    assert q * d == a && r * d == b;
    if q > r { ProductStrict(r, q, d); }
  }

  lemma NormalizedMonotone(a: real, b: real, lo: real, hi: real)
    requires a <= b && lo < hi
    ensures 0.0 <= Normalized(a, lo, hi) <= Normalized(b, lo, hi) <= 1.0
  {
    hide Clamp01;
    QuotientMonotone(a - lo, b - lo, hi - lo);
    ClampMonotone((a - lo) / (hi - lo), (b - lo) / (hi - lo));
  }

  lemma ClampMonotone(x: real, y: real)
    requires x <= y
    ensures 0.0 <= Clamp01(x) <= Clamp01(y) <= 1.0
  {
  }

  lemma Sums(p: real, q: real, r: real, s: real, w: real, v: real)
    requires 0.0 <= p <= q <= w && 0.0 <= r <= s <= v && w + v <= 1.0
    ensures 0.0 <= p + r <= q + s <= 1.0
  {
  }

  lemma WeightedMonotone(w: real, v: real, a: real, b: real, c: real, d: real)
    requires w >= 0.0 && v >= 0.0 && w + v <= 1.0 && 0.0 <= a <= b <= 1.0 && 0.0 <= c <= d <= 1.0
    ensures 0.0 <= Blend(w, v, a, c) <= Blend(w, v, b, d) <= 1.0
  {
    Share(w, a, b);
    Share(v, c, d);
    Sums(w * a, w * b, v * c, v * d, w, v);
  }

  lemma ScoreNormalizedMonotone(c: Config, rssi: int, snr: int, rssi': int, snr': int)
    requires c.Sane() && rssi <= rssi' && snr <= snr'
    ensures 0.0 <= ScoreNormalized(c, rssi, snr) <= ScoreNormalized(c, rssi', snr') <= 1.0
  {
    NormalizedMonotone(snr as real, snr' as real, c.snrMin, c.snrMax);
    NormalizedMonotone(rssi as real, rssi' as real, c.rssiMin, c.rssiMax);
    assert c.snrWeight >= 0.0 && c.rssiWeight >= 0.0 && c.snrWeight + c.rssiWeight <= 1.0;
    hide Normalized, Config.Sane, Blend;
    WeightedMonotone(c.snrWeight, c.rssiWeight,
                     Normalized(snr as real, c.snrMin, c.snrMax), Normalized(snr' as real, c.snrMin, c.snrMax),
                     Normalized(rssi as real, c.rssiMin, c.rssiMax), Normalized(rssi' as real, c.rssiMin, c.rssiMax));
  }

  lemma RawScoreMonotone(c: Config, rssi: int, snr: int, rssi': int, snr': int)
    requires c.Sane() && rssi <= rssi' && snr <= snr'
    ensures 1000.0 <= RawScore(c, rssi, snr) <= RawScore(c, rssi', snr') <= 2000.0
  {
    hide ScoreNormalized, Config.Sane;
    ScoreNormalizedMonotone(c, rssi, snr, rssi', snr');
  }

  lemma DeductionMonotone(c: Config, noise: real, noise': real)
    requires c.Sane() && noise <= noise'
    ensures 0.0 <= Deduction(c, noise) <= Deduction(c, noise') <= 1.0
  {
    var span := c.maxNoise - c.minNoise;
    if noise >= c.minNoise {
      QuotientMonotone(0.0, noise - c.minNoise, span);
      QuotientMonotone(noise - c.minNoise, noise' - c.minNoise, span);
      assert 0.0 / span == 0.0;
    } else if noise' >= c.minNoise {
      QuotientMonotone(0.0, noise' - c.minNoise, span);
      assert 0.0 / span == 0.0;
    }
  }

  lemma KeepsBelow(x: real, k: real)
    requires 0.0 <= x && 0.0 <= k <= 1.0
    ensures 0.0 <= x * k <= x
  {
    Share(x, k, 1.0);
  }

  lemma ProductsMonotone(x: real, y: real, l: real, k: real)
    requires 0.0 <= x <= y && 0.0 <= l <= k
    ensures x * l <= y * k
  {
    var a, b, c := x * l, y * l, y * k;
    assert a <= b by { ProductMonotone(x, y, l); }
    assert b <= c by { ProductMonotone(l, k, y); }
  }

  lemma PenalisedMonotone(raw: real, raw': real, d: real, d': real)
    requires 1000.0 <= raw <= raw' <= 2000.0 && 0.0 <= d' <= d <= 1.0
    ensures 1000.0 <= Penalised(raw, d) <= Penalised(raw', d') <= 2000.0
    ensures Penalised(raw, d) <= raw
  {
    var x, y, l, k := raw - 1000.0, raw' - 1000.0, 1.0 - d, 1.0 - d';
    var p, q := x * l, y * k;
    assert 0.0 <= p <= x by { KeepsBelow(x, l); }
    assert 0.0 <= q <= y by { KeepsBelow(y, k); }
    assert p <= q by { ProductsMonotone(x, y, l, k); }
    assert Penalised(raw, d) == 1000.0 + p && Penalised(raw', d') == 1000.0 + q;
  }

  lemma TruncMonotone(x: real, y: real)
    requires 1000.0 <= x <= y <= 2000.0
    ensures 1000 <= Trunc(x) <= Trunc(y) <= 2000
  {
  }

  /** The score law: between 1000 and 2000, never lower for better RSSI or SNR, never
      higher for more noise, and the penalty never rewards. */
  lemma ScoreLaw(c: Config, rssi: int, snr: int, noise: real, rssi': int, snr': int, noise': real)
    requires c.Sane() && rssi <= rssi' && snr <= snr' && noise' <= noise
    ensures 1000 <= Score(c, rssi, snr, noise) <= Score(c, rssi', snr', noise') <= 2000
    ensures Penalty(c, rssi, snr, noise) <= 0.0
  {
    RawScoreMonotone(c, rssi, snr, rssi', snr');
    DeductionMonotone(c, noise', noise);
    hide RawScore, Deduction, Config.Sane, Trunc, Penalised;
    PenalisedMonotone(RawScore(c, rssi, snr), RawScore(c, rssi', snr'), Deduction(c, noise), Deduction(c, noise'));
    TruncMonotone(FinalScore(c, rssi, snr, noise), FinalScore(c, rssi', snr', noise'));
  }

  // The FEC escalation.

  /** What the tuning must satisfy for the escalation to stay in 0..5: the ramp, run
      up to the noise of the last step, must not round past it. */
  predicate RampFits(c: Config) {
    var width := c.noiseForMaxFecChange - c.minNoiseForFecChange;
    var span := c.maxNoise - c.minNoiseForFecChange;
    !c.allowFecIncrease || width <= 0.0 || span == 0.0
    || (span > 0.0 && 10.0 * width <= 11.0 * span) || (span < 0.0 && 10.0 * width <= -span)
  }

  /** A positive part of a span, scaled to five steps. */
  lemma FiveSteps(x: real, span: real)
    requires span != 0.0
    ensures (x / span) * 5.0 * span == 5.0 * x
  {
    assert x / span * span == x;
  }

  lemma RampBelow(x: real, span: real)
    requires 0.0 < x && span > 0.0 && 10.0 * x < 11.0 * span
    ensures 0.0 < (x / span) * 5.0 < 5.5
  {
    var t := (x / span) * 5.0;
    FiveSteps(x, span);
    if t >= 5.5 { ProductMonotone(5.5, t, span); }
    if t <= 0.0 { ProductMonotone(t, 0.0, span); }
  }

  lemma RampAbove(x: real, span: real)
    requires span > 0.0 && 10.0 * x >= 11.0 * span
    ensures (x / span) * 5.0 >= 5.5
  {
    var t := (x / span) * 5.0;
    FiveSteps(x, span);
    if t < 5.5 { ProductStrict(t, 5.5, span); }
  }

  lemma FallingRamp(x: real, span: real)
    requires 0.0 < x && span < 0.0
    ensures (x / span) * 5.0 < 0.0
    ensures 10.0 * x < -span <==> (x / span) * 5.0 > -0.5
  {
    var t := (x / span) * 5.0;
    FiveSteps(x, span);
    assert (-t) * (-span) == 5.0 * x;
    if t >= 0.0 { ProductMonotone(-t, 0.0, -span); }
    if t > -0.5 {
      ProductPositive(t + 0.5, -span);
      assert (t + 0.5) * (-span) == 0.5 * (-span) - 5.0 * x;
    } else {
      ProductMonotone(0.5, -t, -span);
    }
  }

  lemma FitsStaysBounded(c: Config, noise: real)
    requires RampFits(c)
    ensures 0 <= FecChange(c, noise) <= 5
  {
    var span, x := c.maxNoise - c.minNoiseForFecChange, noise - c.minNoiseForFecChange;
    if c.allowFecIncrease && 0.0 < x && noise < c.noiseForMaxFecChange {
      if span > 0.0 {
        RampBelow(x, span);
      } else if span < 0.0 {
        FallingRamp(x, span);
      }
    }
  }

  /** A noise at which a ramp that does not fit leaves 0..5. */
  function Overshoot(c: Config): real {
    var width := c.noiseForMaxFecChange - c.minNoiseForFecChange;
    var span := c.maxNoise - c.minNoiseForFecChange;
    c.minNoiseForFecChange + (if span > 0.0 then (width + 1.1 * span) / 2.0 else (width - 0.1 * span) / 2.0)
  }

  /** From where on a ramp that does not fit rounds past its last step. */
  function OvershootFrom(c: Config): real {
    var span := c.maxNoise - c.minNoiseForFecChange;
    c.minNoiseForFecChange + if span > 0.0 then 1.1 * span else -0.1 * span
  }

  lemma MisfitInterval(c: Config)
    requires !RampFits(c)
    ensures c.minNoiseForFecChange < OvershootFrom(c) < c.noiseForMaxFecChange
    ensures OvershootFrom(c) < Overshoot(c) < c.noiseForMaxFecChange
  {
  }

  lemma MisfitOvershootsAt(c: Config, noise: real)
    requires !RampFits(c) && OvershootFrom(c) <= noise < c.noiseForMaxFecChange
    ensures FecChange(c, noise) < 0 || FecChange(c, noise) > 5
  {
    var span, x := c.maxNoise - c.minNoiseForFecChange, noise - c.minNoiseForFecChange;
    if span > 0.0 {
      RampAbove(x, span);
    } else {
      FallingRamp(x, span);
    }
  }

  lemma MisfitOvershoots(c: Config)
    requires !RampFits(c)
    ensures FecChange(c, Overshoot(c)) < 0 || FecChange(c, Overshoot(c)) > 5
  {
    MisfitInterval(c);
    MisfitOvershootsAt(c, Overshoot(c));
  }

  /** The escalation is bounded to 0..5 exactly when the ramp fits; nothing in the
      source checks that it does. */
  lemma FecBoundedExactly(c: Config)
    ensures RampFits(c) <==> forall noise: real :: 0 <= FecChange(c, noise) <= 5
  {
    hide FecChange, RampFits;
    if RampFits(c) {
      forall noise: real
        ensures 0 <= FecChange(c, noise) <= 5
      {
        FitsStaysBounded(c, noise);
      }
    } else {
      MisfitOvershoots(c);
    }
  }

  /** When the last step comes no later than the maximum noise, the ramp fits. */
  lemma OrderedTuningFits(c: Config)
    requires c.noiseForMaxFecChange <= c.maxNoise
    ensures RampFits(c)
  {
  }

  lemma FitsRises(c: Config, noise: real, noise': real)
    requires RampFits(c) && noise <= noise'
    ensures FecChange(c, noise) <= FecChange(c, noise')
  {
    FitsStaysBounded(c, noise);
    FitsStaysBounded(c, noise');
    var span, low := c.maxNoise - c.minNoiseForFecChange, c.minNoiseForFecChange;
    if c.allowFecIncrease && low < noise && noise' < c.noiseForMaxFecChange {
      if span > 0.0 {
        QuotientMonotone(noise - low, noise' - low, span);
        QuotientMonotone(0.0, noise - low, span);
        assert 0.0 / span == 0.0;
      } else if span < 0.0 {
        FallingRamp(noise - low, span);
        FallingRamp(noise' - low, span);
      }
    }
  }

  /** More noise never asks for less redundancy, for exactly the same tunings: a ramp
      that does not fit falls back to the last step, or starts below none. */
  lemma FecMonotoneExactly(c: Config)
    ensures RampFits(c) <==> forall a: real, b: real :: a <= b ==> FecChange(c, a) <= FecChange(c, b)
  {
    hide FecChange, RampFits;
    if RampFits(c) {
      forall a: real, b: real | a <= b
        ensures FecChange(c, a) <= FecChange(c, b)
      {
        FitsRises(c, a, b);
      }
    } else {
      var low, high, x := c.minNoiseForFecChange, c.noiseForMaxFecChange, Overshoot(c);
      MisfitOvershoots(c);
      MisfitFalls(c);
      assert low <= x <= high;
      assert FecChange(c, low) > FecChange(c, x) || FecChange(c, x) > FecChange(c, high);
    }
  }

  lemma MisfitFalls(c: Config)
    requires !RampFits(c)
    ensures c.minNoiseForFecChange <= Overshoot(c) <= c.noiseForMaxFecChange
    ensures FecChange(c, c.minNoiseForFecChange) == 0 && FecChange(c, c.noiseForMaxFecChange) == 5
  {
  }
}
