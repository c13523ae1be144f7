/** The adaptive-link controller: one report in, one message out, with the filter and
    the keyframe request carried from call to call. */
module AlinkControllers {
  import opened Bytes
  import opened AlinkFilters
  import opened AlinkScores
  import opened AlinkIdrs
  import opened AlinkWires

  /** One reporting interval. The packet counters are below 2^31, as the source's
      conversions to int need. */
  datatype Snapshot = Snapshot(
    packetsAll: nat, packetsLost: nat, fecRecovered: nat, fecK: int, fecN: int,
    bestRssi: int, bestSnr: int, numAntennas: int)
  {
    /** No division by zero in the FEC weight. */
    predicate Weighable() {
      fecK >= 0 && fecN > 0 ==> fecN - fecK != -1
    }

    /** And counters that can be printed as ints. */
    predicate Usable() {
      packetsLost < 0x8000_0000 && fecRecovered < 0x8000_0000 && Weighable()
    }

    predicate Measures() {
      packetsAll > 0 && numAntennas > 0
    }
  }

  function AdjustFecRecovered(recovered: real, fecK: int, fecN: int): real
    requires fecK >= 0 && fecN > 0 ==> fecN - fecK != -1
  {
    if fecK < 0 || fecN <= 0 then recovered
    else recovered * (6.0 / (1.0 + (fecN - fecK) as real))
  }

  function ErrorRatio(s: Snapshot): real
    requires s.Weighable()
  {
    if !s.Measures() then 0.0
    else (5.0 * s.packetsLost as real + AdjustFecRecovered(s.fecRecovered as real, s.fecK, s.fecN))
         / (s.packetsAll as real / s.numAntennas as real)
  }

  datatype State = State(kalman: Kalman, idr: Idr)

  datatype Result = Result(
    message: seq<byte>, score: int, rawScore: real, penalty: real, fecChange: int,
    errorRatio: real, filteredNoise: real, idrCode: seq<byte>)

  /** The ten numbers of a message. */
  function Numbers(c: Config, s: Snapshot, time: nat, noise: real): seq<int> {
    var score := Score(c, s.bestRssi, s.bestSnr, noise);
    [time, score, score, s.fecRecovered, s.packetsLost, s.bestRssi, s.bestSnr, s.numAntennas,
     Trunc(Penalty(c, s.bestRssi, s.bestSnr, noise)), FecChange(c, noise)]
  }

  /** The filter moves only on intervals with traffic. */
  function NextKalman(k: Kalman, c: Config, s: Snapshot): Kalman
    requires s.Weighable() && k.error + c.noise.process + c.noise.measurement != 0.0
  {
    if s.Measures() then k.Update(c.noise, ErrorRatio(s)) else k
  }

  function FilteredNoise(k: Kalman, c: Config, s: Snapshot): real
    requires s.Weighable() && k.error + c.noise.process + c.noise.measurement != 0.0
  {
    if s.Measures() then NextKalman(k, c, s).estimate else 0.0
  }

  function TickOf(s: Snapshot, drawn: seq<byte>): Tick {
    Tick(s.packetsLost > 0, drawn)
  }

  /** One call: what was reported, and the code that would be drawn on a loss. */
  datatype Report = Report(snapshot: Snapshot, drawn: seq<byte>)

  ghost predicate AllUsable(reports: seq<Report>) {
    forall i :: 0 <= i < |reports| ==> reports[i].snapshot.Usable()
  }

  /** The measurements of the intervals that measure anything; the others leave the filter alone. */
  ghost function Ratios(reports: seq<Report>): seq<real>
    requires AllUsable(reports)
  {
    if reports == [] then [] else
    var last := reports[|reports| - 1].snapshot;
    Ratios(reports[..|reports| - 1]) + if last.Measures() then [ErrorRatio(last)] else []
  }

  ghost function Ticks(reports: seq<Report>): (t: seq<Tick>)
    ensures |t| == |reports|
  {
    seq(|reports|, i requires 0 <= i < |reports| => TickOf(reports[i].snapshot, reports[i].drawn))
  }

  /** Over any run of reports the filter is that of the measurements among them. */
  lemma RatiosMore(k: Kalman, n: Noise, reports: seq<Report>, report: Report)
    requires n.Proper() && k.error > 0.0 && AllUsable(reports) && report.snapshot.Usable()
    ensures var before, s := Run(k, n, Ratios(reports)), report.snapshot;
            before.error > 0.0 && AllUsable(reports + [report]) &&
            Run(k, n, Ratios(reports + [report])) == if s.Measures() then before.Update(n, ErrorRatio(s)) else before
  {
    hide Kalman.Update, ErrorRatio;
    var more := reports + [report];
    assert more[..|more| - 1] == reports && more[|more| - 1] == report;
    RunMore(k, n, Ratios(reports), if report.snapshot.Measures() then [ErrorRatio(report.snapshot)] else []);
  }

  lemma TicksMore(c: Config, reports: seq<Report>, report: Report)
    ensures var ticks, more := Ticks(reports), Ticks(reports + [report]);
            var tick := TickOf(report.snapshot, report.drawn);
            After(more, c.allowIdr, c.idrMaxMessages) ==
            After(ticks, c.allowIdr, c.idrMaxMessages).Step(c.allowIdr, tick, c.idrMaxMessages).0
  {
    assert Ticks(reports + [report]) == Ticks(reports) + [TickOf(report.snapshot, report.drawn)];
  }

  /** Whatever is reported, idle intervals included, the estimate stays within the hull
      of where it started and what was measured, and the error stays positive. */
  lemma {:induction false} ReportsStayInHull(k: Kalman, n: Noise, reports: seq<Report>, lo: real, hi: real)
    requires n.Proper() && k.error > 0.0 && AllUsable(reports) && lo <= k.estimate <= hi
    requires forall i :: 0 <= i < |reports| && reports[i].snapshot.Measures() ==>
               lo <= ErrorRatio(reports[i].snapshot) <= hi
    ensures var t := Run(k, n, Ratios(reports)); lo <= t.estimate <= hi && t.error > 0.0
    decreases |reports|
  {
    hide Kalman.Update, ErrorRatio, Ratios;
    if reports == [] {
      NoRatios();
    } else {
      var before, last := reports[..|reports| - 1], reports[|reports| - 1];
      ReportsStayInHull(k, n, before, lo, hi);
      RatiosMore(k, n, before, last);
      assert before + [last] == reports;
      if last.snapshot.Measures() {
        UpdateStaysBetween(Run(k, n, Ratios(before)), n, ErrorRatio(last.snapshot), lo, hi);
        UpdateBounds(Run(k, n, Ratios(before)), n, ErrorRatio(last.snapshot));
      }
    }
  }

  /** The state is the one that the reports lead to, from where the filter started. */
  ghost predicate LeadsTo(c: Config, start: Kalman, reports: seq<Report>, s: State) {
    && c.noise.Proper() && start.error > 0.0 && AllUsable(reports)
    && s.kalman == Run(start, c.noise, Ratios(reports))
    && s.idr == After(Ticks(reports), c.allowIdr, c.idrMaxMessages)
  }

  lemma LeadsOn(c: Config, start: Kalman, reports: seq<Report>, s: State, report: Report)
    requires LeadsTo(c, start, reports, s) && report.snapshot.Usable()
    ensures s.kalman.error + c.noise.process + c.noise.measurement != 0.0
    ensures LeadsTo(c, start, reports + [report],
                    State(NextKalman(s.kalman, c, report.snapshot),
                          s.idr.Step(c.allowIdr, TickOf(report.snapshot, report.drawn), c.idrMaxMessages).0))
  {
    hide Ratios, Ticks, After, Run, Kalman.Update, ErrorRatio;
    RatiosMore(start, c.noise, reports, report);
    TicksMore(c, reports, report);
  }

  /** The filter never runs into its own zero divisor. */
  lemma ErrorStaysPositive(k: Kalman, c: Config, s: Snapshot)
    requires s.Weighable() && c.noise.Proper() && k.error > 0.0
    ensures NextKalman(k, c, s).error > 0.0
  {
    hide Kalman.Update, ErrorRatio;
    if s.Measures() {
      UpdateBounds(k, c.noise, ErrorRatio(s));
    }
  }

  // Where a tuning whose ramp does not fit shows.

  /** Between any two numbers, the smaller not negative, lies a fraction of naturals. */
  lemma FractionBetween(lo: real, hi: real) returns (a: nat, b: nat)
    requires 0.0 <= lo < hi
    ensures b > 0 && lo < a as real / b as real < hi
  {
    var gap := hi - lo;
    var inverse := 1.0 / gap;
    assert inverse > 0.0 by { InversePositive(gap); }
    b := inverse.Floor + 1;
    var y := b as real;
    Reciprocal(gap, y);
    var scaled := lo * y;
    assert scaled >= 0.0 by { ProductNonNegative(lo, y); }
    a := scaled.Floor + 1;
    var x := a as real;
    assert scaled < x <= scaled + 1.0;
    FractionInside(lo, hi, x, y, scaled, gap);
  }

  lemma InversePositive(gap: real)
    requires gap > 0.0
    ensures 1.0 / gap > 0.0
  {
    var inverse := 1.0 / gap;
    assert inverse * gap == 1.0;
    if inverse <= 0.0 {
      ProductMonotone(inverse, 0.0, gap);
    }
  }

  lemma Reciprocal(gap: real, b: real)
    requires gap > 0.0 && b > 1.0 / gap
    ensures gap * b > 1.0 && b > 0.0
  {
    InversePositive(gap);
    var inverse := 1.0 / gap;
    var one, p := inverse * gap, b * gap;
    assert one == 1.0;
    assert one < p by { ProductStrict(inverse, b, gap); }
    assert p == gap * b;
  }

  lemma FractionInside(lo: real, hi: real, a: real, b: real, scaled: real, gap: real)
    requires b > 0.0 && gap == hi - lo && scaled == lo * b && scaled < a <= scaled + 1.0 && gap * b > 1.0
    ensures lo < a / b < hi
  {
    var q := a / b;
    var whole, above, part := q * b, hi * b, gap * b;
    assert whole == a;
    assert above == scaled + part by { assert hi == lo + gap; }
    ProductReflects(lo, q, b, scaled, whole);
    ProductReflects(q, hi, b, whole, above);
  }

  /** One antenna, nothing lost: a packets recovered of b received. */
  function Recovering(a: nat, b: nat): Snapshot {
    Snapshot(b, 0, a, -1, 0, 0, 0, 1)
  }

  lemma RecoveringRatio(a: nat, b: nat)
    requires b > 0
    ensures Recovering(a, b).Weighable() && Recovering(a, b).Measures()
    ensures ErrorRatio(Recovering(a, b)) == a as real / b as real
  {
    assert b as real / 1 as real == b as real;
  }

  /** What is left of the estimate when a zero is measured. */
  function Kept(k: Kalman, n: Noise): real
    requires k.error + n.process + n.measurement != 0.0
  {
    k.estimate - k.Gain(n) * k.estimate
  }

  lemma KeptBetween(k: Kalman, n: Noise)
    requires n.Proper() && k.error > 0.0 && k.estimate >= 0.0
    ensures 0.0 <= Kept(k, n) <= k.estimate
  {
    UpdateBounds(k, n, 0.0);
    hide Kalman.Gain;
    KeepsBelow(k.estimate, k.Gain(n));
  }

  lemma NoiseAfter(k: Kalman, c: Config, a: nat, b: nat)
    requires c.noise.Proper() && k.error > 0.0 && b > 0
    ensures FilteredNoise(k, c, Recovering(a, b)) == Kept(k, c.noise) + k.Gain(c.noise) * (a as real / b as real)
  {
    hide Kalman.Update, Kalman.Gain, ErrorRatio;
    RecoveringRatio(a, b);
    NextEstimate(k, c.noise, a as real / b as real);
    Distributes(k.Gain(c.noise), a as real / b as real, k.estimate);
  }

  lemma Distributes(g: real, m: real, x: real)
    ensures x + g * (m - x) == x - g * x + g * m
  {
  }

  /** What must be measured to lift the filter between two levels. */
  lemma Steers(kept: real, g: real, lo: real, hi: real) returns (a: nat, b: nat)
    requires g > 0.0 && 0.0 <= kept <= lo < hi
    ensures b > 0 && lo < kept + g * (a as real / b as real) < hi
  {
    var p, q := (lo - kept) / g, (hi - kept) / g;
    assert p * g == lo - kept && q * g == hi - kept;
    assert p >= 0.0 by { if p < 0.0 { ProductStrict(p, 0.0, g); } }
    assert p < q by { if p >= q { ProductMonotone(q, p, g); } }
    a, b := FractionBetween(p, q);
    var m := a as real / b as real;
    Lifts(kept, g, lo, hi, p, q, m);
  }

  lemma Lifts(kept: real, g: real, lo: real, hi: real, p: real, q: real, m: real)
    requires g > 0.0 && p * g == lo - kept && q * g == hi - kept && p < m < q
    ensures lo < kept + g * m < hi
  {
    ProductStrict(p, m, g);
    ProductStrict(m, q, g);
  }

  /** From any state whose estimate has not passed the first threshold, a tuning whose ramp
      does not fit is led out of 0..5 by a single report. */
  lemma MisfitReached(c: Config, k: Kalman) returns (s: Snapshot)
    requires !RampFits(c) && c.noise.Proper() && k.error > 0.0 && 0.0 <= k.estimate <= c.minNoiseForFecChange
    ensures s.Weighable() && s.Measures()
    ensures var change := FecChange(c, FilteredNoise(k, c, s)); change < 0 || change > 5
  {
    MisfitInterval(c);
    UpdateBounds(k, c.noise, 0.0);
    KeptBetween(k, c.noise);
    hide FecChange, RampFits, ErrorRatio, Kept, Kalman.Gain, Kalman.Update, OvershootFrom, FilteredNoise;
    var a, b := Steers(Kept(k, c.noise), k.Gain(c.noise), OvershootFrom(c), c.noiseForMaxFecChange);
    s := Recovering(a, b);
    RecoveringRatio(a, b);
    NoiseAfter(k, c, a, b);
    MisfitOvershootsAt(c, FilteredNoise(k, c, s));
  }

  /** So the escalation stays in 0..5 on everything that can be reported exactly when the
      ramp fits. */
  lemma FecBoundedOnReportsExactly(c: Config)
    requires c.noise.Proper() && c.minNoiseForFecChange >= 0.0
    ensures RampFits(c) <==>
            forall k: Kalman, s: Snapshot ::
              k.error > 0.0 && s.Weighable() ==> 0 <= FecChange(c, FilteredNoise(k, c, s)) <= 5
  {
    hide FecChange, RampFits, FilteredNoise;
    if RampFits(c) {
      forall k: Kalman, s: Snapshot | k.error > 0.0 && s.Weighable()
        ensures 0 <= FecChange(c, FilteredNoise(k, c, s)) <= 5
      {
        FitsStaysBounded(c, FilteredNoise(k, c, s));
      }
    } else {
      var s := MisfitReached(c, Kalman(0.0, 1.0));
    }
  }

  lemma NoRatios()
    ensures Ratios([]) == []
  {
  }

  class AlinkController {
    var config: Config
    var kalmanEstimate: real
    var kalmanErrorEstimate: real
    var idrCode: seq<byte>
    var idrRemaining: int
    ghost var start: Kalman         // where the filter started
    ghost var reports: seq<Report>  // every call so far

    /** The state is the one that the reports so far lead to, under the present configuration. */
    ghost predicate Coherent()
      reads this
    {
      LeadsTo(config, start, reports, View())
    }

    function View(): State
      reads this`kalmanEstimate, this`kalmanErrorEstimate, this`idrCode, this`idrRemaining
    {
      State(Kalman(kalmanEstimate, kalmanErrorEstimate), Idr(idrCode, idrRemaining))
    }

    constructor (config: Config, kalmanEstimate: real, kalmanErrorEstimate: real)
      ensures this.config == config
      ensures View() == State(Kalman(kalmanEstimate, kalmanErrorEstimate), NO_REQUEST)
      ensures start == View().kalman && reports == []
      ensures config.noise.Proper() && kalmanErrorEstimate > 0.0 ==> Coherent()
    {
      this.config, this.kalmanEstimate, this.kalmanErrorEstimate := config, kalmanEstimate, kalmanErrorEstimate;
      idrCode, idrRemaining := [], 0;
      start, reports := Kalman(kalmanEstimate, kalmanErrorEstimate), [];
    }

    method SetConfig(config: Config)
      modifies this`config
      ensures this.config == config
    {
      this.config := config;
    }

    method KalmanUpdate(measurement: real) returns (estimate: real)
      requires kalmanErrorEstimate + config.noise.process + config.noise.measurement != 0.0
      modifies this`kalmanEstimate, this`kalmanErrorEstimate
      ensures View().kalman == old(View().kalman.Update(config.noise, measurement)) && estimate == kalmanEstimate
    {
      var predictedEstimate := kalmanEstimate;
      var predictedError := kalmanErrorEstimate + config.noise.process;
      var gain := predictedError / (predictedError + config.noise.measurement);
      kalmanEstimate := predictedEstimate + gain * (measurement - predictedEstimate);
      kalmanErrorEstimate := (1.0 - gain) * predictedError;
      return kalmanEstimate;
    }

    /** `drawn` is the random code the source would draw on a loss. */
    method Update(s: Snapshot, time: nat, drawn: seq<byte>) returns (r: Result)
      requires s.Usable() && kalmanErrorEstimate + config.noise.process + config.noise.measurement != 0.0
      modifies this`kalmanEstimate, this`kalmanErrorEstimate, this`idrCode, this`idrRemaining, this`reports
      ensures View().kalman == old(NextKalman(View().kalman, config, s))
      ensures (View().idr, r.idrCode) == old(View().idr.Step(config.allowIdr, TickOf(s, drawn), config.idrMaxMessages))
      ensures r.errorRatio == ErrorRatio(s) && r.filteredNoise == old(FilteredNoise(View().kalman, config, s))
      ensures r.score == Score(config, s.bestRssi, s.bestSnr, r.filteredNoise)
      ensures r.rawScore == RawScore(config, s.bestRssi, s.bestSnr)
      ensures r.penalty == Penalty(config, s.bestRssi, s.bestSnr, r.filteredNoise)
      ensures r.fecChange == FecChange(config, r.filteredNoise)
      ensures r.message == MessageText(Numbers(config, s, time, r.filteredNoise), r.idrCode)
      ensures reports == old(reports) + [Report(s, drawn)] && (old(Coherent()) ==> Coherent())
      ensures config.noise.Proper() && old(kalmanErrorEstimate) > 0.0 ==> kalmanErrorEstimate > 0.0
    {
      hide Numeric, ErrorRatio, LeadsTo, FinalScore, Penalty, FecChange, RawScore, Trunc;
      if s.packetsLost > 0 && config.allowIdr {
        idrCode := drawn;
        idrRemaining := config.idrMaxMessages;
      }
      var errorRatio, noise := Measure(s);
      var rawScore := Grade(s);
      var finalScore, penalty := Penalise(s, rawScore, noise);
      var fecChange := EscalateFec(noise);
      var score := Trunc(finalScore);
      var numbers := Numeric([time, score, score, s.fecRecovered, s.packetsLost, s.bestRssi, s.bestSnr, s.numAntennas,
                              Trunc(penalty), fecChange]);
      var message, sent := Attach(numbers);
      r := Result(message, score, rawScore, penalty, fecChange, errorRatio, noise, sent);
      if config.noise.Proper() && old(kalmanErrorEstimate) > 0.0 {
        ErrorStaysPositive(old(View().kalman), config, s);
      }
      if old(Coherent()) {
        LeadsOn(config, start, reports, old(View()), Report(s, drawn));
      }
      reports := reports + [Report(s, drawn)];
    }

    /** The error ratio of the interval, and the filter's opinion of it. */
    method Measure(s: Snapshot) returns (errorRatio: real, noise: real)
      requires s.Usable() && kalmanErrorEstimate + config.noise.process + config.noise.measurement != 0.0
      modifies this`kalmanEstimate, this`kalmanErrorEstimate
      ensures View().kalman == old(NextKalman(View().kalman, config, s))
      ensures errorRatio == ErrorRatio(s) && noise == old(FilteredNoise(View().kalman, config, s))
    {
      hide AdjustFecRecovered;
      errorRatio, noise := 0.0, 0.0;
      if s.packetsAll > 0 && s.numAntennas > 0 {
        var adjusted := AdjustFecRecovered(s.fecRecovered as real, s.fecK, s.fecN);
        errorRatio := (5.0 * s.packetsLost as real + adjusted) / (s.packetsAll as real / s.numAntennas as real);
        noise := KalmanUpdate(errorRatio);
      }
    }

    /** Appends the pending keyframe code, if any, and counts it down. */
    method Attach(text: seq<byte>) returns (message: seq<byte>, sent: seq<byte>)
      modifies this`idrCode, this`idrRemaining
      ensures (View().idr, sent) == old(View().idr.Send())
      ensures message == text + if sent == [] then [] else [COLON] + sent
    {
      message, sent := text, [];
      if idrCode != [] && idrRemaining > 0 {
        message := message + ([COLON] + idrCode);
        sent := idrCode;
        idrRemaining := idrRemaining - 1;
        if idrRemaining == 0 { idrCode := []; }
      } else {
        assert text + [] == text;
      }
    }

    /** The score before any penalty: normalised and weighted. */
    method Grade(s: Snapshot) returns (rawScore: real)
      ensures rawScore == RawScore(config, s.bestRssi, s.bestSnr)
    {
      var snrSpan, rssiSpan := config.snrMax - config.snrMin, config.rssiMax - config.rssiMin;
      var snrNormalized, rssiNormalized := 0.0, 0.0;
      if snrSpan != 0.0 { snrNormalized := Clamp01((s.bestSnr as real - config.snrMin) / snrSpan); }
      if rssiSpan != 0.0 { rssiNormalized := Clamp01((s.bestRssi as real - config.rssiMin) / rssiSpan); }
      assert snrNormalized == Normalized(s.bestSnr as real, config.snrMin, config.snrMax);
      assert rssiNormalized == Normalized(s.bestRssi as real, config.rssiMin, config.rssiMax);
      hide Normalized;
      var scoreNormalized := config.snrWeight * snrNormalized + config.rssiWeight * rssiNormalized;
      return 1000.0 + scoreNormalized * 1000.0;
    }

    /** The final score and its penalty, by the filtered noise. */
    method Penalise(s: Snapshot, rawScore: real, noise: real) returns (finalScore: real, penalty: real)
      requires rawScore == RawScore(config, s.bestRssi, s.bestSnr)
      ensures finalScore == FinalScore(config, s.bestRssi, s.bestSnr, noise)
      ensures penalty == Penalty(config, s.bestRssi, s.bestSnr, noise)
    {
      hide RawScore;
      var deduction := 0.0;
      if noise >= config.minNoise {
        var noiseSpan, t := config.maxNoise - config.minNoise, 1.0;
        if noiseSpan != 0.0 { t := (noise - config.minNoise) / noiseSpan; }
        deduction := Min(config.power(t), 1.0);
      }
      assert deduction == Deduction(config, noise);
      hide Deduction;
      finalScore, penalty := rawScore, 0.0;
      if config.allowPenalty {
        finalScore := 1000.0 + (rawScore - 1000.0) * (1.0 - deduction);
        penalty := finalScore - rawScore;
      }
    }

    method EscalateFec(noise: real) returns (change: int)
      ensures change == FecChange(config, noise)
    {
      if !config.allowFecIncrease || noise <= config.minNoiseForFecChange { return 0; }
      if noise >= config.noiseForMaxFecChange { return 5; }
      var span, t := config.maxNoise - config.minNoiseForFecChange, 0.0;
      if span != 0.0 { t := (noise - config.minNoiseForFecChange) / span; }
      return LRound(t * 5.0);
    }
  }

  /** Ranges of what the radio reports; the code is colon-free, as letters are. */
  predicate Reportable(s: Snapshot, time: nat, code: seq<byte>) {
    && s.Usable() && time < 0x1_0000_0000_0000_0000 && COLON !in code
    && -0x8000_0000 <= s.bestRssi < 0x8000_0000 && -0x8000_0000 <= s.bestSnr < 0x8000_0000
    && -0x8000_0000 <= s.numAntennas < 0x8000_0000
  }

  lemma PenaltyInRange(c: Config, s: Snapshot, noise: real)
    requires c.Sane()
    ensures -1000 <= Trunc(Penalty(c, s.bestRssi, s.bestSnr, noise)) <= 0
  {
    ScoreLaw(c, s.bestRssi, s.bestSnr, noise, s.bestRssi, s.bestSnr, noise);
    RawScoreMonotone(c, s.bestRssi, s.bestSnr, s.bestRssi, s.bestSnr);
    DeductionMonotone(c, noise, noise);
    hide RawScore, Deduction, Penalised, Config.Sane;
    PenalisedMonotone(RawScore(c, s.bestRssi, s.bestSnr), RawScore(c, s.bestRssi, s.bestSnr),
                      Deduction(c, noise), Deduction(c, noise));
  }

  /** End to end: under a sane tuning whose FEC ramp fits, every message the controller
      writes is read back, field by field, with a score in 1000..2000, a penalty in
      -1000..0 and a FEC change in 0..5. */
  lemma MessagesReadBack(c: Config, s: Snapshot, time: nat, noise: real, code: seq<byte>)
    requires c.Sane() && RampFits(c) && Reportable(s, time, code)
    ensures var numbers := Numbers(c, s, time, noise);
            var fields := Split(MessageText(numbers, code));
            && |fields| == (if code == [] then 10 else 11)
            && (forall i :: 0 <= i < 10 ==> Parse(fields[i]) == numbers[i])
            && (code != [] ==> fields[10] == code)
            && 1000 <= numbers[1] <= 2000 && -1000 <= numbers[8] <= 0 && 0 <= numbers[9] <= 5
  {
    ScoreLaw(c, s.bestRssi, s.bestSnr, noise, s.bestRssi, s.bestSnr, noise);
    PenaltyInRange(c, s, noise);
    FitsStaysBounded(c, noise);
    hide Score, Penalty, FecChange, Trunc, Config.Sane, RampFits, Split, Parse, MessageText;
    assert Printable(Numbers(c, s, time, noise));
    MessageReadsBack(Numbers(c, s, time, noise), code);
  }
}
