/** The Kalman filter of the adaptive link, over the reals. */
module AlinkFilters {

  /** A positive product of positives: the only nonlinear facts the proofs need. */
  lemma ProductPositive(a: real, b: real)
    requires a > 0.0 && b > 0.0
    ensures a * b > 0.0
  {
  }

  lemma ProductNonNegative(a: real, b: real)
    requires a >= 0.0 && b >= 0.0
    ensures a * b >= 0.0
  {
  }

  lemma ProductMonotone(a: real, b: real, c: real)
    requires a <= b && c >= 0.0
    ensures a * c <= b * c
  {
  }

  lemma ProductStrict(a: real, b: real, c: real)
    requires a < b && c > 0.0
    ensures a * c < b * c
  {
    ProductPositive(b - a, c);
  }

  lemma ProductReflects(a: real, b: real, c: real, ac: real, bc: real)
    requires c > 0.0 && ac == a * c && bc == b * c && ac < bc
    ensures a < b
  {
    if a >= b { ProductMonotone(b, a, c); }
  }

  /** A share of something that is at most one. */
  lemma Share(w: real, a: real, b: real)
    requires w >= 0.0 && 0.0 <= a <= b <= 1.0
    ensures 0.0 <= w * a <= w * b <= w
  {
    ProductNonNegative(w, a);
    ProductMonotone(a, b, w);
    ProductMonotone(b, 1.0, w);
  }

  lemma ProperFraction(a: real, b: real)
    requires 0.0 < a < b
    ensures 0.0 < a / b < 1.0
  {
    var q := a / b;
    assert q * b == a;
    if q >= 1.0 { ProductMonotone(1.0, q, b); }
    if q <= 0.0 { ProductMonotone(q, 0.0, b); }
  }

  function Abs(x: real): real {
    if x < 0.0 then -x else x
  }

  datatype Noise = Noise(process: real, measurement: real)
  {
    /** What makes the filter a filter: some measurement noise, no negative process noise. */
    predicate Proper() {
      process >= 0.0 && measurement > 0.0
    }
  }

  datatype Kalman = Kalman(estimate: real, error: real)
  {
    function Gain(n: Noise): real
      requires error + n.process + n.measurement != 0.0
    {
      (error + n.process) / (error + n.process + n.measurement)
    }

    function Update(n: Noise, m: real): Kalman
      requires error + n.process + n.measurement != 0.0
    {
      Kalman(estimate + Gain(n) * (m - estimate), (1.0 - Gain(n)) * (error + n.process))
    }
  }

  lemma KeptError(gain: real, p: real, r: real)
    requires gain * (p + r) == p
    ensures (1.0 - gain) * p == r * gain
  {
  }

  lemma UpdateError(k: Kalman, n: Noise, m: real)
    requires n.Proper() && k.error > 0.0
    ensures k.Update(n, m).error == n.measurement * k.Gain(n)
    ensures 0.0 < k.Gain(n) < 1.0
  {
    var p, r := k.error + n.process, n.measurement;
    ProperFraction(p, p + r);
    assert k.Gain(n) * (p + r) == p;
    KeptError(k.Gain(n), p, r);
    assert k.Update(n, m).error == (1.0 - k.Gain(n)) * p;
  }

  lemma ErrorBelow(r: real, g: real, e: real)
    requires r > 0.0 && 0.0 < g < 1.0 && e == r * g
    ensures e < r
  {
    ProductPositive(r, 1.0 - g);
    assert r * (1.0 - g) == r - e;
  }

  /** The gain lies strictly between 0 and 1, and the error after an update below
      the measurement variance. */
  lemma UpdateBounds(k: Kalman, n: Noise, m: real)
    requires n.Proper() && k.error > 0.0
    ensures 0.0 < k.Gain(n) < 1.0
    ensures 0.0 < k.Update(n, m).error < n.measurement
    ensures k.Update(n, m).error == n.measurement * k.Gain(n)
  {
    hide Kalman.Update, Kalman.Gain;
    UpdateError(k, n, m);
    var r, g, e := n.measurement, k.Gain(n), k.Update(n, m).error;
    assert 0.0 < e by { ProductPositive(r, g); }
    assert e < r by { ErrorBelow(r, g, e); }
  }

  function Run(k: Kalman, n: Noise, measurements: seq<real>): Kalman
    requires n.Proper() && k.error > 0.0
    decreases |measurements|
  {
    if measurements == [] then k else
    UpdateBounds(k, n, measurements[0]);
    Run(k.Update(n, measurements[0]), n, measurements[1..])
  }

  lemma Mixes(g: real, x: real, m: real, lo: real, hi: real)
    requires 0.0 <= g <= 1.0 && lo <= x <= hi && lo <= m <= hi
    ensures lo <= x + g * (m - x) <= hi
  {
    ProductNonNegative(x - lo, 1.0 - g);
    ProductNonNegative(m - lo, g);
    assert x + g * (m - x) - lo == (x - lo) * (1.0 - g) + (m - lo) * g;
    ProductNonNegative(hi - x, 1.0 - g);
    ProductNonNegative(hi - m, g);
    assert hi - (x + g * (m - x)) == (hi - x) * (1.0 - g) + (hi - m) * g;
  }

  /** Every update moves the estimate towards the measurement and never past it. */
  lemma UpdateStaysBetween(k: Kalman, n: Noise, m: real, lo: real, hi: real)
    requires n.Proper() && k.error > 0.0 && lo <= k.estimate <= hi && lo <= m <= hi
    ensures lo <= k.Update(n, m).estimate <= hi
  {
    UpdateBounds(k, n, m);
    var g, x := k.Gain(n), k.estimate;
    Mixes(g, x, m, lo, hi);
    assert k.Update(n, m).estimate == x + g * (m - x);
  }

  /** Over any run the error stays in (0, R) after the first update, and the estimate
      stays within the hull of its initial value and all measurements. */
  lemma {:induction false} RunStaysInHull(k: Kalman, n: Noise, measurements: seq<real>, lo: real, hi: real)
    requires n.Proper() && k.error > 0.0 && lo <= k.estimate <= hi
    requires forall i :: 0 <= i < |measurements| ==> lo <= measurements[i] <= hi
    ensures var t := Run(k, n, measurements);
            && lo <= t.estimate <= hi
            && t.error > 0.0 && (measurements != [] ==> t.error < n.measurement)
    decreases |measurements|
  {
    if measurements != [] {
      UpdateBounds(k, n, measurements[0]);
      UpdateStaysBetween(k, n, measurements[0], lo, hi);
      hide Kalman.Update;
      RunStaysInHull(k.Update(n, measurements[0]), n, measurements[1..], lo, hi);
    }
  }

  lemma {:induction false} RunMore(k: Kalman, n: Noise, measurements: seq<real>, more: seq<real>)
    requires n.Proper() && k.error > 0.0
    ensures Run(k, n, measurements).error > 0.0
    ensures Run(k, n, measurements + more) == Run(Run(k, n, measurements), n, more)
    decreases |measurements|
  {
    hide Kalman.Update;
    if measurements == [] {
      assert measurements + more == more;
    } else {
      var m := measurements[0];
      UpdateBounds(k, n, m);
      assert (measurements + more)[0] == m && (measurements + more)[1..] == measurements[1..] + more;
      RunMore(k.Update(n, m), n, measurements[1..], more);
    }
  }

  // Convergence under a constant measurement.

  function Repeat(k: Kalman, n: Noise, m: real, times: nat): (t: Kalman)
    requires n.Proper() && k.error > 0.0
    ensures t.error > 0.0
  {
    if times == 0 then k else
    var before := Repeat(k, n, m, times - 1);
    UpdateBounds(before, n, m);
    before.Update(n, m)
  }

  function Power(x: real, n: nat): real {
    if n == 0 then 1.0 else x * Power(x, n - 1)
  }

  function Rate(n: Noise): real
    requires n.Proper()
  {
    n.measurement / (n.process + n.measurement)
  }

  /** One update shrinks the distance to the measurement by at least R / (Q + R). */
  lemma UpdateApproaches(k: Kalman, n: Noise, m: real)
    requires n.Proper() && k.error > 0.0
    ensures Abs(k.Update(n, m).estimate - m) == (1.0 - k.Gain(n)) * Abs(k.estimate - m)
    ensures 0.0 < 1.0 - k.Gain(n) <= Rate(n)
  {
    hide Kalman.Update, Kalman.Gain, Rate, Abs;
    UpdateBounds(k, n, m);
    KeepsRate(k, n);
    NextEstimate(k, n, m);
    Approaches(k.Gain(n), k.estimate, m, k.Update(n, m).estimate);
    ScalesAbs(1.0 - k.Gain(n), k.estimate - m, k.Update(n, m).estimate - m);
  }

  lemma NextEstimate(k: Kalman, n: Noise, m: real)
    requires k.error + n.process + n.measurement != 0.0
    ensures k.Update(n, m).estimate == k.estimate + k.Gain(n) * (m - k.estimate)
  {
  }

  lemma KeepsRate(k: Kalman, n: Noise)
    requires n.Proper() && k.error > 0.0
    ensures 1.0 - k.Gain(n) <= Rate(n)
  {
    KeptFractionBelow(k.error, n.process, n.measurement);
  }

  lemma Approaches(g: real, x: real, m: real, t: real)
    requires t == x + g * (m - x)
    ensures t - m == (1.0 - g) * (x - m)
  {
  }

  lemma ScalesAbs(c: real, x: real, y: real)
    requires c > 0.0 && y == c * x
    ensures Abs(y) == c * Abs(x)
  {
    if x < 0.0 {
      ProductPositive(c, -x);
    } else if x > 0.0 {
      ProductPositive(c, x);
    }
  }

  lemma KeptFractionBelow(e: real, q: real, r: real)
    requires e > 0.0 && q >= 0.0 && r > 0.0
    ensures 1.0 - (e + q) / (e + q + r) <= r / (q + r)
  {
    var keep, rate := 1.0 - (e + q) / (e + q + r), r / (q + r);
    ProperFraction(e + q, e + q + r);
    assert keep * (e + q + r) == r && rate * (q + r) == r;
    ProductPositive(keep, e);
    assert keep * (q + r) < r;
    if keep > rate {
      ProductMonotone(rate, keep, q + r);
      assert false;
    }
  }

  /** Kalman convergence: under a constant measurement the distance falls at least
      geometrically, with rate R / (Q + R). */
  lemma {:induction false} Converges(k: Kalman, n: Noise, m: real, times: nat)
    requires n.Proper() && k.error > 0.0
    ensures Abs(Repeat(k, n, m, times).estimate - m) <= Power(Rate(n), times) * Abs(k.estimate - m)
  {
    hide Kalman.Update, Kalman.Gain, Rate, Abs;
    if times > 0 {
      var before := Repeat(k, n, m, times - 1);
      Converges(k, n, m, times - 1);
      UpdateApproaches(before, n, m);
      AbsNonNegative(before.estimate - m);
      Chains(1.0 - before.Gain(n), Rate(n), Abs(before.estimate - m), Power(Rate(n), times - 1), Abs(k.estimate - m));
    }
  }

  lemma Chains(keep: real, rate: real, d: real, power: real, start: real)
    requires 0.0 <= keep <= rate && 0.0 <= d <= power * start
    ensures keep * d <= rate * power * start
  {
    ProductMonotone(keep, rate, d);
    ProductMonotone(d, power * start, rate);
  }

  lemma AbsNonNegative(x: real)
    ensures Abs(x) >= 0.0
  {
  }

  /** Without process noise the bound says nothing, for its rate is 1; the distance
      then falls harmonically, by exactly R / (R + times * initial error). */
  lemma {:induction false} ConvergesHarmonically(k: Kalman, n: Noise, m: real, times: nat)
    requires n.Proper() && n.process == 0.0 && k.error > 0.0
    ensures var t := Repeat(k, n, m, times);
            var scale := n.measurement + times as real * k.error;
            && scale > 0.0
            && t.error * scale == n.measurement * k.error
            && (t.estimate - m) * scale == (k.estimate - m) * n.measurement
  {
    var r, e := n.measurement, k.error;
    hide Kalman.Update;
    if times > 0 {
      var before := Repeat(k, n, m, times - 1);
      ConvergesHarmonically(k, n, m, times - 1);
      HarmonicStep(before, n, m, r + (times - 1) as real * e, e, k.estimate - m);
      assert times as real * e == (times - 1) as real * e + e;
    }
  }

  lemma HarmonicStep(k: Kalman, n: Noise, m: real, scale: real, e: real, d: real)
    requires n.Proper() && n.process == 0.0 && k.error > 0.0 && scale > 0.0 && e > 0.0
    requires k.error * scale == n.measurement * e && (k.estimate - m) * scale == d * n.measurement
    ensures var t := k.Update(n, m);
            t.error * (scale + e) == n.measurement * e && (t.estimate - m) * (scale + e) == d * n.measurement
  {
    UpdateBounds(k, n, m);
    var r, g := n.measurement, k.Gain(n);
    var keep := 1.0 - g;
    assert keep * (k.error + r) == r;
    // (error + r) * scale == r * (e + scale), so keep * (scale + e) == scale
    assert (k.error + r) * scale == r * (scale + e);
    assert keep * (scale + e) * r == scale * r by {
      assert keep * ((k.error + r) * scale) == r * scale;
    }
    assert keep * (scale + e) == scale;
    var t := k.Update(n, m);
    assert t.error == keep * k.error && t.estimate - m == keep * (k.estimate - m);
    assert t.error * (scale + e) == k.error * (keep * (scale + e));
    assert (t.estimate - m) * (scale + e) == (k.estimate - m) * (keep * (scale + e));
  }
}
