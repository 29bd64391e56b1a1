// The battery monitor: charge by interpolation between five calibrated voltages, a low-battery
// flag with hysteresis, and a smoothed discharge rate.

module Battery {
  import opened Arithmetic

  const WORD: nat := 0x1_0000_0000
  const RATE_SAMPLE_MS: nat := 300_000
  const RATE_MAX: nat := 2000
  const LOW_CONFIRM: nat := 3
  const NORMAL_CONFIRM: nat := 2
  const RECOVERY_MARGIN_MV: nat := 100
  const SOURCE_LEN: nat := 12

  datatype Calibration = Calibration(points: seq<nat>, rate: nat, estimate: int)

  ghost predicate ValidCalibration(c: Calibration)
  {
    && |c.points| == 5 && 2500 <= c.points[0] && c.points[4] <= 5000 && c.rate <= RATE_MAX
    && c.estimate in {0, 1}
    && forall i :: 1 <= i < 5 ==> c.points[i - 1] < c.points[i]
  }

  // A calibration is accepted when its five voltages rise within 2.5 V to 5 V, its rate is in bounds
  // and its estimate flag is 0 or 1.
  method CalibrationValid(c: Calibration) returns (ok: bool)
    requires |c.points| == 5
    ensures ok <==> ValidCalibration(c)
  {
    if c.points[0] < 2500 || c.points[4] > 5000 || c.rate > RATE_MAX || (c.estimate != 0 && c.estimate != 1) {
      return false;
    }
    for i := 1 to 5
      invariant forall k :: 1 <= k < i ==> c.points[k - 1] < c.points[k]
    {
      if c.points[i] <= c.points[i - 1] { return false; }
    }
    ok := true;
  }

  // ---------------------------------------------------------------- percent

  function Interpolated(mv: nat, low: nat, high: nat, i: nat): nat
    requires low < high && low <= mv <= high
  {
    i * 25 + Share(mv - low, high - low)
  }

  // A part of a span in twenty-fifths, rounded.
  function Share(x: nat, span: nat): nat
    requires 0 < span
  {
    (x * 25 + span / 2) / span
  }

  // The segment a voltage inside the calibrated range lies in.
  function Segment(c: Calibration, mv: nat, from: nat): (i: nat)
    requires |c.points| == 5 && from <= 3
    requires mv <= c.points[4]
    ensures from <= i <= 3 && mv <= c.points[i + 1]
    ensures from < i ==> mv > c.points[i]
    decreases 4 - from
  {
    if mv <= c.points[from + 1] || from == 3 then from else Segment(c, mv, from + 1)
  }

  function Percent(c: Calibration, mv: nat): nat
    requires ValidCalibration(c)
  {
    if mv <= c.points[0] then 0
    else if mv >= c.points[4] then 100
    else
      var i := Segment(c, mv, 0);
      Interpolated(mv, c.points[i], c.points[i + 1], i)
  }

  method PercentForMv(c: Calibration, mv: nat) returns (percent: nat)
    requires ValidCalibration(c)
    ensures percent == Percent(c, mv)
  {
    hide Interpolated;
    if mv <= c.points[0] { return 0; }
    if mv >= c.points[4] { return 100; }
    var i := 0;
    while mv > c.points[i + 1]
      invariant i <= 3 && Segment(c, mv, i) == Segment(c, mv, 0) && mv > c.points[i]
      decreases 4 - i
    {
      i := i + 1;
    }
    percent := Interpolated(mv, c.points[i], c.points[i + 1], i);
  }

  // The result is off by at most one half.
  ghost predicate Nearest(q: int, x: int, span: int)
  {
    0 <= q <= 25 && -span <= 2 * (q * span - x * 25) <= span
  }

  lemma RoundedShare(x: nat, span: nat)
    requires 0 < span && x <= span
    ensures Nearest(Share(x, span), x, span)
  {
    var n := x * 25 + span / 2;
    var q, r := n / span, n % span;
    assert n == q * span + r;
    assert q >= 26 ==> q * span >= 26 * span;
  }

  // The percentage is the integer nearest to the straight line between the two calibrated points
  // around the voltage: at most half a percent away from it.
  lemma PercentIsNearest(c: Calibration, mv: nat)
    requires ValidCalibration(c) && c.points[0] < mv < c.points[4]
    ensures var i := Segment(c, mv, 0);
            && c.points[i] < mv <= c.points[i + 1]
            && 25 * i <= Percent(c, mv) <= 25 * (i + 1)
            && Nearest(Percent(c, mv) - 25 * i, mv - c.points[i], c.points[i + 1] - c.points[i])
  {
    hide Share;
    var i := Segment(c, mv, 0);
    RoundedShare(mv - c.points[i], c.points[i + 1] - c.points[i]);
  }

  lemma ShareGrows(x: nat, y: nat, span: nat)
    requires 0 < span && x <= y
    ensures Share(x, span) <= Share(y, span)
  {
    var a, b := x * 25 + span / 2, y * 25 + span / 2;
    var p, q := a / span, b / span;
    assert p * span <= a <= b < q * span + span;
    var gap := p - q;
    assert gap * span == p * span - q * span;
    assert gap >= 1 ==> gap * span >= span;
  }

  // More voltage never shows less charge, and the result is a percentage.
  lemma PercentIsMonotone(c: Calibration, a: nat, b: nat)
    requires ValidCalibration(c) && a <= b
    ensures Percent(c, a) <= Percent(c, b) <= 100
  {
    hide Share, Nearest, Segment, Percent, Interpolated;
    PercentAtEnds(c, a);
    PercentAtEnds(c, b);
    if c.points[0] < a && b < c.points[4] {
      PercentIsNearest(c, a);
      PercentIsNearest(c, b);
      var i, j := Segment(c, a, 0), Segment(c, b, 0);
      PointsGrow(c, j + 1, i);
      if i == j { SegmentIsMonotone(c, a, b, i); }
    }
  }

  lemma PercentAtEnds(c: Calibration, mv: nat)
    requires ValidCalibration(c)
    ensures mv <= c.points[0] ==> Percent(c, mv) == 0
    ensures mv >= c.points[4] ==> Percent(c, mv) == 100
    ensures Percent(c, mv) <= 100
  {
    hide Share, Nearest, Segment, Interpolated;
    PointsGrow(c, 0, 4);
    if c.points[0] < mv < c.points[4] { PercentIsNearest(c, mv); }
  }

  lemma SegmentIsMonotone(c: Calibration, a: nat, b: nat, i: nat)
    requires ValidCalibration(c) && i < 4 && c.points[i] < a <= b <= c.points[i + 1]
    requires c.points[0] < a && b < c.points[4] && Segment(c, a, 0) == Segment(c, b, 0) == i
    ensures Percent(c, a) <= Percent(c, b)
  {
    hide Share, Segment;
    ShareGrows(a - c.points[i], b - c.points[i], c.points[i + 1] - c.points[i]);
  }

  lemma PointsGrow(c: Calibration, i: nat, j: nat)
    requires ValidCalibration(c) && i < 5 && j < 5
    ensures i <= j ==> c.points[i] <= c.points[j]
    ensures i < j ==> c.points[i] < c.points[j]
  {
    assert c.points[0] < c.points[1] && c.points[1] < c.points[2] && c.points[2] < c.points[3] && c.points[3] < c.points[4];
  }

  // ---------------------------------------------------------------- the low flag

  datatype Low = Low(on: bool, lowSamples: nat, normalSamples: nat)

  predicate LowSample(c: Calibration, mv: nat) requires |c.points| == 5 { mv <= c.points[1] }

  predicate Recovered(c: Calibration, mv: nat) requires |c.points| == 5 { mv >= c.points[1] + RECOVERY_MARGIN_MV }

  function LowStep(c: Calibration, s: Low, mv: nat): Low
    requires |c.points| == 5
  {
    if s.on then
      if !Recovered(c, mv) then s.(normalSamples := 0)
      else
        var n := Min(s.normalSamples + 1, if s.normalSamples < NORMAL_CONFIRM then NORMAL_CONFIRM else s.normalSamples);
        Low(n < NORMAL_CONFIRM, 0, n)
    else if LowSample(c, mv) then
      var n := Min(s.lowSamples + 1, if s.lowSamples < LOW_CONFIRM then LOW_CONFIRM else s.lowSamples);
      Low(n >= LOW_CONFIRM, n, 0)
    else Low(false, 0, 0)
  }

  function LowAfter(c: Calibration, samples: seq<nat>): Low
    requires |c.points| == 5
  {
    if samples == [] then Low(false, 0, 0)
    else LowStep(c, LowAfter(c, samples[..|samples| - 1]), samples[|samples| - 1])
  }

  // While the flag is off the counter is the number of low samples in a row; while it is on, the
  // other counter says whether the last sample had recovered.
  ghost predicate Counted(c: Calibration, samples: seq<nat>, s: Low)
    requires |c.points| == 5
  {
    var n := |samples|;
    if s.on then
      n >= 3 && s.normalSamples == if Recovered(c, samples[n - 1]) then 1 else 0
    else
      && s.lowSamples <= 2 && s.lowSamples <= n
      && (forall i :: n - s.lowSamples <= i < n ==> LowSample(c, samples[i]))
      && (s.lowSamples < 2 && s.lowSamples < n ==> !LowSample(c, samples[n - s.lowSamples - 1]))
  }

  lemma {:induction false} SamplesAreCounted(c: Calibration, samples: seq<nat>)
    requires |c.points| == 5
    ensures Counted(c, samples, LowAfter(c, samples))
  {
    if samples != [] {
      var before := samples[..|samples| - 1];
      SamplesAreCounted(c, before);
      assert forall i :: 0 <= i < |before| ==> before[i] == samples[i];
    }
  }

  // The flag goes on with the third low sample in a row and off with the second recovered one in
  // a row, exactly then, in every run with one calibration.
  lemma LowFlagIff(c: Calibration, samples: seq<nat>)
    requires |c.points| == 5 && samples != []
    ensures var n := |samples|; var was := LowAfter(c, samples[..n - 1]).on;
            LowAfter(c, samples).on <==>
              if was then !(n >= 2 && Recovered(c, samples[n - 1]) && Recovered(c, samples[n - 2]))
              else n >= 3 && LowSample(c, samples[n - 1]) && LowSample(c, samples[n - 2]) && LowSample(c, samples[n - 3])
  {
    var n := |samples|;
    var before := samples[..n - 1];
    SamplesAreCounted(c, before);
    assert forall i :: 0 <= i < |before| ==> before[i] == samples[i];
    var s := LowAfter(c, before);
    if !s.on {
      if s.lowSamples == 2 {
        assert LowSample(c, before[n - 2]) && LowSample(c, before[n - 3]);
      }
    }
  }

  // ---------------------------------------------------------------- the discharge rate

  datatype Rate = Rate(mvPerHour: nat, sampleMv: nat, sampleMs: nat)

  function NonZero(ms: nat): nat { if ms != 0 then ms else 1 }

  function Smoothed(previous: nat, measured: nat): nat
  {
    if previous != 0 then (previous * 3 + measured + 2) / 4 else measured
  }

  // The clock is 32 bits wide and may have wrapped since the last sample.
  function RateStep(c: Calibration, s: Rate, mv: nat, now: nat): Rate
    requires now < WORD
  {
    if s.sampleMs == 0 then Rate(s.mvPerHour, mv, NonZero(now))
    else
      var elapsed := (now - s.sampleMs) % WORD;
      if elapsed < RATE_SAMPLE_MS then s
      else
        var measured := if c.estimate != 0 && s.sampleMv > mv then (s.sampleMv - mv) * 3600000 / elapsed else 0;
        Rate(if 0 < measured <= RATE_MAX then Smoothed(s.mvPerHour, measured) else s.mvPerHour, mv, NonZero(now))
  }

  // A monitor without a rate starts from the calibrated one, and shows that one when it does not
  // estimate.
  function Seeded(c: Calibration, s: Rate): Rate { if s.mvPerHour == 0 then s.(mvPerHour := c.rate) else s }

  function Settled(c: Calibration, s: Rate): Rate { if c.estimate != 0 then s else s.(mvPerHour := c.rate) }

  // Time left at a rate; the product is 32 bits wide.
  function Minutes(c: Calibration, mvPerHour: nat, mv: nat): nat
    requires |c.points| == 5
  {
    if mvPerHour == 0 || mv <= c.points[0] then 0 else (mv - c.points[0]) * 60 % WORD / mvPerHour
  }

  // While the product fits, the whole minutes until the voltage above empty is used up at the rate;
  // none without a rate or at empty.
  lemma MinutesUntilEmpty(c: Calibration, mvPerHour: nat, mv: nat)
    requires |c.points| == 5 && 0 < mvPerHour && (mv - c.points[0]) * 60 < WORD
    ensures var used := Minutes(c, mvPerHour, mv) * mvPerHour;
            var left := if c.points[0] < mv then mv - c.points[0] else 0;
            used <= left * 60 < used + mvPerHour
    ensures Minutes(c, 0, mv) == 0
  {
    if c.points[0] < mv {
      var product := (mv - c.points[0]) * 60;
      assert product % WORD == product;
      assert product == product / mvPerHour * mvPerHour + product % mvPerHour;
    }
  }

  lemma SmoothedBetween(previous: nat, measured: nat)
    requires previous != 0
    ensures Smoothed(previous, measured) <= if previous >= measured then previous else measured
    ensures Smoothed(previous, measured) >= if previous <= measured then previous else measured
  {
  }

  // The new rate is the drop since the last sample for each hour that passed, rounded down, unless
  // that is nothing or more than 2000; a quarter of it, to the nearest, enters a rate there was.
  lemma RateIsMeasured(c: Calibration, s: Rate, mv: nat, now: nat, elapsed: nat) returns (measured: nat)
    requires now < WORD && s.sampleMs != 0 && c.estimate != 0
    requires elapsed == (now - s.sampleMs) % WORD && 5 * 60 * 1000 <= elapsed
    ensures var drop := if mv < s.sampleMv then s.sampleMv - mv else 0;
            measured * elapsed <= drop * 3600000 < measured * elapsed + elapsed
    ensures var rate := RateStep(c, s, mv, now).mvPerHour;
            if measured == 0 || measured > 2000 then rate == s.mvPerHour
            else if s.mvPerHour == 0 then rate == measured
            else 4 * rate <= 3 * s.mvPerHour + measured + 2 < 4 * rate + 4
  {
    var drop := if mv < s.sampleMv then s.sampleMv - mv else 0;
    measured := Quotient(drop * 3600000, elapsed);
    SmoothedIsNearest(s.mvPerHour, measured);
    hide Smoothed;
  }

  lemma Quotient(a: nat, d: nat) returns (q: nat)
    requires 0 < d
    ensures q == a / d && q * d <= a < q * d + d
  {
    q := a / d;
  }

  lemma SmoothedIsNearest(previous: nat, measured: nat)
    ensures if previous == 0 then Smoothed(previous, measured) == measured
            else 4 * Smoothed(previous, measured) <= 3 * previous + measured + 2 < 4 * Smoothed(previous, measured) + 4
  {
  }

  // ---------------------------------------------------------------- the monitor

  lemma LowNext(c: Calibration, samples: seq<nat>, mv: nat)
    requires ValidCalibration(c)
    ensures |c.points| == 5 && LowAfter(c, samples + [mv]) == LowStep(c, LowAfter(c, samples), mv)
  {
    assert (samples + [mv])[..|samples|] == samples;
  }

  lemma RateIsBounded(c: Calibration, s: Rate)
    requires ValidCalibration(c) && s.mvPerHour <= RATE_MAX
    ensures Seeded(c, s).mvPerHour <= RATE_MAX && Settled(c, s).mvPerHour <= RATE_MAX
  {
  }

  lemma BarsAre(percent: nat)
    requires percent <= 100
    ensures (if percent >= 100 then 4 else percent / 25) == percent / 25 <= 4
  {}

  class Monitor {
    const calibration: Calibration
    var available: int
    var raw: nat
    var millivolts: nat
    var percent: nat
    var bars: nat
    var rate: Rate
    var minutes: nat
    var low: Low
    var source: string
    // Every voltage applied so far.
    ghost var samples: seq<nat>

    ghost predicate Valid()
      reads this
    {
      && ValidCalibration(calibration)
      && percent <= 100 && bars <= 4
      && rate.mvPerHour <= RATE_MAX
      && low == LowAfter(calibration, samples)
      && (available == 1 ==> Displayed())
    }

    // The display follows the last sample.
    ghost predicate Displayed()
      requires ValidCalibration(calibration)
      reads this
    {
      && samples != [] && millivolts == samples[|samples| - 1]
      && percent == Percent(calibration, millivolts) && bars == percent / 25
    }

    constructor (c: Calibration)
      requires ValidCalibration(c)
      ensures Valid() && calibration == c && samples == [] && available == -1
    {
      calibration := c;
      available, raw, millivolts, percent, bars, minutes := -1, 0, 0, 0, 0, 0;
      rate := Rate(c.rate, 0, 0);
      low := Low(false, 0, 0);
      source := "?";
      samples := [];
    }

    // changed says whether anything the display shows differs from before.
    method ApplySample(sampleRaw: nat, mv: nat, from: string, now: nat) returns (changed: bool)
      requires Valid() && now < WORD
      modifies this
      ensures Valid() && available == 1 && samples == old(samples) + [mv]
      ensures raw == sampleRaw && source == from[..Min(|from|, SOURCE_LEN - 1)]
      ensures rate == Settled(calibration, RateStep(calibration, Seeded(calibration, old(rate)), mv, now))
      ensures minutes == Minutes(calibration, rate.mvPerHour, mv)
      ensures changed <==> old(available) != 1 || raw != old(raw) || percent != old(percent) || bars != old(bars)
                           || low.on != old(low.on) || old(source) != from
    {
      hide Percent, LowStep, LowAfter, RateStep, Minutes, ValidCalibration, Seeded, Settled;
      ghost var more := samples + [mv];
      LowNext(calibration, samples, mv);
      assert more[|more| - 1] == mv;
      RateIsBounded(calibration, rate);
      PercentIsMonotone(calibration, mv, mv);
      var newPercent := PercentForMv(calibration, mv);
      var newBars := if newPercent >= 100 then 4 else newPercent / 25;
      BarsAre(newPercent);
      var next := UpdateLow(mv);
      changed := available != 1 || raw != sampleRaw || percent != newPercent || bars != newBars
                 || low.on != next.on || source != from;
      rate := Seeded(calibration, rate);
      UpdateRate(mv, now);
      RateIsBounded(calibration, rate);
      rate := Settled(calibration, rate);
      minutes := Minutes(calibration, rate.mvPerHour, mv);
      available, raw, millivolts, percent, bars := 1, sampleRaw, mv, newPercent, newBars;
      samples := more;
      low := next;
      source := from[..Min(|from|, SOURCE_LEN - 1)];
    }

    method UpdateLow(mv: nat) returns (next: Low)
      requires Valid()
      ensures next == LowStep(calibration, low, mv)
    {
      next := low;
      if low.on {
        if mv < calibration.points[1] + RECOVERY_MARGIN_MV {
          next := next.(normalSamples := 0);
        } else {
          next := next.(lowSamples := 0);
          if next.normalSamples < NORMAL_CONFIRM { next := next.(normalSamples := next.normalSamples + 1); }
          next := next.(on := next.normalSamples < NORMAL_CONFIRM);
        }
      } else if mv <= calibration.points[1] {
        next := next.(normalSamples := 0);
        if next.lowSamples < LOW_CONFIRM { next := next.(lowSamples := next.lowSamples + 1); }
        next := next.(on := next.lowSamples >= LOW_CONFIRM);
      } else {
        next := Low(false, 0, 0);
      }
    }

    method UpdateRate(mv: nat, now: nat)
      requires now < WORD && ValidCalibration(calibration) && rate.mvPerHour <= RATE_MAX
      modifies `rate
      ensures rate == RateStep(calibration, old(rate), mv, now) && rate.mvPerHour <= RATE_MAX
    {
      if rate.sampleMs == 0 {
        rate := rate.(sampleMs := NonZero(now), sampleMv := mv);
        return;
      }
      var elapsed := (now - rate.sampleMs) % WORD;
      if elapsed < RATE_SAMPLE_MS { return; }
      if calibration.estimate != 0 && rate.sampleMv > mv {
        var measured := (rate.sampleMv - mv) * 3600000 / elapsed;
        if 0 < measured <= RATE_MAX {
          if rate.mvPerHour != 0 { SmoothedBetween(rate.mvPerHour, measured); }
          rate := rate.(mvPerHour := if rate.mvPerHour != 0 then (rate.mvPerHour * 3 + measured + 2) / 4 else measured);
        }
      }
      rate := rate.(sampleMs := NonZero(now), sampleMv := mv);
    }
  }
}
