/** The two controllers of CpuMonitor::start that turn load and simulator delay into a TDF. */
module Controllers {
  import opened Arith

  /** The tunables of Configuration.cpp that the controllers use. The exponent is a natural number. */
  datatype Config = Config(
    changeSlope: real, nonlinearFactor: nat, alpha: real, targetLoad: real,
    tdfMin: real, tdfMax: real,
    isLoadMonitored: bool, monitorMode: int, targetDelay: nat, tdfSimGain: real)
  {
    /** No division by zero: the load is compared with a target, and so is the delay. */
    predicate Defined() {
      targetLoad != 0.0 && targetDelay != 0
    }

    /** Values that make sense. */
    predicate Sane() {
      && 0.0 <= changeSlope && 0.0 < alpha <= 1.0 && 0.0 < targetLoad <= 1.0
      && tdfMin <= tdfMax && 0 < targetDelay && 0.0 < tdfSimGain
    }
  }

  function Clamp(x: real, lo: real, hi: real): (y: real)
    ensures lo <= hi ==> lo <= y <= hi
    ensures lo <= x <= hi ==> y == x
  {
    if x < lo then lo else if x > hi then hi else x
  }

  function Sign(t: real): real {
    if t == 0.0 then 0.0 else if t < 0.0 then -1.0 else 1.0
  }

  // ---- The load controller ----

  /** How far the averaged idle ratio is from its target, relative to the target load. */
  function LoadError(cfg: Config, avgIdle: real): real
    requires cfg.Defined()
  {
    var targIdle := 1.0 - cfg.targetLoad;
    (avgIdle - targIdle) / (1.0 - targIdle)
  }

  function LoadMove(cfg: Config, e: real): real {
    cfg.changeSlope * Pow(2.0, cfg.nonlinearFactor) * Sign(e) * Pow(Abs(e), cfg.nonlinearFactor)
  }

  function LoadStep(cfg: Config, tdfLoad: real, avgIdle: real): real
    requires cfg.Defined()
  {
    Clamp(tdfLoad - LoadMove(cfg, LoadError(cfg, avgIdle)), cfg.tdfMin, cfg.tdfMax)
  }

  lemma LoadErrorSign(cfg: Config, avgIdle: real)
    requires cfg.Sane()
    ensures avgIdle <= 1.0 - cfg.targetLoad <==> LoadError(cfg, avgIdle) <= 0.0
    ensures avgIdle >= 1.0 - cfg.targetLoad <==> LoadError(cfg, avgIdle) >= 0.0
  {
    var e := LoadError(cfg, avgIdle);
    assert e * cfg.targetLoad == avgIdle - (1.0 - cfg.targetLoad);
    if e > 0.0 {
      assert e * cfg.targetLoad > 0.0;
    } else if e < 0.0 {
      assert (-e) * cfg.targetLoad > 0.0;
    }
  }

  function Amplified(slope: real, b: real, n: nat): real {
    slope * Pow(b, n)
  }

  /** With a base in [0, 1] the power does not exceed the slope; with a larger base it does, unless
      the slope or the exponent is zero. */
  lemma AmplifiedBound(slope: real, b: real, n: nat)
    requires 0.0 <= slope && 0.0 <= b
    ensures 0.0 <= Amplified(slope, b, n)
    ensures b <= 1.0 ==> Amplified(slope, b, n) <= slope
    ensures 0.0 < slope && 0 < n && 1.0 < b ==> slope < Amplified(slope, b, n)
  {
    PowNonNegative(b, n);
    if 0 < n {
      PowAtMostOne(b, n);
    }
    ScaledByPower(slope, Pow(b, n));
  }

  /** The size of the move: changeSlope * (2|e|)^n. */
  function MoveSize(cfg: Config, e: real): real {
    Amplified(cfg.changeSlope, 2.0 * Abs(e), cfg.nonlinearFactor)
  }

  /** The factor 2^n moves into the power, and the sign of the error gives the direction. */
  lemma LoadMoveIsScaledPower(cfg: Config, e: real)
    ensures LoadMove(cfg, e) == if e == 0.0 then 0.0 else if e < 0.0 then -MoveSize(cfg, e) else MoveSize(cfg, e)
  {
    PowProduct(2.0, Abs(e), cfg.nonlinearFactor);
    var p, q := Pow(2.0, cfg.nonlinearFactor), Pow(Abs(e), cfg.nonlinearFactor);
    assert cfg.changeSlope * p * Sign(e) * q == Sign(e) * (cfg.changeSlope * (p * q));
  }

  /** A move is at most changeSlope if the error is at most one half; and, unless the controller
      is degenerate, only then. */
  lemma MoveSizeBound(cfg: Config, e: real)
    requires 0.0 <= cfg.changeSlope
    ensures 0.0 <= MoveSize(cfg, e)
    ensures Abs(e) <= 0.5 ==> MoveSize(cfg, e) <= cfg.changeSlope
    ensures 0.0 < cfg.changeSlope && 0 < cfg.nonlinearFactor && 0.5 < Abs(e) ==> cfg.changeSlope < MoveSize(cfg, e)
  {
    AmplifiedBound(cfg.changeSlope, 2.0 * Abs(e), cfg.nonlinearFactor);
  }

  /** The controller pushes the right way and stays within its limits: the TDF never falls while
      the averaged idle ratio is at or below its target, and never rises while it is at or above. */
  lemma LoadStepDirection(cfg: Config, tdfLoad: real, avgIdle: real)
    requires cfg.Sane() && cfg.tdfMin <= tdfLoad <= cfg.tdfMax
    ensures cfg.tdfMin <= LoadStep(cfg, tdfLoad, avgIdle) <= cfg.tdfMax
    ensures avgIdle <= 1.0 - cfg.targetLoad ==> tdfLoad <= LoadStep(cfg, tdfLoad, avgIdle)
    ensures avgIdle >= 1.0 - cfg.targetLoad ==> LoadStep(cfg, tdfLoad, avgIdle) <= tdfLoad
  {
    LoadErrorSign(cfg, avgIdle);
    LoadMoveIsScaledPower(cfg, LoadError(cfg, avgIdle));
    MoveSizeBound(cfg, LoadError(cfg, avgIdle));
  }

  /** A step, with the error and the size of the move written out. */
  lemma LoadStepMoves(cfg: Config, tdfLoad: real, avgIdle: real, e: real, size: real)
    requires cfg.Sane() && e * cfg.targetLoad == avgIdle - (1.0 - cfg.targetLoad)
    requires size == cfg.changeSlope * Pow(2.0 * Abs(e), cfg.nonlinearFactor)
    ensures LoadStep(cfg, tdfLoad, avgIdle) ==
            Clamp(tdfLoad + (if e < 0.0 then size else if 0.0 < e then -size else 0.0), cfg.tdfMin, cfg.tdfMax)
  {
    ErrorFromProduct(e, cfg.targetLoad, avgIdle - (1.0 - cfg.targetLoad));
    assert LoadError(cfg, avgIdle) == e;
    LoadMoveIsScaledPower(cfg, e);
  }

  lemma ErrorFromProduct(e: real, load: real, distance: real)
    requires 0.0 < load && e * load == distance
    ensures distance / load == e
  {
  }

  /** One step moves the TDF by at most changeSlope whenever the error is at most one half. */
  lemma LoadStepIsSmall(cfg: Config, tdfLoad: real, avgIdle: real)
    requires cfg.Sane() && cfg.tdfMin <= tdfLoad <= cfg.tdfMax
    requires Abs(LoadError(cfg, avgIdle)) <= 0.5
    ensures Abs(LoadStep(cfg, tdfLoad, avgIdle) - tdfLoad) <= cfg.changeSlope
  {
    LoadMoveIsScaledPower(cfg, LoadError(cfg, avgIdle));
    MoveSizeBound(cfg, LoadError(cfg, avgIdle));
  }

  /** One half is exactly where that ends for the move before clamping. */
  lemma LoadMoveWithinSlope(cfg: Config, e: real)
    requires 0.0 < cfg.changeSlope && 0 < cfg.nonlinearFactor
    ensures Abs(LoadMove(cfg, e)) <= cfg.changeSlope <==> Abs(e) <= 0.5
  {
    LoadMoveIsScaledPower(cfg, e);
    MoveSizeBound(cfg, e);
  }

  // ---- The moving average of the simulator's delay ----

  /** One update of avgSimStateOverheadDelay, an int64_t that truncates the floating average. */
  function DelayAverage(alpha: real, avg: int, x: int): int {
    Trunc(Average(alpha, avg as real, x as real))
  }

  function DelayAverages(alpha: real, avg: int, x: int, k: nat): int {
    if k == 0 then avg else DelayAverage(alpha, DelayAverages(alpha, avg, x, k - 1), x)
  }

  /** How far the exact average moves toward the input. */
  function Pull(alpha: real, avg: int, x: int): real {
    alpha * (x - avg) as real
  }

  /** The next update stands still: the gap below the input is less than 1/alpha. */
  predicate Still(alpha: real, avg: int, x: int) {
    Pull(alpha, avg, x) < 1.0
  }

  lemma DelayAverageIsPulled(alpha: real, avg: int, x: int)
    ensures DelayAverage(alpha, avg, x) == Trunc(avg as real + Pull(alpha, avg, x))
  {
    Blend(alpha, avg as real, x as real, (x - avg) as real);
  }

  lemma PullIsFraction(alpha: real, avg: int, x: int)
    requires 0.0 < alpha <= 1.0
    ensures avg <= x ==> 0.0 <= Pull(alpha, avg, x) <= (x - avg) as real
    ensures x < avg ==> (x - avg) as real <= Pull(alpha, avg, x) < 0.0
  {
    Fraction(alpha, (x - avg) as real);
  }

  lemma TruncOfMoved(n: nat, m: nat, t: real)
    ensures n <= m && 0.0 <= t <= (m - n) as real ==> n <= Trunc(n as real + t) <= m
    ensures n <= m && 0.0 <= t <= (m - n) as real ==> (Trunc(n as real + t) == n <==> t < 1.0)
    ensures m < n && (m - n) as real <= t < 0.0 ==> m <= Trunc(n as real + t) < n
  {
  }

  /** One update under input `x`: from above strictly down but not past `x`; from below upward
      but not past `x`, strictly so exactly while the gap is at least 1/alpha. */
  lemma DelayAverageMoves(alpha: real, avg: nat, x: nat)
    requires 0.0 < alpha <= 1.0
    ensures x < avg ==> x <= DelayAverage(alpha, avg, x) < avg
    ensures avg <= x ==> avg <= DelayAverage(alpha, avg, x) <= x
    ensures avg <= x ==> (DelayAverage(alpha, avg, x) == avg <==> Still(alpha, avg, x))
  {
    DelayAverageIsPulled(alpha, avg, x);
    PullIsFraction(alpha, avg, x);
    TruncOfMoved(avg, x, Pull(alpha, avg, x));
  }

  function Gap(a: int, b: int): nat {
    if a < b then b - a else a - b
  }

  /** The first `k` updates under constant input: from above at least one unit each until the input
      is met; from below at least one unit each until the next one would stand still. */
  lemma {:induction false} AverageApproaches(alpha: real, start: nat, x: nat, k: nat)
    requires 0.0 < alpha <= 1.0
    ensures var a := DelayAverages(alpha, start, x, k);
            && (x <= start ==> x <= a && (a == x || a <= start - k))
            && (start < x ==> start <= a <= x && (Still(alpha, a, x) || start + k <= a))
  {
    if k > 0 {
      AverageApproaches(alpha, start, x, k - 1);
      DelayAverageMoves(alpha, DelayAverages(alpha, start, x, k - 1), x);
    }
  }

  /** Under constant input the average settles within |start - x| updates, at a fixed point: exactly
      on the input from above, and less than 1/alpha short of it from below. */
  lemma AverageSettles(alpha: real, start: nat, x: nat, k: nat)
    requires 0.0 < alpha <= 1.0 && Gap(start, x) <= k
    ensures var a := DelayAverages(alpha, start, x, k);
            && DelayAverage(alpha, a, x) == a
            && if x <= start then a == x else start <= a <= x && Still(alpha, a, x)
  {
    var a := DelayAverages(alpha, start, x, k);
    AverageApproaches(alpha, start, x, k);
    DelayAverageMoves(alpha, a, x);
    assert a == x ==> Still(alpha, a, x);
  }

  // ---- The simulator controller ----

  function SimMove(cfg: Config, avg: int): real
    requires cfg.Defined()
  {
    cfg.tdfSimGain * (avg as real - cfg.targetDelay as real) / cfg.targetDelay as real
  }

  function SimStep(cfg: Config, tdfSim: real, avg: int): real
    requires cfg.Defined()
  {
    Clamp(tdfSim + SimMove(cfg, avg), cfg.tdfMin, cfg.tdfMax)
  }

  /** tdfSim after `k` fresh samples of the same delay `x`. */
  function SimRun(cfg: Config, tdfSim: real, avg: int, x: int, k: nat): real
    requires cfg.Defined()
  {
    if k == 0 then tdfSim
    else SimStep(cfg, SimRun(cfg, tdfSim, avg, x, k - 1), DelayAverages(cfg.alpha, avg, x, k))
  }

  /** What a delay one unit off the target moves. */
  function Quantum(cfg: Config): real
    requires cfg.Sane()
  {
    cfg.tdfSimGain / cfg.targetDelay as real
  }

  /** The move is exactly so many quanta as the average is units off the target. */
  lemma SimMoveIsExact(cfg: Config, avg: int)
    requires cfg.Sane()
    ensures SimMove(cfg, avg) == (avg - cfg.targetDelay) as real * Quantum(cfg)
    ensures Quantum(cfg) * cfg.targetDelay as real == cfg.tdfSimGain
    ensures avg == 2 * cfg.targetDelay ==> SimMove(cfg, avg) == cfg.tdfSimGain
  {
    var t := cfg.targetDelay as real;
    var d, q := avg as real - t, Quantum(cfg);
    assert q * t == cfg.tdfSimGain;
    assert (d * q) * t == cfg.tdfSimGain * d;
    assert SimMove(cfg, avg) == d * q;
    assert (avg - cfg.targetDelay) as real == d;
  }

  /** An average that misses the target misses it by a whole unit, hence by at least one quantum. */
  lemma SimMoveIsWholeQuanta(cfg: Config, avg: int)
    requires cfg.Sane()
    ensures 0.0 < Quantum(cfg)
    ensures cfg.targetDelay < avg ==> Quantum(cfg) <= SimMove(cfg, avg)
    ensures avg < cfg.targetDelay ==> SimMove(cfg, avg) <= -Quantum(cfg)
  {
    var q := Quantum(cfg);
    SimMoveIsExact(cfg, avg);
    assert 0.0 < q by { if q <= 0.0 { Scaled(q, 0.0, cfg.targetDelay as real); } }
    AtLeastOneUnit((avg - cfg.targetDelay) as real, q, SimMove(cfg, avg));
  }

  lemma AtLeastOneUnit(d: real, unit: real, move: real)
    requires 0.0 < unit && move == d * unit
    ensures 1.0 <= d ==> unit <= move
    ensures d <= -1.0 ==> move <= -unit
  {
    if 1.0 <= d {
      Scaled(1.0, d, unit);
    } else if d <= -1.0 {
      Scaled(d, -1.0, unit);
    }
  }

  /** Updates that surely suffice: first the average settles, then the TDF crosses its range. */
  function StepsToSaturate(cfg: Config, avg: int, x: int): nat
    requires cfg.Sane()
  {
    var crossing := ((cfg.tdfMax - cfg.tdfMin) / Quantum(cfg)).Floor + 1;
    Gap(avg, x) + if crossing < 0 then 0 else crossing
  }

  lemma {:induction false} SimRunInRange(cfg: Config, tdfSim: real, avg: int, x: int, k: nat)
    requires cfg.Sane() && cfg.tdfMin <= tdfSim <= cfg.tdfMax
    ensures cfg.tdfMin <= SimRun(cfg, tdfSim, avg, x, k) <= cfg.tdfMax
  {
    if k > 0 {
      SimRunInRange(cfg, tdfSim, avg, x, k - 1);
    }
  }

  /** At update `j` the average is above, or below, the target. */
  predicate Above(cfg: Config, avg: int, x: int, j: nat) {
    cfg.targetDelay < DelayAverages(cfg.alpha, avg, x, j)
  }

  predicate Below(cfg: Config, avg: int, x: int, j: nat) {
    DelayAverages(cfg.alpha, avg, x, j) < cfg.targetDelay
  }

  function Quanta(cfg: Config, k: nat): real
    requires cfg.Sane()
  {
    k as real * Quantum(cfg)
  }

  lemma OneMoreQuantum(cfg: Config, k: nat)
    requires cfg.Sane()
    ensures Quanta(cfg, k + 1) == Quanta(cfg, k) + Quantum(cfg)
  {
  }

  /** Progress once the average stays on one side of the target. */
  lemma {:induction false} SimRunClimbs(cfg: Config, tdfSim: real, avg: nat, x: nat, n: nat, k: nat)
    requires cfg.Sane() && cfg.tdfMin <= tdfSim <= cfg.tdfMax
    requires forall j: nat :: n <= j ==> Above(cfg, avg, x, j)
    ensures var reached := SimRun(cfg, tdfSim, avg, x, n + k);
            reached == cfg.tdfMax || cfg.tdfMin + Quanta(cfg, k) <= reached
  {
    SimRunInRange(cfg, tdfSim, avg, x, n + k);
    if k > 0 {
      SimRunClimbs(cfg, tdfSim, avg, x, n, k - 1);
      assert Above(cfg, avg, x, n + k);
      SimMoveIsWholeQuanta(cfg, DelayAverages(cfg.alpha, avg, x, n + k));
      OneMoreQuantum(cfg, k - 1);
    }
  }

  lemma {:induction false} SimRunSinks(cfg: Config, tdfSim: real, avg: nat, x: nat, n: nat, k: nat)
    requires cfg.Sane() && cfg.tdfMin <= tdfSim <= cfg.tdfMax
    requires forall j: nat :: n <= j ==> Below(cfg, avg, x, j)
    ensures var reached := SimRun(cfg, tdfSim, avg, x, n + k);
            reached == cfg.tdfMin || reached <= cfg.tdfMax - Quanta(cfg, k)
  {
    SimRunInRange(cfg, tdfSim, avg, x, n + k);
    if k > 0 {
      SimRunSinks(cfg, tdfSim, avg, x, n, k - 1);
      assert Below(cfg, avg, x, n + k);
      SimMoveIsWholeQuanta(cfg, DelayAverages(cfg.alpha, avg, x, n + k));
      OneMoreQuantum(cfg, k - 1);
    }
  }

  /** Saturation: a delay held at `x` at least 1/alpha above the target drives the TDF to its
      maximum within StepsToSaturate updates and keeps it there; a delay held below the target
      drives it to its minimum likewise. */
  lemma SimControllerSaturates(cfg: Config, tdfSim: real, avg: nat, x: nat, k: nat)
    requires cfg.Sane() && cfg.tdfMin <= tdfSim <= cfg.tdfMax
    requires StepsToSaturate(cfg, avg, x) <= k
    ensures cfg.targetDelay as real + 1.0 / cfg.alpha <= x as real ==>
              SimRun(cfg, tdfSim, avg, x, k) == cfg.tdfMax
    ensures x < cfg.targetDelay ==> SimRun(cfg, tdfSim, avg, x, k) == cfg.tdfMin
  {
    var j := k - Gap(avg, x);
    CrossesRange(cfg, avg, x, j);
    SimRunInRange(cfg, tdfSim, avg, x, k);
    if cfg.targetDelay as real + 1.0 / cfg.alpha <= x as real {
      SettlesAbove(cfg, avg, x);
      SimRunClimbs(cfg, tdfSim, avg, x, Gap(avg, x), j);
    } else if x < cfg.targetDelay {
      SettlesBelow(cfg, avg, x);
      SimRunSinks(cfg, tdfSim, avg, x, Gap(avg, x), j);
    }
  }

  /** Between the two, the controller is blind: from an average on the target, which is where the
      program starts, a delay less than 1/alpha above it never moves the average or the TDF. */
  lemma {:induction false} DeadBand(cfg: Config, tdfSim: real, x: nat, k: nat)
    requires cfg.Sane() && cfg.tdfMin <= tdfSim <= cfg.tdfMax
    requires cfg.targetDelay <= x && Still(cfg.alpha, cfg.targetDelay, x)
    ensures DelayAverages(cfg.alpha, cfg.targetDelay, x, k) == cfg.targetDelay
    ensures SimRun(cfg, tdfSim, cfg.targetDelay, x, k) == tdfSim
  {
    if k > 0 {
      DeadBand(cfg, tdfSim, x, k - 1);
      DelayAverageMoves(cfg.alpha, cfg.targetDelay, x);
      NoMoveOnTarget(cfg);
    }
  }

  lemma NoMoveOnTarget(cfg: Config)
    requires cfg.Sane()
    ensures SimMove(cfg, cfg.targetDelay) == 0.0
  {
    var t := cfg.targetDelay as real;
    assert cfg.tdfSimGain * (t - t) == 0.0;
  }

  /** Where the controller ends up, exactly, from an average on the target. */
  lemma SimControllerEndsAt(cfg: Config, tdfSim: real, x: nat, k: nat)
    requires cfg.Sane() && cfg.tdfMin <= tdfSim <= cfg.tdfMax
    requires StepsToSaturate(cfg, cfg.targetDelay, x) <= k
    ensures SimRun(cfg, tdfSim, cfg.targetDelay, x, k) ==
            if cfg.targetDelay as real + 1.0 / cfg.alpha <= x as real then cfg.tdfMax
            else if x < cfg.targetDelay then cfg.tdfMin
            else tdfSim
  {
    SimControllerSaturates(cfg, tdfSim, cfg.targetDelay, x, k);
    StillIsNear(cfg.alpha, cfg.targetDelay, x);
    if cfg.targetDelay <= x && Still(cfg.alpha, cfg.targetDelay, x) {
      DeadBand(cfg, tdfSim, x, k);
    }
  }

  lemma StillIsNear(alpha: real, avg: int, x: int)
    requires 0.0 < alpha
    ensures Still(alpha, avg, x) <==> x as real < avg as real + 1.0 / alpha
  {
    GapBelow(alpha, (x - avg) as real);
  }

  lemma {:induction false} AverageStaysOn(alpha: real, x: nat, k: nat)
    requires 0.0 < alpha <= 1.0
    ensures DelayAverages(alpha, x, x, k) == x
  {
    if k > 0 {
      AverageStaysOn(alpha, x, k - 1);
      DelayAverageMoves(alpha, x, x);
    }
  }

  /** What an average `x` moves, in quanta. */
  function Stride(cfg: Config, x: int): real
    requires cfg.Sane()
  {
    (x - cfg.targetDelay) as real * Quantum(cfg)
  }

  function Strides(k: nat, stride: real): real {
    k as real * stride
  }

  lemma OneMoreStride(k: nat, stride: real)
    ensures Strides(k + 1, stride) == Strides(k, stride) + stride
    ensures 0.0 <= stride ==> 0.0 <= Strides(k, stride)
    ensures stride <= 0.0 ==> Strides(k, stride) <= 0.0
  {
  }

  lemma StridesCross(range: real, stride: real, k: nat)
    requires 0.0 < stride && (range / stride).Floor < k
    ensures range < Strides(k, stride)
  {
    var r := range / stride;
    assert r * stride == range;
    StrictlyScaled(r, k as real, stride);
  }

  lemma ClampedTwice(start: real, before: real, stride: real, lo: real, hi: real)
    requires lo <= start <= hi
    requires if 0.0 <= stride then 0.0 <= before else before <= 0.0
    ensures Clamp(Clamp(start + before, lo, hi) + stride, lo, hi) == Clamp(start + before + stride, lo, hi)
  {
  }

  lemma LinearStep(cfg: Config, reached: real, start: real, before: real, x: int)
    requires cfg.Sane() && cfg.tdfMin <= start <= cfg.tdfMax
    requires reached == Clamp(start + before, cfg.tdfMin, cfg.tdfMax)
    requires if 0.0 <= Stride(cfg, x) then 0.0 <= before else before <= 0.0
    ensures SimStep(cfg, reached, x) == Clamp(start + before + Stride(cfg, x), cfg.tdfMin, cfg.tdfMax)
  {
    var stride := MoveOf(cfg, x);
    ClampedTwice(start, before, stride, cfg.tdfMin, cfg.tdfMax);
  }

  lemma MoveOf(cfg: Config, x: int) returns (move: real)
    requires cfg.Sane()
    ensures move == SimMove(cfg, x) == Stride(cfg, x)
  {
    move := Stride(cfg, x);
    SimMoveIsExact(cfg, x);
  }

  /** The controller does not jump: once the average has settled on the delay, the TDF moves by the same
      stride with each update, up to its limits. */
  lemma {:induction false} SettledRunIsLinear(cfg: Config, tdfSim: real, x: nat, k: nat)
    requires cfg.Sane() && cfg.tdfMin <= tdfSim <= cfg.tdfMax
    ensures SimRun(cfg, tdfSim, x, x, k) == Clamp(tdfSim + Strides(k, Stride(cfg, x)), cfg.tdfMin, cfg.tdfMax)
  {
    var stride := Stride(cfg, x);
    if k == 0 {
      assert Strides(0, stride) == 0.0;
    } else {
      SettledRunIsLinear(cfg, tdfSim, x, k - 1);
      AverageStaysOn(cfg.alpha, x, k);
      OneMoreStride(k - 1, stride);
      LinearStep(cfg, SimRun(cfg, tdfSim, x, x, k - 1), tdfSim, Strides(k - 1, stride), x);
    }
  }

  /** So it takes exactly as many updates as it takes strides to cross the range; a stride is the gain
      while the delay is twice its target. */
  lemma SettledRunSaturatesExactly(cfg: Config, tdfSim: real, x: nat, k: nat)
    requires cfg.Sane() && cfg.tdfMin <= tdfSim <= cfg.tdfMax && cfg.tdfMin < cfg.tdfMax
    ensures SimRun(cfg, tdfSim, x, x, k) == cfg.tdfMax <==> cfg.tdfMax <= tdfSim + Strides(k, Stride(cfg, x))
    ensures SimRun(cfg, tdfSim, x, x, k) == cfg.tdfMin <==> tdfSim + Strides(k, Stride(cfg, x)) <= cfg.tdfMin
    ensures x == 2 * cfg.targetDelay ==> Stride(cfg, x) == cfg.tdfSimGain
  {
    var to := tdfSim + Strides(k, Stride(cfg, x));
    SettledRunIsLinear(cfg, tdfSim, x, k);
    SimMoveIsExact(cfg, x);
  }

  /** Nor does it jump before: no update moves the TDF up by more than the stride of the farthest
      average, so that saturating takes at least that many updates. */
  lemma {:induction false} SimRunIsGradual(cfg: Config, tdfSim: real, avg: nat, x: nat, top: nat, k: nat)
    requires cfg.Sane() && cfg.tdfMin <= tdfSim <= cfg.tdfMax
    requires avg <= top && x <= top && cfg.targetDelay <= top
    ensures SimRun(cfg, tdfSim, avg, x, k) <= tdfSim + Strides(k, Stride(cfg, top))
    ensures SimRun(cfg, tdfSim, avg, x, k) == cfg.tdfMax ==> cfg.tdfMax - tdfSim <= Strides(k, Stride(cfg, top))
  {
    var stride := Stride(cfg, top);
    if k == 0 {
      assert Strides(0, stride) == 0.0;
    } else {
      SimRunIsGradual(cfg, tdfSim, avg, x, top, k - 1);
      var a := DelayAverages(cfg.alpha, avg, x, k);
      DelayAverageBelow(cfg.alpha, avg, x, top, k);
      StrideGrows(cfg, a, top);
      OneMoreStride(k - 1, stride);
      StepIsGradual(cfg, SimRun(cfg, tdfSim, avg, x, k - 1), tdfSim + Strides(k - 1, stride), a, stride);
    }
  }

  lemma DelayAverageBelow(alpha: real, avg: nat, x: nat, top: nat, k: nat)
    requires 0.0 < alpha <= 1.0 && avg <= top && x <= top
    ensures DelayAverages(alpha, avg, x, k) <= top
  {
    AverageApproaches(alpha, avg, x, k);
  }

  lemma StrideGrows(cfg: Config, a: int, top: nat)
    requires cfg.Sane() && a <= top && cfg.targetDelay <= top
    ensures SimMove(cfg, a) <= Stride(cfg, top) && 0.0 <= Stride(cfg, top)
  {
    var move := MoveOf(cfg, a);
    SimMoveIsWholeQuanta(cfg, a);
    UnitsGrow((a - cfg.targetDelay) as real, (top - cfg.targetDelay) as real, Quantum(cfg));
  }

  lemma UnitsGrow(x: real, y: real, unit: real)
    requires x <= y && 0.0 <= y && 0.0 < unit
    ensures x * unit <= y * unit && 0.0 <= y * unit
  {
    Scaled(x, y, unit);
    Scaled(0.0, y, unit);
  }

  lemma StepIsGradual(cfg: Config, before: real, bound: real, a: int, stride: real)
    requires cfg.Sane() && cfg.tdfMin <= bound && before <= bound && SimMove(cfg, a) <= stride && 0.0 <= stride
    ensures SimStep(cfg, before, a) <= bound + stride
  {
  }

  lemma CrossesRange(cfg: Config, avg: nat, x: nat, j: nat)
    requires cfg.Sane() && StepsToSaturate(cfg, avg, x) - Gap(avg, x) <= j
    ensures cfg.tdfMax - cfg.tdfMin < Quanta(cfg, j)
  {
    var q, r := Quantum(cfg), (cfg.tdfMax - cfg.tdfMin) / Quantum(cfg);
    SimMoveIsWholeQuanta(cfg, avg);
    assert r * q == cfg.tdfMax - cfg.tdfMin;
    StrictlyScaled(r, j as real, q);
  }

  lemma SettlesAbove(cfg: Config, avg: nat, x: nat)
    requires cfg.Sane() && cfg.targetDelay as real + 1.0 / cfg.alpha <= x as real
    ensures forall j: nat :: Gap(avg, x) <= j ==> Above(cfg, avg, x, j)
  {
    GapBelow(cfg.alpha, 0.0);
    forall j: nat | Gap(avg, x) <= j
      ensures Above(cfg, avg, x, j)
    {
      AverageSettles(cfg.alpha, avg, x, j);
      StillIsNear(cfg.alpha, DelayAverages(cfg.alpha, avg, x, j), x);
    }
  }

  lemma GapBelow(alpha: real, gap: real)
    requires 0.0 < alpha
    ensures 0.0 < 1.0 / alpha
    ensures alpha * gap < 1.0 <==> gap < 1.0 / alpha
  {
    var r := 1.0 / alpha;
    assert r * alpha == 1.0;
    if r <= gap {
      Scaled(r, gap, alpha);
      assert 1.0 <= alpha * gap;
    } else {
      StrictlyScaled(gap, r, alpha);
      assert alpha * gap < 1.0;
    }
  }

  lemma SettlesBelow(cfg: Config, avg: nat, x: nat)
    requires cfg.Sane() && x < cfg.targetDelay
    ensures forall j: nat :: Gap(avg, x) <= j ==> Below(cfg, avg, x, j)
  {
    forall j: nat | Gap(avg, x) <= j
      ensures Below(cfg, avg, x, j)
    {
      AverageSettles(cfg.alpha, avg, x, j);
    }
  }
}
