/** What a monitor that watches the load does over whole runs of samples. */
module LoadRuns {
  import opened Arith
  import opened Wrappers
  import opened Controllers
  import opened CpuIdle
  import opened CpuMonitors

  function Always(cfg: Config, n: nat): seq<Config> {
    seq(n, i requires 0 <= i < n => cfg)
  }

  /** The states of a monitor under one configuration, one for each sample. */
  ghost predicate IsRun(cfg: Config, samples: seq<Sample>, ms: seq<Monitor>) {
    && |ms| == |samples| && samples != []
    && forall k :: 0 <= k < |ms| ==> ReachedAt(cfg, samples, ms, k)
  }

  predicate ReachedAt(cfg: Config, samples: seq<Sample>, ms: seq<Monitor>, k: nat)
    requires k < |ms| == |samples|
  {
    AfterSamples(Always(cfg, |samples|), samples, k) == Some(ms[k])
  }

  lemma Iterates(cfg: Config, samples: seq<Sample>, ms: seq<Monitor>, k: nat)
    requires IsRun(cfg, samples, ms) && k < |ms|
    ensures k == 0 ==> ms[k] == Started(cfg, samples[k].cpu)
    ensures k > 0 ==> Runs(cfg, ms[k - 1], samples[k]) && ms[k] == Watched(cfg, ms[k - 1], samples[k])
  {
    assert ReachedAt(cfg, samples, ms, k);
    assert k > 0 ==> ReachedAt(cfg, samples, ms, k - 1);
  }

  /** A run on growing counters, with a controller that watches the load and moves. */
  ghost predicate LoadRun(cfg: Config, samples: seq<Sample>, ms: seq<Monitor>) {
    && IsRun(cfg, samples, ms) && CountersGrow(samples)
    && cfg.Sane() && WatchesLoad(cfg) && 0.0 < cfg.changeSlope
  }

  /** Growing counters always have one. */
  lemma RunExists(cfg: Config, samples: seq<Sample>) returns (ms: seq<Monitor>)
    requires CountersGrow(samples) && samples != [] && cfg.Sane()
    ensures IsRun(cfg, samples, ms)
  {
    var cfgs := Always(cfg, |samples|);
    forall k | 0 <= k < |samples|
      ensures AfterSamples(cfgs, samples, k).Some?
    {
      var last := IdleRatiosInUnit(cfgs, samples, k);
    }
    ms := seq(|samples|, k requires 0 <= k < |samples| => AfterSamples(cfgs, samples, k).value);
  }

  lemma {:induction false} RunInUnit(cfg: Config, samples: seq<Sample>, ms: seq<Monitor>, k: nat)
    requires LoadRun(cfg, samples, ms) && k < |ms|
    ensures IdleInUnit(ms[k], samples[k].cpu) && InRange(cfg, ms[k])
  {
    assert Follows(samples[k].cpu, samples[k].cpu);
    Iterates(cfg, samples, ms, k);
    if k > 0 {
      RunInUnit(cfg, samples, ms, k - 1);
      assert Follows(samples[k - 1].cpu, samples[k].cpu);
      IterationKeepsIdleInUnit(cfg, ms[k - 1], samples[k], samples[k - 1].cpu);
      BroadcastsInRange(cfg, ms[k - 1], samples[k]);
    }
  }

  lemma NextMonitor(cfg: Config, samples: seq<Sample>, ms: seq<Monitor>, k: nat)
    requires LoadRun(cfg, samples, ms) && 0 < k < |ms|
    ensures ms[k].avgIdle == Average(cfg.alpha, ms[k - 1].avgIdle, ms[k].curIdle)
    ensures ms[k].tdfLoad == LoadStep(cfg, ms[k - 1].tdfLoad, ms[k].avgIdle)
  {
    Iterates(cfg, samples, ms, k);
  }

  lemma MeasuresLeastShare(cfg: Config, m: Monitor, s: Sample)
    requires Runs(cfg, m, s) && WatchesLoad(cfg)
    ensures IsLeastShare(Watched(cfg, m, s).curIdle, m.totals, m.idles, s.cpu)
  {
    MinRatioIsLeastShare(m.totals, m.idles, s.cpu);
  }

  /** The current ratio at a sample is the least idle share since the sample before. */
  lemma CurrentIdleIsLeastShare(cfg: Config, samples: seq<Sample>, ms: seq<Monitor>, k: nat)
    requires LoadRun(cfg, samples, ms) && 0 < k < |ms|
    ensures StoredFrom(ms[k - 1].totals, ms[k - 1].idles, samples[k - 1].cpu)
    ensures IsLeastShare(ms[k].curIdle, ms[k - 1].totals, ms[k - 1].idles, samples[k].cpu)
  {
    RunInUnit(cfg, samples, ms, k - 1);
    Iterates(cfg, samples, ms, k);
    MeasuresLeastShare(cfg, ms[k - 1], samples[k]);
  }

  // ---- The averaged idle ratio held on one side of its target ----

  /** The averaged idle ratio is at least `gap` below, or above, its target. */
  predicate Below(cfg: Config, m: Monitor, gap: real) {
    m.avgIdle <= 1.0 - cfg.targetLoad - gap
  }

  predicate Above(cfg: Config, m: Monitor, gap: real) {
    1.0 - cfg.targetLoad + gap <= m.avgIdle
  }

  /** What an averaged idle ratio off by `gap` moves. */
  function LoadQuantum(cfg: Config, gap: real): real
    requires cfg.Sane()
  {
    Amplified(cfg.changeSlope, 2.0 * (gap / cfg.targetLoad), cfg.nonlinearFactor)
  }

  lemma GapShare(gap: real, load: real, g: real, e: real, distance: real)
    requires 0.0 < load && g == gap / load && distance == e * load
    ensures 0.0 < gap ==> 0.0 < g
    ensures gap <= distance ==> g <= e
  {
    assert g * load == gap;
    Ordered(0.0, g, load, 0.0, gap);
    Ordered(g, e, load, gap, distance);
  }

  lemma Ordered(x: real, y: real, d: real, xd: real, yd: real)
    requires 0.0 < d && xd == x * d && yd == y * d
    ensures xd <= yd ==> x <= y
    ensures xd < yd ==> x < y
  {
    if y < x {
      StrictlyScaled(y, x, d);
    }
  }

  lemma AmplifiedMore(slope: real, a: real, b: real, n: nat)
    requires 0.0 <= slope && 0.0 < a
    ensures 0.0 < slope ==> 0.0 < Amplified(slope, a, n)
    ensures a <= b ==> Amplified(slope, a, n) <= Amplified(slope, b, n)
  {
    var p, q := Pow(a, n), Pow(b, n);
    PowNonNegative(a, n);
    if 0.0 < slope {
      StrictlyScaled(0.0, p, slope);
    }
    if a <= b {
      PowMonotone(a, b, n);
      Scaled(p, q, slope);
    }
  }

  lemma LoadQuantumPositive(cfg: Config, gap: real)
    requires cfg.Sane() && 0.0 < cfg.changeSlope && 0.0 < gap
    ensures 0.0 < LoadQuantum(cfg, gap)
  {
    var g := gap / cfg.targetLoad;
    GapShare(gap, cfg.targetLoad, g, 0.0, 0.0);
    AmplifiedMore(cfg.changeSlope, 2.0 * g, 2.0 * g, cfg.nonlinearFactor);
  }

  /** A larger error moves more. */
  lemma MovesAtLeast(cfg: Config, e: real, gap: real)
    requires cfg.Sane() && 0.0 < gap && gap <= Abs(e) * cfg.targetLoad
    ensures LoadQuantum(cfg, gap) <= MoveSize(cfg, e)
  {
    var g := gap / cfg.targetLoad;
    GapShare(gap, cfg.targetLoad, g, Abs(e), Abs(e) * cfg.targetLoad);
    AmplifiedMore(cfg.changeSlope, 2.0 * g, 2.0 * Abs(e), cfg.nonlinearFactor);
  }

  /** One step with the averaged idle ratio off by at least `gap`. */
  lemma StepPushes(cfg: Config, tdfLoad: real, avgIdle: real, gap: real)
    requires cfg.Sane() && 0.0 < gap && cfg.tdfMin <= tdfLoad <= cfg.tdfMax
    ensures avgIdle <= 1.0 - cfg.targetLoad - gap ==>
              LoadStep(cfg, tdfLoad, avgIdle) == cfg.tdfMax
              || tdfLoad + LoadQuantum(cfg, gap) <= LoadStep(cfg, tdfLoad, avgIdle)
    ensures 1.0 - cfg.targetLoad + gap <= avgIdle ==>
              LoadStep(cfg, tdfLoad, avgIdle) == cfg.tdfMin
              || LoadStep(cfg, tdfLoad, avgIdle) <= tdfLoad - LoadQuantum(cfg, gap)
  {
    var e := LoadError(cfg, avgIdle);
    assert e * cfg.targetLoad == avgIdle - (1.0 - cfg.targetLoad);
    LoadErrorSign(cfg, avgIdle);
    LoadMoveIsScaledPower(cfg, e);
    MoveSizeBound(cfg, e);
    if avgIdle <= 1.0 - cfg.targetLoad - gap || 1.0 - cfg.targetLoad + gap <= avgIdle {
      assert Abs(e) * cfg.targetLoad == Abs(avgIdle - (1.0 - cfg.targetLoad));
      MovesAtLeast(cfg, e, gap);
    }
  }

  /** From each entry to the next at least a quantum up, or at the top; or down, or at the bottom. */
  predicate PushedUpAt(tdfs: seq<real>, quantum: real, hi: real, k: nat)
    requires 0 < k < |tdfs|
  {
    tdfs[k] == hi || tdfs[k - 1] + quantum <= tdfs[k]
  }

  predicate PushedDownAt(tdfs: seq<real>, quantum: real, lo: real, k: nat)
    requires 0 < k < |tdfs|
  {
    tdfs[k] == lo || tdfs[k] <= tdfs[k - 1] - quantum
  }

  lemma {:induction false} Climbs(tdfs: seq<real>, quantum: real, lo: real, hi: real, i: nat, k: nat)
    requires i <= k < |tdfs| && 0.0 < quantum && forall j :: 0 <= j < |tdfs| ==> lo <= tdfs[j] <= hi
    requires forall j :: i < j <= k ==> PushedUpAt(tdfs, quantum, hi, j)
    ensures tdfs[k] == hi || lo + Strides(k - i, quantum) <= tdfs[k]
  {
    if i == k {
      assert Strides(0, quantum) == 0.0;
    } else {
      Climbs(tdfs, quantum, lo, hi, i, k - 1);
      assert PushedUpAt(tdfs, quantum, hi, k);
      OneMoreStride(k - 1 - i, quantum);
    }
  }

  lemma {:induction false} Sinks(tdfs: seq<real>, quantum: real, lo: real, hi: real, i: nat, k: nat)
    requires i <= k < |tdfs| && 0.0 < quantum && forall j :: 0 <= j < |tdfs| ==> lo <= tdfs[j] <= hi
    requires forall j :: i < j <= k ==> PushedDownAt(tdfs, quantum, lo, j)
    ensures tdfs[k] == lo || tdfs[k] <= hi - Strides(k - i, quantum)
  {
    if i == k {
      assert Strides(0, quantum) == 0.0;
    } else {
      Sinks(tdfs, quantum, lo, hi, i, k - 1);
      assert PushedDownAt(tdfs, quantum, lo, k);
      OneMoreStride(k - 1 - i, quantum);
    }
  }

  function LoadTdfs(ms: seq<Monitor>): (tdfs: seq<real>)
    ensures |tdfs| == |ms| && forall k :: 0 <= k < |ms| ==> tdfs[k] == ms[k].tdfLoad
  {
    seq(|ms|, k requires 0 <= k < |ms| => ms[k].tdfLoad)
  }

  lemma TdfsInRange(cfg: Config, samples: seq<Sample>, ms: seq<Monitor>)
    requires LoadRun(cfg, samples, ms)
    ensures forall k :: 0 <= k < |ms| ==> cfg.tdfMin <= LoadTdfs(ms)[k] <= cfg.tdfMax
  {
    forall k | 0 <= k < |ms|
      ensures cfg.tdfMin <= LoadTdfs(ms)[k] <= cfg.tdfMax
    {
      RunInUnit(cfg, samples, ms, k);
    }
  }

  lemma OffTargetPushes(cfg: Config, samples: seq<Sample>, ms: seq<Monitor>, gap: real, k: nat)
    requires LoadRun(cfg, samples, ms) && 0.0 < gap && 0 < k < |ms|
    ensures Below(cfg, ms[k], gap) ==> PushedUpAt(LoadTdfs(ms), LoadQuantum(cfg, gap), cfg.tdfMax, k)
    ensures Above(cfg, ms[k], gap) ==> PushedDownAt(LoadTdfs(ms), LoadQuantum(cfg, gap), cfg.tdfMin, k)
  {
    RunInUnit(cfg, samples, ms, k - 1);
    NextMonitor(cfg, samples, ms, k);
    StepPushes(cfg, ms[k - 1].tdfLoad, ms[k].avgIdle, gap);
  }

  /** Iterations that surely suffice to cross the range of the TDF. */
  function CrossingSteps(cfg: Config, gap: real): nat
    requires cfg.Sane() && 0.0 < cfg.changeSlope && 0.0 < gap
  {
    LoadQuantumPositive(cfg, gap);
    var crossing := ((cfg.tdfMax - cfg.tdfMin) / LoadQuantum(cfg, gap)).Floor + 1;
    if crossing < 0 then 0 else crossing
  }

  lemma CrossesLoadRange(cfg: Config, gap: real, n: nat)
    requires cfg.Sane() && 0.0 < cfg.changeSlope && 0.0 < gap && CrossingSteps(cfg, gap) <= n
    ensures cfg.tdfMax - cfg.tdfMin < Strides(n, LoadQuantum(cfg, gap))
  {
    LoadQuantumPositive(cfg, gap);
    StridesCross(cfg.tdfMax - cfg.tdfMin, LoadQuantum(cfg, gap), n);
  }

  lemma LoadReachesMax(cfg: Config, samples: seq<Sample>, ms: seq<Monitor>, gap: real, i: nat, k: nat)
    requires LoadRun(cfg, samples, ms) && 0.0 < gap && i + CrossingSteps(cfg, gap) <= k < |ms|
    requires forall j :: i < j <= k ==> Below(cfg, ms[j], gap)
    ensures ms[k].tdfLoad == cfg.tdfMax
  {
    var tdfs, quantum := LoadTdfs(ms), LoadQuantum(cfg, gap);
    forall j | i < j <= k
      ensures PushedUpAt(tdfs, quantum, cfg.tdfMax, j)
    {
      OffTargetPushes(cfg, samples, ms, gap, j);
    }
    TdfsInRange(cfg, samples, ms);
    LoadQuantumPositive(cfg, gap);
    CrossesLoadRange(cfg, gap, k - i);
    Climbs(tdfs, quantum, cfg.tdfMin, cfg.tdfMax, i, k);
  }

  lemma LoadReachesMin(cfg: Config, samples: seq<Sample>, ms: seq<Monitor>, gap: real, i: nat, k: nat)
    requires LoadRun(cfg, samples, ms) && 0.0 < gap && i + CrossingSteps(cfg, gap) <= k < |ms|
    requires forall j :: i < j <= k ==> Above(cfg, ms[j], gap)
    ensures ms[k].tdfLoad == cfg.tdfMin
  {
    var tdfs, quantum := LoadTdfs(ms), LoadQuantum(cfg, gap);
    forall j | i < j <= k
      ensures PushedDownAt(tdfs, quantum, cfg.tdfMin, j)
    {
      OffTargetPushes(cfg, samples, ms, gap, j);
    }
    TdfsInRange(cfg, samples, ms);
    LoadQuantumPositive(cfg, gap);
    CrossesLoadRange(cfg, gap, k - i);
    Sinks(tdfs, quantum, cfg.tdfMin, cfg.tdfMax, i, k);
  }

  /** While the averaged idle ratio is held at least `gap` below its target, from sample `i` on, the
      broadcast of modes 0 and 2 reaches tdfMax within CrossingSteps iterations and stays there; held
      above, that of mode 0 reaches tdfMin and stays there. */
  lemma LoadSaturates(cfg: Config, samples: seq<Sample>, ms: seq<Monitor>, gap: real, i: nat, k: nat)
    requires LoadRun(cfg, samples, ms) && 0.0 < gap && i + CrossingSteps(cfg, gap) <= k < |ms|
    ensures (forall j :: i < j <= k ==> Below(cfg, ms[j], gap)) ==> Required(cfg, ms[k]) == cfg.tdfMax
    ensures cfg.monitorMode == 0 && (forall j :: i < j <= k ==> Above(cfg, ms[j], gap)) ==>
              Required(cfg, ms[k]) == cfg.tdfMin
  {
    RunInUnit(cfg, samples, ms, k);
    if forall j :: i < j <= k ==> Below(cfg, ms[j], gap) {
      LoadReachesMax(cfg, samples, ms, gap, i, k);
    }
    if forall j :: i < j <= k ==> Above(cfg, ms[j], gap) {
      LoadReachesMin(cfg, samples, ms, gap, i, k);
    }
  }

  // ---- The moving average ----

  predicate AveragedAt(alpha: real, avgs: seq<real>, curs: seq<real>, k: nat)
    requires 0 < k < |avgs| == |curs|
  {
    avgs[k] == Average(alpha, avgs[k - 1], curs[k])
  }

  lemma DistanceScales(alpha: real, keep: real, avg: real, cur: real, r: real, d: real, c: real)
    requires keep == 1.0 - alpha && d == avg - r && c == cur - r
    ensures Average(alpha, avg, cur) - r == d * keep + c * alpha
  {
  }

  lemma ScaledBoth(keep: real, alpha: real, d: real, c: real, bound: real)
    requires 0.0 <= keep && 0.0 <= alpha && d <= bound && c <= 0.0
    ensures d * keep + c * alpha <= bound * keep
  {
    Scaled(d, bound, keep);
    Scaled(c, 0.0, alpha);
  }

  /** Averaging something at most, or at least, `r` leaves at most the scaled distance. */
  lemma AverageBelow(alpha: real, avg: real, cur: real, r: real, bound: real)
    requires 0.0 < alpha <= 1.0 && cur <= r && avg - r <= bound
    ensures Average(alpha, avg, cur) - r <= bound * (1.0 - alpha)
  {
    var keep, d, c :| keep == 1.0 - alpha && d == avg - r && c == cur - r;
    DistanceScales(alpha, keep, avg, cur, r, d, c);
    ScaledBoth(keep, alpha, d, c, bound);
  }

  lemma AverageAbove(alpha: real, avg: real, cur: real, r: real, bound: real)
    requires 0.0 < alpha <= 1.0 && r <= cur && r - avg <= bound
    ensures r - Average(alpha, avg, cur) <= bound * (1.0 - alpha)
  {
    AverageBelow(alpha, -avg, -cur, -r, bound);
    AverageNegated(alpha, avg, cur);
  }

  lemma AverageNegated(alpha: real, avg: real, cur: real)
    ensures Average(alpha, -avg, -cur) == -Average(alpha, avg, cur)
  {
  }

  /** `to` is as far from `r` as `from` was, times the n-th power of what one averaging keeps. */
  predicate Decayed(alpha: real, r: real, from: real, to: real, n: nat) {
    to - r == Pow(1.0 - alpha, n) * (from - r)
  }

  lemma DecaysOnce(alpha: real, r: real, from: real, avg: real, n: nat)
    requires Decayed(alpha, r, from, avg, n)
    ensures Decayed(alpha, r, from, Average(alpha, avg, r), n + 1)
  {
    DistanceScales(alpha, 1.0 - alpha, avg, r, r, avg - r, 0.0);
    ScaledAgain(1.0 - alpha, Pow(1.0 - alpha, n), from - r);
  }

  lemma {:induction false} AverageDecays(alpha: real, avgs: seq<real>, curs: seq<real>, r: real, i: nat, k: nat)
    requires i <= k < |avgs| == |curs|
    requires forall j :: i < j <= k ==> AveragedAt(alpha, avgs, curs, j)
    requires forall j :: i < j <= k ==> curs[j] == r
    ensures Decayed(alpha, r, avgs[i], avgs[k], k - i)
  {
    if i < k {
      AverageDecays(alpha, avgs, curs, r, i, k - 1);
      assert AveragedAt(alpha, avgs, curs, k);
      DecaysOnce(alpha, r, avgs[i], avgs[k - 1], k - 1 - i);
    }
  }

  lemma ScaledAgain(a: real, p: real, d: real)
    ensures a * (p * d) == (a * p) * d
  {
  }

  lemma {:induction false} AverageStaysBelow(alpha: real, avgs: seq<real>, curs: seq<real>, r: real, i: nat, k: nat)
    requires 0.0 < alpha <= 1.0 && i <= k < |avgs| == |curs|
    requires forall j :: i < j <= k ==> AveragedAt(alpha, avgs, curs, j)
    requires avgs[i] - r <= 1.0 && forall j :: i < j <= k ==> curs[j] <= r
    ensures avgs[k] - r <= Pow(1.0 - alpha, k - i)
  {
    if i < k {
      AverageStaysBelow(alpha, avgs, curs, r, i, k - 1);
      assert AveragedAt(alpha, avgs, curs, k);
      AverageBelow(alpha, avgs[k - 1], curs[k], r, Pow(1.0 - alpha, k - 1 - i));
    }
  }

  lemma {:induction false} AverageStaysAbove(alpha: real, avgs: seq<real>, curs: seq<real>, r: real, i: nat, k: nat)
    requires 0.0 < alpha <= 1.0 && i <= k < |avgs| == |curs|
    requires forall j :: i < j <= k ==> AveragedAt(alpha, avgs, curs, j)
    requires r - avgs[i] <= 1.0 && forall j :: i < j <= k ==> r <= curs[j]
    ensures r - avgs[k] <= Pow(1.0 - alpha, k - i)
  {
    if i < k {
      AverageStaysAbove(alpha, avgs, curs, r, i, k - 1);
      assert AveragedAt(alpha, avgs, curs, k);
      AverageAbove(alpha, avgs[k - 1], curs[k], r, Pow(1.0 - alpha, k - 1 - i));
    }
  }

  // ---- The idle ratio of the samples held on one side of the target ----

  /** The idle ratios of a run, averaged and current. */
  function AvgIdles(ms: seq<Monitor>): (avgs: seq<real>)
    ensures |avgs| == |ms| && forall k :: 0 <= k < |ms| ==> avgs[k] == ms[k].avgIdle
  {
    seq(|ms|, k requires 0 <= k < |ms| => ms[k].avgIdle)
  }

  function CurIdles(ms: seq<Monitor>): (curs: seq<real>)
    ensures |curs| == |ms| && forall k :: 0 <= k < |ms| ==> curs[k] == ms[k].curIdle
  {
    seq(|ms|, k requires 0 <= k < |ms| => ms[k].curIdle)
  }

  lemma IdlesAreAveraged(cfg: Config, samples: seq<Sample>, ms: seq<Monitor>)
    requires LoadRun(cfg, samples, ms)
    ensures forall k :: 0 < k < |ms| ==> AveragedAt(cfg.alpha, AvgIdles(ms), CurIdles(ms), k)
  {
    forall k | 0 < k < |ms|
      ensures AveragedAt(cfg.alpha, AvgIdles(ms), CurIdles(ms), k)
    {
      NextMonitor(cfg, samples, ms, k);
    }
  }

  /** Under a constant idle ratio the average approaches it geometrically. */
  lemma IdleAverageDecays(cfg: Config, samples: seq<Sample>, ms: seq<Monitor>, r: real, i: nat, k: nat)
    requires LoadRun(cfg, samples, ms) && i <= k < |ms|
    requires forall j :: i < j <= k ==> ms[j].curIdle == r
    ensures Decayed(cfg.alpha, r, ms[i].avgIdle, ms[k].avgIdle, k - i)
  {
    IdlesAreAveraged(cfg, samples, ms);
    AverageDecays(cfg.alpha, AvgIdles(ms), CurIdles(ms), r, i, k);
  }

  /** Bernoulli's inequality, for powers that shrink. */
  lemma {:induction false} PowersShrink(alpha: real, n: nat)
    requires 0.0 < alpha <= 1.0
    ensures Pow(1.0 - alpha, n) * (1.0 + n as real * alpha) <= 1.0
    ensures 0.0 <= Pow(1.0 - alpha, n)
  {
    if n > 0 {
      PowersShrink(alpha, n - 1);
      ShrinksOnce(alpha, Pow(1.0 - alpha, n - 1), (n - 1) as real * alpha);
      assert (n - 1) as real * alpha + alpha == n as real * alpha;
    }
  }

  lemma ShrinksOnce(alpha: real, p: real, na: real)
    requires 0.0 < alpha <= 1.0 && 0.0 <= p && 0.0 <= na && p * (1.0 + na) <= 1.0
    ensures 0.0 <= (1.0 - alpha) * p
    ensures ((1.0 - alpha) * p) * (1.0 + na + alpha) <= 1.0
  {
    var slack := alpha * na + alpha * alpha;
    assert 0.0 <= alpha * na && 0.0 <= alpha * alpha;
    assert (1.0 - alpha) * (1.0 + na + alpha) == 1.0 + na - slack;
    assert ((1.0 - alpha) * p) * (1.0 + na + alpha) == p * (1.0 + na) - p * slack;
    assert 0.0 <= p * slack;
  }

  /** Iterations after which the average has surely come within `gap` of what it follows. */
  function SettlingSteps(cfg: Config, gap: real): nat
    requires cfg.Sane() && 0.0 < gap
  {
    var share := cfg.alpha * gap;
    assert 0.0 < share by { StrictlyScaled(0.0, cfg.alpha, gap); }
    assert 0.0 < 1.0 / share by { GapBelow(share, 0.0); }
    (1.0 / share).Floor + 1
  }

  lemma SettledWithin(cfg: Config, gap: real, n: nat)
    requires cfg.Sane() && 0.0 < gap && SettlingSteps(cfg, gap) <= n
    ensures 0 < n && Pow(1.0 - cfg.alpha, n) <= gap
  {
    var share, p := cfg.alpha * gap, Pow(1.0 - cfg.alpha, n);
    StrictlyScaled(0.0, cfg.alpha, gap);
    EnoughSteps(share, n);
    PowersShrink(cfg.alpha, n);
    SmallerThanGap(p, gap, cfg.alpha, n as real, share);
  }

  lemma EnoughSteps(share: real, n: nat)
    requires 0.0 < share && (1.0 / share).Floor < n
    ensures 0 < n && 1.0 <= share * n as real
  {
    GapBelow(share, 0.0);
    GapBelow(share, n as real);
  }

  lemma SmallerThanGap(p: real, gap: real, alpha: real, n: real, share: real)
    requires 0.0 <= p && 0.0 < gap && 0.0 < alpha && 0.0 < n && share == alpha * gap
    requires p * (1.0 + n * alpha) <= 1.0 && 1.0 <= share * n
    ensures p <= gap
  {
    var na := n * alpha;
    StrictlyScaled(0.0, n, alpha);
    assert na * gap == share * n;
    assert p * (1.0 + na) == p + p * na;
    if gap < p {
      StrictlyScaled(gap, p, na);
    }
  }

  /** The current idle ratio, the least of all CPUs, is at least twice `gap` below, or above, the target. */
  predicate Busy(cfg: Config, m: Monitor, gap: real) {
    m.curIdle <= 1.0 - cfg.targetLoad - 2.0 * gap
  }

  predicate Idle(cfg: Config, m: Monitor, gap: real) {
    1.0 - cfg.targetLoad + 2.0 * gap <= m.curIdle
  }

  lemma BusyMeansBelow(cfg: Config, samples: seq<Sample>, ms: seq<Monitor>, gap: real, i: nat, k: nat)
    requires LoadRun(cfg, samples, ms) && 0.0 < gap && i + SettlingSteps(cfg, gap) <= k < |ms|
    requires forall j :: i < j <= k ==> Busy(cfg, ms[j], gap)
    ensures Below(cfg, ms[k], gap)
  {
    SettledWithin(cfg, gap, k - i);
    RunInUnit(cfg, samples, ms, i);
    RunInUnit(cfg, samples, ms, k);
    IdlesAreAveraged(cfg, samples, ms);
    var r := 1.0 - cfg.targetLoad - 2.0 * gap;
    assert Busy(cfg, ms[k], gap);
    AverageStaysBelow(cfg.alpha, AvgIdles(ms), CurIdles(ms), r, i, k);
  }

  lemma IdleMeansAbove(cfg: Config, samples: seq<Sample>, ms: seq<Monitor>, gap: real, i: nat, k: nat)
    requires LoadRun(cfg, samples, ms) && 0.0 < gap && i + SettlingSteps(cfg, gap) <= k < |ms|
    requires forall j :: i < j <= k ==> Idle(cfg, ms[j], gap)
    ensures Above(cfg, ms[k], gap)
  {
    SettledWithin(cfg, gap, k - i);
    RunInUnit(cfg, samples, ms, i);
    RunInUnit(cfg, samples, ms, k);
    IdlesAreAveraged(cfg, samples, ms);
    var r := 1.0 - cfg.targetLoad + 2.0 * gap;
    assert Idle(cfg, ms[k], gap);
    AverageStaysAbove(cfg.alpha, AvgIdles(ms), CurIdles(ms), r, i, k);
  }

  /** From the samples to the broadcast: if from sample `i` on some CPU of the host idles, from one sample
      to the next, at most a share 2*gap below the target, the broadcast of modes 0 and 2 reaches tdfMax
      within a computed number of iterations and stays there; if all CPUs idle at least a share 2*gap
      above it, that of mode 0 reaches tdfMin and stays there. */
  lemma LoadDecidesBroadcast(cfg: Config, samples: seq<Sample>, ms: seq<Monitor>, gap: real, i: nat, k: nat)
    requires LoadRun(cfg, samples, ms) && 0.0 < gap
    requires i + SettlingSteps(cfg, gap) + CrossingSteps(cfg, gap) <= k < |ms|
    ensures (forall j :: i < j <= k ==> Busy(cfg, ms[j], gap)) ==> Required(cfg, ms[k]) == cfg.tdfMax
    ensures cfg.monitorMode == 0 && (forall j :: i < j <= k ==> Idle(cfg, ms[j], gap)) ==>
              Required(cfg, ms[k]) == cfg.tdfMin
  {
    var settled := i + SettlingSteps(cfg, gap);
    LoadSaturates(cfg, samples, ms, gap, settled, k);
    if forall j :: i < j <= k ==> Busy(cfg, ms[j], gap) {
      forall j | settled < j <= k
        ensures Below(cfg, ms[j], gap)
      {
        BusyMeansBelow(cfg, samples, ms, gap, i, j);
      }
    }
    if forall j :: i < j <= k ==> Idle(cfg, ms[j], gap) {
      forall j | settled < j <= k
        ensures Above(cfg, ms[j], gap)
      {
        IdleMeansAbove(cfg, samples, ms, gap, i, j);
      }
    }
  }

  /** A host all of whose CPUs idle from the start is not slowed down: the average stays at 1, and the
      load controller's TDF, which mode 0 broadcasts, at tdfMin. */
  lemma {:induction false} IdleHostStaysFast(cfg: Config, samples: seq<Sample>, ms: seq<Monitor>, k: nat)
    requires LoadRun(cfg, samples, ms) && k < |ms|
    requires forall j :: 0 < j <= k ==> ms[j].curIdle == 1.0
    ensures ms[k].avgIdle == 1.0 && ms[k].tdfLoad == cfg.tdfMin
    ensures cfg.monitorMode == 0 ==> Required(cfg, ms[k]) == cfg.tdfMin
  {
    Iterates(cfg, samples, ms, k);
    if k > 0 {
      IdleHostStaysFast(cfg, samples, ms, k - 1);
      NextMonitor(cfg, samples, ms, k);
      LoadStepDirection(cfg, cfg.tdfMin, 1.0);
    }
  }

  // ---- The modes ----

  function InMode(cfg: Config, mode: int): Config {
    cfg.(monitorMode := mode, isLoadMonitored := true)
  }

  /** A monitor with the load controller of one and the simulator controller of another. */
  function Both(load: Monitor, sim: Monitor): Monitor {
    load.(tdfSim := sim.tdfSim, avgDelay := sim.avgDelay)
  }

  /** Mode 2 runs the controllers of modes 0 and 1 side by side on the same samples, and broadcasts the
      larger of what these two modes would have broadcast. */
  lemma {:induction false} ModesCombine(
      cfg: Config, samples: seq<Sample>, load: seq<Monitor>, sim: seq<Monitor>, both: seq<Monitor>, k: nat)
    requires IsRun(InMode(cfg, 0), samples, load) && IsRun(InMode(cfg, 1), samples, sim)
    requires IsRun(InMode(cfg, 2), samples, both) && k < |samples|
    ensures both[k] == Both(load[k], sim[k])
    ensures var x, y := Required(InMode(cfg, 0), load[k]), Required(InMode(cfg, 1), sim[k]);
            Required(InMode(cfg, 2), both[k]) == if x < y then y else x
  {
    Iterates(InMode(cfg, 0), samples, load, k);
    Iterates(InMode(cfg, 1), samples, sim, k);
    Iterates(InMode(cfg, 2), samples, both, k);
    if k > 0 {
      ModesCombine(cfg, samples, load, sim, both, k - 1);
      NextInModes(cfg, load[k - 1], sim[k - 1], samples[k]);
    }
  }

  lemma NextInModes(cfg: Config, load: Monitor, sim: Monitor, s: Sample)
    requires Runs(InMode(cfg, 0), load, s) && Runs(InMode(cfg, 1), sim, s)
    requires Runs(InMode(cfg, 2), Both(load, sim), s)
    ensures Watched(InMode(cfg, 2), Both(load, sim), s)
            == Both(Watched(InMode(cfg, 0), load, s), Watched(InMode(cfg, 1), sim, s))
  {
    SameLoadPart(cfg, load, sim, s);
    SameSimPart(cfg, Both(AfterLoad(InMode(cfg, 0), load, s), sim), sim, s);
  }

  lemma SameLoadPart(cfg: Config, load: Monitor, sim: Monitor, s: Sample)
    requires Runs(InMode(cfg, 0), load, s) && Runs(InMode(cfg, 2), Both(load, sim), s)
    ensures AfterLoad(InMode(cfg, 2), Both(load, sim), s) == Both(AfterLoad(InMode(cfg, 0), load, s), sim)
  {
    SameLoadStep(cfg, load.tdfLoad, AfterLoad(InMode(cfg, 0), load, s).avgIdle);
  }

  lemma SameLoadStep(cfg: Config, tdfLoad: real, avgIdle: real)
    requires cfg.Defined()
    ensures LoadStep(InMode(cfg, 2), tdfLoad, avgIdle) == LoadStep(InMode(cfg, 0), tdfLoad, avgIdle)
  {
    assert LoadError(InMode(cfg, 2), avgIdle) == LoadError(InMode(cfg, 0), avgIdle);
  }

  lemma SameSimPart(cfg: Config, m: Monitor, sim: Monitor, s: Sample)
    requires cfg.Defined() && m.tdfSim == sim.tdfSim && m.avgDelay == sim.avgDelay
    ensures AfterSim(InMode(cfg, 2), m, s) == Both(m, AfterSim(InMode(cfg, 1), sim, s))
  {
    SameSimStep(cfg, sim.tdfSim, DelayAverage(cfg.alpha, sim.avgDelay, s.simDelay));
    assert WatchesSimulator(InMode(cfg, 2)) && WatchesSimulator(InMode(cfg, 1));
  }

  lemma SameSimStep(cfg: Config, tdfSim: real, avg: int)
    requires cfg.Defined()
    ensures SimStep(InMode(cfg, 2), tdfSim, avg) == SimStep(InMode(cfg, 1), tdfSim, avg)
  {
    assert SimMove(InMode(cfg, 2), avg) == SimMove(InMode(cfg, 1), avg);
  }
}
