/** The loop body of CpuMonitor::start in CpuMonitor.cpp: sample, control, clamp, broadcast. */
module CpuMonitors {
  import opened Arith
  import opened Wrappers
  import opened Controllers
  import opened CpuIdle

  /** A simulator report older than this many microseconds is not used. */
  const STALE_US := 10_000_000

  /** What one iteration reads: the CPU counters, the simulator's report and the current time. */
  datatype Sample = Sample(cpu: Counters, simTime: nat, simDelay: nat, now: nat) {
    predicate Fresh() {
      Gap(simTime, now) < STALE_US
    }
  }

  datatype Monitor = Monitor(
    tdfLoad: real, tdfSim: real,
    avgIdle: real, curIdle: real, avgDelay: int,
    totals: seq<nat>, idles: seq<nat>)

  /** The constructor, and the local TDFs of start(). */
  function Started(cfg: Config, cpu: Counters): Monitor {
    Monitor(cfg.tdfMin, cfg.tdfMin, 1.0, 1.0, cfg.targetDelay, NonZeros(cpu.totals), NonZeros(cpu.idles))
  }

  predicate WatchesLoad(cfg: Config) {
    cfg.isLoadMonitored && (cfg.monitorMode == 0 || cfg.monitorMode == 2)
  }

  predicate WatchesSimulator(cfg: Config) {
    cfg.isLoadMonitored && (cfg.monitorMode == 1 || cfg.monitorMode == 2)
  }

  predicate Runs(cfg: Config, m: Monitor, s: Sample) {
    cfg.Defined() && (WatchesLoad(cfg) ==> RatiosDefined(m.totals, m.idles, s.cpu))
  }

  function AfterLoad(cfg: Config, m: Monitor, s: Sample): Monitor
    requires Runs(cfg, m, s)
  {
    if WatchesLoad(cfg) then
      var cur := MinRatio(m.totals, m.idles, s.cpu, |m.totals|);
      var avg := Average(cfg.alpha, m.avgIdle, cur);
      m.(curIdle := cur, avgIdle := avg, tdfLoad := LoadStep(cfg, m.tdfLoad, avg),
         totals := NonZeros(s.cpu.totals), idles := NonZeros(s.cpu.idles))
    else m
  }

  function AfterSim(cfg: Config, m: Monitor, s: Sample): Monitor
    requires cfg.Defined()
  {
    if !WatchesSimulator(cfg) then m
    else if s.Fresh() then
      var avg := DelayAverage(cfg.alpha, m.avgDelay, s.simDelay);
      m.(avgDelay := avg, tdfSim := SimStep(cfg, m.tdfSim, avg))
    else m.(tdfSim := cfg.tdfMin)
  }

  function Watched(cfg: Config, m: Monitor, s: Sample): Monitor
    requires Runs(cfg, m, s)
  {
    AfterSim(cfg, AfterLoad(cfg, m, s), s)
  }

  /** The TDF that the mode selects: in mode 2 the one that slows more. */
  function Required(cfg: Config, m: Monitor): (tdf: real)
    ensures cfg.monitorMode == 2 ==> m.tdfSim <= tdf && m.tdfLoad <= tdf
    ensures tdf in {m.tdfLoad, m.tdfSim, cfg.tdfMin}
    ensures cfg.monitorMode !in {0, 1, 2} ==> tdf == cfg.tdfMin
  {
    match cfg.monitorMode
    case 0 => m.tdfLoad
    case 1 => m.tdfSim
    case 2 => if m.tdfSim > m.tdfLoad then m.tdfSim else m.tdfLoad
    case _ => cfg.tdfMin
  }

  class CpuMonitor {
    var tdfLoad: real
    var tdfSim: real
    var avgMinXCpuIdleRatio: real
    var curMinXCpuIdleRatio: real
    var avgSimStateOverheadDelay: int
    var xcpuTotal: seq<nat>
    var xcpuIdle: seq<nat>

    ghost function State(): Monitor
      reads this
    {
      Monitor(tdfLoad, tdfSim, avgMinXCpuIdleRatio, curMinXCpuIdleRatio, avgSimStateOverheadDelay, xcpuTotal, xcpuIdle)
    }

    constructor (cfg: Config, cpu: Counters)
      requires |cpu.totals| == |cpu.idles|
      ensures State() == Started(cfg, cpu)
    {
      tdfLoad, tdfSim := cfg.tdfMin, cfg.tdfMin;
      avgMinXCpuIdleRatio, curMinXCpuIdleRatio := 1.0, 1.0;
      avgSimStateOverheadDelay := cfg.targetDelay;
      var totals, idles: seq<nat> := [], [];
      for i := 0 to |cpu.totals|
        invariant totals == NonZeros(cpu.totals[..i]) && idles == NonZeros(cpu.idles[..i])
      {
        totals := totals + [NonZero(cpu.totals[i])];
        idles := idles + [NonZero(cpu.idles[i])];
        assert cpu.totals[..i + 1] == cpu.totals[..i] + [cpu.totals[i]];
        assert cpu.idles[..i + 1] == cpu.idles[..i] + [cpu.idles[i]];
      }
      assert cpu.totals[..|cpu.totals|] == cpu.totals && cpu.idles[..|cpu.idles|] == cpu.idles;
      xcpuTotal, xcpuIdle := totals, idles;
    }

    /** getMinXCpuIdleRatio: the exact minimum over the CPUs, against the counters of last time. */
    method GetMinXCpuIdleRatio(cpu: Counters) returns (min: real)
      requires RatiosDefined(xcpuTotal, xcpuIdle, cpu)
      modifies this`xcpuTotal, this`xcpuIdle
      ensures min == MinRatio(old(xcpuTotal), old(xcpuIdle), cpu, |cpu.totals|)
      ensures IsLeastShare(min, old(xcpuTotal), old(xcpuIdle), cpu)
      ensures xcpuTotal == NonZeros(cpu.totals) && xcpuIdle == NonZeros(cpu.idles)
    {
      ghost var totals, idles := xcpuTotal, xcpuIdle;
      min := 1.0;
      for i := 0 to |cpu.totals|
        invariant |xcpuTotal| == |xcpuIdle| == |cpu.totals|
        invariant forall k :: 0 <= k < i ==>
                    xcpuTotal[k] == NonZero(cpu.totals[k]) && xcpuIdle[k] == NonZero(cpu.idles[k])
        invariant forall k :: i <= k < |cpu.totals| ==> xcpuTotal[k] == totals[k] && xcpuIdle[k] == idles[k]
        invariant 0 < i ==> min == MinRatio(totals, idles, cpu, i)
      {
        assert RatioDefined(totals[i], idles[i], NonZero(cpu.totals[i]), NonZero(cpu.idles[i]));
        var total, idle := NonZero(cpu.totals[i]), NonZero(cpu.idles[i]);
        var ratio := Ratio(xcpuTotal[i], xcpuIdle[i], total, idle);
        assert ratio == RatioOf(totals, idles, cpu, i);
        xcpuTotal := xcpuTotal[i := total];
        xcpuIdle := xcpuIdle[i := idle];
        if i == 0 {
          min := ratio;
        } else if min > ratio {
          min := ratio;
        }
      }
      MinRatioIsLeastShare(totals, idles, cpu);
    }

    /** The load part of an iteration. */
    method WatchLoad(cfg: Config, s: Sample)
      requires Runs(cfg, State(), s) && WatchesLoad(cfg)
      modifies this
      ensures State() == AfterLoad(cfg, old(State()), s)
    {
      curMinXCpuIdleRatio := GetMinXCpuIdleRatio(s.cpu);
      avgMinXCpuIdleRatio := Average(cfg.alpha, avgMinXCpuIdleRatio, curMinXCpuIdleRatio);
      var linearIncrement := LoadError(cfg, avgMinXCpuIdleRatio);
      tdfLoad := tdfLoad - LoadMove(cfg, linearIncrement);
      if tdfLoad < cfg.tdfMin {
        tdfLoad := cfg.tdfMin;
      } else if tdfLoad > cfg.tdfMax {
        tdfLoad := cfg.tdfMax;
      }
    }

    /** The simulator part of an iteration. */
    method WatchSimulator(cfg: Config, s: Sample)
      requires cfg.Defined() && WatchesSimulator(cfg)
      modifies this
      ensures State() == AfterSim(cfg, old(State()), s)
    {
      var timeDiff: int := if s.simTime > s.now then s.simTime - s.now else s.now - s.simTime;
      if timeDiff < STALE_US {
        avgSimStateOverheadDelay := DelayAverage(cfg.alpha, avgSimStateOverheadDelay, s.simDelay);
        tdfSim := tdfSim + SimMove(cfg, avgSimStateOverheadDelay);
        if tdfSim < cfg.tdfMin {
          tdfSim := cfg.tdfMin;
        } else if tdfSim > cfg.tdfMax {
          tdfSim := cfg.tdfMax;
        }
      } else {
        tdfSim := cfg.tdfMin;
      }
    }

    /** One iteration of start(); the result is the TDF that is broadcast, if any. */
    method Iterate(cfg: Config, s: Sample) returns (rTdf: Option<real>)
      requires Runs(cfg, State(), s)
      modifies this
      ensures State() == Watched(cfg, old(State()), s)
      ensures rTdf == if cfg.isLoadMonitored then Some(Required(cfg, State())) else None
    {
      rTdf := None;
      if cfg.isLoadMonitored {
        if cfg.monitorMode == 0 || cfg.monitorMode == 2 {
          WatchLoad(cfg, s);
        }
        if cfg.monitorMode == 1 || cfg.monitorMode == 2 {
          WatchSimulator(cfg, s);
        }
        match cfg.monitorMode {
          case 0 => rTdf := Some(tdfLoad);
          case 1 => rTdf := Some(tdfSim);
          case 2 => rTdf := Some(if tdfSim > tdfLoad then tdfSim else tdfLoad);
          case _ => rTdf := Some(cfg.tdfMin);
        }
      }
    }
  }

  // ---- Runs ----

  ghost predicate InRange(cfg: Config, m: Monitor) {
    cfg.tdfMin <= m.tdfLoad <= cfg.tdfMax && cfg.tdfMin <= m.tdfSim <= cfg.tdfMax
  }

  /** Under one configuration with tdfMin <= tdfMax, the TDFs and whatever is broadcast stay within
      the limits, whatever the samples are. */
  lemma BroadcastsInRange(cfg: Config, m: Monitor, s: Sample)
    requires Runs(cfg, m, s) && cfg.tdfMin <= cfg.tdfMax && InRange(cfg, m)
    ensures InRange(cfg, Watched(cfg, m, s))
    ensures cfg.tdfMin <= Required(cfg, Watched(cfg, m, s)) <= cfg.tdfMax
  {
  }

  /** New limits hold from the next iteration on, whatever the TDFs were before. */
  lemma NewLimitsTakeEffect(cfg: Config, m: Monitor, s: Sample)
    requires Runs(cfg, m, s) && cfg.tdfMin <= cfg.tdfMax && cfg.isLoadMonitored
    ensures cfg.tdfMin <= Required(cfg, Watched(cfg, m, s)) <= cfg.tdfMax
  {
    assert cfg.monitorMode == 0 || cfg.monitorMode == 1 || cfg.monitorMode == 2 || Required(cfg, m) == cfg.tdfMin;
  }

  /** One broadcast of mode 0 after another: the TDF moves against the error of the averaged idle ratio,
      relative to the target load, by changeSlope times the n-th power of twice the error, and stops at
      its limits. */
  lemma BroadcastMoves(cfg: Config, m: Monitor, s: Sample, e: real)
    requires Runs(cfg, m, s) && cfg.Sane() && cfg.isLoadMonitored && cfg.monitorMode == 0
    requires e * cfg.targetLoad == Watched(cfg, m, s).avgIdle - (1.0 - cfg.targetLoad)
    ensures var size := cfg.changeSlope * Pow(2.0 * Abs(e), cfg.nonlinearFactor);
            var move := if e < 0.0 then size else if 0.0 < e then -size else 0.0;
            Required(cfg, Watched(cfg, m, s)) == Clamp(Required(cfg, m) + move, cfg.tdfMin, cfg.tdfMax)
  {
    LoadStepMoves(cfg, m.tdfLoad, Watched(cfg, m, s).avgIdle, e,
                  cfg.changeSlope * Pow(2.0 * Abs(e), cfg.nonlinearFactor));
  }

  /** In mode 0 the broadcast follows the load: it does not fall while the averaged idle ratio is at or
      below its target, and does not rise while it is at or above. */
  lemma BroadcastFollowsLoad(cfg: Config, m: Monitor, s: Sample)
    requires Runs(cfg, m, s) && cfg.Sane() && InRange(cfg, m) && cfg.isLoadMonitored && cfg.monitorMode == 0
    ensures var m' := Watched(cfg, m, s);
            && (m'.avgIdle <= 1.0 - cfg.targetLoad ==> Required(cfg, m) <= Required(cfg, m'))
            && (m'.avgIdle >= 1.0 - cfg.targetLoad ==> Required(cfg, m') <= Required(cfg, m))
  {
    LoadStepDirection(cfg, m.tdfLoad, Watched(cfg, m, s).avgIdle);
  }

  /** A simulator report ten seconds off, or more, does not count: the load controller alone decides in mode 2, and
      nothing slows more than the minimum in mode 1; the average waits for the next fresh report. */
  lemma StaleReportIsIgnored(cfg: Config, m: Monitor, s: Sample)
    requires cfg.tdfMin <= cfg.tdfMax && InRange(cfg, m) && !(-10_000_000 < s.now - s.simTime < 10_000_000)
    requires Runs(cfg, m, s) && WatchesSimulator(cfg)
    ensures var m' := Watched(cfg, m, s);
            && Required(cfg, m') == (if cfg.monitorMode == 2 then m'.tdfLoad else cfg.tdfMin)
            && m'.avgDelay == m.avgDelay
  {
    BroadcastsInRange(cfg, m, s);
  }

  /** The counters of every later sample follow those of every earlier one. */
  ghost predicate CountersGrow(samples: seq<Sample>) {
    forall i, j :: 0 <= i <= j < |samples| ==> Follows(samples[i].cpu, samples[j].cpu)
  }

  /** The state after sample `k`, where sample 0 is the constructor's and the configuration of each
      iteration may be another one; None when an iteration is not defined. */
  function AfterSamples(cfgs: seq<Config>, samples: seq<Sample>, k: nat): Option<Monitor>
    requires k < |samples| == |cfgs|
  {
    if k == 0 then Some(Started(cfgs[0], samples[0].cpu))
    else
      var before := AfterSamples(cfgs, samples, k - 1);
      if before.Some? && Runs(cfgs[k], before.value, samples[k])
      then Some(Watched(cfgs[k], before.value, samples[k]))
      else None
  }

  /** The idle ratios lie in [0, 1], and the stored counters come from this sample. */
  ghost predicate IdleInUnit(m: Monitor, cpu: Counters) {
    0.0 <= m.avgIdle <= 1.0 && 0.0 <= m.curIdle <= 1.0 && StoredFrom(m.totals, m.idles, cpu)
  }

  lemma IterationKeepsIdleInUnit(cfg: Config, m: Monitor, s: Sample, before: Counters)
    requires cfg.Sane() && IdleInUnit(m, before) && Follows(before, s.cpu)
    ensures Runs(cfg, m, s)
    ensures IdleInUnit(Watched(cfg, m, s), if WatchesLoad(cfg) then s.cpu else before)
  {
    MinRatioInUnit(m.totals, m.idles, before, s.cpu);
    AverageBetween(cfg.alpha, m.avgIdle, MinRatio(m.totals, m.idles, s.cpu, |m.totals|), 0.0, 1.0);
  }

  /** Over every run of growing counters, with any sane configurations (so that the load may be
      watched only now and then), every iteration is defined, and the idle ratios, the current one
      and the average, stay in [0, 1]. `last` is the sample the stored counters come from. */
  lemma {:induction false} IdleRatiosInUnit(cfgs: seq<Config>, samples: seq<Sample>, k: nat) returns (last: nat)
    requires k < |samples| == |cfgs| && CountersGrow(samples)
    requires forall i :: 0 <= i < |cfgs| ==> cfgs[i].Sane()
    ensures last <= k && AfterSamples(cfgs, samples, k).Some?
    ensures IdleInUnit(AfterSamples(cfgs, samples, k).value, samples[last].cpu)
  {
    last := 0;
    if k > 0 {
      last := IdleRatiosInUnit(cfgs, samples, k - 1);
      var m := AfterSamples(cfgs, samples, k - 1).value;
      IterationKeepsIdleInUnit(cfgs[k], m, samples[k], samples[last].cpu);
      last := if WatchesLoad(cfgs[k]) then k else last;
    }
  }

  /** A report of this delay, less than ten seconds off. */
  predicate HeldAt(s: Sample, x: nat) {
    -10_000_000 < s.now - s.simTime < 10_000_000 && s.simDelay == x
  }

  /** Every iteration under one configuration, in which the simulator has just reported this delay. */
  ghost predicate Held(cfgs: seq<Config>, samples: seq<Sample>, cfg: Config, x: nat) {
    && |cfgs| == |samples|
    && (forall i :: 0 <= i < |cfgs| ==> cfgs[i] == cfg)
    && (forall i :: 1 <= i < |samples| ==> HeldAt(samples[i], x))
  }

  lemma {:induction false} MonitorFollowsSimRun(cfgs: seq<Config>, samples: seq<Sample>, cfg: Config, x: nat, k: nat)
    requires Held(cfgs, samples, cfg, x) && k < |samples| && CountersGrow(samples)
    requires cfg.Sane() && WatchesSimulator(cfg)
    ensures AfterSamples(cfgs, samples, k).Some?
    ensures var m := AfterSamples(cfgs, samples, k).value;
            && m.avgDelay == DelayAverages(cfg.alpha, cfg.targetDelay, x, k)
            && m.tdfSim == SimRun(cfg, cfg.tdfMin, cfg.targetDelay, x, k)
  {
    var last := IdleRatiosInUnit(cfgs, samples, k);
    if k > 0 {
      MonitorFollowsSimRun(cfgs, samples, cfg, x, k - 1);
      var m := AfterSamples(cfgs, samples, k - 1).value;
      assert AfterLoad(cfg, m, samples[k]).tdfSim == m.tdfSim && AfterLoad(cfg, m, samples[k]).avgDelay == m.avgDelay;
    }
  }

  /** What a monitor that keeps seeing the same simulator delay ends up broadcasting, for good:
      tdfMax exactly if the delay is at least 1/alpha above its target; otherwise the simulator
      counts for nothing, and it is the load controller's TDF in mode 2 and tdfMin in mode 1. */
  lemma MonitorSaturates(cfgs: seq<Config>, samples: seq<Sample>, cfg: Config, x: nat, k: nat)
    requires Held(cfgs, samples, cfg, x) && k < |samples| && CountersGrow(samples)
    requires cfg.Sane() && WatchesSimulator(cfg) && StepsToSaturate(cfg, cfg.targetDelay, x) <= k
    ensures AfterSamples(cfgs, samples, k).Some?
    ensures var m := AfterSamples(cfgs, samples, k).value;
            Required(cfg, m) == if cfg.targetDelay as real + 1.0 / cfg.alpha <= x as real then cfg.tdfMax
                                else if cfg.monitorMode == 2 then m.tdfLoad else cfg.tdfMin
  {
    MonitorFollowsSimRun(cfgs, samples, cfg, x, k);
    SimControllerEndsAt(cfg, cfg.tdfMin, x, k);
    RunStaysInRange(cfgs, samples, cfg, k);
  }

  lemma {:induction false} RunStaysInRange(cfgs: seq<Config>, samples: seq<Sample>, cfg: Config, k: nat)
    requires k < |samples| == |cfgs| && cfg.tdfMin <= cfg.tdfMax
    requires forall i :: 0 <= i < |cfgs| ==> cfgs[i] == cfg
    ensures AfterSamples(cfgs, samples, k).Some? ==> InRange(cfg, AfterSamples(cfgs, samples, k).value)
  {
    if k > 0 {
      RunStaysInRange(cfgs, samples, cfg, k - 1);
      var before := AfterSamples(cfgs, samples, k - 1);
      if before.Some? && Runs(cfg, before.value, samples[k]) {
        BroadcastsInRange(cfg, before.value, samples[k]);
      }
    }
  }
}
