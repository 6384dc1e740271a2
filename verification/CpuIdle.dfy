/** Idle ratios from per-CPU counters (CpuMonitor::getMinXCpuIdleRatio in CpuMonitor.cpp). */
module CpuIdle {
  import opened Arith

  /** One sample of glibtop's counters, one entry per CPU. */
  datatype Counters = Counters(totals: seq<nat>, idles: seq<nat>) {
    predicate WellFormed() {
      && totals != [] && |idles| == |totals|
      && forall i :: 0 <= i < |totals| ==> idles[i] <= totals[i]
    }
  }

  /** `later` can follow `earlier`: no counter falls, and no CPU idles longer than time passes. */
  ghost predicate Follows(earlier: Counters, later: Counters) {
    && earlier.WellFormed() && later.WellFormed() && |earlier.totals| == |later.totals|
    && forall i :: 0 <= i < |earlier.totals| ==>
         && earlier.idles[i] <= later.idles[i] && earlier.totals[i] <= later.totals[i]
         && later.idles[i] - earlier.idles[i] <= later.totals[i] - earlier.totals[i]
  }

  /** A zero counter is replaced by one. */
  function NonZero(n: nat): nat {
    if n != 0 then n else 1
  }

  function NonZeros(ns: seq<nat>): (ms: seq<nat>)
    ensures |ms| == |ns| && forall i :: 0 <= i < |ns| ==> ms[i] == NonZero(ns[i])
  {
    seq(|ns|, i requires 0 <= i < |ns| => NonZero(ns[i]))
  }

  /** The ratio of the differences. 0/0 is a NaN, and is replaced by the ratio of the counters
      themselves; any other division by zero is outside this model. */
  predicate RatioDefined(total0: nat, idle0: nat, total: nat, idle: nat) {
    total != 0 && (total == total0 ==> idle == idle0)
  }

  function Ratio(total0: nat, idle0: nat, total: nat, idle: nat): real
    requires RatioDefined(total0, idle0, total, idle)
  {
    if total == total0 then idle as real / total as real
    else (idle - idle0) as real / (total - total0) as real
  }

  /** Replacing zeros keeps the differences consistent, so every ratio lies in [0, 1]. */
  lemma RatioInUnit(total0: nat, idle0: nat, total: nat, idle: nat)
    requires idle0 <= total0 && idle <= total && idle0 <= idle && total0 <= total && idle - idle0 <= total - total0
    ensures RatioDefined(NonZero(total0), NonZero(idle0), NonZero(total), NonZero(idle))
    ensures 0.0 <= Ratio(NonZero(total0), NonZero(idle0), NonZero(total), NonZero(idle)) <= 1.0
  {
    var t0, i0, t, i := NonZero(total0), NonZero(idle0), NonZero(total), NonZero(idle);
    if t == t0 {
      UnitQuotient(i as real, t as real);
    } else {
      UnitQuotient((i - i0) as real, (t - t0) as real);
    }
  }

  lemma UnitQuotient(a: real, t: Tdf)
    requires 0.0 <= a <= t
    ensures 0.0 <= a / t <= 1.0
  {
    QuotientMonotone(0.0, a, t);
    QuotientMonotone(a, t, t);
    assert t / t == 1.0;
  }

  /** The stored counters and a new sample give a ratio for every CPU. */
  predicate RatiosDefined(totals: seq<nat>, idles: seq<nat>, cpu: Counters) {
    && totals != [] && |idles| == |totals| == |cpu.totals| == |cpu.idles|
    && forall i :: 0 <= i < |totals| ==>
         RatioDefined(totals[i], idles[i], NonZero(cpu.totals[i]), NonZero(cpu.idles[i]))
  }

  function RatioOf(totals: seq<nat>, idles: seq<nat>, cpu: Counters, i: nat): real
    requires RatiosDefined(totals, idles, cpu) && i < |totals|
  {
    Ratio(totals[i], idles[i], NonZero(cpu.totals[i]), NonZero(cpu.idles[i]))
  }

  /** The least ratio among the first `n` CPUs. */
  function MinRatio(totals: seq<nat>, idles: seq<nat>, cpu: Counters, n: nat): (m: real)
    requires RatiosDefined(totals, idles, cpu) && 0 < n <= |totals|
    ensures exists i :: 0 <= i < n && m == RatioOf(totals, idles, cpu, i)
    ensures forall i :: 0 <= i < n ==> m <= RatioOf(totals, idles, cpu, i)
  {
    var last := RatioOf(totals, idles, cpu, n - 1);
    if n == 1 then last
    else
      var m := MinRatio(totals, idles, cpu, n - 1);
      if m > last then last else m
  }

  /** The stored counters come from this sample. */
  ghost predicate StoredFrom(totals: seq<nat>, idles: seq<nat>, cpu: Counters) {
    totals == NonZeros(cpu.totals) && idles == NonZeros(cpu.idles)
  }

  lemma MinRatioInUnit(totals: seq<nat>, idles: seq<nat>, before: Counters, cpu: Counters)
    requires StoredFrom(totals, idles, before) && Follows(before, cpu)
    ensures RatiosDefined(totals, idles, cpu)
    ensures 0.0 <= MinRatio(totals, idles, cpu, |totals|) <= 1.0
  {
    forall i | 0 <= i < |totals|
      ensures RatioDefined(totals[i], idles[i], NonZero(cpu.totals[i]), NonZero(cpu.idles[i]))
      ensures 0.0 <= Ratio(totals[i], idles[i], NonZero(cpu.totals[i]), NonZero(cpu.idles[i])) <= 1.0
    {
      RatioInUnit(before.totals[i], before.idles[i], cpu.totals[i], cpu.idles[i]);
    }
  }

  // ---- What the minimum means, without division ----

  /** How long a CPU ran and idled since the stored counters; since it was started, if it did not run
      since. */
  function Elapsed(total0: nat, total: nat): int {
    if total == total0 then total else total - total0
  }

  function Idled(total0: nat, idle0: nat, total: nat, idle: nat): int {
    if total == total0 then idle else idle - idle0
  }

  function ElapsedOf(totals: seq<nat>, cpu: Counters, i: nat): int
    requires i < |totals| == |cpu.totals|
  {
    Elapsed(totals[i], NonZero(cpu.totals[i]))
  }

  function IdledOf(totals: seq<nat>, idles: seq<nat>, cpu: Counters, i: nat): int
    requires i < |totals| == |idles| == |cpu.totals| == |cpu.idles|
  {
    Idled(totals[i], idles[i], NonZero(cpu.totals[i]), NonZero(cpu.idles[i]))
  }

  predicate AtLeastShare(share: real, elapsed: int, idled: int) {
    share * elapsed as real <= idled as real
  }

  predicate ExactlyShare(share: real, elapsed: int, idled: int) {
    share * elapsed as real == idled as real
  }

  /** Every CPU idled at least this share of the time it ran, and some CPU exactly this share. */
  ghost predicate IsLeastShare(share: real, totals: seq<nat>, idles: seq<nat>, cpu: Counters) {
    && |totals| == |idles| == |cpu.totals| == |cpu.idles|
    && (forall i :: 0 <= i < |totals| && 0 < ElapsedOf(totals, cpu, i) ==>
          AtLeastShare(share, ElapsedOf(totals, cpu, i), IdledOf(totals, idles, cpu, i)))
    && (exists i :: 0 <= i < |totals| && ExactlyShare(share, ElapsedOf(totals, cpu, i), IdledOf(totals, idles, cpu, i)))
  }

  lemma MinRatioIsLeastShare(totals: seq<nat>, idles: seq<nat>, cpu: Counters)
    requires RatiosDefined(totals, idles, cpu)
    ensures IsLeastShare(MinRatio(totals, idles, cpu, |totals|), totals, idles, cpu)
  {
    var min := MinRatio(totals, idles, cpu, |totals|);
    forall i | 0 <= i < |totals| && 0 < ElapsedOf(totals, cpu, i)
      ensures AtLeastShare(min, ElapsedOf(totals, cpu, i), IdledOf(totals, idles, cpu, i))
    {
      RatioIsShare(totals, idles, cpu, i);
      SmallerShare(min, RatioOf(totals, idles, cpu, i), ElapsedOf(totals, cpu, i), IdledOf(totals, idles, cpu, i));
    }
    var i :| 0 <= i < |totals| && min == RatioOf(totals, idles, cpu, i);
    RatioIsShare(totals, idles, cpu, i);
  }

  lemma SmallerShare(share: real, larger: real, elapsed: int, idled: int)
    requires share <= larger && 0 < elapsed && ExactlyShare(larger, elapsed, idled)
    ensures AtLeastShare(share, elapsed, idled)
  {
    Scaled(share, larger, elapsed as real);
  }

  lemma RatioIsShare(totals: seq<nat>, idles: seq<nat>, cpu: Counters, i: nat)
    requires RatiosDefined(totals, idles, cpu) && i < |totals|
    ensures ExactlyShare(RatioOf(totals, idles, cpu, i), ElapsedOf(totals, cpu, i), IdledOf(totals, idles, cpu, i))
  {
    assert RatioDefined(totals[i], idles[i], NonZero(cpu.totals[i]), NonZero(cpu.idles[i]));
    QuotientBack(IdledOf(totals, idles, cpu, i) as real, ElapsedOf(totals, cpu, i) as real);
  }

  lemma QuotientBack(a: real, b: real)
    requires b != 0.0
    ensures (a / b) * b == a
  {
  }

  /** With consistent counters the minimum is 1 exactly if every CPU idled all the time, and 0
      exactly if some CPU did not idle at all. */
  lemma MinRatioExtremes(totals: seq<nat>, idles: seq<nat>, before: Counters, cpu: Counters)
    requires StoredFrom(totals, idles, before) && Follows(before, cpu)
    ensures RatiosDefined(totals, idles, cpu)
    ensures MinRatio(totals, idles, cpu, |totals|) == 1.0 <==>
            forall i :: 0 <= i < |totals| ==> IdledOf(totals, idles, cpu, i) == ElapsedOf(totals, cpu, i)
    ensures MinRatio(totals, idles, cpu, |totals|) == 0.0 <==>
            exists i :: 0 <= i < |totals| && IdledOf(totals, idles, cpu, i) == 0
  {
    MinRatioInUnit(totals, idles, before, cpu);
    MinRatioIsLeastShare(totals, idles, cpu);
    var min := MinRatio(totals, idles, cpu, |totals|);
    forall i | 0 <= i < |totals|
      ensures 0 < ElapsedOf(totals, cpu, i) && 0 <= IdledOf(totals, idles, cpu, i) <= ElapsedOf(totals, cpu, i)
      ensures min == 1.0 ==> IdledOf(totals, idles, cpu, i) == ElapsedOf(totals, cpu, i)
      ensures IdledOf(totals, idles, cpu, i) == 0 ==> min == 0.0
    {
      ConsistentShare(before.totals[i], before.idles[i], cpu.totals[i], cpu.idles[i]);
      ShareBelow(min, ElapsedOf(totals, cpu, i), IdledOf(totals, idles, cpu, i));
    }
    var k :| 0 <= k < |totals| && ExactlyShare(min, ElapsedOf(totals, cpu, k), IdledOf(totals, idles, cpu, k));
    ShareExtremes(min, ElapsedOf(totals, cpu, k), IdledOf(totals, idles, cpu, k));
  }

  lemma ConsistentShare(total0: nat, idle0: nat, total: nat, idle: nat)
    requires idle0 <= total0 && idle <= total && idle0 <= idle && total0 <= total && idle - idle0 <= total - total0
    ensures 0 < Elapsed(NonZero(total0), NonZero(total))
    ensures 0 <= Idled(NonZero(total0), NonZero(idle0), NonZero(total), NonZero(idle)) <=
            Elapsed(NonZero(total0), NonZero(total))
  {
  }

  lemma ShareExtremes(share: real, elapsed: int, idled: int)
    requires 0 < elapsed && ExactlyShare(share, elapsed, idled)
    ensures share == 1.0 <==> idled == elapsed
    ensures share == 0.0 <==> idled == 0
  {
    assert share == idled as real / elapsed as real;
  }

  lemma ShareBelow(share: real, elapsed: int, idled: int)
    requires 0.0 <= share && 0 <= idled <= elapsed && 0 < elapsed && AtLeastShare(share, elapsed, idled)
    ensures share == 1.0 ==> idled == elapsed
    ensures idled == 0 ==> share == 0.0
  {
    if 0.0 < share {
      StrictlyScaled(0.0, share, elapsed as real);
    }
  }
}
