/** The dilated cycle counter of shared/qemu-timer.c. Unlike the clock, reading it changes it: a raw
    counter that fell (after a host suspend) is made up for in the offset. */
module TickCounter {
  import opened Arith

  datatype TickState = TickState(enabled: bool, prev: int, offset: int, restart: int, tdf: Tdf)

  /** The offset after the correction for a raw counter that fell from `prev` to `raw`. */
  function Corrected(s: TickState, raw: int): int {
    if s.prev > raw then Trunc(s.offset as real + (s.prev - raw) as real / s.tdf) else s.offset
  }

  function ExactTicks(s: TickState, raw: int): real {
    s.restart as real + (raw - s.restart) as real / s.tdf + s.offset as real
  }

  /** The state that reading the counter leaves behind. */
  function AfterRead(s: TickState, raw: int): TickState {
    if s.enabled then s.(offset := Corrected(s, raw), prev := raw) else s
  }

  /** __cpu_get_ticks: the value that is read. */
  function Ticks(s: TickState, raw: int): int {
    if s.enabled then Trunc(ExactTicks(AfterRead(s, raw), raw)) else s.offset
  }

  /** cpu_enable_ticks; the previous raw value stays. */
  function EnableTicks(s: TickState, raw: int): TickState {
    if s.enabled then s else s.(enabled := true, offset := s.offset - raw, restart := raw)
  }

  /** cpu_disable_ticks */
  function DisableTicks(s: TickState, raw: int): TickState {
    if s.enabled then AfterRead(s, raw).(enabled := false, offset := Ticks(s, raw)) else s
  }

  /** Freezing keeps the value just read, and a counter whose raw value did not fall resumes at
      the frozen value. */
  lemma FreezeAndResume(s: TickState, raw: int)
    ensures DisableTicks(s, raw).offset == Ticks(s, raw)
    ensures !s.enabled && s.prev <= raw ==> Ticks(EnableTicks(s, raw), raw) == s.offset
  {
    if !s.enabled && s.prev <= raw {
      var s' := EnableTicks(s, raw);
      assert (raw - s'.restart) as real / s'.tdf == 0.0;
      assert ExactTicks(AfterRead(s', raw), raw) == s.offset as real;
    }
  }

  /** A fall while frozen is made up for at the first read after enabling, because enabling leaves the
      previous raw value alone: the counter then shows the frozen value plus the dilated fall, to within
      one unit. */
  lemma FallWhileFrozen(s: TickState, raw: int)
    requires !s.enabled && raw <= s.prev
    ensures var made := Ticks(EnableTicks(s, raw), raw) as real - s.offset as real;
            (s.prev - raw) as real / s.tdf - 1.0 < made < (s.prev - raw) as real / s.tdf + 1.0
  {
    ResumedTicks(s, raw);
    var fall := (s.prev - raw) as real / s.tdf;
    assert s.prev == raw ==> fall == 0.0;
    CorrectedBy((s.offset - raw) as real, fall);
  }

  lemma ResumedTicks(s: TickState, raw: int)
    requires !s.enabled
    ensures Ticks(EnableTicks(s, raw), raw) == raw + Corrected(EnableTicks(s, raw), raw)
  {
    var s' := EnableTicks(s, raw);
    assert (raw - s'.restart) as real / s'.tdf == 0.0;
    assert ExactTicks(AfterRead(s', raw), raw) == (raw + Corrected(s', raw)) as real;
  }

  lemma CorrectedBy(offset: real, fall: real)
    ensures -1.0 < Trunc(offset + fall) as real - offset - fall < 1.0
  {
  }

  /** Two consecutive reads of an enabled counter, at `prev` and then at `raw`: the second is at
      least the first minus one, and at least the first unless the raw counter fell and the
      corrected offset was rounded down. Nor does it run ahead: a fall of the raw counter adds at
      most one unit, a rise less than one more than the dilated rise. */
  lemma NextRead(s: TickState, raw: int)
    requires s.enabled
    ensures Ticks(s, s.prev) - 1 <= Ticks(s, raw)
    ensures s.prev <= raw || s.offset as real + (s.prev - raw) as real / s.tdf <= 0.0 ==>
              Ticks(s, s.prev) <= Ticks(s, raw)
    ensures raw < s.prev ==> Ticks(s, raw) <= Ticks(s, s.prev) + 1
    ensures s.prev <= raw ==>
              (Ticks(s, raw) - Ticks(s, s.prev)) as real < (raw - s.prev) as real / s.tdf + 1.0
  {
    var before := ExactTicks(s, s.prev);
    var after := ExactTicks(AfterRead(s, raw), raw);
    assert AfterRead(s, s.prev) == s;
    var fall := (s.prev - raw) as real / s.tdf;
    assert (raw - s.restart) as real / s.tdf == (s.prev - s.restart) as real / s.tdf - fall;
    if s.prev <= raw {
      assert fall == -((raw - s.prev) as real / s.tdf);
      QuotientMonotone((s.prev - raw) as real, 0.0, s.tdf);
      TruncMonotone(before, after);
    } else {
      assert before - after == s.offset as real + fall - Corrected(s, raw) as real;
      assert after - 1.0 <= before <= after + 1.0;
      TruncShift(after, before, 1);
      TruncShift(before, after, 1);
      if s.offset as real + fall <= 0.0 {
        TruncMonotone(before, after);
      }
    }
  }

  /** The lost unit does occur: started at raw 0 with 10 ticks on the counter and a TDF of 2, reads
      at raw 2 and then at raw 1 yield 11 and then 10. */
  lemma FallingCounterLosesATick()
    ensures var s := EnableTicks(TickState(false, 0, 10, 0, 2.0), 0);
            var s' := AfterRead(s, 2);
            Ticks(s, 2) == 11 && Ticks(s', 1) == 10
  {
    var s := EnableTicks(TickState(false, 0, 10, 0, 2.0), 0);
    var s' := AfterRead(s, 2);
    assert ExactTicks(s', 2) == 11.0;
    assert Corrected(s', 1) == 10;
    assert ExactTicks(AfterRead(s', 1), 1) == 10.5;
  }

  // ---- All reads of one enabled period ----

  /** The state before read number `k`. */
  function Before(s: TickState, raws: seq<int>, k: nat): TickState
    requires k <= |raws|
  {
    if k == 0 then s else AfterRead(Before(s, raws, k - 1), raws[k - 1])
  }

  function NthTicks(s: TickState, raws: seq<int>, k: nat): int
    requires k < |raws|
  {
    Ticks(Before(s, raws, k), raws[k])
  }

  /** How often the raw counter falls from one read to the next, between reads `i` and `j`. */
  function Falls(raws: seq<int>, i: nat, j: nat): nat
    requires i <= j < |raws|
  {
    if i == j then 0 else Falls(raws, i, j - 1) + if raws[j] < raws[j - 1] then 1 else 0
  }

  /** Over any reads of one enabled period, the counter goes back by at most one unit for each
      fall of the raw counter; in particular it never goes back while the raw counter does not. */
  lemma {:induction false} TicksLoseAtMostFalls(s: TickState, raws: seq<int>, i: nat, j: nat)
    requires s.enabled && i <= j < |raws|
    ensures NthTicks(s, raws, i) - Falls(raws, i, j) <= NthTicks(s, raws, j)
  {
    if i < j {
      TicksLoseAtMostFalls(s, raws, i, j - 1);
      StaysEnabled(s, raws, j - 1);
      ReadAgain(Before(s, raws, j - 1), raws[j - 1]);
      NextRead(Before(s, raws, j), raws[j]);
    }
  }

  lemma {:induction false} StaysEnabled(s: TickState, raws: seq<int>, k: nat)
    requires s.enabled && k <= |raws|
    ensures Before(s, raws, k).enabled && Before(s, raws, k).tdf == s.tdf
  {
    if k > 0 {
      StaysEnabled(s, raws, k - 1);
    }
  }

  // ---- At which TDFs no tick is ever lost ----

  predicate Whole(x: real) {
    x == x.Floor as real
  }

  /** Over any reads of an enabled period at this TDF, from any state, the ticks never go back. */
  ghost predicate NeverGoesBack(tdf: Tdf) {
    forall s: TickState, raws: seq<int>, i: nat, j: nat :: s.enabled && s.tdf == tdf && i <= j < |raws| ==>
      NthTicks(s, raws, i) <= NthTicks(s, raws, j)
  }

  /** The ticks never go back, whatever the raw counter does, exactly if 1/tdf is a whole number:
      at TDF 1, then, but at no TDF above it. */
  lemma TicksNeverGoBackExactly(tdf: Tdf)
    ensures NeverGoesBack(tdf) <==> Whole(1.0 / tdf)
    ensures tdf == 1.0 ==> NeverGoesBack(tdf)
    ensures 1.0 < tdf ==> !NeverGoesBack(tdf)
  {
    if Whole(1.0 / tdf) {
      forall s: TickState, raws: seq<int>, i: nat, j: nat | s.enabled && s.tdf == tdf && i <= j < |raws|
        ensures NthTicks(s, raws, i) <= NthTicks(s, raws, j)
      {
        WholeRatesKeepTicks(s, raws, i, j);
      }
    } else {
      var s, raws := TickState(true, 1, 1, 1, tdf), [1, 0];
      OneFallLosesATick(tdf);
      assert Before(s, raws, 1) == AfterRead(Before(s, raws, 0), raws[0]) == s;
      assert NthTicks(s, raws, 0) == 2 && NthTicks(s, raws, 1) == 1;
    }
    if 1.0 < tdf {
      QuotientBelowOne(tdf);
    }
  }

  lemma QuotientBelowOne(tdf: Tdf)
    requires 1.0 < tdf
    ensures 0.0 < 1.0 / tdf < 1.0
  {
    var q := 1.0 / tdf;
    assert q * tdf == 1.0;
    if 1.0 <= q {
      StrictlyScaled(1.0, tdf, q);
    }
  }

  lemma {:induction false} WholeRatesKeepTicks(s: TickState, raws: seq<int>, i: nat, j: nat)
    requires s.enabled && Whole(1.0 / s.tdf) && i <= j < |raws|
    ensures NthTicks(s, raws, i) <= NthTicks(s, raws, j)
  {
    if i < j {
      WholeRatesKeepTicks(s, raws, i, j - 1);
      StaysEnabled(s, raws, j - 1);
      StaysEnabled(s, raws, j);
      ReadAgain(Before(s, raws, j - 1), raws[j - 1]);
      WholeRateKeepsTicks(Before(s, raws, j), raws[j]);
    }
  }

  /** A whole number of ticks per raw unit is made up for without rounding. */
  lemma WholeRateKeepsTicks(s: TickState, raw: int)
    requires s.enabled && Whole(1.0 / s.tdf)
    ensures Ticks(s, s.prev) <= Ticks(s, raw)
  {
    if raw < s.prev {
      var made := WholeQuotient(s.prev - raw, s.tdf);
      assert Corrected(s, raw) == s.offset + made;
      SplitQuotient((s.prev - s.restart) as real, (raw - s.restart) as real, (s.prev - raw) as real, s.tdf);
      assert AfterRead(s, s.prev) == s;
    } else {
      NextRead(s, raw);
    }
  }

  lemma WholeQuotient(n: int, t: Tdf) returns (whole: int)
    requires Whole(1.0 / t)
    ensures n as real / t == whole as real
  {
    var perUnit := (1.0 / t).Floor;
    whole := n * perUnit;
    QuotientOfProduct(n as real, perUnit as real, t);
  }

  lemma QuotientOfProduct(n: real, perUnit: real, t: Tdf)
    requires 1.0 / t == perUnit
    ensures n / t == n * perUnit
  {
    var p := n / t;
    assert perUnit * t == 1.0 && p * t == n;
    assert p == p * (perUnit * t) == (p * t) * perUnit;
  }

  lemma SplitQuotient(a: real, b: real, d: real, t: Tdf)
    requires d == a - b
    ensures d / t == a / t - b / t
  {
  }

  /** A raw counter that falls by one unit costs a tick if 1/tdf has a fraction. */
  lemma OneFallLosesATick(tdf: Tdf)
    requires !Whole(1.0 / tdf)
    ensures var s := TickState(true, 1, 1, 1, tdf);
            Ticks(s, 1) == 2 && Ticks(s, 0) == 1 && AfterRead(s, 1) == s
  {
    var s, q := TickState(true, 1, 1, 1, tdf), 1.0 / tdf;
    UnitQuotients(tdf, q);
    assert ExactTicks(s, 1) == 2.0;
    var corrected := Corrected(s, 0);
    assert corrected == Trunc(1.0 + q);
    assert ExactTicks(AfterRead(s, 0), 0) == 1.0 - q + corrected as real;
    TruncatedTwice(q);
  }

  lemma TruncatedTwice(q: real)
    requires 0.0 < q && !Whole(q)
    ensures Trunc(1.0 - q + Trunc(1.0 + q) as real) == 1
  {
  }

  lemma UnitQuotients(t: Tdf, q: real)
    requires q == 1.0 / t
    ensures 0.0 < q && 0.0 / t == 0.0 && -1.0 / t == -q
  {
    assert q * t == 1.0;
  }

  /** Reading twice at the same raw value gives the same ticks. */
  lemma ReadAgain(s: TickState, raw: int)
    ensures Ticks(AfterRead(s, raw), raw) == Ticks(s, raw)
    ensures s.enabled ==> AfterRead(s, raw).prev == raw
  {
  }

  // ---- The pace of the counter ----

  /** Reads without a fall of the raw counter leave the offset alone. */
  lemma {:induction false} NoFallKeepsOffset(s: TickState, raws: seq<int>, i: nat, j: nat)
    requires s.enabled && i <= j < |raws| && Falls(raws, i, j) == 0
    ensures raws[i] <= raws[j]
    ensures Before(s, raws, j + 1) == Before(s, raws, i + 1).(prev := raws[j])
  {
    StaysEnabled(s, raws, j);
    if i == j {
      assert Before(s, raws, j + 1).prev == raws[j];
    } else {
      NoFallKeepsOffset(s, raws, i, j - 1);
      assert Before(s, raws, j + 1) == AfterRead(Before(s, raws, j), raws[j]);
    }
  }

  lemma NthTicksIs(s: TickState, raws: seq<int>, k: nat)
    requires s.enabled && k < |raws|
    ensures NthTicks(s, raws, k) == Trunc(ExactTicks(Before(s, raws, k + 1), raws[k]))
  {
    StaysEnabled(s, raws, k);
  }

  lemma NthTicksFrom(s: TickState, raws: seq<int>, i: nat, j: nat)
    requires s.enabled && i <= j < |raws| && Falls(raws, i, j) == 0
    ensures raws[i] <= raws[j]
    ensures NthTicks(s, raws, j) == Trunc(ExactTicks(Before(s, raws, i + 1).(prev := raws[j]), raws[j]))
  {
    NoFallKeepsOffset(s, raws, i, j);
    NthTicksIs(s, raws, j);
  }

  lemma TruncatedApart(x: real, y: real, d: real)
    requires y == x + d && 0.0 <= d
    ensures d - 2.0 < (Trunc(y) - Trunc(x)) as real < d + 1.0
    ensures 0 < Trunc(x) || Trunc(y) < 0 ==> d - 1.0 < (Trunc(y) - Trunc(x)) as real
  {
  }

  /** From `first` to `last` is less than one unit more than the dilated rise of the raw counter, and
      less than two fewer, or one if it is clear of zero. */
  predicate OnPace(first: int, last: int, dilated: real) {
    && dilated - 2.0 < (last - first) as real < dilated + 1.0
    && (0 < first || last < 0 ==> dilated - 1.0 < (last - first) as real)
  }

  /** The counter keeps the dilated pace, and no error accumulates: between any two reads of an enabled
      period without a fall of the raw counter, however many there are in between, it advances by the
      dilated rise, up to less than two units. */
  lemma TicksKeepPace(s: TickState, raws: seq<int>, i: nat, j: nat)
    requires s.enabled && i <= j < |raws| && Falls(raws, i, j) == 0
    ensures OnPace(NthTicks(s, raws, i), NthTicks(s, raws, j), (raws[j] - raws[i]) as real / s.tdf)
  {
    StaysEnabled(s, raws, i + 1);
    NthTicksIs(s, raws, i);
    NthTicksFrom(s, raws, i, j);
    PaceFrom(Before(s, raws, i + 1), raws[i], raws[j]);
  }

  lemma PaceFrom(s: TickState, raw: int, later: int)
    requires raw <= later
    ensures OnPace(Trunc(ExactTicks(s, raw)), Trunc(ExactTicks(s.(prev := later), later)), (later - raw) as real / s.tdf)
  {
    ExactPace(s, raw, later);
    TruncatedApart(ExactTicks(s, raw), ExactTicks(s, later), (later - raw) as real / s.tdf);
  }

  lemma ExactPace(s: TickState, raw: int, later: int)
    requires raw <= later
    ensures ExactTicks(s, later) == ExactTicks(s, raw) + (later - raw) as real / s.tdf
    ensures 0.0 <= (later - raw) as real / s.tdf
  {
    SplitQuotient((later - s.restart) as real, (raw - s.restart) as real, (later - raw) as real, s.tdf);
    QuotientMonotone(0.0, (later - raw) as real, s.tdf);
  }
}
