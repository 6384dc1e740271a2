/** The threshold of TdfTable::set bounds how often the TDF in force can change. */
module Hysteresis {
  import opened Arith
  import opened TdfTables

  /** The TDFs in force before the first message, and after each one. */
  ghost function InForce(t: Table, us: seq<Update>, c: real): (ls: seq<real>)
    ensures |ls| == |us| + 1 && ls[0] == t.latest && ls[|us|] == HeardAll(t, us, c).latest
  {
    if us == [] then [t.latest]
    else InForce(t, us[..|us| - 1], c) + [HeardAll(t, us, c).latest]
  }

  /** How many of the first `n` messages made the table raise, or lower, its TDF. */
  function Raises(ls: seq<real>, n: nat): nat
    requires n < |ls|
  {
    if n == 0 then 0 else Raises(ls, n - 1) + if ls[n - 1] < ls[n] then 1 else 0
  }

  function Drops(ls: seq<real>, n: nat): nat
    requires n < |ls|
  {
    if n == 0 then 0 else Drops(ls, n - 1) + if ls[n] < ls[n - 1] then 1 else 0
  }

  /** Staying, or leaving the threshold band. */
  predicate Jump(before: real, after: real, c: real) {
    after == before || Abs(after - before) >= c * before
  }

  ghost predicate Jumps(ls: seq<real>, c: real) {
    && (forall k :: 0 <= k < |ls| ==> 0.0 < ls[k])
    && (forall k :: 0 <= k < |ls| - 1 ==> Jump(ls[k], ls[k + 1], c))
  }

  /** One message leaves the TDF alone, or moves it out of the threshold band to a value that is
      in the table. */
  lemma HeardMoves(t: Table, u: Update, c: real)
    requires 0.0 < t.latest
    ensures var t' := Heard(t, u, c);
            && Jump(t.latest, t'.latest, c)
            && (t'.latest == t.latest || exists h :: h in t'.tdfs && t'.tdfs[h] == t'.latest)
  {
    AdoptionBand(MaxOf(Recorded(t, u)), t.latest, c);
  }

  lemma {:induction false} InForceJumps(t: Table, us: seq<Update>, c: real)
    requires AllPositive(t, us)
    ensures Jumps(InForce(t, us, c), c)
  {
    if us != [] {
      var us0, n := us[..|us| - 1], |us| - 1;
      InForceJumps(t, us0, c);
      StaysPositive(t, us0, c);
      StaysPositive(t, us, c);
      var ls0, ls := InForce(t, us0, c), InForce(t, us, c);
      HeardMoves(HeardAll(t, us0, c), us[n], c);
      forall k | 0 <= k < |ls| - 1
        ensures Jump(ls[k], ls[k + 1], c)
      {
        assert k < n ==> Jump(ls0[k], ls0[k + 1], c);
      }
    }
  }

  /** `start` after `k` steps at one rate. */
  function Compound(start: real, rate: real, k: nat): real {
    if k == 0 then start else Compound(start, rate, k - 1) * rate
  }

  lemma {:induction false} CompoundIsPower(start: real, rate: real, k: nat)
    ensures Compound(start, rate, k) == start * Pow(rate, k)
  {
    if k > 0 {
      CompoundIsPower(start, rate, k - 1);
      var p := Pow(rate, k - 1);
      assert (start * p) * rate == start * (rate * p);
    }
  }

  lemma CompoundGrows(start: real, rate: real, k: nat, low: real)
    requires low == Compound(start, rate, k)
    ensures Compound(start, rate, k + 1) == low * rate
  {
  }

  /** A raise multiplies any lower bound by the rate, a drop any upper bound. */
  lemma OneRaise(ls: seq<real>, c: real, rate: real, n: nat, low: real)
    requires 0 < n < |ls| && Jumps(ls, c) && 0.0 < c && rate == 1.0 + c
    requires low <= ls[n - 1] < ls[n]
    ensures low * rate <= ls[n]
  {
    var before := ls[n - 1];
    assert Jump(before, ls[(n - 1) + 1], c);
    Scaled(low, before, rate);
    assert before * rate == before + c * before;
  }

  lemma OneDrop(ls: seq<real>, c: real, rate: real, n: nat, high: real)
    requires 0 < n < |ls| && Jumps(ls, c) && 0.0 < c < 1.0 && rate == 1.0 - c
    requires ls[n] < ls[n - 1] <= high
    ensures ls[n] <= high * rate
  {
    var before := ls[n - 1];
    assert Jump(before, ls[(n - 1) + 1], c);
    Scaled(before, high, rate);
    assert before * rate == before - c * before;
  }

  lemma {:induction false} NoDropNoFall(ls: seq<real>, n: nat)
    requires n < |ls| && Drops(ls, n) == 0
    ensures ls[0] <= ls[n]
    ensures 0 < Raises(ls, n) ==> ls[0] < ls[n]
  {
    if 0 < n {
      NoDropNoFall(ls, n - 1);
    }
  }

  lemma {:induction false} RaisesCompound(ls: seq<real>, c: real, rate: real, n: nat)
    requires n < |ls| && Jumps(ls, c) && 0.0 < c && rate == 1.0 + c && Drops(ls, n) == 0
    ensures Compound(ls[0], rate, Raises(ls, n)) <= ls[n]
  {
    if 0 < n {
      RaisesCompound(ls, c, rate, n - 1);
      if ls[n - 1] < ls[n] {
        var low := Compound(ls[0], rate, Raises(ls, n - 1));
        OneRaise(ls, c, rate, n, low);
        CompoundGrows(ls[0], rate, Raises(ls, n - 1), low);
      }
    }
  }

  lemma {:induction false} DropsCompound(ls: seq<real>, c: real, rate: real, n: nat)
    requires n < |ls| && Jumps(ls, c) && Raises(ls, n) == 0
    requires 0.0 < c < 1.0 && rate == 1.0 - c
    ensures ls[n] <= Compound(ls[0], rate, Drops(ls, n))
  {
    if 0 < n {
      DropsCompound(ls, c, rate, n - 1);
      if ls[n] < ls[n - 1] {
        var high := Compound(ls[0], rate, Drops(ls, n - 1));
        OneDrop(ls, c, rate, n, high);
        CompoundGrows(ls[0], rate, Drops(ls, n - 1), high);
      }
    }
  }

  ghost predicate NoneAbove(t: Table, us: seq<Update>, largest: real) {
    && (forall h :: h in t.tdfs ==> t.tdfs[h] <= largest)
    && (forall u :: u in us ==> u.tdf <= largest)
  }

  lemma {:induction false} AdoptedValuesWereHeard(t: Table, us: seq<Update>, c: real, largest: real)
    requires AllPositive(t, us) && NoneAbove(t, us, largest)
    ensures HeardAll(t, us, c).latest == t.latest || HeardAll(t, us, c).latest <= largest
    ensures NoneAbove(HeardAll(t, us, c), [], largest)
  {
    if us != [] {
      var us0 := us[..|us| - 1];
      AdoptedValuesWereHeard(t, us0, c, largest);
      StaysPositive(t, us0, c);
      HeardMoves(HeardAll(t, us0, c), us[|us| - 1], c);
    }
  }

  /** Churn is bounded, upward: over any run without a drop, k raises multiply the TDF by at least
      (1+c)^k; so for k > 0, start * (1+c)^k is at most the largest TDF in the table or heard. */
  lemma RaisesAreBounded(t: Table, us: seq<Update>, c: real, rate: real, largest: real)
    requires AllPositive(t, us) && 0.0 < c && rate == 1.0 + c && NoneAbove(t, us, largest)
    requires Drops(InForce(t, us, c), |us|) == 0
    ensures var k := Raises(InForce(t, us, c), |us|);
            && Compound(t.latest, rate, k) <= HeardAll(t, us, c).latest
            && (0 < k ==> Compound(t.latest, rate, k) <= largest)
  {
    InForceJumps(t, us, c);
    RaisesCompound(InForce(t, us, c), c, rate, |us|);
    NoDropNoFall(InForce(t, us, c), |us|);
    AdoptedValuesWereHeard(t, us, c, largest);
  }

  /** Churn is bounded, downward: over any run without a raise, k drops bring the TDF to at most
      (1-c)^k of what it was. */
  lemma DropsAreBounded(t: Table, us: seq<Update>, c: real, rate: real)
    requires AllPositive(t, us) && 0.0 < c < 1.0 && rate == 1.0 - c
    requires Raises(InForce(t, us, c), |us|) == 0
    ensures HeardAll(t, us, c).latest <= Compound(t.latest, rate, Drops(InForce(t, us, c), |us|))
  {
    InForceJumps(t, us, c);
    DropsCompound(InForce(t, us, c), c, rate, |us|);
  }
}
