/** The emulated links: their attributes (InterfaceAttributeTable in MemoryDatabase.cpp) and how a
    TDF is applied to them (InterfaceConfigurator.cpp). Commands are recorded instead of executed. */
module InterfaceConfigurators {
  import opened Arith

  datatype Entry = Entry(rate: int, delay: int, flagKeep: bool)

  /** The commands for one interface: rate, burst and delay of its classes, installed anew or
      changed, or removal. */
  datatype Action =
    | Replace(iface: string, rate: int, burst: int, delay: int)
    | Change(iface: string, rate: int, burst: int, delay: int)
    | Delete(iface: string)

  function AdjustedRate(rate: int, tdf: real): int
    requires tdf != 0.0
  {
    Trunc(rate as real / tdf)
  }

  function AdjustedDelay(delay: int, tdf: real): int {
    Trunc(delay as real * tdf)
  }

  /** changeInterfaceAttribute */
  function ChangeTo(iface: string, rate: int, delay: int, tdf: real): Action
    requires tdf != 0.0
  {
    Change(iface, AdjustedRate(rate, tdf), rate, AdjustedDelay(delay, tdf))
  }

  /** replaceInterfaceAttribute */
  function InstallAs(iface: string, rate: int, delay: int, tdf: real): Action
    requires tdf != 0.0
  {
    Replace(iface, AdjustedRate(rate, tdf), rate, AdjustedDelay(delay, tdf))
  }

  /** A link installed at TDF 1 has the rate and the delay that were asked for. */
  lemma UndilatedInstall(iface: string, rate: int, delay: int)
    ensures InstallAs(iface, rate, delay, 1.0) == Replace(iface, rate, rate, delay)
  {
    assert rate as real / 1.0 == rate as real && delay as real * 1.0 == delay as real;
  }

  // ---- What dilation means, without division ----

  /** `n` is `x` rounded toward zero. */
  predicate Truncates(n: int, x: real) {
    if 0.0 <= x then n as real <= x < (n + 1) as real else (n - 1) as real < x <= n as real
  }

  /** `n` is the rate divided by the TDF, rounded toward zero. */
  predicate Slowed(n: int, rate: int, tdf: real) {
    if tdf < 0.0 then SlowedBy(n as real, -(rate as real), -tdf) else SlowedBy(n as real, rate as real, tdf)
  }

  predicate SlowedBy(n: real, rate: real, tdf: real) {
    if 0.0 <= rate then n * tdf <= rate < (n + 1.0) * tdf else (n - 1.0) * tdf < rate <= n * tdf
  }

  /** The action gives the link its rate slowed down by the TDF, a burst of the undilated rate, and its
      delay stretched by the TDF. */
  predicate Dilates(e: Entry, tdf: real, a: Action) {
    && a.Change? && a.burst == e.rate
    && Slowed(a.rate, e.rate, tdf)
    && Truncates(a.delay, e.delay as real * tdf)
  }

  lemma ChangeToDilates(iface: string, e: Entry, tdf: real)
    requires tdf != 0.0
    ensures Dilates(e, tdf, ChangeTo(iface, e.rate, e.delay, tdf))
  {
    QuotientSlows(AdjustedRate(e.rate, tdf), e.rate, tdf);
  }

  lemma QuotientSlows(n: int, rate: int, tdf: real)
    requires tdf != 0.0 && n == AdjustedRate(rate, tdf)
    ensures Slowed(n, rate, tdf)
  {
    var q := rate as real / tdf;
    assert q * tdf == rate as real;
    if tdf < 0.0 {
      SlowedByQuotient(n as real, -(rate as real), -tdf, q);
    } else {
      SlowedByQuotient(n as real, rate as real, tdf, q);
    }
  }

  lemma SlowedByQuotient(n: real, rate: real, tdf: Tdf, q: real)
    requires q * tdf == rate
    requires if 0.0 <= q then n <= q < n + 1.0 else n - 1.0 < q <= n
    ensures SlowedBy(n, rate, tdf)
  {
    if 0.0 <= q {
      Scaled(0.0, q, tdf);
      Scaled(n, q, tdf);
      StrictlyScaled(q, n + 1.0, tdf);
    } else {
      StrictlyScaled(q, 0.0, tdf);
      Scaled(q, n, tdf);
      StrictlyScaled(n - 1.0, q, tdf);
    }
  }

  /** An entry and a TDF leave no choice. */
  lemma DilationIsUnique(e: Entry, tdf: Tdf, a: Action, b: Action)
    requires Dilates(e, tdf, a) && Dilates(e, tdf, b) && a.iface == b.iface
    ensures a == b
  {
    if a.rate < b.rate {
      SlowedApart(a.rate as real, b.rate as real, e.rate as real, tdf);
    } else if b.rate < a.rate {
      SlowedApart(b.rate as real, a.rate as real, e.rate as real, tdf);
    }
  }

  lemma SlowedApart(n: real, m: real, rate: real, tdf: Tdf)
    requires n + 1.0 <= m && SlowedBy(n, rate, tdf)
    ensures !SlowedBy(m, rate, tdf)
  {
    Scaled(n + 1.0, m, tdf);
    Scaled(n, m - 1.0, tdf);
  }

  /** A slower link with a longer delay holds as much: the product of the rate and the delay that the
      action sets is that of the entry, up to truncation. */
  lemma BandwidthDelayKept(e: Entry, tdf: Tdf, a: Action)
    requires Dilates(e, tdf, a) && 0 <= e.rate && 0 <= e.delay
    ensures var kept := (a.rate * a.delay) as real;
            var product := e.rate as real * e.delay as real;
            kept <= product <= kept + e.rate as real / tdf + e.delay as real * tdf
  {
    var rate, delay, product := ExactlyDilated(e, tdf, a);
    ProductKept(rate, delay, a.rate, a.delay, product);
  }

  /** What the action's rate and delay were rounded from. */
  lemma ExactlyDilated(e: Entry, tdf: Tdf, a: Action) returns (rate: real, delay: real, product: real)
    requires Dilates(e, tdf, a) && 0 <= e.rate && 0 <= e.delay
    ensures rate == e.rate as real / tdf && delay == e.delay as real * tdf
    ensures product == e.rate as real * e.delay as real && product == rate * delay
    ensures a.rate as real <= rate < a.rate as real + 1.0 && a.delay as real <= delay < a.delay as real + 1.0
    ensures 0 <= a.rate && 0 <= a.delay
  {
    rate, delay, product := e.rate as real / tdf, e.delay as real * tdf, e.rate as real * e.delay as real;
    ScalingCancels(e.rate as real, e.delay as real, tdf, rate, delay);
    SlowedIsQuotient(a.rate as real, rate, e.rate as real, tdf);
  }

  lemma ProductKept(rate: real, delay: real, p: nat, q: nat, product: real)
    requires p as real <= rate < p as real + 1.0 && q as real <= delay < q as real + 1.0
    requires product == rate * delay
    ensures (p * q) as real <= product <= (p * q) as real + rate + delay
  {
    TruncatedProduct(rate, delay, p as real, q as real, product, (p * q) as real);
  }

  lemma SlowedIsQuotient(n: real, q: real, rate: real, tdf: Tdf)
    requires n * tdf <= rate < (n + 1.0) * tdf && q == rate / tdf
    ensures n <= q < n + 1.0
  {
    assert q * tdf == rate;
    if q < n {
      StrictlyScaled(q, n, tdf);
    } else if n + 1.0 <= q {
      Scaled(n + 1.0, q, tdf);
    }
  }

  lemma ScalingCancels(r: real, d: real, t: Tdf, a: real, b: real)
    requires 0.0 <= r && 0.0 <= d && a == r / t && b == d * t
    ensures r * d == a * b && 0.0 <= a && 0.0 <= b
  {
    assert a * t == r;
    assert a * b == (a * t) * d;
  }

  /** Products are named, so that they are compared as they are. */
  lemma TruncatedProduct(a: real, b: real, p: real, q: real, ab: real, pq: real)
    requires 0.0 <= p <= a <= p + 1.0 && 0.0 <= q <= b <= q + 1.0
    requires ab == a * b && pq == p * q
    ensures pq <= ab <= pq + a + b
  {
    var pb := p * b;
    OneTruncated(b, p, a, pb, ab);
    OneTruncated(p, q, b, pq, pb);
  }

  lemma OneTruncated(x: real, low: real, high: real, lowX: real, highX: real)
    requires 0.0 <= x && low <= high <= low + 1.0
    requires lowX == low * x && highX == high * x
    ensures lowX <= highX <= lowX + x
  {
    var u := high - low;
    assert highX == lowX + u * x;
    assert 0.0 <= u * x;
    AtMostWhole(u, x);
  }

  lemma AtMostWhole(u: real, x: real)
    requires 0.0 <= x && u <= 1.0
    ensures u * x <= x
  {
    var v := 1.0 - u;
    assert v * x >= 0.0;
    assert v * x == x - u * x;
  }

  /** What one pass is to do to one interface. */
  predicate Fits(e: Entry, tdf: real, a: Action) {
    if e.flagKeep then Dilates(e, tdf, a) else a.Delete?
  }

  /** The interfaces that survive a pass. */
  function Kept(m: map<string, Entry>): map<string, Entry> {
    map name | name in m && m[name].flagKeep :: m[name]
  }

  /** Exactly one action for each interface: a kept one is dilated, any other deleted. */
  ghost predicate OneActionEach(m: map<string, Entry>, tdf: real, actions: seq<Action>) {
    && |actions| == |m|
    && (forall a :: a in actions ==> a.iface in m && Fits(m[a.iface], tdf, a))
    && (forall i, j :: 0 <= i < j < |actions| ==> actions[i].iface != actions[j].iface)
  }

  /** That leaves no interface out. */
  lemma NoneLeftOut(m: map<string, Entry>, tdf: real, actions: seq<Action>)
    requires OneActionEach(m, tdf, actions)
    ensures forall name :: name in m ==> exists a :: a in actions && a.iface == name
  {
    DistinctIfaces(actions);
    var ifaces := set a | a in actions :: a.iface;
    assert ifaces <= m.Keys && |ifaces| == |m.Keys|;
    if ifaces != m.Keys {
      assert |m.Keys - ifaces| == |m.Keys| - |ifaces|;
    }
  }

  lemma {:induction false} DistinctIfaces(actions: seq<Action>)
    requires forall i, j :: 0 <= i < j < |actions| ==> actions[i].iface != actions[j].iface
    ensures |set a | a in actions :: a.iface| == |actions|
  {
    if actions != [] {
      var rest, last := actions[..|actions| - 1], actions[|actions| - 1];
      DistinctIfaces(rest);
      assert actions == rest + [last];
      assert (set a | a in actions :: a.iface) == (set a | a in rest :: a.iface) + {last.iface};
    }
  }

  class InterfaceAttributeTable {
    var ifaceAttrMap: map<string, Entry>

    constructor ()
      ensures ifaceAttrMap == map[]
    {
      ifaceAttrMap := map[];
    }

    /** set: a new entry, to be kept. */
    method Set(ifaceName: string, rate: int, delay: int)
      modifies this
      ensures ifaceAttrMap == old(ifaceAttrMap)[ifaceName := Entry(rate, delay, true)]
    {
      ifaceAttrMap := ifaceAttrMap[ifaceName := Entry(rate, delay, true)];
    }

    method SetFlagKeep(ifaceName: string, flagKeep: bool)
      requires ifaceName in ifaceAttrMap
      modifies this
      ensures ifaceAttrMap == old(ifaceAttrMap)[ifaceName := old(ifaceAttrMap)[ifaceName].(flagKeep := flagKeep)]
    {
      ifaceAttrMap := ifaceAttrMap[ifaceName := ifaceAttrMap[ifaceName].(flagKeep := flagKeep)];
    }

    method Erase(ifaceName: string)
      modifies this
      ensures ifaceAttrMap == old(ifaceAttrMap) - {ifaceName}
    {
      ifaceAttrMap := ifaceAttrMap - {ifaceName};
    }
  }

  class InterfaceConfigurator {
    const ifaceAttrTable: InterfaceAttributeTable
    var log: seq<Action>

    constructor (ifaceAttrTable: InterfaceAttributeTable)
      ensures this.ifaceAttrTable == ifaceAttrTable && log == []
    {
      this.ifaceAttrTable := ifaceAttrTable;
      log := [];
    }

    /** updateInterfaceAttribute: walks the map, erasing behind itself. It leaves exactly the
        interfaces flagged to be kept, and issues one delete or one change for each that was there. */
    method UpdateInterfaceAttribute(tdf: real) returns (ghost actions: seq<Action>)
      requires tdf != 0.0
      modifies this, ifaceAttrTable
      ensures ifaceAttrTable.ifaceAttrMap == Kept(old(ifaceAttrTable.ifaceAttrMap))
      ensures log == old(log) + actions && OneActionEach(old(ifaceAttrTable.ifaceAttrMap), tdf, actions)
    {
      ghost var before := ifaceAttrTable.ifaceAttrMap;
      actions := [];
      var left := ifaceAttrTable.ifaceAttrMap.Keys;
      while left != {}
        invariant left <= before.Keys
        invariant forall name :: name in ifaceAttrTable.ifaceAttrMap <==>
                    name in before && (name in left || before[name].flagKeep)
        invariant forall name :: name in ifaceAttrTable.ifaceAttrMap ==>
                    before[name] == ifaceAttrTable.ifaceAttrMap[name]
        invariant log == old(log) + actions && |actions| + |left| == |before|
        invariant forall a :: a in actions ==>
                    a.iface in before && a.iface !in left && Fits(before[a.iface], tdf, a)
        invariant forall i, j :: 0 <= i < j < |actions| ==> actions[i].iface != actions[j].iface
        decreases |left|
      {
        var name :| name in left;
        var entry := ifaceAttrTable.ifaceAttrMap[name];
        var action := if entry.flagKeep then ChangeTo(name, entry.rate, entry.delay, tdf) else Delete(name);
        ChangeToDilates(name, entry, tdf);
        log := log + [action];
        left := left - {name};
        if !entry.flagKeep {
          ifaceAttrTable.Erase(name);
        }
        actions := actions + [action];
      }
    }
  }
}
