/** Agents that hear the same messages in different interleavings agree, up to the hysteresis. */
module ReplicaAgreement {
  import opened Arith
  import opened TdfTables

  /** The messages of one host, in order. */
  function FromHost(us: seq<Update>, h: string): seq<real> {
    if us == [] then []
    else FromHost(us[..|us| - 1], h) + if us[|us| - 1].host == h then [us[|us| - 1].tdf] else []
  }

  /** The table holds the last message of each host. */
  lemma {:induction false} LastMessageWins(t: Table, us: seq<Update>, c: real, h: string)
    ensures var xs := FromHost(us, h);
            var tdfs := HeardAll(t, us, c).tdfs;
            if xs == [] then (h in tdfs <==> h in t.tdfs) && (h in tdfs ==> tdfs[h] == t.tdfs[h])
            else h in tdfs && tdfs[h] == xs[|xs| - 1]
  {
    if us != [] {
      LastMessageWins(t, us[..|us| - 1], c, h);
    }
  }

  /** The TDF in force is within the threshold of the table's maximum. */
  ghost predicate NearMax(t: Table, c: real) {
    t.tdfs != map[] && Abs(MaxOf(t.tdfs) - t.latest) < c * t.latest
  }

  lemma HeardNearMax(t: Table, u: Update, c: real)
    requires t.enabled && AllPositive(t, [u]) && 0.0 < c < 1.0
    ensures NearMax(Heard(t, u, c), c)
  {
    var max := MaxOf(Recorded(t, u));
    AdoptionBand(max, t.latest, c);
    assert u in [u];
    StrictlyScaled(0.0, c, max);
  }

  lemma RunEndsNearMax(t: Table, us: seq<Update>, c: real)
    requires t.enabled && AllPositive(t, us) && 0.0 < c < 1.0 && us != []
    ensures NearMax(HeardAll(t, us, c), c) && 0.0 < HeardAll(t, us, c).latest
  {
    StaysPositive(t, us[..|us| - 1], c);
    StaysPositive(t, us, c);
    HeardNearMax(HeardAll(t, us[..|us| - 1], c), us[|us| - 1], c);
  }

  /** The same messages of each host in the same order, however the hosts are interleaved. */
  ghost predicate SameMessages(us: seq<Update>, vs: seq<Update>) {
    us != [] && forall h :: FromHost(us, h) == FromHost(vs, h)
  }

  lemma TablesAgree(a: Table, b: Table, us: seq<Update>, vs: seq<Update>, c: real)
    requires a.tdfs == b.tdfs && SameMessages(us, vs)
    ensures vs != []
    ensures HeardAll(a, us, c).tdfs == HeardAll(b, vs, c).tdfs
  {
    var a', b' := HeardAll(a, us, c), HeardAll(b, vs, c);
    forall h
      ensures h in a'.tdfs <==> h in b'.tdfs
      ensures h in a'.tdfs ==> a'.tdfs[h] == b'.tdfs[h]
    {
      LastMessageWins(a, us, c, h);
      LastMessageWins(b, vs, c, h);
    }
    assert a'.tdfs == b'.tdfs;
    assert FromHost(us, us[|us| - 1].host) != [];
  }

  /** Two agents that start with the same table (the empty one, say), whatever TDFs they have in
      force, and hear the same messages of each host in the same order, interleaved in any two
      ways, end with the same table; and the TDFs they have in force then differ by a factor
      strictly less than (1+c)/(1-c). */
  lemma ReplicasAgree(a: Table, b: Table, us: seq<Update>, vs: seq<Update>, c: real)
    requires a.enabled && b.enabled && a.tdfs == b.tdfs && SameMessages(us, vs)
    requires AllPositive(a, us) && AllPositive(b, vs) && 0.0 < c < 1.0
    ensures HeardAll(a, us, c).tdfs == HeardAll(b, vs, c).tdfs
    ensures var x, y := HeardAll(a, us, c).latest, HeardAll(b, vs, c).latest;
            var factor := (1.0 + c) / (1.0 - c);
            0.0 < x && 0.0 < y && x / y < factor && y / x < factor
  {
    var a', b' := HeardAll(a, us, c), HeardAll(b, vs, c);
    TablesAgree(a, b, us, vs, c);
    RunEndsNearMax(a, us, c);
    RunEndsNearMax(b, vs, c);
    NearTheSameMax(a', b', c);
    NearTheSameMax(b', a', c);
  }

  lemma NearTheSameMax(a: Table, b: Table, c: real)
    requires a.tdfs == b.tdfs && NearMax(a, c) && NearMax(b, c) && 0.0 < c < 1.0
    requires 0.0 < a.latest && 0.0 < b.latest
    ensures a.latest / b.latest < (1.0 + c) / (1.0 - c)
  {
    NearOneValue(a.latest, b.latest, MaxOf(a.tdfs), c);
  }

  lemma NearOneValue(x: real, y: real, max: real, c: real)
    requires 0.0 < x && 0.0 < y && 0.0 < c < 1.0
    requires Abs(max - x) < c * x && Abs(max - y) < c * y
    ensures x / y < (1.0 + c) / (1.0 - c)
  {
    assert x * (1.0 - c) == x - c * x && y * (1.0 + c) == y + c * y;
    CrossMultiplied(x, y, 1.0 + c, 1.0 - c);
  }

  // ---- When the TDFs in force are equal too ----

  /** `w` is too near to `v` to replace it. */
  predicate TooNear(v: real, w: real, c: real) {
    Abs(w - v) < c * v
  }

  /** Any two of the TDFs are so far apart that each replaces the other. */
  ghost predicate Spaced(tdfs: iset<real>, c: real) {
    forall v, w :: v in tdfs && w in tdfs && v != w ==> !TooNear(v, w, c)
  }

  ghost predicate DrawnFrom(tdfs: iset<real>, t: Table, us: seq<Update>) {
    ValuesIn(tdfs, t) && (forall u :: u in us ==> u.tdf in tdfs)
  }

  /** Agents that are enabled with empty tables, their TDFs in force and all announcements among
      these, always end with equal TDFs in force when they have heard the same messages. */
  ghost predicate AlwaysEqual(tdfs: iset<real>, c: real) {
    forall a: Table, b: Table, us: seq<Update>, vs: seq<Update> ::
      && a.enabled && b.enabled && a.tdfs == b.tdfs == map[] && SameMessages(us, vs)
      && DrawnFrom(tdfs, a, us) && DrawnFrom(tdfs, b, vs)
      ==> HeardAll(a, us, c).latest == HeardAll(b, vs, c).latest
  }

  ghost predicate ValuesIn(tdfs: iset<real>, t: Table) {
    t.latest in tdfs && (forall h :: h in t.tdfs ==> t.tdfs[h] in tdfs)
  }

  /** With spaced TDFs nothing is lost to the threshold: the TDF in force is the maximum. */
  lemma SpacedHearsMax(tdfs: iset<real>, t: Table, u: Update, c: real)
    requires Spaced(tdfs, c) && ValuesIn(tdfs, t) && u.tdf in tdfs && t.enabled && 0.0 < t.latest
    ensures ValuesIn(tdfs, Heard(t, u, c)) && Heard(t, u, c).latest == MaxOf(Recorded(t, u))
  {
    var max := MaxOf(Recorded(t, u));
    assert max in tdfs;
    ReplacedUnlessNear(max, t.latest, c);
    if max != t.latest {
      assert !TooNear(t.latest, max, c);
    }
  }

  lemma ReplacedUnlessNear(max: real, latest: real, c: real)
    requires 0.0 < latest
    ensures PastThreshold(max, latest, c) <==> !TooNear(latest, max, c)
  {
    AdoptionBand(max, latest, c);
  }

  lemma {:induction false} SpacedHoldsMax(tdfs: iset<real>, t: Table, us: seq<Update>, c: real)
    requires Spaced(tdfs, c) && DrawnFrom(tdfs, t, us) && t.enabled && forall v :: v in tdfs ==> 0.0 < v
    ensures HeardAll(t, us, c).enabled && ValuesIn(tdfs, HeardAll(t, us, c))
    ensures us != [] ==> HeardAll(t, us, c).latest == MaxOf(HeardAll(t, us, c).tdfs)
  {
    if us != [] {
      var n := |us| - 1;
      SpacedHoldsMax(tdfs, t, us[..n], c);
      assert us[n] in us;
      SpacedHearsMax(tdfs, HeardAll(t, us[..n], c), us[n], c);
    }
  }

  /** From equal tables, then, equal messages lead to equal TDFs in force. */
  lemma SpacedReplicasAgree(
      tdfs: iset<real>, a: Table, b: Table, us: seq<Update>, vs: seq<Update>, c: real)
    requires Spaced(tdfs, c) && forall v :: v in tdfs ==> 0.0 < v
    requires a.enabled && b.enabled && a.tdfs == b.tdfs && SameMessages(us, vs)
    requires DrawnFrom(tdfs, a, us) && DrawnFrom(tdfs, b, vs)
    ensures HeardAll(a, us, c).latest == HeardAll(b, vs, c).latest
  {
    TablesAgree(a, b, us, vs, c);
    SpacedHoldsMax(tdfs, a, us, c);
    SpacedHoldsMax(tdfs, b, vs, c);
  }

  /** Equal TDFs in force are guaranteed exactly if the TDFs are spaced. */
  lemma EqualExactlyIfSpaced(tdfs: iset<real>, c: real)
    requires forall v :: v in tdfs ==> 0.0 < v
    ensures AlwaysEqual(tdfs, c) <==> Spaced(tdfs, c)
  {
    if Spaced(tdfs, c) {
      forall a: Table, b: Table, us: seq<Update>, vs: seq<Update> |
        && a.enabled && b.enabled && a.tdfs == b.tdfs == map[] && SameMessages(us, vs)
        && DrawnFrom(tdfs, a, us) && DrawnFrom(tdfs, b, vs)
        ensures HeardAll(a, us, c).latest == HeardAll(b, vs, c).latest
      {
        SpacedReplicasAgree(tdfs, a, b, us, vs, c);
      }
    } else {
      var v, w :| v in tdfs && w in tdfs && v != w && TooNear(v, w, c);
      var a, b, u := Table(map[], true, v), Table(map[], true, w), Update("x", w);
      NearMessageSplits(v, w, u, c);
      assert DrawnFrom(tdfs, a, [u]) && DrawnFrom(tdfs, b, [u]);
    }
  }

  /** One message that one agent already has in force, and that is too near for the other. */
  lemma NearMessageSplits(v: real, w: real, u: Update, c: real)
    requires 0.0 < v && 0.0 < w && TooNear(v, w, c) && u.tdf == w
    ensures SameMessages([u], [u])
    ensures HeardAll(Table(map[], true, v), [u], c).latest == v
    ensures HeardAll(Table(map[], true, w), [u], c).latest == w
  {
    var a, b := Table(map[], true, v), Table(map[], true, w);
    assert [u][..0] == [];
    MaxIsUnique(Recorded(a, u), w, MaxOf(Recorded(a, u)));
    AdoptionBand(w, v, c);
  }

  /** At the default threshold this happens to agents that start alike: two hosts announce 1.10 and 1.15, and the agents that hear them
      in different orders adopt 1.10 and 1.15. */
  lemma ReplicasMayDiffer() returns (t: Table, us: seq<Update>, vs: seq<Update>)
    ensures t.enabled && AllPositive(t, us)
    ensures SameMessages(us, vs)
    ensures HeardAll(t, us, 0.1).latest == 1.10 && HeardAll(t, vs, 0.1).latest == 1.15
  {
    var x, y := Update("x", 1.10), Update("y", 1.15);
    t, us, vs := Table(map[], true, 1.0), [x, y], [y, x];
    var tx, ty := Heard(t, x, 0.1), Heard(t, y, 0.1);
    OneMessage(t, x, 1.10);
    OneMessage(t, y, 1.15);
    assert "x"[0] != "y"[0];
    assert Recorded(tx, y)["y"] == 1.15 && Recorded(ty, x)["y"] == 1.15;
    OneMessage(tx, y, 1.15);
    OneMessage(ty, x, 1.15);
    TwoMessages(t, x, y, 0.1);
    TwoMessages(t, y, x, 0.1);
    forall h
      ensures FromHost(us, h) == FromHost(vs, h)
    {
      TwoFromHosts(x, y, h);
      TwoFromHosts(y, x, h);
    }
  }

  lemma TwoMessages(t: Table, u: Update, v: Update, c: real)
    ensures HeardAll(t, [u, v], c) == Heard(Heard(t, u, c), v, c)
  {
    assert [u, v][..1] == [u] && [u][..0] == [];
    assert HeardAll(t, [u], c) == Heard(t, u, c);
  }

  lemma TwoFromHosts(u: Update, v: Update, h: string)
    ensures FromHost([u, v], h) ==
            (if u.host == h then [u.tdf] else []) + (if v.host == h then [v.tdf] else [])
  {
    assert [u, v][..1] == [u] && [u][..0] == [];
    assert FromHost([u], h) == if u.host == h then [u.tdf] else [];
  }

  lemma OneMessage(t: Table, u: Update, max: real)
    requires t.enabled && 0.0 < t.latest && IsMax(Recorded(t, u), max)
    ensures Heard(t, u, 0.1).latest == if Abs(max - t.latest) >= 0.1 * t.latest then max else t.latest
  {
    MaxIsUnique(Recorded(t, u), max, MaxOf(Recorded(t, u)));
    AdoptionBand(max, t.latest, 0.1);
  }
}
