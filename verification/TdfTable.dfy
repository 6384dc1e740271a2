/** The table of the last TDF heard from each host, and the hysteresis with which its maximum is
    adopted (TdfTable and MemoryDatabase::enforceTdf in MemoryDatabase.cpp). */
module TdfTables {
  import opened Arith

  datatype Table = Table(tdfs: map<string, real>, enabled: bool, latest: real)

  datatype Update = Update(host: string, tdf: real)

  /** TdfTable::TdfTable */
  const EMPTY := Table(map[], false, 1.0)

  ghost predicate IsMax(m: map<string, real>, v: real) {
    && (exists h :: h in m && m[h] == v)
    && (forall h :: h in m ==> m[h] <= v)
  }

  lemma MaxIsUnique(m: map<string, real>, v: real, w: real)
    requires IsMax(m, v) && IsMax(m, w)
    ensures v == w
  {
    var g :| g in m && m[g] == v;
    var h :| h in m && m[h] == w;
    assert m[g] <= w && m[h] <= v;
  }

  lemma MaxExists(m: map<string, real>) returns (v: real)
    requires m != map[]
    ensures IsMax(m, v)
  {
    var h :| h in m;
    var rest := m - {h};
    assert |rest| < |m| by {
      assert rest.Keys == m.Keys - {h};
    }
    v := m[h];
    if rest != map[] {
      var w := MaxExists(rest);
      v := if v < w then w else v;
      assert forall g :: g in m ==> g == h || g in rest;
    }
  }

  ghost function MaxOf(m: map<string, real>): (v: real)
    requires m != map[]
    ensures IsMax(m, v)
  {
    assert exists v :: IsMax(m, v) by {
      var v := MaxExists(m);
    }
    var v :| IsMax(m, v); v
  }

  /** Whether |max - latest| / latest >= threshold. Floating division by zero gives infinity, which
      passes any threshold, or a NaN for 0/0, which passes none. */
  predicate PastThreshold(max: real, latest: real, threshold: real) {
    if latest == 0.0 then max != 0.0 else Abs(max - latest) / latest >= threshold
  }

  function Recorded(t: Table, u: Update): (tdfs: map<string, real>)
    ensures tdfs != map[]
  {
    var tdfs := t.tdfs[u.host := u.tdf];
    assert u.host in tdfs;
    tdfs
  }

  /** Whether TdfTable::set adopts a TDF, and so notifies. */
  ghost predicate Adopts(t: Table, u: Update, threshold: real) {
    t.enabled && PastThreshold(MaxOf(Recorded(t, u)), t.latest, threshold)
  }

  /** The table after TdfTable::set. */
  ghost function Heard(t: Table, u: Update, threshold: real): Table {
    Table(Recorded(t, u), t.enabled, if Adopts(t, u, threshold) then MaxOf(Recorded(t, u)) else t.latest)
  }

  /** The table after MemoryDatabase::enforceTdf. */
  function Enforced(t: Table, tdf: real): Table {
    t.(enabled := false, latest := tdf)
  }

  /** What other threads do to the table; Hear and Enforce take its mutex. */
  datatype Operation =
    | Hear(update: Update) | Enforce(tdf: real)
    | EnableTable | DisableTable | ClearTable | SetThreshold(c: real)

  ghost function TableAfter(t: Table, op: Operation, threshold: real): Table {
    match op
    case Hear(u) => Heard(t, u, threshold)
    case Enforce(tdf) => Enforced(t, tdf)
    case EnableTable => t.(enabled := true)
    case DisableTable => t.(enabled := false)
    case ClearTable => t.(tdfs := map[])
    case SetThreshold(_) => t
  }

  ghost predicate Notifies(t: Table, op: Operation, threshold: real) {
    match op
    case Hear(u) => Adopts(t, u, threshold)
    case Enforce(_) => true
    case _ => false
  }

  /** Only a notifying operation changes the TDF in force. */
  lemma LatestChangesWithNotify(t: Table, op: Operation, threshold: real)
    ensures !Notifies(t, op, threshold) ==> TableAfter(t, op, threshold).latest == t.latest
  {
  }

  /** And a message notifies only if it changes the TDF in force. */
  lemma HearingNotifiesExactly(t: Table, u: Update, threshold: real)
    requires 0.0 < threshold
    ensures Notifies(t, Hear(u), threshold) <==> Heard(t, u, threshold).latest != t.latest
  {
    var max := MaxOf(Recorded(t, u));
    if t.latest <= 0.0 {
      AdoptionFromNonPositive(max, t.latest, threshold);
    } else {
      AdoptionBand(max, t.latest, threshold);
      StrictlyScaled(0.0, threshold, t.latest);
    }
  }

  class TdfTable {
    var tdfMap: map<string, real>
    var isTableEnabled: bool
    var latestTdf: real

    ghost function State(): Table
      reads this
    {
      Table(tdfMap, isTableEnabled, latestTdf)
    }

    constructor ()
      ensures State() == EMPTY
    {
      tdfMap := map[];
      isTableEnabled := false;
      latestTdf := 1.0;
    }

    /** TdfTable::set; the result tells whether waiting threads were notified. */
    method Set(hostname: string, tdfVal: real, threshold: real) returns (notified: bool)
      modifies this
      ensures State() == Heard(old(State()), Update(hostname, tdfVal), threshold)
      ensures notified == Adopts(old(State()), Update(hostname, tdfVal), threshold)
    {
      assert Recorded(State(), Update(hostname, tdfVal)) == tdfMap[hostname := tdfVal];
      tdfMap := tdfMap[hostname := tdfVal];
      notified := false;
      if isTableEnabled {
        var maxTdfVal := MaxTdf();
        MaxIsUnique(tdfMap, maxTdfVal, MaxOf(tdfMap));
        if PastThreshold(maxTdfVal, latestTdf, threshold) {
          latestTdf := maxTdfVal;
          notified := true;
        }
      }
    }

    /** TdfTable::maxTdf walks the map, starting from its first entry. */
    method MaxTdf() returns (maxVal: real)
      requires tdfMap != map[]
      ensures IsMax(tdfMap, maxVal)
    {
      var left := tdfMap.Keys;
      var first :| first in left;
      maxVal := tdfMap[first];
      while left != {}
        invariant left <= tdfMap.Keys
        invariant exists h :: h in tdfMap && tdfMap[h] == maxVal
        invariant forall h :: h in tdfMap.Keys - left ==> tdfMap[h] <= maxVal
        decreases |left|
      {
        var h :| h in left;
        if maxVal < tdfMap[h] {
          maxVal := tdfMap[h];
        }
        left := left - {h};
      }
    }

    method Clear()
      modifies this
      ensures State() == old(State()).(tdfs := map[])
    {
      tdfMap := map[];
    }

    method EnableTable()
      modifies this
      ensures State() == old(State()).(enabled := true)
    {
      isTableEnabled := true;
    }

    method DisableTable()
      modifies this
      ensures State() == old(State()).(enabled := false)
    {
      isTableEnabled := false;
    }

    /** MemoryDatabase::enforceTdf, which always notifies. */
    method EnforceTdf(tdfVal: real)
      modifies this
      ensures State() == Enforced(old(State()), tdfVal)
    {
      DisableTable();
      latestTdf := tdfVal;
    }
  }

  // ---- Runs ----

  /** A positive TDF in force is replaced exactly by a maximum that differs from it by at least the
      threshold times its value, that is, one outside the band between latest * (1-c) and
      latest * (1+c). */
  lemma AdoptionBand(max: real, latest: real, c: real)
    requires 0.0 < latest
    ensures PastThreshold(max, latest, c) <==> Abs(max - latest) >= c * latest
    ensures PastThreshold(max, latest, c) <==> max >= latest * (1.0 + c) || max <= latest * (1.0 - c)
  {
    var d := Abs(max - latest);
    var q := d / latest;
    assert q * latest == d;
    if q >= c {
      Scaled(c, q, latest);
    } else {
      StrictlyScaled(q, c, latest);
    }
    assert latest * (1.0 + c) == latest + c * latest && latest * (1.0 - c) == latest - c * latest;
  }

  /** The other TDFs that enforcement can put in force: from zero any other value is adopted, and
      from a negative one none is, however often the table changes. */
  lemma AdoptionFromNonPositive(max: real, latest: real, c: real)
    requires latest <= 0.0 && 0.0 < c
    ensures PastThreshold(max, latest, c) <==> latest == 0.0 && max != 0.0
  {
    if latest < 0.0 {
      var q := Abs(max - latest) / latest;
      assert q * latest == Abs(max - latest);
      if q > 0.0 {
        StrictlyScaled(latest, 0.0, q);
      }
    }
  }

  /** The table after a sequence of messages. */
  ghost function HeardAll(t: Table, us: seq<Update>, c: real): Table {
    if us == [] then t else Heard(HeardAll(t, us[..|us| - 1], c), us[|us| - 1], c)
  }

  ghost predicate AllPositive(t: Table, us: seq<Update>) {
    && 0.0 < t.latest
    && (forall h :: h in t.tdfs ==> 0.0 < t.tdfs[h])
    && (forall u :: u in us ==> 0.0 < u.tdf)
  }

  lemma {:induction false} StaysPositive(t: Table, us: seq<Update>, c: real)
    requires AllPositive(t, us)
    ensures AllPositive(HeardAll(t, us, c), [])
    ensures HeardAll(t, us, c).enabled == t.enabled
  {
    if us != [] {
      StaysPositive(t, us[..|us| - 1], c);
    }
  }
}
