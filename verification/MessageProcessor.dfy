/** What incoming messages do (MessageProcessor.cpp), for messages that are already split at the
    separators and whose numbers atof and atoll have already read. */
module MessageProcessors {
  import opened Arith
  import opened Wrappers
  import opened TdfTables
  import opened ReplicaAgreement
  import opened Controllers
  import opened CpuMonitors
  import opened InterfaceConfigurators

  /** A token with the numbers it reads as. */
  datatype Token = Token(text: string, asReal: real, asInt: int)

  datatype Channel = Udp | Tcp

  /** The number of the protocol, and the tokens behind it. */
  datatype Message = Message(channel: Channel, protocol: int, args: seq<Token>)

  /** The parts of the agent that messages change. */
  datatype Agent = Agent(table: Table, threshold: real, ifaces: map<string, Entry>, tdfMin: real, tdfMax: real)

  datatype Meaning =
    | Ignored
    | OnTable(op: Operation)
    | NewLimits(tdfMin: real, tdfMax: real)
    | NewInterface(name: string, rate: int, delay: int)
    | FlagInterface(name: string)

  /** Each protocol belongs to one channel and has a fixed number of tokens; anything else is
      logged and ignored. */
  function MeaningOf(m: Message): Meaning {
    match (m.channel, m.protocol, |m.args|)
    case (Udp, 10, 2) => OnTable(Hear(Update(m.args[0].text, m.args[1].asReal)))
    case (Udp, 3, 3) => NewInterface(m.args[0].text, m.args[1].asInt, m.args[2].asInt)
    case (Tcp, 1, 3) => NewInterface(m.args[0].text, m.args[1].asInt, m.args[2].asInt)
    case (Tcp, 2, 1) => FlagInterface(m.args[0].text)
    case (Tcp, 11, 1) => OnTable(Enforce(m.args[0].asReal))
    case (Tcp, 12, 0) => OnTable(EnableTable)
    case (Tcp, 13, 0) => OnTable(DisableTable)
    case (Tcp, 14, 2) => NewLimits(m.args[0].asReal, m.args[1].asReal)
    case (Tcp, 23, 1) => OnTable(SetThreshold(m.args[0].asReal))
    case (Tcp, 28, 0) => OnTable(ClearTable)
    case _ => Ignored
  }

  ghost function After(a: Agent, m: Message): Agent {
    match MeaningOf(m)
    case Ignored => a
    case OnTable(op) =>
      a.(table := TableAfter(a.table, op, a.threshold), threshold := if op.SetThreshold? then op.c else a.threshold)
    case NewLimits(tdfMin, tdfMax) => a.(tdfMin := tdfMin, tdfMax := tdfMax)
    case NewInterface(name, rate, delay) => a.(ifaces := a.ifaces[name := Entry(rate, delay, true)])
    case FlagInterface(name) =>
      // for an interface the table does not hold, the program follows a null pointer
      if name in a.ifaces then a.(ifaces := a.ifaces[name := a.ifaces[name].(flagKeep := false)]) else a
  }

  class MessageProcessor {
    const tdfTable: TdfTable
    const configurator: InterfaceConfigurator
    var tdfChangeThreshold: real
    var tdfMin: real
    var tdfMax: real

    constructor (tdfTable: TdfTable, configurator: InterfaceConfigurator)
      ensures this.tdfTable == tdfTable && this.configurator == configurator
      ensures tdfChangeThreshold == 0.1 && tdfMin == 1.0 && tdfMax == 20.0
    {
      this.tdfTable := tdfTable;
      this.configurator := configurator;
      tdfChangeThreshold, tdfMin, tdfMax := 0.1, 1.0, 20.0;
    }

    ghost function State(): Agent
      reads this, tdfTable, configurator, configurator.ifaceAttrTable
    {
      Agent(tdfTable.State(), tdfChangeThreshold, configurator.ifaceAttrTable.ifaceAttrMap, tdfMin, tdfMax)
    }

    /** parseUdpMsg. Protocol 3 also configures the link at once, with the TDF in force. */
    method ParseUdpMsg(protocol: int, args: seq<Token>) returns (notified: bool)
      requires protocol == 3 && |args| == 3 ==> tdfTable.latestTdf != 0.0
      modifies tdfTable, configurator, configurator.ifaceAttrTable
      ensures State() == After(old(State()), Message(Udp, protocol, args))
      ensures notified ==
              (protocol == 10 && |args| == 2 &&
               Adopts(old(tdfTable.State()), Update(args[0].text, args[1].asReal), tdfChangeThreshold))
      ensures if protocol == 3 && |args| == 3
              then exists a ::
                     && configurator.log == old(configurator.log) + [a] && a.iface == args[0].text
                     && Dilates(Entry(args[1].asInt, args[2].asInt, true), old(tdfTable.latestTdf), a)
              else configurator.log == old(configurator.log)
    {
      notified := false;
      match protocol {
        case 10 =>
          if |args| == 2 {
            notified := tdfTable.Set(args[0].text, args[1].asReal, tdfChangeThreshold);
          }
        case 3 =>
          if |args| == 3 {
            var name, rate, delay := args[0].text, args[1].asInt, args[2].asInt;
            configurator.ifaceAttrTable.Set(name, rate, delay);
            var action := ChangeTo(name, rate, delay, tdfTable.latestTdf);
            ChangeToDilates(name, Entry(rate, delay, true), tdfTable.latestTdf);
            configurator.log := configurator.log + [action];
          }
        case _ =>
      }
    }

    /** parseTcpMsg, for the protocols that this model covers; the others count as unknown. Protocol 1
        installs the link at once, with TDF 1 whatever is in force; protocol 2 only flags the interface,
        for the next pass to remove. */
    method ParseTcpMsg(protocol: int, args: seq<Token>) returns (notified: bool)
      requires protocol == 2 && |args| == 1 ==> args[0].text in configurator.ifaceAttrTable.ifaceAttrMap
      modifies tdfTable, this`tdfChangeThreshold, this`tdfMin, this`tdfMax, configurator, configurator.ifaceAttrTable
      ensures State() == After(old(State()), Message(Tcp, protocol, args))
      ensures notified == (protocol == 11 && |args| == 1)
      ensures configurator.log == old(configurator.log) +
              if protocol == 1 && |args| == 3
              then [Replace(args[0].text, args[1].asInt, args[1].asInt, args[2].asInt)] else []
    {
      notified := false;
      match protocol {
        case 1 =>
          if |args| == 3 {
            var name, rate, delay := args[0].text, args[1].asInt, args[2].asInt;
            configurator.ifaceAttrTable.Set(name, rate, delay);
            configurator.log := configurator.log + [InstallAs(name, rate, delay, 1.0)];
            UndilatedInstall(name, rate, delay);
          }
        case 2 =>
          if |args| == 1 {
            configurator.ifaceAttrTable.SetFlagKeep(args[0].text, false);
          }
        case 11 =>
          if |args| == 1 {
            tdfTable.EnforceTdf(args[0].asReal);
            notified := true;
          }
        case 12 =>
          if |args| == 0 {
            tdfTable.EnableTable();
          }
        case 13 =>
          if |args| == 0 {
            tdfTable.DisableTable();
          }
        case 14 =>
          if |args| == 2 {
            tdfMin, tdfMax := args[0].asReal, args[1].asReal;
          }
        case 23 =>
          if |args| == 1 {
            tdfChangeThreshold := args[0].asReal;
          }
        case 28 =>
          if |args| == 0 {
            tdfTable.Clear();
          }
        case _ =>
      }
    }
  }

  // ---- Runs ----

  ghost function AfterAll(a: Agent, ms: seq<Message>): Agent {
    if ms == [] then a else After(AfterAll(a, ms[..|ms| - 1]), ms[|ms| - 1])
  }

  /** A message of this protocol with the right number of tokens. */
  predicate Is(m: Message, channel: Channel, protocol: int, tokens: nat) {
    m.channel == channel && m.protocol == protocol && |m.args| == tokens
  }

  /** Enforces a TDF, or enables the table. */
  predicate ChangesControl(m: Message) {
    Is(m, Tcp, 11, 1) || Is(m, Tcp, 12, 0)
  }

  /** Without such a message a disabled table keeps its TDF in force. */
  lemma {:induction false} DisabledTableIsDeaf(a: Agent, ms: seq<Message>)
    requires !a.table.enabled && forall m :: m in ms ==> !ChangesControl(m)
    ensures AfterAll(a, ms).table.latest == a.table.latest && !AfterAll(a, ms).table.enabled
  {
    if ms != [] {
      DisabledTableIsDeaf(a, ms[..|ms| - 1]);
      assert ms[|ms| - 1] in ms;
    }
  }

  /** An enforced TDF holds over every sequence of messages, whatever TDFs they announce, until
      another one is enforced or the table is enabled again. */
  lemma EnforcedTdfHolds(a: Agent, enforce: Message, ms: seq<Message>)
    requires Is(enforce, Tcp, 11, 1) && forall m :: m in ms ==> !ChangesControl(m)
    ensures AfterAll(After(a, enforce), ms).table.latest == enforce.args[0].asReal
    ensures !AfterAll(After(a, enforce), ms).table.enabled
  {
    DisabledTableIsDeaf(After(a, enforce), ms);
  }

  /** So does, after protocol 13, the TDF that was in force when the table was disabled. */
  lemma DisablingHolds(a: Agent, disable: Message, ms: seq<Message>)
    requires Is(disable, Tcp, 13, 0) && forall m :: m in ms ==> !ChangesControl(m)
    ensures AfterAll(After(a, disable), ms).table.latest == a.table.latest
  {
    DisabledTableIsDeaf(After(a, disable), ms);
  }

  /** Changes how or whether announcements count. */
  predicate ChangesListening(m: Message) {
    Is(m, Tcp, 11, 1) || Is(m, Tcp, 13, 0) || Is(m, Tcp, 23, 1) || Is(m, Tcp, 28, 0)
  }

  predicate AnnouncesPositive(m: Message) {
    Is(m, Udp, 10, 2) ==> 0.0 < m.args[1].asReal
  }

  /** The table listens to positive announcements, and was positive before. */
  ghost predicate Listens(a: Agent, c: real) {
    a.table.enabled && AllPositive(a.table, []) && a.threshold == c
  }

  lemma ListensOn(a: Agent, m: Message, c: real)
    requires Listens(a, c) && 0.0 < c < 1.0 && !ChangesListening(m) && AnnouncesPositive(m)
    ensures Listens(After(a, m), c)
    ensures Is(m, Udp, 10, 2) || NearMax(a.table, c) ==> NearMax(After(a, m).table, c)
  {
    if Is(m, Udp, 10, 2) {
      var u := Update(m.args[0].text, m.args[1].asReal);
      HeardNearMax(a.table, u, c);
      StaysPositive(a.table, [u], c);
      assert [u][..0] == [] && HeardAll(a.table, [u], c) == Heard(a.table, u, c);
    }
  }

  /** What protocols 23 and 12 are for: once a threshold c is set and the table is enabled, every later
      announcement counts: after the first one the TDF in force is always within c of the maximum. */
  lemma {:induction false} EnabledTableFollows(a: Agent, setting: Message, enable: Message, ms: seq<Message>)
    requires Is(setting, Tcp, 23, 1) && Is(enable, Tcp, 12, 0) && AllPositive(a.table, [])
    requires 0.0 < setting.args[0].asReal < 1.0
    requires forall m :: m in ms ==> !ChangesListening(m) && AnnouncesPositive(m)
    ensures var c, a' := setting.args[0].asReal, AfterAll(After(After(a, setting), enable), ms);
            Listens(a', c) && ((exists m :: m in ms && Is(m, Udp, 10, 2)) ==> NearMax(a'.table, c))
  {
    if ms != [] {
      var n := |ms| - 1;
      assert ms[n] in ms;
      EnabledTableFollows(a, setting, enable, ms[..n]);
      ListensOn(AfterAll(After(After(a, setting), enable), ms[..n]), ms[n], setting.args[0].asReal);
      assert forall m :: m in ms ==> m in ms[..n] || m == ms[n];
    }
  }

  /** The limits and the threshold that the messages last set. */
  function LastLimits(ms: seq<Message>): Option<(real, real)> {
    if ms == [] then None
    else
      var m := ms[|ms| - 1];
      if Is(m, Tcp, 14, 2) then Some((m.args[0].asReal, m.args[1].asReal)) else LastLimits(ms[..|ms| - 1])
  }

  lemma {:induction false} LimitsAreLastSet(a: Agent, ms: seq<Message>)
    ensures (AfterAll(a, ms).tdfMin, AfterAll(a, ms).tdfMax) ==
            if LastLimits(ms).Some? then LastLimits(ms).value else (a.tdfMin, a.tdfMax)
  {
    if ms != [] {
      LimitsAreLastSet(a, ms[..|ms| - 1]);
    }
  }

  /** The limits that protocol 14 last set bound the next broadcast, the first from below and the second
      from above, whatever the monitor's TDFs were before. */
  lemma LimitsBoundBroadcast(a: Agent, ms: seq<Message>, cfg: Config, m: Monitor, s: Sample)
    requires LastLimits(ms).Some? && LastLimits(ms).value.0 <= LastLimits(ms).value.1
    requires cfg.tdfMin == AfterAll(a, ms).tdfMin && cfg.tdfMax == AfterAll(a, ms).tdfMax
    requires cfg.isLoadMonitored && Runs(cfg, m, s)
    ensures LastLimits(ms).value.0 <= Required(cfg, Watched(cfg, m, s)) <= LastLimits(ms).value.1
  {
    LimitsAreLastSet(a, ms);
    NewLimitsTakeEffect(cfg, m, s);
  }

  /** The announcements of one host among the messages since the table was last cleared. */
  function Announced(ms: seq<Message>, host: string): Option<real> {
    if ms == [] then None
    else
      var m := ms[|ms| - 1];
      if Is(m, Tcp, 28, 0) then None
      else if Is(m, Udp, 10, 2) && m.args[0].text == host then Some(m.args[1].asReal)
      else Announced(ms[..|ms| - 1], host)
  }

  /** Enforced or not, enabled or not: the table always holds exactly what each host last announced
      since it was cleared. */
  lemma {:induction false} TableHoldsAnnouncements(a: Agent, ms: seq<Message>, host: string)
    requires a.table == EMPTY
    ensures var tdfs := AfterAll(a, ms).table.tdfs;
            Announced(ms, host) == if host in tdfs then Some(tdfs[host]) else None
  {
    if ms != [] {
      TableHoldsAnnouncements(a, ms[..|ms| - 1], host);
    }
  }

  /** What the messages say about one interface: what it was last installed with, and whether it is
      still to be kept. */
  function Installed(ms: seq<Message>, name: string): Option<Entry> {
    if ms == [] then None
    else
      var m, before := ms[|ms| - 1], Installed(ms[..|ms| - 1], name);
      if (Is(m, Udp, 3, 3) || Is(m, Tcp, 1, 3)) && m.args[0].text == name
      then Some(Entry(m.args[1].asInt, m.args[2].asInt, true))
      else if Is(m, Tcp, 2, 1) && m.args[0].text == name && before.Some?
      then Some(before.value.(flagKeep := false))
      else before
  }

  /** Over every sequence of messages, a following pass keeps an interface exactly if it was
      installed and not flagged since, and it then has the rate and delay it was last installed with. */
  lemma PassKeepsInstalled(a: Agent, ms: seq<Message>, name: string)
    requires a.ifaces == map[]
    ensures var links, said := Kept(AfterAll(a, ms).ifaces), Installed(ms, name);
            && (name in links <==> said.Some? && said.value.flagKeep)
            && (name in links ==> links[name] == said.value)
  {
    TableHoldsInstalled(a, ms, name);
  }

  lemma {:induction false} TableHoldsInstalled(a: Agent, ms: seq<Message>, name: string)
    requires a.ifaces == map[]
    ensures var ifaces := AfterAll(a, ms).ifaces;
            Installed(ms, name) == if name in ifaces then Some(ifaces[name]) else None
  {
    if ms != [] {
      TableHoldsInstalled(a, ms[..|ms| - 1], name);
    }
  }
}
