/** One pass of the loop in VirtualTime::startAdaptiveVirtualTime, from the wakeup to the unlock, on
    the real objects. The table's mutex is held throughout, so the pass is atomic for the table. */
module Applier {
  import opened Arith
  import opened VirtualClock
  import opened TimersStates
  import opened TdfTables
  import opened InterfaceConfigurators

  datatype Gate = Stop | Go

  class VirtualTime {
    const timers: TimersState
    const tdfTable: TdfTable
    const configurator: InterfaceConfigurator
    var gostop: Gate   // the semaphore that holds the hosts

    constructor (timers: TimersState, tdfTable: TdfTable, configurator: InterfaceConfigurator)
      ensures this.timers == timers && this.tdfTable == tdfTable && this.configurator == configurator
    {
      this.timers := timers;
      this.tdfTable := tdfTable;
      this.configurator := configurator;
      gostop := Stop;
    }

    /** VirtualTime::start, before the loop. */
    method Start(startClock: int, startTicks: int)
      requires timers.Valid() && timers.NotBefore(startClock)
      modifies timers, this`gostop
      ensures timers.Valid() && timers.ticksEnabled && gostop == Go
      ensures timers.history == old(timers.history) + [Enable(startClock)]
      ensures Reading(timers.Clock(), startClock) == Reading(old(timers.Clock()), startClock)
    {
      timers.EnableTicks(startClock, startTicks);
      gostop := Go;
    }

    /** The pass leaves the TDF in force in shared memory and on every link that is kept, with the
        clock and the hosts running again; and the clock has not moved meanwhile, although the time
        source has, and although it runs at another rate from now on. */
    method Pass(suspensions: bool, stopTicks: int, stopClock: int, ghost setAt: int, startClock: int, startTicks: int)
      returns (ghost actions: seq<Action>)
      requires timers.Valid() && timers.NotBefore(stopClock) && stopClock <= setAt <= startClock
      requires 0.0 < tdfTable.latestTdf
      modifies timers, configurator, configurator.ifaceAttrTable, this`gostop
      ensures timers.Valid() && timers.ticksEnabled && timers.tdf == tdfTable.latestTdf
      ensures timers.history == old(timers.history) + PassEvents(stopClock, setAt, startClock, tdfTable.latestTdf)
      ensures timers.Clock() == AfterPass(old(timers.Clock()), stopClock, setAt, startClock, tdfTable.latestTdf)
      ensures Reading(timers.Clock(), startClock) == Reading(old(timers.Clock()), stopClock)
      ensures configurator.ifaceAttrTable.ifaceAttrMap == Kept(old(configurator.ifaceAttrTable.ifaceAttrMap))
      ensures configurator.log == old(configurator.log) + actions
      ensures OneActionEach(old(configurator.ifaceAttrTable.ifaceAttrMap), tdfTable.latestTdf, actions)
      ensures gostop == if suspensions then Go else old(gostop)
    {
      PassAppended(timers.history, stopClock, setAt, startClock, tdfTable.latestTdf);
      timers.DisableTicks(stopTicks, stopClock);
      if suspensions {
        gostop := Stop;
      }
      var newTdf: real := tdfTable.latestTdf;
      timers.SetTdf(newTdf, setAt);
      actions := configurator.UpdateInterfaceAttribute(tdfTable.latestTdf);
      timers.EnableTicks(startClock, startTicks);
      if suspensions {
        gostop := Go;
      }
    }
  }
}
