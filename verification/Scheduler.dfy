/** The timer tick and the context switch on the process table. */
module Scheduler {
  import opened Words
  import opened Heap
  import opened Process

  /** The first ready slot from `i` on, or 256. */
  function FirstReady(p: Procs, i: nat): (r: nat)
    requires Shaped(p) && i <= MAX_PROCESSES
    ensures i <= r <= MAX_PROCESSES
    ensures forall k :: i <= k < r ==> p.table[k].state != Ready
    ensures r < MAX_PROCESSES ==> p.table[r].state == Ready
    decreases MAX_PROCESSES - i
  {
    if i == MAX_PROCESSES || p.table[i].state == Ready then i else FirstReady(p, i + 1)
  }

  /** The slot that context_switch picks: the first ready one, or the idle process. */
  function Pick(p: Procs): (next: nat)
    requires Shaped(p)
    ensures next < MAX_PROCESSES
  {
    var i := FirstReady(p, 0);
    if i < MAX_PROCESSES then i else 0
  }

  /** context_switch: the outgoing process becomes ready whatever its state was. */
  function Switch(p: Procs, context: u32): (r: Procs)
    requires Shaped(p)
    ensures Shaped(r)
  {
    var next := Pick(p);
    var t := if p.current.None? then p.table
             else p.table[p.current.value := p.table[p.current.value].(state := Ready, context := context)];
    p.(table := t[next := t[next].(state := Running, slice := TIME_SLICE, runtime := Add32(t[next].runtime, 1))])
  }

  /** What context_switch returns: the context of the slot switched to, or the interrupted one if
      that slot has none. */
  function Restored(p: Procs, context: u32): u32
    requires Shaped(p)
  {
    var saved := Switch(p, context).table[Pick(p)].context;
    if saved != NULL then saved else context
  }

  /** The current process after one tick of its slice. */
  function Charge(p: Procs): (r: Procs)
    requires Shaped(p) && p.current.Some?
    ensures Shaped(r)
  {
    var c := p.current.value;
    if p.table[c].slice > 0 then p.(table := p.table[c := p.table[c].(slice := p.table[c].slice - 1)]) else p
  }

  predicate NeedsSwitch(p: Procs)
    requires Shaped(p) && p.current.Some?
  {
    p.table[p.current.value].slice == 0 || p.table[p.current.value].state != Running
  }

  /** scheduler_tick on the table, and the slot that was switched to. */
  function Tick(p: Procs, context: u32): (r: (Procs, Option<nat>))
    requires Shaped(p)
    ensures Shaped(r.0) && (r.1.Some? ==> r.1.value < MAX_PROCESSES)
  {
    if p.current.None? then (p, None)
    else
      var p' := Charge(p);
      if NeedsSwitch(p') then (Switch(p', context), Some(Pick(p'))) else (p', None)
  }

  class Timer {
    const procs: ProcessManager
    var ticks: u32

    constructor (procs: ProcessManager)
      ensures this.procs == procs && ticks == 0
    {
      this.procs := procs;
      ticks := 0;
    }

    /** context_switch returns the context to restore. */
    method ContextSwitch(context: u32) returns (restored: u32)
      requires Shaped(procs.ProcsState())
      modifies procs.table
      ensures procs.ProcsState() == Switch(old(procs.ProcsState()), context)
      ensures restored == Restored(old(procs.ProcsState()), context)
    {
      ghost var p0 := procs.ProcsState();
      var next := MAX_PROCESSES;
      for i := 0 to MAX_PROCESSES
        invariant procs.ProcsState() == p0
        invariant FirstReady(p0, 0) == FirstReady(p0, i)
        invariant next == MAX_PROCESSES
      {
        if procs.table[i].state == Ready {
          next := i;
          break;
        }
      }
      if next == MAX_PROCESSES {
        next := 0;
      }
      assert next == Pick(p0);
      if procs.current.Some? {
        var c := procs.current.value;
        procs.table[c] := procs.table[c].(state := Ready, context := context);
      }
      procs.table[next] := procs.table[next].(state := Running, slice := TIME_SLICE,
                                              runtime := Add32(procs.table[next].runtime, 1));
      assert procs.table[..] == Switch(p0, context).table;
      restored := if procs.table[next].context != NULL then procs.table[next].context else context;
    }

    /** scheduler_tick */
    method TimerTick(context: u32) returns (switched: bool)
      requires Shaped(procs.ProcsState())
      modifies this`ticks, procs.table
      ensures ticks == Add32(old(ticks), 1)
      ensures procs.ProcsState() == Tick(old(procs.ProcsState()), context).0
      ensures switched <==> Tick(old(procs.ProcsState()), context).1.Some?
    {
      ticks := Add32(ticks, 1);
      if procs.current.None? {
        return false;
      }
      ghost var p0 := procs.ProcsState();
      var c := procs.current.value;
      if procs.table[c].slice > 0 {
        procs.table[c] := procs.table[c].(slice := procs.table[c].slice - 1);
      }
      assert procs.ProcsState() == Charge(p0);
      switched := procs.table[c].slice == 0 || procs.table[c].state != Running;
      if switched {
        var _ := ContextSwitch(context);
      }
    }
  }
}
