/** Runs of the scheduler.  The source leaves the update of the current-process pointer to code
    that it does not contain; here a switch is followed by the dispatch step `current := next`,
    except in the last section, which has the ticks as the source has them. */
module SchedulerRuns {
  import opened Words
  import opened Process
  import opened Scheduler

  /** One timer tick and, after a switch, the dispatch of the process switched to. */
  function DispatchTick(p: Procs, context: u32): (r: Procs)
    requires Shaped(p)
    ensures Shaped(r)
  {
    var (p', next) := Tick(p, context);
    if next.Some? then p'.(current := next) else p'
  }

  // ---------------------------------------------------------------- arbitrary events

  datatype Event =
    | TickEvent(context: u32)
    | CreateEvent(priority: u32, stackPhys: u32, pdPhys: u32, context: u32)
    | ExitEvent(pid: u32)
    | BlockEvent(resource: u32)
    | UnblockEvent(pid: u32)

  /** The table after an event.  A creation may find memory or not. */
  function Apply(p: Procs, e: Event): (r: Procs)
    requires Shaped(p)
    ensures Shaped(r)
  {
    match e
    case TickEvent(context) => DispatchTick(p, context)
    case CreateEvent(priority, stackPhys, pdPhys, context) => Create(p, priority, stackPhys, pdPhys, context).0
    case ExitEvent(pid) => Exit(p, pid).0
    case BlockEvent(resource) => BlockOn(p, resource).0
    case UnblockEvent(pid) => Unblock(p, pid).0
  }

  function After(p: Procs, events: seq<Event>): (r: Procs)
    requires Shaped(p)
    ensures Shaped(r)
  {
    if events == [] then p else Apply(After(p, events[..|events| - 1]), events[|events| - 1])
  }

  /** No process other than the current one is running, or blocked. */
  predicate OneRunning(p: Procs) {
    && Shaped(p) && p.current.Some?
    && forall i :: 0 <= i < MAX_PROCESSES && (p.table[i].state == Running || p.table[i].state == Blocked) ==>
                   i == p.current.value
  }

  lemma InitOneRunning(p: Procs)
    requires |p.table| == MAX_PROCESSES && 1 <= p.nextPid <= MAX_PROCESSES
    ensures OneRunning(Init(p))
  {
  }

  /** Whether the next tick switches: the slice is at its end, or the current process has
      stopped running. */
  predicate SwitchDue(p: Procs)
    requires Shaped(p) && p.current.Some?
  {
    p.table[p.current.value].slice <= 1 || p.table[p.current.value].state != Running
  }

  lemma ChargeKeepsStates(p: Procs)
    requires OneRunning(p)
    ensures OneRunning(Charge(p)) && Charge(p).current == p.current
    ensures NeedsSwitch(Charge(p)) <==> SwitchDue(p)
  {
  }

  /** After a switch and the dispatch nobody is blocked, and the process switched to is running;
      the one switched from is ready, unless it is the same. */
  lemma SwitchKeepsOneRunning(p: Procs, context: u32)
    requires OneRunning(p)
    ensures var (q, c) := (Switch(p, context).(current := Some(Pick(p))), p.current.value);
      && OneRunning(q) && q.table[Pick(p)].state == Running
      && (c != Pick(p) ==> q.table[c].state == Ready)
      && forall i :: 0 <= i < MAX_PROCESSES ==> q.table[i].state != Blocked
  {
  }

  lemma CreateKeepsOneRunning(p: Procs, priority: u32, stackPhys: u32, pdPhys: u32, context: u32)
    requires OneRunning(p)
    ensures OneRunning(Create(p, priority, stackPhys, pdPhys, context).0)
  {
    if p.nextPid < MAX_PROCESSES { assert OneRunning(Claim(p, priority)); }
  }

  lemma ApplyKeepsOneRunning(p: Procs, e: Event)
    requires OneRunning(p)
    ensures OneRunning(Apply(p, e))
    ensures e.TickEvent? && Tick(p, e.context).1.Some? ==>
      var r := Apply(p, e); r.current == Tick(p, e.context).1 && r.table[r.current.value].state == Running
  {
    match e
    case TickEvent(context) =>
      ChargeKeepsStates(p);
      SwitchKeepsOneRunning(Charge(p), context);
    case CreateEvent(priority, stackPhys, pdPhys, context) =>
      CreateKeepsOneRunning(p, priority, stackPhys, pdPhys, context);
    case ExitEvent(_) =>
    case BlockEvent(_) =>
    case UnblockEvent(_) =>
  }

  lemma {:induction false} EventsKeepOneRunning(p: Procs, events: seq<Event>)
    requires OneRunning(p)
    ensures OneRunning(After(p, events))
  {
    if events == [] {
    } else {
      EventsKeepOneRunning(p, events[..|events| - 1]);
      ApplyKeepsOneRunning(After(p, events[..|events| - 1]), events[|events| - 1]);
    }
  }

  /** After any events from proc_init on, at most one process is running, and it is the current
      one; nobody else is ever blocked either.  After one more tick that switches, the process
      switched to is current and running. */
  lemma RunKeepsOneRunning(p: Procs, events: seq<Event>, context: u32)
    requires |p.table| == MAX_PROCESSES && 1 <= p.nextPid <= MAX_PROCESSES
    ensures var q := After(Init(p), events);
      && OneRunning(q)
      && var (next, r) := (Tick(q, context).1, DispatchTick(q, context));
         next.Some? ==> r.current == next && r.table[next.value].state == Running
  {
    InitOneRunning(p);
    EventsKeepOneRunning(Init(p), events);
    ApplyKeepsOneRunning(After(Init(p), events), TickEvent(context));
  }

  /** Slot `k` holds a process that has been created, has exited and is not the current one. */
  predicate Gone(p: Procs, k: nat) {
    Shaped(p) && 1 <= k < p.nextPid && p.table[k].state == Zombie && p.current != Some(k)
  }

  lemma ApplyKeepsGone(p: Procs, e: Event, k: nat)
    requires Gone(p, k)
    ensures Gone(Apply(p, e), k)
  {
  }

  /** A created process that becomes a zombie while it is not current is never dispatched again
      and stays a zombie. */
  lemma {:induction false} RunKeepsGone(p: Procs, events: seq<Event>, k: nat)
    requires Gone(p, k)
    ensures Gone(After(p, events), k)
  {
    if events == [] {
    } else {
      RunKeepsGone(p, events[..|events| - 1], k);
      ApplyKeepsGone(After(p, events[..|events| - 1]), events[|events| - 1], k);
    }
  }

  /** After proc_block of the current process, proc_unblock succeeds once and leaves the process
      ready; it restores the table exactly if the process was ready, waiting for nothing, before,
      and so never for one that was running. */
  lemma UnblockAfterBlock(p: Procs, resource: u32)
    requires Shaped(p) && p.current.Some?
    ensures var (c, b) := (p.current.value, BlockOn(p, resource));
      var (q, status) := Unblock(b.0, c);
      && b.1 == 0 && status == 0 && Unblock(q, c) == (q, -1)
      && q.table[c] == p.table[c].(state := Ready, blockedOn := 0)
      && (q == p <==> p.table[c].state == Ready && p.table[c].blockedOn == 0)
  {
  }

  /** Whether a process that exits is gone after the next tick: exactly if it was not the
      current one.  The current process comes back as ready, or running if nobody else is. */
  lemma ExitThenTick(p: Procs, k: u32, context: u32)
    requires OneRunning(p) && 1 <= k < p.nextPid && k < MAX_PROCESSES
    ensures Shaped(Exit(p, k).0) && Exit(p, k).1 == 0
    ensures
      var q := DispatchTick(Exit(p, k).0, context);
      && (q.table[k].state == Zombie <==> p.current != Some(k))
      && (p.current == Some(k) ==>
            q.table[k].state == Ready || (q.table[k].state == Running && q.current == Some(k)))
  {
    var q := Exit(p, k).0;
    if p.current != Some(k) { ApplyKeepsGone(q, TickEvent(context), k); }
  }

  /** A blocked process does not wait for proc_unblock: the next tick makes it ready again, or
      running if nobody else is ready. */
  lemma BlockThenTick(p: Procs, resource: u32, context: u32)
    requires OneRunning(p)
    ensures Shaped(BlockOn(p, resource).0)
    ensures var (c, q) := (p.current.value, DispatchTick(BlockOn(p, resource).0, context));
      && BlockOn(p, resource).0.table[c].state == Blocked
      && (q.table[c].state == Ready || (q.table[c].state == Running && q.current == Some(c)))
      && forall i :: 0 <= i < MAX_PROCESSES ==> q.table[i].state != Blocked
  {
    var q := BlockOn(p, resource).0;
    ApplyKeepsOneRunning(p, BlockEvent(resource));
    ChargeKeepsStates(q);
    SwitchKeepsOneRunning(Charge(q), context);
  }

  // ---------------------------------------------------------------- what one call changes

  /** The slot picked is the lowest ready one, or slot 0. */
  lemma PickExact(p: Procs)
    requires Shaped(p)
    ensures var k := Pick(p);
      if exists i :: 0 <= i < 256 && p.table[i].state == Ready
      then p.table[k].state == Ready && forall i :: 0 <= i < k ==> p.table[i].state != Ready
      else k == 0
  {
  }

  /** context_switch, slot by slot.  The process switched from gets the interrupted context and is
      ready; the one switched to is running with a full slice and one more unit of run time;
      nothing else changes. */
  lemma SwitchExact(p: Procs, context: u32, i: nat)
    requires Shaped(p) && i < 256
    ensures
      var (q, was, from, to) := (Switch(p, context), p.table[i], p.current == Some(i), Pick(p) == i);
      && q == p.(table := q.table) && |q.table| == 256
      && q.table[i].context == (if from then context else was.context)
      && q.table[i].state == (if to then Running else if from then Ready else was.state)
      && q.table[i].slice == (if to then 10 else was.slice)
      && q.table[i].runtime == (if to then (was.runtime + 1) % 0x1_0000_0000 else was.runtime)
      && q.table[i] == was.(context := q.table[i].context, state := q.table[i].state,
                            slice := q.table[i].slice, runtime := q.table[i].runtime)
  {
  }

  /** A tick takes one off the slice of the current process, if there is any left. */
  lemma ChargeExact(p: Procs)
    requires Shaped(p) && p.current.Some?
    ensures var (c, was) := (p.current.value, p.table[p.current.value]);
      && Charge(p) == p.(table := Charge(p).table)
      && Charge(p).table == p.table[c := was.(slice := if was.slice == 0 then 0 else was.slice - 1)]
  {
    var c, was := p.current.value, p.table[p.current.value];
    if was.slice == 0 { assert p.table[c := was] == p.table; }
  }

  lemma PickAfterCharge(p: Procs)
    requires Shaped(p) && p.current.Some?
    ensures (NeedsSwitch(Charge(p)) <==> SwitchDue(p)) && Pick(Charge(p)) == Pick(p)
  {
    forall k | 0 <= k < MAX_PROCESSES ensures Charge(p).table[k].state == p.table[k].state { }
    SamePick(p, Charge(p), 0);
  }

  /** Then it switches, exactly if that was the last of the slice or the process has stopped
      running; without a current process it does nothing. */
  lemma TickExact(p: Procs, context: u32)
    requires Shaped(p)
    ensures p.current.None? ==> Tick(p, context) == (p, None)
    ensures p.current.Some? && SwitchDue(p) ==> Tick(p, context) == (Switch(Charge(p), context), Some(Pick(p)))
    ensures p.current.Some? && !SwitchDue(p) ==> Tick(p, context) == (Charge(p), None)
  {
    if p.current.Some? { PickAfterCharge(p); }
  }

  /** proc_exit, proc_block and proc_unblock: when they fail, and the one slot that they change. */
  lemma TableCallsExact(p: Procs, pid: u32, resource: u32)
    requires Shaped(p)
    ensures Exit(p, pid) == if pid >= 256 then (p, -1) else (p.(table := p.table[pid := p.table[pid].(state := Zombie)]), 0)
    ensures p.current.None? ==> BlockOn(p, resource) == (p, -1)
    ensures p.current.Some? ==> var c := p.current.value;
      BlockOn(p, resource) == (p.(table := p.table[c := p.table[c].(state := Blocked, blockedOn := resource)]), 0)
    ensures Unblock(p, pid) ==
      if pid < 256 && p.table[pid].state == Blocked
      then (p.(table := p.table[pid := p.table[pid].(state := Ready, blockedOn := 0)]), 0)
      else (p, -1)
  {
  }

  // ---------------------------------------------------------------- saved contexts

  /** Event `n` of the run switches away from slot `k`, whose context it saves. */
  predicate SwitchesFrom(p: Procs, events: seq<Event>, n: nat, k: nat)
    requires Shaped(p) && n < |events|
  {
    var q := After(p, events[..n]);
    events[n].TickEvent? && q.current == Some(k) && Tick(q, events[n].context).1.Some?
  }

  /** Event `n` creates a process in slot `k`. */
  predicate CreatesIn(p: Procs, events: seq<Event>, n: nat, k: nat)
    requires Shaped(p) && n < |events|
  {
    events[n].CreateEvent? && After(p, events[..n]).nextPid == k
  }

  /** No other event touches the context of a slot. */
  lemma ContextKept(p: Procs, e: Event, k: nat)
    requires Shaped(p) && k < MAX_PROCESSES
    requires e.TickEvent? && Tick(p, e.context).1.Some? ==> p.current != Some(k)
    requires e.CreateEvent? ==> p.nextPid != k
    ensures Apply(p, e).table[k].context == p.table[k].context
  {
    if e.TickEvent? && p.current.Some? { SwitchExact(Charge(p), e.context, k); }
  }

  lemma AfterOneMore(p: Procs, events: seq<Event>, n: nat, m: nat)
    requires Shaped(p) && n < |events| && m == n + 1
    ensures After(p, events[..m]) == Apply(After(p, events[..n]), events[n])
  {
    assert events[..m] == events[..n] + [events[n]];
    AfterSnoc(p, events[..n], events[n]);
  }

  lemma AfterSnoc(p: Procs, events: seq<Event>, e: Event)
    requires Shaped(p)
    ensures After(p, events + [e]) == Apply(After(p, events), e)
  {
    assert (events + [e])[..|events|] == events;
  }

  /** A switch away from slot `k` saves the interrupted context there. */
  lemma ContextSaved(q: Procs, e: Event, k: nat)
    requires Shaped(q) && e.TickEvent? && q.current == Some(k) && Tick(q, e.context).1.Some?
    ensures Apply(q, e).table[k].context == e.context
  {
    SwitchExact(Charge(q), e.context, k);
  }

  /** The context saved when a process was last switched from stays in its slot, whatever happens in
      between, unless a process is created there. */
  lemma {:induction false} RunKeepsContext(p: Procs, events: seq<Event>, i: nat, j: nat, k: nat)
    requires Shaped(p) && k < MAX_PROCESSES && i < j <= |events| && SwitchesFrom(p, events, i, k)
    requires forall n :: i < n < j ==> !SwitchesFrom(p, events, n, k) && !CreatesIn(p, events, n, k)
    ensures After(p, events[..j]).table[k].context == events[i].context
    decreases j
  {
    var n := j - 1;
    var q := After(p, events[..n]);
    AfterOneMore(p, events, n, j);
    if n == i {
      ContextSaved(q, events[n], k);
    } else {
      RunKeepsContext(p, events, i, n, k);
      assert !SwitchesFrom(p, events, n, k) && !CreatesIn(p, events, n, k);
      ContextKept(q, events[n], k);
    }
  }

  /** So the next switch to that process returns the context that the last switch from it saved. */
  lemma RunRestoresSaved(p: Procs, events: seq<Event>, i: nat, j: nat, k: nat)
    requires Shaped(p) && k < MAX_PROCESSES && i < j < |events| && SwitchesFrom(p, events, i, k)
    requires forall n :: i < n < j ==> !SwitchesFrom(p, events, n, k) && !CreatesIn(p, events, n, k)
    requires events[j].TickEvent? && events[i].context != 0
    ensures var (q, context) := (After(p, events[..j]), events[j].context);
      Tick(q, context).1 == Some(k) && q.current != Some(k) ==> q.current.Some? && Restored(Charge(q), context) == events[i].context
  {
    RunKeepsContext(p, events, i, j, k);
    RestoredExact(After(p, events[..j]), events[j].context, k);
  }

  /** A tick that switches to another slot restores the context saved there. */
  lemma RestoredExact(q: Procs, context: u32, k: nat)
    requires Shaped(q) && k < MAX_PROCESSES && q.table[k].context != 0
    ensures Tick(q, context).1 == Some(k) && q.current != Some(k) ==>
      q.current.Some? && Restored(Charge(q), context) == q.table[k].context
  {
    if q.current.Some? { SwitchExact(Charge(q), context, k); }
  }

  // ---------------------------------------------------------------- ticks alone

  /** One more tick after the dispatches `d`. */
  function TickOnce(p: Procs, d: seq<nat>, context: u32): (r: (Procs, seq<nat>))
    requires Shaped(p)
    ensures Shaped(r.0)
  {
    var next := Tick(p, context).1;
    (DispatchTick(p, context), if next.Some? then d + [next.value] else d)
  }

  /** The table after `n` ticks, and the slots dispatched on the way. */
  function TickRun(p: Procs, context: u32, n: nat): (r: (Procs, seq<nat>))
    requires Shaped(p)
    ensures Shaped(r.0)
  {
    if n == 0 then (p, []) else TickOnce(TickRun(p, context, n - 1).0, TickRun(p, context, n - 1).1, context)
  }

  predicate Runnable(p: Procs, i: nat)
    requires Shaped(p) && i < MAX_PROCESSES
  {
    p.table[i].state == Ready || p.table[i].state == Running
  }

  /** The first runnable slot from `i` on, or 256. */
  function NextRunnable(p: Procs, i: nat): (r: nat)
    requires Shaped(p) && i <= MAX_PROCESSES
    ensures i <= r <= MAX_PROCESSES
    ensures forall k :: i <= k < r ==> !Runnable(p, k)
    ensures r < MAX_PROCESSES ==> Runnable(p, r)
    decreases MAX_PROCESSES - i
  {
    if i == MAX_PROCESSES || Runnable(p, i) then i else NextRunnable(p, i + 1)
  }

  /** The current process is running, and `a < b` are the two lowest runnable slots. */
  predicate Steady(p: Procs, a: nat, b: nat) {
    && OneRunning(p) && p.table[p.current.value].state == Running
    && a == NextRunnable(p, 0) && a < MAX_PROCESSES && b == NextRunnable(p, a + 1) && b < MAX_PROCESSES
  }

  /** The other one of the two lowest runnable slots is picked next. */
  function Other(c: nat, a: nat, b: nat): nat {
    if c == a then b else a
  }

  lemma PickIsOther(p: Procs, a: nat, b: nat)
    requires Steady(p, a, b)
    ensures Pick(p) == Other(p.current.value, a, b) != p.current.value
  {
    assert Runnable(p, a) && Runnable(p, b);
    var r := FirstReady(p, 0);
    assert r < MAX_PROCESSES ==> Runnable(p, r);
  }

  /** Processes stay runnable. */
  lemma SameRunnable(p: Procs, q: Procs, i: nat)
    requires Shaped(p) && Shaped(q) && i <= MAX_PROCESSES
    requires forall k :: 0 <= k < MAX_PROCESSES ==> (Runnable(p, k) <==> Runnable(q, k))
    ensures NextRunnable(p, i) == NextRunnable(q, i)
    decreases MAX_PROCESSES - i
  {
  }

  /** What matters of a steady table: who runs, for how long, and who has been dispatched. */
  datatype Phase = Phase(current: nat, slice: nat, dispatched: seq<nat>)

  function PhaseStep(f: Phase, a: nat, b: nat): Phase {
    if f.slice <= 1 then Phase(Other(f.current, a, b), TIME_SLICE, f.dispatched + [Other(f.current, a, b)])
    else f.(slice := f.slice - 1)
  }

  function PhaseRun(f: Phase, a: nat, b: nat, n: nat): Phase {
    if n == 0 then f else PhaseStep(PhaseRun(f, a, b, n - 1), a, b)
  }

  function PhaseOf(p: Procs, d: seq<nat>): Phase
    requires Shaped(p) && p.current.Some?
  {
    Phase(p.current.value, p.table[p.current.value].slice, d)
  }

  lemma ChargeSteady(p: Procs, a: nat, b: nat)
    requires Steady(p, a, b)
    ensures Steady(Charge(p), a, b)
  {
    forall k | 0 <= k < MAX_PROCESSES ensures Runnable(p, k) <==> Runnable(Charge(p), k) {}
    SameRunnable(p, Charge(p), 0);
    SameRunnable(p, Charge(p), a + 1);
  }

  /** A switch and the dispatch after it hand the processor to the other process. */
  lemma SwitchSteady(p: Procs, a: nat, b: nat, context: u32)
    requires Steady(p, a, b)
    ensures var q := Switch(p, context).(current := Some(Pick(p)));
      Steady(q, a, b) && Pick(p) == Other(p.current.value, a, b) && q.table[Pick(p)].slice == TIME_SLICE
  {
    PickIsOther(p, a, b);
    var q := Switch(p, context).(current := Some(Pick(p)));
    forall k | 0 <= k < MAX_PROCESSES ensures Runnable(p, k) <==> Runnable(q, k) {}
    SameRunnable(p, q, 0);
    SameRunnable(p, q, a + 1);
  }

  /** One tick of a steady table: the slice runs down, or the other process takes over. */
  lemma SteadyTick(p: Procs, a: nat, b: nat, context: u32, d: seq<nat>)
    requires Steady(p, a, b)
    ensures var (q, d') := TickOnce(p, d, context);
      Steady(q, a, b) && PhaseOf(q, d') == PhaseStep(PhaseOf(p, d), a, b)
  {
    ChargeSteady(p, a, b);
    if NeedsSwitch(Charge(p)) { SwitchSteady(Charge(p), a, b, context); }
  }

  lemma TickRunStep(p: Procs, context: u32, n: nat)
    requires Shaped(p) && n > 0
    ensures TickRun(p, context, n) == TickOnce(TickRun(p, context, n - 1).0, TickRun(p, context, n - 1).1, context)
  {
  }

  lemma PhaseRunStep(f: Phase, a: nat, b: nat, n: nat)
    requires n > 0
    ensures PhaseRun(f, a, b, n) == PhaseStep(PhaseRun(f, a, b, n - 1), a, b)
  {
  }

  /** The claim of TicksArePhases about one table and its dispatches. */
  predicate InPhase(p: Procs, d: seq<nat>, a: nat, b: nat, f: Phase) {
    Steady(p, a, b) && PhaseOf(p, d) == f
  }

  /** Runs of ticks go through these phases. */
  lemma {:induction false} TicksArePhases(p: Procs, a: nat, b: nat, context: u32, n: nat)
    requires Steady(p, a, b)
    ensures InPhase(TickRun(p, context, n).0, TickRun(p, context, n).1, a, b, PhaseRun(PhaseOf(p, []), a, b, n))
  {
    if n == 0 {
    } else {
      TicksArePhases(p, a, b, context, n - 1);
      var r, f := TickRun(p, context, n - 1), PhaseRun(PhaseOf(p, []), a, b, n - 1);
      NextPhase(r.0, r.1, a, b, context, f);
      TickRunStep(p, context, n);
      PhaseRunStep(PhaseOf(p, []), a, b, n);
    }
  }

  lemma NextPhase(p: Procs, d: seq<nat>, a: nat, b: nat, context: u32, f: Phase)
    requires InPhase(p, d, a, b, f)
    ensures InPhase(TickOnce(p, d, context).0, TickOnce(p, d, context).1, a, b, PhaseStep(f, a, b))
  {
    SteadyTick(p, a, b, context, d);
  }

  /** The `k`-th dispatch from a table whose current process is `c`. */
  function Dispatched(c: nat, a: nat, b: nat, k: nat): nat {
    if k % 2 == 0 then Other(c, a, b) else Other(Other(c, a, b), a, b)
  }

  /** The number of ticks to the first switch. */
  function FirstSwitch(p: Procs): nat
    requires Shaped(p) && p.current.Some?
  {
    if p.table[p.current.value].slice == 0 then 1 else p.table[p.current.value].slice
  }

  /** The number of switches in `n` ticks, the first of them at tick `first`. */
  function SwitchCount(first: nat, n: nat): nat {
    if n < first then 0 else 1 + (n - first) / 10
  }

  /** What is left of the current slice after `n` ticks. */
  function SliceAfter(slice: nat, first: nat, n: nat): int {
    if n < first then slice - n else 10 - (n - first) % 10
  }

  /** The `k`-th dispatch is of the process that was not running before it. */
  lemma DispatchedNext(c: nat, a: nat, b: nat, k: int)
    requires a != b && k >= -1
    ensures Dispatched(c, a, b, k + 1) == Other(if k < 0 then c else Dispatched(c, a, b, k), a, b)
  {
  }

  /** The phases in closed form. */
  lemma {:induction false} PhasesAlternate(f: Phase, a: nat, b: nat, n: nat)
    requires a != b && f.dispatched == []
    ensures var (g, first) := (PhaseRun(f, a, b, n), if f.slice == 0 then 1 else f.slice);
      && |g.dispatched| == SwitchCount(first, n)
      && g.slice == SliceAfter(f.slice, first, n)
      && (forall k :: 0 <= k < |g.dispatched| ==> g.dispatched[k] == Dispatched(f.current, a, b, k))
      && g.current == if g.dispatched == [] then f.current else Dispatched(f.current, a, b, |g.dispatched| - 1)
  {
    if n == 0 {
    } else {
      PhasesAlternate(f, a, b, n - 1);
      CountStep(if f.slice == 0 then 1 else f.slice, n);
      DispatchedNext(f.current, a, b, SwitchCount(if f.slice == 0 then 1 else f.slice, n - 1) - 1);
    }
  }

  /** Ticks alone: switches come at the first slice's end and then every ten ticks, and they
      alternate strictly between the two lowest runnable slots.  No other slot ever runs. */
  lemma TicksAlternate(p: Procs, a: nat, b: nat, context: u32, n: nat)
    requires Steady(p, a, b)
    ensures var ((q, d), c) := (TickRun(p, context, n), p.current.value);
      && Steady(q, a, b)
      && |d| == SwitchCount(FirstSwitch(p), n)
      && forall k :: 0 <= k < |d| ==> d[k] == Dispatched(c, a, b, k)
  {
    TicksArePhases(p, a, b, context, n);
    PhasesAlternate(PhaseOf(p, []), a, b, n);
  }

  /** One more tick: a switch happens when the slice is at its end. */
  lemma CountStep(first: nat, n: nat)
    requires n > 0 && first > 0
    ensures SwitchCount(first, n) == SwitchCount(first, n - 1) + (if n == first || (n > first && (n - first) % 10 == 0) then 1 else 0)
    ensures n > first && (n - first) % 10 == 0 ==> (n - 1 - first) % 10 == 9
    ensures n > first && (n - first) % 10 != 0 ==> (n - first) % 10 == (n - 1 - first) % 10 + 1
  {
  }

  // ---------------------------------------------------------------- fairness

  /** Within these ticks slot `i` is dispatched. */
  ghost predicate ServedWithin(p: Procs, context: u32, n: nat, i: nat)
    requires Shaped(p)
  {
    i in TickRun(p, context, n).1
  }

  /** Some number of ticks is enough. */
  ghost predicate EverServed(p: Procs, context: u32, i: nat)
    requires Shaped(p)
  {
    exists n: nat :: ServedWithin(p, context, n, i)
  }

  /** Exactly the two lowest runnable slots are ever dispatched. */
  lemma ServedExactly(p: Procs, a: nat, b: nat, context: u32, i: nat)
    requires Steady(p, a, b)
    ensures EverServed(p, context, i) <==> i == a || i == b
  {
    if i == a || i == b {
      var n := FirstSwitch(p) + 10;
      var d := TickRun(p, context, n).1;
      TicksAlternate(p, a, b, context, n);
      assert |d| == 2;
      assert d[0] == Dispatched(p.current.value, a, b, 0) && d[1] == Dispatched(p.current.value, a, b, 1);
      assert ServedWithin(p, context, n, i);
    } else {
      forall n: nat ensures !ServedWithin(p, context, n, i) { TicksAlternate(p, a, b, context, n); }
    }
  }

  /** Round-robin would serve every runnable slot in the end.  The ticks do so exactly if no more
      than two slots are runnable. */
  lemma AllServedExactly(p: Procs, a: nat, b: nat, context: u32)
    requires Steady(p, a, b)
    ensures (forall i :: 0 <= i < MAX_PROCESSES && Runnable(p, i) ==> EverServed(p, context, i)) <==>
            NextRunnable(p, b + 1) == MAX_PROCESSES
  {
    forall i | 0 <= i < MAX_PROCESSES ensures EverServed(p, context, i) <==> i == a || i == b {
      ServedExactly(p, a, b, context, i);
    }
    var c := NextRunnable(p, b + 1);
    if c < MAX_PROCESSES {
      assert Runnable(p, c) && !EverServed(p, context, c);
    } else {
      forall i | 0 <= i < MAX_PROCESSES && Runnable(p, i) ensures EverServed(p, context, i) {
        assert i == a || i == b;
      }
    }
  }

  /** Only created processes are ever dispatched exactly if the second lowest runnable slot is one:
      proc_init makes all slots ready. */
  lemma OnlyCreatedServedExactly(p: Procs, a: nat, b: nat, context: u32)
    requires Steady(p, a, b)
    ensures (forall i: nat :: EverServed(p, context, i) ==> i < p.nextPid) <==> b < p.nextPid
  {
    forall i: nat | EverServed(p, context, i) ensures i == a || i == b {
      ServedExactly(p, a, b, context, i);
    }
    ServedExactly(p, a, b, context, b);
  }

  // ---------------------------------------------------------------- accounting

  /** The run time of the first `k` slots together. */
  function Runtime(t: seq<Pcb>, k: nat): nat
    requires k <= |t|
  {
    if k == 0 then 0 else Runtime(t, k - 1) + t[k - 1].runtime
  }

  lemma {:induction false} RuntimeOne(t: seq<Pcb>, u: seq<Pcb>, i: nat, k: nat)
    requires |t| == |u| && k <= |t| && i < |t|
    requires forall j :: 0 <= j < |t| && j != i ==> u[j].runtime == t[j].runtime
    ensures Runtime(u, k) == Runtime(t, k) + (if i < k then u[i].runtime - t[i].runtime else 0)
    ensures i < k ==> t[i].runtime <= Runtime(t, k)
  {
    if k == 0 {
    } else {
      RuntimeOne(t, u, i, k - 1);
    }
  }

  /** A tick adds one unit of run time per switch, as long as the counters do not wrap. */
  lemma TickAccounts(p: Procs, d: seq<nat>, context: u32)
    requires Shaped(p) && Runtime(p.table, MAX_PROCESSES) + 1 < U32_LIMIT
    ensures var (q, d') := TickOnce(p, d, context);
      Runtime(q.table, MAX_PROCESSES) - |d'| == Runtime(p.table, MAX_PROCESSES) - |d| && |d'| <= |d| + 1
  {
    var next := Tick(p, context).1;
    var i := if next.Some? then next.value else 0;
    RuntimeOne(p.table, DispatchTick(p, context).table, i, MAX_PROCESSES);
  }

  lemma {:induction false} TicksAccount(p: Procs, context: u32, n: nat)
    requires Shaped(p) && Runtime(p.table, MAX_PROCESSES) + n < U32_LIMIT
    ensures Runtime(TickRun(p, context, n).0.table, MAX_PROCESSES) ==
            Runtime(p.table, MAX_PROCESSES) + |TickRun(p, context, n).1|
    ensures |TickRun(p, context, n).1| <= n
  {
    if n == 0 {
    } else {
      TicksAccount(p, context, n - 1);
      AccountStep(p, context, n, Runtime(p.table, MAX_PROCESSES));
    }
  }

  lemma AccountStep(p: Procs, context: u32, n: nat, start: nat)
    requires Shaped(p) && n > 0 && start + n < U32_LIMIT
    requires Runtime(TickRun(p, context, n - 1).0.table, MAX_PROCESSES) == start + |TickRun(p, context, n - 1).1|
    requires |TickRun(p, context, n - 1).1| <= n - 1
    ensures Runtime(TickRun(p, context, n).0.table, MAX_PROCESSES) == start + |TickRun(p, context, n).1|
    ensures |TickRun(p, context, n).1| <= n
  {
    TickRunStep(p, context, n);
    TickAccounts(TickRun(p, context, n - 1).0, TickRun(p, context, n - 1).1, context);
  }

  lemma {:induction false} NoRuntime(t: seq<Pcb>, k: nat)
    requires k <= |t| && forall i :: 0 <= i < |t| ==> t[i].runtime == 0
    ensures Runtime(t, k) == 0
  {
    if k == 0 {
    } else {
      NoRuntime(t, k - 1);
    }
  }

  /** The static table before proc_init: all zeros. */
  predicate Fresh(p: Procs) {
    && |p.table| == MAX_PROCESSES && p.nextPid == 1
    && forall i :: 0 <= i < MAX_PROCESSES ==> p.table[i].slice == 0 && p.table[i].runtime == 0
  }

  /** From proc_init, `n` ticks make ceil(n / 10) switches, the run times add up to that number,
      and the dispatches alternate 1, 0, 1, 0, ...: slot 1 although no process was ever created
      there, and never any other slot. */
  lemma TicksFromInit(p: Procs, context: u32, n: nat)
    requires Fresh(p) && n < U32_LIMIT
    ensures Shaped(Init(p))
    ensures var (q, d) := TickRun(Init(p), context, n);
      && |d| == (n + 9) / 10
      && Runtime(q.table, MAX_PROCESSES) == |d|
      && forall k :: 0 <= k < |d| ==> d[k] == 1 - k % 2
  {
    var p0 := Init(p);
    assert NextRunnable(p0, 0) == 0 && NextRunnable(p0, 1) == 1;
    assert Steady(p0, 0, 1);
    NoRuntime(p0.table, MAX_PROCESSES);
    TicksAlternate(p0, 0, 1, context, n);
    TicksAccount(p0, context, n);
  }

  // ---------------------------------------------------------------- ticks as the source has them

  /** Without the dispatch step, exactly the ticks that do not switch, or that switch to the
      process that is current anyway, keep the promise that only the current process is running. */
  lemma TickKeepsOneRunningExactly(p: Procs, context: u32)
    requires OneRunning(p)
    ensures Tick(p, context).1.Some? <==> SwitchDue(p)
    ensures OneRunning(Tick(p, context).0) <==> !SwitchDue(p) || Pick(p) == p.current.value
  {
    SamePick(p, Charge(p), 0);
    ChargeKeepsStates(p);
    BareSwitch(Charge(p), context);
  }

  /** A switch without a dispatch keeps the promise exactly if it changes nothing about who runs. */
  lemma BareSwitch(p: Procs, context: u32)
    requires OneRunning(p)
    ensures OneRunning(Switch(p, context)) <==> Pick(p) == p.current.value
  {
    assert Switch(p, context).table[Pick(p)].state == Running;
  }

  /** Which slot is picked depends on the states only. */
  lemma {:induction false} SamePick(p: Procs, q: Procs, i: nat)
    requires Shaped(p) && Shaped(q) && i <= MAX_PROCESSES
    requires forall k :: 0 <= k < MAX_PROCESSES ==> p.table[k].state == q.table[k].state
    ensures FirstReady(p, i) == FirstReady(q, i)
    decreases MAX_PROCESSES - i
  {
    if i == MAX_PROCESSES {
    } else {
      SamePick(p, q, i + 1);
    }
  }

  /** `n` ticks without the dispatch step. */
  function BareTicks(p: Procs, context: u32, n: nat): (r: Procs)
    requires Shaped(p)
    ensures Shaped(r)
  {
    if n == 0 then p else Tick(BareTicks(p, context, n - 1), context).0
  }

  /** No two slots are running. */
  predicate NoTwoRunning(p: Procs) {
    Shaped(p) && forall i, j :: 0 <= i < j < MAX_PROCESSES ==> !BothRunning(p, i, j)
  }

  predicate BothRunning(p: Procs, i: nat, j: nat)
    requires Shaped(p) && i < MAX_PROCESSES && j < MAX_PROCESSES
  {
    p.table[i].state == Running && p.table[j].state == Running
  }

  /** What holds from the second tick on: slot 0 stays current, slot 1 keeps running, and so does
      slot 0 or slot 2. */
  predicate Crowded(p: Procs) {
    && Shaped(p) && p.current == Some(0)
    && p.table[1].state == Running
    && (p.table[2].state == Running || (p.table[0].state == Running && p.table[2].state == Ready))
  }

  lemma CrowdedTick(p: Procs, context: u32)
    requires Crowded(p)
    ensures Crowded(Tick(p, context).0)
  {
    var p' := Charge(p);
    assert FirstReady(p', 0) == if p'.table[0].state == Ready then 0 else FirstReady(p', 1);
    assert FirstReady(p', 1) == FirstReady(p', 2);
    assert p'.table[2].state == Ready ==> FirstReady(p', 2) == 2;
  }

  lemma BareTicksStep(p: Procs, context: u32, n: nat)
    requires Shaped(p)
    ensures BareTicks(p, context, n + 1) == Tick(BareTicks(p, context, n), context).0
  {
  }

  /** The first tick switches to slot 1, the second one to slot 0. */
  lemma FirstTwoTicks(p: Procs, context: u32)
    requires Fresh(p)
    ensures Shaped(Init(p)) && Crowded(BareTicks(Init(p), context, 2))
    ensures NoTwoRunning(BareTicks(Init(p), context, 1))
  {
    var p0 := Init(p);
    BareTicksStep(p0, context, 0);
    BareTicksStep(p0, context, 1);
    assert FirstReady(p0, 0) == FirstReady(p0, 1) == 1;
    NoDispatchTwoRunning(p, context);
    assert FirstReady(BareTicks(p0, context, 1), 0) == 0;
  }

  lemma {:induction false} StaysCrowded(p: Procs, context: u32, n: nat)
    requires Fresh(p)
    ensures Shaped(Init(p)) && Crowded(BareTicks(Init(p), context, n + 2))
  {
    if n == 0 {
      FirstTwoTicks(p, context);
    } else {
      StaysCrowded(p, context, n - 1);
      BareTicksStep(Init(p), context, n + 1);
      CrowdedTick(BareTicks(Init(p), context, n + 1), context);
    }
  }

  /** From proc_init without the dispatch step, `n` ticks leave at most one running slot if and
      only if `n` is below 2. */
  lemma BareTicksExactly(p: Procs, context: u32, n: nat)
    requires Fresh(p)
    ensures Shaped(Init(p)) && (NoTwoRunning(BareTicks(Init(p), context, n)) <==> n < 2)
  {
    if n < 2 {
      FirstTwoTicks(p, context);
    } else {
      StaysCrowded(p, context, n - 2);
      var q := BareTicks(Init(p), context, n);
      if q.table[2].state == Running { assert BothRunning(q, 1, 2); } else { assert BothRunning(q, 0, 1); }
    }
  }

  /** Without the dispatch step the promise of one running process is broken by the second
      tick after proc_init: slots 0 and 1 are then both running. */
  lemma NoDispatchTwoRunning(p: Procs, context: u32)
    requires Fresh(p)
    ensures Shaped(Init(p))
    ensures var q := Tick(Tick(Init(p), context).0, context).0;
      q.table[0].state == Running && q.table[1].state == Running && q.current == Some(0)
  {
  }
}
