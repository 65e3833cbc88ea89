/** The scheduler as it changes its processes and queues in place, proved against the step system. */
module Scheduler {
  import opened Options
  import opened SchedModel
  import LinkedQueue

  class Process {
    const pid: nat
    var state: ProcessState
    var priority: nat
    var timeSlice: nat

    constructor (pid: nat, priority: nat)
      requires priority < 0x1_0000_0000
      ensures this.pid == pid
      ensures Value() == Proc(Ready, StoredPriority(priority), TIME_QUANTUM * StoredPriority(priority))
    {
      this.pid := pid;
      var stored := StoredPriority(priority);
      state := Ready;
      this.priority := stored;
      timeSlice := TIME_QUANTUM * stored;
    }

    ghost function Value(): Proc
      reads this
    {
      Proc(state, priority, timeSlice)
    }

    method SetTimeSlice()
      modifies this`timeSlice
      ensures Value() == Refilled(old(Value()))
    {
      timeSlice := TIME_QUANTUM * priority;
    }

    method DecrementTimeSlice()
      modifies this`timeSlice
      ensures timeSlice == if old(timeSlice) > 0 then old(timeSlice) - 1 else 0
    {
      if timeSlice > 0 {
        timeSlice := timeSlice - 1;
      }
    }
  }

  class Kernel {
    /** All processes ever created, in the order of their pids. */
    var log: seq<Process>
    var idle: Process
    var curr: Process
    const processQueue: LinkedQueue.Queue<Process>
    const zombieQueue: LinkedQueue.Queue<Process>
    /** The zombie that the reaper has popped and not yet freed. */
    var hand: Process?
    /** The same state as a value. */
    ghost var view: Sched

    ghost predicate Holds(p: Process, pid: nat)
      reads `log
    {
      p.pid == pid < |log| && log[pid] == p
    }

    ghost predicate HoldsAll(ps: seq<Process>, pids: seq<nat>): (held: bool)
      reads `log
      ensures held ==> |ps| == |pids|
    {
      |ps| == |pids| && forall i :: 0 <= i < |ps| ==> Holds(ps[i], pids[i])
    }

    lemma HeldTail(ps: seq<Process>, pids: seq<nat>)
      requires HoldsAll(ps, pids) && ps != []
      ensures pids != [] && HoldsAll(ps[1..], pids[1..]) && Holds(ps[0], pids[0])
    {
    }

    lemma HeldPush(ps: seq<Process>, pids: seq<nat>, p: Process)
      requires HoldsAll(ps, pids) && Holds(p, p.pid)
      ensures HoldsAll(ps + [p], pids + [p.pid])
    {
    }

    /** The values of all processes. */
    ghost predicate Table(procs: seq<Proc>)
      reads `log, log
    {
      && |log| == |procs| && forall i :: 0 <= i < |log| ==> Holds(log[i], i) && log[i].Value() == procs[i]
    }

    ghost predicate Valid()
      reads this, log, processQueue, processQueue.nodes, zombieQueue, zombieQueue.nodes
    {
      && Table(view.procs)
      && Holds(idle, IDLE) && Holds(curr, view.curr)
      && processQueue != zombieQueue && processQueue.Valid() && zombieQueue.Valid()
      && processQueue.nodes !! zombieQueue.nodes
      && HoldsAll(processQueue.contents, view.queue)
      && HoldsAll(zombieQueue.contents, view.zombies)
      && (if hand == null then view.hand == None else view.hand.Some? && Holds(hand, view.hand.value))
    }

    /** The processes in the table are told apart by their pids. */
    lemma CurrentValue()
      requires Valid()
      ensures view.curr < |view.procs| && curr.Value() == view.procs[view.curr] && (curr == idle <==> view.curr == IDLE)
    {
      hide HoldsAll;
      hide LinkedQueue.Queue.Valid;
    }

    /** The head of the queue, or null if there is none. */
    method SelectNext() returns (next: Process?)
      requires Valid()
      modifies this`view, processQueue
      ensures Valid() && processQueue.nodes == old(processQueue.nodes)
      ensures if old(view).queue == [] then next == null && view == old(view)
              else view == old(view).(queue := old(view).queue[1..]) && next != null && Holds(next, old(view).queue[0])
    {
      hide HoldsAll;
      hide Table;
      hide LinkedQueue.Queue.Valid;
      next := null;
      var empty := processQueue.Empty();
      if !empty {
        HeldTail(processQueue.contents, view.queue);
        var first := processQueue.Pop();
        next := first.value;
        view := view.(queue := view.queue[1..]);
      }
    }

    /** A running process goes back to the end of the queue, a terminated one to the zombies. */
    method PutAway(leaving: Process, next: Process)
      requires Valid() && Holds(leaving, leaving.pid)
      modifies this`view, processQueue, processQueue.nodes, zombieQueue, zombieQueue.nodes
      ensures Valid()
      ensures fresh(processQueue.nodes - old(processQueue.nodes)) && fresh(zombieQueue.nodes - old(zombieQueue.nodes))
      ensures view == old(view).(
                queue := if leaving.state == Running && leaving != next && leaving != idle
                         then old(view).queue + [leaving.pid] else old(view).queue,
                zombies := if leaving.state == Terminated then old(view).zombies + [leaving.pid] else old(view).zombies)
    {
      hide HoldsAll;
      hide Table;
      hide LinkedQueue.Queue.Valid;
      if leaving.state == Running {
        if leaving != next && leaving != idle {
          HeldPush(processQueue.contents, view.queue, leaving);
          processQueue.Push(leaving);
          view := view.(queue := view.queue + [leaving.pid]);
        }
      } else if leaving.state == Terminated {
        HeldPush(zombieQueue.contents, view.zombies, leaving);
        zombieQueue.Push(leaving);
        view := view.(zombies := view.zombies + [leaving.pid]);
      }
    }

    /** `next` runs from here on, with a full slice. */
    method SwitchTo(next: Process)
      requires Valid() && Holds(next, next.pid) && next.pid < |view.procs|
      modifies this`curr, this`view, next
      ensures Valid() && view == old(view).(curr := next.pid,
                           procs := old(view).procs[next.pid := Refilled(old(view).procs[next.pid].(state := Running))])
    {
      hide HoldsAll;
      hide LinkedQueue.Queue.Valid;
      next.state := Running;
      next.SetTimeSlice();
      curr := next;
      view := view.(curr := next.pid, procs := view.procs[next.pid := next.Value()]);
    }

    method Refill(p: Process)
      requires Valid() && Holds(p, p.pid) && p.pid < |view.procs|
      modifies this`view, p`timeSlice
      ensures Valid() && view == old(view).(procs := old(view).procs[p.pid := Refilled(old(view).procs[p.pid])])
    {
      hide HoldsAll;
      hide LinkedQueue.Queue.Valid;
      p.SetTimeSlice();
      view := view.(procs := view.procs[p.pid := p.Value()]);
    }

    method Schedule()
      requires Valid() && InTable(view)
      modifies this`curr, this`view, log, processQueue, processQueue.nodes, zombieQueue, zombieQueue.nodes
      ensures Valid() && view == SchedModel.Schedule(old(view))
      ensures fresh(processQueue.nodes - old(processQueue.nodes)) && fresh(zombieQueue.nodes - old(zombieQueue.nodes))
    {
      hide HoldsAll;
      hide LinkedQueue.Queue.Valid;
      hide Table;
      var leaving := curr;
      CurrentValue();
      var next := SelectNext();
      if next == null {
        if leaving.state == Running && leaving != idle {
          assert leaving in log;
          Refill(leaving);
          return;
        }
        next := idle;
      }
      assert next in log;
      PutAway(leaving, next);
      SwitchTo(next);
    }

    /** `Process::create`, without the context and the stack. */
    method Create(priority: nat) returns (p: Process)
      requires Valid() && InTable(view) && priority < 0x1_0000_0000
      modifies this`log, this`view
      ensures Valid() && view == SchedModel.Create(old(view), priority)
      ensures p.pid == |old(log)| && log == old(log) + [p] && fresh(p) && Holds(p, |old(log)|)
    {
      hide LinkedQueue.Queue.Valid;
      p := new Process(|log|, priority);
      log := log + [p];
      view := SchedModel.Create(view, priority);
    }

    method Start(p: Process)
      requires Valid() && InTable(view) && Holds(p, p.pid)
      modifies this`view, p`state, processQueue, processQueue.nodes
      ensures Valid() && view == SchedModel.Start(old(view), p.pid)
      ensures fresh(processQueue.nodes - old(processQueue.nodes))
    {
      hide LinkedQueue.Queue.Valid;
      hide HoldsAll;
      HeldPush(processQueue.contents, view.queue, p);
      p.state := Running;
      processQueue.Push(p);
      view := SchedModel.Start(view, p.pid);
    }

    /** The timer interrupt. */
    method OnIrq0()
      requires Valid() && InTable(view)
      modifies this`curr, this`view, log, processQueue, processQueue.nodes, zombieQueue, zombieQueue.nodes
      ensures Valid() && view == Tick(old(view))
      ensures fresh(processQueue.nodes - old(processQueue.nodes)) && fresh(zombieQueue.nodes - old(zombieQueue.nodes))
    {
      hide HoldsAll;
      hide LinkedQueue.Queue.Valid;
      hide SchedModel.Schedule;
      CurrentValue();
      if curr.state == Running {
        assert curr in log;
        curr.DecrementTimeSlice();
        view := view.(procs := view.procs[curr.pid := curr.Value()]);
        if curr.timeSlice == 0 {
          Schedule();
        }
      }
    }

    method Yield()
      requires Valid() && InTable(view)
      modifies this`curr, this`view, log, processQueue, processQueue.nodes, zombieQueue, zombieQueue.nodes
      ensures Valid() && view == SchedModel.Schedule(old(view))
      ensures fresh(processQueue.nodes - old(processQueue.nodes)) && fresh(zombieQueue.nodes - old(zombieQueue.nodes))
    {
      Schedule();
    }

    /** The idle process cannot end. */
    method ExitCurrentProcess()
      requires Valid() && InTable(view)
      modifies this`curr, this`view, log, processQueue, processQueue.nodes, zombieQueue, zombieQueue.nodes
      ensures Valid() && view == Exit(old(view))
      ensures fresh(processQueue.nodes - old(processQueue.nodes)) && fresh(zombieQueue.nodes - old(zombieQueue.nodes))
    {
      hide HoldsAll;
      hide LinkedQueue.Queue.Valid;
      hide SchedModel.Schedule;
      CurrentValue();
      if curr.pid == 0 { return; }
      assert curr in log;
      curr.state := Terminated;
      view := SetState(view, curr.pid, Terminated);
      Schedule();
    }

    /** The reaper pops a zombie, or yields if there is none. */
    method TakeZombie()
      requires Valid() && InTable(view) && hand == null
      modifies this`curr, this`view, this`hand, log, processQueue, processQueue.nodes, zombieQueue, zombieQueue.nodes
      ensures Valid() && view == ReaperTake(old(view))
      ensures fresh(processQueue.nodes - old(processQueue.nodes)) && fresh(zombieQueue.nodes - old(zombieQueue.nodes))
    {
      hide HoldsAll;
      hide LinkedQueue.Queue.Valid;
      hide Table;
      hide SchedModel.Schedule;
      var empty := zombieQueue.Empty();
      if !empty {
        HeldTail(zombieQueue.contents, view.zombies);
        var zombie := zombieQueue.Pop();
        hand := zombie.value;
        view := ReaperTake(view);
      } else {
        Yield();
      }
    }

    /** The reaper gives back the zombie it has popped. */
    method FreeZombie()
      requires Valid() && hand != null
      modifies this`view, this`hand
      ensures Valid() && hand == null && view == ReaperFree(old(view))
    {
      hide HoldsAll;
      hide LinkedQueue.Queue.Valid;
      hide Table;
      hand := null;
      view := ReaperFree(view);
    }

    static lemma InitSteps(s: Sched)
      requires s == Sched([Proc(Ready, 1, TIME_QUANTUM)], IDLE, [], [], None, {})
      ensures InTable(s) && s.curr == 0 && |s.procs| == 1 && IDLE == 0 && REAPER == 1
      ensures var s1 := SchedModel.Create(SchedModel.Start(s, 0), 1);
              |s1.procs| == 2 && SchedModel.Schedule(SchedModel.Start(s1, 1)) == INIT
    {
    }

    /** Both kernel processes are started, before the first switch. */
    method StartKernelProcesses() returns (zombieReaper: Process)
      requires Valid() && view == Sched([Proc(Ready, 1, TIME_QUANTUM)], IDLE, [], [], None, {})
      modifies this`view, this`log, log, processQueue, processQueue.nodes
      ensures Valid() && InTable(view) && SchedModel.Schedule(view) == INIT
      ensures fresh(processQueue.nodes - old(processQueue.nodes))
      ensures log == old(log) + [zombieReaper] && fresh(zombieReaper)
    {
      InitSteps(view);
      hide *;
      HoldsCurrent();
      Start(curr);
      zombieReaper := Create(1);
      assert zombieReaper.pid == 1;
      Start(zombieReaper);
    }

    lemma HoldsCurrent()
      requires Valid()
      ensures Holds(curr, view.curr) && curr.pid == view.curr && curr in log && |log| == |view.procs|
    {
      hide HoldsAll;
      hide LinkedQueue.Queue.Valid;
    }

    /** Before `sched::init` starts anything: the idle process is created and made the current one. */
    constructor ()
      ensures Valid() && view == Sched([Proc(Ready, 1, TIME_QUANTUM)], IDLE, [], [], None, {})
      ensures fresh(log) && fresh(processQueue) && fresh(zombieQueue)
      ensures fresh(processQueue.nodes) && fresh(zombieQueue.nodes)
    {
      hide LinkedQueue.Queue.Valid;
      var kernelIdle := new Process(IDLE, 1);
      idle, curr, log := kernelIdle, kernelIdle, [kernelIdle];
      processQueue := new LinkedQueue.Queue<Process>();
      zombieQueue := new LinkedQueue.Queue<Process>();
      hand := null;
      view := Sched([Proc(Ready, 1, TIME_QUANTUM)], IDLE, [], [], None, {});
    }

    /** The rest of `sched::init`. */
    method Init()
      requires Valid() && view == Sched([Proc(Ready, 1, TIME_QUANTUM)], IDLE, [], [], None, {})
      modifies this`curr, this`view, this`log, log, processQueue, processQueue.nodes, zombieQueue, zombieQueue.nodes
      ensures Valid() && view == INIT
      ensures fresh(processQueue.nodes - old(processQueue.nodes)) && fresh(zombieQueue.nodes - old(zombieQueue.nodes))
    {
      hide *;
      var zombieReaper := StartKernelProcesses();
      Schedule();
    }
  }
}
