/**
 The scheduler as a step system over values: what one tick, yield, exit, start or action of the zombie
 reaper does to the current process, the run queue and the zombie queue
 (src/kernel/sched/scheduler.cpp, src/kernel/sched/process.cpp, src/kernel/drivers/pit.cpp).
 */
module SchedModel {
  import opened Options

  datatype ProcessState = Ready | Running | Blocked | Terminated

  datatype Proc = Proc(state: ProcessState, priority: nat, slice: nat)

  const TIME_QUANTUM: nat := 5
  const MIN_PRIORITY: nat := 1
  const MAX_PRIORITY: nat := 10

  /** The idle process is created first and the zombie reaper second. */
  const IDLE: nat := 0
  const REAPER: nat := 1

  /** Process `i` is the one with pid `i`; `hand` is the zombie that the reaper is about to free. */
  datatype Sched = Sched(procs: seq<Proc>, curr: nat, queue: seq<nat>, zombies: seq<nat>, hand: Option<nat>,
      freed: set<nat>)

  /** `num` put into the range from `start` to `end`. */
  function Range(num: int, start: int, end: int): int
  {
    if start <= num <= end then num else if num < start then start else end
  }

  /** The priority that `create` stores: its unsigned argument is compared as a signed one. */
  function StoredPriority(priority: nat): (p: nat)
    requires priority < 0x1_0000_0000
    ensures MIN_PRIORITY <= p <= MAX_PRIORITY
  {
    Range(if priority < 0x8000_0000 then priority else priority - 0x1_0000_0000, MIN_PRIORITY, MAX_PRIORITY)
  }

  function SetState(s: Sched, p: nat, state: ProcessState): Sched
    requires p < |s.procs|
  {
    s.(procs := s.procs[p := s.procs[p].(state := state)])
  }

  /** A full time slice. */
  function Refilled(p: Proc): Proc
  {
    p.(slice := TIME_QUANTUM * p.priority)
  }

  /** Every pid that the scheduler holds belongs to a process. */
  predicate InTable(s: Sched)
  {
    && IDLE < |s.procs| && s.curr < |s.procs|
    && (forall i :: 0 <= i < |s.queue| ==> s.queue[i] < |s.procs|)
    && (forall i :: 0 <= i < |s.zombies| ==> s.zombies[i] < |s.procs|)
  }

  /** `sched::schedule`. */
  function Schedule(s: Sched): (s': Sched)
    requires InTable(s)
    ensures InTable(s') && |s'.procs| == |s.procs|
  {
    var leaving := s.procs[s.curr];
    if s.queue == [] && leaving.state == Running && s.curr != IDLE then
      s.(procs := s.procs[s.curr := Refilled(leaving)])
    else
      var next := if s.queue == [] then IDLE else s.queue[0];
      var rest := if s.queue == [] then [] else s.queue[1..];
      var queue := if leaving.state == Running && s.curr != next && s.curr != IDLE then rest + [s.curr] else rest;
      var zombies := if leaving.state == Terminated then s.zombies + [s.curr] else s.zombies;
      s.(procs := s.procs[next := Refilled(s.procs[next].(state := Running))], curr := next, queue := queue,
          zombies := zombies)
  }

  /** One timer interrupt. */
  function Tick(s: Sched): (s': Sched)
    requires InTable(s)
    ensures InTable(s')
  {
    var p := s.procs[s.curr];
    if p.state != Running then s
    else
      var slice := if p.slice > 0 then p.slice - 1 else 0;
      var s1 := s.(procs := s.procs[s.curr := p.(slice := slice)]);
      if slice == 0 then Schedule(s1) else s1
  }

  /** The current process ends itself; the idle process cannot. */
  function Exit(s: Sched): (s': Sched)
    requires InTable(s)
    ensures InTable(s')
  {
    if s.curr == IDLE then s else Schedule(SetState(s, s.curr, Terminated))
  }

  function Create(s: Sched, priority: nat): (s': Sched)
    requires InTable(s) && priority < 0x1_0000_0000
    ensures InTable(s')
  {
    s.(procs := s.procs + [Proc(Ready, StoredPriority(priority), TIME_QUANTUM * StoredPriority(priority))])
  }

  function Start(s: Sched, p: nat): (s': Sched)
    requires InTable(s) && p < |s.procs|
    ensures InTable(s')
  {
    SetState(s, p, Running).(queue := s.queue + [p])
  }

  /** The reaper takes the oldest zombie in hand, or gives up the processor if there is none. */
  function ReaperTake(s: Sched): (s': Sched)
    requires InTable(s)
    ensures InTable(s')
  {
    if s.zombies != [] then s.(zombies := s.zombies[1..], hand := Some(s.zombies[0])) else Schedule(s)
  }

  /** The reaper frees the zombie in its hand. */
  function ReaperFree(s: Sched): Sched
    requires s.hand.Some?
  {
    s.(hand := None, freed := s.freed + {s.hand.value})
  }

  /** The state that `sched::init` leaves: idle runs and the reaper is queued. */
  const INIT: Sched := Schedule(Sched(
    [Proc(Running, 1, TIME_QUANTUM), Proc(Running, 1, TIME_QUANTUM)], IDLE, [IDLE, REAPER], [], None, {}))

  datatype Event =
    | TickEvent | YieldEvent | ExitEvent | CreateEvent(priority: nat) | StartEvent(pid: nat)
    | ReaperTakeEvent | ReaperFreeEvent

  /** When an event can happen: the reaper acts while it runs and never ends; a process is started once. */
  predicate Enabled(s: Sched, e: Event)
  {
    match e
    case TickEvent => true
    case YieldEvent => true
    case ExitEvent => s.curr != REAPER
    case CreateEvent(priority) => priority < 0x1_0000_0000
    case StartEvent(pid) => pid < |s.procs| && s.procs[pid].state == Ready
    case ReaperTakeEvent => s.curr == REAPER && s.hand.None?
    case ReaperFreeEvent => s.curr == REAPER && s.hand.Some?
  }

  function Step(s: Sched, e: Event): (s': Sched)
    requires InTable(s) && Enabled(s, e)
    ensures InTable(s')
  {
    match e
    case TickEvent => Tick(s)
    case YieldEvent => Schedule(s)
    case ExitEvent => Exit(s)
    case CreateEvent(priority) => Create(s, priority)
    case StartEvent(pid) => Start(s, pid)
    case ReaperTakeEvent => ReaperTake(s)
    case ReaperFreeEvent => ReaperFree(s)
  }

  /** Whether all events of a run can happen one after the other. */
  predicate CanRun(s: Sched, es: seq<Event>)
    requires InTable(s)
    decreases |es|
  {
    es == [] || (Enabled(s, es[0]) && CanRun(Step(s, es[0]), es[1..]))
  }

  function Run(s: Sched, es: seq<Event>): (s': Sched)
    requires InTable(s) && CanRun(s, es)
    ensures InTable(s')
    decreases |es|
  {
    if es == [] then s else Run(Step(s, es[0]), es[1..])
  }
}
