/** What every run of the scheduler keeps, how long a process waits, and what share it gets. */
module SchedProofs {
  import opened Options
  import opened SchedModel

  // ---------------------------------------------------------------------------------------------
  // No process is lost or duplicated

  /** In how many of its places the scheduler holds process `p`. */
  function Places(s: Sched, p: nat): nat
  {
    (if s.curr == p then 1 else 0) + multiset(s.queue)[p] + multiset(s.zombies)[p]
    + (if s.hand == Some(p) then 1 else 0) + (if p in s.freed then 1 else 0)
  }

  /** A terminated process is a zombie, in the reaper's hand, or freed. */
  predicate Dead(s: Sched, p: nat)
  {
    p in s.zombies || s.hand == Some(p) || p in s.freed
  }

  ghost predicate Inv(s: Sched)
  {
    && InTable(s) && REAPER < |s.procs|
    && (s.hand.Some? ==> s.hand.value < |s.procs|) && (forall p :: p in s.freed ==> p < |s.procs|)
    && (forall p :: 0 <= p < |s.procs| ==> ProcessOk(s, p))
    && s.procs[s.curr].state == Running && s.procs[s.curr].slice > 0
  }

  /** Idle is never queued; every other process is in one place from its start on, and terminated exactly if dead. */
  ghost predicate ProcessOk(s: Sched, p: nat)
    requires p < |s.procs|
  {
    var proc := s.procs[p];
    && MIN_PRIORITY <= proc.priority <= MAX_PRIORITY && proc.slice <= TIME_QUANTUM * proc.priority
    && (p == IDLE ==> proc.state == Running && p !in s.queue && !Dead(s, p))
    && (p == REAPER ==> proc.state == Running)
    && (p != IDLE ==> Places(s, p) == if proc.state == Ready then 0 else 1)
    && (proc.state == Terminated <==> Dead(s, p))
    && proc.state != Blocked
  }

  lemma InitInv()
    ensures Inv(INIT) && INIT.curr == IDLE && INIT.queue == [REAPER]
  {
  }

  /** The invariant while the current process is about to be switched away from. */
  ghost predicate BeforeSwitch(s: Sched)
  {
    && InTable(s) && REAPER < |s.procs|
    && (s.hand.Some? ==> s.hand.value < |s.procs|) && (forall p :: p in s.freed ==> p < |s.procs|)
    && (forall p :: 0 <= p < |s.procs| && p != s.curr ==> ProcessOk(s, p))
    && CurrentOk(s)
  }

  ghost predicate CurrentOk(s: Sched)
    requires InTable(s)
  {
    var c := s.procs[s.curr];
    && MIN_PRIORITY <= c.priority <= MAX_PRIORITY && c.slice <= TIME_QUANTUM * c.priority
    && s.curr !in s.queue && !Dead(s, s.curr)
    && (c.state == Running || (c.state == Terminated && s.curr != IDLE && s.curr != REAPER))
  }

  lemma PopPlaces(q: seq<nat>, p: nat)
    requires q != []
    ensures multiset(q)[p] == multiset(q[1..])[p] + (if p == q[0] then 1 else 0)
    ensures p in q <==> p == q[0] || p in q[1..]
  {
    assert q == [q[0]] + q[1..];
  }

  lemma PushPlaces(q: seq<nat>, c: nat, p: nat)
    ensures multiset(q + [c])[p] == multiset(q)[p] + (if p == c then 1 else 0)
    ensures p in q + [c] <==> p == c || p in q
  {
  }

  lemma InQueuePlaces(q: seq<nat>, p: nat)
    ensures p in q <==> multiset(q)[p] > 0
  {
  }

  /** How the places of a process change in a switch to the head of the queue. */
  lemma HeadPlaces(s: Sched, p: nat)
    requires BeforeSwitch(s) && p < |s.procs| && s.queue != []
    ensures var s' := Schedule(s); Places(s', p) == if s.procs[s.curr].state == Running && s.curr == IDLE && p == IDLE
                                                     then Places(s, p) - 1 else Places(s, p)
    ensures p in Schedule(s).queue <==>
            p in s.queue[1..] || (p == s.curr && s.procs[s.curr].state == Running && p != IDLE)
    ensures Dead(Schedule(s), p) <==> Dead(s, p) || (p == s.curr && s.procs[s.curr].state == Terminated)
  {
    hide ProcessOk;
    PopPlaces(s.queue, p);
    PopPlaces(s.queue, s.curr);
    PushPlaces(s.queue[1..], s.curr, p);
    PushPlaces(s.zombies, s.curr, p);
  }

  lemma HeadProcessOk(s: Sched, p: nat)
    requires BeforeSwitch(s) && p < |s.procs| && s.queue != []
    ensures ProcessOk(Schedule(s), p)
  {
    hide Places;
    hide Dead;
    HeadPlaces(s, p);
    PopPlaces(s.queue, p);
    PlacesOfCurrent(s);
    assert p != s.curr ==> ProcessOk(s, p);
    QueuedOk(s, s.queue[0]);
  }

  lemma PlacesOfCurrent(s: Sched)
    requires BeforeSwitch(s)
    ensures Places(s, s.curr) == 1
  {
    InQueuePlaces(s.queue, s.curr);
    InQueuePlaces(s.zombies, s.curr);
  }

  lemma QueuedOk(s: Sched, p: nat)
    requires BeforeSwitch(s) && p in s.queue
    ensures p != s.curr && p != IDLE && !Dead(s, p) && s.procs[p].state == Running
    ensures multiset(s.queue)[p] == 1
  {
    InQueuePlaces(s.queue, p);
    InQueuePlaces(s.zombies, p);
    assert ProcessOk(s, p);
  }

  /** With an empty queue the current process goes on, or the idle process takes over. */
  lemma EmptyProcessOk(s: Sched, p: nat)
    requires BeforeSwitch(s) && p < |s.procs| && s.queue == []
    ensures ProcessOk(Schedule(s), p)
  {
    PlacesOfCurrent(s);
    assert p != s.curr ==> ProcessOk(s, p);
    PushPlaces(s.zombies, s.curr, p);
  }

  /** A switch puts the old process where it belongs and gives the next one a full slice. */
  lemma ScheduleInv(s: Sched)
    requires BeforeSwitch(s)
    ensures Inv(Schedule(s))
  {
    hide Places;
    hide Dead;
    var s' := Schedule(s);
    assert s'.curr != s.curr ==> ProcessOk(s, s'.curr);
    forall p | 0 <= p < |s.procs|
      ensures ProcessOk(s', p)
    {
      if s.queue == [] {
        EmptyProcessOk(s, p);
      } else {
        HeadProcessOk(s, p);
      }
    }
  }

  lemma InvIsBeforeSwitch(s: Sched)
    requires Inv(s)
    ensures BeforeSwitch(s)
  {
    InQueuePlaces(s.queue, s.curr);
    InQueuePlaces(s.zombies, s.curr);
    assert ProcessOk(s, s.curr);
  }

  lemma TickInv(s: Sched)
    requires Inv(s)
    ensures Inv(Tick(s))
  {
    var p := s.procs[s.curr];
    var s1 := s.(procs := s.procs[s.curr := p.(slice := p.slice - 1)]);
    InvIsBeforeSwitch(s);
    assert forall q :: 0 <= q < |s.procs| && q != s.curr ==> ProcessOk(s, q) ==> ProcessOk(s1, q);
    if p.slice == 1 {
      ScheduleInv(s1);
    } else {
      assert ProcessOk(s, s.curr);
      assert forall q :: 0 <= q < |s.procs| ==> ProcessOk(s1, q);
    }
  }

  lemma ExitInv(s: Sched)
    requires Inv(s) && s.curr != REAPER
    ensures Inv(Exit(s))
  {
    if s.curr != IDLE {
      var s1 := SetState(s, s.curr, Terminated);
      InvIsBeforeSwitch(s);
      assert forall q :: 0 <= q < |s.procs| && q != s.curr ==> ProcessOk(s, q) ==> ProcessOk(s1, q);
      ScheduleInv(s1);
    }
  }

  lemma CreateInv(s: Sched, priority: nat)
    requires Inv(s) && priority < 0x1_0000_0000
    ensures Inv(Create(s, priority))
  {
    var s' := Create(s, priority);
    forall p | 0 <= p < |s'.procs|
      ensures ProcessOk(s', p)
    {
      if p < |s.procs| {
        assert ProcessOk(s, p);
      } else {
        InQueuePlaces(s.queue, p);
        InQueuePlaces(s.zombies, p);
      }
    }
  }

  lemma StartInv(s: Sched, q: nat)
    requires Inv(s) && q < |s.procs| && s.procs[q].state == Ready
    ensures Inv(Start(s, q))
  {
    var s' := Start(s, q);
    forall p | 0 <= p < |s.procs|
      ensures ProcessOk(s', p)
    {
      assert ProcessOk(s, p);
      PushPlaces(s.queue, q, p);
    }
  }

  /** Nothing stops a caller from starting a process again; exactly then it is in two places at once. */
  lemma StartKeepsInvIff(s: Sched, q: nat)
    requires Inv(s) && q < |s.procs|
    ensures Inv(Start(s, q)) <==> s.procs[q].state == Ready
  {
    if s.procs[q].state == Ready {
      StartInv(s, q);
    } else {
      assert ProcessOk(s, q);
      PushPlaces(s.queue, q, q);
      assert !ProcessOk(Start(s, q), q);
    }
  }

  lemma ReaperTakeInv(s: Sched)
    requires Inv(s) && s.curr == REAPER && s.hand.None?
    ensures Inv(ReaperTake(s))
  {
    if s.zombies == [] {
      InvIsBeforeSwitch(s);
      ScheduleInv(s);
    } else {
      var s' := ReaperTake(s);
      forall p | 0 <= p < |s.procs|
        ensures ProcessOk(s', p)
      {
        assert ProcessOk(s, p);
        PopPlaces(s.zombies, p);
        InQueuePlaces(s.zombies[1..], p);
      }
    }
  }

  lemma ReaperFreeInv(s: Sched)
    requires Inv(s) && s.hand.Some?
    ensures Inv(ReaperFree(s)) && s.hand.value != s.curr && s.hand.value !in s.freed
    ensures s.hand.value !in s.queue && s.procs[s.hand.value].state == Terminated
  {
    var z := s.hand.value;
    var s' := ReaperFree(s);
    InQueuePlaces(s.queue, z);
    assert ProcessOk(s, z);
    forall p | 0 <= p < |s.procs|
      ensures ProcessOk(s', p)
    {
      assert ProcessOk(s, p);
    }
  }

  /** Every event keeps the invariant. */
  lemma StepInv(s: Sched, e: Event)
    requires Inv(s) && Enabled(s, e)
    ensures Inv(Step(s, e))
  {
    match e
    case TickEvent => TickInv(s);
    case YieldEvent => InvIsBeforeSwitch(s); ScheduleInv(s);
    case ExitEvent => ExitInv(s);
    case CreateEvent(priority) => CreateInv(s, priority);
    case StartEvent(pid) => StartInv(s, pid);
    case ReaperTakeEvent => ReaperTakeInv(s);
    case ReaperFreeEvent => ReaperFreeInv(s);
  }

  /** In every state of every run each process is where it belongs. */
  lemma {:induction false} RunInv(s: Sched, es: seq<Event>)
    requires Inv(s) && CanRun(s, es)
    ensures Inv(Run(s, es))
    decreases |es|
  {
    if es != [] {
      StepInv(s, es[0]);
      RunInv(Step(s, es[0]), es[1..]);
    }
  }

  /** Once freed, a process is never scheduled, queued or freed again. */
  lemma {:induction false} FreedForever(s: Sched, es: seq<Event>, p: nat)
    requires Inv(s) && CanRun(s, es) && p in s.freed
    ensures var s' := Run(s, es);
            p in s'.freed && p != s'.curr && p !in s'.queue && p !in s'.zombies && s'.hand != Some(p)
    decreases |es|
  {
    if es == [] {
      assert ProcessOk(s, p);
      InQueuePlaces(s.queue, p);
      InQueuePlaces(s.zombies, p);
    } else {
      StepInv(s, es[0]);
      FreedForever(Step(s, es[0]), es[1..], p);
    }
  }

  // ---------------------------------------------------------------------------------------------
  // Bounded waiting

  function SumQuanta(s: Sched, q: seq<nat>): nat
    requires forall i :: 0 <= i < |q| ==> q[i] < |s.procs|
  {
    if q == [] then 0 else TIME_QUANTUM * s.procs[q[0]].priority + SumQuanta(s, q[1..])
  }

  /** The ticks until the process at position `k` of the queue runs, if nobody gives up the processor early. */
  function Wait(s: Sched, k: nat): nat
    requires InTable(s) && k < |s.queue|
  {
    s.procs[s.curr].slice + SumQuanta(s, s.queue[..k])
  }

  lemma {:induction false} SumQuantaSame(s: Sched, s': Sched, q: seq<nat>)
    requires |s.procs| <= |s'.procs| && forall i :: 0 <= i < |q| ==> q[i] < |s.procs|
    requires forall p :: 0 <= p < |s.procs| ==> s'.procs[p].priority == s.procs[p].priority
    ensures SumQuanta(s', q) == SumQuanta(s, q)
  {
    if q != [] {
      SumQuantaSame(s, s', q[1..]);
    }
  }

  function TickCount(es: seq<Event>): nat
  {
    if es == [] then 0 else (if es[0].TickEvent? then 1 else 0) + TickCount(es[1..])
  }

  /** Priorities never change. */
  lemma PrioritiesKept(s: Sched, e: Event)
    requires InTable(s) && Enabled(s, e)
    ensures |s.procs| <= |Step(s, e).procs|
    ensures forall p :: 0 <= p < |s.procs| ==> Step(s, e).procs[p].priority == s.procs[p].priority
  {
  }

  /** A switch dispatches the head of the queue and moves everybody else one place forward. */
  lemma SwitchWait(s: Sched, k: nat)
    requires BeforeSwitch(s) && k < |s.queue|
    ensures var s' := Schedule(s);
            if k == 0 then s'.curr == s.queue[0]
            else k - 1 < |s'.queue| && s'.queue[k - 1] == s.queue[k] && Wait(s', k - 1) == SumQuanta(s, s.queue[..k])
  {
    var s' := Schedule(s);
    if k > 0 {
      assert s.queue[..k][0] == s.queue[0] && s.queue[..k][1..] == s.queue[1..][..k - 1];
      assert s'.queue[..k - 1] == s.queue[1..][..k - 1];
      SumQuantaSame(s, s', s.queue[..k][1..]);
    }
  }

  /** `s'` follows `s`: the process at position `k` runs, or waits on for less time. */
  ghost predicate WaitsLess(s: Sched, k: nat, s': Sched, k': nat, ticks: nat)
    requires InTable(s) && InTable(s') && k < |s.queue|
  {
    s'.curr == s.queue[k]
    || (k' < |s'.queue| && s'.queue[k'] == s.queue[k] && Wait(s', k') + ticks <= Wait(s, k))
  }

  function Sooner(k: nat): nat { if k == 0 then 0 else k - 1 }

  /** Giving up the processor early makes nobody wait longer. */
  lemma SwitchWaitsLess(s: Sched, s1: Sched, k: nat, ticks: nat)
    requires BeforeSwitch(s1) && InTable(s) && k < |s.queue| && s1.queue == s.queue && |s1.procs| == |s.procs|
    requires forall p :: 0 <= p < |s.procs| ==> s1.procs[p].priority == s.procs[p].priority
    requires ticks <= s.procs[s.curr].slice
    ensures WaitsLess(s, k, Schedule(s1), Sooner(k), ticks)
  {
    hide Schedule;
    SwitchWait(s1, k);
    SumQuantaSame(s, s1, s.queue[..k]);
  }

  lemma TickWaitsLess(s: Sched, k: nat)
    requires Inv(s) && k < |s.queue|
    ensures WaitsLess(s, k, Tick(s), if s.procs[s.curr].slice == 1 then Sooner(k) else k, 1)
  {
    hide Schedule;
    hide Places;
    InvIsBeforeSwitch(s);
    var p := s.procs[s.curr];
    var s1 := s.(procs := s.procs[s.curr := p.(slice := p.slice - 1)]);
    if p.slice == 1 {
      BeforeSwitchKept(s, s1);
      SwitchWaitsLess(s, s1, k, 1);
    } else {
      SumQuantaSame(s, s1, s.queue[..k]);
    }
  }

  /** Changing the slice of the current process, or ending it, leaves the others as they are. */
  lemma BeforeSwitchKept(s: Sched, s1: Sched)
    requires BeforeSwitch(s) && s1 == s.(procs := s1.procs) && |s1.procs| == |s.procs|
    requires forall q :: 0 <= q < |s.procs| && q != s.curr ==> s1.procs[q] == s.procs[q]
    requires CurrentOk(s1)
    ensures BeforeSwitch(s1)
  {
    forall q | 0 <= q < |s.procs| && q != s.curr
      ensures ProcessOk(s1, q)
    {
      assert ProcessOk(s, q);
    }
  }

  lemma ExitWaitsLess(s: Sched, k: nat)
    requires Inv(s) && k < |s.queue| && s.curr != REAPER
    ensures WaitsLess(s, k, Exit(s), if s.curr == IDLE then k else Sooner(k), 0)
  {
    hide Schedule;
    hide Places;
    InvIsBeforeSwitch(s);
    if s.curr != IDLE {
      var s1 := SetState(s, s.curr, Terminated);
      BeforeSwitchKept(s, s1);
      SwitchWaitsLess(s, s1, k, 0);
    }
  }

  /** Each event either dispatches the waiting process or leaves it waiting, for fewer ticks after each tick. */
  lemma StepWait(s: Sched, e: Event, k: nat) returns (k': nat)
    requires Inv(s) && Enabled(s, e) && k < |s.queue|
    ensures WaitsLess(s, k, Step(s, e), k', if e.TickEvent? then 1 else 0)
  {
    hide Schedule;
    hide ProcessOk;
    var s' := Step(s, e);
    k' := k;
    InvIsBeforeSwitch(s);
    match e
    case TickEvent =>
      hide Tick;
      TickWaitsLess(s, k);
      k' := if s.procs[s.curr].slice == 1 then Sooner(k) else k;
    case YieldEvent =>
      SwitchWaitsLess(s, s, k, 0);
      k' := Sooner(k);
    case ExitEvent =>
      hide Exit;
      ExitWaitsLess(s, k);
      k' := if s.curr == IDLE then k else Sooner(k);
    case CreateEvent(priority) =>
      SumQuantaSame(s, s', s.queue[..k]);
    case StartEvent(pid) =>
      SumQuantaSame(s, s', s.queue[..k]);
      assert s'.queue[..k] == s.queue[..k];
    case ReaperTakeEvent =>
      if s.zombies == [] {
        SwitchWaitsLess(s, s, k, 0);
        k' := Sooner(k);
      } else {
        SumQuantaSame(s, s', s.queue[..k]);
      }
    case ReaperFreeEvent =>
      SumQuantaSame(s, s', s.queue[..k]);
  }

  lemma {:induction false} CanRunPrefix(s: Sched, es: seq<Event>, i: nat)
    requires InTable(s) && CanRun(s, es) && i <= |es|
    ensures CanRun(s, es[..i])
    decreases |es|
  {
    if i > 0 {
      assert es[..i][1..] == es[1..][..i - 1];
      CanRunPrefix(Step(s, es[0]), es[1..], i - 1);
    }
  }

  /** A process in the queue runs before as many ticks have passed as its wait says, whatever else happens. */
  lemma {:induction false} BoundedWait(s: Sched, es: seq<Event>, k: nat) returns (i: nat)
    requires Inv(s) && CanRun(s, es) && k < |s.queue| && TickCount(es) >= Wait(s, k)
    ensures i <= |es| && CanRun(s, es[..i]) && Run(s, es[..i]).curr == s.queue[k]
    decreases |es|
  {
    assert Wait(s, k) > 0;
    var s1 := Step(s, es[0]);
    var k1 := StepWait(s, es[0], k);
    StepInv(s, es[0]);
    if s1.curr == s.queue[k] {
      i := 1;
      assert es[..1] == [es[0]] && es[..1][1..] == [];
    } else {
      var j := BoundedWait(s1, es[1..], k1);
      i := j + 1;
      assert es[..i][1..] == es[1..][..j];
    }
    CanRunPrefix(s, es, i);
  }

  /** At position `k` that is at most 50 (k + 1) ticks. */
  lemma {:induction false} WaitBound(s: Sched, k: nat)
    requires Inv(s) && k < |s.queue|
    ensures Wait(s, k) <= TIME_QUANTUM * MAX_PRIORITY * (k + 1)
    decreases k
  {
    assert ProcessOk(s, s.curr);
    QuantaBound(s, s.queue[..k]);
  }

  lemma {:induction false} QuantaBound(s: Sched, q: seq<nat>)
    requires Inv(s) && forall i :: 0 <= i < |q| ==> q[i] < |s.procs|
    ensures SumQuanta(s, q) <= TIME_QUANTUM * MAX_PRIORITY * |q|
  {
    if q != [] {
      assert ProcessOk(s, q[0]);
      QuantaBound(s, q[1..]);
    }
  }
}
