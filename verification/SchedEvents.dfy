/** What each event does to the processes, and what becomes of one that ends. */
module SchedEvents {
  import opened Options
  import opened SchedModel
  import opened SchedProofs

  /** The processes but those in `but` are as they were. */
  ghost predicate OthersSame(s: Sched, s': Sched, but: set<nat>)
  {
    |s'.procs| >= |s.procs| && forall p :: 0 <= p < |s.procs| && p !in but ==> s'.procs[p] == s.procs[p]
  }

  /** Process `p` is about to run for five ticks per unit of its priority. */
  ghost predicate Dispatched(s: Sched, s': Sched, p: nat)
  {
    && p < |s.procs| && p < |s'.procs| && s'.curr == p
    && s'.procs[p] == s.procs[p].(state := Running, slice := 5 * s.procs[p].priority)
  }

  // ---------------------------------------------------------------------------------------------
  // Ending

  /**
   A process that ends is terminated and the last zombie; the oldest queued process, or idle, runs in its place, and
   the others keep their order.
   */
  lemma ExitEnds(s: Sched)
    requires Inv(s) && s.curr != IDLE && s.curr != REAPER
    ensures var s' := Step(s, ExitEvent);
            && s'.procs[s.curr].state == Terminated && s'.zombies == s.zombies + [s.curr]
            && s'.curr != s.curr && s.curr !in s'.queue && s'.hand == s.hand && s'.freed == s.freed
            && Dispatched(s, s', if s.queue == [] then IDLE else s.queue[0])
            && s'.queue == (if s.queue == [] then [] else s.queue[1..])
            && OthersSame(s, s', {s.curr, s'.curr})
  {
    StepInv(s, ExitEvent);
    InvIsBeforeSwitch(s);
    if s.queue != [] {
      QueuedOk(s, s.queue[0]);
      PopPlaces(s.queue, s.curr);
    }
  }

  /** The idle process cannot end. */
  lemma IdleStays(s: Sched)
    requires Inv(s) && s.curr == IDLE
    ensures Step(s, ExitEvent) == s
  {
  }

  /** Nothing but its own end terminates a process, and nothing revives it. */
  lemma TerminatedIff(s: Sched, e: Event, p: nat)
    requires Inv(s) && Enabled(s, e) && p < |s.procs|
    ensures var s' := Step(s, e);
            && p < |s'.procs|
            && (s'.procs[p].state == Terminated <==>
                s.procs[p].state == Terminated || (e == ExitEvent && p == s.curr && p != IDLE))
  {
    assert ProcessOk(s, p);
    if s.queue != [] {
      InvIsBeforeSwitch(s);
      QueuedOk(s, s.queue[0]);
    }
    assert ProcessOk(s, IDLE);
  }

  /** Once terminated, a process never runs and is never queued again. */
  lemma {:induction false} EndedForever(s: Sched, es: seq<Event>, p: nat)
    requires Inv(s) && CanRun(s, es) && p < |s.procs| && s.procs[p].state == Terminated
    ensures var s' := Run(s, es);
            && p < |s'.procs| && s'.procs[p].state == Terminated && s'.curr != p && p !in s'.queue
            && (p in s'.zombies || s'.hand == Some(p) || p in s'.freed)
    decreases |es|
  {
    if es == [] {
      assert ProcessOk(s, p);
      InQueuePlaces(s.queue, p);
      InQueuePlaces(s.zombies, p);
    } else {
      StepInv(s, es[0]);
      TerminatedIff(s, es[0], p);
      EndedForever(Step(s, es[0]), es[1..], p);
    }
  }

  // ---------------------------------------------------------------------------------------------
  // The other events

  /** What a switch away from a running process does. */
  ghost predicate Switched(s: Sched, s': Sched)
    requires InTable(s)
  {
    && (if s.queue == [] then Dispatched(s, s', s.curr) && s'.queue == []
        else Dispatched(s, s', s.queue[0]) && s'.queue == s.queue[1..] + (if s.curr == IDLE then [] else [s.curr]))
    && s'.zombies == s.zombies && s'.hand == s.hand && s'.freed == s.freed
  }

  /** Giving up the processor lets the oldest queued process run and goes to the end of the queue. */
  lemma YieldSwitches(s: Sched)
    requires Inv(s)
    ensures var s' := Step(s, YieldEvent); Switched(s, s') && OthersSame(s, s', {s'.curr})
  {
    if s.queue != [] {
      InvIsBeforeSwitch(s);
      QueuedOk(s, s.queue[0]);
    }
  }

  /** A tick uses up one unit of the slice; the last one switches. */
  lemma TickUsesSlice(s: Sched)
    requires Inv(s)
    ensures var s', p := Step(s, TickEvent), s.procs[s.curr];
            if p.slice > 1 then s' == s.(procs := s.procs[s.curr := p.(slice := p.slice - 1)])
            else Switched(s, s') && OthersSame(s, s', {s.curr, s'.curr})
                 && (s'.curr != s.curr ==> s'.procs[s.curr] == p.(slice := 0))
  {
    if s.queue != [] {
      InvIsBeforeSwitch(s);
      QueuedOk(s, s.queue[0]);
    }
  }

  /** The priorities from 1 to 10 are stored as they are; 0 and what is negative as a signed number become 1. */
  lemma PriorityStored(priority: nat)
    requires priority < 0x1_0000_0000
    ensures 1 <= priority <= 10 ==> StoredPriority(priority) == priority
    ensures priority == 0 || priority >= 0x8000_0000 ==> StoredPriority(priority) == 1
    ensures 10 < priority < 0x8000_0000 ==> StoredPriority(priority) == 10
  {
  }

  /** A new process is ready and in no queue. */
  lemma CreateAdds(s: Sched, priority: nat)
    requires Inv(s) && priority < 0x1_0000_0000
    ensures var s', n, stored := Step(s, CreateEvent(priority)), |s.procs|, StoredPriority(priority);
            && s'.procs == s.procs + [Proc(Ready, stored, 5 * stored)] && s' == s.(procs := s'.procs)
            && n !in s'.queue && n != s'.curr && n !in s'.zombies
  {
    CreateInv(s, priority);
    assert ProcessOk(Step(s, CreateEvent(priority)), |s.procs|);
    InQueuePlaces(s.queue, |s.procs|);
    InQueuePlaces(s.zombies, |s.procs|);
  }

  /** A started process is the last of the queue. */
  lemma StartQueues(s: Sched, p: nat)
    requires Inv(s) && Enabled(s, StartEvent(p))
    ensures var s' := Step(s, StartEvent(p));
            && s'.queue == s.queue + [p] && s'.procs[p] == s.procs[p].(state := Running) && OthersSame(s, s', {p})
            && s' == s.(queue := s'.queue, procs := s'.procs) && |s'.procs| == |s.procs|
  {
  }

  /** The reaper takes the zombies in the order in which they ended, and one at a time. */
  lemma ReaperTakesOldest(s: Sched)
    requires Inv(s) && Enabled(s, ReaperTakeEvent)
    ensures var s' := Step(s, ReaperTakeEvent);
            if s.zombies == [] then Switched(s, s') && OthersSame(s, s', {s'.curr})
            else s'.hand.Some? && s.zombies == [s'.hand.value] + s'.zombies
                 && s' == s.(zombies := s'.zombies, hand := s'.hand)
  {
    if s.zombies == [] {
      YieldSwitches(s);
    }
  }

  lemma ReaperFreesHand(s: Sched)
    requires Inv(s) && Enabled(s, ReaperFreeEvent)
    ensures var s' := Step(s, ReaperFreeEvent);
            s'.hand == None && s'.freed == s.freed + {s.hand.value} && s' == s.(hand := s'.hand, freed := s'.freed)
  {
  }

  /** `sched::init` leaves idle running with a full slice and the reaper queued, both of the lowest priority. */
  lemma InitialProcesses()
    ensures INIT == Sched([Proc(Running, 1, 5), Proc(Running, 1, 5)], 0, [1], [], None, {})
  {
  }
}
