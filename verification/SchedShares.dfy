/** The share of the processor that each process gets while nothing but timer interrupts happens. */
module SchedShares {
  import opened SchedModel
  import opened SchedProofs

  /** `n` timer interrupts. */
  function Ticks(s: Sched, n: nat): (s': Sched)
    requires InTable(s)
    ensures InTable(s')
    decreases n
  {
    if n == 0 then s else Ticks(Tick(s), n - 1)
  }

  /** In how many of the next `n` interrupts process `p` is the running one. */
  function Received(s: Sched, n: nat, p: nat): nat
    requires InTable(s)
    decreases n
  {
    if n == 0 then 0 else (if s.curr == p then 1 else 0) + Received(Tick(s), n - 1, p)
  }

  /** The processes that take turns, the running one first. */
  function Cycle(s: Sched): seq<nat> { [s.curr] + s.queue }

  lemma {:induction false} TicksAreARun(s: Sched, es: seq<Event>)
    requires InTable(s) && forall i :: 0 <= i < |es| ==> es[i] == TickEvent
    ensures CanRun(s, es) && Run(s, es) == Ticks(s, |es|)
    decreases |es|
  {
    if es != [] {
      TicksAreARun(Step(s, es[0]), es[1..]);
    }
  }

  lemma {:induction false} TicksSplit(s: Sched, m: nat, n: nat, p: nat)
    requires InTable(s)
    ensures Ticks(s, m + n) == Ticks(Ticks(s, m), n)
    ensures Received(s, m + n, p) == Received(s, m, p) + Received(Ticks(s, m), n, p)
    decreases m
  {
    hide Tick;
    if m > 0 {
      TicksSplit(Tick(s), m - 1, n, p);
    }
  }

  function WithSlice(s: Sched, slice: nat): Sched
    requires InTable(s)
  {
    s.(procs := s.procs[s.curr := s.procs[s.curr].(slice := slice)])
  }

  /** Until its slice is used up the running process stays the running one. */
  lemma {:induction false} RunDown(s: Sched, n: nat, p: nat)
    requires InTable(s) && s.procs[s.curr].state == Running && n < s.procs[s.curr].slice
    ensures Ticks(s, n) == WithSlice(s, s.procs[s.curr].slice - n)
    ensures Received(s, n, p) == if p == s.curr then n else 0
    decreases n
  {
    if n > 0 {
      RunDown(Tick(s), n - 1, p);
    }
  }

  /** One turn: the running process uses up its slice, goes to the end, and the next gets a full slice. */
  lemma Turn(s: Sched, p: nat)
    requires Inv(s) && s.curr != IDLE
    ensures var s' := Ticks(s, s.procs[s.curr].slice);
            && Inv(s') && s'.curr != IDLE && Cycle(s') == Cycle(s)[1..] + [s.curr]
            && s'.procs[s'.curr].slice == TIME_QUANTUM * s'.procs[s'.curr].priority
    ensures Received(s, s.procs[s.curr].slice, p) == if p == s.curr then s.procs[s.curr].slice else 0
  {
    hide Places;
    var n := s.procs[s.curr].slice - 1;
    RunDown(s, n, p);
    var s1 := WithSlice(s, 1);
    TicksSplit(s, n, 1, p);
    assert Ticks(s1, 1) == Tick(s1) by {
      hide Tick;
      assert Ticks(Tick(s1), 0) == Tick(s1);
    }
    assert Received(s1, 1, p) == if p == s.curr then 1 else 0 by {
      hide Tick;
      assert Received(Tick(s1), 0, p) == 0;
    }
    TurnEnd(s, s1);
  }

  lemma TurnEnd(s: Sched, s1: Sched)
    requires Inv(s) && s.curr != IDLE && s1 == WithSlice(s, 1)
    ensures var s' := Tick(s1);
            && Inv(s') && s'.curr != IDLE && Cycle(s') == Cycle(s)[1..] + [s.curr]
            && s'.procs[s'.curr].slice == TIME_QUANTUM * s'.procs[s'.curr].priority
  {
    InvIsBeforeSwitch(s);
    var s0 := WithSlice(s, 0);
    assert Tick(s1) == Schedule(s0);
    BeforeSwitchKept(s, s0);
    ScheduleInv(s0);
    if s.queue != [] {
      QueuedOk(s, s.queue[0]);
    }
  }

  lemma {:induction false} TicksKeepPriorities(s: Sched, n: nat)
    requires InTable(s)
    ensures |Ticks(s, n).procs| == |s.procs|
    ensures forall p :: 0 <= p < |s.procs| ==> Ticks(s, n).procs[p].priority == s.procs[p].priority
    decreases n
  {
    if n > 0 {
      PrioritiesKept(s, TickEvent);
      TicksKeepPriorities(Tick(s), n - 1);
    }
  }

  lemma CycleInTable(s: Sched)
    requires InTable(s)
    ensures forall i :: 0 <= i < |Cycle(s)| ==> Cycle(s)[i] < |s.procs|
  {
  }

  /** The ticks of the first `k` turns. */
  function TurnTicks(s: Sched, k: nat): nat
    requires InTable(s) && k <= |Cycle(s)|
  {
    if k == 0 then 0 else s.procs[s.curr].slice + SumQuanta(s, Cycle(s)[1..k])
  }

  /** What process `p` gets in the first `k` turns. */
  function TurnShare(s: Sched, k: nat, p: nat): nat
    requires InTable(s) && k <= |Cycle(s)|
  {
    if p !in Cycle(s)[..k] then 0
    else if p == s.curr then s.procs[s.curr].slice
    else if p < |s.procs| then TIME_QUANTUM * s.procs[p].priority else 0
  }

  lemma {:induction false} SumQuantaPush(s: Sched, q: seq<nat>, p: nat)
    requires p < |s.procs| && forall i :: 0 <= i < |q| ==> q[i] < |s.procs|
    ensures SumQuanta(s, q + [p]) == SumQuanta(s, q) + TIME_QUANTUM * s.procs[p].priority
  {
    if q == [] {
      assert q + [p] == [p];
    } else {
      assert (q + [p])[1..] == q[1..] + [p];
      SumQuantaPush(s, q[1..], p);
    }
  }

  /** Nobody takes part in the cycle twice. */
  lemma CycleDistinct(s: Sched, i: nat, j: nat)
    requires Inv(s) && i < j < |Cycle(s)|
    ensures Cycle(s)[i] != Cycle(s)[j]
  {
    InvIsBeforeSwitch(s);
    if i == 0 {
      assert s.queue[j - 1] in s.queue;
    } else {
      var p := s.queue[j - 1];
      QueuedOk(s, p);
      if s.queue[i - 1] == p {
        TwicePlaces(s.queue, i - 1, j - 1);
        assert false;
      }
    }
  }

  lemma TwicePlaces(q: seq<nat>, i: nat, j: nat)
    requires i < j < |q| && q[i] == q[j]
    ensures multiset(q)[q[i]] >= 2
  {
    assert q == q[..j] + q[j..];
    assert q[i] in q[..j] && q[j] == q[j..][0];
  }

  /** The `k`-th turn takes a whole slice of the process whose turn it is. */
  lemma TurnTicksNext(s: Sched, k: nat, slice: nat)
    requires InTable(s) && 0 < k <= |Cycle(s)|
    requires slice == if k == 1 then s.procs[s.curr].slice else TIME_QUANTUM * s.procs[Cycle(s)[k - 1]].priority
    ensures TurnTicks(s, k) == TurnTicks(s, k - 1) + slice
  {
    var c := Cycle(s);
    if k > 1 {
      assert c[1..k] == c[1..k - 1] + [c[k - 1]];
      SumQuantaPush(s, c[1..k - 1], c[k - 1]);
    }
  }

  lemma TurnShareNext(s: Sched, k: nat, slice: nat, p: nat)
    requires Inv(s) && 0 < k <= |Cycle(s)|
    requires slice == if k == 1 then s.procs[s.curr].slice else TIME_QUANTUM * s.procs[Cycle(s)[k - 1]].priority
    ensures TurnShare(s, k, p) == TurnShare(s, k - 1, p) + (if p == Cycle(s)[k - 1] then slice else 0)
  {
    var c := Cycle(s);
    assert c[..k] == c[..k - 1] + [c[k - 1]];
    forall i | 0 <= i < k - 1
      ensures c[i] != c[k - 1]
    {
      CycleDistinct(s, i, k - 1);
    }
    CycleInTable(s);
    assert c[k - 1] !in c[..k - 1];
    if k > 1 {
      assert s.curr == c[..k - 1][0];
    }
  }

  lemma InvInTable(s: Sched)
    requires Inv(s)
    ensures InTable(s) && s.procs[s.curr].slice > 0 && s.procs[s.curr].state == Running
    ensures s.procs[s.curr].slice <= TIME_QUANTUM * s.procs[s.curr].priority
  {
    assert ProcessOk(s, s.curr);
  }

  /** After `k` turns the cycle has moved on by `k` places and each process has had its slice once. */
  lemma {:induction false} AfterTurns(s: Sched, k: nat, p: nat)
    requires Inv(s) && s.curr != IDLE && k <= |Cycle(s)|
    ensures InTable(s) && var s' := Ticks(s, TurnTicks(s, k));
            && Inv(s') && s'.curr != IDLE && Cycle(s') == Cycle(s)[k..] + Cycle(s)[..k]
            && (k > 0 ==> s'.procs[s'.curr].slice == TIME_QUANTUM * s'.procs[s'.curr].priority)
            && (k == 0 ==> s' == s)
    ensures InTable(s) && Received(s, TurnTicks(s, k), p) == TurnShare(s, k, p)
    decreases k
  {
    hide Inv;
    hide Ticks;
    hide Received;
    hide TurnTicks;
    hide TurnShare;
    hide InTable;
    InvInTable(s);
    var c := Cycle(s);
    if k == 0 {
      NoTurns(s, p);
    } else {
      var n := TurnTicks(s, k - 1);
      AfterTurns(s, k - 1, p);
      var s1 := Ticks(s, n);
      assert s1.curr == Cycle(s1)[0] == c[k - 1];
      InvInTable(s1);
      TicksKeepPriorities(s, n);
      Turn(s1, p);
      var slice := s1.procs[s1.curr].slice;
      TicksSplit(s, n, slice, p);
      TurnTicksNext(s, k, slice);
      TurnShareNext(s, k, slice, p);
      assert c[k - 1..] + c[..k - 1] == [c[k - 1]] + (c[k..] + c[..k - 1]);
      assert c[k..] + c[..k - 1] + [c[k - 1]] == c[k..] + c[..k];
    }
  }

  lemma NoTurns(s: Sched, p: nat)
    requires InTable(s)
    ensures TurnTicks(s, 0) == 0 && TurnShare(s, 0, p) == 0 && Ticks(s, 0) == s && Received(s, 0, p) == 0
    ensures Cycle(s)[0..] + Cycle(s)[..0] == Cycle(s)
  {
  }

  /** The length of a whole round: five ticks for each unit of priority in the cycle. */
  function Round(s: Sched): nat
    requires InTable(s)
  {
    SumQuanta(s, Cycle(s))
  }

  /** What a whole round gives to process `p`. */
  function Share(s: Sched, p: nat): nat
    requires InTable(s)
  {
    if p in Cycle(s) then TIME_QUANTUM * s.procs[p].priority else 0
  }

  /** A round brings back the running process, the queue and the slice, and gives each process its exact share. */
  lemma WeightedShare(s: Sched, p: nat)
    requires Inv(s) && s.curr != IDLE
    ensures InTable(s) && var s' := Ticks(s, Round(s));
            && Inv(s') && s'.curr == s.curr && s'.queue == s.queue
            && s'.procs[s'.curr].slice == s.procs[s.curr].slice
            && Round(s') == Round(s) && Share(s', p) == Share(s, p)
    ensures InTable(s) && Received(s, Round(s), p) == Share(s, p)
  {
    hide Ticks;
    hide Received;
    hide InTable;
    hide Inv;
    InvInTable(s);
    var c := Cycle(s);
    var k := |c|;
    AfterTurns(s, k, p);
    var n := TurnTicks(s, k);
    var s1 := Ticks(s, n);
    assert c[k..] + c[..k] == c;
    assert s1.curr == Cycle(s1)[0] == s.curr && s1.queue == Cycle(s1)[1..] == s.queue;
    InvInTable(s1);
    var full := TIME_QUANTUM * s.procs[s.curr].priority;
    var d := full - s.procs[s.curr].slice;
    TicksKeepPriorities(s, n);
    RunDown(s1, d, p);
    TicksSplit(s, n, d, p);
    assert c[1..k] == s.queue == c[1..];
    assert Round(s) == n + d;
    SumQuantaSame(s, Ticks(s1, d), c);
    TicksKeepInv(s1, d);
  }

  lemma {:induction false} TicksKeepInv(s: Sched, n: nat)
    requires Inv(s)
    ensures InTable(s) && Inv(Ticks(s, n))
    decreases n
  {
    if n > 0 {
      TickInv(s);
      TicksKeepInv(Tick(s), n - 1);
    }
  }

  lemma OneMore(m: nat, n: nat)
    requires m > 0
    ensures n + (m - 1) * n == m * n
  {
  }

  /** Over `m` rounds the shares are exact as well. */
  lemma {:induction false} WeightedShares(s: Sched, m: nat, p: nat)
    requires Inv(s) && s.curr != IDLE
    ensures InTable(s) && Received(s, m * Round(s), p) == m * Share(s, p)
    decreases m
  {
    hide Round;
    hide Share;
    hide Inv;
    hide InTable;
    hide Ticks;
    InvInTable(s);
    if m > 0 {
      var n := Round(s);
      WeightedShare(s, p);
      WeightedShares(Ticks(s, n), m - 1, p);
      TicksSplit(s, n, (m - 1) * n, p);
      OneMore(m, n);
      OneMore(m, Share(s, p));
    }
  }
}
