/** The intrusive queues of sched.c: processes linked through their own fields, proved to behave as the
    lists of module Mlfq. */
module Sched {
  import opened Mlfq

  datatype State = Unused | Ready | RunningState | Sleeping

  class Process {
    var state: State
    var priority: nat
    var cpu: nat
    var timeSlice: nat
    var cpuTime: nat
    var schedNext: Process?
    var wq: WaitQueue?
    var wqNext: Process?
  }

  class WaitQueue {
    var head: Process?
  }

  /** `s` is the chain of `schedNext` links from `head`, and `tail` is its last node. */
  ghost predicate Linked(head: Process?, tail: Process?, s: seq<Process>)
    reads s
  {
    if s == [] then head == null && tail == null
    else
      && head == s[0] && tail == s[|s| - 1] && tail.schedNext == null
      && forall i :: 0 <= i < |s| - 1 ==> s[i].schedNext == s[i + 1]
  }

  ghost predicate Distinct(s: seq<Process>) {
    forall i, j :: 0 <= i < j < |s| ==> s[i] != s[j]
  }

  /** The runqueue of one CPU. */
  class RunQueue {
    var heads: seq<Process?>
    var tails: seq<Process?>
    var bits: seq<bool>
    var current: Process?
    var ticks: nat
    const id: nat
    /** The processes of each queue, front first. */
    ghost var lists: seq<seq<Process>>

    ghost var members: set<Process>

    /** scheduler_init, for one CPU. */
    constructor (id: nat)
      ensures CpuOk() && Abs() == EmptyCpu() && members == {} && current == null && this.id == id
    {
      this.id := id;
      heads := seq(LEVELS, _ => null);
      tails := seq(LEVELS, _ => null);
      bits := seq(LEVELS, _ => false);
      lists := seq(LEVELS, _ => []);
      current, ticks, members := null, 0, {};
    }

    ghost predicate Shape()
      reads this
    {
      |heads| == LEVELS && |tails| == LEVELS && |bits| == LEVELS && |lists| == LEVELS
    }

    /** Queue `q` is a proper chain of processes of this CPU and level; a nonempty queue has its bit set. */
    ghost predicate QueueOk(q: nat)
      requires Shape() && q < LEVELS
      reads this, lists[q]
    {
      && Linked(heads[q], tails[q], lists[q])
      && Distinct(lists[q])
      && (lists[q] != [] ==> bits[q])
      && forall i :: 0 <= i < |lists[q]| ==>
           lists[q][i].cpu == id && lists[q][i].priority == q && lists[q][i].wq == null
    }

    /** All queues are proper, except possibly queue `hole` (LEVELS for none). */
    ghost predicate QueuesOkBut(hole: nat)
      reads this, members
    {
      && Shape()
      && (forall q, i :: 0 <= q < LEVELS && 0 <= i < |lists[q]| ==> lists[q][i] in members)
      && (forall p :: p in members ==> p.cpu == id && p.wq == null)
      && forall q: nat :: q < LEVELS && q != hole ==> QueueOk(q)
    }

    ghost predicate QueuesOk()
      reads this, members
    {
      QueuesOkBut(LEVELS)
    }

    ghost function TailOf(q: nat): (r: set<Process>)
      reads this
    {
      if q < |tails| && tails[q] != null then {tails[q]} else {}
    }

    /** enqueue_process. */
    method Enqueue(p: Process, ghost hole: nat := LEVELS)
      requires QueuesOkBut(hole) && p.cpu == id && p.priority < LEVELS && p.priority != hole && p.wq == null
      requires p !in members
      modifies this`heads, this`tails, this`bits, this`lists, this`members, p`schedNext, TailOf(p.priority)`schedNext
      ensures QueuesOkBut(hole)
      ensures lists == old(lists)[p.priority := old(lists[p.priority]) + [p]]
      ensures bits == old(bits)[p.priority := true] && members == old(members) + {p}
      ensures hole < LEVELS ==> heads[hole] == old(heads[hole]) && tails[hole] == old(tails[hole])
    {
      hide Linked, Distinct;
      var prio := p.priority;
      ghost var l := lists[prio];
      assert QueueOk(prio);
      TailIsMember(prio, hole);
      LinkBack(heads[prio], tails[prio], p, l);
      if tails[prio] == null {
        heads := heads[prio := p];
      }
      tails := tails[prio := p];
      bits := bits[prio := true];
      lists := lists[prio := l + [p]];
      members := members + {p};
      DistinctAppend(l, p);
      forall q: nat | q < LEVELS && q != hole ensures QueueOk(q) {
        assert old(QueueOk(q));
        if q != prio {
          assert p !in lists[q] && old(tails)[prio] !in lists[q];
        }
      }
    }

    /** The queues and bits as a value of module Mlfq. */
    ghost function Queues(): (r: Cpu<Process>)
      reads this
    {
      Cpu(lists, bits, Nobody, ticks)
    }

    /** dequeue_highest: the front of the lowest-numbered nonempty queue, or null exactly when all queues
        are empty.  The recursion over stale bits ends. */
    method DequeueHighest() returns (p: Process?)
      requires QueuesOk()
      modifies this`heads, this`tails, this`bits, this`lists, this`members, members`schedNext
      ensures QueuesOk() && members <= old(members)
      ensures p == null <==> old(Best(Queues())) == LEVELS
      ensures p == null ==> lists == old(lists) && members == old(members) && bits == seq(LEVELS, _ => false)
      ensures p != null ==>
        && p == old(Front(Queues())) && Queues() == old(Dequeue(Queues()))
        && p in old(members) && p !in members && members == old(members) - {p}
        && p.priority == old(Best(Queues())) && p.cpu == id && p.wq == null
      decreases Load(bits)
    {
      hide Linked, Distinct, Dequeue, Best, Front, WellFormed;
      QueuesWellFormed();
      var prio := LowestBit(bits);
      if prio == LEVELS {
        NoBitsNoTasks();
        return null;
      }
      assert QueueOk(prio);
      TailIsMember(prio, LEVELS);
      p := heads[prio];
      if p == null {
        LoadClear(bits, prio);
        StaleBit(Queues(), prio);
        bits := bits[prio := false];
        forall q: nat | q < LEVELS ensures QueueOk(q) {
          assert old(QueueOk(q));
        }
        p := DequeueHighest();
        return;
      }
      LowestBitIsBest(Queues(), prio);
      TakeFront(prio);
    }

    /** The unlinking part of dequeue_highest. */
    method TakeFront(prio: nat)
      requires QueuesOk() && prio < LEVELS && lists[prio] != []
      modifies this`heads, this`tails, this`bits, this`lists, this`members, members`schedNext
      ensures QueuesOk()
      ensures lists == old(lists)[prio := old(lists[prio])[1..]] && members == old(members) - {old(lists[prio][0])}
      ensures bits == if |old(lists[prio])| == 1 then old(bits)[prio := false] else old(bits)
    {
      hide Linked, Distinct;
      assert QueueOk(prio);
      TailIsMember(prio, LEVELS);
      var p := heads[prio];
      ghost var l := lists[prio];
      RestLinked(p, tails[prio], l);
      heads := heads[prio := p.schedNext];
      if p.schedNext == null {
        tails := tails[prio := null];
        bits := bits[prio := false];
      }
      p.schedNext := null;
      lists := lists[prio := l[1..]];
      members := members - {p};
      forall q: nat | q < LEVELS ensures QueueOk(q) {
        assert old(QueueOk(q));
        if q != prio {
          assert p !in lists[q];
        }
      }
      forall q, i | 0 <= q < LEVELS && 0 <= i < |lists[q]| ensures lists[q][i] in members {
        if q == prio {
          assert lists[q][i] == l[i + 1];
          DistinctRest(l);
        } else {
          assert QueueOk(q);
          assert lists[q][i].priority == q && p.priority == prio;
        }
      }
    }

    lemma {:induction false} QueuesWellFormed()
      requires QueuesOk()
      ensures WellFormed(Queues())
    {
      forall q: nat | q < LEVELS && lists[q] != [] ensures bits[q] {
        assert QueueOk(q);
      }
    }

    lemma {:induction false} NoBitsNoTasks()
      requires QueuesOk() && LowestBit(bits) == LEVELS
      ensures Best(Queues()) == LEVELS && bits == seq(LEVELS, _ => false)
    {
      forall q: nat | q < LEVELS ensures lists[q] == [] {
        assert QueueOk(q);
      }
    }

    lemma {:induction false} TailIsMember(q: nat, hole: nat)
      requires QueuesOkBut(hole) && q < LEVELS && q != hole
      ensures if lists[q] == [] then heads[q] == null && tails[q] == null
              else heads[q] == lists[q][0] && tails[q] == lists[q][|lists[q]| - 1]
                   && heads[q] in members && tails[q] in members && tails[q].priority == q
    {
      assert QueueOk(q);
    }

    // ---- one CPU

    ghost function CurrentSet(): (r: set<Process>)
      reads this
    {
      if current == null then {} else {current}
    }

    ghost function RunningTask(): (r: Running<Process>)
      reads this, CurrentSet()
    {
      if current == null then Nobody
      else
        var p: Process := current;
        Running(p, p.priority, p.timeSlice)
    }

    /** The whole CPU as a value of module Mlfq. */
    ghost function Abs(): (r: Cpu<Process>)
      reads this, CurrentSet()
    {
      Cpu(lists, bits, RunningTask(), ticks)
    }

    ghost predicate CpuOk()
      reads this, members, CurrentSet()
    {
      && QueuesOk()
      && (current != null ==> current !in members && current.cpu == id && current.priority < LEVELS && current.wq == null)
    }

    lemma {:induction false} CpuWellFormed()
      requires CpuOk()
      ensures WellFormed(Abs())
    {
      QueuesWellFormed();
    }

    /** Make `next` the running process, with a fresh slice. */
    method RunNext(next: Process)
      requires QueuesOk() && next !in members && next.cpu == id && next.priority < LEVELS && next.wq == null
      modifies this`current, next`state, next`cpu, next`timeSlice
      ensures CpuOk() && current == next && RunningTask() == Running(next, next.priority, Quantum(next.priority))
    {
      current := next;
      next.state := RunningState;
      next.cpu := id;
      next.timeSlice := Quantum(next.priority);
      forall q: nat | q < LEVELS ensures QueueOk(q) {
        assert old(QueueOk(q));
        assert next !in lists[q];
      }
    }

    /** The requeue-and-select part of scheduler_yield and scheduler_tick. */
    method Reschedule()
      requires CpuOk() && current != null
      modifies this, members, current
      ensures CpuOk() && current != null
      ensures ticks == old(ticks) && members + {current} == old(members + CurrentSet())
      ensures WellFormed(old(Abs())) && Abs() == Yield(old(Abs()))
    {
      hide Dequeue, Best, Front;
      CpuWellFormed();
      ghost var before := Abs();
      BestAfterEnqueue(before, current, current.priority);
      DispatchIgnoresRunning(Mlfq.Enqueue(before, current, current.priority));
      current.state := Ready;
      TailIsMember(current.priority, LEVELS);
      Enqueue(current);
      assert Queues() == Mlfq.Enqueue(before, current, current.priority).(running := Nobody);
      var next := DequeueHighest();
      if next == null || next == current {
        current.timeSlice := Quantum(current.priority);
        return;
      }
      RunNext(next);
    }

    /** scheduler_yield. */
    method YieldCpu()
      requires CpuOk()
      modifies this, members, CurrentSet()
      ensures CpuOk() && members + CurrentSet() == old(members + CurrentSet())
      ensures WellFormed(old(Abs())) && Abs() == Yield(old(Abs()))
    {
      CpuWellFormed();
      if current == null {
        return;
      }
      Reschedule();
    }

    /** scheduler_tick up to the boost. */
    method TickCpu() returns (boost: bool)
      requires CpuOk()
      modifies this, members, CurrentSet()
      ensures CpuOk() && members + CurrentSet() == old(members + CurrentSet())
      ensures WellFormed(old(Abs())) && (Abs(), boost) == Mlfq.TickCpu(old(Abs()))
    {
      hide Yield;
      CpuWellFormed();
      if current == null {
        return false;
      }
      var running := current;
      ghost var before := Abs();
      StartTick();
      if running.priority == REALTIME {
        return false;
      }
      if running.timeSlice > 0 {
        running.timeSlice := running.timeSlice - 1;
      }
      YieldIgnores(before, running.timeSlice, ticks);
      if running.timeSlice == 0 {
        Reschedule();
        if current != running {
          return false;
        }
      }
      if ticks >= BOOST_INTERVAL {
        SetTicks(0);
        return true;
      }
      return false;
    }

    /** The accounting at the start of scheduler_tick. */
    method StartTick()
      requires CpuOk() && current != null
      modifies this`ticks, current`cpuTime
      ensures CpuOk() && Abs() == old(Abs()).(ticks := old(ticks) + 1)
    {
      current.cpuTime := current.cpuTime + 1;
      forall q: nat | q < LEVELS ensures QueueOk(q) {
        assert old(QueueOk(q));
      }
      SetTicks(ticks + 1);
    }

    method SetTicks(n: nat)
      requires CpuOk()
      modifies this`ticks
      ensures CpuOk() && Abs() == old(Abs()).(ticks := n)
    {
      ticks := n;
      forall q: nat | q < LEVELS ensures QueueOk(q) {
        assert old(QueueOk(q));
      }
    }

    /** During a boost: `rest` is what remains of the LOW queue, linked from `proc`. */
    ghost predicate LowRest(proc: Process?, tail: Process?, rest: seq<Process>)
      reads this, members, rest
    {
      && QueuesOkBut(LOW) && lists[LOW] == rest
      && Linked(proc, if rest == [] then null else tail, rest) && Distinct(rest)
      && forall i :: 0 <= i < |rest| ==> rest[i].priority == LOW
    }

    /** The loop of priority_boost for one CPU. */
    method BoostCpu()
      requires CpuOk()
      modifies this`heads, this`tails, this`bits, this`lists, this`members, members
      ensures CpuOk() && members == old(members) && current == old(current)
      ensures WellFormed(old(Abs())) && Abs() == Boost(old(Abs()))
    {
      hide Linked, Distinct, BoostPart, Boost;
      CpuWellFormed();
      assert QueueOk(LOW);
      ghost var before := Abs();
      ghost var tail, rest, n := tails[LOW], lists[LOW], 0;
      EmptyLinked(heads[LOW], tail, rest);
      BoostPartEnds(before);
      var proc := heads[LOW];
      while proc != null
        invariant LowRest(proc, tail, rest) && members == old(members)
        invariant n <= |before.queues[LOW]| && rest == before.queues[LOW][n..]
        invariant lists == BoostPart(before, n).queues && bits == BoostPart(before, n).bits
        invariant current != null ==> current !in members && unchanged(current)
        decreases |rest|
      {
        LinkedNonEmpty(proc, tail, rest);
        BoostPartStep(before, n);
        proc := BoostOne(proc, tail, rest);
        rest := rest[1..];
        n := n + 1;
      }
      LinkedEmpty(tail, rest);
      assert n == |before.queues[LOW]|;
      label Done:
      heads := heads[LOW := null];
      tails := tails[LOW := null];
      forall q: nat | q < LEVELS && q != LOW ensures QueueOk(q) {
        assert old@Done(QueueOk(q));
      }
      CloseHole();
    }

    /** Once the LOW queue is empty again, all queues are proper. */
    lemma {:induction false} CloseHole()
      requires QueuesOkBut(LOW) && lists[LOW] == [] && heads[LOW] == null && tails[LOW] == null
      ensures QueuesOk()
    {
      assert QueueOk(LOW);
    }

    /** One round: the first process of the LOW queue moves to the back of the NORMAL queue. */
    method BoostOne(proc: Process, ghost tail: Process?, ghost rest: seq<Process>) returns (next: Process?)
      requires LowRest(proc, tail, rest) && rest != [] && rest[0] == proc
      modifies this`heads, this`tails, this`bits, this`lists, this`members, members
      ensures LowRest(next, tail, rest[1..]) && members == old(members)
      ensures lists == old(lists)[NORMAL := old(lists[NORMAL]) + [proc]][LOW := rest[1..]]
      ensures bits == old(bits)[NORMAL := true]
    {
      hide Linked, Distinct;
      RestLinked(proc, tail, rest);
      next := proc.schedNext;
      lists := lists[LOW := rest[1..]];
      members := members - {proc};
      proc.priority := NORMAL;
      proc.schedNext := null;
      forall q: nat | q < LEVELS && q != LOW ensures QueueOk(q) {
        assert old(QueueOk(q));
        assert proc !in lists[q];
      }
      forall q, i | 0 <= q < LEVELS && 0 <= i < |lists[q]| ensures lists[q][i] in members {
        if q == LOW {
          assert lists[q][i] in rest[1..] && lists[q][i] == rest[i + 1];
        } else {
          assert old(QueueOk(q));
          assert old(lists[q][i].priority) == q;
        }
      }
      TailIsMember(NORMAL, LOW);
      Enqueue(proc, LOW);
    }

    /** The part of scheduler_add_process that runs under the lock of the chosen CPU. */
    method AddHere(p: Process)
      requires CpuOk() && p !in members && p != current
      requires p.cpu == id && p.priority < LEVELS && p.wq == null
      modifies this, p`schedNext, members`schedNext
      ensures CpuOk() && members == old(members) + {p} && current == old(current)
      ensures WellFormed(old(Abs())) && Abs() == Mlfq.Enqueue(old(Abs()), p, p.priority)
    {
      CpuWellFormed();
      TailIsMember(p.priority, LEVELS);
      Enqueue(p);
    }

    /** The end of scheduler_sleep_on: dispatch the best queued process; whoever ran before is no longer
        part of this CPU. */
    method SelectNext()
      requires QueuesOk() && Best(Queues()) < LEVELS
      modifies this, members
      ensures CpuOk() && current != null && members + {current} == old(members)
      ensures WellFormed(old(Queues())) && Abs() == Dispatch(old(Queues()))
    {
      hide Dequeue, Best, Front;
      QueuesWellFormed();
      DispatchIgnoresRunning(Queues());
      var next := DequeueHighest();
      RunNext(next);
    }
  }

  /** The pointer stores of enqueue_process: `p` becomes the node after `tail`. */
  method LinkBack(ghost head: Process?, tail: Process?, p: Process, ghost l: seq<Process>)
    requires Linked(head, tail, l) && p !in l
    modifies p`schedNext, (if tail == null then {} else {tail})`schedNext
    ensures Linked(if tail == null then p else head, p, l + [p])
  {
    p.schedNext := null;
    if tail != null {
      tail.schedNext := p;
    }
  }

  /** `__builtin_ctz` of the occupancy bits; LEVELS when no bit is set. */
  function LowestBitFrom(bits: seq<bool>, q: nat): (r: nat)
    requires |bits| == LEVELS && q <= LEVELS
    ensures q <= r <= LEVELS && (r < LEVELS ==> bits[r]) && forall j :: q <= j < r ==> !bits[j]
    decreases LEVELS - q
  {
    if q == LEVELS || bits[q] then q else LowestBitFrom(bits, q + 1)
  }

  function LowestBit(bits: seq<bool>): (r: nat)
    requires |bits| == LEVELS
    ensures r <= LEVELS && (r < LEVELS ==> bits[r]) && forall j :: 0 <= j < r ==> !bits[j]
  {
    LowestBitFrom(bits, 0)
  }

  lemma {:induction false} LoadClear(bits: seq<bool>, q: nat)
    requires q < |bits| && bits[q]
    ensures Load(bits[q := false]) == Load(bits) - 1
  {
    if q == 0 {
      assert bits[q := false][1..] == bits[1..];
    } else {
      assert bits[q := false][1..] == bits[1..][q - 1 := false];
      LoadClear(bits[1..], q - 1);
    }
  }

  lemma {:induction false} LowestBitIsBest(c: Cpu<Process>, q: nat)
    requires WellFormed(c) && q == LowestBit(c.bits) < LEVELS && c.queues[q] != []
    ensures Best(c) == q && Front(c) == c.queues[q][0]
    ensures Dequeue(c) == c.(queues := Dequeue(c).queues, bits := Dequeue(c).bits)
    ensures Dequeue(c).queues == c.queues[q := c.queues[q][1..]]
    ensures Dequeue(c).bits == if |c.queues[q]| == 1 then c.bits[q := false] else c.bits
  {
  }

  /** Clearing a stale bit changes neither what is best nor what dequeueing leaves. */
  lemma {:induction false} StaleBit(c: Cpu<Process>, q: nat)
    requires WellFormed(c) && q == LowestBit(c.bits) < LEVELS && c.queues[q] == []
    ensures var c' := c.(bits := c.bits[q := false]);
            WellFormed(c') && Best(c') == Best(c) && (Best(c) < LEVELS ==> Dequeue(c') == Dequeue(c) && Front(c') == Front(c))
  {
  }

  /** What is dequeued does not depend on who runs. */
  lemma {:induction false} DispatchIgnoresRunning(c: Cpu<Process>)
    requires WellFormed(c) && Best(c) < LEVELS
    ensures var n := c.(running := Nobody);
            && WellFormed(n) && Best(n) == Best(c) && Front(n) == Front(c)
            && Dispatch(c) == Dequeue(n).(running := Running(Front(n), Best(n), Quantum(Best(n))))
            && Dequeue(n).ticks == c.ticks
  {
  }

  /** A yield looks at neither the remaining slice nor the tick count. */
  lemma {:induction false} YieldIgnores(c: Cpu<Process>, slice: nat, ticks: nat)
    requires WellFormed(c) && c.running.Running?
    ensures var c' := c.(running := c.running.(slice := slice), ticks := ticks);
            WellFormed(c') && Yield(c') == Yield(c).(ticks := ticks)
  {
    BestAfterEnqueue(c, c.running.task, c.running.prio);
  }

  /** A boost that has moved the first `n` processes of the LOW queue. */
  ghost function BoostPart(c: Cpu<Process>, n: nat): (r: Cpu<Process>)
    requires WellFormed(c) && n <= |c.queues[LOW]|
  {
    c.(queues := c.queues[NORMAL := c.queues[NORMAL] + c.queues[LOW][..n]][LOW := c.queues[LOW][n..]],
       bits := if n == 0 then c.bits else c.bits[NORMAL := true])
  }

  lemma {:induction false} BoostPartEnds(c: Cpu<Process>)
    requires WellFormed(c)
    ensures BoostPart(c, 0) == c
    ensures BoostPart(c, |c.queues[LOW]|) == Boost(c)
    ensures Boost(c).running == c.running && Boost(c).ticks == c.ticks
  {
    assert c.queues[NORMAL] + c.queues[LOW][..0] == c.queues[NORMAL];
    assert c.queues[LOW][..|c.queues[LOW]|] == c.queues[LOW];
    assert c.queues[LOW][|c.queues[LOW]|..] == [];
  }

  lemma {:induction false} BoostPartStep(c: Cpu<Process>, n: nat)
    requires WellFormed(c) && n < |c.queues[LOW]|
    ensures var p, p' := BoostPart(c, n), BoostPart(c, n + 1);
            && |p.queues| == LEVELS && |p.bits| == LEVELS
            && p'.queues == p.queues[NORMAL := p.queues[NORMAL] + [c.queues[LOW][n]]][LOW := c.queues[LOW][n..][1..]]
            && p'.bits == p.bits[NORMAL := true]
            && p' == c.(queues := p'.queues, bits := p'.bits)
            && c.queues[LOW][n..][1..] == c.queues[LOW][n + 1..]
  {
    var m, l := c.queues[NORMAL], c.queues[LOW];
    assert l[..n + 1] == l[..n] + [l[n]];
    assert m + l[..n + 1] == m + l[..n] + [l[n]];
    assert l[n..][1..] == l[n + 1..];
  }

  lemma {:induction false} EmptyLinked(head: Process?, tail: Process?, l: seq<Process>)
    requires Linked(head, tail, l)
    ensures Linked(head, if l == [] then null else tail, l)
  {
  }

  lemma {:induction false} LinkedNonEmpty(head: Process, tail: Process?, l: seq<Process>)
    requires Linked(head, if l == [] then null else tail, l)
    ensures l != [] && l[0] == head
  {
  }

  lemma {:induction false} LinkedEmpty(tail: Process?, l: seq<Process>)
    requires Linked(null, if l == [] then null else tail, l)
    ensures l == [] && Linked(null, null, l) && Distinct(l)
  {
  }

  lemma {:induction false} RestLinked(head: Process, tail: Process?, l: seq<Process>)
    requires Linked(head, tail, l) && Distinct(l) && l != []
    ensures head == l[0] && head !in l[1..] && Distinct(l[1..])
    ensures head.schedNext == null <==> |l| == 1
    ensures Linked(head.schedNext, if head.schedNext == null then null else tail, l[1..])
  {
    var m := l[1..];
    if |l| > 1 {
      assert l[0].schedNext == l[1] == m[0];
      forall i | 0 <= i < |m| - 1 ensures m[i].schedNext == m[i + 1] {
        assert l[i + 1].schedNext == l[i + 2];
      }
    }
  }

  lemma {:induction false} DistinctRest(l: seq<Process>)
    requires Distinct(l) && l != []
    ensures forall i :: 1 <= i < |l| ==> l[i] != l[0]
  {
  }

  lemma {:induction false} DistinctAppend(l: seq<Process>, p: Process)
    requires Distinct(l) && p !in l
    ensures Distinct(l + [p])
  {
  }
}
