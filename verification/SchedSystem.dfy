/** The whole scheduler of sched.c: the runqueues of all CPUs and the wait queues, proved to follow the
    machine of module Mlfq operation by operation. */
module SchedSystem {
  import opened Mlfq
  import opened Sched

  /** `l` is the chain of `wqNext` links from `head`. */
  ghost predicate WaitChain(head: Process?, l: seq<Sleeper<Process>>)
    reads set k | 0 <= k < |l| :: l[k].task
  {
    if l == [] then head == null
    else
      && head == l[0].task && l[|l| - 1].task.wqNext == null
      && forall k :: 0 <= k < |l| - 1 ==> l[k].task.wqNext == l[k + 1].task
  }

  /** `l` are the processes asleep on `wq`, front first. */
  ghost predicate WaitOk(wq: WaitQueue, l: seq<Sleeper<Process>>)
    reads wq, set k | 0 <= k < |l| :: l[k].task
  {
    && (forall k :: 0 <= k < |l| ==> l[k].task.wq == wq && l[k].task.priority == l[k].prio)
    && (forall j, k :: 0 <= j < k < |l| ==> l[j].task != l[k].task)
    && WaitChain(wq.head, l)
  }

  class Scheduler {
    var rqs: seq<RunQueue>
    var waits: seq<WaitQueue>
    /** Every process in a queue, running or asleep. */
    ghost var procs: set<Process>
    /** The machine this state stands for. */
    ghost var model: Sys<Process>

    ghost predicate CpuMatches(i: nat)
      requires i < |rqs|
      reads this, rqs, procs
    {
      && rqs[i].id == i
      && rqs[i].members <= procs && rqs[i].CurrentSet() <= procs
      && rqs[i].CpuOk()
      && i < |model.cpus| && rqs[i].Abs() == model.cpus[i]
    }

    ghost predicate WaitMatches(w: nat)
      requires w < |waits| && w < |model.waits|
      reads this, waits, procs
    {
      && (forall k :: 0 <= k < |model.waits[w]| ==> model.waits[w][k].task in procs)
      && WaitOk(waits[w], model.waits[w])
    }

    ghost predicate Valid()
      reads this, rqs, waits, procs
    {
      && SysOk(model) && |model.cpus| == |rqs| && |model.waits| == |waits|
      && (forall i, j :: 0 <= i < j < |rqs| ==> rqs[i] != rqs[j])
      && (forall i, j :: 0 <= i < j < |waits| ==> waits[i] != waits[j])
      && (forall i: nat :: i < |rqs| ==> CpuMatches(i))
      && (forall w: nat :: w < |waits| ==> WaitMatches(w))
    }

    /** scheduler_init; `waits` are the wait queues of the kernel, all empty. */
    constructor (numCpus: nat, waits: seq<WaitQueue>)
      requires numCpus > 0
      requires forall i, j :: 0 <= i < j < |waits| ==> waits[i] != waits[j]
      requires forall w :: 0 <= w < |waits| ==> waits[w].head == null
      ensures Valid() && procs == {} && this.waits == waits
      ensures model == Initial(numCpus, |waits|) && |rqs| == numCpus
    {
      hide RunQueue.QueuesOk, EmptyCpu, WellFormed;
      rqs, procs, model := [], {}, Initial(numCpus, |waits|);
      this.waits := waits;
      new;
      InitialOk<Process>(numCpus, |waits|);
      for i := 0 to numCpus
        invariant |rqs| == i && fresh(rqs)
        invariant procs == {} && model == Initial(numCpus, |waits|) && this.waits == waits
        invariant forall j, k :: 0 <= j < k < i ==> rqs[j] != rqs[k]
        invariant forall j: nat :: j < i ==>
          rqs[j].id == j && rqs[j].members == {} && rqs[j].current == null && rqs[j].CpuOk() && rqs[j].Abs() == EmptyCpu()
        invariant forall w :: 0 <= w < |waits| ==> waits[w].head == null
      {
        var rq := new RunQueue(i);
        rqs := rqs + [rq];
      }
    }

    /** No process belongs to two CPUs, and none that is asleep belongs to a CPU. */
    lemma {:induction false} Separate(i: nat)
      requires Valid() && i < |rqs|
      ensures forall j: nat :: j < |rqs| && j != i ==>
                (rqs[j].members + rqs[j].CurrentSet()) !! (rqs[i].members + rqs[i].CurrentSet())
      ensures forall w: nat, k: nat :: w < |waits| && k < |model.waits[w]| ==>
                model.waits[w][k].task !in rqs[i].members + rqs[i].CurrentSet()
    {
      assert CpuMatches(i);
      forall j: nat | j < |rqs| && j != i
        ensures (rqs[j].members + rqs[j].CurrentSet()) !! (rqs[i].members + rqs[i].CurrentSet())
      {
        assert CpuMatches(j);
      }
      forall w: nat, k: nat | w < |waits| && k < |model.waits[w]|
        ensures model.waits[w][k].task !in rqs[i].members + rqs[i].CurrentSet()
      {
        assert WaitMatches(w);
      }
    }

    /** scheduler_start on CPU `cpu`, when something is queued there. */
    method StartOn(cpu: nat)
      requires Valid() && cpu < |rqs| && SysOk(model) && CanStart(model, cpu)
      modifies rqs, procs, this`model
      ensures Valid() && SysOk(old(model)) && model == Step(old(model), Event.StartOn(cpu))
    {
      hide WaitOk, RunQueue.QueuesOk, Dispatch, Best;
      Separate(cpu);
      StepKeepsOk(model, Event.StartOn(cpu));
      assert CpuMatches(cpu);
      rqs[cpu].SelectNext();
      model := Step(model, Event.StartOn(cpu));
      forall i: nat | i < |rqs| ensures CpuMatches(i) {
        assert old(CpuMatches(i));
      }
      forall w: nat | w < |waits| ensures WaitMatches(w) {
        assert old(WaitMatches(w));
      }
    }

    /** scheduler_yield on CPU `cpu`. */
    method YieldOn(cpu: nat)
      requires Valid() && cpu < |rqs|
      modifies rqs, procs, this`model
      ensures Valid() && SysOk(old(model)) && model == Step(old(model), Event.YieldOn(cpu))
    {
      hide WaitOk, RunQueue.QueuesOk, Yield;
      Separate(cpu);
      StepKeepsOk(model, Event.YieldOn(cpu));
      assert CpuMatches(cpu);
      rqs[cpu].YieldCpu();
      model := Step(model, Event.YieldOn(cpu));
      forall i: nat | i < |rqs| ensures CpuMatches(i) {
        assert old(CpuMatches(i));
      }
      forall w: nat | w < |waits| ensures WaitMatches(w) {
        assert old(WaitMatches(w));
      }
    }

    /** scheduler_tick on CPU `cpu`, with the boost of all CPUs when one is due. */
    method TickOn(cpu: nat)
      requires Valid() && cpu < |rqs|
      modifies rqs, procs, this`model
      ensures Valid() && SysOk(old(model)) && model == Step(old(model), Event.TickOn(cpu))
    {
      hide WaitOk, Mlfq.TickCpu, RunQueue.QueuesOk, Boost;
      Separate(cpu);
      TickKeepsWellFormed(model.cpus[cpu]);
      assert CpuMatches(cpu);
      var boost := rqs[cpu].TickCpu();
      model := model.(cpus := model.cpus[cpu := Mlfq.TickCpu(model.cpus[cpu]).0]);
      forall i: nat | i < |rqs| ensures CpuMatches(i) {
        assert old(CpuMatches(i));
      }
      forall w: nat | w < |waits| ensures WaitMatches(w) {
        assert old(WaitMatches(w));
      }
      if boost {
        BoostCpus();
      }
    }

    /** priority_boost: every CPU in turn. */
    method BoostCpus()
      requires Valid()
      modifies rqs, procs, this`model
      ensures Valid() && SysOk(old(model)) && model == old(model).(cpus := BoostAll(old(model.cpus)))
    {
      hide WaitOk, RunQueue.QueuesOk, Boost, WellFormed;
      ghost var before := model.cpus;
      for i := 0 to |rqs|
        invariant Valid() && model == old(model).(cpus := model.cpus)
        invariant forall j :: 0 <= j < |before| ==> model.cpus[j] == if j < i then Boost(before[j]) else before[j]
      {
        BoostOneCpu(i);
      }
      assert model.cpus == BoostAll(before);
    }

    method BoostOneCpu(i: nat)
      requires Valid() && i < |rqs|
      modifies rqs, procs, this`model
      ensures Valid() && WellFormed(old(model.cpus[i]))
      ensures model == old(model).(cpus := old(model.cpus)[i := Boost(old(model.cpus[i]))])
    {
      hide WaitOk, RunQueue.QueuesOk, Boost;
      Separate(i);
      BoostKeepsWellFormed(model.cpus[i]);
      assert CpuMatches(i);
      rqs[i].BoostCpu();
      model := model.(cpus := model.cpus[i := Boost(model.cpus[i])]);
      forall j: nat | j < |rqs| ensures CpuMatches(j) {
        assert old(CpuMatches(j));
      }
      forall w: nat | w < |waits| ensures WaitMatches(w) {
        assert old(WaitMatches(w));
      }
    }

    /** The load loop of scheduler_add_process. */
    method PickCpu() returns (target: nat)
      requires Valid()
      ensures SysOk(model) && target == LeastLoaded(model.cpus, |model.cpus|) < |rqs|
    {
      hide WaitOk, RunQueue.QueuesOk;
      target := 0;
      var minLoad := 0xFFFF_FFFF;
      for i := 0 to |rqs|
        invariant i > 0 ==> target == LeastLoaded(model.cpus, i) && minLoad == Load(model.cpus[target].bits)
        invariant i == 0 ==> minLoad == 0xFFFF_FFFF
      {
        assert CpuMatches(i);
        var count := CountBits(rqs[i].bits);
        LoadBound(rqs[i].bits);
        if count < minLoad {
          minLoad := count;
          target := i;
        }
      }
    }

    /** scheduler_add_process: `p` goes to the back of its level on the least loaded CPU. */
    method Add(p: Process)
      requires Valid() && p !in procs && p.priority < LEVELS && p.wq == null
      modifies rqs, procs, this`model, this`procs, p
      ensures Valid() && procs == old(procs) + {p}
      ensures SysOk(old(model)) && model == Mlfq.Add(old(model), p, old(p.priority))
      ensures p.priority == old(p.priority)
    {
      hide WaitOk, RunQueue.CpuOk, LeastLoaded, Mlfq.Add;
      var target := PickCpu();
      AddKeepsOk(model, p, p.priority);
      p.cpu := target;
      p.state := Ready;
      p.timeSlice := Quantum(p.priority);
      forall j: nat | j < |rqs| ensures CpuMatches(j) {
        assert old(CpuMatches(j));
      }
      forall w: nat | w < |waits| ensures WaitMatches(w) {
        assert old(WaitMatches(w));
      }
      AddTo(target, p);
    }

    method AddTo(target: nat, p: Process)
      requires Valid() && p !in procs && p.priority < LEVELS && p.wq == null && p.cpu == target
      requires target == LeastLoaded(model.cpus, |model.cpus|)
      modifies rqs, procs, this`model, this`procs, p`schedNext
      ensures Valid() && procs == old(procs) + {p}
      ensures SysOk(old(model)) && model == Mlfq.Add(old(model), p, p.priority)
    {
      hide WaitOk, RunQueue.QueuesOk, LeastLoaded, Mlfq.Enqueue;
      AddKeepsOk(model, p, p.priority);
      Separate(target);
      assert CpuMatches(target);
      rqs[target].AddHere(p);
      model := Mlfq.Add(model, p, p.priority);
      procs := procs + {p};
      forall j: nat | j < |rqs| ensures CpuMatches(j) {
        assert old(CpuMatches(j));
      }
      forall w: nat | w < |waits| ensures WaitMatches(w) {
        assert old(WaitMatches(w));
      }
    }

    /** scheduler_sleep_on: the running process goes to the front of wait queue `w` and the best queued
        process runs instead.  With nothing queued the source would dereference the idle task, which the
        kernel never sets. */
    method SleepOn(cpu: nat, w: nat)
      requires Valid() && cpu < |rqs| && w < |waits|
      requires SysOk(model) && CanSleep(model, cpu)
      modifies rqs, procs, waits, this`model
      ensures Valid() && SysOk(old(model)) && model == Step(old(model), Event.SleepOn(cpu, w))
    {
      hide WaitOk, RunQueue.QueuesOk, Dispatch, Best;
      Separate(cpu);
      SleepKeepsOk(model, cpu, w);
      assert CpuMatches(cpu) && WaitMatches(w);
      var p := rqs[cpu].current;
      Suspend(rqs[cpu], p, waits[w], model.waits[w]);
      rqs[cpu].SelectNext();
      model := Sleep(model, cpu, w);
      forall i: nat | i < |rqs| ensures CpuMatches(i) {
        assert old(CpuMatches(i));
      }
      forall v: nat | v < |waits| ensures WaitMatches(v) {
        assert old(WaitMatches(v));
      }
    }

    lemma {:induction false} SleepersNotOnCpus(w: nat)
      requires Valid() && w < |waits|
      ensures forall i: nat, k: nat :: i < |rqs| && k < |model.waits[w]| ==>
                model.waits[w][k].task !in rqs[i].members && model.waits[w][k].task !in rqs[i].CurrentSet()
    {
      forall i: nat | i < |rqs|
        ensures forall k: nat :: k < |model.waits[w]| ==>
                  model.waits[w][k].task !in rqs[i].members && model.waits[w][k].task !in rqs[i].CurrentSet()
      {
        Separate(i);
      }
    }

    /** Unlink the front of wait list `w`. */
    method Detach(w: nat) returns (p: Process)
      requires Valid() && w < |waits| && model.waits[w] != []
      modifies procs, waits, this`model, this`procs
      ensures Valid() && p == old(model.waits[w][0].task) && procs == old(procs) - {p} && p in old(procs)
      ensures p.wq == null && p.priority == old(model.waits[w][0].prio)
      ensures model == old(model).(waits := old(model.waits)[w := old(model.waits[w])[1..]])
    {
      hide RunQueue.CpuOk, WaitOk;
      SleepersNotOnCpus(w);
      SleepersApart(w);
      assert WaitMatches(w);
      p := Unlink(waits[w], model.waits[w]);
      model := model.(waits := model.waits[w := model.waits[w][1..]]);
      procs := procs - {p};
      forall i: nat | i < |rqs| ensures CpuMatches(i) {
        assert old(CpuMatches(i));
      }
      forall v: nat | v < |waits| ensures WaitMatches(v) {
        assert old(WaitMatches(v));
      }
    }

    /** The front of a wait list is nowhere else in the wait lists. */
    lemma {:induction false} SleepersApart(w: nat)
      requires Valid() && w < |waits| && model.waits[w] != []
      ensures forall v: nat, k: nat :: v < |waits| && k < |model.waits[v]| && (v != w || k > 0) ==>
                model.waits[v][k].task != model.waits[w][0].task
    {
      assert WaitMatches(w);
      forall v: nat, k: nat | v < |waits| && k < |model.waits[v]| && (v != w || k > 0)
        ensures model.waits[v][k].task != model.waits[w][0].task
      {
        assert WaitMatches(v);
      }
    }

    /** scheduler_wakeup_one: the front of the wait list goes to scheduler_add_process. */
    method WakeOne(w: nat)
      requires Valid() && w < |waits|
      modifies rqs, procs, waits, this`model, this`procs
      ensures Valid() && procs == old(procs)
      ensures SysOk(old(model)) && model == Step(old(model), Event.WakeOne(w))
    {
      hide RunQueue.CpuOk, Mlfq.Add;
      assert WaitMatches(w);
      if waits[w].head != null {
        var p := Detach(w);
        Add(p);
      }
    }

    /** Sleepers unlinked from their wait queue but still chained to each other from `proc`. */
    ghost predicate Orphans(proc: Process?, l: seq<Sleeper<Process>>, wq: WaitQueue)
      reads this, set k | 0 <= k < |l| :: l[k].task
    {
      && (forall k :: 0 <= k < |l| ==>
            l[k].task !in procs && l[k].task.wq == wq && l[k].task.priority == l[k].prio && l[k].prio < LEVELS)
      && (forall j, k :: 0 <= j < k < |l| ==> l[j].task != l[k].task)
      && WaitChain(proc, l)
    }

    ghost function TasksOf(l: seq<Sleeper<Process>>): (r: set<Process>) {
      set k | 0 <= k < |l| :: l[k].task
    }

    /** The first store of scheduler_wakeup: the whole list leaves the wait queue. */
    method DetachAll(w: nat) returns (proc: Process?)
      requires Valid() && w < |waits|
      modifies waits, this`model, this`procs
      ensures Valid() && procs == old(procs) - TasksOf(old(model.waits[w])) && TasksOf(old(model.waits[w])) <= old(procs)
      ensures SysOk(old(model)) && model == old(model).(waits := old(model.waits)[w := []])
      ensures Orphans(proc, old(model.waits[w]), waits[w])
    {
      hide RunQueue.CpuOk;
      SleepersNotOnCpus(w);
      assert WaitMatches(w);
      ghost var l := model.waits[w];
      proc := waits[w].head;
      waits[w].head := null;
      model := model.(waits := model.waits[w := []]);
      procs := procs - TasksOf(l);
      forall i: nat | i < |rqs| ensures CpuMatches(i) {
        assert old(CpuMatches(i));
      }
      forall v: nat | v < |waits| ensures WaitMatches(v) {
        assert old(WaitMatches(v));
      }
    }

    /** scheduler_wakeup: every sleeper, in list order, goes to scheduler_add_process. */
    method WakeAll(w: nat)
      requires Valid() && w < |waits|
      modifies rqs, procs, waits, this`model, this`procs
      ensures Valid() && procs == old(procs)
      ensures SysOk(old(model)) && model == Step(old(model), Event.WakeAll(w))
    {
      hide RunQueue.CpuOk, WaitChain, CpuMatches, WaitMatches, Orphans, Mlfq.Add, AddAll, TasksOf;
      ghost var rest, all := model.waits[w], procs;
      var proc := DetachAll(w);
      ghost var goal := AddAll(model, rest);
      while proc != null
        invariant Valid() && Orphans(proc, rest, waits[w]) && waits == old(waits)
        invariant procs + TasksOf(rest) == all && TasksOf(rest) <= all
        invariant SysOk(model) && (forall k :: 0 <= k < |rest| ==> rest[k].prio < LEVELS)
        invariant AddAll(model, rest) == goal
        decreases |rest|
      {
        OrphanFront(proc, rest, waits[w]);
        AddAllStep(model, rest);
        proc := WakeRound(proc, rest, waits[w]);
        rest := rest[1..];
      }
      OrphansEnd(rest, waits[w]);
      AddAllNone(model);
    }

    lemma {:induction false} OrphanFront(proc: Process, l: seq<Sleeper<Process>>, wq: WaitQueue)
      requires Orphans(proc, l, wq)
      ensures l != [] && l[0].task == proc && proc in TasksOf(l) && l[0].prio < LEVELS
      ensures TasksOf(l[1..]) <= TasksOf(l)
    {
      forall p | p in TasksOf(l[1..]) ensures p in TasksOf(l) {
        var k :| 0 <= k < |l[1..]| && l[1..][k].task == p;
        assert l[k + 1].task == p;
      }
    }

    lemma {:induction false} OrphansEnd(l: seq<Sleeper<Process>>, wq: WaitQueue)
      requires Orphans(null, l, wq)
      ensures l == [] && TasksOf(l) == {}
    {
    }

    /** One round of scheduler_wakeup. */
    method WakeRound(proc: Process, ghost l: seq<Sleeper<Process>>, ghost wq: WaitQueue) returns (next: Process?)
      requires Valid() && l != [] && l[0].task == proc && Orphans(proc, l, wq)
      modifies rqs, procs, this`model, this`procs, proc
      ensures Valid() && Orphans(next, l[1..], wq) && waits == old(waits)
      ensures procs + TasksOf(l[1..]) == old(procs) + TasksOf(l)
      ensures SysOk(old(model)) && l[0].prio < LEVELS && model == Mlfq.Add(old(model), l[0].task, l[0].prio)
    {
      hide RunQueue.CpuOk, CpuMatches, WaitMatches, Mlfq.Add;
      next := proc.wqNext;
      Release(proc, l, wq);
      RestIsFree(l);
      Add(proc);
    }

    lemma {:induction false} RestIsFree(l: seq<Sleeper<Process>>)
      requires l != [] && forall j, k :: 0 <= j < k < |l| ==> l[j].task != l[k].task
      ensures forall k :: 0 <= k < |l[1..]| ==> l[1..][k].task != l[0].task
    {
    }

    /** Clear the links of the first orphan. */
    method Release(proc: Process, ghost l: seq<Sleeper<Process>>, ghost wq: WaitQueue)
      requires Valid() && l != [] && l[0].task == proc && Orphans(proc, l, wq)
      modifies proc`wqNext, proc`wq, proc`state
      ensures Valid() && proc.wq == null && proc !in procs && proc.priority == l[0].prio
      ensures Orphans(old(proc.wqNext), l[1..], wq)
      ensures procs + TasksOf(l) == procs + {proc} + TasksOf(l[1..])
    {
      hide RunQueue.CpuOk;
      proc.wqNext := null;
      proc.wq := null;
      proc.state := Ready;
      forall i: nat | i < |rqs| ensures CpuMatches(i) {
        assert old(CpuMatches(i));
      }
      forall v: nat | v < |waits| ensures WaitMatches(v) {
        assert old(WaitMatches(v));
      }
      assert forall k :: 0 <= k < |l[1..]| ==> l[1..][k] == l[k + 1];
      assert TasksOf(l) == {proc} + TasksOf(l[1..]) by {
        forall p | p in TasksOf(l) ensures p in {proc} + TasksOf(l[1..]) {
          var k :| 0 <= k < |l| && l[k].task == p;
          if k > 0 { assert l[1..][k - 1].task == p; }
        }
      }
    }
  }

  lemma {:induction false} AddAllStep(s: Sys<Process>, l: seq<Sleeper<Process>>)
    requires SysOk(s) && l != [] && forall k :: 0 <= k < |l| ==> l[k].prio < LEVELS
    ensures SysOk(Mlfq.Add(s, l[0].task, l[0].prio))
    ensures AddAll(s, l) == AddAll(Mlfq.Add(s, l[0].task, l[0].prio), l[1..])
  {
    AddKeepsOk(s, l[0].task, l[0].prio);
  }

  lemma {:induction false} AddAllNone(s: Sys<Process>)
    requires SysOk(s)
    ensures AddAll(s, []) == s
  {
  }

  /** The first half of scheduler_sleep_on: push `p` on the wait list. */
  method Suspend(rq: RunQueue, p: Process, wq: WaitQueue, ghost l: seq<Sleeper<Process>>)
    requires rq.CpuOk() && rq.current == p && WaitOk(wq, l)
    requires forall k :: 0 <= k < |l| ==> l[k].task != p
    modifies p`state, p`wq, p`wqNext, wq
    ensures rq.QueuesOk() && rq.Queues() == old(rq.Queues())
    ensures WaitOk(wq, [Sleeper(p, p.priority)] + l)
  {
    p.state := Sleeping;
    p.wq := wq;
    p.wqNext := wq.head;
    wq.head := p;
  }

  /** The stores that take the first sleeper off a wait queue. */
  method Unlink(wq: WaitQueue, ghost l: seq<Sleeper<Process>>) returns (p: Process)
    requires l != [] && WaitOk(wq, l)
    modifies wq, l[0].task`wqNext, l[0].task`wq, l[0].task`state
    ensures p == l[0].task && p.wq == null && p.priority == l[0].prio && WaitOk(wq, l[1..])
  {
    p := wq.head;
    wq.head := p.wqNext;
    p.wqNext := null;
    p.wq := null;
    p.state := Ready;
  }

  lemma {:induction false} SleepKeepsOk(s: Sys<Process>, cpu: nat, w: nat)
    requires SysOk(s) && cpu < |s.cpus| && w < |s.waits| && CanSleep(s, cpu)
    ensures SysOk(Sleep(s, cpu, w)) && Enabled(s, Event.SleepOn(cpu, w))
    ensures Best(s.cpus[cpu].(running := Nobody)) < LEVELS
    ensures Dispatch(s.cpus[cpu].(running := Nobody)) == Dispatch(s.cpus[cpu])
  {
    SleepConserves(s, cpu, w, s.cpus[cpu].running.task);
  }

  /** The inner loop of scheduler_add_process. */
  method CountBits(bits: seq<bool>) returns (count: nat)
    requires |bits| == LEVELS
    ensures count == Load(bits)
  {
    count := 0;
    for q := 0 to LEVELS
      invariant count + Load(bits[q..]) == Load(bits)
    {
      assert bits[q..][1..] == bits[q + 1..];
      if bits[q] { count := count + 1; }
    }
  }

  lemma {:induction false} LoadBound(bits: seq<bool>)
    ensures Load(bits) <= |bits|
  {
    if bits != [] {
      LoadBound(bits[1..]);
    }
  }
}
