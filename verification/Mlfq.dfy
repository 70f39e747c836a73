/** The scheduling policy of sched.c on plain values: what the queues, the running task and the wait
    lists of the machine are after each operation.  `T` stands for a process. */
module Mlfq {
  const LEVELS: nat := 5
  const REALTIME: nat := 0
  const HIGH: nat := 1
  const NORMAL: nat := 2
  const LOW: nat := 3
  const BOOST_INTERVAL: nat := 200

  /** Ticks a task may run, by level. */
  function Quantum(prio: nat): (q: nat)
    ensures q > 0
  {
    if prio == REALTIME then 0xFFFF_FFFF
    else if prio == HIGH then 4
    else if prio == NORMAL then 8
    else if prio == LOW then 16
    else 32
  }

  datatype Running<T> = Nobody | Running(task: T, prio: nat, slice: nat)

  /** One CPU: its queues, front first; the occupancy bits; the task it runs; ticks since the last boost. */
  datatype Cpu<T> = Cpu(queues: seq<seq<T>>, bits: seq<bool>, running: Running<T>, ticks: nat)

  /** Every nonempty queue has its bit set.  A set bit over an empty queue is allowed. */
  ghost predicate WellFormed<T>(c: Cpu<T>) {
    && |c.queues| == LEVELS && |c.bits| == LEVELS
    && (forall q :: 0 <= q < LEVELS && c.queues[q] != [] ==> c.bits[q])
    && (c.running.Running? ==> c.running.prio < LEVELS)
  }

  /** enqueue_process: to the back of the queue of its level. */
  function Enqueue<T>(c: Cpu<T>, t: T, prio: nat): (r: Cpu<T>)
    requires |c.queues| == LEVELS && |c.bits| == LEVELS && prio < LEVELS
  {
    c.(queues := c.queues[prio := c.queues[prio] + [t]], bits := c.bits[prio := true])
  }

  /** The lowest-numbered nonempty queue from level `q` on, or LEVELS. */
  function FirstNonEmpty<T>(queues: seq<seq<T>>, q: nat): (r: nat)
    requires |queues| == LEVELS && q <= LEVELS
    ensures q <= r <= LEVELS
    ensures r < LEVELS ==> |queues[r]| > 0
    ensures forall j :: q <= j < r ==> queues[j] == []
    decreases LEVELS - q
  {
    if q == LEVELS || queues[q] != [] then q else FirstNonEmpty(queues, q + 1)
  }

  /** The level dequeue_highest takes from; LEVELS when all queues are empty. */
  function Best<T>(c: Cpu<T>): (r: nat)
    requires |c.queues| == LEVELS
    ensures r <= LEVELS
  {
    FirstNonEmpty(c.queues, 0)
  }

  /** dequeue_highest, when some queue is nonempty: the front of the best queue leaves it; the bits of the
      empty queues before it are cleared on the way. */
  function Dequeue<T>(c: Cpu<T>): (r: Cpu<T>)
    requires |c.queues| == LEVELS && |c.bits| == LEVELS && Best(c) < LEVELS
  {
    var h := Best(c);
    c.(queues := c.queues[h := c.queues[h][1..]],
       bits := seq(LEVELS, q requires 0 <= q < LEVELS =>
                     if q < h then false else if q == h && |c.queues[h]| == 1 then false else c.bits[q]))
  }

  /** The task at the front of the best queue. */
  function Front<T>(c: Cpu<T>): (r: T)
    requires |c.queues| == LEVELS && Best(c) < LEVELS
  {
    c.queues[Best(c)][0]
  }

  /** Take the front of the best queue and run it with a fresh slice. */
  function Dispatch<T>(c: Cpu<T>): (r: Cpu<T>)
    requires |c.queues| == LEVELS && |c.bits| == LEVELS && Best(c) < LEVELS
  {
    Dequeue(c).(running := Running(Front(c), Best(c), Quantum(Best(c))))
  }

  /** scheduler_yield: the running task goes to the back of its queue and the best one is dispatched. */
  function Yield<T>(c: Cpu<T>): (r: Cpu<T>)
    requires WellFormed(c)
  {
    if c.running.Nobody? then c
    else
      BestAfterEnqueue(c, c.running.task, c.running.prio);
      Dispatch(Enqueue(c, c.running.task, c.running.prio))
  }

  lemma {:induction false} BestAfterEnqueue<T>(c: Cpu<T>, t: T, prio: nat)
    requires |c.queues| == LEVELS && |c.bits| == LEVELS && prio < LEVELS
    ensures Best(Enqueue(c, t, prio)) <= prio
  {
  }

  /** priority_boost on one CPU: the LOW queue is appended to the NORMAL queue. */
  function Boost<T>(c: Cpu<T>): (r: Cpu<T>)
    requires WellFormed(c)
  {
    c.(queues := c.queues[NORMAL := c.queues[NORMAL] + c.queues[LOW]][LOW := []],
       bits := if c.queues[LOW] == [] then c.bits else c.bits[NORMAL := true])
  }

  /** scheduler_tick on its own CPU, up to the boost; the second result says that a boost follows. */
  function TickCpu<T(==)>(c: Cpu<T>): (r: (Cpu<T>, bool))
    requires WellFormed(c)
  {
    if c.running.Nobody? then (c, false)
    else
      var r, ticks := c.running, c.ticks + 1;
      if r.prio == REALTIME then (c.(ticks := ticks), false)
      else
        var slice := if r.slice > 0 then r.slice - 1 else 0;
        if slice == 0 then
          var c' := Yield(c).(ticks := ticks);
          if c'.running.task != r.task then (c', false)
          else if ticks >= BOOST_INTERVAL then (c'.(ticks := 0), true)
          else (c', false)
        else
          var c' := c.(running := r.(slice := slice), ticks := ticks);
          if ticks >= BOOST_INTERVAL then (c'.(ticks := 0), true) else (c', false)
  }

  datatype Sleeper<T> = Sleeper(task: T, prio: nat)

  /** The machine: its CPUs and its wait lists, front first. */
  datatype Sys<T> = Sys(cpus: seq<Cpu<T>>, waits: seq<seq<Sleeper<T>>>)

  ghost predicate SysOk<T>(s: Sys<T>) {
    && |s.cpus| > 0
    && (forall i :: 0 <= i < |s.cpus| ==> WellFormed(s.cpus[i]))
    && (forall w :: 0 <= w < |s.waits| ==> forall k :: 0 <= k < |s.waits[w]| ==> s.waits[w][k].prio < LEVELS)
  }

  function BoostAll<T>(cpus: seq<Cpu<T>>): (r: seq<Cpu<T>>)
    requires forall i :: 0 <= i < |cpus| ==> WellFormed(cpus[i])
  {
    seq(|cpus|, i requires 0 <= i < |cpus| => Boost(cpus[i]))
  }

  function Tick<T(==)>(s: Sys<T>, cpu: nat): (r: Sys<T>)
    requires SysOk(s) && cpu < |s.cpus|
  {
    var (c, boost) := TickCpu(s.cpus[cpu]);
    TickKeepsWellFormed(s.cpus[cpu]);
    var cpus := s.cpus[cpu := c];
    s.(cpus := if boost then BoostAll(cpus) else cpus)
  }

  /** How many bits are set: the load estimate of scheduler_add_process. */
  function Load(bits: seq<bool>): (r: nat) {
    if bits == [] then 0 else (if bits[0] then 1 else 0) + Load(bits[1..])
  }

  /** The first CPU with the smallest load. */
  function LeastLoaded<T>(cpus: seq<Cpu<T>>, n: nat): (r: nat)
    requires 0 < n <= |cpus|
    ensures r < n
    ensures forall i :: 0 <= i < n ==> Load(cpus[r].bits) <= Load(cpus[i].bits)
    ensures forall i :: 0 <= i < r ==> Load(cpus[r].bits) < Load(cpus[i].bits)
    decreases n
  {
    if n == 1 then 0
    else
      var r := LeastLoaded(cpus, n - 1);
      if Load(cpus[n - 1].bits) < Load(cpus[r].bits) then n - 1 else r
  }

  /** scheduler_add_process. */
  function Add<T>(s: Sys<T>, t: T, prio: nat): (r: Sys<T>)
    requires SysOk(s) && prio < LEVELS
  {
    var i := LeastLoaded(s.cpus, |s.cpus|);
    s.(cpus := s.cpus[i := Enqueue(s.cpus[i], t, prio)])
  }

  /** scheduler_sleep_on: the running task goes to the front of the wait list; somebody else must be
      runnable on this CPU. */
  function Sleep<T>(s: Sys<T>, cpu: nat, w: nat): (r: Sys<T>)
    requires SysOk(s) && cpu < |s.cpus| && w < |s.waits| && CanSleep(s, cpu)
  {
    var c := s.cpus[cpu];
    Sys(s.cpus[cpu := Dispatch(c)], s.waits[w := [Sleeper(c.running.task, c.running.prio)] + s.waits[w]])
  }

  predicate CanSleep<T>(s: Sys<T>, cpu: nat)
    requires cpu < |s.cpus| && |s.cpus[cpu].queues| == LEVELS
  {
    s.cpus[cpu].running.Running? && Best(s.cpus[cpu]) < LEVELS
  }

  /** scheduler_start: a CPU that runs nothing dispatches the best queued task; without one the kernel panics. */
  function Start<T>(s: Sys<T>, cpu: nat): (r: Sys<T>)
    requires SysOk(s) && cpu < |s.cpus| && CanStart(s, cpu)
  {
    s.(cpus := s.cpus[cpu := Dispatch(s.cpus[cpu])])
  }

  predicate CanStart<T>(s: Sys<T>, cpu: nat)
    requires cpu < |s.cpus| && |s.cpus[cpu].queues| == LEVELS
  {
    s.cpus[cpu].running.Nobody? && Best(s.cpus[cpu]) < LEVELS
  }

  /** Hand the sleepers, in list order, to scheduler_add_process. */
  function AddAll<T>(s: Sys<T>, l: seq<Sleeper<T>>): (s': Sys<T>)
    requires SysOk(s) && forall k :: 0 <= k < |l| ==> l[k].prio < LEVELS
    decreases |l|
  {
    if l == [] then s
    else
      AddKeepsOk(s, l[0].task, l[0].prio);
      AddAll(Add(s, l[0].task, l[0].prio), l[1..])
  }

  /** scheduler_wakeup. */
  function Wakeup<T>(s: Sys<T>, w: nat): (r: Sys<T>)
    requires SysOk(s) && w < |s.waits|
  {
    AddAll(s.(waits := s.waits[w := []]), s.waits[w])
  }

  /** scheduler_wakeup_one. */
  function WakeupOne<T>(s: Sys<T>, w: nat): (r: Sys<T>)
    requires SysOk(s) && w < |s.waits|
  {
    if s.waits[w] == [] then s
    else Add(s.(waits := s.waits[w := s.waits[w][1..]]), s.waits[w][0].task, s.waits[w][0].prio)
  }

  // ---- well-formedness

  lemma {:induction false} DequeueKeepsWellFormed<T>(c: Cpu<T>)
    requires WellFormed(c) && Best(c) < LEVELS
    ensures WellFormed(Dequeue(c)) && WellFormed(Dispatch(c))
  {
  }

  lemma {:induction false} YieldKeepsWellFormed<T>(c: Cpu<T>)
    requires WellFormed(c)
    ensures WellFormed(Yield(c))
  {
    if c.running.Running? {
      var c' := Enqueue(c, c.running.task, c.running.prio);
      assert WellFormed(c');
      BestAfterEnqueue(c, c.running.task, c.running.prio);
      DequeueKeepsWellFormed(c');
    }
  }

  lemma {:induction false} TickKeepsWellFormed<T>(c: Cpu<T>)
    requires WellFormed(c)
    ensures WellFormed(TickCpu(c).0)
  {
    YieldKeepsWellFormed(c);
  }

  lemma {:induction false} AddKeepsOk<T>(s: Sys<T>, t: T, prio: nat)
    requires SysOk(s) && prio < LEVELS
    ensures SysOk(Add(s, t, prio))
  {
  }

  // ---- conservation: no operation loses or duplicates a task

  function RunningTasks<T(==)>(r: Running<T>, x: T): (result: nat) {
    if r.Running? && r.task == x then 1 else 0
  }

  function One<T(==)>(t: T, x: T): (r: nat) {
    if t == x then 1 else 0
  }

  /** How often `x` occurs in a list. */
  function Occurrences<T(==)>(l: seq<T>, x: T): (r: nat) {
    if l == [] then 0 else (if l[0] == x then 1 else 0) + Occurrences(l[1..], x)
  }

  function QueuedTasks<T(==)>(queues: seq<seq<T>>, x: T): (r: nat) {
    if queues == [] then 0 else Occurrences(queues[0], x) + QueuedTasks(queues[1..], x)
  }

  function CpuTasks<T(==)>(c: Cpu<T>, x: T): (r: nat) {
    QueuedTasks(c.queues, x) + RunningTasks(c.running, x)
  }

  function CpusTasks<T(==)>(cpus: seq<Cpu<T>>, x: T): (r: nat) {
    if cpus == [] then 0 else CpuTasks(cpus[0], x) + CpusTasks(cpus[1..], x)
  }

  function ListTasks<T(==)>(l: seq<Sleeper<T>>, x: T): (r: nat) {
    if l == [] then 0 else (if l[0].task == x then 1 else 0) + ListTasks(l[1..], x)
  }

  function WaitTasks<T(==)>(waits: seq<seq<Sleeper<T>>>, x: T): (r: nat) {
    if waits == [] then 0 else ListTasks(waits[0], x) + WaitTasks(waits[1..], x)
  }

  /** In how many places task `x` is: queue positions, CPUs running it, wait list positions. */
  function Tasks<T(==)>(s: Sys<T>, x: T): (r: nat) {
    CpusTasks(s.cpus, x) + WaitTasks(s.waits, x)
  }

  lemma {:induction false} OccurrencesConcat<T>(l: seq<T>, m: seq<T>, x: T)
    ensures Occurrences(l + m, x) == Occurrences(l, x) + Occurrences(m, x)
  {
    if l == [] {
      assert l + m == m;
    } else {
      assert (l + m)[1..] == l[1..] + m;
      OccurrencesConcat(l[1..], m, x);
    }
  }

  lemma {:induction false} QueuedUpdate<T>(queues: seq<seq<T>>, q: nat, l: seq<T>, x: T)
    requires q < |queues|
    ensures QueuedTasks(queues[q := l], x) + Occurrences(queues[q], x) == QueuedTasks(queues, x) + Occurrences(l, x)
  {
    if q == 0 {
      assert queues[q := l][1..] == queues[1..];
    } else {
      assert queues[q := l][1..] == queues[1..][q - 1 := l];
      QueuedUpdate(queues[1..], q - 1, l, x);
    }
  }

  lemma {:induction false} CpusUpdate<T>(cpus: seq<Cpu<T>>, i: nat, c: Cpu<T>, x: T)
    requires i < |cpus|
    ensures CpusTasks(cpus[i := c], x) + CpuTasks(cpus[i], x) == CpusTasks(cpus, x) + CpuTasks(c, x)
  {
    if i == 0 {
      assert cpus[i := c][1..] == cpus[1..];
    } else {
      assert cpus[i := c][1..] == cpus[1..][i - 1 := c];
      CpusUpdate(cpus[1..], i - 1, c, x);
    }
  }

  lemma {:induction false} WaitUpdate<T>(waits: seq<seq<Sleeper<T>>>, w: nat, l: seq<Sleeper<T>>, x: T)
    requires w < |waits|
    ensures WaitTasks(waits[w := l], x) + ListTasks(waits[w], x) == WaitTasks(waits, x) + ListTasks(l, x)
  {
    if w == 0 {
      assert waits[w := l][1..] == waits[1..];
    } else {
      assert waits[w := l][1..] == waits[1..][w - 1 := l];
      WaitUpdate(waits[1..], w - 1, l, x);
    }
  }

  lemma {:induction false} EnqueueTasks<T>(c: Cpu<T>, t: T, prio: nat, x: T)
    requires |c.queues| == LEVELS && |c.bits| == LEVELS && prio < LEVELS
    ensures CpuTasks(Enqueue(c, t, prio), x) == CpuTasks(c, x) + One(t, x)
  {
    QueuedUpdate(c.queues, prio, c.queues[prio] + [t], x);
    OccurrencesConcat(c.queues[prio], [t], x);
  }

  lemma {:induction false} DequeueTasks<T>(c: Cpu<T>, x: T)
    requires |c.queues| == LEVELS && |c.bits| == LEVELS && Best(c) < LEVELS
    ensures CpuTasks(Dequeue(c), x) + One(Front(c), x) == CpuTasks(c, x)
    ensures CpuTasks(Dispatch(c), x) + RunningTasks(c.running, x) == CpuTasks(c, x)
  {
    var h := Best(c);
    QueuedUpdate(c.queues, h, c.queues[h][1..], x);
  }

  lemma {:induction false} YieldTasks<T>(c: Cpu<T>, x: T)
    requires WellFormed(c)
    ensures CpuTasks(Yield(c), x) == CpuTasks(c, x)
  {
    if c.running.Running? {
      EnqueueTasks(c, c.running.task, c.running.prio, x);
      BestAfterEnqueue(c, c.running.task, c.running.prio);
      DequeueTasks(Enqueue(c, c.running.task, c.running.prio), x);
    }
  }

  lemma {:induction false} BoostTasks<T>(c: Cpu<T>, x: T)
    requires WellFormed(c)
    ensures CpuTasks(Boost(c), x) == CpuTasks(c, x)
  {
    var both := c.queues[NORMAL] + c.queues[LOW];
    OccurrencesConcat(c.queues[NORMAL], c.queues[LOW], x);
    QueuedUpdate(c.queues, NORMAL, both, x);
    QueuedUpdate(c.queues[NORMAL := both], LOW, [], x);
  }

  lemma {:induction false} TickTasks<T>(c: Cpu<T>, x: T)
    requires WellFormed(c)
    ensures CpuTasks(TickCpu(c).0, x) == CpuTasks(c, x)
  {
    hide Yield, QueuedTasks;
    YieldTasks(c, x);
  }

  lemma {:induction false} BoostAllTasks<T>(cpus: seq<Cpu<T>>, x: T)
    requires forall i :: 0 <= i < |cpus| ==> WellFormed(cpus[i])
    ensures CpusTasks(BoostAll(cpus), x) == CpusTasks(cpus, x)
  {
    if cpus != [] {
      BoostTasks(cpus[0], x);
      BoostAllTasks(cpus[1..], x);
      assert BoostAll(cpus)[1..] == BoostAll(cpus[1..]);
    }
  }

  lemma {:induction false} AddTasks<T>(s: Sys<T>, t: T, prio: nat, x: T)
    requires SysOk(s) && prio < LEVELS
    ensures Tasks(Add(s, t, prio), x) == Tasks(s, x) + One(t, x)
  {
    var i := LeastLoaded(s.cpus, |s.cpus|);
    EnqueueTasks(s.cpus[i], t, prio, x);
    CpusUpdate(s.cpus, i, Enqueue(s.cpus[i], t, prio), x);
  }

  lemma {:induction false} AddAllTasks<T>(s: Sys<T>, l: seq<Sleeper<T>>, x: T)
    requires SysOk(s) && forall k :: 0 <= k < |l| ==> l[k].prio < LEVELS
    ensures SysOk(AddAll(s, l)) && Tasks(AddAll(s, l), x) == Tasks(s, x) + ListTasks(l, x)
    ensures |AddAll(s, l).cpus| == |s.cpus| && AddAll(s, l).waits == s.waits
    decreases |l|
  {
    if l != [] {
      AddKeepsOk(s, l[0].task, l[0].prio);
      AddTasks(s, l[0].task, l[0].prio, x);
      AddAllTasks(Add(s, l[0].task, l[0].prio), l[1..], x);
    }
  }

  /** What can happen to the scheduler. */
  datatype Event<T> =
    | AddTask(task: T, prio: nat)
    | StartOn(cpu: nat)
    | TickOn(cpu: nat)
    | YieldOn(cpu: nat)
    | SleepOn(cpu: nat, wait: nat)
    | WakeAll(wait: nat)
    | WakeOne(wait: nat)

  /** The event names existing CPUs, levels and wait lists; a start and a sleep find somebody runnable. */
  ghost predicate Enabled<T>(s: Sys<T>, e: Event<T>)
    requires SysOk(s)
  {
    match e
    case AddTask(_, prio) => prio < LEVELS
    case StartOn(cpu) => cpu < |s.cpus| && CanStart(s, cpu)
    case TickOn(cpu) => cpu < |s.cpus|
    case YieldOn(cpu) => cpu < |s.cpus|
    case SleepOn(cpu, wait) => cpu < |s.cpus| && wait < |s.waits| && CanSleep(s, cpu)
    case WakeAll(wait) => wait < |s.waits|
    case WakeOne(wait) => wait < |s.waits|
  }

  function Step<T(==)>(s: Sys<T>, e: Event<T>): (r: Sys<T>)
    requires SysOk(s) && Enabled(s, e)
  {
    match e
    case AddTask(t, prio) => Add(s, t, prio)
    case StartOn(cpu) => Start(s, cpu)
    case TickOn(cpu) => Tick(s, cpu)
    case YieldOn(cpu) => s.(cpus := s.cpus[cpu := Yield(s.cpus[cpu])])
    case SleepOn(cpu, wait) => Sleep(s, cpu, wait)
    case WakeAll(wait) => Wakeup(s, wait)
    case WakeOne(wait) => WakeupOne(s, wait)
  }

  function Adds<T(==)>(e: Event<T>, x: T): (r: nat) {
    if e.AddTask? then One(e.task, x) else 0
  }

  lemma {:induction false} StepConserves<T>(s: Sys<T>, e: Event<T>, x: T)
    requires SysOk(s) && Enabled(s, e)
    ensures SysOk(Step(s, e))
    ensures Tasks(Step(s, e), x) == Tasks(s, x) + Adds(e, x)
  {
    match e
    case AddTask(t, prio) =>
      AddKeepsOk(s, t, prio);
      AddTasks(s, t, prio, x);
    case StartOn(cpu) =>
      StartConserves(s, cpu, x);
    case TickOn(cpu) =>
      TickConserves(s, cpu, x);
    case YieldOn(cpu) =>
      YieldKeepsWellFormed(s.cpus[cpu]);
      YieldTasks(s.cpus[cpu], x);
      CpusUpdate(s.cpus, cpu, Yield(s.cpus[cpu]), x);
    case SleepOn(cpu, wait) =>
      SleepConserves(s, cpu, wait, x);
    case WakeAll(wait) =>
      WaitUpdate(s.waits, wait, [], x);
      AddAllTasks(s.(waits := s.waits[wait := []]), s.waits[wait], x);
    case WakeOne(wait) =>
      if s.waits[wait] != [] {
        var s' := s.(waits := s.waits[wait := s.waits[wait][1..]]);
        WaitUpdate(s.waits, wait, s.waits[wait][1..], x);
        AddKeepsOk(s', s.waits[wait][0].task, s.waits[wait][0].prio);
        AddTasks(s', s.waits[wait][0].task, s.waits[wait][0].prio, x);
      }
  }

  lemma {:induction false} BoostKeepsWellFormed<T>(c: Cpu<T>)
    requires WellFormed(c)
    ensures WellFormed(Boost(c))
  {
  }

  lemma {:induction false} BoostAllKeepsWellFormed<T>(cpus: seq<Cpu<T>>)
    requires forall i :: 0 <= i < |cpus| ==> WellFormed(cpus[i])
    ensures |BoostAll(cpus)| == |cpus| && forall i :: 0 <= i < |cpus| ==> WellFormed(BoostAll(cpus)[i])
  {
    forall i | 0 <= i < |cpus| ensures WellFormed(BoostAll(cpus)[i]) {
      BoostKeepsWellFormed(cpus[i]);
    }
  }

  lemma {:induction false} TickConserves<T>(s: Sys<T>, cpu: nat, x: T)
    requires SysOk(s) && cpu < |s.cpus|
    ensures SysOk(Tick(s, cpu)) && Tasks(Tick(s, cpu), x) == Tasks(s, x)
  {
    hide TickCpu, CpuTasks, CpusTasks, Boost;
    var c := TickCpu(s.cpus[cpu]).0;
    TickKeepsWellFormed(s.cpus[cpu]);
    BoostAllKeepsWellFormed(s.cpus[cpu := c]);
    TickTasks(s.cpus[cpu], x);
    CpusUpdate(s.cpus, cpu, c, x);
    BoostAllTasks(s.cpus[cpu := c], x);
  }

  lemma {:induction false} StartConserves<T>(s: Sys<T>, cpu: nat, x: T)
    requires SysOk(s) && cpu < |s.cpus| && CanStart(s, cpu)
    ensures SysOk(Start(s, cpu)) && Tasks(Start(s, cpu), x) == Tasks(s, x)
  {
    var c := s.cpus[cpu];
    DequeueKeepsWellFormed(c);
    DequeueTasks(c, x);
    CpusUpdate(s.cpus, cpu, Dispatch(c), x);
  }

  lemma {:induction false} SleepConserves<T>(s: Sys<T>, cpu: nat, w: nat, x: T)
    requires SysOk(s) && cpu < |s.cpus| && w < |s.waits| && CanSleep(s, cpu)
    ensures SysOk(Sleep(s, cpu, w)) && Tasks(Sleep(s, cpu, w), x) == Tasks(s, x)
  {
    var c := s.cpus[cpu];
    DequeueKeepsWellFormed(c);
    DequeueTasks(c, x);
    CpusUpdate(s.cpus, cpu, Dispatch(c), x);
    WaitUpdate(s.waits, w, [Sleeper(c.running.task, c.running.prio)] + s.waits[w], x);
  }

  lemma {:induction false} StepKeepsOk<T>(s: Sys<T>, e: Event<T>)
    requires SysOk(s) && Enabled(s, e)
    ensures SysOk(Step(s, e))
  {
    match e
    case AddTask(t, prio) => StepConserves(s, e, t);
    case StartOn(cpu) => DequeueKeepsWellFormed(s.cpus[cpu]);
    case TickOn(cpu) => if s.cpus[cpu].running.Running? { StepConserves(s, e, s.cpus[cpu].running.task); }
    case YieldOn(cpu) => YieldKeepsWellFormed(s.cpus[cpu]);
    case SleepOn(cpu, wait) => StepConserves(s, e, s.cpus[cpu].running.task);
    case WakeAll(wait) => if s.waits[wait] != [] { StepConserves(s, e, s.waits[wait][0].task); }
    case WakeOne(wait) => if s.waits[wait] != [] { StepConserves(s, e, s.waits[wait][0].task); }
  }

  /** Every event of the run is enabled when its turn comes. */
  ghost predicate IsRun<T>(s: Sys<T>, events: seq<Event<T>>)
    requires SysOk(s)
    decreases |events|
  {
    events == [] || (Enabled(s, events[0]) && (StepKeepsOk(s, events[0]); IsRun(Step(s, events[0]), events[1..])))
  }

  ghost function Run<T>(s: Sys<T>, events: seq<Event<T>>): (r: Sys<T>)
    requires SysOk(s) && IsRun(s, events)
    decreases |events|
  {
    if events == [] then s
    else
      StepKeepsOk(s, events[0]);
      Run(Step(s, events[0]), events[1..])
  }

  function Added<T(==)>(events: seq<Event<T>>, x: T): (r: nat) {
    if events == [] then 0 else Adds(events[0], x) + Added(events[1..], x)
  }

  /** Conservation over every run: a task is in as many places as before, plus the times it was added.
      So a task added once to a machine that does not know it is in exactly one place ever after. */
  lemma {:induction false} RunConserves<T>(s: Sys<T>, events: seq<Event<T>>, x: T)
    requires SysOk(s) && IsRun(s, events)
    ensures SysOk(Run(s, events)) && Tasks(Run(s, events), x) == Tasks(s, x) + Added(events, x)
    decreases |events|
  {
    if events != [] {
      StepConserves(s, events[0], x);
      RunConserves(Step(s, events[0]), events[1..], x);
    }
  }

  // ---- the initial machine

  function EmptyCpu<T>(): (c: Cpu<T>) {
    Cpu(seq(LEVELS, _ => []), seq(LEVELS, _ => false), Nobody, 0)
  }

  /** The machine after scheduler_init: nothing is queued, runs or sleeps. */
  function Initial<T>(cpus: nat, waits: nat): (s: Sys<T>) {
    Sys(seq(cpus, _ => EmptyCpu()), seq(waits, _ => []))
  }

  lemma {:induction false} InitialOk<T>(cpus: nat, waits: nat)
    requires cpus > 0
    ensures SysOk<T>(Initial(cpus, waits))
  {
  }

  lemma {:induction false} NothingQueued<T>(queues: seq<seq<T>>, x: T)
    requires forall q :: 0 <= q < |queues| ==> queues[q] == []
    ensures QueuedTasks(queues, x) == 0
  {
    if queues != [] {
      NothingQueued(queues[1..], x);
    }
  }

  lemma {:induction false} NothingOnCpus<T>(cpus: seq<Cpu<T>>, x: T)
    requires forall i :: 0 <= i < |cpus| ==> cpus[i] == EmptyCpu()
    ensures CpusTasks(cpus, x) == 0
  {
    if cpus != [] {
      NothingQueued(cpus[0].queues, x);
      NothingOnCpus(cpus[1..], x);
    }
  }

  lemma {:induction false} NothingAsleep<T>(waits: seq<seq<Sleeper<T>>>, x: T)
    requires forall w :: 0 <= w < |waits| ==> waits[w] == []
    ensures WaitTasks(waits, x) == 0
  {
    if waits != [] {
      NothingAsleep(waits[1..], x);
    }
  }

  /** From the initial machine a task is in exactly as many places as it was added: one added once is never
      lost and never in two places. */
  lemma {:induction false} RunFromInitial<T>(cpus: nat, waits: nat, events: seq<Event<T>>, x: T)
    requires cpus > 0 && SysOk<T>(Initial(cpus, waits)) && IsRun(Initial(cpus, waits), events)
    ensures Tasks(Run(Initial(cpus, waits), events), x) == Added(events, x)
  {
    var s: Sys<T> := Initial(cpus, waits);
    NothingOnCpus(s.cpus, x);
    NothingAsleep(s.waits, x);
    RunConserves(s, events, x);
  }

  // ---- bounded waiting on one CPU driven by ticks alone

  /** One tick of a single-CPU machine. */
  function TickOne<T(==)>(c: Cpu<T>): (r: Cpu<T>)
    requires WellFormed(c)
  {
    TickKeepsWellFormed(c);
    var (c', boost) := TickCpu(c);
    if boost then Boost(c') else c'
  }

  lemma {:induction false} TickOneIsTick<T>(c: Cpu<T>)
    requires WellFormed(c)
    ensures Tick(Sys([c], []), 0) == Sys([TickOne(c)], []) && WellFormed(TickOne(c))
  {
    TickKeepsWellFormed(c);
    var (c', boost) := TickCpu(c);
    BoostKeepsWellFormed(c');
    assert [c][0 := c'] == [c'];
    assert BoostAll([c']) == [Boost(c')];
  }

  function Ticks<T(==)>(c: Cpu<T>, n: nat): (c': Cpu<T>)
    requires WellFormed(c)
    ensures WellFormed(c')
    decreases n
  {
    if n == 0 then c
    else
      TickOneIsTick(c);
      Ticks(TickOne(c), n - 1)
  }

  /** The ticks of a turn, level by level. */
  function Turn(level: nat): (n: nat)
    ensures n == if level == 0 then 4294967295 else if level == 1 then 4 else if level == 2 then 8
                 else if level == 3 then 16 else 32
  {
    Quantum(level)
  }

  /** A task runs that is not above level `l`, and nothing above that level waits. */
  ghost predicate LevelOnly<T>(c: Cpu<T>, l: nat) {
    && WellFormed(c) && c.running.Running? && REALTIME < l < LEVELS && c.running.prio >= l
    && forall q :: 0 <= q < l ==> c.queues[q] == []
  }

  /** Ticks until the task at index `k` of the queue of level `l` runs: the rest of the current slice, then a
      full turn for each task before it. */
  function Wait<T>(c: Cpu<T>, l: nat, k: nat): (r: nat)
    requires c.running.Running?
    ensures r > 0
  {
    (if c.running.slice > 1 then c.running.slice else 1) + Turn(l) * k
  }

  /** A boost empties the LOW queue; so for that queue none may fall into the wait. */
  predicate Undisturbed<T>(c: Cpu<T>, l: nat, ticks: nat) {
    l == LOW ==> c.ticks + ticks <= 200
  }

  lemma {:induction false} FirstAt<T>(queues: seq<seq<T>>, l: nat, q: nat)
    requires |queues| == LEVELS && q <= l < LEVELS && queues[l] != []
    requires forall j :: 0 <= j < l ==> queues[j] == []
    ensures FirstNonEmpty(queues, q) == l
    decreases l - q
  {
    if q < l {
      FirstAt(queues, l, q + 1);
    }
  }

  /** Who is dispatched: the first task of the lowest-numbered level that has one, with a full turn. */
  lemma {:induction false} DispatchRuns<T>(c: Cpu<T>, l: nat)
    requires |c.queues| == LEVELS && |c.bits| == LEVELS && l < LEVELS && c.queues[l] != []
    requires forall j :: 0 <= j < l ==> c.queues[j] == []
    ensures Best(c) < LEVELS
    ensures Dispatch(c).running == Running(c.queues[l][0], l, Turn(l))
    ensures Dispatch(c).queues == c.queues[l := c.queues[l][1..]] && Dispatch(c).ticks == c.ticks
  {
    FirstAt(c.queues, l, 0);
  }

  /** Who runs after a yield, at every level: `l` is the best level once the running task is back in its queue.
      Its first task gets a full turn, and the one that yielded waits at the end of its own queue. */
  lemma {:induction false} YieldRuns<T>(c: Cpu<T>, l: nat)
    requires WellFormed(c) && c.running.Running? && l <= c.running.prio
    requires (forall j :: 0 <= j < l ==> c.queues[j] == []) && (l < c.running.prio ==> c.queues[l] != [])
    ensures var r := c.running;
            var queues := c.queues[r.prio := c.queues[r.prio] + [r.task]];
            && queues[l] != []
            && Yield(c).running == Running(queues[l][0], l, Turn(l))
            && Yield(c).queues == queues[l := queues[l][1..]]
            && Yield(c).ticks == c.ticks
  {
    DispatchRuns(Enqueue(c, c.running.task, c.running.prio), l);
  }

  /** A REALTIME task keeps its CPU over any number of ticks, and no boost happens. */
  lemma {:induction false} RealtimeKeepsCpu<T>(c: Cpu<T>, n: nat)
    requires WellFormed(c) && c.running.Running? && c.running.prio == REALTIME
    ensures Ticks(c, n) == c.(ticks := c.ticks + n)
    decreases n
  {
    if n > 0 {
      TickOneIsTick(c);
      RealtimeKeepsCpu(TickOne(c), n - 1);
    }
  }

  /** A tick inside a turn: the slice shrinks, and when 200 ticks have passed the LOW tasks move behind the
      NORMAL ones, in their order. */
  lemma {:induction false} TickInTurn<T>(c: Cpu<T>)
    requires WellFormed(c) && c.running.Running? && c.running.prio != REALTIME && c.running.slice > 1
    ensures TickOne(c).running == Running(c.running.task, c.running.prio, c.running.slice - 1)
    ensures c.ticks < 199 ==> TickOne(c).queues == c.queues && TickOne(c).ticks == c.ticks + 1
    ensures c.ticks >= 199 ==>
              TickOne(c).ticks == 0 &&
              TickOne(c).queues == c.queues[NORMAL := c.queues[NORMAL] + c.queues[LOW]][LOW := []]
  {
  }

  /** A tick that ends a turn: the best task gets the CPU.  A boost that is due waits for a tick at which nobody
      else takes over. */
  lemma {:induction false} TickAtTurnEnd<T>(c: Cpu<T>)
    requires WellFormed(c) && c.running.Running? && c.running.prio != REALTIME && c.running.slice <= 1
    ensures Yield(c).running.Running?
    ensures Yield(c).running.task != c.running.task || c.ticks < 199 ==>
              TickOne(c) == Yield(c).(ticks := c.ticks + 1)
    ensures Yield(c).running.task == c.running.task && c.ticks >= 199 ==>
              var queues := Yield(c).queues;
              && |queues| == 5 && TickOne(c).running == Yield(c).running && TickOne(c).ticks == 0
              && TickOne(c).queues == queues[2 := queues[2] + queues[3]][3 := []]
  {
    YieldKeepsWellFormed(c);
  }

  /** A boost reaches every CPU. */
  lemma {:induction false} BoostReachesAll<T>(s: Sys<T>, cpu: nat, i: nat)
    requires SysOk(s) && cpu < |s.cpus| && i < |s.cpus| && i != cpu
    requires s.cpus[cpu].running.Running? && s.cpus[cpu].running.prio != REALTIME
    ensures |Tick(s, cpu).cpus| == |s.cpus|
    ensures var r := s.cpus[cpu].running;
            var next := if r.slice > 1 then r.task else Yield(s.cpus[cpu]).running.task;
            var c, c' := s.cpus[i], Tick(s, cpu).cpus[i];
            if s.cpus[cpu].ticks < 199 || next != r.task then c' == c
            else c'.queues == c.queues[NORMAL := c.queues[NORMAL] + c.queues[LOW]][LOW := []] && c'.running == c.running
                 && c'.ticks == c.ticks
  {
  }

  /** At the end of a turn the first task of the queue gets the CPU. */
  lemma {:induction false} TurnEnds<T>(c: Cpu<T>, l: nat)
    requires LevelOnly(c, l) && c.queues[l] != [] && c.running.slice <= 1
    ensures TickOne(c).running == Running(c.queues[l][0], l, Turn(l))
    ensures l != LOW || c.ticks < 199 ==>
              LevelOnly(TickOne(c), l) && c.queues[l][1..] <= TickOne(c).queues[l] && TickOne(c).ticks <= c.ticks + 1
  {
    hide Yield, Quantum;
    TickOneIsTick(c);
    YieldKeepsWellFormed(c);
    YieldRuns(c, l);
  }

  /** One tick brings the task at index `k` one tick nearer, or runs it when its wait is one. */
  lemma {:induction false} OneTickNearer<T>(c: Cpu<T>, l: nat, k: nat)
    requires LevelOnly(c, l) && k < |c.queues[l]| && Undisturbed(c, l, Wait(c, l, k))
    ensures Wait(c, l, k) > 1 ==> LevelOnly(TickOne(c), l)
    ensures Wait(c, l, k) == 1 ==> TickOne(c).running.Running? && TickOne(c).running.task == c.queues[l][k]
    ensures Wait(c, l, k) > 1 ==>
              exists j: nat :: j < |TickOne(c).queues[l]| && TickOne(c).queues[l][j] == c.queues[l][k]
                               && Wait(TickOne(c), l, j) == Wait(c, l, k) - 1
                               && Undisturbed(TickOne(c), l, Wait(TickOne(c), l, j))
  {
    hide Yield, Boost, Quantum;
    TickOneIsTick(c);
    var c' := TickOne(c);
    if c.running.slice > 1 {
      TickInTurn(c);
      assert c'.queues[l][k] == c.queues[l][k];
      assert Wait(c', l, k) == Wait(c, l, k) - 1;
    } else {
      TurnEnds(c, l);
      if k > 0 {
        assert Turn(l) * k == Turn(l) * (k - 1) + Turn(l);
        assert c.queues[l][1..][k - 1] == c.queues[l][k];
        assert c'.queues[l][k - 1] == c.queues[l][k];
        assert Wait(c', l, k - 1) == Wait(c, l, k) - 1;
      }
    }
  }

  /** Bounded wait, at every level below REALTIME: the task at index `k` of the queue runs after exactly
      `Wait(c, l, k)` ticks, and waits in that queue at every tick before that.  For the LOW queue this is said of
      waits that end before the next boost; for the others it holds across boosts. */
  lemma {:induction false} WaitsExactly<T>(c: Cpu<T>, l: nat, k: nat)
    requires LevelOnly(c, l) && k < |c.queues[l]| && Undisturbed(c, l, Wait(c, l, k))
    ensures Ticks(c, Wait(c, l, k)).running.Running? && Ticks(c, Wait(c, l, k)).running.task == c.queues[l][k]
    ensures forall n: nat :: n < Wait(c, l, k) ==> c.queues[l][k] in Ticks(c, n).queues[l]
    decreases Wait(c, l, k)
  {
    hide TickOne, Wait, Undisturbed;
    var t := c.queues[l][k];
    OneTickNearer(c, l, k);
    TickOneIsTick(c);
    if Wait(c, l, k) == 1 {
      assert Ticks(c, 1) == Ticks(TickOne(c), 0);
    } else {
      var c' := TickOne(c);
      var j: nat :| j < |c'.queues[l]| && c'.queues[l][j] == t && Wait(c', l, j) == Wait(c, l, k) - 1
                    && Undisturbed(c', l, Wait(c', l, j));
      WaitsExactly(c', l, j);
      assert Ticks(c, Wait(c, l, k)) == Ticks(c', Wait(c', l, j));
      forall n: nat | n < Wait(c, l, k) ensures t in Ticks(c, n).queues[l] {
        if n > 0 {
          assert Ticks(c, n) == Ticks(c', n - 1);
        }
      }
    }
  }

  /** The rest of the running slice, at least one tick. */
  function Rest<T>(c: Cpu<T>): (n: nat)
    requires c.running.Running?
  {
    if c.running.slice > 1 then c.running.slice else 1
  }

  /** In numbers: with no REALTIME task about, the task at index `k` of the HIGH queue runs after the rest of the
      slice and four ticks for each task before it. */
  lemma {:induction false} HighWaitsExactly<T>(c: Cpu<T>, k: nat)
    requires LevelOnly(c, 1) && k < |c.queues[1]|
    ensures Ticks(c, Rest(c) + 4 * k).running.Running? && Ticks(c, Rest(c) + 4 * k).running.task == c.queues[1][k]
    ensures forall n: nat :: n < Rest(c) + 4 * k ==> c.queues[1][k] in Ticks(c, n).queues[1]
  {
    WaitsExactly(c, 1, k);
  }

  /** With nothing above it, the task at index `k` of the NORMAL queue: eight ticks for each, whatever boosts come. */
  lemma {:induction false} NormalWaitsExactly<T>(c: Cpu<T>, k: nat)
    requires LevelOnly(c, 2) && k < |c.queues[2]|
    ensures Ticks(c, Rest(c) + 8 * k).running.Running? && Ticks(c, Rest(c) + 8 * k).running.task == c.queues[2][k]
    ensures forall n: nat :: n < Rest(c) + 8 * k ==> c.queues[2][k] in Ticks(c, n).queues[2]
  {
    WaitsExactly(c, 2, k);
  }

  /** The LOW queue, until the boost: sixteen. */
  lemma {:induction false} LowWaitsExactly<T>(c: Cpu<T>, k: nat)
    requires LevelOnly(c, 3) && k < |c.queues[3]| && c.ticks + Rest(c) + 16 * k <= 200
    ensures Ticks(c, Rest(c) + 16 * k).running.Running? && Ticks(c, Rest(c) + 16 * k).running.task == c.queues[3][k]
    ensures forall n: nat :: n < Rest(c) + 16 * k ==> c.queues[3][k] in Ticks(c, n).queues[3]
  {
    WaitsExactly(c, 3, k);
  }

  /** The IDLE queue, when nothing else waits: thirty-two. */
  lemma {:induction false} IdleWaitsExactly<T>(c: Cpu<T>, k: nat)
    requires LevelOnly(c, 4) && k < |c.queues[4]|
    ensures Ticks(c, Rest(c) + 32 * k).running.Running? && Ticks(c, Rest(c) + 32 * k).running.task == c.queues[4][k]
    ensures forall n: nat :: n < Rest(c) + 32 * k ==> c.queues[4][k] in Ticks(c, n).queues[4]
  {
    WaitsExactly(c, 4, k);
  }

  /** A task that yields is back at once when it is alone in its level and nothing is above it, and otherwise after
      exactly one turn for each task queued before it: 4, 8, 16 or 32 ticks. */
  lemma {:induction false} YieldReturns<T>(c: Cpu<T>, l: nat)
    requires LevelOnly(c, l) && c.running.prio == l
    requires Undisturbed(c, l, Turn(l) * |c.queues[l]|)
    ensures var c' := Yield(c);
            var n := (if l == 1 then 4 else if l == 2 then 8 else if l == 3 then 16 else 32) * |c.queues[l]|;
            && WellFormed(c')
            && Ticks(c', n).running.Running? && Ticks(c', n).running.task == c.running.task
            && forall m: nat :: m < n ==> c.running.task in Ticks(c', m).queues[l]
  {
    hide Yield, TickOne, Quantum;
    YieldKeepsWellFormed(c);
    var c', q := Yield(c), c.queues[l];
    YieldRuns(c, l);
    if q == [] {
      assert Ticks(c', 0) == c';
    } else {
      assert c'.queues[l] == q[1..] + [c.running.task];
      assert Turn(l) * |q| == Turn(l) + Turn(l) * (|q| - 1);
      WaitsExactly(c', l, |q| - 1);
    }
  }

  // ---- adding, sleeping and waking

  /** A task added to a machine of one CPU goes behind those of its level, and runs after all of them. */
  lemma {:induction false} AddedRunsLast<T>(c: Cpu<T>, waits: seq<seq<Sleeper<T>>>, t: T, l: nat)
    requires SysOk(Sys([c], waits)) && LevelOnly(c, l) && Undisturbed(c, l, Wait(c, l, |c.queues[l]|))
    ensures var c' := Add(Sys([c], waits), t, l).cpus[0];
            && c'.queues == c.queues[l := c.queues[l] + [t]] && c'.running == c.running
            && WellFormed(c') && Ticks(c', Wait(c, l, |c.queues[l]|)).running.Running?
            && Ticks(c', Wait(c, l, |c.queues[l]|)).running.task == t
  {
    hide TickOne;
    AddKeepsOk(Sys([c], waits), t, l);
    WaitsExactly(Add(Sys([c], waits), t, l).cpus[0], l, |c.queues[l]|);
  }

  /** How many of the five levels are marked occupied. */
  lemma {:induction false} LoadCounts(bits: seq<bool>)
    requires |bits| == 5
    ensures Load(bits) == (if bits[0] then 1 else 0) + (if bits[1] then 1 else 0) + (if bits[2] then 1 else 0)
                          + (if bits[3] then 1 else 0) + (if bits[4] then 1 else 0)
  {
    var b1, b2, b3 := bits[1..], bits[2..], bits[3..];
    assert b1[1..] == b2 && b2[1..] == b3 && b3[1..] == [bits[4]];
    assert Load([bits[4]]) == (if bits[4] then 1 else 0) + Load([]);
    assert Load(b3) == (if bits[3] then 1 else 0) + Load([bits[4]]);
    assert Load(b2) == (if bits[2] then 1 else 0) + Load(b3);
    assert Load(b1) == (if bits[1] then 1 else 0) + Load(b2);
  }

  /** Where a task added goes, on any machine: to the back of its level on the first of the CPUs with the fewest
      levels marked occupied.  No other CPU changes, and nobody stops running. */
  lemma {:induction false} AddPlaces<T>(s: Sys<T>, t: T, l: nat) returns (i: nat)
    requires SysOk(s) && l < LEVELS
    ensures i < |s.cpus| && |s.cpus[i].queues| == |s.cpus[i].bits| == LEVELS
    ensures forall j :: 0 <= j < |s.cpus| ==> Load(s.cpus[i].bits) <= Load(s.cpus[j].bits)
    ensures forall j :: 0 <= j < i ==> Load(s.cpus[i].bits) < Load(s.cpus[j].bits)
    ensures var c := s.cpus[i];
            var c' := c.(queues := c.queues[l := c.queues[l] + [t]], bits := c.bits[l := true]);
            Add(s, t, l) == s.(cpus := s.cpus[i := c'])
  {
    hide Load;
    i := LeastLoaded(s.cpus, |s.cpus|);
    assert WellFormed(s.cpus[i]);
  }

  /** A CPU that starts runs the first task of its best level, with a full turn. */
  lemma {:induction false} StartRuns<T>(s: Sys<T>, cpu: nat, l: nat)
    requires SysOk(s) && cpu < |s.cpus| && s.cpus[cpu].running.Nobody?
    requires l < LEVELS && s.cpus[cpu].queues[l] != [] && forall j :: 0 <= j < l ==> s.cpus[cpu].queues[j] == []
    ensures CanStart(s, cpu)
    ensures var c, s' := s.cpus[cpu], Start(s, cpu);
            && s'.cpus[cpu].running == Running(c.queues[l][0], l, Turn(l))
            && s'.cpus[cpu].queues == c.queues[l := c.queues[l][1..]]
            && s'.waits == s.waits && s' == s.(cpus := s.cpus[cpu := s'.cpus[cpu]])
  {
    DispatchRuns(s.cpus[cpu], l);
  }

  /** A task that goes to sleep is the first on the wait list, and the best queued task gets a full turn. */
  lemma {:induction false} SleepRuns<T>(s: Sys<T>, cpu: nat, w: nat, l: nat)
    requires SysOk(s) && cpu < |s.cpus| && w < |s.waits| && s.cpus[cpu].running.Running?
    requires l < LEVELS && s.cpus[cpu].queues[l] != [] && forall j :: 0 <= j < l ==> s.cpus[cpu].queues[j] == []
    ensures CanSleep(s, cpu)
    ensures var c, s' := s.cpus[cpu], Sleep(s, cpu, w);
            && s'.cpus[cpu].running == Running(c.queues[l][0], l, Turn(l))
            && s'.cpus[cpu].queues == c.queues[l := c.queues[l][1..]]
            && s'.waits == s.waits[w := [Sleeper(c.running.task, c.running.prio)] + s.waits[w]]
  {
    DispatchRuns(s.cpus[cpu], l);
  }

  /** The last to go to sleep is the first to be woken. */
  lemma {:induction false} LastSleeperFirst<T>(s: Sys<T>, cpu: nat, w: nat)
    requires SysOk(s) && cpu < |s.cpus| && w < |s.waits| && CanSleep(s, cpu)
    ensures SysOk(Sleep(s, cpu, w)) && SysOk(Sleep(s, cpu, w).(waits := s.waits))
    ensures var r := s.cpus[cpu].running;
            WakeupOne(Sleep(s, cpu, w), w) == Add(Sleep(s, cpu, w).(waits := s.waits), r.task, r.prio)
  {
    SleepConserves(s, cpu, w, s.cpus[cpu].running.task);
    var r, l := s.cpus[cpu].running, s.waits[w];
    assert ([Sleeper(r.task, r.prio)] + l)[1..] == l;
    assert s.waits[w := [Sleeper(r.task, r.prio)] + l][w := l] == s.waits;
  }

  /** The sleepers of level `q`, in list order. */
  function AtLevel<T>(l: seq<Sleeper<T>>, q: nat): (r: seq<T>) {
    if l == [] then [] else (if l[0].prio == q then [l[0].task] else []) + AtLevel(l[1..], q)
  }

  lemma {:induction false} AddOnOne<T>(c: Cpu<T>, waits: seq<seq<Sleeper<T>>>, t: T, p: nat,
                                       q: nat) returns (c': Cpu<T>)
    requires SysOk(Sys([c], waits)) && p < LEVELS && q < LEVELS
    ensures Add(Sys([c], waits), t, p) == Sys([c'], waits) && SysOk(Sys([c'], waits))
    ensures |c.queues| == LEVELS == |c'.queues| && c'.running == c.running
    ensures c'.queues[q] == c.queues[q] + if q == p then [t] else []
  {
    AddKeepsOk(Sys([c], waits), t, p);
    c' := Add(Sys([c], waits), t, p).cpus[0];
    assert WellFormed(Sys([c], waits).cpus[0]);
  }

  lemma {:induction false} AddAllFirst<T>(s: Sys<T>, l: seq<Sleeper<T>>)
    requires SysOk(s) && l != [] && forall k :: 0 <= k < |l| ==> l[k].prio < LEVELS
    ensures SysOk(Add(s, l[0].task, l[0].prio)) && AddAll(s, l) == AddAll(Add(s, l[0].task, l[0].prio), l[1..])
  {
    AddKeepsOk(s, l[0].task, l[0].prio);
  }

  lemma {:induction false} AtLevelFirst<T>(s: seq<T>, l: seq<Sleeper<T>>, q: nat)
    requires l != []
    ensures s + (if q == l[0].prio then [l[0].task] else []) + AtLevel(l[1..], q) == s + AtLevel(l, q)
  {
  }

  /** Waking a whole list on a machine of one CPU: every sleeper goes to the end of its level, in list order. */
  lemma {:induction false} WakeAllQueues<T>(c: Cpu<T>, waits: seq<seq<Sleeper<T>>>, l: seq<Sleeper<T>>, q: nat)
    requires SysOk(Sys([c], waits)) && (forall k :: 0 <= k < |l| ==> l[k].prio < LEVELS) && q < LEVELS
    requires |c.queues| == LEVELS
    ensures var s' := AddAll(Sys([c], waits), l);
            && |s'.cpus| == 1 && s'.waits == waits && |s'.cpus[0].queues| == LEVELS
            && s'.cpus[0].queues[q] == c.queues[q] + AtLevel(l, q)
            && s'.cpus[0].running == c.running
    decreases |l|
  {
    if l != [] {
      hide Add, SysOk, AtLevel, AddAll;
      AddAllFirst(Sys([c], waits), l);
      var c' := AddOnOne(c, waits, l[0].task, l[0].prio, q);
      WakeAllQueues(c', waits, l[1..], q);
      AtLevelFirst(c.queues[q], l, q);
    }
  }

  /** scheduler_wakeup empties the wait list. */
  lemma {:induction false} WakeupEmpties<T>(c: Cpu<T>, waits: seq<seq<Sleeper<T>>>, w: nat, q: nat)
    requires SysOk(Sys([c], waits)) && w < |waits| && q < LEVELS
    ensures var s' := Wakeup(Sys([c], waits), w);
            && |s'.cpus| == 1 && s'.waits == waits[w := []] && |s'.cpus[0].queues| == LEVELS
            && s'.cpus[0].queues[q] == c.queues[q] + AtLevel(waits[w], q)
  {
    assert WellFormed(Sys([c], waits).cpus[0]);
    WakeAllQueues(c, waits[w := []], waits[w], q);
  }

  /** No REALTIME task runs or waits. */
  ghost predicate NoRealtime<T>(c: Cpu<T>) {
    WellFormed(c) && c.running.Running? && c.running.prio != REALTIME && c.queues[REALTIME] == []
  }

  /** Ticks until the next boost at the latest. */
  function BoostBound<T>(c: Cpu<T>): (r: nat)
    requires c.running.Running?
  {
    if c.ticks < BOOST_INTERVAL - 1 then BOOST_INTERVAL + 1 - c.ticks
    else if c.running.slice > 1 then 1 else 2
  }

  ghost predicate Promoted<T>(c: Cpu<T>, t: T) {
    |c.queues| == LEVELS && (t in c.queues[NORMAL] || (c.running.Running? && c.running.task == t))
  }

  lemma {:induction false} BoostNearer<T>(c: Cpu<T>, t: T)
    requires NoRealtime(c) && t in c.queues[LOW]
    ensures NoRealtime(TickOne(c))
    ensures Promoted(TickOne(c), t) || (t in TickOne(c).queues[LOW] && BoostBound(TickOne(c)) < BoostBound(c))
    ensures BoostBound(c) == 1 ==> Promoted(TickOne(c), t)
  {
    TickOneIsTick(c);
    var r := c.running;
    if r.slice > 1 {
      LowToNormal(c, t);
    } else {
      var e := Enqueue(c, r.task, r.prio);
      BestAfterEnqueue(c, r.task, r.prio);
      assert Best(e) != REALTIME;
      assert t in e.queues[LOW];
      var y := Dispatch(e);
      assert t in y.queues[LOW] || y.running.task == t by {
        if Best(e) == LOW {
          var i :| 0 <= i < |e.queues[LOW]| && e.queues[LOW][i] == t;
          if i > 0 { assert y.queues[LOW][i - 1] == t; }
        }
      }
    }
  }

  lemma {:induction false} LowToNormal<T>(c: Cpu<T>, t: T)
    requires WellFormed(c) && t in c.queues[LOW]
    ensures t in Boost(c).queues[NORMAL]
  {
  }

  /** A queued LOW task has run or been moved to the NORMAL queue within 201 ticks. */
  lemma {:induction false} LowIsPromoted<T>(c: Cpu<T>, t: T) returns (n: nat)
    requires NoRealtime(c) && t in c.queues[LOW]
    ensures 1 <= n <= BoostBound(c) <= 201 && Promoted(Ticks(c, n), t)
    decreases BoostBound(c)
  {
    BoostNearer(c, t);
    if Promoted(TickOne(c), t) {
      assert Ticks(c, 1) == Ticks(TickOne(c), 0);
      return 1;
    }
    var m := LowIsPromoted(TickOne(c), t);
    assert Ticks(c, m + 1) == Ticks(TickOne(c), m);
    return m + 1;
  }
}
