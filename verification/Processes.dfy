/** The process table and the PID bitmap of process.c, which are searched independently. */
module Processes {
  import opened Arith
  import HeapSpec
  import opened Words

  const MAX_PROCESSES: nat := 1024
  const NOMEM: int := -2
  const INVAL: int := -3

  datatype State = Unused | Ready | Running | Sleeping | Stopped | Zombie | Dead

  /** The fields of struct process that creation, cleanup and lookup use. */
  datatype Process = Process(pid: int, state: State, stackBase: int, pgd: nat)

  function Bit(words: seq<Word>, p: nat): (r: bool)
    requires p / 64 < |words|
  {
    words[p / 64][p % 64]
  }

  /** Writing one bit leaves the others alone. */
  lemma {:induction false} WriteBit(words: seq<Word>, p: nat, v: bool)
    requires p / 64 < |words|
    ensures var after := words[p / 64 := words[p / 64][p % 64 := v]];
            forall q: nat :: q / 64 < |words| ==> Bit(after, q) == if q == p then v else Bit(words, q)
  {
    forall q: nat | q / 64 < |words| && q != p ensures q / 64 != p / 64 || q % 64 != p % 64 {
    }
  }

  /** The first word that is not all ones holds the lowest clear bit. */
  lemma {:induction false} LowestClear(words: seq<Word>, i: nat)
    requires i <= |words| && forall w :: 0 <= w < i ==> words[w] == ALL_ONES
    ensures forall q: nat :: q < i * 64 ==> Bit(words, q)
    ensures i < |words| && words[i] != ALL_ONES ==>
              var p := i * 64 + CtzNot(words[i]);
              p / 64 == i && !Bit(words, p) && forall q: nat :: q < p ==> Bit(words, q)
  {
    if i < |words| && words[i] != ALL_ONES {
      var c := CtzNot(words[i]);
      forall q: nat | q < i * 64 + c ensures Bit(words, q) {
        if q / 64 == i { assert q % 64 < c; }
      }
    }
  }

  /** How many of the first `n` slots hold a process that has not exited. */
  function Alive(table: seq<Process>, n: nat): (r: nat)
    requires n <= |table|
  {
    if n == 0 then 0
    else Alive(table, n - 1) + if Counted(table[n - 1]) then 1 else 0
  }

  predicate Counted(p: Process) {
    p.state != Unused && p.state != Zombie
  }

  lemma {:induction false} AliveUpdate(table: seq<Process>, i: nat, p: Process, n: nat)
    requires i < |table| && n <= |table|
    ensures Alive(table[i := p], n) ==
            Alive(table, n) + if i >= n || Counted(p) == Counted(table[i]) then 0 else if Counted(p) then 1 else -1
  {
    if n > 0 {
      AliveUpdate(table, i, p, n - 1);
    }
  }

  /** Slot `i` is in use exactly when PID `i + 1` is taken, and holds that PID.  PID 0 is reserved, so the
      last slot has no PID left and stays unused. */
  ghost predicate Lockstep(table: seq<Process>, words: seq<Word>) {
    && |table| == MAX_PROCESSES && |words| == MAX_PROCESSES / 64
    && Bit(words, 0)
    && table[MAX_PROCESSES - 1].state == Unused
    && forall i: nat {:trigger table[i]} :: i < MAX_PROCESSES - 1 ==>
         && (table[i].state != Unused <==> Bit(words, i + 1))
         && (table[i].state != Unused ==> table[i].pid == i + 1)
  }

  /** No two processes share a PID. */
  lemma {:induction false} PidsUnique(table: seq<Process>, words: seq<Word>, i: nat, j: nat)
    requires Lockstep(table, words) && i < MAX_PROCESSES && j < MAX_PROCESSES
    requires table[i].state != Unused && table[j].state != Unused
    ensures table[i].pid == table[j].pid <==> i == j
    ensures 0 < table[i].pid < MAX_PROCESSES
  {
    assert i != MAX_PROCESSES - 1 && j != MAX_PROCESSES - 1;
  }

  /** The two first-fit searches meet: the first unused slot is one below the first free PID. */
  lemma {:induction false} SearchesMeet(table: seq<Process>, words: seq<Word>, slot: nat, pid: nat)
    requires Lockstep(table, words) && slot < MAX_PROCESSES
    requires table[slot].state == Unused && forall i :: 0 <= i < slot ==> table[i].state != Unused
    requires pid <= MAX_PROCESSES && (pid < MAX_PROCESSES ==> !Bit(words, pid)) && forall q: nat :: q < pid ==> Bit(words, q)
    ensures pid == slot + 1
  {
    forall q: nat | q <= slot ensures Bit(words, q) {
      assert q == 0 || table[q - 1].state != Unused;
    }
    assert slot < MAX_PROCESSES - 1 ==> !Bit(words, slot + 1);
  }

  /** Creating and removing a process on both sides keeps them in step. */
  lemma {:induction false} LockstepWrite(table: seq<Process>, words: seq<Word>, i: nat, p: Process)
    requires Lockstep(table, words) && i < MAX_PROCESSES - 1
    requires p.state != Unused ==> p.pid == i + 1
    ensures Lockstep(table[i := p], words[(i + 1) / 64 := words[(i + 1) / 64][(i + 1) % 64 := p.state != Unused]])
  {
    WriteBit(words, i + 1, p.state != Unused);
    var words' := words[(i + 1) / 64 := words[(i + 1) / 64][(i + 1) % 64 := p.state != Unused]];
    var table' := table[i := p];
    forall k: nat | k < MAX_PROCESSES - 1
      ensures table'[k].state != Unused <==> Bit(words', k + 1)
      ensures table'[k].state != Unused ==> table'[k].pid == k + 1
    {
      if k != i { assert table'[k] == table[k]; }
    }
  }

  /** The stack is recorded by its top, aligned down to 16 bytes, less its size. */
  function StackBase(stack: nat, size: nat): (r: int) {
    (stack + size) / 16 * 16 - size
  }

  /** That is the pointer kmalloc returned, which cleanup must hand to kfree, only when the top was aligned. */
  lemma {:induction false} StackBaseIsPointer(stack: nat, size: nat)
    ensures StackBase(stack, size) == stack <==> (stack + size) % 16 == 0
  {
  }

  /** So for a stack of a multiple of 16 bytes it is that pointer if the header of the stack's block is at 8
      modulo 16, and 8 bytes too low otherwise. */
  lemma {:induction false} StackBaseOfBlock(b: HeapSpec.Block, size: nat)
    requires b.addr % 8 == 0 && size % 16 == 0
    ensures var ptr := b.addr + HeapSpec.HEADER;
            StackBase(ptr, size) == if b.addr % 16 == 8 then ptr else ptr - 8
  {
    AddSixteens(b.addr + HeapSpec.HEADER, size / 16);
    DownToSixteen(b.addr + HeapSpec.HEADER);
  }

  lemma {:induction false} DownToSixteen(x: nat)
    requires x % 8 == 0
    ensures x / 16 * 16 == if x % 16 == 0 then x else x - 8
  {
  }

  lemma {:induction false} AddSixteens(x: nat, k: nat)
    ensures (x + 16 * k) / 16 == x / 16 + k
  {
  }

  /** A base recorded too low is the payload of no block of the heap.  What kfree reads there as magic number is
      the upper half of the size of the stack's block, so cleanup frees nothing. */
  lemma {:induction false} StackNotFreed(bs: seq<HeapSpec.Block>, arenas: seq<HeapSpec.Arena>, j: nat, size: nat)
    requires HeapSpec.ArenasOk(arenas) && HeapSpec.Tiles(bs, arenas) && HeapSpec.Aligned8(bs)
    requires j < |bs| && bs[j].addr % 16 == 0 && size % 16 == 0
    ensures var base := StackBase(bs[j].addr + HeapSpec.HEADER, size);
            base >= 0 && HeapSpec.Find(bs, base) == |bs| && HeapSpec.Step(bs, HeapSpec.Kfree(base)) == bs
    ensures bs[j].size / 0x1_0000_0000 != HeapSpec.MAGIC
  {
    StackBaseOfBlock(bs[j], size);
    var k := HeapSpec.BlockLocated(bs, arenas[0].base, arenas, j);
    assert HeapSpec.ArenaOk(arenas[k]);
    var i := HeapSpec.Find(bs, bs[j].addr + HeapSpec.HEADER - 8);
    if i < |bs| {
      HeapSpec.LiveApart(bs, arenas, i, j);
    }
  }

  lemma {:induction false} FreshHeap(a: HeapSpec.Arena)
    requires HeapSpec.ArenaOk(a) && HeapSpec.HEADER <= a.len
    ensures HeapSpec.ArenasOk([a])
    ensures var bs := [HeapSpec.Block(a.base, a.len - HeapSpec.HEADER, false)];
            HeapSpec.Tiles(bs, [a]) && HeapSpec.Aligned8(bs)
  {
    assert HeapSpec.TilesFrom([], HeapSpec.Limit(a), [a]);
    HeapSpec.Multiples8(a.len, HeapSpec.HEADER);
  }

  lemma {:induction false} FirstTaken(a: HeapSpec.Arena, size: nat) returns (after: seq<HeapSpec.Block>)
    requires HeapSpec.ArenaOk(a) && 0 < size && size % 16 == 0 && size + HeapSpec.HEADER <= a.len
    ensures after == HeapSpec.Step([HeapSpec.Block(a.base, a.len - HeapSpec.HEADER, false)], HeapSpec.Kmalloc(size))
    ensures after != [] && after[0].addr == a.base && after[0].used
    ensures HeapSpec.ArenasOk([a]) && HeapSpec.Tiles(after, [a]) && HeapSpec.Aligned8(after)
  {
    hide HeapSpec.TilesFrom, HeapSpec.Aligned8, HeapSpec.ArenasOk;
    var bs := [HeapSpec.Block(a.base, a.len - HeapSpec.HEADER, false)];
    assert HeapSpec.AlignUp16(size) == size;
    assert HeapSpec.Fits(bs[0], size) && HeapSpec.FirstFit(bs, size) == 0;
    FreshHeap(a);
    HeapSpec.StepKeepsTiles(bs, a, HeapSpec.Kmalloc(size));
    after := HeapSpec.Take(bs, 0, size);
  }

  /** The very first stack is such a case: in a fresh heap whose start is 16-byte aligned, as the linker script
      makes it, kmalloc of a multiple of 16 returns base + 24, and 8 bytes less are recorded. */
  lemma {:induction false} FirstStackMisrecorded(a: HeapSpec.Arena, size: nat)
    requires HeapSpec.ArenaOk(a) && a.base % 16 == 0
    requires 0 < size && size % 16 == 0 && size + HeapSpec.HEADER <= a.len
    ensures var heap := [HeapSpec.Block(a.base, a.len - HeapSpec.HEADER, false)];
            var after := HeapSpec.Step(heap, HeapSpec.Kmalloc(size));
            var ptr := a.base + HeapSpec.HEADER;
            && HeapSpec.Find(after, ptr) == 0 && after[0].used
            && StackBase(ptr, size) == ptr - 8
            && HeapSpec.Step(after, HeapSpec.Kfree(StackBase(ptr, size))) == after
  {
    hide StackBase;
    var after := FirstTaken(a, size);
    StackBaseOfBlock(after[0], size);
    StackNotFreed(after, [a], 0, size);
  }

  /** In general: after `n` other requests, with nothing freed in between, the stack is recorded rightly if and
      only if `n` is odd. */
  lemma {:induction false} StackAfterRequests(a: HeapSpec.Arena, sizes: seq<nat>, size: nat)
    requires HeapSpec.ArenaOk(a) && a.base % 16 == 0 && 0 < size && size % 16 == 0
    requires forall k :: 0 <= k < |sizes| ==> 0 < sizes[k] <= HeapSpec.WORD - 16
    requires HeapSpec.HEADER + HeapSpec.Spent(sizes) + size <= a.len
    ensures var bs := HeapSpec.Run([HeapSpec.Block(a.base, a.len - HeapSpec.HEADER, false)], HeapSpec.Kmallocs(sizes));
            var i := HeapSpec.FirstFit(bs, HeapSpec.AlignUp16(size));
            && i < |bs|
            && var ptr := bs[i].addr + HeapSpec.HEADER;
               StackBase(ptr, size) == if |sizes| % 2 == 1 then ptr else ptr - 8
  {
    hide StackBase, HeapSpec.FirstFit, HeapSpec.Run, HeapSpec.Kmallocs, HeapSpec.Spent;
    var start := [HeapSpec.Block(a.base, a.len - HeapSpec.HEADER, false)];
    HeapSpec.ServedInTurn(start, sizes);
    HeapSpec.SpentModulo(sizes);
    var bs := HeapSpec.Run(start, HeapSpec.Kmallocs(sizes));
    assert HeapSpec.AlignUp16(size) == size;
    assert HeapSpec.Fits(bs[|bs| - 1], size);
    assert HeapSpec.FirstFit(bs, size) == |bs| - 1;
    AddressModulo(a.base, HeapSpec.Spent(sizes), |sizes|);
    StackBaseOfBlock(bs[|bs| - 1], size);
  }

  lemma {:induction false} AddressModulo(base: nat, spent: nat, n: nat)
    requires base % 16 == 0 && spent % 16 == if n % 2 == 1 then 8 else 0
    ensures (base + spent) % 8 == 0 && (base + spent) % 16 == if n % 2 == 1 then 8 else 0
  {
    AboveSixteens(base / 16 + spent / 16, spent % 16);
  }

  lemma {:induction false} AboveSixteens(k: nat, r: nat)
    requires r < 16
    ensures (16 * k + r) % 16 == r && (16 * k + r) % 8 == r % 8
  {
    RemainderIs(k, r, 16);
    RemainderIs(2 * k + r / 8, r % 8, 8);
  }

  class ProcessTable {
    const table: array<Process>
    const bitmap: array<Word>
    var numProcesses: int
    /** Processes that have exited, and were counted off, but that the scheduler made ready again. */
    ghost var requeued: nat

    ghost predicate Valid()
      reads this, table, bitmap
    {
      && table.Length == MAX_PROCESSES && bitmap.Length == MAX_PROCESSES / 64
      && Lockstep(table[..], bitmap[..])
      && numProcesses + requeued == Alive(table[..], MAX_PROCESSES)
    }

    /** process_init. */
    constructor ()
      ensures Valid() && fresh(table) && fresh(bitmap) && requeued == 0
      ensures forall i :: 0 <= i < MAX_PROCESSES ==> table[i].state == Unused
    {
      table := new Process[MAX_PROCESSES](_ => Process(0, Unused, 0, 0));
      bitmap := new Word[MAX_PROCESSES / 64](_ => ZERO);
      numProcesses, requeued := 0, 0;
      new;
      bitmap[0] := bitmap[0][0 := true];
      forall i: nat | 0 < i < MAX_PROCESSES ensures !Bit(bitmap[..], i) {
        assert i / 64 != 0 || i % 64 != 0;
      }
      NoneAlive(table[..], MAX_PROCESSES);
    }

    /** alloc_pid: the lowest free PID, or -1. */
    method AllocPid() returns (pid: int)
      requires bitmap.Length == MAX_PROCESSES / 64
      modifies bitmap
      ensures -1 <= pid < MAX_PROCESSES
      ensures pid == -1 ==> bitmap[..] == old(bitmap[..]) && forall q: nat :: q < MAX_PROCESSES ==> Bit(bitmap[..], q)
      ensures pid >= 0 ==>
                && !Bit(old(bitmap[..]), pid) && (forall q: nat :: q < pid ==> Bit(old(bitmap[..]), q))
                && bitmap[..] == old(bitmap[..])[pid / 64 := old(bitmap[..])[pid / 64][pid % 64 := true]]
    {
      for i := 0 to bitmap.Length
        invariant bitmap[..] == old(bitmap[..])
        invariant forall w :: 0 <= w < i ==> bitmap[..][w] == ALL_ONES
      {
        LowestClear(bitmap[..], i);
        if bitmap[i] != ALL_ONES {
          var bit := CtzNot(bitmap[i]);
          pid := i * 64 + bit;
          assert pid / 64 == i && pid % 64 == bit;
          bitmap[i] := bitmap[i][bit := true];
          return;
        }
      }
      LowestClear(bitmap[..], bitmap.Length);
      pid := -1;
    }

    /** free_pid. */
    method FreePid(pid: int)
      requires bitmap.Length == MAX_PROCESSES / 64
      modifies bitmap
      ensures bitmap[..] == if pid < 0 || pid >= MAX_PROCESSES then old(bitmap[..])
                            else old(bitmap[..])[pid / 64 := old(bitmap[..])[pid / 64][pid % 64 := false]]
    {
      if pid < 0 || pid >= MAX_PROCESSES {
        return;
      }
      var idx, bit := pid / 64, pid % 64;
      bitmap[idx] := bitmap[idx][bit := false];
    }

    /** The slot search of process_create: the first unused slot, or the table's length. */
    method FindSlot() returns (slot: nat)
      requires table.Length == MAX_PROCESSES
      ensures slot <= MAX_PROCESSES
      ensures slot < MAX_PROCESSES ==> table[slot].state == Unused
      ensures forall i :: 0 <= i < slot ==> table[i].state != Unused
    {
      slot := 0;
      while slot < MAX_PROCESSES && table[slot].state != Unused
        invariant slot <= MAX_PROCESSES
        invariant forall i :: 0 <= i < slot ==> table[i].state != Unused
      {
        slot := slot + 1;
      }
    }

    /** process_create; `stack` and `pgd` are what kmalloc and pmm_alloc return, 0 when they fail.  The new
        process takes the first unused slot, and its number plus one as PID; the other processes keep theirs.
        Every failure leaves slots in use, PIDs and count as they were. */
    method Create(valid: bool, user: bool, stack: nat, stackSize: nat, pgd: nat) returns (r: int)
      requires Valid()
      modifies this, table, bitmap
      ensures Valid() && requeued == old(requeued)
      ensures r == if !valid then INVAL else Outcome(FirstUnused(old(table[..])), user, stack, pgd)
      ensures r < 0 ==> SameUse(old(table[..]), table[..])
      ensures r < 0 ==> bitmap[..] == old(bitmap[..]) && numProcesses == old(numProcesses)
      ensures r >= 0 ==> 0 < r < MAX_PROCESSES && numProcesses == old(numProcesses) + 1
      ensures r >= 0 ==>
                table[..] == old(table[..])[r - 1 := Process(r, Ready, StackBase(stack, stackSize), if user then pgd else 0)]
      ensures r >= 0 ==> forall q: nat :: q < MAX_PROCESSES ==> Bit(bitmap[..], q) == (q == r || Bit(old(bitmap[..]), q))
    {
      hide Lockstep, Alive, FirstUnused, Bit;
      if !valid {
        return INVAL;
      }
      LastUnused(table[..], bitmap[..]);
      var slot := FindSlot();
      if slot == MAX_PROCESSES {
        return NOMEM;
      }
      var pid := AllocPid();
      SearchesMeet(table[..], old(bitmap[..]), slot, if pid < 0 then MAX_PROCESSES else pid);
      if pid < 0 {
        return NOMEM;
      }
      ghost var was := table[..];
      table[slot] := Process(pid, Ready, 0, 0);
      if stack == 0 {
        Abandon(slot, pid, was, old(bitmap[..]));
        return NOMEM;
      }
      table[slot] := table[slot].(stackBase := StackBase(stack, stackSize));
      if user {
        table[slot] := table[slot].(pgd := pgd);
        if pgd == 0 {
          Abandon(slot, pid, was, old(bitmap[..]));
          return NOMEM;
        }
      }
      assert table[..] == was[slot := Process(pid, Ready, StackBase(stack, stackSize), if user then pgd else 0)];
      LockstepWrite(was, old(bitmap[..]), slot, table[slot]);
      WriteBit(old(bitmap[..]), pid, true);
      AliveUpdate(was, slot, table[slot], MAX_PROCESSES);
      numProcesses := numProcesses + 1;
      r := pid;
    }

    /** The failure exits: the PID is given back and the slot marked unused. */
    method Abandon(slot: nat, pid: nat, ghost was: seq<Process>, ghost words: seq<Word>)
      requires table.Length == MAX_PROCESSES && bitmap.Length == MAX_PROCESSES / 64
      requires Lockstep(was, words) && numProcesses + requeued == Alive(was, MAX_PROCESSES)
      requires slot < MAX_PROCESSES - 1 && pid == slot + 1 && was[slot].state == Unused
      requires table[..] == was[slot := table[slot]] && bitmap[..] == words[pid / 64 := words[pid / 64][pid % 64 := true]]
      modifies table, bitmap
      ensures Valid() && bitmap[..] == words && SameUse(was, table[..])
    {
      FreePid(pid);
      table[slot] := table[slot].(state := Unused);
      assert table[..] == was[slot := table[slot]];
      UnusedBitClear(was, words, slot);
      assert bitmap[..] == words;
      LockstepWrite(was, words, slot, table[slot]);
      AliveUpdate(was, slot, table[slot], MAX_PROCESSES);
    }

    /** The scheduler's changes of state.  They do not look at the old state: a process that has exited comes to
        life again, without being counted. */
    method SetState(slot: nat, state: State)
      requires Valid() && slot < MAX_PROCESSES && table[slot].state != Unused && state != Unused && state != Zombie
      modifies this`requeued, table
      ensures Valid() && table[..] == old(table[..])[slot := old(table[slot]).(state := state)]
      ensures requeued == old(requeued) + if old(table[slot]).state == Zombie then 1 else 0
    {
      hide Lockstep, Alive, Bit;
      ghost var was := table[..];
      UsedBitSet(was, bitmap[..], slot);
      LockstepWrite(was, bitmap[..], slot, was[slot].(state := state));
      AliveUpdate(was, slot, was[slot].(state := state), MAX_PROCESSES);
      requeued := requeued + if table[slot].state == Zombie then 1 else 0;
      table[slot] := table[slot].(state := state);
      assert table[..] == was[slot := was[slot].(state := state)];
    }

    /** process_exit up to the call of scheduler_yield: the process becomes a zombie and is counted off. */
    method MarkExited(slot: nat)
      requires Valid() && slot < MAX_PROCESSES && Counted(table[slot])
      modifies this`numProcesses, table
      ensures Valid() && table[..] == old(table[..])[slot := old(table[slot]).(state := Zombie)]
      ensures numProcesses == old(numProcesses) - 1
    {
      hide Lockstep, Alive, Bit;
      ghost var was := table[..];
      UsedBitSet(was, bitmap[..], slot);
      LockstepWrite(was, bitmap[..], slot, was[slot].(state := Zombie));
      AliveUpdate(was, slot, was[slot].(state := Zombie), MAX_PROCESSES);
      numProcesses := numProcesses - 1;
      table[slot] := table[slot].(state := Zombie);
      assert table[..] == was[slot := was[slot].(state := Zombie)];
    }

    /** process_exit with the requeueing of scheduler_yield: the process is ready again, so no zombie is left
        for process_wait to find, slot and PID stay taken, and the count is one too low from then on. */
    method Exit(slot: nat)
      requires Valid() && slot < MAX_PROCESSES && Counted(table[slot])
      modifies this`numProcesses, this`requeued, table
      ensures Valid() && table[..] == old(table[..])[slot := old(table[slot]).(state := Ready)]
      ensures numProcesses == old(numProcesses) - 1 && requeued == old(requeued) + 1
      ensures Alive(table[..], MAX_PROCESSES) == old(Alive(table[..], MAX_PROCESSES))
      ensures numProcesses != Alive(table[..], MAX_PROCESSES)
    {
      hide Lockstep, Alive, Bit;
      ghost var was := table[..];
      MarkExited(slot);
      SetState(slot, Ready);
      assert table[..] == was[slot := was[slot].(state := Ready)];
    }

    /** process_cleanup of a zombie: slot and PID become free together. */
    method Cleanup(slot: nat)
      requires Valid() && slot < MAX_PROCESSES && table[slot].state == Zombie
      modifies table, bitmap
      ensures Valid() && table[..] == old(table[..])[slot := old(table[slot]).(state := Unused)]
      ensures forall q: nat :: q < MAX_PROCESSES ==> Bit(bitmap[..], q) == (q != slot + 1 && Bit(old(bitmap[..]), q))
    {
      hide Lockstep, Alive, Bit;
      ghost var was, words := table[..], bitmap[..];
      UsedBitSet(was, words, slot);
      FreePid(table[slot].pid);
      table[slot] := table[slot].(state := Unused);
      assert table[..] == was[slot := was[slot].(state := Unused)];
      LockstepWrite(was, words, slot, table[slot]);
      WriteBit(words, slot + 1, false);
      AliveUpdate(was, slot, table[slot], MAX_PROCESSES);
    }

    /** process_get_by_pid, as an index into the table, or -1: the process with that PID, if there is one. */
    method GetByPid(pid: int) returns (slot: int)
      requires Valid()
      ensures slot == -1 || 0 <= slot < MAX_PROCESSES
      ensures slot >= 0 ==> table[slot].state != Unused && table[slot].pid == pid
      ensures slot == -1 ==> forall i :: 0 <= i < MAX_PROCESSES ==> table[i].state == Unused || table[i].pid != pid
    {
      if pid <= 0 || pid > MAX_PROCESSES {
        return -1;
      }
      if table[pid - 1].state == Unused {
        return -1;
      }
      slot := pid - 1;
    }
  }

  /** The number of the first unused slot, or the table's length. */
  function FirstUnused(table: seq<Process>): (i: nat)
    ensures i <= |table| && (i < |table| ==> table[i].state == Unused)
    ensures forall k :: 0 <= k < i ==> table[k].state != Unused
  {
    if table == [] then 0 else if table[0].state == Unused then 0 else 1 + FirstUnused(table[1..])
  }

  /** What process_create returns for valid attributes. */
  function Outcome(slot: nat, user: bool, stack: nat, pgd: nat): (r: int) {
    if slot >= MAX_PROCESSES - 1 || stack == 0 || (user && pgd == 0) then NOMEM else slot + 1
  }

  /** The same slots are in use, by the same processes. */
  ghost predicate SameUse(a: seq<Process>, b: seq<Process>) {
    |a| == |b| && forall i :: 0 <= i < |a| ==> a[i] == b[i] || (a[i].state == Unused && b[i].state == Unused)
  }

  lemma {:induction false} LastUnused(table: seq<Process>, words: seq<Word>)
    requires Lockstep(table, words)
    ensures |table| == MAX_PROCESSES && |words| == MAX_PROCESSES / 64
    ensures table[MAX_PROCESSES - 1].state == Unused
  {
  }

  lemma {:induction false} UnusedBitClear(table: seq<Process>, words: seq<Word>, i: nat)
    requires Lockstep(table, words) && i < MAX_PROCESSES - 1 && table[i].state == Unused
    ensures var k, b := (i + 1) / 64, (i + 1) % 64;
            words[k := words[k][b := true]][k := words[k][b := true][b := false]] == words[k := words[k][b := false]] == words
  {
    var k, b := (i + 1) / 64, (i + 1) % 64;
    assert !Bit(words, i + 1);
    assert words[k][b := true][b := false] == words[k] == words[k][b := false];
  }

  lemma {:induction false} UsedBitSet(table: seq<Process>, words: seq<Word>, i: nat)
    requires Lockstep(table, words) && i < MAX_PROCESSES && table[i].state != Unused
    ensures i < MAX_PROCESSES - 1 && table[i].pid == i + 1
    ensures words == words[(i + 1) / 64 := words[(i + 1) / 64][(i + 1) % 64 := true]]
  {
    assert i != MAX_PROCESSES - 1;
    assert Bit(words, i + 1);
    assert words[(i + 1) / 64][(i + 1) % 64 := true] == words[(i + 1) / 64];
  }

  lemma {:induction false} NoneAlive(table: seq<Process>, n: nat)
    requires n <= |table| && forall i :: 0 <= i < |table| ==> table[i].state == Unused
    ensures Alive(table, n) == 0
  {
    if n > 0 {
      NoneAlive(table, n - 1);
    }
  }
}
