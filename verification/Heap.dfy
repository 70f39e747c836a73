/** kmalloc and kfree of mm.c over headers in memory, refining the block list of HeapSpec. */
module Heap {
  import opened HeapSpec
  import Pmm

  /** A heap_block_t in memory; address 0 is NULL. */
  datatype Header = Header(size: nat, used: bool, magic: nat, next: nat)

  function AddrAt(bs: seq<Block>, i: nat): (r: nat) {
    if i < |bs| then bs[i].addr else 0
  }

  /** The header in memory of a block followed by the block at `next`.  Its magic number is whatever it is. */
  predicate Stored(mem: map<nat, Header>, b: Block, next: nat) {
    && b.addr != 0 && b.addr in mem
    && mem[b.addr].size == b.size && mem[b.addr].used == b.used && mem[b.addr].next == next
  }

  predicate StoredAt(mem: map<nat, Header>, bs: seq<Block>, i: nat)
    requires i < |bs|
  {
    Stored(mem, bs[i], AddrAt(bs, i + 1))
  }

  /** The headers in memory form the list `bs`. */
  ghost predicate Linked(mem: map<nat, Header>, bs: seq<Block>) {
    forall i: nat {:trigger StoredAt(mem, bs, i)} :: i < |bs| ==> StoredAt(mem, bs, i)
  }

  predicate Intact(mem: map<nat, Header>, b: Block) {
    b.addr in mem && mem[b.addr].magic == MAGIC
  }

  /** One of the first `n` blocks has lost its magic number. */
  ghost predicate Corrupt(mem: map<nat, Header>, bs: seq<Block>, n: nat)
    requires n <= |bs|
  {
    exists j :: 0 <= j < n && !Intact(mem, bs[j])
  }

  ghost predicate AllIntact(mem: map<nat, Header>, bs: seq<Block>) {
    !Corrupt(mem, bs, |bs|)
  }

  /** How many blocks the search of kmalloc looks at. */
  function Seen(bs: seq<Block>, size: nat): (n: nat)
    ensures n <= |bs|
  {
    var i := FirstFit(bs, size);
    if i < |bs| then i + 1 else i
  }

  // ---- the list after each update of memory

  /** Writing the `used` field of block `i`. */
  lemma {:induction false} LinkedMark(mem: map<nat, Header>, bs: seq<Block>, i: nat, used: bool)
    requires Linked(mem, bs) && DistinctAddrs(bs) && i < |bs|
    ensures bs[i].addr in mem
    ensures Linked(mem[bs[i].addr := mem[bs[i].addr].(used := used)], bs[i := bs[i].(used := used)])
    ensures AllIntact(mem, bs) ==>
              AllIntact(mem[bs[i].addr := mem[bs[i].addr].(used := used)], bs[i := bs[i].(used := used)])
  {
    assert StoredAt(mem, bs, i);
    var mem' := mem[bs[i].addr := mem[bs[i].addr].(used := used)];
    var bs' := bs[i := bs[i].(used := used)];
    forall j: nat | j < |bs'| ensures StoredAt(mem', bs', j) && (Intact(mem, bs[j]) ==> Intact(mem', bs'[j])) {
      assert StoredAt(mem, bs, j);
    }
  }

  /** The memory after block `i` was split: a new header inside its payload is linked behind it. */
  function SplitMemory(mem: map<nat, Header>, b: Block, size: nat): (r: map<nat, Header>)
    requires b.addr in mem && Splits(b, size)
  {
    var rest := b.addr + HEADER + size;
    mem[rest := Header(b.size - size - HEADER, false, MAGIC, mem[b.addr].next)]
       [b.addr := Header(size, true, mem[b.addr].magic, rest)]
  }

  lemma {:induction false} LinkedSplit(mem: map<nat, Header>, bs: seq<Block>, i: nat, size: nat)
    requires Linked(mem, bs) && DistinctAddrs(bs) && i < |bs| && Fits(bs[i], size) && Splits(bs[i], size)
    requires DistinctAddrs(Take(bs, i, size))
    ensures bs[i].addr in mem
    ensures Linked(SplitMemory(mem, bs[i], size), Take(bs, i, size))
    ensures AllIntact(mem, bs) ==> AllIntact(SplitMemory(mem, bs[i], size), Take(bs, i, size))
  {
    assert StoredAt(mem, bs, i);
    var b := bs[i];
    var rest := b.addr + HEADER + size;
    var mem' := SplitMemory(mem, b, size);
    var bs' := Take(bs, i, size);
    assert bs'[i] == Block(b.addr, size, true) && bs'[i + 1] == Block(rest, b.size - size - HEADER, false);
    forall j: nat | j < |bs'|
      ensures StoredAt(mem', bs', j)
      ensures Intact(mem', bs'[j]) || !Intact(mem, bs[if j <= i then j else j - 1])
    {
      if j < i {
        assert StoredAt(mem, bs, j);
        assert bs'[j] == bs[j] && bs'[j].addr != bs'[i].addr && bs'[j].addr != bs'[i + 1].addr;
        assert AddrAt(bs', j + 1) == AddrAt(bs, j + 1);
      } else if j > i {
        assert AddrAt(bs', j + 1) == AddrAt(bs, j);
        if j > i + 1 {
          assert StoredAt(mem, bs, j - 1);
          assert bs'[j] == bs[j - 1] && bs'[j].addr != bs'[i].addr && bs'[j].addr != bs'[i + 1].addr;
        }
      }
    }
  }

  /** Block `i` absorbs its successor, which is unlinked. */
  lemma {:induction false} LinkedMerge(mem: map<nat, Header>, bs: seq<Block>, i: nat)
    requires Linked(mem, bs) && DistinctAddrs(bs) && i + 1 < |bs|
    ensures bs[i].addr in mem
    ensures var size := bs[i].size + HEADER + bs[i + 1].size;
            Linked(mem[bs[i].addr := mem[bs[i].addr].(size := size, next := AddrAt(bs, i + 2))],
                   bs[..i] + [bs[i].(size := size)] + bs[i + 2..])
    ensures var size := bs[i].size + HEADER + bs[i + 1].size;
            AllIntact(mem, bs) ==>
              AllIntact(mem[bs[i].addr := mem[bs[i].addr].(size := size, next := AddrAt(bs, i + 2))],
                        bs[..i] + [bs[i].(size := size)] + bs[i + 2..])
  {
    assert StoredAt(mem, bs, i);
    var size := bs[i].size + HEADER + bs[i + 1].size;
    var mem' := mem[bs[i].addr := mem[bs[i].addr].(size := size, next := AddrAt(bs, i + 2))];
    var bs' := bs[..i] + [bs[i].(size := size)] + bs[i + 2..];
    forall j: nat | j < |bs'|
      ensures StoredAt(mem', bs', j)
      ensures Intact(mem', bs'[j]) || !Intact(mem, bs[if j <= i then j else j + 1])
    {
      if j < i {
        assert StoredAt(mem, bs, j);
        assert AddrAt(bs', j + 1) == AddrAt(bs, j + 1);
      } else {
        assert AddrAt(bs', j + 1) == AddrAt(bs, j + 2);
        if j > i {
          assert StoredAt(mem, bs, j + 1);
          assert bs'[j] == bs[j + 1];
        }
      }
    }
  }

  /** A run of pages none of which touches an area does not touch it as a whole. */
  lemma {:induction false} RunApart(phys: nat, start: nat, n: nat, a: Arena)
    requires forall p: nat :: start <= p < start + n ==> Apart(Arena(phys + p * PAGE, PAGE), a)
    requires n > 0 && a.len > 0
    ensures Apart(Arena(phys + start * PAGE, n * PAGE), a)
  {
    assert Apart(Arena(phys + (start + n - 1) * PAGE, PAGE), a);
    if n > 1 {
      RunApart(phys, start, n - 1, a);
    }
  }

  /** No free page of the page allocator lies in an area of the heap. */
  ghost predicate FramesApart(phys: nat, free: set<nat>, arenas: seq<Arena>) {
    forall k: nat, p: nat {:trigger p in free, arenas[k]} :: k < |arenas| && p in free ==>
      Apart(Arena(phys + p * PAGE, PAGE), arenas[k])
  }

  /** A run of free pages may become an area. */
  lemma {:induction false} FramesStayApart(phys: nat, free: set<nat>, arenas: seq<Arena>, start: nat, n: nat)
    requires ArenasOk(arenas) && FramesApart(phys, free, arenas) && n > 0 && Pmm.Pages(start, n) <= free
    ensures forall k :: 0 <= k < |arenas| ==> Apart(Arena(phys + start * PAGE, n * PAGE), arenas[k])
    ensures FramesApart(phys, free - Pmm.Pages(start, n), Extend(arenas, phys + start * PAGE, n * PAGE))
  {
    forall k | 0 <= k < |arenas| ensures Apart(Arena(phys + start * PAGE, n * PAGE), arenas[k]) {
      assert ArenaOk(arenas[k]);
      forall p: nat | start <= p < start + n ensures Apart(Arena(phys + p * PAGE, PAGE), arenas[k]) {
        assert p in free;
      }
      RunApart(phys, start, n, arenas[k]);
    }
    var base := phys + start * PAGE;
    var grown := Extend(arenas, base, n * PAGE);
    forall k: nat, p: nat | k < |grown| && p in free - Pmm.Pages(start, n)
      ensures Apart(Arena(phys + p * PAGE, PAGE), grown[k])
    {
      assert p in free;
      FrameBeside(phys, start, n, p);
      ExtendApart(Arena(phys + p * PAGE, PAGE), arenas, base, n * PAGE, k);
    }
  }

  lemma {:induction false} FrameBeside(phys: nat, start: nat, n: nat, p: nat)
    requires p < start || p >= start + n
    ensures Apart(Arena(phys + p * PAGE, PAGE), Arena(phys + start * PAGE, n * PAGE))
  {
  }

  lemma {:induction false} ExtendApart(f: Arena, arenas: seq<Arena>, base: nat, len: nat, k: nat)
    requires f.len > 0 && len > 0 && k < |Extend(arenas, base, len)|
    requires Apart(f, Arena(base, len)) && forall i :: 0 <= i < |arenas| ==> ArenaOk(arenas[i]) && Apart(f, arenas[i])
    ensures Apart(f, Extend(arenas, base, len)[k])
  {
  }

  /** A header written in a new area leaves the list alone. */
  lemma {:induction false} LinkedGrow(mem: map<nat, Header>, bs: seq<Block>, arenas: seq<Arena>, base: nat, len: nat)
    requires Linked(mem, bs) && Tiles(bs, arenas) && len >= HEADER && base != 0
    requires forall k :: 0 <= k < |arenas| ==> Apart(Arena(base, len), arenas[k])
    ensures Linked(mem[base := Header(len - HEADER, false, MAGIC, AddrAt(bs, 0))],
                   [Block(base, len - HEADER, false)] + bs)
    ensures forall j :: 0 <= j < |bs| ==> bs[j].addr != base
  {
    var mem' := mem[base := Header(len - HEADER, false, MAGIC, AddrAt(bs, 0))];
    var bs' := [Block(base, len - HEADER, false)] + bs;
    forall j: nat | j < |bs| ensures bs[j].addr != base {
      var k := BlockLocated(bs, arenas[0].base, arenas, j);
      assert Apart(Arena(base, len), arenas[k]);
    }
    forall j: nat | j < |bs'| ensures StoredAt(mem', bs', j) {
      if j > 0 {
        assert StoredAt(mem, bs, j - 1) && bs'[j] == bs[j - 1];
        assert AddrAt(bs', j + 1) == AddrAt(bs, j);
      } else {
        assert AddrAt(bs', 1) == AddrAt(bs, 0);
      }
    }
  }

  lemma {:induction false} MarkDistinct(bs: seq<Block>, i: nat)
    requires DistinctAddrs(bs) && i < |bs|
    ensures DistinctAddrs(bs[i := bs[i].(used := false)])
  {
  }

  lemma {:induction false} PageAligned(phys: nat, k: nat)
    requires phys % PAGE == 0
    ensures (phys + k * PAGE) % 8 == 0 && k * PAGE % 8 == 0
  {
    TimesEight(512 * (phys / PAGE + k));
    TimesEight(512 * k);
  }

  lemma {:induction false} TimesEight(n: int)
    ensures 8 * n % 8 == 0
  {
  }

  lemma {:induction false} AlignedCons(b: Block, bs: seq<Block>)
    requires Aligned8(bs) && b.addr % 8 == 0 && b.size % 8 == 0
    ensures Aligned8([b] + bs)
  {
  }

  lemma {:induction false} RunIsArea(phys: nat, start: nat, pages: nat)
    requires 0 < phys && phys % PAGE == 0 && pages > 0 && phys + (start + pages) * PAGE <= 0x1_0000_0000_0000
    ensures ArenaOk(Arena(phys + start * PAGE, pages * PAGE))
    ensures (pages * PAGE - HEADER) % 8 == 0 && pages * PAGE >= PAGE
  {
    PageAligned(phys, start);
    PageAligned(phys, pages);
    Multiples8(pages * PAGE, HEADER);
  }

  /** Everything the heap needs after `pages` pages from page `start` were put in front. */
  lemma {:induction false} GrowKeeps(mem: map<nat, Header>, bs: seq<Block>, arenas: seq<Arena>, phys: nat,
                                     free: set<nat>,
                                     start: nat, pages: nat, base: nat, len: nat)
    requires Linked(mem, bs) && ArenasOk(arenas) && Tiles(bs, arenas) && Aligned8(bs)
    requires FramesApart(phys, free, arenas) && pages > 0 && Pmm.Pages(start, pages) <= free
    requires base == phys + start * PAGE && len == pages * PAGE
    requires ArenaOk(Arena(base, len)) && (len - HEADER) % 8 == 0 && len >= HEADER
    ensures Linked(mem[base := Header(len - HEADER, false, MAGIC, AddrAt(bs, 0))], [Block(base, len - HEADER, false)] + bs)
    ensures ArenasOk(Extend(arenas, base, len))
    ensures Tiles([Block(base, len - HEADER, false)] + bs, Extend(arenas, base, len))
    ensures Aligned8([Block(base, len - HEADER, false)] + bs)
    ensures FramesApart(phys, free - Pmm.Pages(start, pages), Extend(arenas, base, len))
    ensures forall j :: 0 <= j < |bs| ==> bs[j].addr != base
  {
    hide Linked, Tiles, TilesFrom, FramesApart, ArenasOk, Aligned8, Extend, AddrAt;
    FramesStayApart(phys, free, arenas, start, pages);
    LinkedGrow(mem, bs, arenas, base, len);
    ExtendKeepsTiles(bs, arenas, base, len);
    AlignedCons(Block(base, len - HEADER, false), bs);
  }

  /** What a request is served from: the block list, the areas it tiles, the free pages. */
  datatype Memory = Memory(blocks: seq<Block>, arenas: seq<Arena>, free: set<nat>)

  /** The heap after the run of pages from `start` on became its first block. */
  ghost function GrownBy(was: Memory, phys: nat, start: nat, pages: nat): (r: Memory)
    requires pages > 0
  {
    Memory([Block(phys + start * PAGE, pages * PAGE - HEADER, false)] + was.blocks,
           Extend(was.arenas, phys + start * PAGE, pages * PAGE), was.free - Pmm.Pages(start, pages))
  }

  /** What a request for `size` bytes, rounded up already, does when no block has lost its magic number.
      The first fit is taken.  Otherwise the heap grows by one run of pages and their block is taken; when
      there is no such run, nothing changes.  The two sizes that wrap: `size` 0 grows by a page and fails,
      and 2^64 - 16 fails after taking every free page. */
  ghost predicate Served(was: Memory, now: Memory, phys: nat, total: nat, size: nat, r: nat)
    requires size < WORD
  {
    var i := FirstFit(was.blocks, size);
    var pages := PagesNeeded(size);
    if i < |was.blocks| then
      && r == was.blocks[i].addr + HEADER
      && now == was.(blocks := Take(was.blocks, i, size))
    else if size == WORD - 16 then r == 0 && now.free == {}
    else if pages > 0 && exists s: nat :: s + pages <= total && Pmm.Pages(s, pages) <= was.free then
      exists s: nat ::
        && Pmm.IsLowestRun(was.free, total, s, pages)
        && var grown := GrownBy(was, phys, s, pages);
           if size == 0 then r == 0 && now == grown
           else
             && r == phys + s * PAGE + HEADER
             && Fits(grown.blocks[0], size)
             && now == grown.(blocks := Take(grown.blocks, 0, size))
    else r == 0 && now == was
  }

  /** One growth and a retry serve a request. */
  lemma {:induction false} RetryServed(was: Memory, now: Memory, phys: nat, total: nat, size: nat, start: nat, r: nat)
    requires size < WORD && size % 16 == 0 && PagesNeeded(size) > 0
    requires FirstFit(was.blocks, size) == |was.blocks|
    requires Pmm.IsLowestRun(was.free, total, start, PagesNeeded(size))
    requires size == 0 ==> r == 0 && now == GrownBy(was, phys, start, PagesNeeded(size))
    requires size > 0 ==> Served(GrownBy(was, phys, start, PagesNeeded(size)), now, phys, total, size, r)
    ensures Served(was, now, phys, total, size, r)
  {
    var grown := GrownBy(was, phys, start, PagesNeeded(size));
    assert grown.blocks[1..] == was.blocks;
    if size > 0 {
      GrowthFits(size);
    }
  }

  /** A request that finds no block and no run of pages changes nothing. */
  lemma {:induction false} UnservedChangesNothing(was: Memory, phys: nat, total: nat, size: nat)
    requires size < WORD && size % 16 == 0 && FirstFit(was.blocks, size) == |was.blocks|
    requires forall p :: p in was.free ==> p < total
    requires PagesNeeded(size) > 0 ==>
               !exists s: nat :: s + PagesNeeded(size) <= total && Pmm.Pages(s, PagesNeeded(size)) <= was.free
    ensures Served(was, was, phys, total, size, 0)
  {
    if size == WORD - 16 {
      GrowthFits(size);
      forall p | p in was.free ensures Pmm.Pages(p, 1) <= was.free {
      }
    }
  }

  /** What a request is answered with: the pointer 24 bytes into a block that is new among those in use and
      large enough, or 0 with no payload added. */
  lemma {:induction false} ServedPayload(was: Memory, now: Memory, phys: nat, total: nat, size: nat, r: nat)
    requires 0 < size <= WORD - 32 && Served(was, now, phys, total, AlignUp16(size), r)
    ensures r == 0 ==> Live(now.blocks) == Live(was.blocks)
    ensures r != 0 ==>
              exists b :: && Live(now.blocks) == Live(was.blocks) + {b}
                          && r == b.addr + 24 && size <= b.size < AlignUp16(size) + 40
  {
    hide Take, Extend, Pmm.Pages, Pmm.IsLowestRun;
    var s := AlignUp16(size);
    AlignUp16Enough(size);
    var i := FirstFit(was.blocks, s);
    if i < |was.blocks| {
      Granted(was.blocks, i, s);
    } else if r != 0 {
      var start: nat :| && Pmm.IsLowestRun(was.free, total, start, PagesNeeded(s))
                        && r == phys + start * PAGE + HEADER
                        && Fits(GrownBy(was, phys, start, PagesNeeded(s)).blocks[0], s)
                        && now.blocks == Take(GrownBy(was, phys, start, PagesNeeded(s)).blocks, 0, s);
      var grown := GrownBy(was, phys, start, PagesNeeded(s)).blocks;
      LiveFreeFirst(grown[0], was.blocks);
      Granted(grown, 0, s);
    }
  }

  lemma {:induction false} Granted(bs: seq<Block>, i: nat, size: nat)
    requires i < |bs| && Fits(bs[i], size)
    ensures var b := Taken(bs[i], size);
            && Live(Take(bs, i, size)) == Live(bs) + {b}
            && b.addr == bs[i].addr && size <= b.size < size + 40
  {
    hide Live, Take;
    TakeAddsOne(bs, i, size);
  }

  lemma {:induction false} LiveFreeFirst(b: Block, bs: seq<Block>)
    requires !b.used
    ensures Live([b] + bs) == Live(bs)
  {
    var bs' := [b] + bs;
    forall c ensures c in Live(bs') <==> c in Live(bs) {
      if c in Live(bs) {
        var j :| 0 <= j < |bs| && bs[j].used && bs[j] == c;
        assert bs'[j + 1] == c;
      }
      if c in Live(bs') {
        var j :| 0 <= j < |bs'| && bs'[j].used && bs'[j] == c;
        assert bs[j - 1] == c;
      }
    }
  }

  lemma {:induction false} RunShrinks(free: set<nat>, total: nat, start: nat, pages: nat)
    requires pages > 0 && Pmm.IsLowestRun(free, total, start, pages)
    ensures start + pages <= total && Pmm.Pages(start, pages) <= free
    ensures free - Pmm.Pages(start, pages) < free
  {
    assert start in Pmm.Pages(start, pages) && start in free;
  }

  lemma {:induction false} StillIntact(mem: map<nat, Header>, mem': map<nat, Header>, bs: seq<Block>, b: Block, n: nat)
    requires !Corrupt(mem, bs, |bs|) && Intact(mem', b) && n <= |bs| + 1
    requires forall j :: 0 <= j < |bs| ==> Intact(mem', bs[j]) == Intact(mem, bs[j])
    ensures !Corrupt(mem', [b] + bs, n)
  {
    forall j | 0 <= j < n ensures Intact(mem', ([b] + bs)[j]) {
      if j > 0 { assert Intact(mem', bs[j - 1]); }
    }
  }

  class KernelHeap {
    var mem: map<nat, Header>
    var heapStart: nat
    const pmm: Pmm.PageAllocator

    /** The block list and the memory areas it covers. */
    ghost var blocks: seq<Block>
    ghost var arenas: seq<Arena>

    ghost predicate Valid()
      reads this, pmm, pmm.bitmap
    {
      && pmm.Valid() && pmm.physBase > 0
      && FramesApart(pmm.physBase, pmm.free, arenas)
      && ListOk()
    }

    /** The list in memory tiles the areas. */
    ghost predicate ListOk()
      reads this
    {
      && ArenasOk(arenas) && Tiles(blocks, arenas) && Aligned8(blocks)
      && Linked(mem, blocks) && heapStart == AddrAt(blocks, 0)
    }

    /** kmalloc_init: the linker-provided range becomes one free block. */
    constructor (pmm: Pmm.PageAllocator, start: nat, size: nat)
      requires pmm.Valid() && pmm.physBase > 0
      requires ArenaOk(Arena(start, size)) && size >= HEADER
      requires forall p: nat :: p in pmm.free ==> Apart(Arena(pmm.Frame(p), PAGE), Arena(start, size))
      ensures Valid() && this.pmm == pmm
      ensures blocks == [Block(start, size - HEADER, false)] && arenas == [Arena(start, size)]
      ensures !Corrupt(mem, blocks, |blocks|)
    {
      this.pmm := pmm;
      heapStart := start;
      mem := map[start := Header(size - HEADER, false, MAGIC, 0)];
      blocks := [Block(start, size - HEADER, false)];
      arenas := [Arena(start, size)];
      new;
      assert TilesFrom(blocks[1..], start + size, arenas);
    }

    /** The list walk of kmalloc: stops at the first block that has lost its magic number, or at the first
        that fits. */
    method Search(size: nat) returns (corrupt: bool, current: nat)
      requires Valid()
      ensures corrupt == Corrupt(mem, blocks, Seen(blocks, size))
      ensures !corrupt ==> current == AddrAt(blocks, FirstFit(blocks, size))
      ensures !corrupt ==> (current != 0 <==> FirstFit(blocks, size) < |blocks|)
    {
      ghost var i := 0;
      current := heapStart;
      assert 0 < |blocks| ==> StoredAt(mem, blocks, 0);
      while current != 0
        invariant i <= FirstFit(blocks, size) && current == AddrAt(blocks, i)
        invariant !Corrupt(mem, blocks, i)
        invariant i < |blocks| ==> StoredAt(mem, blocks, i)
        decreases |blocks| - i
      {
        if mem[current].magic != MAGIC {
          assert !Intact(mem, blocks[i]);
          return true, current;
        }
        if !mem[current].used && mem[current].size >= size {
          assert i == FirstFit(blocks, size);
          return false, current;
        }
        current := mem[current].next;
        i := i + 1;
        assert i < |blocks| ==> StoredAt(mem, blocks, i);
      }
      corrupt := false;
    }

    /** Split the block if it is large enough, and mark it used. */
    method Claim(current: nat, size: nat)
      requires Valid() && size % 16 == 0
      requires FirstFit(blocks, size) < |blocks| && current == blocks[FirstFit(blocks, size)].addr
      modifies this
      ensures Valid() && arenas == old(arenas)
      ensures blocks == Take(old(blocks), FirstFit(old(blocks), size), size)
      ensures old(AllIntact(mem, blocks)) ==> AllIntact(mem, blocks)
    {
      ghost var i := FirstFit(blocks, size);
      ghost var after := Take(blocks, i, size);
      assert Tiles(after, arenas) && Aligned8(after) by {
        SplitKeepsTiles(blocks, arenas[0].base, arenas, i, size);
        TakeKeepsAligned(blocks, i, size);
      }
      TiledDistinct(blocks, arenas);
      TiledDistinct(after, arenas);
      assert StoredAt(mem, blocks, i);
      if mem[current].size >= size + HEADER + 16 {
        LinkedSplit(mem, blocks, i, size);
        var rest := current + HEADER + size;
        ghost var goal := SplitMemory(mem, blocks[i], size);
        assert Linked(goal, after);
        assert after[i + 1].addr == rest != after[i].addr == current;
        mem := mem[rest := Header(mem[current].size - size - HEADER, false, MAGIC, mem[current].next)];
        mem := mem[current := mem[current].(size := size, next := rest)];
        assert mem[current := mem[current].(used := true)] == goal;
      } else {
        LinkedMark(mem, blocks, i, true);
      }
      mem := mem[current := mem[current].(used := true)];
      assert Linked(mem, after);
      blocks := after;
    }

    /** kmalloc when no block fits: the page allocator's memory becomes a free block in front. */
    method Grow(pages: nat) returns (base: nat, ghost s: nat)
      requires Valid() && 0 < pages <= pmm.totalPages
      modifies this, pmm, pmm.bitmap
      ensures Valid() && pmm.SameRange()
      ensures base == 0 ==> !exists t: nat :: t + pages <= pmm.totalPages && Pmm.Pages(t, pages) <= old(pmm.free)
      ensures base == 0 ==> Now() == old(Now()) && mem == old(mem)
      ensures base != 0 ==>
                && Pmm.IsLowestRun(old(pmm.free), pmm.totalPages, s, pages)
                && Now() == GrownBy(old(Now()), pmm.physBase, s, pages)
                && pmm.free < old(pmm.free)
                && Intact(mem, blocks[0])
                && forall j :: 0 <= j < |old(blocks)| ==> Intact(mem, old(blocks)[j]) == old(Intact(mem, blocks[j]))
    {
      hide Linked, Tiles, ArenasOk, FramesApart, Aligned8, Extend, Pmm.PageAllocator.Valid, Intact, AddrAt,
           Pmm.IsLowestRun;
      base, s := AllocRun(pages);
      if base != 0 {
        hide GrownBy;
        Prepend(base, pages, s, old(pmm.free));
      }
    }

    /** pmm_alloc_n, naming the run it found. */
    method AllocRun(pages: nat) returns (base: nat, ghost s: nat)
      requires pmm.Valid() && pmm.physBase > 0 && 0 < pages <= pmm.totalPages
      modifies pmm, pmm.bitmap
      ensures pmm.Valid() && pmm.SameRange()
      ensures base == 0 ==> !exists t: nat :: t + pages <= pmm.totalPages && Pmm.Pages(t, pages) <= old(pmm.free)
      ensures base == 0 ==> pmm.free == old(pmm.free)
      ensures base != 0 ==>
                && Pmm.IsLowestRun(old(pmm.free), pmm.totalPages, s, pages)
                && base == pmm.physBase + s * PAGE && pmm.free == old(pmm.free) - Pmm.Pages(s, pages)
                && s + pages <= pmm.totalPages && Pmm.Pages(s, pages) <= old(pmm.free) && pmm.free < old(pmm.free)
    {
      hide Pmm.Refines, Pmm.IsLowestRun, Pmm.PageAllocator.Valid;
      base := pmm.AllocN(pages);
      s := 0;
      if base != 0 {
        s :| Pmm.IsLowestRun(old(pmm.free), pmm.totalPages, s, pages)
             && base == pmm.Frame(s) && pmm.free == old(pmm.free) - Pmm.Pages(s, pages);
        RunShrinks(old(pmm.free), pmm.totalPages, s, pages);
      }
    }

    /** Add the pages to the list. */
    method Prepend(base: nat, pages: nat, ghost start: nat, ghost free: set<nat>)
      requires pmm.Valid() && 0 < pmm.physBase && 0 < pages && start + pages <= pmm.totalPages
      requires base == pmm.physBase + start * PAGE && Pmm.Pages(start, pages) <= free && pmm.free == free - Pmm.Pages(start, pages)
      requires ListOk() && FramesApart(pmm.physBase, free, arenas)
      modifies this
      ensures ListOk() && FramesApart(pmm.physBase, pmm.free, arenas)
      ensures Now() == GrownBy(old(Now()).(free := free), pmm.physBase, start, pages)
      ensures Intact(mem, blocks[0])
      ensures forall j :: 0 <= j < |old(blocks)| ==> Intact(mem, old(blocks)[j]) == old(Intact(mem, blocks[j]))
    {
      hide Linked, Tiles, ArenasOk, FramesApart, Aligned8, Extend, Pmm.Refines;
      RunIsArea(pmm.physBase, start, pages);
      GrowKeeps(mem, blocks, arenas, pmm.physBase, free, start, pages, base, pages * PAGE);
      mem := mem[base := Header(pages * PAGE - HEADER, false, MAGIC, heapStart)];
      heapStart := base;
      blocks := [Block(base, pages * PAGE - HEADER, false)] + blocks;
      arenas := Extend(arenas, base, pages * PAGE);
    }

    ghost function Now(): (r: Memory)
      reads this, pmm
    {
      Memory(blocks, arenas, pmm.free)
    }

    /** The whole list is searched, and no block fits. */
    ghost predicate GoesToPages(size: nat)
      requires size < WORD
      reads this
    {
      size > 0 && FirstFit(blocks, AlignUp16(size)) == |blocks| && !Corrupt(mem, blocks, |blocks|)
    }

    /** kmalloc.  When no block fits, the pages asked of the page allocator must not exceed those managed:
        beyond that the search of pmm_alloc_n runs off its bitmap. */
    method Kmalloc(size: nat) returns (r: nat)
      requires Valid() && size < WORD && (GoesToPages(size) ==> PagesNeeded(AlignUp16(size)) <= pmm.totalPages)
      modifies this, pmm, pmm.bitmap
      ensures Valid() && pmm.SameRange()
      ensures size == 0 || old(Corrupt(mem, blocks, Seen(blocks, AlignUp16(size)))) ==>
                r == 0 && Now() == old(Now())
      ensures size > 0 && !old(Corrupt(mem, blocks, Seen(blocks, AlignUp16(size)))) ==>
                Served(old(Now()), Now(), pmm.physBase, pmm.totalPages, AlignUp16(size), r)
      ensures old(AllIntact(mem, blocks)) ==> AllIntact(mem, blocks)
      decreases pmm.free
    {
      hide Linked, Tiles, ArenasOk, FramesApart, Aligned8, Extend, Corrupt, Intact, FirstFit;
      if size == 0 {
        return 0;
      }
      var size' := (size + 15) % WORD / 16 * 16;
      AlignUp16Enough(size);
      var corrupt, current := Search(size');
      if corrupt {
        return 0;
      }
      if current != 0 {
        Claim(current, size');
        r := current + HEADER;
      } else {
        r := GrowAndRetry(size');
      }
    }

    lemma {:induction false} FreeIsManaged()
      requires Valid()
      ensures forall p :: p in pmm.free ==> p < pmm.totalPages
    {
    }

    method GrowAndRetry(size: nat) returns (r: nat)
      requires Valid() && size < WORD && size % 16 == 0 && PagesNeeded(size) <= pmm.totalPages
      requires FirstFit(blocks, size) == |blocks| && !Corrupt(mem, blocks, |blocks|)
      modifies this, pmm, pmm.bitmap
      ensures Valid() && pmm.SameRange()
      ensures Served(old(Now()), Now(), pmm.physBase, pmm.totalPages, size, r)
      ensures AllIntact(mem, blocks)
      decreases pmm.free, 0
    {
      hide Linked, Tiles, ArenasOk, FramesApart, Aligned8, Extend, Corrupt, Intact, FirstFit, Served, Pmm.IsLowestRun,
           Pmm.Refines, Seen, PagesNeeded;
      FreeIsManaged();
      ghost var was := Now();
      var pages := PagesNeeded(size);
      if pages == 0 {
        UnservedChangesNothing(was, pmm.physBase, pmm.totalPages, size);
        return 0;
      }
      var base, s := Grow(pages);
      if base == 0 {
        UnservedChangesNothing(was, pmm.physBase, pmm.totalPages, size);
        return 0;
      }
      AlignUp16Enough(size);
      StillIntact(old(mem), mem, was.blocks, blocks[0], Seen(blocks, size));
      StillIntact(old(mem), mem, was.blocks, blocks[0], |blocks|);
      r := Kmalloc(size);
      RetryServed(was, Now(), pmm.physBase, pmm.totalPages, size, s, r);
    }

    /** kfree, for NULL or a pointer kmalloc gave out.  A block that lost its magic number and a block that is
        free already are left alone.  The list in memory stays linked, and it still tiles its areas exactly
        when the successor absorbed, if any, follows in memory. */
    method Kfree(ptr: nat)
      requires Valid() && (ptr == 0 || Find(blocks, ptr) < |blocks|)
      modifies this
      ensures arenas == old(arenas) && Linked(mem, blocks) && heapStart == AddrAt(blocks, 0) && Aligned8(blocks)
      ensures ptr == 0 || !Intact(old(mem), old(blocks[Find(blocks, ptr)])) ==> blocks == old(blocks)
      ensures ptr != 0 && Intact(old(mem), old(blocks[Find(blocks, ptr)])) ==>
                blocks == Step(old(blocks), HeapSpec.Kfree(ptr))
      ensures old(AllIntact(mem, blocks)) ==> AllIntact(mem, blocks)
      ensures Valid() <==> blocks == old(blocks) || !old(MergesAcross(blocks, Find(blocks, ptr)))
    {
      hide ArenasOk, TilesFrom, FramesApart, Pmm.Refines, Aligned8, Release, AllIntact;
      if ptr == 0 {
        return;
      }
      var block := ptr - HEADER;
      ghost var i := Find(blocks, ptr);
      assert StoredAt(mem, blocks, i);
      if mem[block].magic != MAGIC {
        return;
      }
      if !mem[block].used {
        return;
      }
      ReleaseBlock(block, i);
    }

    /** What freeing block `i` does to the list, and what the headers of it and its successor say. */
    lemma {:induction false} ReleaseFacts(i: nat)
      requires ListOk() && i < |blocks|
      ensures DistinctAddrs(blocks) && Aligned8(Release(blocks, i))
      ensures Tiles(Release(blocks, i), arenas) <==> !MergesAcross(blocks, i)
      ensures StoredAt(mem, blocks, i) && (i + 1 < |blocks| ==> StoredAt(mem, blocks, i + 1))
      ensures i + 1 < |blocks| ==> blocks[i].addr != blocks[i + 1].addr
    {
      TiledDistinct(blocks, arenas);
      ReleaseKeepsAligned(blocks, i);
      ReleaseKeepsTiles(blocks, arenas[0].base, arenas, i);
      assert StoredAt(mem, blocks, i);
      assert i + 1 < |blocks| ==> StoredAt(mem, blocks, i + 1);
    }

    method ReleaseBlock(block: nat, ghost i: nat)
      requires ListOk() && i < |blocks| && block == blocks[i].addr
      modifies this
      ensures arenas == old(arenas) && Linked(mem, blocks) && heapStart == AddrAt(blocks, 0) && Aligned8(blocks)
      ensures blocks == Release(old(blocks), i)
      ensures Tiles(blocks, arenas) <==> !MergesAcross(old(blocks), i)
      ensures old(AllIntact(mem, blocks)) ==> AllIntact(mem, blocks)
    {
      hide Linked, ArenasOk, TilesFrom, Aligned8, AllIntact, DistinctAddrs;
      ghost var after := Release(blocks, i);
      ReleaseFacts(i);
      LinkedMark(mem, blocks, i, false);
      MarkDistinct(blocks, i);
      mem := mem[block := mem[block].(used := false)];
      blocks := blocks[i := blocks[i].(used := false)];
      var next := mem[block].next;
      if next != 0 && !mem[next].used {
        LinkedMerge(mem, blocks, i);
        mem := mem[block := mem[block].(size := mem[block].size + HEADER + mem[next].size, next := mem[next].next)];
        blocks := after;
      }
    }
  }
}
