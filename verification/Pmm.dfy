/** The physical page allocator of mm.c: one bit per page, set when the page is free. */
module Pmm {
  import opened Words

  const PAGE_SIZE: nat := 4096
  const KERNEL_BASE: nat := 0x4008_0000

  /** `ALIGN_UP(x, a)`. */
  function AlignUp(x: nat, a: nat): (r: nat)
    requires a > 0
  {
    (x + a - 1) / a * a
  }

  ghost predicate IsLeast(s: set<nat>, m: nat) {
    m in s && forall x :: x in s ==> m <= x
  }

  /** The `n` pages from `start` on. */
  ghost function Pages(start: nat, n: nat): (s: set<nat>)
    ensures |s| == n
    ensures forall x :: x in s <==> start <= x < start + n
  {
    if n == 0 then {} else Pages(start, n - 1) + {start + n - 1}
  }

  /** `start` begins a run of `n` pages of `s` below `total`, and no smaller page does. */
  ghost predicate IsLowestRun(s: set<nat>, total: nat, start: nat, n: nat) {
    && start + n <= total
    && Pages(start, n) <= s
    && forall k: nat :: k < start ==> !(Pages(k, n) <= s)
  }

  lemma {:induction false} DifferenceSize(a: set<nat>, b: set<nat>)
    requires a <= b
    ensures |b - a| == |b| - |a|
  {
    assert b == a + (b - a);
  }

  /** The bitmap refines `free`: the bit of a page is set exactly when the page is free, and the
      padding bits of the last word stay set. */
  ghost predicate Refines(words: seq<Word>, total: nat, free: set<nat>) {
    && |words| == (total + 63) / 64
    && (forall x :: x in free ==> x < total)
    && (forall w: nat, b: nat :: w < |words| && b < 64 ==>
          (words[w][b] <==> (w * 64 + b in free || w * 64 + b >= total)))
  }

  /** Writing the bit of one page updates the free set by that page. */
  lemma {:induction false} WriteRefines(words: seq<Word>, total: nat, free: set<nat>, idx: nat, v: bool)
    requires Refines(words, total, free) && idx < total
    ensures idx / 64 < |words|
    ensures Refines(words[idx / 64 := words[idx / 64][idx % 64 := v]], total,
                    if v then free + {idx} else free - {idx})
  {
    var after := words[idx / 64 := words[idx / 64][idx % 64 := v]];
    var free' := if v then free + {idx} else free - {idx};
    forall w: nat, b: nat | w < |words| && b < 64
      ensures after[w][b] <==> (w * 64 + b in free' || w * 64 + b >= total)
    {
      if w == idx / 64 && b == idx % 64 {
        assert w * 64 + b == idx;
      } else {
        assert w * 64 + b != idx;
        assert words[w][b] == after[w][b];
      }
    }
  }

  /** The bits the search of pmm_alloc_n asks for. */
  ghost predicate BitsSet(words: seq<Word>, start: nat, n: nat) {
    forall x: nat :: start <= x < start + n ==> x / 64 < |words| && words[x / 64][x % 64]
  }

  /** A request for more pages than there are: the bound of the search wraps in 64 bits, so it tries every start,
      and the padding counts as free.  Inside the bitmap it finds a run at `start` if and only if all pages from
      there on are free. */
  lemma {:induction false} BeyondManaged(words: seq<Word>, total: nat, free: set<nat>, start: nat, n: nat)
    requires Refines(words, total, free) && total < n && start + n <= 64 * |words|
    ensures start <= (total - n) % 0x1_0000_0000_0000_0000
    ensures BitsSet(words, start, n) <==> forall x: nat :: start <= x < total ==> x in free
  {
    forall x: nat | start <= x < start + n
      ensures x / 64 < |words| && (words[x / 64][x % 64] <==> x in free || x >= total)
    {
      assert x / 64 * 64 + x % 64 == x;
    }
    if BitsSet(words, start, n) {
      forall x: nat | start <= x < total ensures x in free {
        assert words[x / 64][x % 64];
      }
    }
  }

  /** Three pages, of which the last two are free, and a request for four: the run at page 1 is taken, although
      pages 3 and 4 do not exist, and the count wraps. */
  lemma {:induction false} PagesThatDoNotExist(words: seq<Word>)
    requires Refines(words, 3, {1, 2})
    ensures !BitsSet(words, 0, 4) && BitsSet(words, 1, 4) && 1 <= (3 - 4) % 0x1_0000_0000_0000_0000
    ensures (2 - 4) % 0x1_0000_0000_0000_0000 > 3
  {
    var free: set<nat> := {1, 2};
    BeyondManaged(words, 3, free, 0, 4);
    BeyondManaged(words, 3, free, 1, 4);
    var first: nat := 0;
    assert first !in free && first < 3;
  }

  lemma {:induction false} FreeBit(words: seq<Word>, total: nat, free: set<nat>, x: nat)
    requires Refines(words, total, free) && x in free
    ensures x / 64 < |words| && words[x / 64][x % 64]
  {
    assert x / 64 * 64 + x % 64 == x;
  }

  /** The lowest nonzero word holds the lowest free page, unless only padding is left. */
  lemma {:induction false} LowestWord(words: seq<Word>, total: nat, free: set<nat>, i: nat)
    requires Refines(words, total, free)
    requires i < |words| && words[i] != ZERO && forall w :: 0 <= w < i ==> words[w] == ZERO
    ensures var p := i * 64 + Ctz(words[i]); if p < total then IsLeast(free, p) else free == {}
  {
    var b := Ctz(words[i]);
    var p := i * 64 + b;
    assert words[i][b];
    forall x | x in free ensures p <= x {
      FreeBit(words, total, free, x);
    }
  }

  lemma {:induction false} AllZero(words: seq<Word>, total: nat, free: set<nat>)
    requires Refines(words, total, free)
    requires forall w :: 0 <= w < |words| ==> words[w] == ZERO
    ensures free == {}
  {
    if x :| x in free {
      FreeBit(words, total, free, x);
    }
  }

  class PageAllocator {
    var bitmap: array<Word>
    var totalPages: nat
    var freePages: int
    var physBase: nat
    /** How many times a page was freed that was free already. */
    ghost var doubleFrees: nat

    /** The set of free pages that the bitmap represents. */
    ghost var free: set<nat>

    /** The count exceeds the number of free pages by exactly the double frees made so far.
        All pages lie in the 48-bit physical space. */
    ghost predicate Valid()
      reads this, bitmap
    {
      && Refines(bitmap[..], totalPages, free)
      && freePages == |free| + doubleFrees
      && physBase % PAGE_SIZE == 0
      && physBase + totalPages * PAGE_SIZE <= 0x1_0000_0000_0000
    }

    /** The physical address of page `i`. */
    function Frame(i: nat): (r: nat)
      reads this
    {
      physBase + i * PAGE_SIZE
    }

    /** Same bitmap object and same page range. */
    twostate predicate SameRange()
      reads this
    {
      bitmap == old(bitmap) && totalPages == old(totalPages) && physBase == old(physBase)
    }

    /** pmm_init.  The bitmap occupies the first pages; the kernel image is marked used only when the
        managed range contains its base. */
    constructor (base: nat, size: nat, kernelSize: nat)
      requires AlignUp(base, PAGE_SIZE) + size <= 0x1_0000_0000_0000
      ensures Valid() && fresh(bitmap) && doubleFrees == 0
      ensures physBase == AlignUp(base, PAGE_SIZE) && totalPages == size / PAGE_SIZE
      ensures forall x :: x in free <==>
                BitmapPages(totalPages) <= x < totalPages && !IsKernelPage(physBase, totalPages, kernelSize, x)
    {
      physBase := AlignUp(base, PAGE_SIZE);
      totalPages := size / PAGE_SIZE;
      freePages := size / PAGE_SIZE;
      bitmap := new Word[(size / PAGE_SIZE + 63) / 64](_ => ALL_ONES);
      doubleFrees := 0;
      free := Pages(0, size / PAGE_SIZE);
      new;
      MarkRange(physBase, BitmapPages(totalPages));
      if physBase <= KERNEL_BASE < physBase + totalPages * PAGE_SIZE {
        MarkRange(KERNEL_BASE, AlignUp(kernelSize, PAGE_SIZE) / PAGE_SIZE);
      }
    }

    /** The loops of pmm_init that mark `n` pages from a page-aligned address on as used. */
    method MarkRange(addr: nat, n: nat)
      requires Valid() && addr >= physBase && addr % PAGE_SIZE == 0
      modifies this, bitmap
      ensures Valid() && SameRange() && doubleFrees == old(doubleFrees)
      ensures forall x :: x in free <==> x in old(free) && !InRange((addr - physBase) / PAGE_SIZE, n, x)
    {
      ghost var first := (addr - physBase) / PAGE_SIZE;
      for i := 0 to n
        invariant Valid() && SameRange() && doubleFrees == old(doubleFrees)
        invariant forall x :: x in free <==> x in old(free) && !InRange(first, i, x)
      {
        MarkUsed(addr + i * PAGE_SIZE);
      }
    }

    /** Write the bit of page `idx`. */
    method WriteBit(idx: nat, v: bool)
      requires Refines(bitmap[..], totalPages, free) && idx < totalPages
      modifies this`free, bitmap
      ensures Refines(bitmap[..], totalPages, free)
      ensures free == if v then old(free) + {idx} else old(free) - {idx}
    {
      WriteRefines(bitmap[..], totalPages, free, idx, v);
      ghost var before := bitmap[..];
      bitmap[idx / 64] := bitmap[idx / 64][idx % 64 := v];
      assert bitmap[..] == before[idx / 64 := before[idx / 64][idx % 64 := v]];
      free := if v then free + {idx} else free - {idx};
    }

    /** pmm_alloc: the least free page, or 0 when there is none. */
    method Alloc() returns (r: nat)
      requires Valid()
      modifies this, bitmap
      ensures Valid() && SameRange() && doubleFrees == old(doubleFrees)
      ensures r % PAGE_SIZE == 0 && r < 0x1_0000_0000_0000
      ensures old(free) == {} ==> r == 0 && free == {}
      ensures old(free) != {} ==>
                exists m :: IsLeast(old(free), m) && r == Frame(m) && free == old(free) - {m}
    {
      hide Refines, IsLeast;
      if freePages == 0 {
        return 0;
      }
      for i := 0 to bitmap.Length
        invariant Valid() && SameRange() && bitmap[..] == old(bitmap[..])
        invariant freePages == old(freePages) && doubleFrees == old(doubleFrees)
        invariant forall w :: 0 <= w < i ==> bitmap[w] == ZERO
      {
        if bitmap[i] != ZERO {
          var bit := Ctz(bitmap[i]);
          var pageIdx := i * 64 + bit;
          LowestWord(bitmap[..], totalPages, free, i);
          if pageIdx >= totalPages {
            return 0;
          }
          WriteBit(pageIdx, false);
          freePages := freePages - 1;
          return Frame(pageIdx);
        }
      }
      AllZero(bitmap[..], totalPages, free);
      return 0;
    }

    /** pmm_alloc_n: the lowest run of `n` free pages, or 0 exactly when there is none.  A caller asking
        for more pages than are managed makes the loop bound wrap; the source demands `n <= totalPages`. */
    method AllocN(n: nat) returns (r: nat)
      requires Valid() && n <= totalPages
      modifies this, bitmap
      ensures Valid() && SameRange() && doubleFrees == old(doubleFrees)
      ensures n == 0 ==> r == 0 && free == old(free)
      ensures n > 0 && (exists s: nat :: s + n <= totalPages && Pages(s, n) <= old(free)) ==>
                exists s: nat :: IsLowestRun(old(free), totalPages, s, n)
                                 && r == Frame(s) && free == old(free) - Pages(s, n)
      ensures n > 0 && !(exists s: nat :: s + n <= totalPages && Pages(s, n) <= old(free)) ==>
                r == 0 && free == old(free)
    {
      if n == 0 {
        return 0;
      }
      if n == 1 {
        r := Alloc();
        SinglePages(old(free), totalPages);
        return;
      }
      var found, start := FindRun(n);
      if found {
        TakeRun(start, n);
        r := Frame(start);
      } else {
        r := 0;
      }
    }

    /** The search loops of pmm_alloc_n. */
    method FindRun(n: nat) returns (found: bool, start: nat)
      requires Valid() && n <= totalPages
      ensures found ==> IsLowestRun(free, totalPages, start, n)
      ensures !found ==> forall k: nat :: k + n <= totalPages ==> !(Pages(k, n) <= free)
    {
      start := 0;
      while start <= totalPages - n
        invariant start <= totalPages - n + 1
        invariant forall k: nat :: k < start ==> !(Pages(k, n) <= free)
      {
        found := RunAt(start, n);
        if found {
          return;
        }
        start := start + 1;
      }
      found := false;
    }

    /** The inner loop: are the `n` bits from `start` on all set? */
    method RunAt(start: nat, n: nat) returns (found: bool)
      requires Valid() && start + n <= totalPages
      ensures found == (Pages(start, n) <= free)
    {
      for j := 0 to n
        invariant forall x :: start <= x < start + j ==> x in free
      {
        var idx := start + j;
        if !bitmap[idx / 64][idx % 64] {
          assert idx !in free by {
            if idx in free { FreeBit(bitmap[..], totalPages, free, idx); }
          }
          assert idx in Pages(start, n);
          return false;
        }
        assert idx in free by {
          assert idx / 64 * 64 + idx % 64 == idx;
          assert bitmap[..][idx / 64][idx % 64];
        }
      }
      return true;
    }

    /** Mark the `n` pages from `start` used and count them off. */
    method TakeRun(start: nat, n: nat)
      requires Valid() && start + n <= totalPages && Pages(start, n) <= free
      modifies this, bitmap
      ensures Valid() && SameRange() && doubleFrees == old(doubleFrees)
      ensures free == old(free) - Pages(start, n)
    {
      for j := 0 to n
        invariant SameRange() && freePages == old(freePages) && doubleFrees == old(doubleFrees)
        invariant Refines(bitmap[..], totalPages, free)
        invariant forall x :: x in free <==> x in old(free) && !(start <= x < start + j)
      {
        WriteBit(start + j, false);
      }
      freePages := freePages - n;
      assert free == old(free) - Pages(start, n);
      DifferenceSize(Pages(start, n), old(free));
    }

    /** pmm_free.  The count stays exact precisely when the page was not free already. */
    method FreePage(paddr: nat)
      requires Valid()
      modifies this, bitmap
      ensures Valid() && SameRange()
      ensures var idx := (paddr - physBase) / PAGE_SIZE;
              if paddr < physBase || idx >= totalPages
              then free == old(free) && doubleFrees == old(doubleFrees) && freePages == old(freePages)
              else free == old(free) + {idx} && freePages == old(freePages) + 1
                   && (doubleFrees == old(doubleFrees) <==> idx !in old(free))
    {
      if paddr < physBase {
        return;
      }
      var pageIdx := (paddr - physBase) / PAGE_SIZE;
      if pageIdx >= totalPages {
        return;
      }
      if pageIdx in free {
        doubleFrees := doubleFrees + 1;
        assert free + {pageIdx} == free;
      }
      WriteBit(pageIdx, true);
      freePages := freePages + 1;
    }

    /** pmm_mark_used. */
    method MarkUsed(paddr: nat)
      requires Valid()
      modifies this, bitmap
      ensures Valid() && SameRange() && doubleFrees == old(doubleFrees)
      ensures free == if paddr < physBase then old(free)
                        else old(free) - {(paddr - physBase) / PAGE_SIZE}
    {
      if paddr < physBase {
        return;
      }
      var pageIdx := (paddr - physBase) / PAGE_SIZE;
      if pageIdx >= totalPages {
        return;
      }
      if bitmap[pageIdx / 64][pageIdx % 64] {
        WriteBit(pageIdx, false);
        freePages := freePages - 1;
      }
    }
  }

  /** Pages taken by the bitmap itself: eight bytes a word, rounded up to whole pages. */
  function BitmapPages(total: nat): (r: nat) {
    AlignUp((total + 63) / 64 * 8, PAGE_SIZE) / PAGE_SIZE
  }

  predicate InRange(first: nat, n: nat, x: nat) {
    first <= x < first + n
  }

  /** The page holds part of the kernel image, whose base lies in the managed range. */
  ghost predicate IsKernelPage(base: nat, total: nat, kernelSize: nat, x: nat) {
    && base <= KERNEL_BASE < base + total * PAGE_SIZE
    && InRange((KERNEL_BASE - base) / PAGE_SIZE, AlignUp(kernelSize, PAGE_SIZE) / PAGE_SIZE, x)
  }

  /** A run of one page is a free page. */
  lemma {:induction false} SinglePages(s: set<nat>, total: nat)
    requires forall x :: x in s ==> x < total
    ensures forall k: nat :: Pages(k, 1) == {k}
    ensures forall m :: IsLeast(s, m) ==> IsLowestRun(s, total, m, 1)
  {
    forall k: nat ensures Pages(k, 1) == {k} {
      assert k in Pages(k, 1);
    }
    forall m | IsLeast(s, m) ensures IsLowestRun(s, total, m, 1) {
      forall k: nat | k < m ensures !(Pages(k, 1) <= s) {
        assert k in Pages(k, 1);
      }
    }
  }
}
