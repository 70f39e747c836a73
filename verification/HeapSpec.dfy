/** The kernel heap of mm.c as a list of blocks, in list order, over the memory areas it was given. */
module HeapSpec {
  const HEADER: nat := 24          // sizeof(heap_block_t)
  const WORD: nat := 0x1_0000_0000_0000_0000
  const PAGE: nat := 4096
  const MAGIC: nat := 0xCE15_0007  // HEAP_MAGIC

  datatype Block = Block(addr: nat, size: nat, used: bool)
  datatype Arena = Arena(base: nat, len: nat)

  function End(b: Block): (r: nat) {
    b.addr + HEADER + b.size
  }

  function Limit(a: Arena): (r: nat) {
    a.base + a.len
  }

  /** From address `pos` in the first area on, the blocks follow each other without gap or overlap, area
      by area. */
  ghost predicate TilesFrom(bs: seq<Block>, pos: nat, arenas: seq<Arena>)
    decreases |arenas|, |bs|
  {
    if arenas == [] then bs == []
    else if pos == Limit(arenas[0]) then
      if |arenas| > 1 then TilesFrom(bs, arenas[1].base, arenas[1..]) else bs == []
    else
      && bs != [] && bs[0].addr == pos && End(bs[0]) <= Limit(arenas[0])
      && TilesFrom(bs[1..], End(bs[0]), arenas)
  }

  ghost predicate Tiles(bs: seq<Block>, arenas: seq<Arena>) {
    if arenas == [] then bs == [] else TilesFrom(bs, arenas[0].base, arenas)
  }

  ghost predicate ArenaOk(a: Arena) {
    && 0 < a.base && 0 < a.len && a.base % 8 == 0 && a.len % 8 == 0
    && Limit(a) <= 0x1_0000_0000_0000
  }

  /** The areas are nonempty, away from address 0, 8-byte aligned, do not overlap, and an area is never
      continued in memory by the next one in the list. */
  ghost predicate ArenasOk(arenas: seq<Arena>) {
    && (forall i :: 0 <= i < |arenas| ==> ArenaOk(arenas[i]))
    && (forall i, j :: 0 <= i < j < |arenas| ==> Apart(arenas[i], arenas[j]))
    && (forall i :: 0 <= i < |arenas| - 1 ==> Limit(arenas[i]) != arenas[i + 1].base)
  }

  predicate Apart(a: Arena, b: Arena) {
    Limit(a) <= b.base || Limit(b) <= a.base
  }

  // ---- what tiling means

  /** Every block lies inside one area. */
  lemma {:induction false} BlockLocated(bs: seq<Block>, pos: nat, arenas: seq<Arena>, j: nat) returns (k: nat)
    requires arenas != [] && TilesFrom(bs, pos, arenas) && j < |bs|
    requires arenas[0].base <= pos <= Limit(arenas[0])
    ensures k < |arenas| && arenas[k].base <= bs[j].addr && End(bs[j]) <= Limit(arenas[k])
    ensures k == 0 ==> pos <= bs[j].addr
    decreases |arenas|, |bs|
  {
    if pos == Limit(arenas[0]) {
      var k' := BlockLocated(bs, arenas[1].base, arenas[1..], j);
      k := k' + 1;
    } else if j == 0 {
      k := 0;
    } else {
      k := BlockLocated(bs[1..], End(bs[0]), arenas, j - 1);
    }
  }

  /** Two blocks do not overlap. */
  lemma {:induction false} BlocksApart(bs: seq<Block>, pos: nat, arenas: seq<Arena>, i: nat, j: nat)
    requires arenas != [] && ArenasOk(arenas) && TilesFrom(bs, pos, arenas) && i < j < |bs|
    requires arenas[0].base <= pos <= Limit(arenas[0])
    ensures End(bs[i]) <= bs[j].addr || End(bs[j]) <= bs[i].addr
    decreases |arenas|, |bs|
  {
    if pos == Limit(arenas[0]) {
      BlocksApart(bs, arenas[1].base, arenas[1..], i, j);
    } else if i == 0 {
      var k := BlockLocated(bs[1..], End(bs[0]), arenas, j - 1);
      if k > 0 {
        assert Apart(arenas[0], arenas[k]);
      }
    } else {
      BlocksApart(bs[1..], End(bs[0]), arenas, i - 1, j - 1);
    }
  }

  function TotalSize(bs: seq<Block>): (r: nat) {
    if bs == [] then 0 else HEADER + bs[0].size + TotalSize(bs[1..])
  }

  function TotalLen(arenas: seq<Arena>): (r: nat) {
    if arenas == [] then 0 else arenas[0].len + TotalLen(arenas[1..])
  }

  /** Headers and payloads together are exactly the memory of the areas. */
  lemma {:induction false} SizesAddUp(bs: seq<Block>, pos: nat, arenas: seq<Arena>)
    requires arenas != [] && TilesFrom(bs, pos, arenas) && arenas[0].base <= pos <= Limit(arenas[0])
    ensures TotalSize(bs) == Limit(arenas[0]) - pos + TotalLen(arenas[1..])
    decreases |arenas|, |bs|
  {
    if pos == Limit(arenas[0]) {
      if |arenas| > 1 {
        SizesAddUp(bs, arenas[1].base, arenas[1..]);
      }
    } else {
      SizesAddUp(bs[1..], End(bs[0]), arenas);
    }
  }

  // ---- kmalloc

  predicate Fits(b: Block, size: nat) {
    !b.used && b.size >= size
  }

  /** The index of the first free block that is large enough, or the length of the list. */
  function FirstFit(bs: seq<Block>, size: nat): (i: nat)
    ensures i <= |bs| && (i < |bs| ==> !bs[i].used && bs[i].size >= size)
    ensures forall j :: 0 <= j < i ==> bs[j].used || bs[j].size < size
  {
    if bs == [] then 0 else if Fits(bs[0], size) then 0 else 1 + FirstFit(bs[1..], size)
  }

  /** The block is split when the rest can hold a header and 16 bytes. */
  predicate Splits(b: Block, size: nat) {
    b.size >= size + HEADER + 16
  }

  /** The list after block `i` is taken for `size` bytes. */
  function Take(bs: seq<Block>, i: nat, size: nat): (r: seq<Block>)
    requires i < |bs| && Fits(bs[i], size)
  {
    var b := bs[i];
    if Splits(b, size) then
      bs[..i] + [Block(b.addr, size, true), Block(b.addr + HEADER + size, b.size - size - HEADER, false)] + bs[i + 1..]
    else
      bs[i := b.(used := true)]
  }

  /** The payload kmalloc hands out. */
  function Taken(b: Block, size: nat): (r: Block) {
    Block(b.addr, if Splits(b, size) then size else b.size, true)
  }

  // ---- kfree

  /** The list after block `i` is freed: it absorbs its successor in the list when that is free. */
  function Release(bs: seq<Block>, i: nat): (r: seq<Block>)
    requires i < |bs|
  {
    var b := bs[i].(used := false);
    if i + 1 < |bs| && !bs[i + 1].used then
      bs[..i] + [b.(size := b.size + HEADER + bs[i + 1].size)] + bs[i + 2..]
    else
      bs[i := b]
  }

  /** The successor in the list is absorbed although it does not follow in memory. */
  predicate MergesAcross(bs: seq<Block>, i: nat)
    requires i < |bs|
  {
    i + 1 < |bs| && !bs[i + 1].used && End(bs[i]) != bs[i + 1].addr
  }

  // ---- tiling is kept

  lemma {:induction false} TakeTail(bs: seq<Block>, i: nat, size: nat)
    requires 0 < i < |bs| && Fits(bs[i], size)
    ensures Take(bs, i, size) == [bs[0]] + Take(bs[1..], i - 1, size)
  {
    var rest, b := bs[1..], bs[i];
    assert rest[i - 1] == b;
    if Splits(b, size) {
      var m, n := Block(b.addr, size, true), Block(b.addr + HEADER + size, b.size - size - HEADER, false);
      var tail := bs[i + 1..];
      assert rest[i..] == tail;
      SliceTail(bs, i, m, [n] + tail);
      assert bs[..i] + [m, n] + tail == bs[..i] + [m] + ([n] + tail);
      assert rest[..i - 1] + [m, n] + tail == rest[..i - 1] + [m] + ([n] + tail);
    }
  }

  lemma {:induction false} ReleaseTail(bs: seq<Block>, i: nat)
    requires 0 < i < |bs|
    ensures Release(bs, i) == [bs[0]] + Release(bs[1..], i - 1)
  {
    var rest := bs[1..];
    assert rest[i - 1] == bs[i] && (i + 1 < |bs| ==> rest[i] == bs[i + 1]);
    if i + 1 < |bs| && !bs[i + 1].used {
      var m := bs[i].(used := false).(size := bs[i].size + HEADER + bs[i + 1].size);
      assert Release(bs, i) == bs[..i] + [m] + bs[i + 2..];
      assert Release(rest, i - 1) == rest[..i - 1] + [m] + rest[i + 1..];
      assert rest[i + 1..] == bs[i + 2..];
      SliceTail(bs, i, m, bs[i + 2..]);
    }
  }

  lemma {:induction false} SliceTail(bs: seq<Block>, i: nat, m: Block, tail: seq<Block>)
    requires 0 < i < |bs|
    ensures bs[..i] + [m] + tail == [bs[0]] + (bs[1..][..i - 1] + [m] + tail)
  {
    assert bs[..i] == [bs[0]] + bs[1..][..i - 1];
  }

  /** Tiling looks at addresses and sizes only, and a block may be replaced by blocks covering the same
      range. */
  lemma {:induction false} SplitKeepsTiles(bs: seq<Block>, pos: nat, arenas: seq<Arena>, i: nat, size: nat)
    requires arenas != [] && TilesFrom(bs, pos, arenas) && i < |bs| && Fits(bs[i], size)
    requires arenas[0].base <= pos <= Limit(arenas[0])
    ensures TilesFrom(Take(bs, i, size), pos, arenas)
    decreases |arenas|, |bs|
  {
    var bs' := Take(bs, i, size);
    if pos == Limit(arenas[0]) {
      SplitKeepsTiles(bs, arenas[1].base, arenas[1..], i, size);
    } else if i == 0 {
      if Splits(bs[0], size) {
        assert bs'[1..] == [bs'[1]] + bs[1..];
        assert bs'[1..][1..] == bs[1..];
      } else {
        assert bs'[1..] == bs[1..];
      }
    } else {
      SplitKeepsTiles(bs[1..], End(bs[0]), arenas, i - 1, size);
      TakeTail(bs, i, size);
    }
  }

  lemma {:induction false} ReleaseKeepsTiles(bs: seq<Block>, pos: nat, arenas: seq<Arena>, i: nat)
    requires arenas != [] && ArenasOk(arenas) && TilesFrom(bs, pos, arenas) && i < |bs|
    requires arenas[0].base <= pos <= Limit(arenas[0])
    ensures TilesFrom(Release(bs, i), pos, arenas) <==> !MergesAcross(bs, i)
    decreases |arenas|, |bs|
  {
    var bs' := Release(bs, i);
    if pos == Limit(arenas[0]) {
      ReleaseKeepsTiles(bs, arenas[1].base, arenas[1..], i);
    } else if i == 0 {
      if 1 < |bs| && !bs[1].used {
        assert bs'[1..] == bs[2..] == bs[1..][1..];
        if End(bs[0]) != Limit(arenas[0]) {
          assert bs[1..][0].addr == End(bs[0]);
        } else {
          assert ArenaOk(arenas[1]) && arenas[1..][0] == arenas[1];
          assert TilesFrom(bs[1..], arenas[1].base, arenas[1..]);
          assert bs[1..][0].addr == arenas[1].base;
        }
      } else {
        assert bs'[1..] == bs[1..];
      }
    } else {
      ReleaseKeepsTiles(bs[1..], End(bs[0]), arenas, i - 1);
      ReleaseTail(bs, i);
    }
  }

  // ---- growth

  /** Memory obtained from the page allocator goes in front; it continues into the first area when the
      two are adjacent. */
  function Extend(arenas: seq<Arena>, base: nat, len: nat): (r: seq<Arena>) {
    if arenas != [] && arenas[0].base == base + len then
      [Arena(base, len + arenas[0].len)] + arenas[1..]
    else
      [Arena(base, len)] + arenas
  }

  /** Tiling depends on the first area only through its end. */
  lemma {:induction false} WidenFirst(bs: seq<Block>, pos: nat, arenas: seq<Arena>, wide: seq<Arena>)
    requires arenas != [] && TilesFrom(bs, pos, arenas)
    requires wide != [] && Limit(wide[0]) == Limit(arenas[0]) && wide[1..] == arenas[1..]
    ensures TilesFrom(bs, pos, wide)
    decreases |bs|
  {
    if pos == Limit(arenas[0]) {
      assert |arenas| > 1 ==> wide[1] == wide[1..][0] == arenas[1..][0] == arenas[1];
    } else {
      WidenFirst(bs[1..], End(bs[0]), arenas, wide);
    }
  }

  /** Growth keeps the areas well formed and tiled. */
  lemma {:induction false} ExtendKeepsTiles(bs: seq<Block>, arenas: seq<Arena>, base: nat, len: nat)
    requires ArenasOk(arenas) && Tiles(bs, arenas) && ArenaOk(Arena(base, len)) && len >= HEADER
    requires forall i :: 0 <= i < |arenas| ==> Apart(Arena(base, len), arenas[i])
    ensures ArenasOk(Extend(arenas, base, len))
    ensures Tiles([Block(base, len - HEADER, false)] + bs, Extend(arenas, base, len))
  {
    var grown := Extend(arenas, base, len);
    var area := Arena(base, len);
    var bs' := [Block(base, len - HEADER, false)] + bs;
    assert bs'[1..] == bs;
    if arenas != [] && arenas[0].base == base + len {
      assert grown[1..] == arenas[1..];
      forall i: nat | i < |grown| ensures ArenaOk(grown[i]) {
        assert ArenaOk(arenas[i]) && ArenaOk(arenas[0]);
      }
      forall i: nat, j: nat | i < j < |grown| ensures Apart(grown[i], grown[j]) {
        assert Apart(arenas[i], arenas[j]) && Apart(area, arenas[j]) && ArenaOk(arenas[j]);
      }
      WidenFirst(bs, arenas[0].base, arenas, grown);
    } else {
      assert grown[1..] == arenas;
      forall i: nat, j: nat | i < j < |grown| ensures Apart(grown[i], grown[j]) {
        assert i > 0 ==> Apart(arenas[i - 1], arenas[j - 1]);
      }
      assert Tiles(bs', grown);
    }
  }

  // ---- the payloads handed out

  /** The payloads in use. */
  ghost function Live(bs: seq<Block>): (r: set<Block>) {
    set j | 0 <= j < |bs| && bs[j].used :: bs[j]
  }

  ghost predicate DistinctAddrs(bs: seq<Block>) {
    forall i, j :: 0 <= i < j < |bs| ==> bs[i].addr != bs[j].addr
  }

  lemma {:induction false} TiledDistinct(bs: seq<Block>, arenas: seq<Arena>)
    requires ArenasOk(arenas) && Tiles(bs, arenas)
    ensures DistinctAddrs(bs)
  {
    forall i, j | 0 <= i < j < |bs| ensures bs[i].addr != bs[j].addr {
      BlocksApart(bs, arenas[0].base, arenas, i, j);
    }
  }

  /** Taking a block adds exactly one payload, of at least the requested size and inside the block taken,
      and leaves every other payload as it is. */
  lemma {:induction false} TakeAddsOne(bs: seq<Block>, i: nat, size: nat)
    requires i < |bs| && Fits(bs[i], size)
    ensures Live(Take(bs, i, size)) == Live(bs) + {Taken(bs[i], size)}
    ensures var t := Taken(bs[i], size); t.addr == bs[i].addr && t.size >= size && End(t) <= End(bs[i])
  {
    var bs' := Take(bs, i, size);
    var shift := if Splits(bs[i], size) then 1 else 0;
    forall b ensures b in Live(bs') <==> b in Live(bs) || b == Taken(bs[i], size) {
      if b in Live(bs) {
        var j :| 0 <= j < |bs| && bs[j].used && bs[j] == b;
        assert bs'[if j < i then j else j + shift] == b;
      }
      if b in Live(bs') {
        var j :| 0 <= j < |bs'| && bs'[j].used && bs'[j] == b;
        assert j < i ==> bs[j] == b;
        assert j > i + shift ==> bs[j - shift] == b;
      }
      assert bs'[i] == Taken(bs[i], size);
    }
  }

  /** Freeing a block removes exactly its payload. */
  lemma {:induction false} ReleaseRemovesOne(bs: seq<Block>, i: nat)
    requires DistinctAddrs(bs) && i < |bs| && bs[i].used
    ensures Live(Release(bs, i)) == Live(bs) - {bs[i]}
  {
    var bs' := Release(bs, i);
    var shift := |bs| - |bs'|;
    forall b ensures b in Live(bs') <==> b in Live(bs) && b != bs[i] {
      if b in Live(bs) && b != bs[i] {
        var j :| 0 <= j < |bs| && bs[j].used && bs[j] == b;
        assert bs'[if j < i then j else j - shift] == b;
      }
      if b in Live(bs') {
        var j :| 0 <= j < |bs'| && bs'[j].used && bs'[j] == b;
        assert bs[if j < i then j else j + shift] == b;
      }
    }
  }

  /** Any two payloads in use are disjoint, and no block header lies in one. */
  lemma {:induction false} LiveApart(bs: seq<Block>, arenas: seq<Arena>, i: nat, j: nat)
    requires ArenasOk(arenas) && Tiles(bs, arenas) && i < |bs| && j < |bs| && i != j
    ensures End(bs[i]) <= bs[j].addr || End(bs[j]) <= bs[i].addr
  {
    if i < j {
      BlocksApart(bs, arenas[0].base, arenas, i, j);
    } else {
      BlocksApart(bs, arenas[0].base, arenas, j, i);
    }
  }

  // ---- a request and its return

  /** A block is split when 40 bytes or more are left: the rest is free, lies right behind and has at least
      16 bytes.  Otherwise the whole block is handed out, with less than 40 bytes too many. */
  lemma {:induction false} TakeWaste(bs: seq<Block>, i: nat, size: nat)
    requires i < |bs| && Fits(bs[i], size)
    ensures var b, bs' := bs[i], Take(bs, i, size);
            && bs'[i].used && bs'[i].addr == b.addr && size <= bs'[i].size < size + 40
            && |bs'| == (if b.size >= size + 40 then |bs| + 1 else |bs|)
            && (b.size < size + 40 ==> bs'[i].size == b.size)
            && (b.size >= size + 40 ==>
                  && bs'[i].size == size && !bs'[i + 1].used && bs'[i + 1].size >= 16
                  && bs'[i + 1].addr == b.addr + 24 + size
                  && bs'[i + 1].addr + 24 + bs'[i + 1].size == b.addr + 24 + b.size)
  {
  }

  /** A block freed is free, stays where it is, and takes a free successor with its header in. */
  lemma {:induction false} ReleaseGives(bs: seq<Block>, i: nat)
    requires i < |bs|
    ensures var bs' := Release(bs, i);
            && i < |bs'| && !bs'[i].used && bs'[i].addr == bs[i].addr
            && (i + 1 < |bs| && !bs[i + 1].used ==>
                  |bs'| == |bs| - 1 && bs'[i].size == bs[i].size + 24 + bs[i + 1].size)
            && (i + 1 == |bs| || bs[i + 1].used ==> |bs'| == |bs| && bs'[i].size == bs[i].size)
  {
  }

  /** Freeing a block just taken restores the list exactly when it was split, or has no free successor that
      it absorbs instead. */
  lemma {:induction false} ReleaseUndoesTake(bs: seq<Block>, i: nat, size: nat)
    requires i < |bs| && Fits(bs[i], size)
    ensures Release(Take(bs, i, size), i) == bs <==> bs[i].size >= size + 40 || i + 1 == |bs| || bs[i + 1].used
  {
    var b, taken := bs[i], Take(bs, i, size);
    if b.size >= size + 40 {
      assert taken[..i] == bs[..i] && taken[i + 2..] == bs[i + 1..];
      assert bs == bs[..i] + [b] + bs[i + 1..];
    } else {
      assert taken == bs[i := b.(used := true)];
      ReleaseGives(taken, i);
    }
  }

  /** The same for the two calls: kmalloc followed by kfree of its pointer. */
  lemma {:induction false} KfreeUndoesKmalloc(bs: seq<Block>, size: nat)
    requires DistinctAddrs(bs) && 0 < size < WORD && FirstFit(bs, AlignUp16(size)) < |bs|
    ensures var i := FirstFit(bs, AlignUp16(size));
            Step(Step(bs, Kmalloc(size)), Kfree(bs[i].addr + 24)) == bs <==>
              bs[i].size >= AlignUp16(size) + 40 || i + 1 == |bs| || bs[i + 1].used
  {
    hide AlignUp16, FirstFit, Take, Release, DistinctAddrs, Find;
    var s := AlignUp16(size);
    var i := FirstFit(bs, s);
    FindTaken(bs, i, s);
    ReleaseUndoesTake(bs, i, s);
  }

  lemma {:induction false} FindTaken(bs: seq<Block>, i: nat, size: nat)
    requires DistinctAddrs(bs) && i < |bs| && Fits(bs[i], size)
    ensures var bs' := Take(bs, i, size);
            |bs'| >= |bs| && bs'[i].used && Find(bs', bs[i].addr + 24) == i
  {
    hide Fits, Splits;
    var bs' := Take(bs, i, size);
    assert bs'[i].used && bs'[i].addr == bs[i].addr;
    assert forall j :: 0 <= j < i ==> bs'[j] == bs[j];
  }

  /** Freeing twice is freeing once. */
  lemma {:induction false} FreedTwice(bs: seq<Block>, ptr: nat)
    ensures Step(Step(bs, Kfree(ptr)), Kfree(ptr)) == Step(bs, Kfree(ptr))
  {
    var i := Find(bs, ptr);
    if i < |bs| && bs[i].used {
      var freed := Release(bs, i);
      ReleaseGives(bs, i);
      assert forall j :: 0 <= j < i ==> freed[j] == bs[j];
      assert Find(freed, ptr) == i;
    }
  }

  // ---- alignment and size arithmetic

  ghost predicate Aligned8(bs: seq<Block>) {
    forall j :: 0 <= j < |bs| ==> bs[j].addr % 8 == 0 && bs[j].size % 8 == 0
  }

  /** `ALIGN_UP(size, 16)` in 64 bits. */
  function AlignUp16(size: nat): (r: nat)
    requires size < WORD
    ensures r % 16 == 0 && r < WORD
  {
    (size + 15) % WORD / 16 * 16
  }

  /** The request is rounded up to a multiple of 16 unless it is within 16 bytes of 2^64; then it becomes 0. */
  lemma {:induction false} AlignUp16Enough(size: nat)
    requires size < WORD
    ensures AlignUp16(size) >= size <==> size <= WORD - 16
    ensures size > WORD - 16 ==> AlignUp16(size) == 0
    ensures size <= WORD - 16 ==> AlignUp16(size) < size + 16 && AlignUp16(AlignUp16(size)) == AlignUp16(size)
  {
  }

  /** `ALIGN_UP(size + sizeof(heap_block_t), PAGE_SIZE) / PAGE_SIZE` in 64 bits. */
  function PagesNeeded(size: nat): (r: nat) {
    (size + HEADER + PAGE - 1) % WORD / PAGE
  }

  /** The block made of the new pages satisfies the retried request, unless the page count wrapped; of the
      multiples of 16, only 2^64 - 16 wraps to a nonzero count. */
  lemma {:induction false} GrowthFits(size: nat)
    requires 0 < size < WORD && size % 16 == 0
    ensures size + HEADER + PAGE - 1 < WORD ==>
              PagesNeeded(size) > 0 && size + 24 <= PagesNeeded(size) * 4096 < size + 24 + 4096
    ensures size + HEADER + PAGE - 1 >= WORD ==> PagesNeeded(size) == if size == WORD - 16 then 1 else 0
  {
  }

  lemma {:induction false} Multiples8(a: int, b: int)
    requires a % 8 == 0 && b % 8 == 0
    ensures (a + b) % 8 == 0 && (a - b) % 8 == 0
  {
  }

  lemma {:induction false} TakeKeepsAligned(bs: seq<Block>, i: nat, size: nat)
    requires Aligned8(bs) && i < |bs| && Fits(bs[i], size) && size % 16 == 0
    ensures Aligned8(Take(bs, i, size))
  {
    var b := bs[i];
    Multiples8(size, HEADER);
    Multiples8(b.addr, size + HEADER);
    Multiples8(b.size, size + HEADER);
    var bs' := Take(bs, i, size);
    var shift := if Splits(b, size) then 1 else 0;
    forall j | 0 <= j < |bs'| ensures bs'[j].addr % 8 == 0 && bs'[j].size % 8 == 0 {
      if j > i + shift { assert bs'[j] == bs[j - shift]; }
      if j < i { assert bs'[j] == bs[j]; }
    }
  }

  lemma {:induction false} ReleaseKeepsAligned(bs: seq<Block>, i: nat)
    requires Aligned8(bs) && i < |bs|
    ensures Aligned8(Release(bs, i))
  {
    if i + 1 < |bs| {
      Multiples8(bs[i].size, HEADER);
      Multiples8(bs[i].size + HEADER, bs[i + 1].size);
    }
    var bs' := Release(bs, i);
    var shift := |bs| - |bs'|;
    forall j | 0 <= j < |bs'| ensures bs'[j].addr % 8 == 0 && bs'[j].size % 8 == 0 {
      if j > i { assert bs'[j] == bs[j + shift]; }
    }
  }

  // ---- runs

  datatype Op = Kmalloc(size: nat) | Kfree(ptr: nat)

  /** The index of the block whose payload starts at `ptr`, or the length of the list. */
  function Find(bs: seq<Block>, ptr: nat): (i: nat)
    ensures i <= |bs| && (i < |bs| ==> bs[i].addr + HEADER == ptr)
    ensures forall j :: 0 <= j < i ==> bs[j].addr + HEADER != ptr
  {
    if bs == [] then 0 else if bs[0].addr + HEADER == ptr then 0 else 1 + Find(bs[1..], ptr)
  }

  /** One call, with no memory to grow into. */
  function Step(bs: seq<Block>, op: Op): (r: seq<Block>)
    requires op.Kmalloc? ==> op.size < WORD
  {
    match op
    case Kmalloc(size) =>
      if size == 0 then bs
      else
        var i := FirstFit(bs, AlignUp16(size));
        if i < |bs| then Take(bs, i, AlignUp16(size)) else bs
    case Kfree(ptr) =>
      var i := Find(bs, ptr);
      if i < |bs| && bs[i].used then Release(bs, i) else bs
  }

  function Run(bs: seq<Block>, ops: seq<Op>): (r: seq<Block>)
    requires forall k :: 0 <= k < |ops| ==> ops[k].Kmalloc? ==> ops[k].size < WORD
    decreases |ops|
  {
    if ops == [] then bs else Run(Step(bs, ops[0]), ops[1..])
  }

  /** In one area every block is followed in memory by its successor in the list. */
  lemma {:induction false} OneAreaAdjacent(bs: seq<Block>, pos: nat, a: Arena, i: nat)
    requires TilesFrom(bs, pos, [a]) && i + 1 < |bs|
    ensures End(bs[i]) == bs[i + 1].addr
  {
    assert pos != Limit(a) && TilesFrom(bs[1..], End(bs[0]), [a]);
    if i == 0 {
      assert bs[1..][0] == bs[1];
    } else {
      OneAreaAdjacent(bs[1..], End(bs[0]), a, i - 1);
    }
  }

  lemma {:induction false} StepKeepsTiles(bs: seq<Block>, a: Arena, op: Op)
    requires ArenaOk(a) && Tiles(bs, [a]) && Aligned8(bs) && (op.Kmalloc? ==> op.size < WORD)
    ensures Tiles(Step(bs, op), [a]) && Aligned8(Step(bs, op))
  {
    hide TilesFrom, Aligned8, Take, Release;
    match op {
      case Kmalloc(size) =>
        var s := AlignUp16(size);
        var i := FirstFit(bs, s);
        if size > 0 && i < |bs| {
          SplitKeepsTiles(bs, a.base, [a], i, s);
          TakeKeepsAligned(bs, i, s);
        }
      case Kfree(ptr) =>
        var i := Find(bs, ptr);
        if i < |bs| {
          ReleaseKeepsTiles(bs, a.base, [a], i);
          ReleaseKeepsAligned(bs, i);
          if i + 1 < |bs| {
            OneAreaAdjacent(bs, a.base, a, i);
          }
        }
    }
  }

  /** Over every run of kmalloc and kfree in one area: the list tiles the area, sizes add up to the area,
      and every block stays 8-byte aligned. */
  lemma {:induction false} RunKeepsTiles(bs: seq<Block>, a: Arena, ops: seq<Op>)
    requires ArenaOk(a) && Tiles(bs, [a]) && Aligned8(bs)
    requires forall k :: 0 <= k < |ops| ==> ops[k].Kmalloc? ==> ops[k].size < WORD
    ensures Tiles(Run(bs, ops), [a]) && Aligned8(Run(bs, ops))
    ensures TotalSize(Run(bs, ops)) == a.len
    decreases |ops|
  {
    if ops == [] {
      SizesAddUp(bs, a.base, [a]);
    } else {
      StepKeepsTiles(bs, a, ops[0]);
      RunKeepsTiles(Step(bs, ops[0]), a, ops[1..]);
    }
  }

  /** A call that does not free a payload leaves it in use, where it is and as large as it is. */
  lemma {:induction false} StepKeepsLive(bs: seq<Block>, a: Arena, op: Op, b: Block)
    requires ArenaOk(a) && Tiles(bs, [a]) && (op.Kmalloc? ==> op.size < WORD)
    requires b in Live(bs) && op != Kfree(b.addr + HEADER)
    ensures b in Live(Step(bs, op))
  {
    hide TilesFrom, Take, Release;
    assert ArenasOk([a]);
    TiledDistinct(bs, [a]);
    match op {
      case Kmalloc(size) =>
        var i := FirstFit(bs, AlignUp16(size));
        if size > 0 && i < |bs| {
          TakeAddsOne(bs, i, AlignUp16(size));
        }
      case Kfree(ptr) =>
        var i := Find(bs, ptr);
        if i < |bs| && bs[i].used {
          ReleaseRemovesOne(bs, i);
        }
    }
  }

  /** Over every run a payload stays in use, unmoved and with its size, until its own pointer is freed. */
  lemma {:induction false} RunKeepsLive(bs: seq<Block>, a: Arena, ops: seq<Op>, b: Block)
    requires ArenaOk(a) && Tiles(bs, [a]) && Aligned8(bs)
    requires forall k :: 0 <= k < |ops| ==> ops[k].Kmalloc? ==> ops[k].size < WORD
    requires b in Live(bs) && forall k :: 0 <= k < |ops| ==> ops[k] != Kfree(b.addr + HEADER)
    ensures b in Live(Run(bs, ops))
    decreases |ops|
  {
    if ops != [] {
      StepKeepsTiles(bs, a, ops[0]);
      StepKeepsLive(bs, a, ops[0], b);
      RunKeepsLive(Step(bs, ops[0]), a, ops[1..], b);
    }
  }

  /** Two payloads in use never overlap. */
  lemma {:induction false} LiveDisjoint(bs: seq<Block>, arenas: seq<Arena>, b: Block, c: Block)
    requires ArenasOk(arenas) && Tiles(bs, arenas) && b in Live(bs) && c in Live(bs) && b != c
    ensures End(b) <= c.addr || End(c) <= b.addr
  {
    var i :| 0 <= i < |bs| && bs[i].used && bs[i] == b;
    var j :| 0 <= j < |bs| && bs[j].used && bs[j] == c;
    LiveApart(bs, arenas, i, j);
  }

  /** The payload a request got: it starts at the pointer returned. */
  function Got(bs: seq<Block>, size: nat): (b: Block)
    requires size < WORD && FirstFit(bs, AlignUp16(size)) < |bs|
  {
    Taken(bs[FirstFit(bs, AlignUp16(size))], AlignUp16(size))
  }

  lemma {:induction false} GotIsLive(bs: seq<Block>, size: nat)
    requires 0 < size <= WORD - 16 && FirstFit(bs, AlignUp16(size)) < |bs|
    ensures Got(bs, size) in Live(Step(bs, Kmalloc(size))) && Got(bs, size).size >= size
  {
    hide Take, Live, AlignUp16;
    AlignUp16Enough(size);
    TakeAddsOne(bs, FirstFit(bs, AlignUp16(size)), AlignUp16(size));
  }

  /** The promise of kmalloc over every run: a pointer returned for `size` bytes has at least that many until
      it is freed, and they are nobody else's. */
  lemma {:induction false} PayloadKept(bs: seq<Block>, a: Arena, size: nat, ops: seq<Op>, other: Block)
    requires ArenaOk(a) && Tiles(bs, [a]) && Aligned8(bs)
    requires 0 < size <= WORD - 16 && FirstFit(bs, AlignUp16(size)) < |bs|
    requires forall k :: 0 <= k < |ops| ==> ops[k].Kmalloc? ==> ops[k].size < WORD
    requires forall k :: 0 <= k < |ops| ==> ops[k] != Kfree(Got(bs, size).addr + HEADER)
    ensures var after := Run(Step(bs, Kmalloc(size)), ops);
            var b := Got(bs, size);
            && b in Live(after) && b.size >= size
            && (other in Live(after) && other != b ==> End(b) <= other.addr || End(other) <= b.addr)
  {
    hide TilesFrom, Aligned8, Step, Run, Live, Got, FirstFit, AlignUp16;
    GotIsLive(bs, size);
    StepKeepsTiles(bs, a, Kmalloc(size));
    var bs1 := Step(bs, Kmalloc(size));
    RunKeepsTiles(bs1, a, ops);
    RunKeepsLive(bs1, a, ops, Got(bs, size));
    assert ArenasOk([a]);
    if other in Live(Run(bs1, ops)) && other != Got(bs, size) {
      LiveDisjoint(Run(bs1, ops), [a], Got(bs, size), other);
    }
  }

  /** A payload is 16-byte aligned exactly when its header is not. */
  lemma {:induction false} PayloadAlignment(b: Block)
    requires b.addr % 8 == 0
    ensures (b.addr + HEADER) % 16 == 0 <==> b.addr % 16 == 8
    ensures (b.addr + HEADER) % 16 == 0 || (b.addr + HEADER) % 16 == 8
  {
  }

  /** Splitting alternates: the rest of a block whose payload is 16-byte aligned is not, and the other way
      round. */
  lemma {:induction false} AlignmentAlternates(bs: seq<Block>, i: nat, size: nat)
    requires Aligned8(bs) && i < |bs| && Fits(bs[i], size) && Splits(bs[i], size) && size % 16 == 0
    ensures var bs' := Take(bs, i, size);
            bs'[i].addr % 16 == 8 <==> bs'[i + 1].addr % 16 == 0
  {
    var x, y := bs[i].addr, bs[i].addr + HEADER + size;
    assert y - x == 24 + size && x % 8 == 0;
    SixteenApart(x, size);
  }

  lemma {:induction false} SixteenApart(x: nat, size: nat)
    requires x % 8 == 0 && size % 16 == 0
    ensures x % 16 == 8 <==> (x + 24 + size) % 16 == 0
  {
    var q := size / 16;
    assert x + 24 + size == x + 24 + 16 * q;
  }

  // ---- a heap from which nothing was freed yet

  /** Everything is in use but the last block. */
  predicate OneFree(bs: seq<Block>) {
    bs != [] && !bs[|bs| - 1].used && forall j :: 0 <= j < |bs| - 1 ==> bs[j].used
  }

  lemma {:induction false} OneFreeStep(bs: seq<Block>, size: nat)
    requires OneFree(bs) && 0 < size <= WORD - 16 && Splits(bs[|bs| - 1], AlignUp16(size))
    ensures var bs', s, last := Step(bs, Kmalloc(size)), AlignUp16(size), bs[|bs| - 1];
            && OneFree(bs') && FirstFit(bs, s) == |bs| - 1
            && bs'[|bs'| - 1] == Block(last.addr + HEADER + s, last.size - s - HEADER, false)
  {
    hide AlignUp16, FirstFit;
    var i := FirstFit(bs, AlignUp16(size));
    assert Fits(bs[|bs| - 1], AlignUp16(size));
    assert i == |bs| - 1;
  }

  function Kmallocs(sizes: seq<nat>): (ops: seq<Op>)
    ensures |ops| == |sizes| && forall k :: 0 <= k < |ops| ==> ops[k] == Kmalloc(sizes[k])
  {
    if sizes == [] then [] else [Kmalloc(sizes[0])] + Kmallocs(sizes[1..])
  }

  /** What these requests take, headers included. */
  function Spent(sizes: seq<nat>): (n: nat)
    requires forall k :: 0 <= k < |sizes| ==> sizes[k] < WORD
  {
    if sizes == [] then 0 else HEADER + AlignUp16(sizes[0]) + Spent(sizes[1..])
  }

  lemma {:induction false} SpentModulo(sizes: seq<nat>)
    requires forall k :: 0 <= k < |sizes| ==> sizes[k] < WORD
    ensures Spent(sizes) % 16 == if |sizes| % 2 == 1 then 8 else 0
  {
    if sizes != [] {
      SpentModulo(sizes[1..]);
    }
  }

  lemma {:induction false} NextFits(bs: seq<Block>, sizes: seq<nat>)
    requires OneFree(bs) && sizes != [] && forall k :: 0 <= k < |sizes| ==> sizes[k] < WORD
    requires Spent(sizes) + 16 <= bs[|bs| - 1].size
    ensures Splits(bs[|bs| - 1], AlignUp16(sizes[0]))
  {
    hide AlignUp16;
  }

  /** While all requests fit, they are served one behind the other. */
  lemma {:induction false} ServedInTurn(bs: seq<Block>, sizes: seq<nat>)
    requires OneFree(bs) && forall k :: 0 <= k < |sizes| ==> 0 < sizes[k] <= WORD - 16
    requires Spent(sizes) + 16 <= bs[|bs| - 1].size
    ensures var bs', last := Run(bs, Kmallocs(sizes)), bs[|bs| - 1];
            OneFree(bs') && bs'[|bs'| - 1] == Block(last.addr + Spent(sizes), last.size - Spent(sizes), false)
    decreases |sizes|
  {
    hide AlignUp16, Step, Take, Splits;
    if sizes != [] {
      NextFits(bs, sizes);
      OneFreeStep(bs, sizes[0]);
      assert Kmallocs(sizes)[1..] == Kmallocs(sizes[1..]);
      ServedInTurn(Step(bs, Kmalloc(sizes[0])), sizes[1..]);
    }
  }

  lemma {:induction false} OnePage()
    ensures AlignUp16(4064) == 4064 && PagesNeeded(4064) == 1
  {
  }

  /** With two areas this fails: a heap too small for 4064 bytes grows by a page, and freeing the block it
      returns absorbs the old first block.  The list still tiles only if the page ends where the old area
      begins. */
  lemma {:induction false} GrowthThenFree(a: Arena, page: nat)
    requires ArenasOk([a]) && HEADER <= a.len < 4064 + HEADER && ArenaOk(Arena(page, PAGE)) && Apart(Arena(page, PAGE), a)
    ensures var s := AlignUp16(4064);
            var bs := [Block(a.base, a.len - HEADER, false)];
            var grown := [Block(page, PagesNeeded(s) * PAGE - HEADER, false)] + bs;
            var areas := Extend([a], page, PagesNeeded(s) * PAGE);
            && Tiles(bs, [a]) && FirstFit(bs, s) == |bs|
            && Tiles(Step(grown, Kmalloc(4064)), areas)
            && (Tiles(Step(Step(grown, Kmalloc(4064)), Kfree(page + HEADER)), areas) <==> page + PAGE == a.base)
  {
    hide AlignUp16, PagesNeeded, Aligned8;
    OnePage();
    var s := AlignUp16(4064);
    var rest := Block(a.base, a.len - HEADER, false);
    var grown := [Block(page, PAGE - HEADER, false), rest];
    var areas := Extend([a], page, PAGE);
    assert [Block(page, PagesNeeded(s) * PAGE - HEADER, false)] + [rest] == grown;
    assert TilesFrom([rest][1..], Limit(a), [a]);
    ExtendKeepsTiles([rest], [a], page, PAGE);
    assert FirstFit(grown, s) == 0;
    SplitKeepsTiles(grown, page, areas, 0, s);
    var taken := Step(grown, Kmalloc(4064));
    assert taken == [Block(page, PAGE - HEADER, true), rest];
    assert Find(taken, page + HEADER) == 0;
    ReleaseKeepsTiles(taken, page, areas, 0);
  }
}
