/** CrimsonFS of crfs.c: block allocation, the inode block map, and file reads and writes. */
module Crfs {
  import opened Blocks
  import opened Layout

  const SEG_SIZE: nat := 0x20_0000
  const BLOCKS_PER_SEG: nat := 512

  /** Clear bits of the segment bitmap from segment `from` on. */
  function ClearFrom(bits: seq<bool>, from: nat): (r: nat)
    decreases |bits| - from
  {
    if from >= |bits| then 0 else (if bits[from] then 0 else 1) + ClearFrom(bits, from + 1)
  }

  lemma {:induction false} ClearFromSkip(bits: seq<bool>, from: nat, i: nat)
    requires from <= i < |bits| && forall j :: from <= j < i ==> bits[j]
    ensures ClearFrom(bits, from) == ClearFrom(bits, i)
    decreases i - from
  {
    if from < i {
      ClearFromSkip(bits, from + 1, i);
    }
  }

  lemma {:induction false} ClearFromWrite(bits: seq<bool>, i: nat, v: bool, from: nat)
    requires i < |bits|
    ensures from > i ==> ClearFrom(bits[i := v], from) == ClearFrom(bits, from)
    ensures !v ==> ClearFrom(bits[i := v], from) >= ClearFrom(bits, from)
    decreases |bits| - from
  {
    if from < |bits| {
      ClearFromWrite(bits, i, v, from + 1);
    }
  }

  lemma {:induction false} ClearFromNone(bits: seq<bool>, from: nat)
    requires forall j :: from <= j < |bits| ==> bits[j]
    ensures ClearFrom(bits, from) == 0
    decreases |bits| - from
  {
    if from < |bits| {
      ClearFromNone(bits, from + 1);
    }
  }

  /** An inode held in memory. */
  class Inode {
    var tree: Tree
    var size: nat
    var blocks: nat
    var dirty: bool
    /** The blocks this inode has been given since it was loaded, with their roles. */
    ghost var own: map<int, Role>

    /** A new, empty inode. */
    constructor ()
      ensures tree == Tree(seq(DIRECT, _ => 0), 0, 0) && size == 0 && own == map[]
    {
      tree := Tree(seq(DIRECT, _ => 0), 0, 0);
      size, blocks, dirty := 0, 0, false;
      own := map[];
    }
  }

  /** A file handle. */
  class File {
    var inUse: bool
    var flags: nat
    var offset: nat
    var inode: Inode?

    constructor (inode: Inode, flags: nat, offset: nat)
      ensures inUse && this.inode == inode && this.flags == flags && this.offset == offset
    {
      inUse := true;
      this.inode, this.flags, this.offset := inode, flags, offset;
    }
  }

  class FileSystem {
    var dev: Device
    var segBitmap: seq<bool>
    var totalSegs: nat
    var nextSeg: nat
    /** The static variables of crfs_alloc_block. */
    var currentSeg: nat
    var blockInSeg: nat

    ghost predicate Valid()
      reads this
    {
      && |segBitmap| == totalSegs
      && totalSegs * SEG_SIZE < 0x1_0000_0000_0000_0000
      && 5 <= nextSeg <= totalSegs
      && currentSeg < nextSeg
      && blockInSeg <= BLOCKS_PER_SEG
      && (currentSeg != 0 ==> currentSeg < totalSegs)
      && forall a: nat :: a < totalSegs * SEG_SIZE && a % BLOCK == 0 ==> a in dev
    }

    /** Every address given out so far lies below this mark, and every later one does not. */
    ghost function Mark(): (r: nat)
      reads `nextSeg, `currentSeg, `blockInSeg
    {
      if currentSeg == 0 then nextSeg * SEG_SIZE else currentSeg * SEG_SIZE + blockInSeg * BLOCK
    }

    /** How many blocks can still be allocated. */
    ghost function Available(): (r: nat)
      reads `segBitmap, `nextSeg, `currentSeg, `blockInSeg
    {
      (if currentSeg == 0 || blockInSeg >= BLOCKS_PER_SEG then 0 else BLOCKS_PER_SEG - blockInSeg)
        + BLOCKS_PER_SEG * ClearFrom(segBitmap, nextSeg)
    }

    lemma {:induction false} MarkOnDevice()
      requires Valid()
      ensures Mark() <= totalSegs * SEG_SIZE
    {
    }

    /** The first mount: the five system segments are marked used (crfs_mount). */
    constructor (dev: Device, bitmap: seq<bool>)
      requires |bitmap| >= 5 && |bitmap| * SEG_SIZE < 0x1_0000_0000_0000_0000
      requires forall a: nat :: a < |bitmap| * SEG_SIZE && a % BLOCK == 0 ==> a in dev
      ensures Valid() && this.dev == dev && Mark() == 5 * SEG_SIZE
    {
      this.dev := dev;
      segBitmap := [true, true, true, true, true] + bitmap[5..];
      totalSegs := |bitmap|;
      nextSeg := 5;
      currentSeg, blockInSeg := 0, 0;
    }

    /** crfs_alloc_segment: the first clear segment from `nextSeg` on. */
    method AllocSegment() returns (ok: bool, seg: nat)
      requires Valid()
      modifies this`segBitmap, this`nextSeg
      ensures Valid() && nextSeg >= old(nextSeg)
      ensures ok ==> old(nextSeg) <= seg < totalSegs && nextSeg == seg + 1
      ensures ok ==> !old(segBitmap)[seg] && segBitmap == old(segBitmap)[seg := true]
      ensures forall i :: old(nextSeg) <= i < (if ok then seg else totalSegs) ==> old(segBitmap)[i]
      ensures ok ==> ClearFrom(old(segBitmap), old(nextSeg)) == 1 + ClearFrom(segBitmap, nextSeg)
      ensures !ok ==> nextSeg == old(nextSeg) && segBitmap == old(segBitmap)
                      && ClearFrom(segBitmap, nextSeg) == 0
      ensures Claimed(old(segBitmap), old(nextSeg), segBitmap, nextSeg)
    {
      var i := nextSeg;
      while i < totalSegs
        invariant nextSeg == old(nextSeg) && segBitmap == old(segBitmap) && nextSeg <= i
        invariant forall j :: nextSeg <= j < i && j < totalSegs ==> segBitmap[j]
      {
        if !segBitmap[i] {
          ClearFromSkip(segBitmap, nextSeg, i);
          ClearFromWrite(segBitmap, i, true, i + 1);
          segBitmap := segBitmap[i := true];
          nextSeg := i + 1;
          return true, i;
        }
        i := i + 1;
      }
      ClearFromNone(segBitmap, nextSeg);
      return false, 0;
    }

    /** A segment with a block left, a new one when the current one is full. */
    method OpenSegment() returns (ok: bool)
      requires Valid()
      modifies this`segBitmap, this`nextSeg, this`currentSeg, this`blockInSeg
      ensures Valid() && ok == (old(Available()) > 0) && Available() == old(Available()) && Mark() >= old(Mark())
      ensures ok ==> currentSeg != 0 && blockInSeg < BLOCKS_PER_SEG
      ensures old(currentSeg) != 0 && old(blockInSeg) < BLOCKS_PER_SEG ==>
                Mark() == old(Mark()) && segBitmap == old(segBitmap)
      ensures ok && (old(currentSeg) == 0 || old(blockInSeg) >= BLOCKS_PER_SEG) ==>
                && blockInSeg == 0 && old(nextSeg) <= currentSeg < totalSegs
                && !old(segBitmap)[currentSeg] && segBitmap == old(segBitmap)[currentSeg := true]
                && forall i :: old(nextSeg) <= i < currentSeg ==> old(segBitmap)[i]
      ensures !ok ==> Mark() == old(Mark())
      ensures Claimed(old(segBitmap), old(nextSeg), segBitmap, nextSeg)
    {
      hide Claimed, ClearFrom;
      NoneClaimed(segBitmap, nextSeg);
      ok := true;
      if currentSeg == 0 || blockInSeg >= BLOCKS_PER_SEG {
        var seg;
        ok, seg := AllocSegment();
        if ok {
          currentSeg := seg;
          blockInSeg := 0;
        }
      }
    }

    /** The next block of the current segment. */
    method TakeBlock() returns (addr: Ptr)
      requires Valid() && currentSeg != 0 && blockInSeg < BLOCKS_PER_SEG
      modifies this`blockInSeg
      ensures Valid() && addr == old(Mark()) && Mark() == addr + BLOCK && Available() == old(Available()) - 1
      ensures addr > 0 && addr % BLOCK == 0 && addr in dev
    {
      hide ClearFrom;
      BlockAddress(currentSeg, blockInSeg);
      addr := currentSeg * SEG_SIZE + blockInSeg * BLOCK;
      blockInSeg := blockInSeg + 1;
    }

    /** crfs_alloc_block.  Addresses are nonzero, block aligned and strictly increasing, so none is given
        out twice; allocation fails exactly when nothing is left. */
    method AllocBlock() returns (ok: bool, addr: Ptr)
      requires Valid()
      modifies this`segBitmap, this`nextSeg, this`currentSeg, this`blockInSeg
      ensures Valid() && ok == (old(Available()) > 0)
      ensures ok ==> addr >= old(Mark()) && Mark() == addr + BLOCK && addr > 0
                     && addr % BLOCK == 0 && addr in dev && Available() == old(Available()) - 1
      ensures ok && old(currentSeg) != 0 && old(blockInSeg) < BLOCKS_PER_SEG ==>
                addr == old(Mark()) && segBitmap == old(segBitmap)
      ensures ok && (old(currentSeg) == 0 || old(blockInSeg) >= BLOCKS_PER_SEG) ==>
                && addr == currentSeg * SEG_SIZE && old(nextSeg) <= currentSeg < totalSegs
                && !old(segBitmap)[currentSeg] && segBitmap == old(segBitmap)[currentSeg := true]
                && forall i :: old(nextSeg) <= i < currentSeg ==> old(segBitmap)[i]
      ensures !ok ==> Mark() == old(Mark()) && Available() == 0
      ensures Claimed(old(segBitmap), old(nextSeg), segBitmap, nextSeg)
    {
      hide Claimed, Valid, Available;
      addr := 0;
      ok := OpenSegment();
      if ok {
        addr := TakeBlock();
      }
    }

    /** An address given out lies in a segment given out. */
    lemma {:induction false} SegmentBelow(addr: nat)
      requires Valid()
      ensures addr < Mark() ==> addr / SEG_SIZE < nextSeg
    {
    }

    /** crfs_free_block clears the bit of the whole segment; it neither lowers the mark nor takes away
        space. */
    method FreeBlock(addr: Ptr)
      requires Valid() && addr / SEG_SIZE < totalSegs
      modifies this`segBitmap
      ensures Valid() && Mark() == old(Mark()) && Available() >= old(Available())
      ensures segBitmap == old(segBitmap)[addr / SEG_SIZE := false]
      ensures addr < old(Mark()) ==> Available() == old(Available())
    {
      SegmentBelow(addr);
      ClearFromWrite(segBitmap, addr / SEG_SIZE, false, nextSeg);
      segBitmap := segBitmap[addr / SEG_SIZE := false];
    }

    /** The inode's pointer blocks are its own and were all given out below the mark. */
    ghost predicate PointersOk(ino: Inode)
      reads this, ino
    {
      && PointersOwned(dev, ino.tree, ino.own)
      && BelowMark(ino.own, Mark())
    }

    ghost predicate InodeOk(ino: Inode)
      reads this, ino
    {
      PointersOk(ino) && DataOwned(dev, ino.tree, ino.own)
    }

    /** crfs_inode_get_block. */
    method GetBlock(ino: Inode, block: nat) returns (addr: Ptr)
      requires Valid() && PointersOk(ino)
      ensures addr == Get(dev, ino.tree, block)
    {
      var b := block;
      if b < DIRECT {
        return ino.tree.direct[b];
      }
      b := b - DIRECT;
      if b < PTRS {
        if ino.tree.indirect == 0 { return 0; }
        var ptrs := Decode(dev[ino.tree.indirect]);
        return ptrs[b];
      }
      b := b - PTRS;
      if b < PTRS * PTRS {
        if ino.tree.doubleIndirect == 0 { return 0; }
        var ptrs := Decode(dev[ino.tree.doubleIndirect]);
        var l1 := ptrs[b / PTRS];
        assert l1 == Entry(dev, ino.tree.doubleIndirect, b / PTRS);
        if l1 == 0 { return 0; }
        ptrs := Decode(dev[l1]);
        return ptrs[b % PTRS];
      }
      return 0;
    }

    /** Allocate a zeroed pointer block, as each level of crfs_inode_set_block does. */
    method NewPointerBlock(ino: Inode) returns (ok: bool, addr: Ptr)
      requires Valid() && PointersOk(ino)
      modifies this
      ensures totalSegs == old(totalSegs)
      ensures Valid() && ok == (old(Available()) > 0) && Mark() >= old(Mark())
      ensures ok ==> addr >= old(Mark()) && Mark() == addr + BLOCK && addr != 0 && addr !in ino.own
                     && dev == old(dev)[addr := Encode(ZERO_PTRS)] && Available() == old(Available()) - 1
                     && addr in old(dev)
      ensures !ok ==> dev == old(dev) && Available() == 0 && Mark() == old(Mark())
      ensures Claimed(old(segBitmap), old(nextSeg), segBitmap, nextSeg)
    {
      ok, addr := AllocBlock();
      if ok {
        dev := dev[addr := Encode(ZERO_PTRS)];
      }
    }

    /** Store a pointer in a pointer block. */
    method WritePointer(p: Ptr, i: nat, a: Ptr)
      requires Valid() && p in dev && i < PTRS
      modifies this`dev
      ensures Valid() && dev == StorePtr(old(dev), p, i, a)
    {
      StoreDomain(dev, p, i, a);
      dev := StorePtr(dev, p, i, a);
    }

    /** crfs_inode_set_block.  The inode's entries form an array in which exactly entry `block` changes;
        a failed call changes no entry, and it fails exactly when the block number is out of range or
        the pointer blocks it needs do not fit. */
    method SetBlock(ino: Inode, block: nat, a: Ptr) returns (ok: bool)
      requires Valid() && PointersOk(ino)
      modifies this, ino
      ensures totalSegs == old(totalSegs)
      ensures Valid() && PointersOk(ino) && ino.size == old(ino.size) && ino.blocks == old(ino.blocks)
      ensures ok ==> Assigned(old(dev), old(ino.tree), dev, ino.tree, block, a)
      ensures !ok ==> SameEntries(old(dev), old(ino.tree), dev, ino.tree)
      ensures ok <==> block < MAX_BLOCKS && old(Available()) >= Missing(old(dev), old(ino.tree), block)
      ensures block < MAX_BLOCKS ==> Available() == Left(old(Available()), Missing(old(dev), old(ino.tree), block))
      ensures block >= MAX_BLOCKS ==> dev == old(dev) && ino.tree == old(ino.tree) && Available() == old(Available())
      ensures ok ==> Present(dev, ino.tree) == old(Present(dev, ino.tree)) + Path(block)
      ensures Claimed(old(segBitmap), old(nextSeg), segBitmap, nextSeg)
      ensures Mark() >= old(Mark())
      ensures Grown(old(dev), old(ino.own), old(Mark()), dev, ino.own)
    {
      var b := block;
      if b < DIRECT {
        SetDirect(dev, ino.tree, ino.own, b, a);
        ino.tree := ino.tree.(direct := ino.tree.direct[b := a]);
        ino.dirty := true;
        return true;
      }
      b := b - DIRECT;
      if b < PTRS {
        ok := SetThroughIndirect(ino, block, a);
        return;
      }
      b := b - PTRS;
      if b < PTRS * PTRS {
        ok := SetThroughDoubleIndirect(ino, block, a);
        return;
      }
      return false;
    }

    method SetThroughIndirect(ino: Inode, block: nat, a: Ptr) returns (ok: bool)
      requires Valid() && PointersOk(ino) && DIRECT <= block < DIRECT + PTRS
      modifies this, ino
      ensures totalSegs == old(totalSegs)
      ensures Valid() && PointersOk(ino) && ino.size == old(ino.size) && ino.blocks == old(ino.blocks)
      ensures ok ==> Assigned(old(dev), old(ino.tree), dev, ino.tree, block, a)
      ensures !ok ==> SameEntries(old(dev), old(ino.tree), dev, ino.tree)
      ensures ok <==> old(Available()) >= Missing(old(dev), old(ino.tree), block)
      ensures Available() == Left(old(Available()), Missing(old(dev), old(ino.tree), block))
      ensures ok ==> Present(dev, ino.tree) == old(Present(dev, ino.tree)) + Path(block)
      ensures Claimed(old(segBitmap), old(nextSeg), segBitmap, nextSeg)
      ensures Mark() >= old(Mark())
      ensures Grown(old(dev), old(ino.own), old(Mark()), dev, ino.own)
    {
      hide Present, Entry, Get, StorePtr, Grown, SameEntries, Assigned;
      var b := block - DIRECT;
      ghost var before := Now(ino);
      ok := EnsureIndirect(ino);
      if !ok { return; }
      SetIndirect(dev, ino.tree, ino.own, block, a);
      StoreGrown(dev, ino.own, Mark(), ino.tree.indirect, b, a);
      AssignedAfterSame(before.dev, before.tree, dev, ino.tree, StorePtr(dev, ino.tree.indirect, b, a), ino.tree, block, a);
      GrownTransitive(before.dev, before.own, before.mark, dev, ino.own, Mark(),
                      StorePtr(dev, ino.tree.indirect, b, a), ino.own);
      LevelsDiffer(dev, ino.tree, ino.own, 0);
      PresentAfterStore(dev, ino.tree, ino.tree.indirect, b, a);
      WritePointer(ino.tree.indirect, b, a);
      ino.dirty := true;
    }

    method SetThroughDoubleIndirect(ino: Inode, block: nat, a: Ptr) returns (ok: bool)
      requires Valid() && PointersOk(ino) && DIRECT + PTRS <= block < MAX_BLOCKS
      modifies this, ino
      ensures totalSegs == old(totalSegs)
      ensures Valid() && PointersOk(ino) && ino.size == old(ino.size) && ino.blocks == old(ino.blocks)
      ensures ok ==> Assigned(old(dev), old(ino.tree), dev, ino.tree, block, a)
      ensures !ok ==> SameEntries(old(dev), old(ino.tree), dev, ino.tree)
      ensures ok <==> old(Available()) >= Missing(old(dev), old(ino.tree), block)
      ensures Available() == Left(old(Available()), Missing(old(dev), old(ino.tree), block))
      ensures ok ==> Present(dev, ino.tree) == old(Present(dev, ino.tree)) + Path(block)
      ensures Claimed(old(segBitmap), old(nextSeg), segBitmap, nextSeg)
      ensures Mark() >= old(Mark())
      ensures Grown(old(dev), old(ino.own), old(Mark()), dev, ino.own)
    {
      hide Present, Valid, Mark, Available, Entry, Get, StorePtr, Grown, SameEntries, Assigned;
      ghost var before := Now(ino);
      ok := EnsureLevels(ino, (block - DIRECT - PTRS) / PTRS);
      if !ok { return; }
      StoreThroughLevel1(ino, block, a, before);
    }

    /** Both levels of pointer blocks on the way to the entries with first-level index `k`. */
    method EnsureLevels(ino: Inode, k: nat) returns (ok: bool)
      requires Valid() && PointersOk(ino) && k < PTRS
      modifies this, ino`tree, ino`own
      ensures totalSegs == old(totalSegs)
      ensures Valid() && PointersOk(ino)
      ensures SameEntries(old(dev), old(ino.tree), dev, ino.tree)
      ensures ok <==> old(Available()) >= MissingLevels(old(dev), old(ino.tree), k)
      ensures ok ==> ino.tree.doubleIndirect != 0 && Entry(dev, ino.tree.doubleIndirect, k) != 0
      ensures Available() == Left(old(Available()), MissingLevels(old(dev), old(ino.tree), k))
      ensures ok ==> Present(dev, ino.tree) == old(Present(dev, ino.tree)) + {DoubleIndirect, Level1(k)}
      ensures Claimed(old(segBitmap), old(nextSeg), segBitmap, nextSeg)
      ensures Mark() >= old(Mark())
      ensures Grown(old(dev), old(ino.own), old(Mark()), dev, ino.own)
    {
      hide Present, Valid, Mark, Available, Entry, Get, StorePtr, Grown, SameEntries;
      ghost var s0 := Now(ino);
      ok := EnsureDoubleIndirect(ino);
      if !ok { return; }
      ghost var s1 := Now(ino);
      ok := EnsureLevel1(ino, k);
      SameTransitive(s0.dev, s0.tree, s1.dev, s1.tree, dev, ino.tree);
      GrownTransitive(s0.dev, s0.own, s0.mark, s1.dev, s1.own, s1.mark, dev, ino.own);
    }

    /** The store itself, when both levels are there; `before` is the state at the start of the call. */
    method StoreThroughLevel1(ino: Inode, block: nat, a: Ptr, ghost before: Snapshot)
      requires Valid() && PointersOk(ino) && DIRECT + PTRS <= block < MAX_BLOCKS
      requires ino.tree.doubleIndirect != 0 && Entry(dev, ino.tree.doubleIndirect, (block - DIRECT - PTRS) / PTRS) != 0
      requires SameEntries(before.dev, before.tree, dev, ino.tree)
      requires Grown(before.dev, before.own, before.mark, dev, ino.own) && before.mark <= Mark()
      modifies this`dev, ino`dirty
      ensures Valid() && PointersOk(ino)
      ensures Assigned(before.dev, before.tree, dev, ino.tree, block, a)
      ensures Present(dev, ino.tree) == old(Present(dev, ino.tree))
      ensures Grown(before.dev, before.own, before.mark, dev, ino.own)
    {
      hide Present, Valid, Mark, Available, Entry, Get, StorePtr, Grown, SameEntries, Assigned;
      var b := block - DIRECT - PTRS;
      var l1 := Decode(dev[ino.tree.doubleIndirect])[b / PTRS];
      EntryIsDecoded(dev, ino.tree.doubleIndirect, b / PTRS);
      SetLevel1(dev, ino.tree, ino.own, block, a);
      StoreGrown(dev, ino.own, Mark(), l1, b % PTRS, a);
      AssignedAfterSame(before.dev, before.tree, dev, ino.tree, StorePtr(dev, l1, b % PTRS, a), ino.tree, block, a);
      GrownTransitive(before.dev, before.own, before.mark, dev, ino.own, Mark(), StorePtr(dev, l1, b % PTRS, a), ino.own);
      LevelsDiffer(dev, ino.tree, ino.own, b / PTRS);
      PresentAfterStore(dev, ino.tree, l1, b % PTRS, a);
      WritePointer(l1, b % PTRS, a);
      ino.dirty := true;
    }

    ghost function Now(ino: Inode): (r: Snapshot)
      reads this, ino
    {
      Snapshot(dev, ino.tree, ino.own, Mark())
    }

    method EnsureIndirect(ino: Inode) returns (ok: bool)
      requires Valid() && PointersOk(ino)
      modifies this, ino`tree, ino`own
      ensures totalSegs == old(totalSegs)
      ensures Valid() && PointersOk(ino)
      ensures SameEntries(old(dev), old(ino.tree), dev, ino.tree)
      ensures ok == (old(ino.tree.indirect) != 0 || old(Available()) > 0)
      ensures ok ==> ino.tree.indirect != 0
      ensures Available() == Left(old(Available()), if old(ino.tree.indirect) == 0 then 1 else 0)
      ensures ok ==> Present(dev, ino.tree) == old(Present(dev, ino.tree)) + {Indirect}
      ensures Claimed(old(segBitmap), old(nextSeg), segBitmap, nextSeg)
      ensures Mark() >= old(Mark())
      ensures Grown(old(dev), old(ino.own), old(Mark()), dev, ino.own)
    {
      hide Present, Valid, Mark, Available, Entry, Get, Grown, SameEntries;
      ghost var was := Now(ino);
      PresentHas(dev, ino.tree);
      NothingGrown(dev, ino.tree, ino.own, was.mark);
      if ino.tree.indirect == 0 {
        var addr;
        ok, addr := NewPointerBlock(ino);
        if !ok { return; }
        IndirectGrown(was, addr);
        ino.tree := ino.tree.(indirect := addr);
        ino.own := ino.own[addr := Indirect];
      }
      return true;
    }

    method EnsureDoubleIndirect(ino: Inode) returns (ok: bool)
      requires Valid() && PointersOk(ino)
      modifies this, ino`tree, ino`own
      ensures totalSegs == old(totalSegs)
      ensures Valid() && PointersOk(ino)
      ensures SameEntries(old(dev), old(ino.tree), dev, ino.tree)
      ensures ok == (old(ino.tree.doubleIndirect) != 0 || old(Available()) > 0)
      ensures ok ==> ino.tree.doubleIndirect != 0
      ensures old(ino.tree.doubleIndirect) != 0 ==> dev == old(dev) && ino.tree == old(ino.tree)
                                                    && Available() == old(Available())
      ensures ok && old(ino.tree.doubleIndirect) == 0 ==>
                Available() == old(Available()) - 1
                && forall k: nat :: k < PTRS ==> Entry(dev, ino.tree.doubleIndirect, k) == 0
      ensures Available() == Left(old(Available()), if old(ino.tree.doubleIndirect) == 0 then 1 else 0)
      ensures ok ==> Present(dev, ino.tree) == old(Present(dev, ino.tree)) + {DoubleIndirect}
      ensures Claimed(old(segBitmap), old(nextSeg), segBitmap, nextSeg)
      ensures Mark() >= old(Mark())
      ensures Grown(old(dev), old(ino.own), old(Mark()), dev, ino.own)
    {
      hide Present, Valid, Mark, Available, Entry, Get, Grown, SameEntries;
      ghost var was := Now(ino);
      PresentHas(dev, ino.tree);
      NothingGrown(dev, ino.tree, ino.own, was.mark);
      if ino.tree.doubleIndirect == 0 {
        var addr;
        ok, addr := NewPointerBlock(ino);
        if !ok { return; }
        DoubleIndirectGrown(was, addr);
        ino.tree := ino.tree.(doubleIndirect := addr);
        ino.own := ino.own[addr := DoubleIndirect];
      }
      return true;
    }

    method EnsureLevel1(ino: Inode, k: nat) returns (ok: bool)
      requires Valid() && PointersOk(ino) && ino.tree.doubleIndirect != 0 && k < PTRS
      modifies this, ino`own
      ensures totalSegs == old(totalSegs)
      ensures Valid() && PointersOk(ino)
      ensures SameEntries(old(dev), ino.tree, dev, ino.tree)
      ensures ok == (Entry(old(dev), ino.tree.doubleIndirect, k) != 0 || old(Available()) > 0)
      ensures ok ==> Entry(dev, ino.tree.doubleIndirect, k) != 0
      ensures Available() == Left(old(Available()), if Entry(old(dev), ino.tree.doubleIndirect, k) == 0 then 1 else 0)
      ensures ok ==> Present(dev, ino.tree) == old(Present(dev, ino.tree)) + {Level1(k)}
      ensures Claimed(old(segBitmap), old(nextSeg), segBitmap, nextSeg)
      ensures Mark() >= old(Mark())
      ensures Grown(old(dev), old(ino.own), old(Mark()), dev, ino.own)
    {
      hide Present, Valid, Mark, Available, Entry, Get, StorePtr, Grown, SameEntries;
      ghost var was := Now(ino);
      PresentHas(dev, ino.tree);
      NothingGrown(dev, ino.tree, ino.own, was.mark);
      var l1 := Decode(dev[ino.tree.doubleIndirect]);
      EntryIsDecoded(dev, ino.tree.doubleIndirect, k);
      if l1[k] == 0 {
        var addr;
        ok, addr := NewPointerBlock(ino);
        if !ok { return; }
        Level1Grown(was, k, addr);
        WritePointer(ino.tree.doubleIndirect, k, addr);
        ino.own := ino.own[addr := Level1(k)];
      }
      return true;
    }
  }

  lemma {:induction false} BlockAddress(seg: nat, b: nat)
    requires seg > 0 && b < BLOCKS_PER_SEG
    ensures var addr := seg * SEG_SIZE + b * BLOCK;
            addr > 0 && addr % BLOCK == 0 && addr + BLOCK <= (seg + 1) * SEG_SIZE
  {
    assert seg * SEG_SIZE + b * BLOCK == BLOCK * (512 * seg + b);
  }

  /** The bits after some allocations: those of the segments passed over or taken are set, and no other
      changes. */
  ghost predicate Claimed(was: seq<bool>, start: nat, now: seq<bool>, next: nat) {
    && start <= next && |now| == |was|
    && forall s :: 0 <= s < |was| ==> now[s] == (was[s] || start <= s < next)
  }

  lemma {:induction false} NoneClaimed(bits: seq<bool>, next: nat)
    ensures Claimed(bits, next, bits, next)
  {
  }

  lemma {:induction false} ClaimedTwice(was: seq<bool>, start: nat, mid: seq<bool>, middle: nat, now: seq<bool>,
                                        next: nat)
    requires Claimed(was, start, mid, middle) && Claimed(mid, middle, now, next)
    ensures Claimed(was, start, now, next)
  {
  }

  /** The device and one inode, as values. */
  datatype Snapshot = Snapshot(dev: Device, tree: Tree, own: map<int, Role>, mark: nat)

  ghost predicate BelowMark(own: map<int, Role>, mark: nat) {
    forall a :: a in own ==> a < mark
  }

  /** How many pointer blocks an assignment to entry `b` has to add. */
  function Missing(dev: Device, t: Tree, b: nat): (r: nat) {
    if b < DIRECT then 0
    else if b < DIRECT + PTRS then (if t.indirect == 0 then 1 else 0)
    else if b < MAX_BLOCKS then MissingLevels(dev, t, (b - DIRECT - PTRS) / PTRS)
    else 0
  }

  function MissingLevels(dev: Device, t: Tree, k: nat): (r: nat)
    requires k < PTRS
  {
    if t.doubleIndirect == 0 then 2
    else if Entry(dev, t.doubleIndirect, k) == 0 then 1 else 0
  }

  /** From one state to a later one: blocks that are neither pointer blocks of the inode nor newly given
      out keep their bytes; roles are kept, and newly owned blocks are pointer blocks. */
  ghost predicate Grown(dev: Device, own: map<int, Role>, mark: nat, dev': Device, own': map<int, Role>) {
    && (forall a :: a in dev ==> a in dev')
    && (forall a :: a in dev && a < mark && !(a in own && IsPointer(own[a])) ==> dev'[a] == dev[a])
    && (forall a :: a in own ==> a in own' && own'[a] == own[a])
    && (forall a :: a in own' && a !in own ==> a >= mark && IsPointer(own'[a]))
  }

  lemma {:induction false} GrownTransitive(dev: Device, own: map<int, Role>, mark: nat, dev1: Device, own1: map<int,
                                           Role>, mark1: nat,
                                           dev2: Device, own2: map<int, Role>)
    requires Grown(dev, own, mark, dev1, own1) && Grown(dev1, own1, mark1, dev2, own2) && mark <= mark1
    ensures Grown(dev, own, mark, dev2, own2)
  {
  }

  lemma {:induction false} StoreGrown(dev: Device, own: map<int, Role>, mark: nat, p: int, i: nat, a: Ptr)
    requires p in dev && i < PTRS && p in own && IsPointer(own[p])
    ensures Grown(dev, own, mark, StorePtr(dev, p, i, a), own)
  {
  }

  /** What is left of `free` blocks when `need` are wanted. */
  function Left(free: nat, need: nat): (r: nat) {
    if free >= need then free - need else 0
  }

  /** What is missing for entry `b` is what its path has and the inode has not. */
  lemma {:induction false} MissingIsLack(dev: Device, t: Tree, b: nat)
    ensures Missing(dev, t, b) == |Path(b) - Present(dev, t)|
  {
    hide Present, Entry;
    PresentHas(dev, t);
    var lack := Path(b) - Present(dev, t);
    if DIRECT <= b < DIRECT + PTRS {
      assert lack == if t.indirect == 0 then {Indirect} else {};
    } else if DIRECT + PTRS <= b < MAX_BLOCKS {
      var k := (b - DIRECT - PTRS) / PTRS;
      assert lack == if t.doubleIndirect == 0 then {DoubleIndirect, Level1(k)}
                     else if Entry(dev, t.doubleIndirect, k) == 0 then {Level1(k)} else {};
    }
  }

  lemma {:induction false} PresentHas(dev: Device, t: Tree)
    ensures Indirect in Present(dev, t) <==> t.indirect != 0
    ensures DoubleIndirect in Present(dev, t) <==> t.doubleIndirect != 0
    ensures forall k: nat :: k < PTRS ==> (Level1(k) in Present(dev, t) <==> Entry(dev, t.doubleIndirect, k) != 0)
    ensures t.doubleIndirect == 0 ==> forall k: nat :: k < PTRS ==> Entry(dev, t.doubleIndirect, k) == 0
  {
    hide Decode;
  }

  /** The pointer blocks of the other levels are not the double-indirect block. */
  lemma {:induction false} LevelsDiffer(dev: Device, t: Tree, own: map<int, Role>, k: nat)
    requires PointersOwned(dev, t, own) && k < PTRS
    ensures t.indirect != 0 ==> t.indirect != t.doubleIndirect
    ensures Entry(dev, t.doubleIndirect, k) != 0 ==> Entry(dev, t.doubleIndirect, k) != t.doubleIndirect
  {
  }

  lemma {:induction false} NothingGrown(dev: Device, t: Tree, own: map<int, Role>, mark: nat)
    ensures Grown(dev, own, mark, dev, own)
    ensures |t.direct| == DIRECT ==> SameEntries(dev, t, dev, t)
  {
  }

  /** An indirect block given out at or above the mark, and zeroed. */
  lemma {:induction false} IndirectGrown(s: Snapshot, n: Ptr)
    requires PointersOwned(s.dev, s.tree, s.own) && s.tree.indirect == 0
    requires n != 0 && n >= s.mark && BelowMark(s.own, s.mark)
    ensures var dev', own' := s.dev[n := Encode(ZERO_PTRS)], s.own[n := Indirect];
            var t' := s.tree.(indirect := n);
            && PointersOwned(dev', t', own') && SameEntries(s.dev, s.tree, dev', t')
            && Grown(s.dev, s.own, s.mark, dev', own') && BelowMark(own', n + BLOCK)
            && Present(dev', t') == Present(s.dev, s.tree) + {Indirect}
  {
    hide Encode, Decode, Entry, Get, PointersOwned, SameEntries, Present;
    assert n !in s.own;
    AddIndirect(s.dev, s.tree, s.own, n);
    PresentAfterWrite(s.dev, s.tree, s.own, n, Encode(ZERO_PTRS));
  }

  lemma {:induction false} DoubleIndirectGrown(s: Snapshot, n: Ptr)
    requires PointersOwned(s.dev, s.tree, s.own) && s.tree.doubleIndirect == 0
    requires n != 0 && n >= s.mark && BelowMark(s.own, s.mark)
    ensures var dev', own' := s.dev[n := Encode(ZERO_PTRS)], s.own[n := DoubleIndirect];
            var t' := s.tree.(doubleIndirect := n);
            && PointersOwned(dev', t', own') && SameEntries(s.dev, s.tree, dev', t')
            && Grown(s.dev, s.own, s.mark, dev', own') && BelowMark(own', n + BLOCK)
            && Present(dev', t') == Present(s.dev, s.tree) + {DoubleIndirect}
            && forall k: nat :: k < PTRS ==> Entry(dev', n, k) == 0
  {
    hide Encode, Decode, Entry, Get, PointersOwned, SameEntries, Present;
    PresentAddDouble(s.dev, s.tree, n);
    assert n !in s.own;
    AddDoubleIndirect(s.dev, s.tree, s.own, n);
    var dev' := s.dev[n := Encode(ZERO_PTRS)];
    forall k: nat | k < PTRS ensures Entry(dev', n, k) == 0 {
      EntryOfZeros(dev', n, k);
    }
  }

  /** A first-level pointer block given out at or above the mark, zeroed and linked. */
  lemma {:induction false} Level1Grown(s: Snapshot, k: nat, n: Ptr)
    requires PointersOwned(s.dev, s.tree, s.own) && s.tree.doubleIndirect != 0 && k < PTRS
    requires Entry(s.dev, s.tree.doubleIndirect, k) == 0 && n != 0 && n >= s.mark && BelowMark(s.own, s.mark)
    ensures var dev1 := s.dev[n := Encode(ZERO_PTRS)];
            var dev', own' := StorePtr(dev1, s.tree.doubleIndirect, k, n), s.own[n := Level1(k)];
            && PointersOwned(dev', s.tree, own') && SameEntries(s.dev, s.tree, dev', s.tree)
            && Grown(s.dev, s.own, s.mark, dev', own') && BelowMark(own', n + BLOCK)
            && Entry(dev', s.tree.doubleIndirect, k) == n
            && Present(dev', s.tree) == Present(s.dev, s.tree) + {Level1(k)}
  {
    hide Encode, Decode, Entry, Get, Present;
    PresentAddLevel1(s.dev, s.tree, s.own, k, n);
    var dev1 := s.dev[n := Encode(ZERO_PTRS)];
    AddLevel1(s.dev, s.tree, s.own, k, n);
    EntryAfterStore(dev1, s.tree.doubleIndirect, k, n, s.tree.doubleIndirect, k);
  }

  lemma {:induction false} StoreDomain(dev: Device, p: int, i: nat, a: Ptr)
    requires p in dev && i < PTRS
    ensures StorePtr(dev, p, i, a).Keys == dev.Keys
  {
  }

  lemma {:induction false} SameTransitive(dev: Device, t: Tree, dev1: Device, t1: Tree, dev2: Device, t2: Tree)
    requires SameEntries(dev, t, dev1, t1) && SameEntries(dev1, t1, dev2, t2)
    ensures SameEntries(dev, t, dev2, t2)
  {
  }

  lemma {:induction false} AssignedAfterSame(dev: Device, t: Tree, dev1: Device, t1: Tree, dev2: Device, t2: Tree,
                                             b: nat, a: Ptr)
    requires SameEntries(dev, t, dev1, t1) && Assigned(dev1, t1, dev2, t2, b, a)
    ensures Assigned(dev, t, dev2, t2, b, a)
  {
  }

  lemma {:induction false} EntryIsDecoded(dev: Device, p: Ptr, i: nat)
    requires p != 0 && p in dev && i < PTRS
    ensures Entry(dev, p, i) == Decode(dev[p])[i]
  {
  }
}
