/** crfs_read and crfs_write. */
module CrfsFiles {
  import opened Blocks
  import opened Layout
  import opened FileBytes
  import opened Crfs

  // ---- one copy-on-write block

  /** Writing a block that the inode does not own yet changes none of its entries. */
  lemma {:induction false} WriteFresh(dev: Device, t: Tree, own: map<int, Role>, n: Ptr, blk: Block, b: nat)
    requires PointersOwned(dev, t, own) && n != 0 && n !in own
    ensures PointersOwned(dev[n := blk], t, own[n := Data(b)]) && SameEntries(dev, t, dev[n := blk], t)
  {
    hide Decode;
    var dev' := dev[n := blk];
    forall q: Ptr, j: nat | q != n && j < PTRS ensures Entry(dev', q, j) == Entry(dev, q, j) {
      EntryAfterWrite(dev, n, blk, q, j);
    }
  }

  /** From one state to a later one: no block given out earlier changes, except the inode's own pointer
      blocks.  In particular no data block is overwritten. */
  ghost predicate Kept(dev: Device, own: map<int, Role>, mark: nat, dev': Device, own': map<int, Role>) {
    && (forall a :: a in dev ==> a in dev')
    && (forall a :: a in dev && a < mark && !(a in own && IsPointer(own[a])) ==> dev'[a] == dev[a])
    && (forall a :: a in own ==> a in own' && own'[a] == own[a])
    && (forall a :: a in own' && a !in own ==> a >= mark)
  }

  lemma {:induction false} KeptTransitive(dev: Device, own: map<int, Role>, mark: nat, dev1: Device, own1: map<int,
                                          Role>, mark1: nat,
                                          dev2: Device, own2: map<int, Role>)
    requires Kept(dev, own, mark, dev1, own1) && Kept(dev1, own1, mark1, dev2, own2) && mark <= mark1
    ensures Kept(dev, own, mark, dev2, own2)
  {
  }

  /** The effect of one round of crfs_write: block `b` of the file is replaced and nothing else. */
  lemma {:induction false} RoundEffect(dev: Device, t: Tree, own: map<int, Role>, mark: nat, n: Ptr, blk: Block, b: nat,
                                       dev2: Device, t2: Tree, own2: map<int, Role>)
    requires PointersOwned(dev, t, own) && DataOwned(dev, t, own) && BelowMark(own, mark)
    requires b < MAX_BLOCKS && n != 0 && n >= mark
    requires PointersOwned(dev2, t2, own2)
    requires Assigned(dev[n := blk], t, dev2, t2, b, n)
    requires Grown(dev[n := blk], own[n := Data(b)], n + BLOCK, dev2, own2)
    ensures DataOwned(dev2, t2, own2) && Kept(dev, own, mark, dev2, own2)
    ensures BlockReplaced(dev, t, dev2, t2, b, blk)
  {
    WriteFresh(dev, t, own, n, blk, b);
    hide PointersOwned, Get;
    forall x: nat | x < MAX_BLOCKS
      ensures Get(dev2, t2, x) == if x == b then n else Get(dev, t, x)
    {
    }
    forall k: nat | k < MAX_BYTES
      ensures ByteAt(dev2, t2, k) == if k / BLOCK == b then blk[k % BLOCK] else ByteAt(dev, t, k)
    {
      var x := k / BLOCK;
      assert x < MAX_BLOCKS;
      var a := Get(dev, t, x);
      if x != b && a != 0 {
        assert a in own && own[a] == Data(x);
        assert a in dev by { OwnedOnDevice(dev, t, own, a); }
      }
    }
  }

  /** The effect of a round whose assignment failed: the file reads as before. */
  lemma {:induction false} LostEffect(dev: Device, t: Tree, own: map<int, Role>, mark: nat, n: Ptr, blk: Block, b: nat,
                                      dev2: Device, t2: Tree, own2: map<int, Role>)
    requires PointersOwned(dev, t, own) && DataOwned(dev, t, own) && BelowMark(own, mark)
    requires n != 0 && n >= mark
    requires PointersOwned(dev2, t2, own2)
    requires SameEntries(dev[n := blk], t, dev2, t2)
    requires Grown(dev[n := blk], own[n := Data(b)], n + BLOCK, dev2, own2)
    ensures DataOwned(dev2, t2, own2) && Kept(dev, own, mark, dev2, own2)
    ensures SameBytes(dev, t, dev2, t2)
  {
    WriteFresh(dev, t, own, n, blk, b);
    hide PointersOwned, Get;
    forall x: nat | x < MAX_BLOCKS ensures Get(dev2, t2, x) == Get(dev, t, x) {
    }
    forall k: nat | k < MAX_BYTES ensures ByteAt(dev2, t2, k) == ByteAt(dev, t, k) {
      var x := k / BLOCK;
      assert x < MAX_BLOCKS;
      var a := Get(dev, t, x);
      if a != 0 {
        assert a in own && own[a] == Data(x);
        assert a in dev by { OwnedOnDevice(dev, t, own, a); }
      }
    }
  }

  lemma {:induction false} OwnedOnDevice(dev: Device, t: Tree, own: map<int, Role>, a: int)
    requires PointersOwned(dev, t, own) && a in own
    ensures a in dev && a != 0
  {
  }

  /** Another inode, whose blocks are not shared, reads the same bytes afterwards. */
  lemma {:induction false} OtherFileUnchanged(dev: Device, own: map<int, Role>, mark: nat, dev': Device,
                                              own': map<int, Role>,
                                              t: Tree, other: map<int, Role>)
    requires Kept(dev, own, mark, dev', own')
    requires PointersOwned(dev, t, other) && DataOwned(dev, t, other) && BelowMark(other, mark)
    requires own.Keys !! other.Keys
    ensures PointersOwned(dev', t, other) && DataOwned(dev', t, other) && own'.Keys !! other.Keys
    ensures forall k: nat :: k < MAX_BYTES ==> ByteAt(dev', t, k) == ByteAt(dev, t, k)
  {
    hide Decode;
    forall q: Ptr, j: nat | (q == 0 || q in other) && j < PTRS ensures Entry(dev', q, j) == Entry(dev, q, j) {
    }
    forall x: nat | x < MAX_BLOCKS ensures Get(dev', t, x) == Get(dev, t, x) {
    }
    hide Get, PointersOwned;
    forall a | a in own' ensures a !in other {
      assert a !in own ==> a >= mark;
    }
    forall k: nat | k < MAX_BYTES ensures ByteAt(dev', t, k) == ByteAt(dev, t, k) {
      var x := k / BLOCK;
      assert x < MAX_BLOCKS;
      var a := Get(dev, t, x);
      if a != 0 {
        assert a in other;
        OwnedOnDevice(dev, t, other, a);
      }
    }
  }

  function Min(a: nat, b: nat): (r: nat) {
    if a < b then a else b
  }

  /** The buffer one round of crfs_write puts on disk. */
  function NewBlock(was: Block, blockOff: nat, piece: seq<Byte>): (blk: Block)
    requires blockOff + |piece| <= BLOCK
    ensures forall j :: 0 <= j < BLOCK ==>
              blk[j] == if blockOff <= j < blockOff + |piece| then piece[j - blockOff] else was[j]
  {
    was[..blockOff] + piece + was[blockOff + |piece|..]
  }

  /** The copy-on-write step, when a block is left: a new block takes the place of block `b`, and the old one
      keeps its bytes.  When the pointer blocks it needs do not fit, or there is no such block, the new block is
      used up and the file reads as before; the source does not look at the result of the assignment. */
  method PlaceBlock(fs: FileSystem, ino: Inode, b: nat, blk: Block)
    requires fs.Valid() && fs.InodeOk(ino) && fs.Available() >= 1
    modifies fs, ino
    ensures fs.Valid() && fs.InodeOk(ino)
    ensures fs.Available() == Left(old(fs.Available()), 1 + Missing(old(fs.dev), old(ino.tree), b))
    ensures ino.size == old(ino.size) && ino.blocks == old(ino.blocks) && fs.Mark() >= old(fs.Mark())
    ensures Claimed(old(fs.segBitmap), old(fs.nextSeg), fs.segBitmap, fs.nextSeg)
    ensures fs.totalSegs == old(fs.totalSegs)
    ensures old(fs.Available()) >= 1 + Missing(old(fs.dev), old(ino.tree), b) ==>
              Present(fs.dev, ino.tree) == old(Present(fs.dev, ino.tree)) + Path(b)
    ensures if b < MAX_BLOCKS && old(fs.Available()) >= 1 + Missing(old(fs.dev), old(ino.tree), b)
            then BlockReplaced(old(fs.dev), old(ino.tree), fs.dev, ino.tree, b, blk)
            else SameBytes(old(fs.dev), old(ino.tree), fs.dev, ino.tree)
    ensures Kept(old(fs.dev), old(ino.own), old(fs.Mark()), fs.dev, ino.own)
  {
    hide Get, Entry, ByteAt, Grown, Assigned, SameEntries, PointersOwned, DataOwned, BlockReplaced, SameBytes, Kept;
    hide ClearFrom, Missing, Present, Path, Claimed, BelowMark;
    ghost var before := fs.Now(ino);
    var ok, newAddr := fs.AllocBlock();
    ghost var bits, next := fs.segBitmap, fs.nextSeg;
    OwnedBelowMark(before.own, before.mark, newAddr, Data(b));
    WriteFresh(fs.dev, ino.tree, ino.own, newAddr, blk, b);
    PresentAfterWrite(fs.dev, ino.tree, ino.own, newAddr, blk);
    MissingAfterWrite(fs.dev, ino.tree, ino.own, newAddr, blk, b);
    if b >= MAX_BLOCKS { NoPathBeyond(fs.dev, ino.tree, b); }
    fs.dev := fs.dev[newAddr := blk];
    ino.own := ino.own[newAddr := Data(b)];
    ok := fs.SetBlock(ino, b, newAddr);
    ClaimedTwice(old(fs.segBitmap), old(fs.nextSeg), bits, next, fs.segBitmap, fs.nextSeg);
    if ok {
      RoundEffect(before.dev, before.tree, before.own, before.mark, newAddr, blk, b, fs.dev, ino.tree, ino.own);
    } else {
      LostEffect(before.dev, before.tree, before.own, before.mark, newAddr, blk, b, fs.dev, ino.tree, ino.own);
    }
  }

  lemma {:induction false} MissingAfterWrite(dev: Device, t: Tree, own: map<int, Role>, n: Ptr, blk: Block, b: nat)
    requires PointersOwned(dev, t, own) && n != 0 && n !in own
    ensures Missing(dev[n := blk], t, b) == Missing(dev, t, b)
  {
    hide Missing, Present, PointersOwned;
    PresentAfterWrite(dev, t, own, n, blk);
    MissingIsLack(dev, t, b);
    MissingIsLack(dev[n := blk], t, b);
  }

  lemma {:induction false} NoPathBeyond(dev: Device, t: Tree, b: nat)
    requires b >= MAX_BLOCKS
    ensures Path(b) == {} && Missing(dev, t, b) == 0
  {
  }

  /** A block with a pointer block missing on its way is a hole. */
  lemma {:induction false} MissingMeansHole(dev: Device, t: Tree, b: nat)
    requires |t.direct| == DIRECT && Missing(dev, t, b) > 0
    ensures b < MAX_BLOCKS && Get(dev, t, b) == 0
  {
  }

  lemma {:induction false} OwnedBelowMark(own: map<int, Role>, mark: nat, n: int, r: Role)
    requires BelowMark(own, mark) && n >= mark
    ensures n !in own && BelowMark(own[n := r], n + BLOCK)
  {
  }

  /** The loop body of crfs_write, when a block is left.  The piece is overlaid if the new block and the pointer
      blocks missing on its way fit.  Otherwise it is lost, which shows unless it consists of zeros. */
  method WriteRound(fs: FileSystem, ino: Inode, pos: nat, piece: seq<Byte>)
    requires fs.Valid() && fs.InodeOk(ino) && fs.Available() >= 1
    requires |piece| > 0 && pos % BLOCK + |piece| <= BLOCK && pos / BLOCK < 0x1_0000_0000
    modifies fs, ino
    ensures fs.Valid() && fs.InodeOk(ino)
    ensures fs.Available() == Left(old(fs.Available()), 1 + Missing(old(fs.dev), old(ino.tree), pos / BLOCK))
    ensures ino.size == old(ino.size) && ino.blocks == old(ino.blocks) && fs.Mark() >= old(fs.Mark())
    ensures |fs.segBitmap| == old(|fs.segBitmap|) && fs.nextSeg >= old(fs.nextSeg)
    ensures var was := old(Get(fs.dev, ino.tree, pos / BLOCK));
            forall s: nat :: s < |fs.segBitmap| ==>
              fs.segBitmap[s] == ((was == 0 || s != was / SEG_SIZE) &&
                                  (old(fs.segBitmap)[s] || old(fs.nextSeg) <= s < fs.nextSeg))
    ensures old(fs.Available()) >= 1 + Missing(old(fs.dev), old(ino.tree), pos / BLOCK) ==>
              && Present(fs.dev, ino.tree) == old(Present(fs.dev, ino.tree)) + Path(pos / BLOCK)
              && Overlaid(old(fs.dev), old(ino.tree), fs.dev, ino.tree, pos, piece)
    ensures old(fs.Available()) < 1 + Missing(old(fs.dev), old(ino.tree), pos / BLOCK) ==>
              && SameBytes(old(fs.dev), old(ino.tree), fs.dev, ino.tree)
              && (Overlaid(old(fs.dev), old(ino.tree), fs.dev, ino.tree, pos, piece) <==> Zeros(piece))
    ensures Kept(old(fs.dev), old(ino.own), old(fs.Mark()), fs.dev, ino.own)
  {
    hide Get, ByteAt, Overlaid, PointersOwned, DataOwned, BlockReplaced, SameBytes, Kept, ClearFrom;
    hide Missing, Present, Path, Zeros;
    var blockNo, blockOff := pos / BLOCK, pos % BLOCK;
    ghost var before := fs.Now(ino);
    var oldAddr := fs.GetBlock(ino, blockNo);
    OldBlock(fs.dev, ino.tree, ino.own, blockNo);
    assert oldAddr < fs.totalSegs * SEG_SIZE && (oldAddr != 0 ==> oldAddr < fs.Mark()) by { fs.MarkOnDevice(); }
    var blk := NewBlock(if oldAddr != 0 && blockOff != 0 then fs.dev[oldAddr] else ZERO_BLOCK, blockOff, piece);
    PlaceBlock(fs, ino, blockNo, blk);
    RoundOutcome(before.dev, before.tree, before.own, fs.dev, ino.tree, pos, piece, blk);
    if oldAddr != 0 {
      fs.FreeBlock(oldAddr);
    }
  }

  /** What a round means for the file, whether its block was placed or lost. */
  lemma {:induction false} RoundOutcome(dev: Device, t: Tree, own: map<int, Role>, dev': Device, t': Tree,
                                        pos: nat, piece: seq<Byte>, blk: Block)
    requires PointersOwned(dev, t, own) && DataOwned(dev, t, own)
    requires |piece| > 0 && pos % BLOCK + |piece| <= BLOCK
    requires forall j :: 0 <= j < BLOCK ==>
               blk[j] == if pos % BLOCK <= j < pos % BLOCK + |piece| then piece[j - pos % BLOCK]
                         else if pos % BLOCK != 0 then BlockByte(dev, t, pos / BLOCK, j) else 0
    ensures BlockReplaced(dev, t, dev', t', pos / BLOCK, blk) ==> Overlaid(dev, t, dev', t', pos, piece)
    ensures SameBytes(dev, t, dev', t') && pos / BLOCK >= MAX_BLOCKS ==> Overlaid(dev, t, dev', t', pos, piece)
    ensures SameBytes(dev, t, dev', t') && Missing(dev, t, pos / BLOCK) > 0 ==>
              (Overlaid(dev, t, dev', t', pos, piece) <==> Zeros(piece))
  {
    OldBlock(dev, t, own, pos / BLOCK);
    hide Get, ByteAt, BlockByte, Overlaid, BlockReplaced, SameBytes, Missing, Zeros, PointersOwned, DataOwned;
    if BlockReplaced(dev, t, dev', t', pos / BLOCK, blk) {
      ReplacedIsOverlaid(dev, t, dev', t', pos, piece, blk);
    }
    if SameBytes(dev, t, dev', t') {
      if pos / BLOCK >= MAX_BLOCKS {
        BeyondLargest(dev, t, dev', t', pos, piece);
      }
      if Missing(dev, t, pos / BLOCK) > 0 {
        MissingMeansHole(dev, t, pos / BLOCK);
        LostInHole(dev, t, dev', t', pos, piece);
      }
    }
  }

  /** The bytes of an existing block, and zeros for a hole. */
  lemma {:induction false} OldBlock(dev: Device, t: Tree, own: map<int, Role>, b: nat)
    requires PointersOwned(dev, t, own) && DataOwned(dev, t, own)
    ensures var a := Get(dev, t, b);
            && (a != 0 ==> a in own && a in dev)
            && forall j: nat :: j < BLOCK ==> BlockByte(dev, t, b, j) == if a == 0 || a !in dev then 0 else dev[a][j]
  {
    assert b >= MAX_BLOCKS ==> Get(dev, t, b) == 0;
    hide Get;
    forall j: nat | j < BLOCK
      ensures BlockByte(dev, t, b, j) == var a := Get(dev, t, b); if a == 0 || a !in dev then 0 else dev[a][j]
    {
      InsideBlock(b, j);
    }
  }

  lemma {:induction false} InsideBlock(b: nat, j: nat)
    requires j < BLOCK
    ensures (b * BLOCK + j) / BLOCK == b && (b * BLOCK + j) % BLOCK == j
  {
  }

  // ---- whole calls

  /** How many blocks a range of `n` bytes at `off` touches. */
  function Rounds(off: nat, n: nat): (r: nat)
    ensures n > 0 ==> r > 0
  {
    if n == 0 then 0 else (off + n - 1) / BLOCK - off / BLOCK + 1
  }

  /** The first byte of the last round, counted from the start of the buffer. */
  function LastRound(off: nat, n: nat): (r: nat)
    ensures r <= n
  {
    if n == 0 || (off + n - 1) / BLOCK * BLOCK <= off then 0 else (off + n - 1) / BLOCK * BLOCK - off
  }

  lemma {:induction false} RoundTaken(pos: nat, left: nat)
    requires left > 0
    ensures var step := Min(BLOCK - pos % BLOCK, left);
            && 0 < step && Rounds(pos, left) == 1 + Rounds(pos + step, left - step)
            && (step < left ==> (pos + step) % BLOCK == 0 && (pos + step) / BLOCK == pos / BLOCK + 1
                                && Rounds(pos + step, left - step) > 0)
            && (step == left ==> Rounds(pos + step, left - step) == 0)
  {
  }

  /** The round that ends the range starts where `LastRound` says. */
  lemma {:induction false} LastRoundTaken(off: nat, n: nat, total: nat)
    requires total < n && (total == 0 || (off + total) % BLOCK == 0)
    requires n - total <= BLOCK - (off + total) % BLOCK
    ensures LastRound(off, n) == total
  {
    InBlock(off + total, n - total, off + n - 1);
    Position(off + total);
  }

  // ---- what a range of blocks costs

  /** The pointer blocks on the ways to `n` blocks from block `b` on. */
  function Paths(b: nat, n: nat): (r: set<Role>)
    decreases n
  {
    if n == 0 then {} else Path(b) + Paths(b + 1, n - 1)
  }

  /** How many blocks `n` rounds from block `b` on take, for an inode that has the pointer blocks `present`. */
  function Cost(present: set<Role>, b: nat, n: nat): (r: nat) {
    n + |Paths(b, n) - present|
  }

  /** The first round takes its block and what its path lacks; the rest costs as if that were present. */
  lemma {:induction false} CostNext(present: set<Role>, b: nat, n: nat)
    requires n > 0
    ensures Cost(present, b, n) == 1 + |Path(b) - present| + Cost(present + Path(b), b + 1, n - 1)
    ensures present + Paths(b, n) == present + Path(b) + Paths(b + 1, n - 1)
  {
    hide Path;
    var first, rest := Path(b) - present, Paths(b + 1, n - 1) - (present + Path(b));
    assert Paths(b, n) - present == first + rest && first !! rest;
  }

  /** A write of `n` bytes at `off` that began with the pointer blocks `was` and `free` blocks has `total` bytes
      behind it, and now has `present` and `left`: what has been spent and what is still needed add up, and
      every round to come but the last has room. */
  ghost predicate OnBudget(was: set<Role>, free: nat, off: nat, n: nat, present: set<Role>, left: nat, total: nat)
    requires total <= n
  {
    var b, m := (off + total) / BLOCK, Rounds(off + total, n - total);
    && (m > 0 ==> left >= 1 + Cost(present, b, m - 1))
    && left - Cost(present, b, m) == free - Cost(was, off / BLOCK, Rounds(off, n))
    && present + Paths(b, m) == was + Paths(off / BLOCK, Rounds(off, n))
  }

  /** Only the last round can lack room, and it does exactly when the whole range costs too much. */
  lemma {:induction false} BudgetStep(was: set<Role>, free: nat, off: nat, n: nat, present: set<Role>, left: nat,
                                      total: nat)
    requires total < n && OnBudget(was, free, off, n, present, left, total)
    ensures var pos := off + total;
            var step := Min(BLOCK - pos % BLOCK, n - total);
            var need := 1 + |Path(pos / BLOCK) - present|;
            && left >= 1
            && (left >= need ==>
                  OnBudget(was, free, off, n, present + Path(pos / BLOCK), left - need, total + step))
            && (left < need ==> total + step == n && free < Cost(was, off / BLOCK, Rounds(off, n)))
  {
    hide Path, Paths, Cost, Rounds;
    var pos := off + total;
    var b, m := pos / BLOCK, Rounds(pos, n - total);
    RoundTaken(pos, n - total);
    CostNext(present, b, m);
    if m > 1 {
      CostNext(present, b, m - 1);
    } else {
      NoCost(present, b);
      NoCost(present + Path(b), b + 1);
      NoCost(present + Path(b), (pos + Min(BLOCK - pos % BLOCK, n - total)) / BLOCK);
    }
  }

  lemma {:induction false} NoCost(present: set<Role>, b: nat)
    ensures Cost(present, b, 0) == 0 && Paths(b, 0) == {}
  {
  }

  lemma {:induction false} BudgetEnds(was: set<Role>, free: nat, off: nat, n: nat, present: set<Role>, left: nat)
    requires OnBudget(was, free, off, n, present, left, n)
    ensures left == free - Cost(was, off / BLOCK, Rounds(off, n))
    ensures present == was + Paths(off / BLOCK, Rounds(off, n))
  {
    NoCost(present, (off + n) / BLOCK);
    assert Rounds(off + n, 0) == 0;
  }

  lemma {:induction false} OverlaidShape(dev: Device, t: Tree, dev': Device, t': Tree, off: nat, buf: seq<Byte>)
    requires Overlaid(dev, t, dev', t', off, buf)
    ensures |t.direct| == DIRECT && |t'.direct| == DIRECT
  {
  }

  /** The whole range fits. */
  ghost predicate RangeFits(dev: Device, t: Tree, free: nat, off: nat, n: nat) {
    free >= Cost(Present(dev, t), off / BLOCK, Rounds(off, n))
  }

  /** Every round finds a block to write to: all but the last fit, and one block is left for that. */
  ghost predicate BlockForEachRound(dev: Device, t: Tree, free: nat, off: nat, n: nat) {
    n > 0 ==> free >= 1 + Cost(Present(dev, t), off / BLOCK, Rounds(off, n) - 1)
  }

  /** What a write means for the file: the buffer is overlaid when the range fits.  Otherwise the last round is
      lost, and the rest is overlaid. */
  ghost predicate WriteResult(fits: bool, dev: Device, t: Tree, dev': Device, t': Tree, off: nat, buf: seq<Byte>) {
    var last := LastRound(off, |buf|);
    && Overlaid(dev, t, dev', t', off, if fits then buf else buf[..last])
    && (Overlaid(dev, t, dev', t', off, buf) <==> fits || Zeros(buf[last..]))
  }

  /** A lost write: one block is left and the file has no indirect block.  Writing a byte behind the direct blocks
      finds a block for its only round, but does not fit, and afterwards the byte reads 0. */
  lemma {:induction false} LostWrite(dev: Device, t: Tree, dev': Device, t': Tree, x: Byte)
    requires |t.direct| == DIRECT && t.indirect == 0 && x != 0
    ensures BlockForEachRound(dev, t, 1, DIRECT * BLOCK, 1) && !RangeFits(dev, t, 1, DIRECT * BLOCK, 1)
    ensures WriteResult(false, dev, t, dev', t', DIRECT * BLOCK, [x]) ==> ByteAt(dev', t', DIRECT * BLOCK) == 0
  {
    hide Entry, Decode, Cost, Path, Present, Get, Missing;
    ShortOfOne(dev, t);
    NoCost(Present(dev, t), DIRECT);
    if WriteResult(false, dev, t, dev', t', DIRECT * BLOCK, [x]) {
      var k := DIRECT * BLOCK;
      assert LastRound(k, 1) == 0 && [x][..0] == [];
      MissingMeansHole(dev, t, DIRECT);
      assert k < MAX_BYTES && k / BLOCK == DIRECT && ByteAt(dev, t, k) == 0;
    }
  }

  lemma {:induction false} ShortOfOne(dev: Device, t: Tree)
    requires t.indirect == 0
    ensures Missing(dev, t, DIRECT) == 1 && Cost(Present(dev, t), DIRECT, 1) == 2
  {
    hide Present;
    PresentHas(dev, t);
    CostNext(Present(dev, t), DIRECT, 1);
    assert Path(DIRECT) - Present(dev, t) == {Indirect};
    NoCost(Present(dev, t) + Path(DIRECT), DIRECT + 1);
  }

  /** The loop of crfs_write, when every round finds a block. */
  method WriteBlocks(fs: FileSystem, ino: Inode, off: nat, buf: seq<Byte>)
    requires fs.Valid() && fs.InodeOk(ino) && off + |buf| <= 0x1000_0000_0000
    requires BlockForEachRound(fs.dev, ino.tree, fs.Available(), off, |buf|)
    modifies fs, ino
    ensures fs.Valid() && fs.InodeOk(ino) && ino.size == old(ino.size) && ino.blocks == old(ino.blocks)
    ensures WriteResult(old(RangeFits(fs.dev, ino.tree, fs.Available(), off, |buf|)),
                        old(fs.dev), old(ino.tree), fs.dev, ino.tree, off, buf)
    ensures fs.Available() == Left(old(fs.Available()), Cost(old(Present(fs.dev, ino.tree)), off / BLOCK, Rounds(off, |buf|)))
    ensures Kept(old(fs.dev), old(ino.own), old(fs.Mark()), fs.dev, ino.own) && fs.Mark() >= old(fs.Mark())
  {
    hide Get, ByteAt, Overlaid, DataOwned, PointersOwned, Kept, BelowMark, Rounds, OnBudget, Present, Missing, Zeros, SameBytes;
    hide FileSystem.Valid, FileSystem.Mark, FileSystem.Available, Path, Cost, LastRound;
    ghost var before := fs.Now(ino);
    ghost var was, free, n := Present(fs.dev, ino.tree), fs.Available(), |buf|;
    ghost var lost := false;
    NothingWritten(before.dev, before.tree, before.own, before.mark, off);
    BudgetStarts(was, free, off, n);
    var total := 0;
    while total < |buf|
      invariant total <= |buf| && (total == 0 || total == |buf| || (off + total) % BLOCK == 0)
      invariant fs.Valid() && fs.InodeOk(ino)
      invariant !lost ==> OnBudget(was, free, off, n, Present(fs.dev, ino.tree), fs.Available(), total)
      invariant !lost ==> Overlaid(before.dev, before.tree, fs.dev, ino.tree, off, buf[..total])
      invariant lost ==> total == n && fs.Available() == 0 && free < Cost(was, off / BLOCK, Rounds(off, n))
      invariant lost ==> WriteResult(false, before.dev, before.tree, fs.dev, ino.tree, off, buf)
      invariant Kept(before.dev, before.own, before.mark, fs.dev, ino.own) && fs.Mark() >= before.mark
      invariant ino.size == old(ino.size) && ino.blocks == old(ino.blocks)
    {
      var pos := off + total;
      var step := Min(BLOCK - pos % BLOCK, |buf| - total);
      RoundTaken(pos, |buf| - total);
      BudgetStep(was, free, off, n, Present(fs.dev, ino.tree), fs.Available(), total);
      MissingIsLack(fs.dev, ino.tree, pos / BLOCK);
      var piece := buf[total..total + step];
      ghost var mid, room := fs.Now(ino), fs.Available();
      WriteRound(fs, ino, pos, piece);
      KeptTransitive(before.dev, before.own, before.mark, mid.dev, mid.own, mid.mark, fs.dev, ino.own);
      assert buf[..total] + piece == buf[..total + step];
      OverlaidTwiceExactly(before.dev, before.tree, mid.dev, mid.tree, fs.dev, ino.tree, off, buf[..total], piece);
      lost := room < 1 + Missing(mid.dev, mid.tree, pos / BLOCK);
      if lost {
        LastRoundTaken(off, n, total);
        assert buf[..total + step] == buf && buf[total..] == piece;
        OverlaidThenSame(before.dev, before.tree, mid.dev, mid.tree, fs.dev, ino.tree, off, buf[..total]);
      }
      total := total + step;
    }
    assert buf[..total] == buf;
    if !lost {
      BudgetEnds(was, free, off, n, Present(fs.dev, ino.tree), fs.Available());
    }
  }

  lemma {:induction false} BudgetStarts(was: set<Role>, free: nat, off: nat, n: nat)
    requires n > 0 ==> free >= 1 + Cost(was, off / BLOCK, Rounds(off, n) - 1)
    ensures OnBudget(was, free, off, n, was, free, 0)
  {
    assert Rounds(off, 0) == 0;
  }

  lemma {:induction false} OverlaidThenSame(dev: Device, t: Tree, dev1: Device, t1: Tree, dev2: Device, t2: Tree,
                                            off: nat, a: seq<Byte>)
    requires Overlaid(dev, t, dev1, t1, off, a) && SameBytes(dev1, t1, dev2, t2)
    ensures Overlaid(dev, t, dev2, t2, off, a)
  {
  }

  /** crfs_write, when every round finds a block.  The count is returned, the size covers the range and the handle
      advances, whether or not the range fits; what the file holds is said by `WriteResult`.  No data block is
      overwritten. */
  method Write(fs: FileSystem, f: File, buf: seq<Byte>) returns (r: int)
    requires fs.Valid()
    requires f.inode != null ==> fs.InodeOk(f.inode)
    requires f.inUse && f.inode != null && f.flags % 4 != 0 ==>
               && f.offset + |buf| <= 0x1000_0000_0000
               && BlockForEachRound(fs.dev, f.inode.tree, fs.Available(), f.offset, |buf|)
    modifies fs, f, if f.inode == null then {} else {f.inode}
    ensures fs.Valid() && f.inode == old(f.inode)
    ensures r == if f.inUse && f.inode != null && f.flags % 4 != 0 then |buf| else -1
    ensures r < 0 ==> f.offset == old(f.offset) && fs.dev == old(fs.dev)
    ensures r >= 0 ==>
      && fs.InodeOk(f.inode)
      && WriteResult(old(RangeFits(fs.dev, f.inode.tree, fs.Available(), f.offset, |buf|)),
                     old(fs.dev), old(f.inode.tree), fs.dev, f.inode.tree, old(f.offset), buf)
      && f.inode.size == Max(old(f.inode.size), old(f.offset) + |buf|)
      && f.inode.blocks == (if old(f.offset) + |buf| > old(f.inode.size) then (old(f.offset) + |buf| + 4095) / 4096
                            else old(f.inode.blocks))
      && f.offset == old(f.offset) + |buf|
      && Kept(old(fs.dev), old(f.inode.own), old(fs.Mark()), fs.dev, f.inode.own)
      && fs.Mark() >= old(fs.Mark())
    ensures r >= 0 && old(f.offset) <= old(f.inode.size) <= MAX_BYTES && old(f.offset) + |buf| <= MAX_BYTES
            && old(RangeFits(fs.dev, f.inode.tree, fs.Available(), f.offset, |buf|)) ==>
      Content(fs.dev, f.inode.tree, f.inode.size)
      == Written(Content(old(fs.dev), old(f.inode.tree), old(f.inode.size)), old(f.offset), buf)
  {
    hide Get, Entry, ByteAt, Overlaid, DataOwned, PointersOwned, Kept, ClearFrom, BelowMark, Content, Written;
    hide BlockForEachRound, RangeFits, Zeros, LastRound, Cost, Rounds, Present;
    if !f.inUse || f.inode == null {
      return -1;
    }
    if f.flags % 4 == 0 {
      return -1;
    }
    var ino, off := f.inode, f.offset;
    ghost var before := fs.Now(ino);
    ghost var fits := RangeFits(fs.dev, ino.tree, fs.Available(), off, |buf|);
    WriteBlocks(fs, ino, off, buf);
    var total := |buf|;
    if off + total > ino.size {
      ino.size := off + total;
      ino.blocks := (ino.size + BLOCK - 1) / BLOCK;
    }
    f.offset := off + total;
    ino.dirty := true;
    if fits && off <= old(f.inode.size) <= MAX_BYTES && off + |buf| <= MAX_BYTES {
      OverlaidShape(before.dev, before.tree, fs.dev, ino.tree, off, buf);
      ContentAfterWrite(before.dev, before.tree, fs.dev, ino.tree, old(f.inode.size), off, buf);
    }
    return total;
  }

  lemma {:induction false} NothingWritten(dev: Device, t: Tree, own: map<int, Role>, mark: nat, off: nat)
    requires PointersOwned(dev, t, own)
    ensures forall e: seq<Byte> :: |e| == 0 ==> Overlaid(dev, t, dev, t, off, e)
    ensures Kept(dev, own, mark, dev, own)
  {
  }

  /** crfs_read returns exactly the requested slice of the file, clamped to its end, holes as zeros. */
  method Read(fs: FileSystem, f: File, buf: array<Byte>, count: nat) returns (r: int)
    requires fs.Valid()
    requires f.inode != null ==> fs.InodeOk(f.inode)
    requires count <= buf.Length && f.offset + count < 0x1_0000_0000_0000_0000
    modifies f, buf
    ensures f.inode == old(f.inode)
    ensures !f.inUse || f.inode == null ==> r == -1 && unchanged(f) && unchanged(buf)
    ensures f.inUse && f.inode != null ==>
      var slice := ReadSlice(Content(fs.dev, f.inode.tree, f.inode.size), old(f.offset), count);
      && r == |slice| && f.offset == old(f.offset) + r
      && buf[..r] == slice && buf[r..] == old(buf[r..])
  {
    hide Get, DataOwned, ClearFrom;
    if !f.inUse || f.inode == null {
      return -1;
    }
    var ino, off := f.inode, f.offset;
    if off >= ino.size {
      return 0;
    }
    var n := if off + count > ino.size then ino.size - off else count;
    var total := 0;
    while total < n
      invariant total <= n
      invariant unchanged(f)
      invariant forall k :: 0 <= k < total ==> buf[k] == ByteAt(fs.dev, ino.tree, off + k)
      invariant buf[n..] == old(buf[n..])
    {
      var pos := off + total;
      var step := Min(BLOCK - pos % BLOCK, n - total);
      var addr := fs.GetBlock(ino, pos / BLOCK);
      Fill(fs, ino, buf, total, step, pos, addr);
      total := total + step;
    }
    f.offset := off + total;
    return total;
  }

  /** The memset or memcpy of one round of crfs_read. */
  method Fill(fs: FileSystem, ino: Inode, buf: array<Byte>, total: nat, step: nat, pos: nat, addr: Ptr)
    requires fs.Valid() && fs.PointersOk(ino) && total + step <= buf.Length
    requires step > 0 && pos % BLOCK + step <= BLOCK && addr == Get(fs.dev, ino.tree, pos / BLOCK)
    modifies buf
    ensures forall k :: 0 <= k < buf.Length ==>
              buf[k] == if total <= k < total + step then ByteAt(fs.dev, ino.tree, pos + (k - total)) else old(buf[k])
  {
    for i := 0 to step
      invariant forall k :: 0 <= k < buf.Length ==>
                  buf[k] == if total <= k < total + i then ByteAt(fs.dev, ino.tree, pos + (k - total)) else old(buf[k])
    {
      assert (pos + i) / BLOCK == pos / BLOCK && (pos + i) % BLOCK == pos % BLOCK + i;
      buf[total + i] := if addr == 0 || addr !in fs.dev then 0 else fs.dev[addr][pos % BLOCK + i];
    }
  }
}
