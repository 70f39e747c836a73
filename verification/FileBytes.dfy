/** What a CrimsonFS file contains, byte by byte, and what a write does to it. */
module FileBytes {
  import opened Blocks
  import opened Layout

  const MAX_BYTES: nat := MAX_BLOCKS * BLOCK

  /** Byte `k` of the file; holes read as zero. */
  function ByteAt(dev: Device, t: Tree, k: nat): (r: Byte)
    requires |t.direct| == DIRECT
  {
    var a := Get(dev, t, k / BLOCK);
    if a == 0 || a !in dev then 0 else dev[a][k % BLOCK]
  }

  /** Byte `j` of file block `b` is byte `j` of the disk block found for it, and 0 in a hole. */
  lemma {:induction false} BytePlaces(dev: Device, t: Tree, b: nat, j: nat)
    requires |t.direct| == DIRECT && j < 4096
    ensures Get(dev, t, b) == 0 ==> ByteAt(dev, t, 4096 * b + j) == 0
    ensures Get(dev, t, b) != 0 && Get(dev, t, b) in dev ==> ByteAt(dev, t, 4096 * b + j) == dev[Get(dev, t, b)][j]
  {
    hide Get;
    assert (4096 * b + j) / 4096 == b && (4096 * b + j) % 4096 == j;
  }

  /** Byte `j` of block `b`. */
  function BlockByte(dev: Device, t: Tree, b: nat, j: nat): (r: Byte)
    requires |t.direct| == DIRECT
  {
    ByteAt(dev, t, b * BLOCK + j)
  }

  /** The file of the given size. */
  ghost function Content(dev: Device, t: Tree, size: nat): (s: seq<Byte>)
    requires |t.direct| == DIRECT
    ensures |s| == size && forall k :: 0 <= k < size ==> s[k] == ByteAt(dev, t, k)
  {
    seq<Byte>(size, k requires 0 <= k => ByteAt(dev, t, k))
  }

  /** The bytes after the written range that are lost: the rest of the last block, when that block was
      entered at its first byte, so that crfs_write did not read it back. */
  predicate Zeroed(off: nat, n: nat, k: nat) {
    n > 0 && k >= off + n && k / BLOCK == (off + n - 1) / BLOCK && k / BLOCK * BLOCK >= off
  }

  /** Byte `k` after `buf` is written at `off` over a file whose byte `k` was `was`. */
  function After(was: Byte, off: nat, buf: seq<Byte>, k: nat): (r: Byte) {
    if off <= k < off + |buf| then buf[k - off]
    else if Zeroed(off, |buf|, k) then 0
    else was
  }

  /** Every byte of the file is as a write of `buf` at `off` leaves it. */
  ghost predicate Overlaid(dev: Device, t: Tree, dev': Device, t': Tree, off: nat, buf: seq<Byte>) {
    && |t.direct| == DIRECT && |t'.direct| == DIRECT
    && forall k: nat {:trigger ByteAt(dev', t', k)} :: k < MAX_BYTES ==>
         ByteAt(dev', t', k) == After(ByteAt(dev, t, k), off, buf, k)
  }

  /** Writing two adjacent pieces is writing their concatenation, when they meet at a block boundary or
      the first is empty. */
  lemma {:induction false} AfterTwice(was: Byte, off: nat, a: seq<Byte>, b: seq<Byte>, k: nat)
    requires |b| > 0 && (off + |a|) % BLOCK + |b| <= BLOCK
    requires |a| == 0 || (off + |a|) % BLOCK == 0
    ensures After(After(was, off, a, k), off + |a|, b, k) == After(was, off, a + b, k)
  {
  }

  lemma {:induction false} OverlaidTwice(dev: Device, t: Tree, dev1: Device, t1: Tree, dev2: Device, t2: Tree,
                                         off: nat, a: seq<Byte>, b: seq<Byte>)
    requires |b| > 0 && (off + |a|) % BLOCK + |b| <= BLOCK
    requires |a| == 0 || (off + |a|) % BLOCK == 0
    requires Overlaid(dev, t, dev1, t1, off, a) && Overlaid(dev1, t1, dev2, t2, off + |a|, b)
    ensures Overlaid(dev, t, dev2, t2, off, a + b)
  {
    forall k: nat | k < MAX_BYTES
      ensures ByteAt(dev2, t2, k) == After(ByteAt(dev, t, k), off, a + b, k)
    {
      AfterTwice(ByteAt(dev, t, k), off, a, b, k);
    }
  }

  /** The same the other way round: what happens to the second piece decides about both. */
  lemma {:induction false} OverlaidTwiceExactly(dev: Device, t: Tree, dev1: Device, t1: Tree, dev2: Device, t2: Tree,
                                                off: nat, a: seq<Byte>, b: seq<Byte>)
    requires |b| > 0 && (off + |a|) % BLOCK + |b| <= BLOCK
    requires |a| == 0 || (off + |a|) % BLOCK == 0
    requires Overlaid(dev, t, dev1, t1, off, a)
    ensures Overlaid(dev1, t1, dev2, t2, off + |a|, b) <==> Overlaid(dev, t, dev2, t2, off, a + b)
  {
    hide ByteAt, After;
    if |t2.direct| == DIRECT {
      forall k: nat | k < MAX_BYTES
        ensures After(ByteAt(dev1, t1, k), off + |a|, b, k) == After(ByteAt(dev, t, k), off, a + b, k)
      {
        assert ByteAt(dev1, t1, k) == After(ByteAt(dev, t, k), off, a, k);
        AfterTwice(ByteAt(dev, t, k), off, a, b, k);
      }
    }
  }

  // ---- a round that is lost

  /** The file reads as before. */
  ghost predicate SameBytes(dev: Device, t: Tree, dev': Device, t': Tree) {
    && |t.direct| == DIRECT && |t'.direct| == DIRECT
    && forall k: nat {:trigger ByteAt(dev', t', k)} :: k < MAX_BYTES ==> ByteAt(dev', t', k) == ByteAt(dev, t, k)
  }

  predicate Zeros(s: seq<Byte>) {
    forall i :: 0 <= i < |s| ==> s[i] == 0
  }

  /** A piece that never reaches a hole is missing there, unless it consists of zeros. */
  lemma {:induction false} LostInHole(dev: Device, t: Tree, dev': Device, t': Tree, pos: nat, piece: seq<Byte>)
    requires |piece| > 0 && pos % BLOCK + |piece| <= BLOCK && pos / BLOCK < MAX_BLOCKS
    requires SameBytes(dev, t, dev', t')
    requires forall j: nat :: j < BLOCK ==> BlockByte(dev, t, pos / BLOCK, j) == 0
    ensures Overlaid(dev, t, dev', t', pos, piece) <==> Zeros(piece)
  {
    hide ByteAt, After;
    forall k: nat | k < MAX_BYTES
      ensures ByteAt(dev', t', k) == After(ByteAt(dev, t, k), pos, piece, k)
              <==> (pos <= k < pos + |piece| ==> piece[k - pos] == 0)
    {
      AfterInBlock(ByteAt(dev, t, k), pos, piece, k);
      InBlock(pos, |piece|, k);
      Position(pos);
      if k / BLOCK == pos / BLOCK {
        assert BlockByte(dev, t, pos / BLOCK, k % BLOCK) == ByteAt(dev, t, k);
      }
    }
    if Overlaid(dev, t, dev', t', pos, piece) {
      forall i | 0 <= i < |piece| ensures piece[i] == 0 {
        InLargest(pos, i);
        assert ByteAt(dev', t', pos + i) == After(ByteAt(dev, t, pos + i), pos, piece, pos + i);
      }
    }
  }

  lemma {:induction false} InLargest(pos: nat, i: nat)
    requires pos / BLOCK < MAX_BLOCKS && pos % BLOCK + i < BLOCK
    ensures pos + i < MAX_BYTES
  {
    Position(pos);
  }

  /** Behind the largest file there is nothing to overlay. */
  lemma {:induction false} BeyondLargest(dev: Device, t: Tree, dev': Device, t': Tree, pos: nat, piece: seq<Byte>)
    requires |piece| > 0 && pos % BLOCK + |piece| <= BLOCK && pos / BLOCK >= MAX_BLOCKS
    requires SameBytes(dev, t, dev', t')
    ensures Overlaid(dev, t, dev', t', pos, piece)
  {
    hide ByteAt, After;
    forall k: nat | k < MAX_BYTES ensures ByteAt(dev', t', k) == After(ByteAt(dev, t, k), pos, piece, k) {
      AfterInBlock(ByteAt(dev, t, k), pos, piece, k);
      Position(k);
    }
  }

  /** So a buffer overlaid on a file reads back if and only if what lies behind the largest file is zeros. */
  lemma {:induction false} ReadsBackExactly(dev: Device, t: Tree, dev': Device, t': Tree, off: nat, buf: seq<Byte>)
    requires Overlaid(dev, t, dev', t', off, buf)
    ensures (forall i {:trigger buf[i]} :: 0 <= i < |buf| ==> ByteAt(dev', t', off + i) == buf[i])
            <==> forall i :: 0 <= i < |buf| && off + i >= MAX_BYTES ==> buf[i] == 0
  {
    forall i | 0 <= i < |buf|
      ensures ByteAt(dev', t', off + i) == if off + i >= MAX_BYTES then 0 else buf[i]
    {
      if off + i >= MAX_BYTES {
        NothingBeyond(dev', t', off + i);
      } else {
        assert After(ByteAt(dev, t, off + i), off, buf, off + i) == buf[i];
      }
    }
  }

  lemma {:induction false} NothingBeyond(dev: Device, t: Tree, k: nat)
    requires |t.direct| == DIRECT && k >= MAX_BYTES
    ensures ByteAt(dev, t, k) == 0
  {
  }

  /** One block replaced: entry `b` now points to a block holding `blk`, and every other byte of the file
      is where and what it was. */
  ghost predicate BlockReplaced(dev: Device, t: Tree, dev': Device, t': Tree, b: nat, blk: Block) {
    && |t.direct| == DIRECT && |t'.direct| == DIRECT
    && forall k: nat {:trigger ByteAt(dev', t', k)} :: k < MAX_BYTES ==>
         ByteAt(dev', t', k) == if k / BLOCK == b then blk[k % BLOCK] else ByteAt(dev, t, k)
  }

  lemma {:induction false} ReplacedIsOverlaid(dev: Device, t: Tree, dev': Device, t': Tree, pos: nat,
                                              piece: seq<Byte>, blk: Block)
    requires |piece| > 0 && pos % BLOCK + |piece| <= BLOCK
    requires BlockReplaced(dev, t, dev', t', pos / BLOCK, blk)
    requires forall j :: 0 <= j < BLOCK ==>
               blk[j] == if pos % BLOCK <= j < pos % BLOCK + |piece| then piece[j - pos % BLOCK]
                         else if pos % BLOCK != 0 then BlockByte(dev, t, pos / BLOCK, j) else 0
    ensures Overlaid(dev, t, dev', t', pos, piece)
  {
    hide ByteAt, After;
    forall k: nat | k < MAX_BYTES
      ensures ByteAt(dev', t', k) == After(ByteAt(dev, t, k), pos, piece, k)
    {
      AfterInBlock(ByteAt(dev, t, k), pos, piece, k);
      Position(k);
      if k / BLOCK == pos / BLOCK {
        assert blk[k % BLOCK] == ByteAt(dev', t', k);
        assert BlockByte(dev, t, pos / BLOCK, k % BLOCK) == ByteAt(dev, t, k);
      }
    }
  }

  lemma {:induction false} Position(k: nat)
    ensures k / BLOCK * BLOCK + k % BLOCK == k && 0 <= k % BLOCK < BLOCK
  {
  }

  /** A write inside one block, in terms of block and offset. */
  lemma {:induction false} AfterInBlock(was: Byte, pos: nat, piece: seq<Byte>, k: nat)
    requires |piece| > 0 && pos % BLOCK + |piece| <= BLOCK
    ensures After(was, pos, piece, k)
            == if k / BLOCK != pos / BLOCK then was
               else if pos % BLOCK <= k % BLOCK < pos % BLOCK + |piece| then piece[k % BLOCK - pos % BLOCK]
               else if pos % BLOCK != 0 then was
               else 0
  {
    InBlock(pos, |piece|, k);
    Position(pos);
  }

  /** Where byte `k` lies relative to a piece inside one block. */
  lemma {:induction false} InBlock(pos: nat, n: nat, k: nat)
    requires n > 0 && pos % BLOCK + n <= BLOCK
    ensures k == k / BLOCK * BLOCK + k % BLOCK
    ensures pos <= k < pos + n <==> k / BLOCK == pos / BLOCK && pos % BLOCK <= k % BLOCK < pos % BLOCK + n
    ensures Zeroed(pos, n, k) <==> k / BLOCK == pos / BLOCK && pos % BLOCK == 0 && k % BLOCK >= n
  {
  }

  // ---- whole files

  function Max(a: nat, b: nat): (r: nat) {
    if a < b then b else a
  }

  /** The file after a write of `buf` at `off`, bytes past the old end counting as zero. */
  function Written(s: seq<Byte>, off: nat, buf: seq<Byte>): (r: seq<Byte>)
    ensures |r| == Max(|s|, off + |buf|)
    ensures forall k :: 0 <= k < |r| ==> r[k] == After(if k < |s| then s[k] else 0, off, buf, k)
  {
    seq<Byte>(Max(|s|, off + |buf|), k requires 0 <= k => After(if k < |s| then s[k] else 0, off, buf, k))
  }

  /** What a caller expects: `buf` laid over the old bytes and nothing else changed. */
  function Overlay(s: seq<Byte>, off: nat, buf: seq<Byte>): (r: seq<Byte>)
    ensures |r| == Max(|s|, off + |buf|)
    ensures forall k :: 0 <= k < |r| ==>
              r[k] == if off <= k < off + |buf| then buf[k - off] else if k < |s| then s[k] else 0
  {
    seq<Byte>(Max(|s|, off + |buf|), k requires 0 <= k => OverlayAt(s, off, buf, k))
  }

  function OverlayAt(s: seq<Byte>, off: nat, buf: seq<Byte>, k: nat): (r: Byte) {
    if off <= k < off + |buf| then buf[k - off] else if k < |s| then s[k] else 0
  }

  /** A write that ends inside the old file and inside a block it entered at the block's first byte. */
  predicate LosesTail(off: nat, n: nat, size: nat) {
    n > 0 && off + n < size && (off + n) % BLOCK != 0 && (off + n) / BLOCK * BLOCK >= off
  }

  /** crfs_write overlays the buffer on every old content exactly when `LosesTail` does not hold. */
  lemma {:induction false} OverlayExactly(off: nat, buf: seq<Byte>, size: nat)
    ensures (forall s: seq<Byte> :: |s| == size ==> Written(s, off, buf) == Overlay(s, off, buf))
            <==> !LosesTail(off, |buf|, size)
  {
    var n := |buf|;
    if LosesTail(off, n, size) {
      var s: seq<Byte> := seq(size, _ => 1);
      var k := off + n;
      assert k / BLOCK == (k - 1) / BLOCK by { SameBlock(k); }
      assert Zeroed(off, n, k);
      assert Written(s, off, buf)[k] == 0 && Overlay(s, off, buf)[k] == 1;
      assert Written(s, off, buf) != Overlay(s, off, buf);
    } else {
      forall s: seq<Byte> | |s| == size ensures Written(s, off, buf) == Overlay(s, off, buf) {
        forall k: nat | k < |Written(s, off, buf)| ensures Written(s, off, buf)[k] == Overlay(s, off, buf)[k] {
          if k < size && Zeroed(off, n, k) {
            ZeroedMeansLoss(off, n, k);
          }
        }
      }
    }
  }

  lemma {:induction false} SameBlock(k: nat)
    requires k % BLOCK != 0
    ensures k / BLOCK == (k - 1) / BLOCK
  {
  }

  lemma {:induction false} ZeroedMeansLoss(off: nat, n: nat, k: nat)
    requires Zeroed(off, n, k)
    ensures (off + n) % BLOCK != 0 && (off + n) / BLOCK == k / BLOCK
  {
  }

  /** A write at or before the end of the file, on the file as a sequence. */
  lemma {:induction false} ContentAfterWrite(dev: Device, t: Tree, dev': Device, t': Tree, size: nat, off: nat,
                                             buf: seq<Byte>)
    requires Overlaid(dev, t, dev', t', off, buf)
    requires off <= size <= MAX_BYTES && off + |buf| <= MAX_BYTES
    ensures Content(dev', t', Max(size, off + |buf|)) == Written(Content(dev, t, size), off, buf)
  {
  }

  /** Appending. */
  lemma {:induction false} WrittenAtEnd(s: seq<Byte>, buf: seq<Byte>)
    ensures Written(s, |s|, buf) == s + buf
  {
  }

  // ---- chunks

  function Flatten(chunks: seq<seq<Byte>>): (r: seq<Byte>) {
    if chunks == [] then [] else chunks[0] + Flatten(chunks[1..])
  }

  /** A run of writes, each starting where the one before it ended. */
  function WriteAll(s: seq<Byte>, off: nat, chunks: seq<seq<Byte>>): (r: seq<Byte>)
    decreases |chunks|
  {
    if chunks == [] then s else WriteAll(Written(s, off, chunks[0]), off + |chunks[0]|, chunks[1..])
  }

  /** However the data is cut into chunks, writing them to an empty file gives their concatenation. */
  lemma {:induction false} WriteAllAppends(s: seq<Byte>, chunks: seq<seq<Byte>>)
    ensures WriteAll(s, |s|, chunks) == s + Flatten(chunks)
    decreases |chunks|
  {
    if chunks != [] {
      WrittenAtEnd(s, chunks[0]);
      WriteAllAppends(s + chunks[0], chunks[1..]);
      assert s + chunks[0] + Flatten(chunks[1..]) == s + Flatten(chunks);
    } else {
      assert s + [] == s;
    }
  }

  /** The bytes one read returns: the requested slice, clamped to the file. */
  function ReadSlice(s: seq<Byte>, off: nat, count: nat): (r: seq<Byte>) {
    if off >= |s| then [] else if off + count > |s| then s[off..] else s[off..off + count]
  }

  /** A run of reads, each starting where the one before it ended. */
  function ReadAll(s: seq<Byte>, off: nat, counts: seq<nat>): (r: seq<Byte>)
    decreases |counts|
  {
    if counts == [] then []
    else
      var r := ReadSlice(s, off, counts[0]);
      r + ReadAll(s, off + |r|, counts[1..])
  }

  function Sum(counts: seq<nat>): (r: nat) {
    if counts == [] then 0 else counts[0] + Sum(counts[1..])
  }

  lemma {:induction false} NoRead(s: seq<Byte>, off: nat)
    requires off <= |s|
    ensures ReadSlice(s, off, 0) == []
  {
  }

  lemma {:induction false} SliceFits(s: seq<Byte>, off: nat, count: nat)
    requires off <= |s|
    ensures off + |ReadSlice(s, off, count)| <= |s|
  {
  }

  lemma {:induction false} ReadTwice(s: seq<Byte>, off: nat, a: nat, b: nat)
    requires off <= |s|
    ensures var r := ReadSlice(s, off, a);
            r + ReadSlice(s, off + |r|, b) == ReadSlice(s, off, a + b)
  {
  }

  /** However the reads are sized, together they return one slice. */
  lemma {:induction false} ReadAllIsOneRead(s: seq<Byte>, off: nat, counts: seq<nat>)
    requires off <= |s|
    ensures ReadAll(s, off, counts) == ReadSlice(s, off, Sum(counts))
    decreases |counts|
  {
    hide ReadSlice;
    if counts == [] {
      NoRead(s, off);
    } else {
      var r := ReadSlice(s, off, counts[0]);
      SliceFits(s, off, counts[0]);
      ReadAllIsOneRead(s, off + |r|, counts[1..]);
      ReadTwice(s, off, counts[0], Sum(counts[1..]));
    }
  }

  /** Write in any chunks to an empty file, read from the start in any pieces that cover it. */
  lemma {:induction false} ChunkedRoundTrip(chunks: seq<seq<Byte>>, counts: seq<nat>)
    requires Sum(counts) >= |Flatten(chunks)|
    ensures ReadAll(WriteAll([], 0, chunks), 0, counts) == Flatten(chunks)
  {
    WriteAllAppends([], chunks);
    ReadAllIsOneRead(Flatten(chunks), 0, counts);
    assert [] + Flatten(chunks) == Flatten(chunks);
  }
}
