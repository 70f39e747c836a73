/** The block map of a CrimsonFS inode on plain values: twelve direct pointers, one indirect and one
    double-indirect block on a device, read as one array of block addresses. */
module Layout {
  import opened Blocks

  type Device = map<int, Block>

  const DIRECT: nat := 12
  const MAX_BLOCKS: nat := 262668      // 12 + 512 + 512 * 512

  datatype Tree = Tree(direct: seq<Ptr>, indirect: Ptr, doubleIndirect: Ptr)

  /** What a block of an inode is for: pointer blocks, and the data block with a given number. */
  datatype Role = Indirect | DoubleIndirect | Level1(index: nat) | Data(block: nat)

  /** The entry `i` of the pointer block at `addr`; a null address stands for a block of nulls. */
  function Entry(dev: Device, addr: Ptr, i: nat): (r: Ptr)
    requires i < PTRS
  {
    if addr == 0 || addr !in dev then 0 else Decode(dev[addr])[i]
  }

  /** crfs_inode_get_block. */
  function Get(dev: Device, t: Tree, b: nat): (r: Ptr)
    requires |t.direct| == DIRECT
  {
    if b < DIRECT then t.direct[b]
    else if b - DIRECT < PTRS then Entry(dev, t.indirect, b - DIRECT)
    else if b < MAX_BLOCKS then
      var d := b - DIRECT - PTRS;
      Entry(dev, Entry(dev, t.doubleIndirect, d / PTRS), d % PTRS)
    else 0
  }

  /** Where each entry of the array is found: the direct ones, those of the indirect block, and those of the
      first-level blocks in turn. */
  lemma {:induction false} EntryPlaces(dev: Device, t: Tree, i: nat, j: nat)
    requires |t.direct| == 12 && i < 512 && j < 512
    ensures j < 12 ==> Get(dev, t, j) == t.direct[j]
    ensures Get(dev, t, 12 + j) == Entry(dev, t.indirect, j)
    ensures Get(dev, t, 524 + 512 * i + j) == Entry(dev, Entry(dev, t.doubleIndirect, i), j)
    ensures Get(dev, t, 524 + 512 * 512 + j) == 0
  {
    hide Entry;
    assert (512 * i + j) / 512 == i && (512 * i + j) % 512 == j;
  }

  predicate IsPointer(r: Role) {
    !r.Data?
  }

  /** Every pointer block has the role of the one place that links to it, so no two are the same block;
      all are on the device and none is block 0. */
  ghost predicate PointersOwned(dev: Device, t: Tree, own: map<int, Role>) {
    && |t.direct| == DIRECT
    && (forall a :: a in own ==> a in dev && a != 0)
    && (t.indirect != 0 ==> t.indirect in own && own[t.indirect] == Indirect)
    && (t.doubleIndirect != 0 ==> t.doubleIndirect in own && own[t.doubleIndirect] == DoubleIndirect)
    && (forall k: nat :: k < PTRS && Entry(dev, t.doubleIndirect, k) != 0 ==>
          Entry(dev, t.doubleIndirect, k) in own && own[Entry(dev, t.doubleIndirect, k)] == Level1(k))
  }

  /** Every data block has the role of its block number. */
  ghost predicate DataOwned(dev: Device, t: Tree, own: map<int, Role>) {
    && |t.direct| == DIRECT
    && forall b: nat :: b < MAX_BLOCKS && Get(dev, t, b) != 0 ==>
         Get(dev, t, b) in own && own[Get(dev, t, b)] == Data(b)
  }

  /** The array of entries after one assignment. */
  ghost predicate Assigned(dev: Device, t: Tree, dev': Device, t': Tree, b: nat, a: Ptr) {
    && |t.direct| == DIRECT && |t'.direct| == DIRECT
    && forall x: nat :: x < MAX_BLOCKS ==> Get(dev', t', x) == if x == b then a else Get(dev, t, x)
  }

  ghost predicate SameEntries(dev: Device, t: Tree, dev': Device, t': Tree) {
    && |t.direct| == DIRECT && |t'.direct| == DIRECT
    && forall x: nat :: x < MAX_BLOCKS ==> Get(dev', t', x) == Get(dev, t, x)
  }

  /** The device after pointer `a` is stored in entry `i` of the pointer block at `p`. */
  function StorePtr(dev: Device, p: int, i: nat, a: Ptr): (r: Device)
    requires p in dev && i < PTRS
  {
    var ptrs: Ptrs := Decode(dev[p])[i := a];
    dev[p := Encode(ptrs)]
  }

  lemma {:induction false} EntryAfterStore(dev: Device, p: int, i: nat, a: Ptr, q: Ptr, j: nat)
    requires p in dev && p != 0 && i < PTRS && j < PTRS
    ensures Entry(StorePtr(dev, p, i, a), q, j) == if q == p && j == i then a else Entry(dev, q, j)
  {
    var ptrs: Ptrs := Decode(dev[p])[i := a];
    RoundTrip(ptrs);
  }

  lemma {:induction false} EntryAfterWrite(dev: Device, n: int, b: Block, q: Ptr, j: nat)
    requires q != n && j < PTRS
    ensures Entry(dev[n := b], q, j) == Entry(dev, q, j)
  {
  }

  lemma {:induction false} EntryOfZeros(dev: Device, n: Ptr, j: nat)
    requires n in dev && dev[n] == Encode(ZERO_PTRS) && j < PTRS
    ensures Entry(dev, n, j) == 0
  {
    RoundTrip(ZERO_PTRS);
  }

  // ---- the six stores of crfs_inode_set_block

  lemma {:induction false} SetDirect(dev: Device, t: Tree, own: map<int, Role>, b: nat, a: Ptr)
    requires PointersOwned(dev, t, own) && b < DIRECT
    ensures var t' := t.(direct := t.direct[b := a]);
            PointersOwned(dev, t', own) && Assigned(dev, t, dev, t', b, a)
  {
  }

  lemma {:induction false} AddIndirect(dev: Device, t: Tree, own: map<int, Role>, n: Ptr)
    requires PointersOwned(dev, t, own) && t.indirect == 0 && n != 0 && n !in own
    ensures var dev', t', own' := dev[n := Encode(ZERO_PTRS)], t.(indirect := n), own[n := Indirect];
            PointersOwned(dev', t', own') && SameEntries(dev, t, dev', t')
  {
    hide Encode, Decode;
    var dev', t' := dev[n := Encode(ZERO_PTRS)], t.(indirect := n);
    forall j: nat | j < PTRS ensures Entry(dev', n, j) == 0 {
      EntryOfZeros(dev', n, j);
    }
    forall q: Ptr, j: nat | q != n && j < PTRS ensures Entry(dev', q, j) == Entry(dev, q, j) {
      EntryAfterWrite(dev, n, Encode(ZERO_PTRS), q, j);
    }
  }

  lemma {:induction false} SetIndirect(dev: Device, t: Tree, own: map<int, Role>, b: nat, a: Ptr)
    requires PointersOwned(dev, t, own) && t.indirect != 0 && DIRECT <= b < DIRECT + PTRS
    ensures var dev' := StorePtr(dev, t.indirect, b - DIRECT, a);
            PointersOwned(dev', t, own) && Assigned(dev, t, dev', t, b, a)
  {
    hide Encode, Decode;
    var dev' := StorePtr(dev, t.indirect, b - DIRECT, a);
    forall q: Ptr, j: nat | j < PTRS
      ensures Entry(dev', q, j) == if q == t.indirect && j == b - DIRECT then a else Entry(dev, q, j)
    {
      EntryAfterStore(dev, t.indirect, b - DIRECT, a, q, j);
    }
  }

  lemma {:induction false} AddDoubleIndirect(dev: Device, t: Tree, own: map<int, Role>, n: Ptr)
    requires PointersOwned(dev, t, own) && t.doubleIndirect == 0 && n != 0 && n !in own
    ensures var dev', t', own' := dev[n := Encode(ZERO_PTRS)], t.(doubleIndirect := n), own[n := DoubleIndirect];
            PointersOwned(dev', t', own') && SameEntries(dev, t, dev', t')
  {
    hide Encode, Decode;
    var dev', t' := dev[n := Encode(ZERO_PTRS)], t.(doubleIndirect := n);
    forall j: nat | j < PTRS ensures Entry(dev', n, j) == 0 {
      EntryOfZeros(dev', n, j);
    }
    forall q: Ptr, j: nat | q != n && j < PTRS ensures Entry(dev', q, j) == Entry(dev, q, j) {
      EntryAfterWrite(dev, n, Encode(ZERO_PTRS), q, j);
    }
  }

  lemma {:induction false} AddLevel1(dev: Device, t: Tree, own: map<int, Role>, k: nat, n: Ptr)
    requires PointersOwned(dev, t, own) && t.doubleIndirect != 0 && k < PTRS
    requires Entry(dev, t.doubleIndirect, k) == 0 && n != 0 && n !in own
    ensures var dev', own' := StorePtr(dev[n := Encode(ZERO_PTRS)], t.doubleIndirect, k, n), own[n := Level1(k)];
            PointersOwned(dev', t, own') && SameEntries(dev, t, dev', t)
  {
    hide Encode, Decode;
    var dev1 := dev[n := Encode(ZERO_PTRS)];
    var dev' := StorePtr(dev1, t.doubleIndirect, k, n);
    forall q: Ptr, j: nat | q != n && j < PTRS
      ensures Entry(dev', q, j) == if q == t.doubleIndirect && j == k then n else Entry(dev, q, j)
    {
      EntryAfterWrite(dev, n, Encode(ZERO_PTRS), q, j);
      EntryAfterStore(dev1, t.doubleIndirect, k, n, q, j);
    }
    forall j: nat | j < PTRS ensures Entry(dev', n, j) == 0 {
      EntryOfZeros(dev1, n, j);
      EntryAfterStore(dev1, t.doubleIndirect, k, n, n, j);
    }
  }

  lemma {:induction false} SetLevel1(dev: Device, t: Tree, own: map<int, Role>, b: nat, a: Ptr)
    requires PointersOwned(dev, t, own) && t.doubleIndirect != 0 && DIRECT + PTRS <= b < MAX_BLOCKS
    requires Entry(dev, t.doubleIndirect, (b - DIRECT - PTRS) / PTRS) != 0
    ensures var d := b - DIRECT - PTRS;
            var dev' := StorePtr(dev, Entry(dev, t.doubleIndirect, d / PTRS), d % PTRS, a);
            PointersOwned(dev', t, own) && Assigned(dev, t, dev', t, b, a)
  {
    hide Encode, Decode;
    var d := b - DIRECT - PTRS;
    var p := Entry(dev, t.doubleIndirect, d / PTRS);
    var dev' := StorePtr(dev, p, d % PTRS, a);
    forall q: Ptr, j: nat | j < PTRS
      ensures Entry(dev', q, j) == if q == p && j == d % PTRS then a else Entry(dev, q, j)
    {
      EntryAfterStore(dev, p, d % PTRS, a, q, j);
    }
    forall x: nat | x < MAX_BLOCKS
      ensures Get(dev', t, x) == if x == b then a else Get(dev, t, x)
    {
      if x >= DIRECT + PTRS {
        var e := x - DIRECT - PTRS;
        if e / PTRS == d / PTRS && e % PTRS == d % PTRS {
          assert e == d;
        }
      }
    }
  }

  // ---- the pointer blocks that are there

  /** The pointer blocks on the way to entry `b`, by their roles. */
  function Path(b: nat): (r: set<Role>) {
    if b < DIRECT then {}
    else if b < DIRECT + PTRS then {Indirect}
    else if b < MAX_BLOCKS then {DoubleIndirect, Level1((b - DIRECT - PTRS) / PTRS)}
    else {}
  }

  /** The pointer blocks an inode has, by their roles. */
  ghost function Present(dev: Device, t: Tree): (r: set<Role>) {
    (if t.indirect == 0 then {} else {Indirect})
    + (if t.doubleIndirect == 0 then {} else {DoubleIndirect})
    + Level1s(dev, t.doubleIndirect)
  }

  ghost function Level1s(dev: Device, a: Ptr): (r: set<Role>) {
    set k: nat | k < PTRS && Entry(dev, a, k) != 0 :: Level1(k)
  }

  lemma {:induction false} Level1sFrom(dev: Device, a: Ptr, dev': Device, a': Ptr)
    requires forall k: nat :: k < PTRS ==> (Entry(dev', a', k) != 0 <==> Entry(dev, a, k) != 0)
    ensures Level1s(dev', a') == Level1s(dev, a)
  {
    hide Entry;
  }

  /** Writing a block that is no pointer block of the inode. */
  lemma {:induction false} PresentAfterWrite(dev: Device, t: Tree, own: map<int, Role>, n: Ptr, blk: Block)
    requires PointersOwned(dev, t, own) && n != 0 && n !in own
    ensures Present(dev[n := blk], t) == Present(dev, t)
    ensures Present(dev[n := blk], t.(indirect := n)) == Present(dev, t) + {Indirect}
  {
    hide Decode;
    forall k: nat | k < PTRS ensures Entry(dev[n := blk], t.doubleIndirect, k) == Entry(dev, t.doubleIndirect, k) {
      EntryAfterWrite(dev, n, blk, t.doubleIndirect, k);
    }
    Level1sFrom(dev, t.doubleIndirect, dev[n := blk], t.doubleIndirect);
  }

  lemma {:induction false} PresentAddDouble(dev: Device, t: Tree, n: Ptr)
    requires t.doubleIndirect == 0 && n != 0
    ensures Present(dev[n := Encode(ZERO_PTRS)], t.(doubleIndirect := n)) == Present(dev, t) + {DoubleIndirect}
  {
    hide Encode, Decode;
    var dev' := dev[n := Encode(ZERO_PTRS)];
    forall k: nat | k < PTRS ensures Entry(dev', n, k) == 0 && Entry(dev, 0, k) == 0 {
      EntryOfZeros(dev', n, k);
    }
    Level1sFrom(dev, 0, dev', n);
  }

  lemma {:induction false} PresentAddLevel1(dev: Device, t: Tree, own: map<int, Role>, k: nat, n: Ptr)
    requires PointersOwned(dev, t, own) && t.doubleIndirect != 0 && k < PTRS && n != 0 && n !in own
    ensures Present(StorePtr(dev[n := Encode(ZERO_PTRS)], t.doubleIndirect, k, n), t) == Present(dev, t) + {Level1(k)}
  {
    hide Encode, Decode;
    var dev1 := dev[n := Encode(ZERO_PTRS)];
    var dev' := StorePtr(dev1, t.doubleIndirect, k, n);
    forall j: nat | j < PTRS
      ensures Entry(dev', t.doubleIndirect, j) == if j == k then n else Entry(dev, t.doubleIndirect, j)
    {
      EntryAfterWrite(dev, n, Encode(ZERO_PTRS), t.doubleIndirect, j);
      EntryAfterStore(dev1, t.doubleIndirect, k, n, t.doubleIndirect, j);
    }
    hide Entry, StorePtr;
    assert Level1s(dev', t.doubleIndirect) == Level1s(dev, t.doubleIndirect) + {Level1(k)};
  }

  /** A store in another pointer block adds none. */
  lemma {:induction false} PresentAfterStore(dev: Device, t: Tree, p: int, i: nat, a: Ptr)
    requires p in dev && p != 0 && p != t.doubleIndirect && i < PTRS
    ensures Present(StorePtr(dev, p, i, a), t) == Present(dev, t)
  {
    hide Encode, Decode;
    var dev' := StorePtr(dev, p, i, a);
    forall j: nat | j < PTRS ensures Entry(dev', t.doubleIndirect, j) == Entry(dev, t.doubleIndirect, j) {
      EntryAfterStore(dev, p, i, a, t.doubleIndirect, j);
    }
    Level1sFrom(dev, t.doubleIndirect, dev', t.doubleIndirect);
  }
}
