/** Entries and walks of the four-level page tables of mm.c, on plain values.
    A table is a sequence of 512 entries; physical memory maps a page address to a table. */
module PageTables {
  import opened Bits
  import opened Wrappers

  const ENTRIES: nat := 512
  const PT_VALID: nat := 1
  const PT_TABLE: nat := 2
  const PT_AF: nat := 0x400
  const SPACE: nat := 0x10_0000_0000      // virtual pages in a 48-bit space

  type Memory = map<nat, seq<nat>>

  predicate IsValid(e: nat) {
    e % 2 == 1
  }

  /** `e & PT_ADDR_MASK`: bits 12 to 47. */
  function Addr(e: nat): (r: nat) {
    e / 4096 % SPACE * 4096
  }

  /** The entry `vmm_map` writes to link a new table. */
  function TableEntry(table: nat): (r: nat) {
    Or(Or(table, PT_TABLE), PT_VALID)
  }

  /** The entry `vmm_map` writes for a page. */
  function LeafEntry(paddr: nat, flags: nat): (r: nat) {
    Or(Or(Or(Addr(paddr), flags), PT_VALID), PT_AF)
  }

  /** The four table indices of a virtual address. */
  function Index(vaddr: nat): (s: seq<nat>)
    ensures |s| == 4 && forall i :: 0 <= i < 4 ==> s[i] < ENTRIES
  {
    [vaddr / 0x80_0000_0000 % 512, vaddr / 0x4000_0000 % 512, vaddr / 0x20_0000 % 512, vaddr / 0x1000 % 512]
  }

  /** The virtual page number: bits 12 to 47 of the address. */
  function Page(vaddr: nat): (p: nat)
    ensures p < SPACE
  {
    vaddr / 4096 % SPACE
  }

  predicate IsTable(mem: Memory, t: nat) {
    t in mem && |mem[t]| == ENTRIES
  }

  /** The store `table[x] = e`. */
  function Store(mem: Memory, t: nat, x: nat, e: nat): (r: Memory)
    requires IsTable(mem, t) && x < ENTRIES
  {
    var table: seq<nat> := mem[t][x := e];
    mem[t := table]
  }

  /** Follow the indices `s` from table `t`; the result is the last entry, when every entry is valid. */
  ghost function Walk(mem: Memory, t: nat, s: seq<nat>): (r: Option<nat>)
    decreases |s|
  {
    if s == [] || !IsTable(mem, t) || s[0] >= ENTRIES then None
    else
      var e := mem[t][s[0]];
      if !IsValid(e) then None
      else if |s| == 1 then Some(e)
      else Walk(mem, Addr(e), s[1..])
  }

  /** What the tables below `pgd` say: the partial map from virtual page to leaf entry. */
  ghost function Mapping(mem: Memory, pgd: nat): (r: map<nat, nat>) {
    map v: nat | v < SPACE && Walk(mem, pgd, Index(v * 4096)).Some? :: Walk(mem, pgd, Index(v * 4096)).value
  }

  /** The result of `vmm_get_phys` for a partial map. */
  function Translate(m: map<nat, nat>, vaddr: nat): (r: nat) {
    if Page(vaddr) in m then Or(Addr(m[Page(vaddr)]), vaddr % 4096) else 0
  }

  // ---- entries

  lemma {:induction false} TableEntryRoundTrip(table: nat)
    requires table % 4096 == 0 && table < 0x1_0000_0000_0000
    ensures TableEntry(table) == table + 3
    ensures IsValid(TableEntry(table)) && Addr(TableEntry(table)) == table
  {
    hide TableEntry, IsValid, Addr;
    TwoLowBits(1024 * (table / 4096));
    AddrOfPage(table / 4096);
  }

  lemma {:induction false} AddrOfPage(p: nat)
    requires p < SPACE
    ensures Addr(4096 * p + 3) == 4096 * p && IsValid(4096 * p + 3)
  {
    assert (4096 * p + 3) / 4096 == p;
    assert 4096 * p + 3 == 2 * (2048 * p + 1) + 1;
  }

  lemma {:induction false} TwoLowBits(q: nat)
    ensures TableEntry(4 * q) == 4 * q + 3
  {
    OrZero(q);
    OrZero(2 * q + 1);
    assert Or(2 * q, 1) == 2 * Or(q, 0) + 1;
    assert Or(4 * q, PT_TABLE) == 2 * Or(2 * q, 1);
    assert Or(4 * q + 2, PT_VALID) == 2 * Or(2 * q + 1, 0) + 1;
  }

  /** The frame a leaf entry names: the address bits of the page, or-ed with those of the flags. */
  lemma {:induction false} LeafEntryFrame(paddr: nat, flags: nat)
    requires flags < 0x1_0000_0000
    ensures IsValid(LeafEntry(paddr, flags))
    ensures Addr(LeafEntry(paddr, flags)) == Or(paddr / 4096 % SPACE, flags / 4096) * 4096
  {
    hide Or;
    var p := paddr / 4096 % SPACE;
    var af := Or(Addr(paddr), flags);
    OrPage(Addr(paddr), flags);
    OrLowBits(af);
    Pow2Of12And36();
    OrBound(p, flags / 4096, 36);
    assert Addr(paddr) / 4096 == p;
  }

  /** The low bits of a leaf entry: those of the flags, with the valid and the access bit set. */
  lemma {:induction false} LeafEntryFlags(paddr: nat, flags: nat)
    ensures LeafEntry(paddr, flags) % 4096 == Or(flags % 4096, 0x401)
    ensures flags < 4096 ==> LeafEntry(paddr, flags) % 4096 == Or(flags, 0x401)
  {
    hide Or;
    var f := Or(Addr(paddr), flags);
    OrInPage(Addr(paddr), flags);
    OrInPage(f, PT_VALID);
    OrInPage(Or(f, PT_VALID), PT_AF);
    OrZero(flags % 4096);
    OrAssoc(flags % 4096, PT_VALID, PT_AF);
    ValidAndAccessed();
  }

  lemma {:induction false} ValidAndAccessed()
    ensures Or(PT_VALID, PT_AF) == PT_VALID + PT_AF
  {
    OrZero(PT_AF / 2);
  }

  /** Or-ing in the valid and access bits leaves the page part alone. */
  lemma {:induction false} OrLowBits(e: nat)
    ensures IsValid(Or(Or(e, PT_VALID), PT_AF))
    ensures Or(Or(e, PT_VALID), PT_AF) / 4096 == e / 4096
  {
    OrHalf(e, PT_VALID);
    OrHalf(Or(e, PT_VALID), PT_AF);
    OrPage(Or(e, PT_VALID), PT_AF);
    OrPage(e, PT_VALID);
    OrZero(e / 4096);
  }

  /** The flags leave the frame of every page alone exactly when they have no address bit. */
  lemma {:induction false} FlagsKeepFrame(flags: nat)
    requires flags < 0x1_0000_0000
    ensures (forall paddr: nat :: Addr(LeafEntry(paddr, flags)) == Addr(paddr)) <==> flags < 4096
  {
    forall paddr: nat | flags < 4096 ensures Addr(LeafEntry(paddr, flags)) == Addr(paddr) {
      LeafEntryFrame(paddr, flags);
      OrZero(paddr / 4096 % SPACE);
    }
    LeafEntryFrame(0, flags);
    OrZero(flags / 4096);
    assert Addr(0) == 0;
  }

  /** `vmm_get_phys` after `vmm_map`: the page of `vaddr` translates to the frame of `paddr` plus the
      offset, and every other page translates as before. */
  lemma {:induction false} TranslateAfterMap(m: map<nat, nat>, vaddr: nat, paddr: nat, flags: nat, w: nat)
    requires flags < 4096
    ensures Translate(m[Page(vaddr) := LeafEntry(paddr, flags)], w)
            == if Page(w) == Page(vaddr) then Addr(paddr) + w % 4096 else Translate(m, w)
  {
    FlagsKeepFrame(flags);
    Pow2Of12And36();
    OrDisjoint(Addr(paddr), w % 4096, 12);
  }

  // ---- addresses

  lemma {:induction false} DivDiv512(a: nat)
    ensures a / 4096 / 512 == a / 0x20_0000
    ensures a / 0x20_0000 / 512 == a / 0x4000_0000
    ensures a / 0x4000_0000 / 512 == a / 0x80_0000_0000
  {
  }

  /** The four indices are the digits of the page number in base 512. */
  lemma {:induction false} IndexDigits(vaddr: nat)
    ensures var s := Index(vaddr);
            Page(vaddr) == s[0] * 0x800_0000 + s[1] * 0x4_0000 + s[2] * 0x200 + s[3]
  {
    DivDiv512(vaddr);
    var q := vaddr / 4096;
    var q1, q2, q3 := q / 512, q / 512 / 512, q / 512 / 512 / 512;
    assert q == 512 * q1 + q % 512;
    assert q1 == 512 * q2 + q1 % 512;
    assert q2 == 512 * q3 + q2 % 512;
    assert q3 == 512 * (q3 / 512) + q3 % 512;
    var d := (q3 % 512) * 0x800_0000 + (q2 % 512) * 0x4_0000 + (q1 % 512) * 0x200 + q % 512;
    assert q == SPACE * (q3 / 512) + d;
    assert 0 <= d < SPACE;
  }

  lemma {:induction false} IndexOfPage(vaddr: nat)
    ensures Index(Page(vaddr) * 4096) == Index(vaddr)
  {
    hide Index, Page;
    IndexDigits(vaddr);
    IndexDigits(Page(vaddr) * 4096);
    PageOfPage(Page(vaddr));
    SameDigits(Index(vaddr), Index(Page(vaddr) * 4096));
  }

  lemma {:induction false} SameDigits(s: seq<nat>, u: seq<nat>)
    requires |s| == 4 && |u| == 4 && forall i :: 0 <= i < 4 ==> s[i] < 512 && u[i] < 512
    requires s[0] * 0x800_0000 + s[1] * 0x4_0000 + s[2] * 0x200 + s[3]
          == u[0] * 0x800_0000 + u[1] * 0x4_0000 + u[2] * 0x200 + u[3]
    ensures s == u
  {
    assert s[0] == u[0];
    assert s[1] == u[1];
    assert s[2] == u[2];
  }

  /** Different pages have different indices. */
  lemma {:induction false} IndexInjective(v: nat, w: nat)
    requires v < SPACE && w < SPACE && v != w
    ensures Index(v * 4096) != Index(w * 4096)
  {
    hide Index, Page;
    IndexDigits(v * 4096);
    IndexDigits(w * 4096);
    PageOfPage(v);
    PageOfPage(w);
  }

  lemma {:induction false} PageOfPage(v: nat)
    requires v < SPACE
    ensures Page(v * 4096) == v
  {
  }

  // ---- the tree

  /** `path` gives each table page the indices that lead to it from the root.  Because `path` is a
      function, no table is linked from two places. */
  ghost predicate IsTree(mem: Memory, pgd: nat, path: map<nat, seq<nat>>) {
    && pgd in path && path[pgd] == []
    && (forall t :: t in path ==> IsTable(mem, t) && |path[t]| <= 3)
    && (forall t, x :: t in path && |path[t]| < 3 && 0 <= x < ENTRIES && IsValid(mem[t][x]) ==>
          Addr(mem[t][x]) in path && path[Addr(mem[t][x])] == path[t] + [x])
  }

  /** What the tree says about one entry. */
  lemma {:induction false} TreeEntry(mem: Memory, pgd: nat, path: map<nat, seq<nat>>, t: nat, x: nat)
    requires IsTree(mem, pgd, path) && t in path && |path[t]| < 3 && x < ENTRIES
    ensures IsTable(mem, t)
    ensures IsValid(mem[t][x]) ==> Addr(mem[t][x]) in path && path[Addr(mem[t][x])] == path[t] + [x]
                                   && |path[Addr(mem[t][x])]| == |path[t]| + 1 && IsTable(mem, Addr(mem[t][x]))
  {
  }

  /** Writing a slot of a last-level table changes no walk that does not end in that slot. */
  lemma {:induction false} LeafWriteFrame(mem: Memory, pgd: nat, path: map<nat, seq<nat>>,
                                          c: nat, l: nat, e: nat, t: nat, rest: seq<nat>)
    requires IsTree(mem, pgd, path)
    requires c in path && |path[c]| == 3 && l < ENTRIES
    requires t in path && |path[t]| + |rest| == 4 && path[t] + rest != path[c] + [l]
    ensures Walk(Store(mem, c, l, e), t, rest) == Walk(mem, t, rest)
    decreases |rest|
  {
    var mem' := Store(mem, c, l, e);
    if rest[0] < ENTRIES {
      if t == c {
        assert rest == [rest[0]];
        assert mem'[t][rest[0]] == mem[t][rest[0]];
      } else if |rest| > 1 && IsValid(mem[t][rest[0]]) {
        assert path[t] + rest == path[t] + [rest[0]] + rest[1..];
        LeafWriteFrame(mem, pgd, path, c, l, e, Addr(mem[t][rest[0]]), rest[1..]);
      }
    }
  }

  /** Linking a zeroed page as a new table changes no walk at all. */
  lemma {:induction false} LinkFrame(mem: Memory, pgd: nat, path: map<nat, seq<nat>>,
                                     t0: nat, x0: nat, a: nat, e: nat, t: nat, rest: seq<nat>)
    requires IsTree(mem, pgd, path)
    requires t0 in path && |path[t0]| < 3 && x0 < ENTRIES && !IsValid(mem[t0][x0])
    requires a !in path && Addr(e) == a
    requires t in path && |path[t]| + |rest| == 4
    ensures Walk(Linked(mem, t0, x0, a, e), t, rest) == Walk(mem, t, rest)
    decreases |rest|
  {
    var mem' := Linked(mem, t0, x0, a, e);
    if rest[0] < ENTRIES {
      if t == t0 && rest[0] == x0 {
        assert Walk(mem, t, rest) == None;
        assert |rest| > 1;
        assert !IsValid(mem'[a][0]);
        assert Walk(mem', a, rest[1..]) == None;
      } else {
        assert mem'[t][rest[0]] == mem[t][rest[0]];
        if |rest| > 1 && IsValid(mem[t][rest[0]]) {
          assert path[Addr(mem[t][rest[0]])] == path[t] + [rest[0]];
          LinkFrame(mem, pgd, path, t0, x0, a, e, Addr(mem[t][rest[0]]), rest[1..]);
        }
      }
    }
  }

  function ZeroTable(): (r: seq<nat>) {
    seq(ENTRIES, _ => 0)
  }

  /** Memory after `memset` of page `a` and the store of entry `e` into slot `x` of table `t`. */
  ghost function Linked(mem: Memory, t: nat, x: nat, a: nat, e: nat): (r: Memory)
    requires IsTable(mem, t) && t != a && x < ENTRIES
  {
    Store(mem[a := ZeroTable()], t, x, e)
  }

  lemma {:induction false} LinkKeepsTree(mem: Memory, pgd: nat, path: map<nat, seq<nat>>, t: nat, x: nat, a: nat,
                                         e: nat)
    requires IsTree(mem, pgd, path)
    requires t in path && |path[t]| < 3 && x < ENTRIES && !IsValid(mem[t][x])
    requires a !in path && Addr(e) == a && IsValid(e)
    ensures IsTree(Linked(mem, t, x, a, e), pgd, path[a := path[t] + [x]])
    ensures Mapping(Linked(mem, t, x, a, e), pgd) == Mapping(mem, pgd)
  {
    var mem' := Linked(mem, t, x, a, e);
    forall v: nat | v < SPACE
      ensures Walk(mem', pgd, Index(v * 4096)) == Walk(mem, pgd, Index(v * 4096))
    {
      LinkFrame(mem, pgd, path, t, x, a, e, pgd, Index(v * 4096));
    }
  }

  lemma {:induction false} LeafWriteKeepsTree(mem: Memory, pgd: nat, path: map<nat, seq<nat>>, c: nat, l: nat, e: nat)
    requires IsTree(mem, pgd, path)
    requires c in path && |path[c]| == 3 && l < ENTRIES
    ensures IsTree(Store(mem, c, l, e), pgd, path)
  {
  }

  lemma {:induction false} LeafWriteWalk(mem: Memory, pgd: nat, path: map<nat, seq<nat>>, s: seq<nat>, c: nat, e: nat)
    requires IsTree(mem, pgd, path) && |s| == 4 && s[3] < ENTRIES
    requires c in path && path[c] == s[..3] && Leads(mem, pgd, s[..3], c)
    ensures Walk(Store(mem, c, s[3], e), pgd, s) == if IsValid(e) then Some(e) else None
  {
    assert s == s[..3] + [s[3]];
    LeadsAfterLeafWrite(mem, pgd, path, c, s[3], e, pgd, s[..3]);
    WalkOfLeads(Store(mem, c, s[3], e), pgd, s[..3], c, s[3]);
  }

  /** A store into a last-level table updates the mapping at exactly one page. */
  lemma {:induction false} LeafWrite(mem: Memory, pgd: nat, path: map<nat, seq<nat>>, v: nat, c: nat, e: nat)
    requires IsTree(mem, pgd, path) && v < SPACE
    requires c in path && path[c] == Index(v * 4096)[..3]
    requires Leads(mem, pgd, Index(v * 4096)[..3], c)
    ensures var mem' := Store(mem, c, Index(v * 4096)[3], e);
            && IsTree(mem', pgd, path)
            && Mapping(mem', pgd) == if IsValid(e) then Mapping(mem, pgd)[v := e] else Mapping(mem, pgd) - {v}
  {
    var s := Index(v * 4096);
    var mem' := Store(mem, c, s[3], e);
    LeafWriteKeepsTree(mem, pgd, path, c, s[3], e);
    LeafWriteWalk(mem, pgd, path, s, c, e);
    forall w: nat | w < SPACE && w != v
      ensures Walk(mem', pgd, Index(w * 4096)) == Walk(mem, pgd, Index(w * 4096))
    {
      IndexInjective(v, w);
      var u := Index(w * 4096);
      assert s == s[..3] + [s[3]] && [] + u == u;
      LeafWriteFrame(mem, pgd, path, c, s[3], e, pgd, u);
    }
    MappingPointwise(mem, mem', pgd, v, e);
  }

  lemma {:induction false} MappingPointwise(mem: Memory, mem': Memory, pgd: nat, v: nat, e: nat)
    requires v < SPACE
    requires Walk(mem', pgd, Index(v * 4096)) == if IsValid(e) then Some(e) else None
    requires forall w: nat :: w < SPACE && w != v ==>
               Walk(mem', pgd, Index(w * 4096)) == Walk(mem, pgd, Index(w * 4096))
    ensures Mapping(mem', pgd) == if IsValid(e) then Mapping(mem, pgd)[v := e] else Mapping(mem, pgd) - {v}
  {
  }

  /** The valid table entries `s` lead from table `t` to table `c`. */
  ghost predicate Leads(mem: Memory, t: nat, s: seq<nat>, c: nat)
    decreases |s|
  {
    if s == [] then t == c
    else IsTable(mem, t) && s[0] < ENTRIES && IsValid(mem[t][s[0]]) && Leads(mem, Addr(mem[t][s[0]]), s[1..], c)
  }

  lemma {:induction false} WalkOfLeads(mem: Memory, t: nat, s: seq<nat>, c: nat, x: nat)
    requires Leads(mem, t, s, c) && IsTable(mem, c) && x < ENTRIES
    ensures Walk(mem, t, s + [x]) == if IsValid(mem[c][x]) then Some(mem[c][x]) else None
    decreases |s|
  {
    if s == [] {
      assert [] + [x] == [x];
    } else {
      assert (s + [x])[1..] == s[1..] + [x];
      WalkOfLeads(mem, Addr(mem[t][s[0]]), s[1..], c, x);
    }
  }

  lemma {:induction false} LeadsAfterLeafWrite(mem: Memory, pgd: nat, path: map<nat, seq<nat>>,
                                               c: nat, l: nat, e: nat, t: nat, s: seq<nat>)
    requires IsTree(mem, pgd, path)
    requires c in path && |path[c]| == 3 && l < ENTRIES
    requires t in path && |path[t]| + |s| == 3 && Leads(mem, t, s, c)
    ensures Leads(Store(mem, c, l, e), t, s, c)
    decreases |s|
  {
    if s != [] {
      assert path[Addr(mem[t][s[0]])] == path[t] + [s[0]];
      LeadsAfterLeafWrite(mem, pgd, path, c, l, e, Addr(mem[t][s[0]]), s[1..]);
    }
  }
}
