/** The virtual memory manager of mm.c: `vmm_map`, `vmm_unmap`, `vmm_get_phys` and `vmm_alloc_pages`
    refine a partial map from virtual page number to leaf entry. */
module Vmm {
  import opened Bits
  import opened PageTables
  import opened TableShapes
  import opened Wrappers
  import Pmm

  /** The page number of the `i`-th page of a range. */
  function PageAt(vaddr: nat, i: nat): (r: nat) {
    Page(vaddr + i * 4096)
  }

  /** The page numbers of the first `n` pages of a range. */
  ghost function RangePages(vaddr: nat, n: nat): (s: set<nat>)
    ensures forall i: nat :: i < n ==> PageAt(vaddr, i) in s
    ensures forall p :: p in s ==> exists i: nat :: i < n && p == PageAt(vaddr, i)
  {
    if n == 0 then {} else RangePages(vaddr, n - 1) + {PageAt(vaddr, n - 1)}
  }

  lemma {:induction false} RemovalHarmless(m: map<nat, nat>, s: set<nat>)
    ensures m - s == m <==> s !! m.Keys
  {
    assert (m - s).Keys == m.Keys - s;
  }

  lemma {:induction false} RemoveTwice(m: map<nat, nat>, s: set<nat>, x: nat)
    ensures (m - s) - {x} == m - (s + {x})
  {
  }

  /** The map after mapping the physical pages `pages`, numbered from `base`, one by one from `vaddr` on. */
  ghost function MapRange(m: map<nat, nat>, vaddr: nat, base: nat, pages: seq<nat>, flags: nat): (r: map<nat, nat>) {
    if pages == [] then m
    else
      var k := |pages| - 1;
      MapRange(m, vaddr, base, pages[..k], flags)[PageAt(vaddr, k) := LeafEntry(base + pages[k] * 4096, flags)]
  }

  lemma {:induction false} MapRangeNext(m: map<nat, nat>, vaddr: nat, base: nat, pages: seq<nat>, page: nat, flags: nat)
    ensures MapRange(m, vaddr, base, pages + [page], flags)
            == MapRange(m, vaddr, base, pages, flags)[PageAt(vaddr, |pages|) := LeafEntry(base + page * 4096, flags)]
  {
    assert (pages + [page])[..|pages|] == pages;
  }

  /** Removing a range that was just mapped removes from the original map the pages of that range. */
  lemma {:induction false} MapRangeRemoved(m: map<nat, nat>, vaddr: nat, base: nat, pages: seq<nat>, flags: nat)
    ensures MapRange(m, vaddr, base, pages, flags) - RangePages(vaddr, |pages|) == m - RangePages(vaddr, |pages|)
  {
    if pages != [] {
      var k := |pages| - 1;
      MapRangeRemoved(m, vaddr, base, pages[..k], flags);
      var s := RangePages(vaddr, k);
      var m' := MapRange(m, vaddr, base, pages[..k], flags);
      RemoveTwice(m', s, PageAt(vaddr, k));
      RemoveTwice(m, s, PageAt(vaddr, k));
      OverwriteThenRemove(m', s + {PageAt(vaddr, k)}, PageAt(vaddr, k),
                          LeafEntry(base + pages[k] * 4096, flags));
    }
  }

  lemma {:induction false} OverwriteThenRemove(m: map<nat, nat>, s: set<nat>, x: nat, e: nat)
    requires x in s
    ensures m[x := e] - s == m - s
  {
  }

  /** Page `i` of a range, in 36 bits. */
  lemma {:induction false} PageNumber(vaddr: nat, i: nat)
    ensures PageAt(vaddr, i) == (vaddr / 4096 + i) % 0x10_0000_0000
  {
    assert (vaddr + i * 4096) / 4096 == vaddr / 4096 + i;
  }

  /** What a range of at most 2^36 pages means, page by page. */
  lemma {:induction false} MapRangeAt(m: map<nat, nat>, vaddr: nat, base: nat, pages: seq<nat>, flags: nat, i: nat)
    requires i < |pages| <= SPACE
    ensures PageAt(vaddr, i) in MapRange(m, vaddr, base, pages, flags)
    ensures MapRange(m, vaddr, base, pages, flags)[PageAt(vaddr, i)] == LeafEntry(base + pages[i] * 4096, flags)
  {
    var k := |pages| - 1;
    if i < k {
      MapRangeAt(m, vaddr, base, pages[..k], flags, i);
      PagesDiffer(vaddr, i, k);
    }
  }

  /** Fewer than 2^36 consecutive pages have different page numbers, even when the range wraps. */
  lemma {:induction false} PagesDiffer(vaddr: nat, i: nat, k: nat)
    requires i < k < i + SPACE
    ensures PageAt(vaddr, i) != PageAt(vaddr, k)
  {
    var q := vaddr / 4096;
    assert (vaddr + i * 4096) / 4096 == q + i;
    assert (vaddr + k * 4096) / 4096 == q + k;
  }

  /** The address of one of the free pages. */
  ghost predicate IsFreeFrame(base: nat, free: set<nat>, t: nat) {
    t >= base && (t - base) % 4096 == 0 && (t - base) / 4096 in free
  }

  lemma {:induction false} FreeFrame(base: nat, free: set<nat>, p: nat)
    ensures IsFreeFrame(base, free, base + p * 4096) <==> p in free
  {
  }

  lemma {:induction false} FewerFreeFrames(base: nat, free: set<nat>, less: set<nat>)
    requires less <= free
    ensures forall t :: IsFreeFrame(base, less, t) ==> IsFreeFrame(base, free, t)
  {
  }

  /** The allocator and the tables, as values. */
  datatype Snapshot = Snapshot(mem: Memory, path: map<nat, seq<nat>>, base: nat, free: set<nat>)

  /** Tables may have been added, in pages that were free. */
  ghost predicate AddedTables(a: Snapshot, b: Snapshot) {
    && b.base == a.base && b.free <= a.free
    && (forall t :: t in a.path ==> t in b.path && b.path[t] == a.path[t])
    && (forall t :: t in b.path ==> t in a.path || IsFreeFrame(a.base, a.free, t))
  }

  /** Tables may have been added; valid entries stay as they were. */
  ghost predicate Grew(a: Snapshot, b: Snapshot) {
    && AddedTables(a, b)
    && (forall t, x :: t in a.path && IsTable(a.mem, t) && 0 <= x < ENTRIES && IsValid(a.mem[t][x]) ==>
          IsTable(b.mem, t) && b.mem[t][x] == a.mem[t][x])
  }

  lemma {:induction false} GrewTransitive(a: Snapshot, b: Snapshot, c: Snapshot)
    requires Grew(a, b) && Grew(b, c)
    ensures Grew(a, c)
  {
    FewerFreeFrames(a.base, a.free, b.free);
  }

  /** No table lies in a free page. */
  ghost predicate TablesHeld(path: map<nat, seq<nat>>, base: nat, free: set<nat>) {
    forall t :: t in path ==> !IsFreeFrame(base, free, t)
  }

  /** A page just taken from the free set may become a table. */
  lemma {:induction false} LinkGrows(mem: Memory, pgd: nat, path: map<nat, seq<nat>>, base: nat, free: set<nat>,
                                     free': set<nat>,
                                     t: nat, x: nat, a: nat, e: nat)
    requires IsTree(mem, pgd, path) && t in path && |path[t]| < 3 && x < ENTRIES && !IsValid(mem[t][x])
    requires TablesHeld(path, base, free) && free' <= free
    requires IsFreeFrame(base, free, a) && !IsFreeFrame(base, free', a) && Addr(e) == a && IsValid(e)
    ensures a !in path
    ensures IsTree(Linked(mem, t, x, a, e), pgd, path[a := path[t] + [x]])
    ensures Mapping(Linked(mem, t, x, a, e), pgd) == Mapping(mem, pgd)
    ensures TablesHeld(path[a := path[t] + [x]], base, free')
    ensures Grew(Snapshot(mem, path, base, free),
                 Snapshot(Linked(mem, t, x, a, e), path[a := path[t] + [x]], base, free'))
  {
    LinkKeepsTree(mem, pgd, path, t, x, a, e);
    hide Mapping, Walk;
    FewerFreeFrames(base, free, free');
  }

  /** Taking a page and adding no table. */
  lemma {:induction false} LessFree(mem: Memory, path: map<nat, seq<nat>>, base: nat, free: set<nat>, free': set<nat>)
    requires TablesHeld(path, base, free) && free' <= free
    ensures TablesHeld(path, base, free')
    ensures Grew(Snapshot(mem, path, base, free), Snapshot(mem, path, base, free'))
  {
    FewerFreeFrames(base, free, free');
  }

  lemma {:induction false} Added(a: Snapshot, b: Snapshot)
    requires AddedTables(a, b)
    ensures b.free <= a.free
  {
  }

  /** A page that was taken before tables were added is not one of them, so it may be freed again. */
  lemma {:induction false} GiveBack(path: map<nat, seq<nat>>, free: set<nat>, a: Snapshot, b: Snapshot, p: nat)
    requires TablesHeld(path, a.base, free) && a.path == path && p in free && p !in a.free && a.free <= free
    requires AddedTables(a, b) && TablesHeld(b.path, b.base, b.free)
    ensures TablesHeld(b.path, b.base, b.free + {p}) && b.free + {p} <= free
  {
    var t := a.base + p * 4096;
    assert IsFreeFrame(a.base, free, t);
    forall u | IsFreeFrame(b.base, b.free + {p}, u) ensures u !in b.path {
      if u != t { assert IsFreeFrame(b.base, b.free, u); }
    }
  }

  lemma {:induction false} GrewReflexive(a: Snapshot)
    ensures Grew(a, a)
  {
  }

  /** An input at which a failing call of vmm_alloc_pages loses a mapping: two pages are asked for, the first is
      mapped already, and one page is free.  The call fails, and the rollback unmaps that page. */
  lemma {:induction false} MappingLost(mem: Memory, pgd: nat, vaddr: nat)
    requires Page(vaddr) in Mapping(mem, pgd)
    ensures 1 < Cost(Shape(mem, pgd), vaddr, 2)
    ensures !(RangePages(vaddr, Rounds(Shape(mem, pgd), vaddr, 2, 1)) !! Mapping(mem, pgd).Keys)
  {
    OneRound(mem, pgd, vaddr);
    assert vaddr + 0 * 4096 == vaddr && PageAt(vaddr, 0) == Page(vaddr);
    assert PageAt(vaddr, 0) in RangePages(vaddr, 1) * Mapping(mem, pgd).Keys;
  }

  class AddressSpace {
    const pmm: Pmm.PageAllocator
    var mem: Memory
    var pgd: nat
    ghost var path: map<nat, seq<nat>>

    /** The tables reached from `pgd` form a tree of pages that the page allocator holds as used. */
    ghost predicate Valid()
      reads this, pmm, pmm.bitmap
    {
      && pmm.Valid()
      && IsTree(mem, pgd, path)
      && TablesHeld(path, pmm.physBase, pmm.free)
    }

    ghost function Now(): (r: Snapshot)
      reads this, pmm
    {
      Snapshot(mem, path, pmm.physBase, pmm.free)
    }

    ghost function Map(): (r: map<nat, nat>)
      reads this
    {
      Mapping(mem, pgd)
    }

    /** The index paths of the tables. */
    ghost function Tables(): (r: iset<seq<nat>>)
      reads this
    {
      Shape(mem, pgd)
    }

    /** A page directory in a page that the caller obtained from `pmm_alloc` (vmm_init). */
    constructor (pmm: Pmm.PageAllocator, page: nat)
      requires pmm.Valid()
      requires !IsFreeFrame(pmm.physBase, pmm.free, page)
      ensures this.pmm == pmm && Valid() && Map() == map[] && Tables() == iset{[]}
    {
      hide Walk, Mapping, Shape, IsTree, Pmm.PageAllocator.Valid;
      this.pmm := pmm;
      pgd := page;
      mem := map[page := ZeroTable()];
      path := map[page := []];
      new;
      EmptyRoot(pgd);
    }

    /** One level of `vmm_map`: the table that slot `x` of table `t` leads to, created when missing.  Address 0
        stands for failure, so page 0 is lost to a caller; with a nonzero base the call fails exactly when the
        table is missing and no page is free. */
    method EnsureTable(t: nat, x: nat) returns (ok: bool, child: nat)
      requires Valid() && t in path && |path[t]| < 3 && x < ENTRIES && Leads(mem, pgd, path[t], t)
      modifies this`mem, this`path, pmm, pmm.bitmap
      ensures Valid() && pmm.SameRange() && pmm.doubleFrees == old(pmm.doubleFrees)
      ensures Map() == old(Map()) && Grew(old(Now()), Now())
      ensures ok ==> child in path && path[child] == old(path)[t] + [x] && Leads(mem, pgd, path[child], child)
      ensures Tables() == old(Tables()) + if ok then iset{old(path)[t] + [x]} else iset{}
      ensures ok ==> old(path)[t] + [x] in old(Tables()) || old(pmm.free) != {}
      ensures pmm.physBase > 0 && (old(path)[t] + [x] in old(Tables()) || old(pmm.free) != {}) ==> ok
      ensures pmm.physBase > 0 && !ok ==> pmm.free == {}
      ensures |pmm.free| == |old(pmm.free)| - if old(path)[t] + [x] in old(Tables()) || old(pmm.free) == {} then 0 else 1
    {
      hide Pmm.PageAllocator.Valid, Mapping, Walk, TableEntry, Grew, TablesHeld, IsFreeFrame, Linked, Leads, Present;
      hide IsTree;
      TreeEntry(mem, pgd, path, t, x);
      PresentNext(mem, pgd, path[t], t, x);
      GrewReflexive(Now());
      ok, child := true, Addr(mem[t][x]);
      if !IsValid(mem[t][x]) {
        var newTable, _ := TakePage();
        if newTable == 0 {
          return false, 0;
        }
        TableEntryRoundTrip(newTable);
        LinkGrows(mem, pgd, path, pmm.physBase, old(pmm.free), pmm.free, t, x, newTable, TableEntry(newTable));
        LinkShape(mem, pgd, path, t, x, newTable, TableEntry(newTable));
        Link(t, x, newTable, TableEntry(newTable));
        child := newTable;
      }
    }

    lemma {:induction false} FreeIsManaged()
      requires Valid()
      ensures forall p :: p in pmm.free ==> p < pmm.totalPages
    {
    }

    /** A page from pmm_alloc, 0 for none. */
    method TakePage() returns (a: nat, ghost p: nat)
      requires Valid()
      modifies pmm, pmm.bitmap
      ensures Valid() && pmm.SameRange() && pmm.doubleFrees == old(pmm.doubleFrees)
      ensures pmm.free <= old(pmm.free) && Grew(old(Now()), Now())
      ensures |pmm.free| == |old(pmm.free)| - if old(pmm.free) == {} then 0 else 1
      ensures a % 4096 == 0 && a < 0x1_0000_0000_0000
      ensures a != 0 ==> p < pmm.totalPages && Pmm.IsLeast(old(pmm.free), p) && a == pmm.Frame(p)
                         && pmm.free == old(pmm.free) - {p}
      ensures a != 0 ==> IsFreeFrame(pmm.physBase, old(pmm.free), a) && !IsFreeFrame(pmm.physBase, pmm.free, a)
      ensures pmm.physBase > 0 && old(pmm.free) != {} ==> a != 0
    {
      hide Pmm.PageAllocator.Valid, IsTree, Grew, TablesHeld, IsFreeFrame;
      FreeIsManaged();
      a := pmm.Alloc();
      p := 0;
      LessFree(mem, path, pmm.physBase, old(pmm.free), pmm.free);
      if old(pmm.free) != {} {
        p :| Pmm.IsLeast(old(pmm.free), p) && a == pmm.Frame(p) && pmm.free == old(pmm.free) - {p};
        FreeFrame(pmm.physBase, old(pmm.free), p);
        FreeFrame(pmm.physBase, pmm.free, p);
      }
    }

    /** Clear the new table and store its entry. */
    method Link(t: nat, x: nat, a: nat, e: nat)
      requires IsTable(mem, t) && t in path && t != a && x < ENTRIES
      modifies this`mem, this`path
      ensures mem == Linked(old(mem), t, x, a, e) && path == old(path)[a := old(path)[t] + [x]]
    {
      mem := mem[a := ZeroTable()];
      mem := Store(mem, t, x, e);
      path := path[a := path[t] + [x]];
    }

    /** The first three levels of vmm_map.  With a nonzero base the call succeeds exactly when the missing tables
        fit into the free pages. */
    method EnsurePath(s: seq<nat>) returns (ok: bool, pte: nat)
      requires Valid() && |s| == 4 && forall i :: 0 <= i < 4 ==> s[i] < ENTRIES
      modifies this`mem, this`path, pmm, pmm.bitmap
      ensures Valid() && pmm.SameRange() && pmm.doubleFrees == old(pmm.doubleFrees)
      ensures Map() == old(Map()) && Grew(old(Now()), Now())
      ensures ok ==> pte in path && path[pte] == s[..3] && Leads(mem, pgd, s[..3], pte)
      ensures ok ==> Tables() == old(Tables()) + Needed(s)
      ensures ok ==> |pmm.free| + Lacking(old(Tables()), s) == |old(pmm.free)|
      ensures pmm.physBase > 0 ==> (ok <==> |old(pmm.free)| >= Lacking(old(Tables()), s))
      ensures pmm.physBase > 0 && !ok ==> pmm.free == {}
    {
      hide Pmm.PageAllocator.Valid, Mapping, Walk, Leads, Grew, TablesHeld, IsTree, Shape;
      pte := 0;
      Prefixes(s);
      RootIsTable(mem, pgd, path);
      ghost var s0 := Now();
      var pud, pmd;
      ok, pud := EnsureTable(pgd, s[0]);
      ghost var s1 := Now();
      if !ok { return; }
      ok, pmd := EnsureTable(pud, s[1]);
      ghost var s2 := Now();
      GrewTransitive(s0, s1, s2);
      if !ok { return; }
      ok, pte := EnsureTable(pmd, s[2]);
      GrewTransitive(s0, s2, Now());
    }

    /** vmm_map.  On success the mapping changes at the page of `vaddr` and nowhere else; on failure it
        does not change at all, although tables may have been added.  With a nonzero base it succeeds exactly when
        the missing tables fit into the free pages. */
    method MapPage(vaddr: nat, paddr: nat, flags: nat) returns (ok: bool)
      requires Valid() && flags < 0x1_0000_0000
      modifies this`mem, this`path, pmm, pmm.bitmap
      ensures Valid() && pmm.SameRange() && pmm.doubleFrees == old(pmm.doubleFrees)
      ensures AddedTables(old(Now()), Now())
      ensures ok ==> Map() == old(Map())[Page(vaddr) := LeafEntry(paddr, flags)]
      ensures ok ==> Tables() == old(Tables()) + Needed(Index(vaddr))
      ensures ok ==> |pmm.free| + Lacking(old(Tables()), Index(vaddr)) == |old(pmm.free)|
      ensures !ok ==> Map() == old(Map())
      ensures pmm.physBase > 0 ==> (ok <==> |old(pmm.free)| >= Lacking(old(Tables()), Index(vaddr)))
      ensures pmm.physBase > 0 && !ok ==> pmm.free == {}
    {
      hide Pmm.PageAllocator.Valid, Mapping, Walk, Leads, Page, Index, LeafEntry, Shape, Needed, Lacking;
      var s := Index(vaddr);
      var pte;
      ok, pte := EnsurePath(s);
      if !ok { return; }
      IndexOfPage(vaddr);
      LeafEntryFrame(paddr, flags);
      LeafWrite(mem, pgd, path, Page(vaddr), pte, LeafEntry(paddr, flags));
      LeafShape(mem, pgd, path, pte, s[3], LeafEntry(paddr, flags));
      mem := Store(mem, pte, s[3], LeafEntry(paddr, flags));
    }

    /** The walk that vmm_unmap and vmm_get_phys share: the last-level table, unless a level is missing. */
    method LastTable(s: seq<nat>) returns (ok: bool, pte: nat)
      requires Valid() && |s| == 4 && forall i :: 0 <= i < 4 ==> s[i] < ENTRIES
      ensures ok ==> pte in path && path[pte] == s[..3] && Leads(mem, pgd, s[..3], pte)
      ensures ok ==> Walk(mem, pgd, s) == if IsValid(mem[pte][s[3]]) then Some(mem[pte][s[3]]) else None
      ensures !ok ==> Walk(mem, pgd, s) == None
    {
      ok, pte := false, 0;
      Prefixes(s);
      if !IsValid(mem[pgd][s[0]]) { return; }
      var pud := Addr(mem[pgd][s[0]]);
      assert path[pud] == [s[0]];
      if !IsValid(mem[pud][s[1]]) { return; }
      var pmd := Addr(mem[pud][s[1]]);
      assert path[pmd] == [s[0], s[1]];
      WalkTwo(mem, pgd, s, pud, pmd);
      if !IsValid(mem[pmd][s[2]]) { return; }
      pte := Addr(mem[pmd][s[2]]);
      ok := true;
      LeadsThree(mem, pgd, s, pud, pmd, pte);
    }

    /** vmm_unmap removes exactly the page of `vaddr`, if it was mapped. */
    method Unmap(vaddr: nat)
      requires Valid()
      modifies this`mem
      ensures Valid() && Map() == old(Map()) - {Page(vaddr)}
    {
      hide Pmm.PageAllocator.Valid, Page, Index;
      var s := Index(vaddr);
      IndexOfPage(vaddr);
      var ok, pte := LastTable(s);
      if !ok { return; }
      LeafWrite(mem, pgd, path, Page(vaddr), pte, 0);
      mem := Store(mem, pte, s[3], 0);
    }

    /** vmm_get_phys reads the partial map. */
    method GetPhys(vaddr: nat) returns (r: nat)
      requires Valid()
      ensures r == Translate(Map(), vaddr)
    {
      var s := Index(vaddr);
      IndexOfPage(vaddr);
      var ok, pte := LastTable(s);
      if !ok || !IsValid(mem[pte][s[3]]) { return 0; }
      return Or(Addr(mem[pte][s[3]]), vaddr % 4096);
    }

    /** One round of vmm_alloc_pages: take a free page and map it, or give it back.  With a nonzero base it
        succeeds exactly when the page and its missing tables fit into the free pages; when they do not, the page
        taken for the mapping is the only one that is free afterwards. */
    method AllocPage(vaddr: nat, flags: nat) returns (ok: bool, ghost page: nat)
      requires Valid() && flags < 0x1_0000_0000
      modifies this`mem, this`path, pmm, pmm.bitmap
      ensures Valid() && pmm.SameRange() && pmm.doubleFrees == old(pmm.doubleFrees)
      ensures pmm.free <= old(pmm.free)
      ensures ok ==> Pmm.IsLeast(old(pmm.free), page) && page !in pmm.free
      ensures ok ==> Map() == old(Map())[Page(vaddr) := LeafEntry(pmm.Frame(page), flags)]
      ensures ok ==> Tables() == old(Tables()) + Needed(Index(vaddr))
      ensures ok ==> |pmm.free| + 1 + Lacking(old(Tables()), Index(vaddr)) == |old(pmm.free)|
      ensures !ok ==> Map() == old(Map())
      ensures pmm.physBase > 0 ==> (ok <==> |old(pmm.free)| >= 1 + Lacking(old(Tables()), Index(vaddr)))
      ensures pmm.physBase > 0 && !ok ==>
                if old(pmm.free) == {} then pmm.free == {}
                else Pmm.IsLeast(old(pmm.free), page) && pmm.free == {page}
    {
      hide Pmm.PageAllocator.Valid, IsTree, Mapping, LeafEntry, Page, TablesHeld, AddedTables, Grew, IsFreeFrame,
           Shape, Needed, Lacking, Index;
      var paddr;
      paddr, page := TakePage();
      if paddr == 0 {
        return false, 0;
      }
      ghost var taken := Now();
      ok := MapPage(vaddr, paddr, flags);
      Added(taken, Now());
      if !ok {
        ReturnPage(paddr, page, old(path), old(pmm.free), taken);
      }
    }

    /** pmm_free of the page that could not be mapped. */
    method ReturnPage(paddr: nat, ghost page: nat, ghost was: map<nat, seq<nat>>, ghost free: set<nat>,
                      ghost taken: Snapshot)
      requires Valid() && paddr == pmm.Frame(page) && page in free && page < pmm.totalPages
      requires TablesHeld(was, pmm.physBase, free) && taken.path == was && taken.base == pmm.physBase
      requires page !in taken.free && taken.free <= free && AddedTables(taken, Now())
      modifies pmm, pmm.bitmap
      ensures Valid() && pmm.SameRange() && pmm.doubleFrees == old(pmm.doubleFrees)
      ensures pmm.free == old(pmm.free) + {page}
    {
      hide Pmm.PageAllocator.Valid, IsTree, TablesHeld, AddedTables, IsFreeFrame;
      Added(taken, Now());
      GiveBack(was, free, taken, Now(), page);
      pmm.FreePage(paddr);
    }

    /** vmm_alloc_pages.  With a nonzero base it succeeds exactly when the pages and all tables they lack fit into
        the free pages; the range then maps to pairwise different pages that were free before.  Otherwise as
        many pages as fit are mapped and then unmapped again, so the map is as before exactly when none of those
        was mapped.  The pages of the rounds that were undone are not returned. */
    method AllocPages(vaddr: nat, npages: nat, flags: nat) returns (ok: bool, ghost pages: seq<nat>)
      requires Valid() && flags < 0x1_0000_0000
      modifies this`mem, this`path, pmm, pmm.bitmap
      ensures Valid() && pmm.SameRange() && pmm.doubleFrees == old(pmm.doubleFrees)
      ensures ok ==> |pages| == npages && Map() == MapRange(old(Map()), vaddr, pmm.physBase, pages, flags)
      ensures forall i :: 0 <= i < |pages| ==> pages[i] in old(pmm.free) && pages[i] !in pmm.free
      ensures forall i, j :: 0 <= i < j < |pages| ==> pages[i] != pages[j]
      ensures ok ==> |pmm.free| + Cost(old(Tables()), vaddr, npages) == |old(pmm.free)|
      ensures pmm.physBase > 0 && !ok ==>
                |pmm.free| == if |old(pmm.free)| == Cost(old(Tables()), vaddr, |pages|) then 0 else 1
      ensures !ok ==> |pages| < npages && Map() == old(Map()) - RangePages(vaddr, |pages|)
      ensures !ok ==> (Map() == old(Map()) <==> RangePages(vaddr, |pages|) !! old(Map()).Keys)
      ensures pmm.physBase > 0 ==> (ok <==> |old(pmm.free)| >= Cost(old(Tables()), vaddr, npages))
      ensures pmm.physBase > 0 ==> |pages| == Rounds(old(Tables()), vaddr, npages, |old(pmm.free)|)
      ensures pmm.physBase > 0 && !ok ==>
                (Map() == old(Map()) <==>
                 RangePages(vaddr, Rounds(old(Tables()), vaddr, npages, |old(pmm.free)|)) !! old(Map()).Keys)
    {
      hide Pmm.PageAllocator.Valid, IsTree, TablesHeld, Mapping, Shape, Needed, Lacking, Index, Rounds, Page, Cost,
           ShapeAfter, LeafEntry;
      CostNone(Tables(), vaddr);
      pages := [];
      ghost var before, base := Map(), pmm.physBase;
      ghost var shape, budget := Tables(), |pmm.free|;
      ghost var built := before;
      var i := 0;
      while i < npages
        invariant 0 <= i <= npages && |pages| == i
        invariant Valid() && pmm.SameRange() && pmm.doubleFrees == old(pmm.doubleFrees)
        invariant pmm.free <= old(pmm.free)
        invariant Map() == built == MapRange(before, vaddr, base, pages, flags)
        invariant Tables() == ShapeAfter(shape, vaddr, i) && |pmm.free| + Cost(shape, vaddr, i) == budget
        invariant forall k :: 0 <= k < i ==> pages[k] in old(pmm.free) && pages[k] !in pmm.free
        invariant forall j, k :: 0 <= j < k < i ==> pages[j] != pages[k]
      {
        ghost var page;
        CostNext(shape, vaddr, i);
        ok, page := AllocPage(vaddr + i * 4096, flags);
        if !ok {
          if base > 0 { RoundsEnd(shape, vaddr, npages, budget, i); }
          Rollback(vaddr, i);
          MapRangeRemoved(before, vaddr, base, pages, flags);
          RemovalHarmless(before, RangePages(vaddr, i));
          return;
        }
        MapRangeNext(before, vaddr, base, pages, page, flags);
        built := built[PageAt(vaddr, i) := LeafEntry(base + page * 4096, flags)];
        pages := pages + [page];
        i := i + 1;
      }
      ok := true;
      RoundsUnique(shape, vaddr, npages, budget, npages);
    }

    /** The rollback loop: unmap the first `n` pages of the range. */
    method Rollback(vaddr: nat, n: nat)
      requires Valid()
      modifies this`mem
      ensures Valid() && Map() == old(Map()) - RangePages(vaddr, n)
    {
      assert Map() - RangePages(vaddr, 0) == Map();
      for j := 0 to n
        invariant Valid() && Map() == old(Map()) - RangePages(vaddr, j)
      {
        Unmap(vaddr + j * 4096);
        RemoveTwice(old(Map()), RangePages(vaddr, j), PageAt(vaddr, j));
      }
    }
  }

  lemma {:induction false} RootIsTable(mem: Memory, pgd: nat, path: map<nat, seq<nat>>)
    requires IsTree(mem, pgd, path)
    ensures pgd in path && path[pgd] == [] && IsTable(mem, pgd) && Leads(mem, pgd, [], pgd)
  {
  }

  lemma {:induction false} Prefixes(s: seq<nat>)
    requires |s| == 4
    ensures [] + [s[0]] == [s[0]] && [s[0]] + [s[1]] == [s[0], s[1]] && [s[0], s[1]] + [s[2]] == s[..3]
    ensures s[..1] == [s[0]] && s[..2] == [s[0], s[1]]
  {
  }

  lemma {:induction false} WalkTwo(mem: Memory, t: nat, s: seq<nat>, pud: nat, pmd: nat)
    requires |s| == 4 && forall i :: 0 <= i < 4 ==> s[i] < ENTRIES
    requires IsTable(mem, t) && IsTable(mem, pud)
    requires IsValid(mem[t][s[0]]) && Addr(mem[t][s[0]]) == pud
    requires IsValid(mem[pud][s[1]]) && Addr(mem[pud][s[1]]) == pmd
    ensures Walk(mem, t, s) == Walk(mem, pmd, s[2..])
  {
    assert s[1..][1..] == s[2..];
    assert Walk(mem, t, s) == Walk(mem, pud, s[1..]);
  }

  lemma {:induction false} LeadsThree(mem: Memory, t: nat, s: seq<nat>, pud: nat, pmd: nat, pte: nat)
    requires |s| == 4 && forall i :: 0 <= i < 4 ==> s[i] < ENTRIES
    requires IsTable(mem, t) && IsTable(mem, pud) && IsTable(mem, pmd) && IsTable(mem, pte)
    requires IsValid(mem[t][s[0]]) && Addr(mem[t][s[0]]) == pud
    requires IsValid(mem[pud][s[1]]) && Addr(mem[pud][s[1]]) == pmd
    requires IsValid(mem[pmd][s[2]]) && Addr(mem[pmd][s[2]]) == pte
    ensures Leads(mem, t, s[..3], pte)
    ensures Walk(mem, t, s) == if IsValid(mem[pte][s[3]]) then Some(mem[pte][s[3]]) else None
  {
    assert s[..3] == [s[0], s[1], s[2]] && s == s[..3] + [s[3]];
    assert Leads(mem, pmd, [s[2]], pte);
    assert Leads(mem, pud, [s[1], s[2]], pte);
    assert Leads(mem, t, [s[0], s[1], s[2]], pte);
    WalkOfLeads(mem, t, s[..3], pte, s[3]);
  }
}
