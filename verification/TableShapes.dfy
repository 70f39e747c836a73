/** Which page tables exist below a root, and how many pages a mapping has to take from the allocator. */
module TableShapes {
  import opened PageTables
  import opened Wrappers

  /** The table at the end of the index path `s` exists: every entry on the way is valid. */
  ghost predicate Present(mem: Memory, t: nat, s: seq<nat>)
    decreases |s|
  {
    s == [] ||
      (IsTable(mem, t) && s[0] < ENTRIES && IsValid(mem[t][s[0]]) && Present(mem, Addr(mem[t][s[0]]), s[1..]))
  }

  /** The index paths of all tables below `pgd`, root included. */
  ghost function Shape(mem: Memory, pgd: nat): (shape: iset<seq<nat>>) {
    iset q: seq<nat> | |q| <= 3 && Present(mem, pgd, q)
  }

  // ---- one more table

  /** A table reached from the root has the path that leads to it. */
  lemma {:induction false} LeadsPath(mem: Memory, pgd: nat, path: map<nat, seq<nat>>, t: nat, s: seq<nat>, c: nat)
    requires IsTree(mem, pgd, path) && t in path && |path[t]| + |s| <= 3 && Leads(mem, t, s, c)
    ensures c in path && path[c] == path[t] + s
    decreases |s|
  {
    if s == [] {
      assert path[t] + [] == path[t];
    } else {
      var u := Addr(mem[t][s[0]]);
      TreeEntry(mem, pgd, path, t, s[0]);
      LeadsPath(mem, pgd, path, u, s[1..], c);
      assert path[t] + s == path[t] + [s[0]] + s[1..];
    }
  }

  /** Slot `x` of the table that `s` leads to decides whether the table at `s + [x]` exists. */
  lemma {:induction false} PresentNext(mem: Memory, t: nat, s: seq<nat>, c: nat, x: nat)
    requires Leads(mem, t, s, c) && IsTable(mem, c) && x < ENTRIES
    ensures Present(mem, t, s)
    ensures Present(mem, t, s + [x]) <==> IsValid(mem[c][x])
    ensures IsValid(mem[c][x]) ==> Leads(mem, t, s + [x], Addr(mem[c][x]))
    decreases |s|
  {
    if s == [] {
      assert [] + [x] == [x] && [x][1..] == [];
    } else {
      assert (s + [x])[1..] == s[1..] + [x];
      PresentNext(mem, Addr(mem[t][s[0]]), s[1..], c, x);
    }
  }

  /** Linking table `a` into slot `x0` of `t0` adds the path to that slot and no other. */
  lemma {:induction false} PresentAfterLink(mem: Memory, pgd: nat, path: map<nat, seq<nat>>,
                                            t0: nat, x0: nat, a: nat, e: nat, t: nat, s: seq<nat>)
    requires IsTree(mem, pgd, path)
    requires t0 in path && |path[t0]| < 3 && x0 < ENTRIES && !IsValid(mem[t0][x0])
    requires a !in path && Addr(e) == a && IsValid(e)
    requires t in path && |path[t]| + |s| <= 3
    ensures Present(Linked(mem, t0, x0, a, e), t, s) <==>
              Present(mem, t, s) || (s != [] && s[|s| - 1] == x0 && Leads(mem, t, s[..|s| - 1], t0))
    decreases |s|
  {
    var mem' := Linked(mem, t0, x0, a, e);
    if s != [] && s[0] < ENTRIES {
      if t == t0 && s[0] == x0 {
        ZeroIsEmpty(mem', a, s[1..]);
        assert |s| == 1 ==> s[..|s| - 1] == [];
      } else {
        assert mem'[t][s[0]] == mem[t][s[0]];
        if IsValid(mem[t][s[0]]) {
          TreeEntry(mem, pgd, path, t, s[0]);
          PresentAfterLink(mem, pgd, path, t0, x0, a, e, Addr(mem[t][s[0]]), s[1..]);
          assert |s| > 1 ==> s[..|s| - 1][1..] == s[1..][..|s| - 2];
        }
      }
    }
  }

  lemma {:induction false} ZeroIsEmpty(mem: Memory, a: nat, s: seq<nat>)
    requires a in mem && mem[a] == ZeroTable()
    ensures Present(mem, a, s) <==> s == []
  {
  }

  lemma {:induction false} LeadsAfterLink(mem: Memory, pgd: nat, path: map<nat, seq<nat>>,
                                          t0: nat, x0: nat, a: nat, e: nat, t: nat, s: seq<nat>, c: nat)
    requires IsTree(mem, pgd, path)
    requires t0 in path && |path[t0]| < 3 && x0 < ENTRIES && !IsValid(mem[t0][x0])
    requires a !in path
    requires t in path && |path[t]| + |s| <= 3 && Leads(mem, t, s, c)
    ensures Leads(Linked(mem, t0, x0, a, e), t, s, c)
    decreases |s|
  {
    if s != [] {
      assert Linked(mem, t0, x0, a, e)[t][s[0]] == mem[t][s[0]];
      TreeEntry(mem, pgd, path, t, s[0]);
      LeadsAfterLink(mem, pgd, path, t0, x0, a, e, Addr(mem[t][s[0]]), s[1..], c);
    }
  }

  /** Linking a new table below one that is reached adds exactly its path to the shape. */
  lemma {:induction false} LinkShape(mem: Memory, pgd: nat, path: map<nat, seq<nat>>, t: nat, x: nat, a: nat, e: nat)
    requires IsTree(mem, pgd, path) && t in path && |path[t]| < 3 && x < ENTRIES && !IsValid(mem[t][x])
    requires a !in path && Addr(e) == a && IsValid(e) && Leads(mem, pgd, path[t], t)
    ensures Shape(Linked(mem, t, x, a, e), pgd) == Shape(mem, pgd) + iset{path[t] + [x]}
    ensures Leads(Linked(mem, t, x, a, e), pgd, path[t] + [x], a)
  {
    var mem' := Linked(mem, t, x, a, e);
    forall q: seq<nat> | |q| <= 3
      ensures Present(mem', pgd, q) <==> Present(mem, pgd, q) || q == path[t] + [x]
    {
      PresentAfterLink(mem, pgd, path, t, x, a, e, pgd, q);
      if q != [] {
        var front := q[..|q| - 1];
        assert q == front + [q[|q| - 1]];
        if Leads(mem, pgd, front, t) {
          LeadsPath(mem, pgd, path, pgd, front, t);
          assert [] + front == front;
        }
        if q == path[t] + [x] {
          assert front == path[t];
        }
      }
    }
    LeadsAfterLink(mem, pgd, path, t, x, a, e, pgd, path[t], t);
    PresentNext(mem', pgd, path[t], t, x);
  }

  /** A store into a last-level table changes no path. */
  lemma {:induction false} PresentAfterLeaf(mem: Memory, pgd: nat, path: map<nat, seq<nat>>, c: nat, l: nat, e: nat,
                                            t: nat, s: seq<nat>)
    requires IsTree(mem, pgd, path) && c in path && |path[c]| == 3 && l < ENTRIES
    requires t in path && |path[t]| + |s| <= 3
    ensures Present(Store(mem, c, l, e), t, s) <==> Present(mem, t, s)
    decreases |s|
  {
    if s != [] && s[0] < ENTRIES && IsValid(mem[t][s[0]]) {
      TreeEntry(mem, pgd, path, t, s[0]);
      PresentAfterLeaf(mem, pgd, path, c, l, e, Addr(mem[t][s[0]]), s[1..]);
    }
  }

  /** A zeroed root has no tables below it and maps nothing. */
  lemma {:induction false} EmptyRoot(pgd: nat)
    ensures var mem: Memory := map[pgd := ZeroTable()];
            Shape(mem, pgd) == iset{[]} && Mapping(mem, pgd) == map[] && IsTree(mem, pgd, map[pgd := []])
  {
    hide Walk, Present, Index, IsTree;
    var mem: Memory := map[pgd := ZeroTable()];
    forall s: seq<nat> ensures Walk(mem, pgd, s) == None && (Present(mem, pgd, s) <==> s == []) {
      ZeroIsEmpty(mem, pgd, s);
      ZeroWalk(mem, pgd, s);
    }
    ZeroTree(pgd);
  }

  lemma {:induction false} ZeroWalk(mem: Memory, a: nat, s: seq<nat>)
    requires a in mem && mem[a] == ZeroTable()
    ensures Walk(mem, a, s) == None
  {
  }

  lemma {:induction false} ZeroTree(pgd: nat)
    ensures IsTree(map[pgd := ZeroTable()], pgd, map[pgd := []])
  {
  }

  lemma {:induction false} LeafShape(mem: Memory, pgd: nat, path: map<nat, seq<nat>>, c: nat, l: nat, e: nat)
    requires IsTree(mem, pgd, path) && c in path && |path[c]| == 3 && l < ENTRIES
    ensures Shape(Store(mem, c, l, e), pgd) == Shape(mem, pgd)
  {
    forall q: seq<nat> | |q| <= 3 ensures Present(Store(mem, c, l, e), pgd, q) <==> Present(mem, pgd, q) {
      PresentAfterLeaf(mem, pgd, path, c, l, e, pgd, q);
    }
  }

  // ---- what a mapping costs

  /** The paths of the three tables below the root that map the page with indices `s`. */
  ghost function Needed(s: seq<nat>): (q: iset<seq<nat>>)
    requires |s| == 4
  {
    iset{s[..1], s[..2], s[..3]}
  }

  /** How many of them are missing. */
  ghost function Lacking(shape: iset<seq<nat>>, s: seq<nat>): (n: nat)
    requires |s| == 4
    ensures n <= 3 && (n == 0 <==> Needed(s) <= shape)
  {
    (if s[..1] in shape then 0 else 1) + (if s[..2] in shape then 0 else 1) + if s[..3] in shape then 0 else 1
  }

  /** The tables after the first `k` pages from `vaddr` on were mapped. */
  ghost function ShapeAfter(shape: iset<seq<nat>>, vaddr: nat, k: nat): (r: iset<seq<nat>>) {
    if k == 0 then shape else ShapeAfter(shape, vaddr, k - 1) + Needed(Index(vaddr + (k - 1) * 4096))
  }

  /** How many pages mapping the first `k` pages takes: one for each, and one for each table not yet there. */
  ghost function Cost(shape: iset<seq<nat>>, vaddr: nat, k: nat): (n: nat)
    ensures k <= n <= 4 * k
  {
    if k == 0 then 0
    else Cost(shape, vaddr, k - 1) + 1 + Lacking(ShapeAfter(shape, vaddr, k - 1), Index(vaddr + (k - 1) * 4096))
  }

  /** How many of `n` pages can be mapped with `budget` free pages. */
  ghost function Rounds(shape: iset<seq<nat>>, vaddr: nat, n: nat, budget: nat): (k: nat) {
    if n == 0 || Cost(shape, vaddr, n) <= budget then n else Rounds(shape, vaddr, n - 1, budget)
  }

  lemma {:induction false} RoundsFit(shape: iset<seq<nat>>, vaddr: nat, n: nat, budget: nat)
    ensures var k := Rounds(shape, vaddr, n, budget);
            && k <= n && Cost(shape, vaddr, k) <= budget
            && (k < n ==> Cost(shape, vaddr, k + 1) > budget)
  {
    hide Cost;
    if n > 0 && Cost(shape, vaddr, n) > budget {
      RoundsFit(shape, vaddr, n - 1, budget);
    }
  }

  lemma {:induction false} CostMonotone(shape: iset<seq<nat>>, vaddr: nat, j: nat, k: nat)
    requires j < k
    ensures Cost(shape, vaddr, j) < Cost(shape, vaddr, k)
  {
    if j < k - 1 {
      CostMonotone(shape, vaddr, j, k - 1);
    }
  }

  /** The number of rounds is the one whose cost still fits while the next one's does not. */
  lemma {:induction false} RoundsUnique(shape: iset<seq<nat>>, vaddr: nat, n: nat, budget: nat, k: nat)
    requires k <= n && Cost(shape, vaddr, k) <= budget
    requires k < n ==> Cost(shape, vaddr, k + 1) > budget
    ensures k == Rounds(shape, vaddr, n, budget)
  {
    hide Cost, Rounds;
    RoundsFit(shape, vaddr, n, budget);
    var r := Rounds(shape, vaddr, n, budget);
    if k + 1 < r { CostMonotone(shape, vaddr, k + 1, r); }
    if r + 1 < k { CostMonotone(shape, vaddr, r + 1, k); }
  }

  lemma {:induction false} CostNone(shape: iset<seq<nat>>, vaddr: nat)
    ensures ShapeAfter(shape, vaddr, 0) == shape && Cost(shape, vaddr, 0) == 0
  {
  }

  lemma {:induction false} CostNext(shape: iset<seq<nat>>, vaddr: nat, k: nat)
    ensures ShapeAfter(shape, vaddr, k + 1) == ShapeAfter(shape, vaddr, k) + Needed(Index(vaddr + k * 4096))
    ensures Cost(shape, vaddr, k + 1) ==
            Cost(shape, vaddr, k) + 1 + Lacking(ShapeAfter(shape, vaddr, k), Index(vaddr + k * 4096))
  {
  }

  /** The round that does not fit is the last; the whole range does not fit either. */
  lemma {:induction false} RoundsEnd(shape: iset<seq<nat>>, vaddr: nat, n: nat, budget: nat, k: nat)
    requires k < n && Cost(shape, vaddr, k) <= budget < Cost(shape, vaddr, k + 1)
    ensures k == Rounds(shape, vaddr, n, budget) && Cost(shape, vaddr, n) > budget
  {
    RoundsUnique(shape, vaddr, n, budget, k);
  }

  /** A mapped page has its tables. */
  lemma {:induction false} WalkPresent(mem: Memory, t: nat, s: seq<nat>, k: nat)
    requires Walk(mem, t, s).Some? && k < |s|
    ensures Present(mem, t, s[..k])
    decreases |s|
  {
    if k > 0 {
      WalkPresent(mem, Addr(mem[t][s[0]]), s[1..], k - 1);
      assert s[..k][1..] == s[1..][..k - 1];
    }
  }

  lemma {:induction false} MappedHasTables(mem: Memory, pgd: nat, vaddr: nat)
    requires Page(vaddr) in Mapping(mem, pgd)
    ensures Needed(Index(vaddr)) <= Shape(mem, pgd)
  {
    IndexOfPage(vaddr);
    var s := Index(vaddr);
    WalkPresent(mem, pgd, s, 1);
    WalkPresent(mem, pgd, s, 2);
    WalkPresent(mem, pgd, s, 3);
  }

  /** When the first page of a range is mapped already, one free page covers one round of it and no more. */
  lemma {:induction false} OneRound(mem: Memory, pgd: nat, vaddr: nat)
    requires Page(vaddr) in Mapping(mem, pgd)
    ensures Cost(Shape(mem, pgd), vaddr, 2) > 1 && Rounds(Shape(mem, pgd), vaddr, 2, 1) == 1
  {
    MappedHasTables(mem, pgd, vaddr);
    var shape := Shape(mem, pgd);
    assert vaddr + 0 * 4096 == vaddr;
    CostNone(shape, vaddr);
    CostNext(shape, vaddr, 0);
    RoundsUnique(shape, vaddr, 2, 1, 1);
  }
}
