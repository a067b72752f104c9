/** The first-fit block allocator of kernel/alloc/heap.c.

    One tag byte per 4096-byte block says whether the block is taken and whether it is the first
    or the last block of its region. The tag table refines a map from the first block of every live
    region to one past its last block. */
module Heaps {
  import opened Bits

  const TAKEN: bv8 := 0x80
  const FIRST: bv8 := 0x40
  const LAST: bv8 := 0x20

  /** A tag byte. Its other five bits are never set. */
  datatype Tag = Tag(taken: bool, first: bool, last: bool)

  const FREE := Tag(false, false, false)

  function Byte(t: Tag): bv8 {
    (if t.taken then TAKEN else 0) | (if t.first then FIRST else 0) | (if t.last then LAST else 0)
  }

  /** Tests, settings and the clearing of flags are the kernel's operations on the byte. */
  lemma TagIsByte(t: Tag)
    ensures t.taken <==> Byte(t) & 0x80 != 0
    ensures t.first <==> Byte(t) & 0x40 != 0
    ensures t.last <==> Byte(t) & 0x20 != 0
    ensures Byte(t.(taken := true)) == Byte(t) | 0x80
    ensures Byte(t.(first := true)) == Byte(t) | 0x40
    ensures Byte(t.(last := true)) == Byte(t) | 0x20
    ensures t == FREE <==> Byte(t) == 0
  {
  }

  // ---------------------------------------------------------------- well-formed tables

  /** Cell `i` is zero, or part of a run: unless it is the head it continues the cell before, and
      unless it is the tail the cell after continues it. */
  ghost predicate Cell(t: seq<Tag>, n: nat, i: nat)
    requires i < n <= |t|
  {
    && (!t[i].taken ==> t[i] == FREE)
    && (t[i].taken && !t[i].first ==> i > 0 && t[i - 1].taken && !t[i - 1].last)
    && (t[i].taken && !t[i].last ==> i + 1 < n && t[i + 1].taken && !t[i + 1].first)
  }

  /** The first `n` cells partition into zero cells and runs. */
  ghost predicate Runs(t: seq<Tag>, n: nat) {
    n <= |t| && forall i: nat :: i < n ==> Cell(t, n, i)
  }

  /** The tail of the run that goes through cell `i`. */
  ghost function RunEnd(t: seq<Tag>, n: nat, i: nat): (r: nat)
    requires Runs(t, n) && i < n && t[i].taken
    ensures i <= r < n
    decreases n - i
  {
    assert Cell(t, n, i);
    if t[i].last then i else RunEnd(t, n, i + 1)
  }

  lemma {:induction false} RunCells(t: seq<Tag>, n: nat, i: nat)
    requires Runs(t, n) && i < n && t[i].taken
    ensures var e := RunEnd(t, n, i);
            && t[e].last
            && (forall k :: i <= k <= e ==> t[k].taken)
            && (forall k :: i < k <= e ==> !t[k].first)
            && (forall k :: i <= k < e ==> !t[k].last)
    decreases n - i
  {
    assert Cell(t, n, i);
    if !t[i].last {
      RunCells(t, n, i + 1);
    }
  }

  /** The live regions: first block to one past the last block. */
  ghost function Regions(t: seq<Tag>, n: nat): map<nat, nat>
    requires Runs(t, n)
  {
    map i: nat | i < n && t[i].taken && t[i].first :: RunEnd(t, n, i) + 1
  }

  /** Live regions are pairwise disjoint. */
  lemma RegionsDisjoint(t: seq<Tag>, n: nat, i: nat, j: nat)
    requires Runs(t, n) && i in Regions(t, n) && j in Regions(t, n) && i < j
    ensures Regions(t, n)[i] <= j
  {
    RunCells(t, n, i);
  }

  /** A cell is taken exactly when some live region holds it. */
  lemma RegionsCover(t: seq<Tag>, n: nat, k: nat)
    requires Runs(t, n) && k < n
    ensures t[k].taken <==> exists i :: i in Regions(t, n) && i <= k < Regions(t, n)[i]
  {
    if t[k].taken {
      var i := RunHead(t, n, k);
      assert i in Regions(t, n);
    }
    forall i | i in Regions(t, n) && i <= k < Regions(t, n)[i]
      ensures t[k].taken
    {
      RunCells(t, n, i);
    }
  }

  lemma {:induction false} RunHead(t: seq<Tag>, n: nat, k: nat) returns (i: nat)
    requires Runs(t, n) && k < n && t[k].taken
    ensures i <= k && t[i].taken && t[i].first && RunEnd(t, n, i) == RunEnd(t, n, k)
    decreases k
  {
    if t[k].first {
      i := k;
    } else {
      assert Cell(t, n, k);
      i := RunHead(t, n, k - 1);
    }
  }

  /** Runs that agree cell by cell have the same end. */
  lemma {:induction false} RunEndAgrees(t: seq<Tag>, u: seq<Tag>, n: nat, i: nat)
    requires Runs(t, n) && Runs(u, n) && i < n && t[i].taken
    requires forall k :: i <= k <= RunEnd(t, n, i) ==> u[k] == t[k]
    ensures u[i].taken && RunEnd(u, n, i) == RunEnd(t, n, i)
    decreases n - i
  {
    assert Cell(t, n, i);
    if !t[i].last {
      RunEndAgrees(t, u, n, i + 1);
    }
  }

  // ---------------------------------------------------------------- counting

  function FreeCount(t: seq<Tag>, n: nat): nat
    requires n <= |t|
  {
    if n == 0 then 0 else FreeCount(t, n - 1) + (if t[n - 1].taken then 0 else 1)
  }

  /** A heap that has free blocks has room for one. */
  lemma {:induction false} FreeCell(t: seq<Tag>, n: nat)
    requires n <= |t| && FreeCount(t, n) > 0
    ensures exists s: nat :: FreeRun(t, n, s, 1)
  {
    if t[n - 1].taken {
      FreeCell(t, n - 1);
      var s: nat :| FreeRun(t, n - 1, s, 1);
      assert FreeRun(t, n, s, 1);
    } else {
      assert FreeRun(t, n, n - 1, 1);
    }
  }

  /** Taking the cells from `s` to `e`, and no other, costs e - s. */
  lemma {:induction false} FreeCountTaking(t: seq<Tag>, u: seq<Tag>, n: nat, s: nat, e: nat)
    requires n <= |t| == |u| && s <= e
    requires forall k :: 0 <= k < n && !(s <= k < e) ==> u[k].taken == t[k].taken
    requires forall k :: s <= k < e && k < n ==> !t[k].taken && u[k].taken
    ensures FreeCount(t, n) == FreeCount(u, n) + (if n <= s then 0 else if n <= e then n - s else e - s)
  {
    if n > 0 {
      FreeCountTaking(t, u, n - 1, s, e);
    }
  }

  // ---------------------------------------------------------------- allocation

  function BlocksFor(size: nat): nat { Ceiling(size, 4096) }

  predicate FreeRun(t: seq<Tag>, n: nat, s: nat, m: nat)
    requires n <= |t|
  {
    s + m <= n && forall k :: s <= k < s + m ==> !t[k].taken
  }

  /** `s` is the lowest start of `m` free blocks. */
  predicate FirstFit(t: seq<Tag>, n: nat, s: nat, m: nat)
    requires n <= |t|
  {
    FreeRun(t, n, s, m) && forall k: nat :: k < s ==> !FreeRun(t, n, k, m)
  }

  /** All blocks from `k` on are free. */
  predicate FreeFrom(t: seq<Tag>, n: nat, k: nat)
    requires n <= |t|
  {
    forall i :: k <= i < n ==> !t[i].taken
  }

  /** First fit takes no more than the next blocks of such a tail. */
  lemma TailAfterFit(t: seq<Tag>, n: nat, k: nat, s: nat, m: nat)
    requires Runs(t, n) && FreeFrom(t, n, k) && k + m <= n && FirstFit(t, n, s, m)
    ensures FreeFrom(Marked(t, s, m), n, k + m)
  {
    assert FreeRun(t, n, k, m);
    MarkedCells(t, n, s, m);
  }

  /** The tag `t` of cell `k`, turned into that of a run from `s` to `e`. */
  function RunTag(t: Tag, k: nat, s: nat, e: nat): Tag {
    Tag(true, t.first || k == s, t.last || k + 1 == e)
  }

  function Marked(t: seq<Tag>, s: nat, m: nat): (u: seq<Tag>)
    requires s + m <= |t|
    ensures |u| == |t|
  {
    t[..s] + seq(m, k requires 0 <= k < m => RunTag(t[s + k], s + k, s, s + m)) + t[s + m..]
  }

  lemma MarkedCells(t: seq<Tag>, n: nat, s: nat, m: nat)
    requires Runs(t, n) && FreeRun(t, n, s, m)
    ensures var u := Marked(t, s, m);
            && (forall k :: 0 <= k < |t| && !(s <= k < s + m) ==> u[k] == t[k])
            && (forall k :: s <= k < s + m ==> u[k] == RunTag(FREE, k, s, s + m))
            && (forall k :: s <= k < s + m ==> u[k].taken && (u[k].first <==> k == s) && (u[k].last <==> k + 1 == s + m))
  {
    var u := Marked(t, s, m);
    forall k | s <= k < s + m
      ensures u[k] == RunTag(FREE, k, s, s + m)
    {
      assert Cell(t, n, k);
      assert u[k] == RunTag(t[s + (k - s)], s + (k - s), s, s + m);
    }
  }

  /** Marking a free run keeps the table well formed and adds exactly that region. */
  lemma MarkedRegions(t: seq<Tag>, n: nat, s: nat, m: nat)
    requires Runs(t, n) && FreeRun(t, n, s, m) && m > 0
    ensures Runs(Marked(t, s, m), n)
    ensures s !in Regions(t, n) && Regions(Marked(t, s, m), n) == Regions(t, n)[s := s + m]
    ensures FreeCount(t, n) == FreeCount(Marked(t, s, m), n) + m
  {
    var u := Marked(t, s, m);
    MarkedRuns(t, n, s, m);
    MarkedCells(t, n, s, m);
    FreeCountTaking(t, u, n, s, s + m);
    assert OneMoreRun(t, u, n, s, s + m) by {
      MarkedRunEnd(u, n, s, s, m);
    }
    RegionsGrow(t, u, n, s, s + m);
  }

  lemma MarkedRuns(t: seq<Tag>, n: nat, s: nat, m: nat)
    requires Runs(t, n) && FreeRun(t, n, s, m) && m > 0
    ensures Runs(Marked(t, s, m), n)
  {
    var u := Marked(t, s, m);
    MarkedCells(t, n, s, m);
    forall i: nat | i < n
      ensures Cell(u, n, i)
    {
      assert Cell(t, n, i);
    }
  }

  /** `u` is `t` with a run from `s` to `e` put into free cells. */
  ghost predicate OneMoreRun(t: seq<Tag>, u: seq<Tag>, n: nat, s: nat, e: nat) {
    && Runs(t, n) && Runs(u, n) && s < e <= n
    && (forall k :: 0 <= k < n && !(s <= k < e) ==> u[k] == t[k])
    && (forall k :: s <= k < e ==> !t[k].taken && u[k].taken && (u[k].first <==> k == s))
    && RunEnd(u, n, s) == e - 1
  }

  lemma RegionKept(t: seq<Tag>, u: seq<Tag>, n: nat, s: nat, e: nat, i: nat)
    requires OneMoreRun(t, u, n, s, e)
    ensures i in Regions(u, n) <==> i == s || i in Regions(t, n)
    ensures i in Regions(t, n) ==> i != s && i in Regions(u, n) && Regions(u, n)[i] == Regions(t, n)[i]
  {
    if i in Regions(t, n) {
      RunCells(t, n, i);
      RunEndAgrees(t, u, n, i);
    }
  }

  /** Two tables that differ by one run differ by one region. */
  lemma RegionsGrow(t: seq<Tag>, u: seq<Tag>, n: nat, s: nat, e: nat)
    requires OneMoreRun(t, u, n, s, e)
    ensures s !in Regions(t, n) && Regions(u, n) == Regions(t, n)[s := e]
  {
    var before, after := Regions(t, n), Regions(u, n);
    assert s !in before && after[s] == e;
    forall i: nat
      ensures i in after <==> i == s || i in before
      ensures i in before ==> after[i] == before[i]
    {
      RegionKept(t, u, n, s, e, i);
    }
  }

  lemma {:induction false} MarkedRunEnd(u: seq<Tag>, n: nat, i: nat, s: nat, m: nat)
    requires Runs(u, n) && s <= i < s + m <= n
    requires forall k :: s <= k < s + m ==> u[k].taken && (u[k].last <==> k + 1 == s + m)
    ensures RunEnd(u, n, i) == s + m - 1
    decreases s + m - i
  {
    if i + 1 < s + m {
      MarkedRunEnd(u, n, i + 1, s, m);
    }
  }

  // ---------------------------------------------------------------- release

  function Zeroed(t: seq<Tag>, s: nat, e: nat): (u: seq<Tag>)
    requires s <= e <= |t|
    ensures |u| == |t|
    ensures forall k :: 0 <= k < |t| ==> u[k] == if s <= k < e then FREE else t[k]
  {
    t[..s] + seq(e - s, _ => FREE) + t[e..]
  }

  /** Clearing the region at `s` keeps the table well formed and removes exactly that region. */
  lemma ZeroedRegions(t: seq<Tag>, n: nat, s: nat)
    requires Runs(t, n) && s in Regions(t, n)
    ensures var e := Regions(t, n)[s];
            var u := Zeroed(t, s, e);
            && Runs(u, n)
            && Regions(u, n) == Regions(t, n) - {s}
            && FreeCount(u, n) == FreeCount(t, n) + (e - s)
  {
    var e := Regions(t, n)[s];
    var u := Zeroed(t, s, e);
    ZeroedRuns(t, n, s);
    RunCells(t, n, s);
    FreeCountTaking(u, t, n, s, e);
    RegionsGrow(u, t, n, s, e);
    assert s !in Regions(u, n);
    assert Regions(t, n) - {s} == Regions(u, n);
  }

  lemma ZeroedRuns(t: seq<Tag>, n: nat, s: nat)
    requires Runs(t, n) && s in Regions(t, n)
    ensures Runs(Zeroed(t, s, Regions(t, n)[s]), n)
  {
    var e := Regions(t, n)[s];
    var u := Zeroed(t, s, e);
    RunCells(t, n, s);
    forall i: nat | i < n
      ensures Cell(u, n, i)
    {
      assert Cell(t, n, i);
    }
  }

  /** Releasing what was just allocated restores the table exactly. */
  lemma ReleaseUndoesAllocate(t: seq<Tag>, n: nat, s: nat, m: nat)
    requires Runs(t, n) && FreeRun(t, n, s, m) && m > 0
    ensures Runs(Marked(t, s, m), n) && s in Regions(Marked(t, s, m), n)
    ensures Zeroed(Marked(t, s, m), s, Regions(Marked(t, s, m), n)[s]) == t
  {
    MarkedRegions(t, n, s, m);
    MarkedCells(t, n, s, m);
    forall k | s <= k < s + m
      ensures t[k] == FREE
    {
      assert Cell(t, n, k);
    }
  }

  // ---------------------------------------------------------------- the allocator

  class Heap {
    const start: nat
    const blocks: nat
    /** heap_table_size reserves eight bytes per block for one tag, so reading one tag past the last
        block, as heap_alloc does, stays inside the table. */
    const table: array<Tag>
    var freeBlocks: nat

    ghost predicate Valid()
      reads this, table
    {
      && start > 0
      && blocks * 4096 < 0x8000_0000
      && table.Length == 8 * blocks
      && Runs(table[..], blocks)
      && freeBlocks == FreeCount(table[..], blocks)
    }

    /** The live regions, in block numbers. */
    ghost function Live(): map<nat, nat>
      requires Valid()
      reads this, table
    {
      Regions(table[..], blocks)
    }

    /** heap_createtable, whose loop clears the first tag in every round: the others are zero before. */
    constructor (start: nat, table: array<Tag>, blocks: nat)
      requires start > 0 && blocks * 4096 < 0x8000_0000 && table.Length == 8 * blocks
      requires forall k :: 1 <= k < blocks ==> table[k] == FREE
      modifies table
      ensures Valid() && Live() == map[] && freeBlocks == blocks && FreeFrom(table[..], blocks, 0)
      ensures this.start == start && this.table == table && this.blocks == blocks
    {
      this.start, this.table, this.blocks, this.freeBlocks := start, table, blocks, blocks;
      new;
      for i := 0 to blocks
        modifies table
        invariant forall k :: 1 <= k < blocks ==> table[k] == FREE
        invariant i > 0 ==> table[0] == FREE
      {
        table[0] := FREE;
      }
      AllFree(table[..], blocks);
    }

    method MarkTaken(from: nat, to: nat)
      requires from <= to < table.Length
      modifies table
      ensures table[..] == Marked(old(table[..]), from, to + 1 - from)
    {
      ghost var t := table[..];
      table[from] := table[from].(first := true);
      table[to] := table[to].(last := true);
      for i := from to to + 1
        invariant forall k :: from <= k < i ==> table[k] == RunTag(t[k], k, from, to + 1)
        invariant forall k :: i <= k <= to ==> table[k].(taken := true) == RunTag(t[k], k, from, to + 1)
        invariant forall k :: 0 <= k < table.Length && !(from <= k <= to) ==> table[k] == t[k]
      {
        table[i] := table[i].(taken := true);
      }
      SameAsMarked(t, table[..], from, to);
    }

    /** The scan of heap_alloc: skip taken blocks, measure the gap after them, and start again. */
    method Search(need: nat) returns (ok: bool, first: nat)
      requires table.Length == 8 * blocks && need > 0
      ensures ok ==> FirstFit(table[..], blocks, first, need)
      ensures !ok ==> forall s: nat :: !FreeRun(table[..], blocks, s, need)
    {
      ghost var t := table[..];
      var block := 0;
      while block < blocks
        invariant 0 <= block <= blocks
        invariant forall s: nat :: s < block ==> !FreeRun(t, blocks, s, need)
      {
        ghost var entry := block;
        while table[block].taken && block < blocks
          invariant entry <= block <= blocks
          invariant forall k :: entry <= k < block ==> t[k].taken
        {
          block := block + 1;
        }
        NoFitThroughTaken(t, blocks, entry, block, need);
        first := block;
        if block == blocks {
          return false, 0;
        }
        var found := 0;
        while found < need && block < blocks && !table[block].taken
          invariant first <= block <= blocks && found == block - first <= need
          invariant forall k :: first <= k < block ==> !t[k].taken
        {
          block := block + 1;
          found := found + 1;
        }
        if found == need {
          return true, first;
        }
        NoFitInShortGap(t, blocks, first, block, need);
      }
      return false, 0;
    }

    /** Complete first fit: the lowest run of free blocks that is long enough, or nothing when there is none. */
    method Alloc(size: nat) returns (ptr: nat, ghost at: nat)
      requires Valid()
      modifies this, table
      ensures Valid()
      ensures ptr != 0 ==> size > 0 && FirstFit(old(table[..]), blocks, at, BlocksFor(size))
      ensures ptr != 0 ==> ptr == start + at * 4096 && table[..] == Marked(old(table[..]), at, BlocksFor(size))
      ensures ptr != 0 ==> at !in old(Live()) && Live() == old(Live())[at := at + BlocksFor(size)]
      ensures ptr != 0 ==> freeBlocks == old(freeBlocks) - BlocksFor(size)
      ensures ptr == 0 <==> size == 0 || forall s: nat :: !FreeRun(old(table[..]), blocks, s, BlocksFor(size))
      ensures ptr == 0 ==> table[..] == old(table[..]) && freeBlocks == old(freeBlocks)
    {
      if size == 0 {
        return 0, 0;
      }
      var need := size / 4096;
      if size % 4096 != 0 {
        need := need + 1;
      }
      var ok, first := Search(need);
      if !ok {
        return 0, 0;
      }
      Take(first, need);
      return start + first * 4096, first;
    }

    /** Takes the free run of `need` blocks from `first` on. */
    method Take(first: nat, need: nat)
      requires Valid() && need > 0 && FreeRun(table[..], blocks, first, need)
      modifies this, table
      ensures Valid() && table[..] == Marked(old(table[..]), first, need)
      ensures first !in old(Live()) && Live() == old(Live())[first := first + need]
      ensures freeBlocks == old(freeBlocks) - need
    {
      ghost var t := table[..];
      MarkTaken(first, first + need - 1);
      MarkedRegions(t, blocks, first, need);
      freeBlocks := freeBlocks - need;
    }

    /** Clears the region whose first block holds `ptr`, and nothing else. */
    method Free(ptr: nat)
      requires Valid() && start <= ptr < start + blocks * 4096
      modifies this, table
      ensures Valid()
      ensures var s := (ptr - start) / 4096;
              if s in old(Live()) then
                && table[..] == Zeroed(old(table[..]), s, old(Live())[s])
                && Live() == old(Live()) - {s}
                && freeBlocks == old(freeBlocks) + (old(Live())[s] - s)
              else
                table[..] == old(table[..]) && freeBlocks == old(freeBlocks) && Live() == old(Live())
    {
      var s := (ptr - start) / 4096;
      ghost var t := table[..];
      assert s < blocks;
      assert Cell(t, blocks, s);
      if !table[s].first {
        return;
      }
      var freed := MarkFree(s);
      ZeroedRegions(t, blocks, s);
      freeBlocks := freeBlocks + freed;
    }

    method MarkFree(from: nat) returns (freed: nat)
      requires Runs(table[..], blocks) && from in Regions(table[..], blocks)
      modifies table
      ensures var e := Regions(old(table[..]), blocks)[from];
              table[..] == Zeroed(old(table[..]), from, e) && freed == e - from
    {
      ghost var t := table[..];
      ghost var e := RunEnd(t, blocks, from);
      RunCells(t, blocks, from);
      freed := 1;
      var i := from;
      while !table[i].last
        invariant from <= i <= e && freed == i - from + 1
        invariant forall k :: from <= k < i ==> table[k] == FREE
        invariant forall k :: 0 <= k < table.Length && !(from <= k < i) ==> table[k] == t[k]
        decreases e - i
      {
        table[i] := FREE;
        i := i + 1;
        freed := freed + 1;
      }
      table[i] := FREE;
      assert table[..] == Zeroed(t, from, e + 1);
    }
  }

  lemma SameAsMarked(t: seq<Tag>, u: seq<Tag>, from: nat, to: nat)
    requires from <= to < |t| == |u|
    requires forall k :: from <= k <= to ==> u[k] == RunTag(t[k], k, from, to + 1)
    requires forall k :: 0 <= k < |t| && !(from <= k <= to) ==> u[k] == t[k]
    ensures u == Marked(t, from, to + 1 - from)
  {
    var v := Marked(t, from, to + 1 - from);
    forall k | from <= k <= to
      ensures u[k] == v[k]
    {
      assert v[k] == RunTag(t[from + (k - from)], from + (k - from), from, to + 1);
    }
  }

  lemma {:induction false} AllFree(t: seq<Tag>, n: nat)
    requires n <= |t| && forall k :: 0 <= k < n ==> t[k] == FREE
    ensures FreeCount(t, n) == n && Runs(t, n) && Regions(t, n) == map[]
  {
    if n > 0 {
      AllFree(t, n - 1);
    }
  }

  lemma NoFitThroughTaken(t: seq<Tag>, n: nat, from: nat, to: nat, m: nat)
    requires m > 0 && from <= to <= n <= |t| && forall k :: from <= k < to ==> t[k].taken
    ensures forall s: nat :: from <= s < to ==> !FreeRun(t, n, s, m)
  {
    forall s: nat | from <= s < to
      ensures !FreeRun(t, n, s, m)
    {
      assert t[s].taken;
    }
  }

  /** A gap from `from` to `to` shorter than `m`, closed by a taken block or the end, fits nothing. */
  lemma NoFitInShortGap(t: seq<Tag>, n: nat, from: nat, to: nat, m: nat)
    requires from <= to <= n <= |t| && to - from < m && (to < n ==> t[to].taken)
    ensures forall s: nat :: from <= s < to ==> !FreeRun(t, n, s, m)
  {
    forall s: nat | from <= s < to
      ensures !FreeRun(t, n, s, m)
    {
      assert s + m <= n ==> s <= to < s + m;
    }
  }
}
