/** The paging managers of kernel/mm/paging.c.

    All managers take their tables from one slab. A manager is its level-1 table. */
module Paging {
  import opened Bits
  import opened Slabs
  import opened Descriptors
  import opened Walk
  import opened Trees
  import opened Mapping

  /** Splitting an address by repeated division and remainder gives the architecture's indices. */
  method SplitAddress(address: nat) returns (l1: nat, l2: nat, l3: nat, off: nat)
    ensures l1 == Index(1, address) && l2 == Index(2, address) && l3 == Index(3, address)
    ensures off == address % 0x1000
    ensures address == l1 * 0x4000_0000 + l2 * 0x20_0000 + l3 * 0x1000 + off
  {
    l1 := address / 0x4000_0000;
    var rest := address % 0x4000_0000;
    l2 := rest / 0x20_0000;
    rest := rest % 0x20_0000;
    l3 := rest / 0x1000;
    off := rest % 0x1000;
    SplitCorrect(address, l1, l2, l3, off);
  }

  lemma SplitCorrect(address: nat, l1: nat, l2: nat, l3: nat, off: nat)
    requires address == l1 * 0x4000_0000 + l2 * 0x20_0000 + l3 * 0x1000 + off
    requires l2 < 512 && l3 < 512 && off < 0x1000
    ensures l1 == Index(1, address) && l2 == Index(2, address) && l3 == Index(3, address)
    ensures off == address % 0x1000
  {
    QuotientUnique(address, 0x1000, l1 * 0x4_0000 + l2 * 0x200 + l3, off);
    QuotientUnique(address, 0x20_0000, l1 * 0x200 + l2, l3 * 0x1000 + off);
    QuotientUnique(address, 0x4000_0000, l1, l2 * 0x20_0000 + l3 * 0x1000 + off);
    QuotientUnique(l1 * 0x200 + l2, 512, l1, l2);
    QuotientUnique(l1 * 0x4_0000 + l2 * 0x200 + l3, 512, l1 * 0x200 + l2, l3);
  }

  /** Objects of one page behind an aligned base are aligned. */
  lemma {:induction false} PagesAligned(base: nat, n: nat)
    requires base % 0x1000 == 0
    ensures (base + Total(0x1000, n)) % 0x1000 == 0
  {
    if n > 0 {
      PagesAligned(base, n - 1);
    }
  }

  class PageTables {
    /** The shared slab of 4096-byte tables. */
    const slab: Slab
    var mem: Memory
    ghost var owner: Owner
    /** The successful calls on all managers so far. */
    ghost var log: seq<Event>

    /** The tables in use are exactly the live slots of the slab. */
    ghost predicate Placed()
      reads this, slab.header
    {
      && slab.Valid() && slab.objectSize == 0x1000
      && slab.Base() % 0x1000 == 0 && slab.End() <= PA_LIMIT
      && owner.Keys == slab.LiveAddresses()
    }

    ghost predicate Valid()
      reads this, slab.header
    {
      Placed() && Forest(mem, owner)
    }

    /** Between calls: the tables form a forest and translate what the run of calls says. */
    ghost predicate Consistent()
      reads this, slab.header
    {
      Valid() && Replays(mem, owner, log)
    }

    /** The number of unused tables in the slab. */
    ghost function Unused(): int
      requires slab.Valid()
      reads this, slab.header
    {
      slab.maxStore - |slab.Live()|
    }

    /** The tables that are level-1 tables of some manager. */
    ghost predicate IsRoot(r: nat)
      reads this
    {
      r in owner && owner[r].level == 1
    }

    constructor (slab: Slab, mem: Memory)
      requires slab.Valid() && slab.objectSize == 0x1000 && slab.Base() % 0x1000 == 0 && slab.End() <= PA_LIMIT
      requires slab.Live() == {}
      ensures Consistent() && this.slab == slab && this.mem == mem && owner == map[]
    {
      this.slab, this.mem, this.owner, this.log := slab, mem, map[], [];
    }

    method ClearTable(table: nat)
      requires table % 0x1000 == 0
      modifies this`mem
      ensures forall i: nat :: i < 512 ==> Entry(mem, table, i) == 0
      ensures forall a: nat, i: nat :: a % 0x1000 == 0 && a != table && i < 512 ==> Entry(mem, a, i) == Entry(old(mem), a, i)
    {
      for i := 0 to 512
        invariant forall k: nat :: k < i ==> Entry(mem, table, k) == 0
        invariant forall a: nat, k: nat :: a % 0x1000 == 0 && a != table && k < 512 ==>
                    Entry(mem, a, k) == Entry(old(mem), a, k)
      {
        ghost var m := mem;
        mem := mem[table + 8 * i := 0];
        forall a: nat, k: nat | a % 0x1000 == 0 && k < 512
          ensures Entry(mem, a, k) == if a == table && k == i then 0 else Entry(m, a, k)
        {
          EntryWritten(m, table, i, 0, a, k);
        }
      }
    }

    method TakeSlot() returns (table: nat)
      requires Placed() && Unused() > 0
      modifies slab.header
      ensures Unused() == old(Unused()) - 1
      ensures table !in owner && slab.LiveAddresses() == owner.Keys + {table}
      ensures table % 0x1000 == 0 && table < PA_LIMIT
    {
      ghost var slot: nat;
      table, slot := slab.Allocate();
      PagesAligned(slab.Base(), slot);
    }

    /** Takes a table from the slab and clears its 512 entries. The caller says which entry it is for. */
    method AllocateTable(ghost root: bool, ghost parent: nat, ghost index: nat) returns (table: nat)
      requires Valid() && Unused() > 0
      requires !root ==> parent in owner && owner[parent].level < 3 && index < 512
      modifies this`mem, this`owner, slab.header
      ensures Valid() && Unused() == old(Unused()) - 1
      ensures table !in old(owner) && table % 0x1000 == 0
      ensures owner == old(owner)[table := if root then RootPlace(table) else ChildPlace(old(owner), parent, index)]
      ensures forall i: nat :: i < 512 ==> Entry(mem, table, i) == 0
      ensures forall a, i: nat :: a in old(owner) && i < 512 ==> Entry(mem, a, i) == Entry(old(mem), a, i)
    {
      table := TakeSlot();
      ghost var m0, o := mem, owner;
      ClearTable(table);
      forall a, i: nat | a in o && i < 512
        ensures Entry(mem, a, i) == Entry(m0, a, i)
      {
        assert PlaceOk(o, a);
      }
      ghost var place := if root then RootPlace(table) else ChildPlace(o, parent, index);
      assert !root ==> PlaceOk(o, parent);
      AddTable(m0, mem, o, table, place);
      owner := o[table := place];
    }

    /** Puts a cleared table behind an invalid entry. */
    method InstallTable(table: nat, offset: nat) returns (next: nat)
      requires Valid() && Unused() > 0
      requires table in owner && owner[table].level < 3 && offset < 512
      modifies this`mem, this`owner, slab.header
      ensures Valid() && Unused() == old(Unused()) - 1
      ensures Installed(old(mem), old(owner), mem, owner, table, offset, next)
    {
      ghost var m0, o0 := mem, owner;
      next := AllocateTable(false, table, offset);
      var entry := TableEntry(next);
      assert ValidBit(entry) && TableBit(entry) && NextTable(entry) == next by {
        assert PlaceOk(owner, next);
        TableEntryRoundTrip(next);
      }
      LinkTable(m0, o0, mem, owner, table, offset, next, entry);
      mem := mem[table + 8 * offset := entry];
    }

    /** Walks down from `table`, allocating missing tables, and writes the page descriptor. */
    method InsertOrAlloc(table: nat, level: int, q: Request) returns (res: int)
      requires Valid() && q.va < VA_LIMIT && level <= 3
      requires level >= 1 ==>
        && table in owner && owner[table].level == level
        && Missing(mem, level, table, q.va) <= Unused()
      modifies this`mem, this`owner, slab.header
      ensures Valid()
      ensures res == 0 || res == -1
      ensures level < 1 ==> res == -1 && mem == old(mem) && owner == old(owner) && Unused() == old(Unused())
      ensures level >= 1 ==>
        Outcome(old(mem), old(owner), old(Unused()), mem, owner, Unused(), table, q, res)
      decreases 3 - level
    {
      if level < 1 {
        return -1;
      }
      var l1, l2, l3, _ := SplitAddress(q.va);
      IndexInTable(level, q.va);
      if level < 3 {
        var offset := if level == 1 then l1 else l2;
        var oldValue := Entry(mem, table, offset);
        LowBits(oldValue);
        TypeBits(oldValue);
        if And(oldValue, 3) == 1 {
          return -1;
        }
        var next: nat;
        ghost var m0, o0, u0 := mem, owner, Unused();
        if And(oldValue, 1) == 0 {
          next := InstallTable(table, offset);
          ghost var m1, o1 := mem, owner;
          FreshIsEmpty(m1, level + 1, next, q);
          res := InsertOrAlloc(next, level + 1, q);
          OutcomeThroughFresh(m0, o0, u0, m1, o1, mem, owner, Unused(), table, next, q, res);
        } else {
          next := And(oldValue, TABLE_ADDRESS_MASK);
          MaskedAddress(oldValue);
          assert EntryOk(mem, owner, table, offset);
          res := InsertOrAlloc(next, level + 1, q);
          OutcomeThroughTable(m0, o0, u0, mem, owner, Unused(), table, next, q, res);
        }
      } else {
        res := InsertLeaf(table, l3, q);
      }
    }

    /** Level 3: an equal entry is left alone, a different valid one refuses the request. */
    method InsertLeaf(table: nat, offset: nat, q: Request) returns (res: int)
      requires Valid() && q.va < VA_LIMIT && offset == Index(3, q.va)
      requires table in owner && owner[table].level == 3
      modifies this`mem
      ensures Valid()
      ensures res == 0 || res == -1
      ensures Outcome(old(mem), owner, Unused(), mem, owner, Unused(), table, q, res)
    {
      ghost var m0 := mem;
      var newValue := PageEntry(q.pa, q.unprivileged, q.readOnly);
      res := PutEntry(table, offset, newValue);
      LeafOutcome(m0, owner, Unused(), mem, table, q, res);
    }

    /** Puts a value into an entry, unless another valid one is there. */
    method PutEntry(table: nat, offset: nat, newValue: nat) returns (res: int)
      modifies this`mem
      ensures var oldValue := Entry(old(mem), table, offset);
              if oldValue == newValue then mem == old(mem) && res == 0
              else if ValidBit(oldValue) then mem == old(mem) && res == -1
              else mem == old(mem)[table + 8 * offset := newValue] && res == 0
    {
      var oldValue := Entry(mem, table, offset);
      LowBits(oldValue);
      if oldValue == newValue {
        return 0;
      }
      if And(oldValue, 1) == 1 {
        return -1;
      }
      mem := mem[table + 8 * offset := newValue];
      return 0;
    }

    /** A new manager with an empty level-1 table. */
    method ManagerInit() returns (root: nat)
      requires Consistent() && Unused() > 0
      modifies this, slab.header
      ensures Consistent() && Unused() == old(Unused()) - 1
      ensures root !in old(owner) && owner == old(owner)[root := RootPlace(root)]
      ensures log == old(log) + [Init(root)]
      ensures forall i: nat :: i < 512 ==> Entry(mem, root, i) == 0
    {
      ghost var m0, o0 := mem, owner;
      root := AllocateTable(true, 0, 0);
      ReplaysInit(m0, o0, mem, root, log);
      log := log + [Init(root)];
    }

    /** Maps one page. */
    method ManagerMapPage(root: nat, q: Request) returns (res: int)
      requires Consistent() && IsRoot(root) && q.va < VA_LIMIT && Missing(mem, 1, root, q.va) <= Unused()
      modifies this, slab.header
      ensures Consistent() && (res == 0 || res == -1)
      ensures Outcome(old(mem), old(owner), old(Unused()), mem, owner, Unused(), root, q, res)
      ensures log == if res == 0 then old(log) + [MapPage(root, q)] else old(log)
    {
      ghost var m0, o0 := mem, owner;
      res := InsertOrAlloc(root, 1, q);
      if res != 0 {
        return res;
      }
      ReplaysPage(m0, o0, mem, owner, root, q, log);
      log := log + [MapPage(root, q)];
    }

    /** Maps one gigabyte, whatever was there before. */
    method ManagerMap1Gb(root: nat, q: Request)
      requires Consistent() && IsRoot(root) && q.va < VA_LIMIT
      modifies this`mem, this`log
      ensures Consistent()
      ensures log == old(log) + [MapGigabyte(root, q)]
      ensures forall i: nat :: i < 512 && i != Index(1, q.va) ==> Entry(mem, root, i) == Entry(old(mem), root, i)
    {
      var offset := q.va / 0x4000_0000;
      var entry := BlockEntry(q.pa, 1, q.unprivileged, q.readOnly);
      ghost var m0 := mem;
      mem := mem[root + 8 * offset := entry];
      ReplaysGigabyte(m0, owner, mem, root, q, log);
      log := log + [MapGigabyte(root, q)];
    }

    /** Every manager maps the kernel: two privileged gigabytes onto themselves. */
    method ManagerMapKernel(root: nat)
      requires Consistent() && IsRoot(root)
      modifies this`mem, this`log
      ensures Consistent()
      ensures log == old(log) + [MapGigabyte(root, Request(0, 0, false, false))]
                     + [MapGigabyte(root, Request(0x4000_0000, 0x4000_0000, false, false))]
      ensures forall i: nat :: 2 <= i < 512 ==> Entry(mem, root, i) == Entry(old(mem), root, i)
    {
      ManagerMap1Gb(root, Request(0, 0, false, false));
      ManagerMap1Gb(root, Request(0x4000_0000, 0x4000_0000, false, false));
    }
  }
}
