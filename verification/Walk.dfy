/** Address translation: the hardware walk of three-level tables, over memory words.

    Memory is a map from the byte address of a 64-bit word to its value; a word outside its domain
    reads as zero. The walk is written from
    the architecture's rules only; it shares no code with the kernel's mapping routines. */
module Walk {
  import opened Wrappers
  import opened Bits
  import opened Descriptors

  type Memory = map<nat, nat>

  /** Where a virtual address leads and who may use it. */
  datatype Translation = Translation(pa: nat, unprivileged: bool, readOnly: bool)

  /** Entry `i` of the table at `table`. */
  function Entry(mem: Memory, table: nat, i: nat): nat {
    if table + 8 * i in mem then mem[table + 8 * i] else 0
  }

  /** Which entry of a level-`level` table translates `v`. */
  function Index(level: nat, v: nat): nat
    requires 1 <= level <= 3
  {
    if level == 1 then v / 0x4000_0000
    else if level == 2 then v / 0x20_0000 % 512
    else v / 0x1000 % 512
  }

  /** The page of a virtual address. */
  function Page(v: nat): nat { v / 0x1000 }

  function LeafTranslation(w: nat, level: nat, v: nat): Option<Translation>
    requires 1 <= level <= 3
  {
    if Accessed(w) then
      Some(Translation(OutputBase(level, w) + v % Span(level), Unprivileged(w), ReadOnly(w)))
    else None
  }

  /** The walk from a level-`level` table: bit 0 clear is a fault, bit 1 set a table (a page at level
      3, where a clear bit 1 is reserved), and a leaf whose access flag is clear faults. */
  function Translate(mem: Memory, level: nat, table: nat, v: nat): Option<Translation>
    requires 1 <= level <= 3
    decreases 3 - level
  {
    var w := Entry(mem, table, Index(level, v));
    if !ValidBit(w) then None
    else if level == 3 then (if TableBit(w) then LeafTranslation(w, 3, v) else None)
    else if TableBit(w) then Translate(mem, level + 1, NextTable(w), v)
    else LeafTranslation(w, level, v)
  }

  lemma IndexInTable(level: nat, v: nat)
    requires 1 <= level <= 3 && v < VA_LIMIT
    ensures Index(level, v) < 512
  {
  }

  /** Level 1 takes bits 38 to 30 of the address, level 2 bits 29 to 21, level 3 bits 20 to 12. */
  lemma IndexIsField(level: nat, v: nat)
    requires 1 <= level <= 3 && v < 0x80_0000_0000
    ensures Index(level, v) == Field(v, 39 - 9 * level, 9)
  {
    Powers();
    assert Power(2, 9) == 512;
    FieldIsQuotient(v, 39 - 9 * level, 9);
    IndexInTable(level, v);
  }

  /** A virtual page is determined by its three indices. */
  lemma SamePage(v: nat, u: nat)
    ensures Page(v) == Page(u) <==> forall level :: 1 <= level <= 3 ==> Index(level, v) == Index(level, u)
  {
    Indices(v);
    Indices(u);
    assert Index(1, v) == Index(1, u) && Index(2, v) == Index(2, u) && Index(3, v) == Index(3, u) ==>
      Page(v) == Page(u);
  }

  lemma Indices(v: nat)
    ensures Page(v) == Index(1, v) * 0x4_0000 + Index(2, v) * 0x200 + Index(3, v)
  {
    var p := v / 0x1000;
    assert v / 0x20_0000 == p / 0x200;
    assert v / 0x4000_0000 == p / 0x4_0000;
    assert p / 0x200 / 0x200 == p / 0x4_0000;
  }
}
