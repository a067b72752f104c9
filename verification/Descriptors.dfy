/** VMSAv8-64 translation table descriptors, 4 KB granule, 39-bit address space.

    The constructors follow kernel/mm/paging.c operator by operator. The fields read by the
    hardware are defined separately, by position, as the Arm architecture lays them out. */
module Descriptors {
  import opened Bits

  const L012_VALID := 1
  const L012_TABLE := 2
  const L3_VALID := 3
  const AP1 := 0x40
  const AP2 := 0x80
  const AF := 0x400
  const L1_BLOCK_ADDRESS_MASK := 0xffff_c000_0000
  const L2_BLOCK_ADDRESS_MASK := 0xffff_ffe0_0000
  const TABLE_ADDRESS_MASK := 0xffff_ffff_f000
  const L3_ADDRESS_MASK := 0xffff_ffff_f000

  const PAGE := 0x1000
  const MB2 := 0x20_0000
  const GB := 0x4000_0000
  /** Virtual addresses lie below 2^39, physical ones below 2^48. */
  const VA_LIMIT := 0x80_0000_0000
  const PA_LIMIT := 0x1_0000_0000_0000

  // ---------------------------------------------------------------- the kernel's constructors

  function WithPermissions(entry: nat, unprivileged: bool, readOnly: bool): nat {
    var e := if unprivileged then Or(entry, AP1) else entry;
    if readOnly then Or(e, AP2) else e
  }

  function BlockEntry(pa: nat, level: int, unprivileged: bool, readOnly: bool): nat {
    if level <= 0 || level > 2 then 0 else
    var e := WithPermissions(L012_VALID, unprivileged, readOnly);
    var e := if level == 1 then Or(e, And(pa, L1_BLOCK_ADDRESS_MASK)) else Or(e, And(pa, L2_BLOCK_ADDRESS_MASK));
    Or(e, AF)
  }

  function TableEntry(address: nat): nat {
    Or(Or(L012_VALID, L012_TABLE), And(address, TABLE_ADDRESS_MASK))
  }

  function PageEntry(pa: nat, unprivileged: bool, readOnly: bool): nat {
    var e := Or(L3_VALID, And(pa, L3_ADDRESS_MASK));
    Or(WithPermissions(e, unprivileged, readOnly), AF)
  }

  // ---------------------------------------------------------------- the architecture's fields

  /** Bytes translated by one descriptor of a level. */
  function Span(level: nat): (r: nat)
    requires 1 <= level <= 3
    ensures r > 0
  {
    if level == 1 then GB else if level == 2 then MB2 else PAGE
  }

  /** The output address field of a level: bits 47 down to the span's, in place. */
  function OutputBase(level: nat, a: nat): nat
    requires 1 <= level <= 3
  {
    if level == 1 then a / 0x4000_0000 % 0x4_0000 * 0x4000_0000
    else if level == 2 then a / 0x20_0000 % 0x800_0000 * 0x20_0000
    else a / 0x1000 % 0x10_0000_0000 * 0x1000
  }

  predicate ValidBit(w: nat) { w % 2 == 1 }

  predicate TableBit(w: nat) { w / 2 % 2 == 1 }

  predicate Accessed(w: nat) { w / 0x400 % 2 == 1 }

  predicate Unprivileged(w: nat) { w / 0x40 % 2 == 1 }

  predicate ReadOnly(w: nat) { w / 0x80 % 2 == 1 }

  /** The next-level table address of a table descriptor. */
  function NextTable(w: nat): nat { OutputBase(3, w) }

  /** A valid leaf descriptor of `level` for the block or page at `base`. */
  predicate IsLeaf(w: nat, level: nat, base: nat, unprivileged: bool, readOnly: bool)
    requires 1 <= level <= 3
  {
    && ValidBit(w) && (TableBit(w) <==> level == 3) && Accessed(w)
    && Unprivileged(w) == unprivileged && ReadOnly(w) == readOnly
    && OutputBase(level, w) == base
  }

  // ---------------------------------------------------------------- correctness of the constructors

  lemma Powers()
    ensures Power(2, 1) == 2 && Power(2, 2) == 4 && Power(2, 6) == 0x40 && Power(2, 7) == 0x80 && Power(2, 10) == 0x400
    ensures Power(2, 12) == 0x1000 && Power(2, 18) == 0x4_0000 && Power(2, 21) == 0x20_0000
    ensures Power(2, 27) == 0x800_0000 && Power(2, 30) == 0x4000_0000 && Power(2, 36) == 0x10_0000_0000
  {
    assert Power(2, 15) == 0x8000;
    assert Power(2, 24) == 0x100_0000;
    assert Power(2, 33) == 0x2_0000_0000;
  }

  lemma Masks()
    ensures Mask(0, 1) == 1 && Mask(0, 2) == 3
    ensures Mask(30, 18) == 0xffff_c000_0000
    ensures Mask(21, 27) == 0xffff_ffe0_0000
    ensures Mask(12, 36) == 0xffff_ffff_f000
  {
    Powers();
    MaskIsProduct(30, 18);
    MaskIsProduct(21, 27);
    MaskIsProduct(12, 36);
  }

  /** The address masks of each level keep the output address and nothing else. */
  lemma MaskedAddress(a: nat)
    ensures And(a, L1_BLOCK_ADDRESS_MASK) == OutputBase(1, a)
    ensures And(a, L2_BLOCK_ADDRESS_MASK) == OutputBase(2, a)
    ensures And(a, L3_ADDRESS_MASK) == And(a, TABLE_ADDRESS_MASK) == OutputBase(3, a)
  {
    Powers();
    Masks();
    AndMask(a, 30, 18);
    AndMask(a, 21, 27);
    AndMask(a, 12, 36);
  }

  /** The two tests on the low bits of an old entry. */
  lemma LowBits(w: nat)
    ensures And(w, 1) == w % 2
    ensures And(w, 3) == w % 4
  {
    Powers();
    Masks();
    AndMask(w, 0, 1);
    AndMask(w, 0, 2);
  }

  function Weight(bit: bool): nat { if bit then 1 else 0 }

  /** Every descriptor is a base address plus attribute bits below bit 12. */
  function Assemble(base: nat, low: nat, unprivileged: bool, readOnly: bool, accessed: bool): nat {
    base + low + 0x40 * Weight(unprivileged) + 0x80 * Weight(readOnly) + 0x400 * Weight(accessed)
  }

  lemma AssembledFields(base: nat, low: nat, unprivileged: bool, readOnly: bool, accessed: bool)
    requires base % PAGE == 0 && low < 4
    ensures var w := Assemble(base, low, unprivileged, readOnly, accessed);
            && w % 4 == low && w / 0x1000 == base / 0x1000
            && Unprivileged(w) == unprivileged && ReadOnly(w) == readOnly && Accessed(w) == accessed
  {
    var q, u, r, a := base / PAGE, Weight(unprivileged), Weight(readOnly), Weight(accessed);
    var w := Assemble(base, low, unprivileged, readOnly, accessed);
    QuotientUnique(w, 0x1000, q, 0x400 * a + 0x80 * r + 0x40 * u + low);
    QuotientUnique(w, 0x400, 4 * q + a, 0x80 * r + 0x40 * u + low);
    QuotientUnique(w, 0x80, 32 * q + 8 * a + r, 0x40 * u + low);
    QuotientUnique(w, 0x40, 64 * q + 16 * a + 2 * r + u, low);
    QuotientUnique(w, 4, 16 * (64 * q + 16 * a + 2 * r + u), low);
    QuotientUnique(4 * q + a, 2, 2 * q, a);
    QuotientUnique(32 * q + 8 * a + r, 2, 16 * q + 4 * a, r);
    QuotientUnique(64 * q + 16 * a + 2 * r + u, 2, 32 * q + 8 * a + r, u);
  }

  lemma TypeBits(w: nat)
    ensures ValidBit(w) <==> w % 4 == 1 || w % 4 == 3
    ensures TableBit(w) <==> w % 4 >= 2
  {
    QuotientUnique(w, 2, w / 4 * 2 + w % 4 / 2, w % 4 % 2);
    QuotientUnique(w / 2, 2, w / 4, w % 4 / 2);
  }

  lemma OutputBaseFacts(level: nat, a: nat)
    requires 1 <= level <= 3
    ensures OutputBase(level, a) % PAGE == 0 && OutputBase(level, a) < PA_LIMIT
    ensures OutputBase(level, a) % Span(level) == 0
  {
    var f := if level == 1 then a / 0x4000_0000 % 0x4_0000
             else if level == 2 then a / 0x20_0000 % 0x800_0000
             else a / 0x1000 % 0x10_0000_0000;
    var base := OutputBase(level, a);
    QuotientUnique(base, Span(level), f, 0);
    QuotientUnique(base, PAGE, if level == 1 then 0x4_0000 * f else if level == 2 then 0x200 * f else f, 0);
  }

  /** Attribute bits do not reach the address field. */
  lemma OutputBaseOfSum(level: nat, base: nat, w: nat)
    requires 1 <= level <= 3
    requires base % Span(level) == 0 && base < PA_LIMIT && base <= w < base + PAGE
    ensures OutputBase(level, w) == base
  {
    var q := base / Span(level);
    QuotientUnique(w, Span(level), q, w - base);
    var limit := if level == 1 then 0x4_0000 else if level == 2 then 0x800_0000 else 0x10_0000_0000;
    QuotientUnique(q, limit, 0, q);
  }

  lemma WithPermissionsIsSum(base: nat, low: nat, unprivileged: bool, readOnly: bool)
    requires base % PAGE == 0 && low < 4
    ensures WithPermissions(base + low, unprivileged, readOnly) == Assemble(base, low, unprivileged, readOnly, false)
  {
    Powers();
    AssembledFields(base, low, false, false, false);
    OrBit(base + low, 6);
    AssembledFields(base, low, unprivileged, false, false);
    OrBit(Assemble(base, low, unprivileged, false, false), 7);
  }

  lemma WithAccessFlagIsSum(base: nat, low: nat, unprivileged: bool, readOnly: bool)
    requires base % PAGE == 0 && low < 4
    ensures Or(Assemble(base, low, unprivileged, readOnly, false), AF) ==
            Assemble(base, low, unprivileged, readOnly, true)
  {
    Powers();
    AssembledFields(base, low, unprivileged, readOnly, false);
    OrBit(Assemble(base, low, unprivileged, readOnly, false), 10);
  }

  lemma PageSum(base: nat, unprivileged: bool, readOnly: bool)
    requires base % PAGE == 0
    ensures Or(WithPermissions(Or(L3_VALID, base), unprivileged, readOnly), AF) ==
            Assemble(base, 3, unprivileged, readOnly, true)
  {
    Powers();
    OrBelow(3, base, 12);
    WithPermissionsIsSum(base, 3, unprivileged, readOnly);
    WithAccessFlagIsSum(base, 3, unprivileged, readOnly);
  }

  lemma BlockSum(e: nat, base: nat, unprivileged: bool, readOnly: bool)
    requires base % PAGE == 0 && e == Assemble(0, 1, unprivileged, readOnly, false)
    ensures Or(e, base) == Assemble(base, 1, unprivileged, readOnly, false)
  {
    assert e < Power(2, 12) && base % Power(2, 12) == 0 by {
      Powers();
    }
    OrBelow(e, base, 12);
  }

  lemma AssembledLeaf(base: nat, level: nat, unprivileged: bool, readOnly: bool)
    requires 1 <= level <= 3 && base % Span(level) == 0 && base % PAGE == 0 && base < PA_LIMIT
    ensures IsLeaf(Assemble(base, if level == 3 then 3 else 1, unprivileged, readOnly, true),
                   level, base, unprivileged, readOnly)
  {
    var low := if level == 3 then 3 else 1;
    AssembledFields(base, low, unprivileged, readOnly, true);
    TypeBits(Assemble(base, low, unprivileged, readOnly, true));
    OutputBaseOfSum(level, base, Assemble(base, low, unprivileged, readOnly, true));
  }

  /** A page descriptor built by the kernel is the architecture's page descriptor. */
  lemma PageEntryCorrect(pa: nat, unprivileged: bool, readOnly: bool)
    ensures IsLeaf(PageEntry(pa, unprivileged, readOnly), 3, OutputBase(3, pa), unprivileged, readOnly)
  {
    OutputBaseFacts(3, pa);
    MaskedAddress(pa);
    PageSum(OutputBase(3, pa), unprivileged, readOnly);
    AssembledLeaf(OutputBase(3, pa), 3, unprivileged, readOnly);
  }

  /** A block descriptor built by the kernel is the architecture's block descriptor. */
  lemma BlockEntryCorrect(pa: nat, level: nat, unprivileged: bool, readOnly: bool)
    requires 1 <= level <= 2
    ensures IsLeaf(BlockEntry(pa, level, unprivileged, readOnly), level, OutputBase(level, pa), unprivileged, readOnly)
  {
    OutputBaseFacts(level, pa);
    MaskedAddress(pa);
    WithPermissionsIsSum(0, 1, unprivileged, readOnly);
    BlockSum(WithPermissions(1, unprivileged, readOnly), OutputBase(level, pa), unprivileged, readOnly);
    WithAccessFlagIsSum(OutputBase(level, pa), 1, unprivileged, readOnly);
    AssembledLeaf(OutputBase(level, pa), level, unprivileged, readOnly);
  }

  function Bits67(unprivileged: bool, readOnly: bool): nat {
    (if unprivileged then 0x40 else 0) + if readOnly then 0x80 else 0
  }

  /** The built descriptors as numbers, for every address: the address bits of the level, the type bits,
      bit 6 for unprivileged access, bit 7 for read-only, and the access flag in bit 10. */
  lemma EntryValues(pa: nat, unprivileged: bool, readOnly: bool)
    ensures PageEntry(pa, unprivileged, readOnly) ==
            pa / 0x1000 % 0x10_0000_0000 * 0x1000 + 0x403 + Bits67(unprivileged, readOnly)
    ensures BlockEntry(pa, 1, unprivileged, readOnly) ==
            pa / 0x4000_0000 % 0x4_0000 * 0x4000_0000 + 0x401 + Bits67(unprivileged, readOnly)
    ensures BlockEntry(pa, 2, unprivileged, readOnly) ==
            pa / 0x20_0000 % 0x800_0000 * 0x20_0000 + 0x401 + Bits67(unprivileged, readOnly)
    ensures pa % 0x1000 == 0 && pa < 0x1_0000_0000_0000 ==> TableEntry(pa) == pa + 3
  {
    MaskedAddress(pa);
    OutputBaseFacts(3, pa);
    PageSum(OutputBase(3, pa), unprivileged, readOnly);
    BlockValue(pa, 1, unprivileged, readOnly);
    BlockValue(pa, 2, unprivileged, readOnly);
    if pa % 0x1000 == 0 && pa < 0x1_0000_0000_0000 {
      TableEntryIsSum(pa);
    }
  }

  lemma BlockValue(pa: nat, level: nat, unprivileged: bool, readOnly: bool)
    requires 1 <= level <= 2
    ensures BlockEntry(pa, level, unprivileged, readOnly) ==
            OutputBase(level, pa) + 0x401 + Bits67(unprivileged, readOnly)
  {
    MaskedAddress(pa);
    OutputBaseFacts(level, pa);
    WithPermissionsIsSum(0, 1, unprivileged, readOnly);
    BlockSum(WithPermissions(1, unprivileged, readOnly), OutputBase(level, pa), unprivileged, readOnly);
    WithAccessFlagIsSum(OutputBase(level, pa), 1, unprivileged, readOnly);
  }

  lemma TableEntryIsSum(address: nat)
    requires address % PAGE == 0 && address < PA_LIMIT
    ensures TableEntry(address) == Assemble(address, 3, false, false, false)
  {
    Powers();
    MaskedAddress(address);
    OutputBaseOfSum(3, address, address);
    OrBit(1, 1);
    OrBelow(3, address, 12);
  }

  /** Encoding a table address and decoding it again loses nothing of an aligned 48-bit address. */
  lemma TableEntryRoundTrip(address: nat)
    requires address % PAGE == 0 && address < PA_LIMIT
    ensures ValidBit(TableEntry(address)) && TableBit(TableEntry(address))
    ensures NextTable(TableEntry(address)) == address
    ensures And(TableEntry(address), TABLE_ADDRESS_MASK) == address
  {
    TableEntryIsSum(address);
    AssembledFields(address, 3, false, false, false);
    TypeBits(Assemble(address, 3, false, false, false));
    OutputBaseOfSum(3, address, Assemble(address, 3, false, false, false));
    MaskedAddress(Assemble(address, 3, false, false, false));
  }
}
