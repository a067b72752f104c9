/** The bitmap slab allocator of kernel/alloc/slab.c.

    A slab is `maxStore` objects of `objectSize` bytes behind a header with one bit per object.
    It refines a finite set of live slots. */
module Slabs {
  import opened Bits

  // ---------------------------------------------------------------- header size arithmetic

  function AlignToObject(objectSize: nat, size: nat): nat
    requires objectSize > 0
  {
    objectSize * Ceiling(size, objectSize)
  }

  function HeaderSize(objectSize: nat, maxStore: nat): nat
    requires objectSize > 0
  {
    AlignToObject(objectSize, Ceiling(maxStore, 8))
  }

  function NeededSize(objectSize: nat, maxStore: nat): nat
    requires objectSize > 0
  {
    HeaderSize(objectSize, maxStore) + objectSize * maxStore
  }

  /** Alignment gives the least multiple of the object size that holds `size` bytes. */
  lemma AlignToObjectIsLeast(objectSize: nat, size: nat)
    requires objectSize > 0
    ensures AlignToObject(objectSize, size) % objectSize == 0
    ensures size <= AlignToObject(objectSize, size) < size + objectSize
  {
    var k := Ceiling(size, objectSize);
    CeilingBounds(size, objectSize);
    QuotientUnique(k * objectSize, objectSize, k, 0);
    assert objectSize * k == k * objectSize;
  }

  /** include/slab.h announces the number of objects that hold `size` bytes; a result that fits its int
      is that number only for objects of one byte, or for no bytes at all. */
  lemma AlignToObjectIsCount(objectSize: nat, size: nat)
    requires objectSize > 0 && AlignToObject(objectSize, size) < 0x8000_0000
    ensures AlignToObject(objectSize, size) == Ceiling(size, objectSize) <==> objectSize == 1 || size == 0
  {
    var count := Ceiling(size, objectSize);
    if size > 0 {
      assert count > 0;
      MultipleBelow(objectSize - 1, count);
      Distribute(objectSize, 1, count);
    }
  }

  /** Nine bytes take two objects of eight bytes, and the result is 16. */
  lemma AlignToObjectExample()
    ensures AlignToObject(8, 9) == 16 && Ceiling(9, 8) == 2
  {
  }

  /** The header keeps the objects aligned to their size and has a bit for every slot. One object less
      would not hold the bits. */
  lemma HeaderHoldsAllBits(objectSize: nat, maxStore: nat)
    requires objectSize > 0
    ensures HeaderSize(objectSize, maxStore) % objectSize == 0
    ensures maxStore <= 8 * HeaderSize(objectSize, maxStore)
    ensures maxStore > 0 ==> 8 * (HeaderSize(objectSize, maxStore) - objectSize) < maxStore
    ensures maxStore == 0 ==> HeaderSize(objectSize, maxStore) == 0
  {
    AlignToObjectIsLeast(objectSize, Ceiling(maxStore, 8));
  }

  // ---------------------------------------------------------------- one header byte

  /** Bit `k` of a byte, by shifting it down. */
  predicate BitOf(b: bv8, k: nat)
    requires k < 8
  {
    if k == 0 then b & 1 == 1 else BitOf(b >> 1, k - 1)
  }

  /** The kernel's test of bit `k` with a mask. */
  predicate MaskTest(b: bv8, k: nat)
    requires k < 8
  {
    b & ((1 as bv8) << k) != 0
  }

  /** The kernel's update: clear the bit, then or the new value in. */
  function WithBit(b: bv8, k: nat, v: bool): bv8
    requires k < 8
  {
    (b & !((1 as bv8) << k)) | ((if v then 1 as bv8 else 0) << k)
  }

  lemma MaskTestWithBit(b: bv8, k: nat, v: bool, j: nat)
    requires k < 8 && j < 8
    ensures MaskTest(WithBit(b, k, v), j) == if j == k then v else MaskTest(b, j)
  {
    if k < 4 {
      if k < 2 { assert k == 0 || k == 1; } else { assert k == 2 || k == 3; }
    } else {
      if k < 6 { assert k == 4 || k == 5; } else { assert k == 6 || k == 7; }
    }
  }

  lemma MaskTestIsBit(b: bv8, k: nat)
    requires k < 8
    ensures MaskTest(b, k) == BitOf(b, k)
  {
    if k > 0 {
      MaskTestIsBit(b >> 1, k - 1);
      MaskShift(b, k);
    }
  }

  lemma MaskShift(b: bv8, k: nat)
    requires 0 < k < 8
    ensures MaskTest(b, k) == MaskTest(b >> 1, k - 1)
  {
  }

  lemma WithBitAt(b: bv8, k: nat, v: bool, j: nat)
    requires k < 8 && j < 8
    ensures BitOf(WithBit(b, k, v), j) == if j == k then v else BitOf(b, j)
  {
    MaskTestIsBit(b, j);
    MaskTestIsBit(WithBit(b, k, v), j);
    MaskTestWithBit(b, k, v, j);
  }

  lemma ZeroByte(k: nat)
    requires k < 8
    ensures !BitOf(0, k)
  {
    if k > 0 {
      assert 0 as bv8 >> 1 == 0;
      ZeroByte(k - 1);
    }
  }

  // ---------------------------------------------------------------- the header as a set of slots

  /** Bit `n` of the header, counting from its first byte. */
  predicate HeaderBit(header: seq<bv8>, n: nat)
    requires n < 8 * |header|
  {
    if n < 8 then BitOf(header[0], n) else HeaderBit(header[1..], n - 8)
  }

  lemma {:induction false} HeaderBitAt(header: seq<bv8>, n: nat)
    requires n < 8 * |header|
    ensures HeaderBit(header, n) == BitOf(header[n / 8], n % 8)
  {
    if n >= 8 {
      HeaderBitAt(header[1..], n - 8);
    }
  }

  ghost function LiveSlots(header: seq<bv8>, maxStore: nat): (r: set<nat>)
    requires maxStore <= 8 * |header|
    ensures forall s :: s in r ==> s < maxStore
  {
    set s: nat | s < maxStore && HeaderBit(header, s)
  }

  lemma ClearedHeader(header: seq<bv8>, maxStore: nat)
    requires maxStore <= 8 * |header| && forall k :: 0 <= k < |header| ==> header[k] == 0
    ensures LiveSlots(header, maxStore) == {}
  {
    forall s: nat | s < maxStore
      ensures !HeaderBit(header, s)
    {
      HeaderBitAt(header, s);
      ZeroByte(s % 8);
    }
  }

  /** Writing one bit adds or removes exactly that slot: the other seven bits of the byte stay. */
  lemma WrittenHeader(header: seq<bv8>, maxStore: nat, n: nat, v: bool)
    requires n < maxStore <= 8 * |header|
    ensures var h := header[n / 8 := WithBit(header[n / 8], n % 8, v)];
            LiveSlots(h, maxStore) ==
            if v then LiveSlots(header, maxStore) + {n} else LiveSlots(header, maxStore) - {n}
  {
    var h := header[n / 8 := WithBit(header[n / 8], n % 8, v)];
    forall m: nat | m < maxStore
      ensures HeaderBit(h, m) == if m == n then v else HeaderBit(header, m)
    {
      HeaderBitAt(header, m);
      HeaderBitAt(h, m);
      if m / 8 == n / 8 {
        WithBitAt(header[n / 8], n % 8, v, m % 8);
      }
    }
  }

  function Slots(n: nat): (r: set<nat>)
    ensures |r| == n && forall s: nat :: s in r <==> s < n
  {
    if n == 0 then {} else Slots(n - 1) + {n - 1}
  }

  /** A slab that is not full has a free slot. */
  lemma FreeSlotExists(live: set<nat>, n: nat)
    requires |live| < n && forall s :: s in live ==> s < n
    ensures exists s: nat :: s < n && s !in live
  {
    assert live != Slots(n);
  }

  // ---------------------------------------------------------------- slots and addresses

  /** `n` objects of `size` bytes: their total length. */
  function Total(size: nat, n: nat): nat {
    if n == 0 then 0 else Total(size, n - 1) + size
  }

  lemma {:induction false} TotalIsProduct(size: nat, n: nat)
    ensures Total(size, n) == size * n
  {
    if n > 0 {
      TotalIsProduct(size, n - 1);
      assert size * n == size * (n - 1) + size;
    }
  }

  /** Objects in different slots do not overlap. */
  lemma {:induction false} SlotsDisjoint(size: nat, s: nat, t: nat)
    requires s < t
    ensures Total(size, s) + size <= Total(size, t)
    decreases t
  {
    if s < t - 1 {
      SlotsDisjoint(size, s, t - 1);
    }
  }

  /** An offset that falls into slot `slot` is the start of a slot only if it is the start of that one. */
  lemma NoFraction(size: nat, s: nat, slot: nat, offset: nat)
    requires offset < size && Total(size, s) == offset + Total(size, slot)
    ensures offset == 0 && s == slot
  {
    if s < slot {
      SlotsDisjoint(size, s, slot);
    } else if slot < s {
      SlotsDisjoint(size, slot, s);
    }
  }

  ghost function Addresses(base: nat, size: nat, slots: set<nat>): set<nat> {
    set s | s in slots :: base + Total(size, s)
  }

  lemma AddressesOfOneMore(base: nat, size: nat, slots: set<nat>, n: nat)
    requires size > 0 && n !in slots
    ensures base + Total(size, n) !in Addresses(base, size, slots)
    ensures Addresses(base, size, slots + {n}) == Addresses(base, size, slots) + {base + Total(size, n)}
  {
    forall s: nat | s in slots
      ensures Total(size, s) != Total(size, n)
    {
      if Total(size, s) == Total(size, n) {
        NoFraction(size, s, n, 0);
      }
    }
  }

  lemma AddressesOfOneLess(base: nat, size: nat, slots: set<nat>, n: nat)
    requires size > 0
    ensures base + Total(size, n) in Addresses(base, size, slots) <==> n in slots
    ensures Addresses(base, size, slots - {n}) == Addresses(base, size, slots) - {base + Total(size, n)}
  {
    AddressesOfOneMore(base, size, slots - {n}, n);
    if n in slots {
      assert slots - {n} + {n} == slots;
    } else {
      assert slots - {n} == slots;
    }
  }

  /** A live address lies in the object area. */
  lemma AddressInArea(base: nat, size: nat, slots: set<nat>, maxStore: nat, a: nat)
    requires size > 0 && a in Addresses(base, size, slots) && forall s :: s in slots ==> s < maxStore
    ensures base <= a && a + size <= base + Total(size, maxStore)
  {
    var s :| s in slots && a == base + Total(size, s);
    SlotsDisjoint(size, s, maxStore);
  }

  /** A pointer strictly inside an object is no address of a slot. */
  lemma InsideIsNoAddress(base: nat, size: nat, slots: set<nat>, slot: nat, offset: nat)
    requires 0 < offset < size
    ensures base + Total(size, slot) + offset !in Addresses(base, size, slots)
  {
    forall s: nat | s in slots
      ensures Total(size, s) != Total(size, slot) + offset
    {
      if Total(size, s) == Total(size, slot) + offset {
        NoFraction(size, s, slot, offset);
      }
    }
  }

  /** The 32-bit offset of a slot inside a slab below 2^31 bytes is not truncated. */
  lemma PositionFits(header: nat, size: nat, n: nat, maxStore: nat)
    requires n < maxStore && header + Total(size, maxStore) < 0x8000_0000
    ensures (header + size * n) % 0x1_0000_0000 == header + Total(size, n)
    ensures Total(size, n) + size <= Total(size, maxStore)
  {
    SlotsDisjoint(size, n, maxStore);
    TotalIsProduct(size, n);
  }

  // ---------------------------------------------------------------- the allocator

  class Slab {
    const start: nat
    const maxStore: nat
    const objectSize: nat
    const headerSize: nat
    /** The header bytes, at addresses start to start + headerSize. */
    const header: array<bv8>

    /** The slab fits the 32-bit arithmetic of the original, so that no truncation takes place. */
    ghost predicate Valid() {
      && objectSize > 0
      && headerSize == header.Length
      && maxStore <= 8 * headerSize
      && headerSize + Total(objectSize, maxStore) < 0x8000_0000
    }

    /** The address of slot 0. */
    function Base(): nat { start + headerSize }

    function AddressOf(slot: nat): nat { Base() + Total(objectSize, slot) }

    /** One past the last object. */
    function End(): nat { AddressOf(maxStore) }

    /** The abstract value: the set of allocated slots. */
    ghost function Live(): (r: set<nat>)
      requires Valid()
      reads header
      ensures forall s :: s in r ==> s < maxStore
    {
      LiveSlots(header[..], maxStore)
    }

    ghost function LiveAddresses(): set<nat>
      requires Valid()
      reads header
    {
      Addresses(Base(), objectSize, Live())
    }

    constructor (objectSize: nat, maxStore: nat, start: nat)
      requires objectSize > 0 && NeededSize(objectSize, maxStore) < 0x8000_0000
      ensures Valid() && Live() == {} && fresh(header)
      ensures this.objectSize == objectSize && this.maxStore == maxStore && this.start == start
      ensures headerSize == HeaderSize(objectSize, maxStore) && End() == start + NeededSize(objectSize, maxStore)
    {
      var size := HeaderSize(objectSize, maxStore);
      HeaderHoldsAllBits(objectSize, maxStore);
      TotalIsProduct(objectSize, maxStore);
      this.objectSize, this.maxStore, this.start, this.headerSize := objectSize, maxStore, start, size;
      var bytes := new bv8[size];
      this.header := bytes;
      new;
      for i := 0 to size
        modifies header
        invariant forall k :: 0 <= k < i ==> header[k] == 0
      {
        header[i] := 0;
      }
      ClearedHeader(header[..], maxStore);
    }

    method GetHeaderBit(n: nat) returns (bit: nat)
      requires Valid() && n < maxStore
      ensures bit == if n in Live() then 1 else 0
    {
      var offset, quot := n % 8, n / 8;
      MaskTestIsBit(header[quot], offset);
      bit := if MaskTest(header[quot], offset) then 1 else 0;
      HeaderBitAt(header[..], n);
    }

    method SetHeaderBit(n: nat, v: bool)
      requires Valid() && n < maxStore
      modifies header
      ensures Live() == if v then old(Live()) + {n} else old(Live()) - {n}
    {
      var offset, quot := n % 8, n / 8;
      ghost var before := header[..];
      header[quot] := WithBit(header[quot], offset, v);
      assert header[..] == before[quot := WithBit(before[quot], offset, v)];
      WrittenHeader(before, maxStore, n, v);
    }

    /** Scans downwards from the last slot. */
    method NextSlot() returns (slot: nat)
      requires Valid() && |Live()| < maxStore
      ensures slot < maxStore && slot !in Live()
      ensures forall s :: slot < s < maxStore ==> s in Live()
    {
      ghost var live := Live();
      FreeSlotExists(live, maxStore);
      ghost var free: nat :| free < maxStore && free !in live;
      slot := maxStore - 1;
      var bit := GetHeaderBit(slot);
      while bit != 0
        invariant free <= slot < maxStore
        invariant bit == if slot in live then 1 else 0
        invariant forall s :: slot < s < maxStore ==> s in live
        decreases slot
      {
        slot := slot - 1;
        bit := GetHeaderBit(slot);
      }
    }

    /** Takes the highest free slot. The byte offset is computed in 32 bits. */
    method Allocate() returns (address: nat, ghost slot: nat)
      requires Valid() && |Live()| < maxStore
      modifies header
      ensures slot < maxStore && slot !in old(Live()) && address == AddressOf(slot)
      ensures forall s :: slot < s < maxStore ==> s in old(Live())
      ensures Live() == old(Live()) + {slot} && |Live()| == |old(Live())| + 1
      ensures Base() <= address && address + objectSize <= End() && start + headerSize <= address
      ensures address !in old(LiveAddresses())
      ensures LiveAddresses() == old(LiveAddresses()) + {address}
    {
      var n := NextSlot();
      SetHeaderBit(n, true);
      PositionFits(headerSize, objectSize, n, maxStore);
      AddressesOfOneMore(Base(), objectSize, old(Live()), n);
      var position := (headerSize + objectSize * n) % 0x1_0000_0000;
      address, slot := start + position, n;
    }

    /** Releases the object at `ptr`, reporting whether it was one. */
    method Free(ptr: nat) returns (freed: nat)
      requires Valid() && Base() <= ptr < End()
      modifies header
      ensures freed == if ptr in old(LiveAddresses()) then 1 else 0
      ensures LiveAddresses() == old(LiveAddresses()) - {ptr}
      ensures freed == 0 ==> Live() == old(Live())
      ensures freed == 1 ==> exists s :: s in old(Live()) && AddressOf(s) == ptr && Live() == old(Live()) - {s}
    {
      var offset := ptr - start - headerSize;
      var slot := 0;
      while offset >= objectSize
        invariant 0 <= offset && offset + Total(objectSize, slot) == ptr - Base()
        decreases offset
      {
        offset := offset - objectSize;
        slot := slot + 1;
      }
      assert slot < maxStore by {
        if maxStore < slot {
          SlotsDisjoint(objectSize, maxStore, slot);
        }
      }
      if offset != 0 {
        InsideIsNoAddress(Base(), objectSize, Live(), slot, offset);
        return 0;
      }
      AddressesOfOneLess(Base(), objectSize, Live(), slot);
      var bit := GetHeaderBit(slot);
      if bit == 1 {
        SetHeaderBit(slot, false);
        return 1;
      }
      return 0;
    }
  }
}
