/** Reading bytes from a block device: memcpy of kernel/string.c and fat_load_data of kernel/fs/fat.c.

    The device is a sequence of 512-byte sectors that does not change. */
module Disk {
  import opened Bits

  type Byte = b: int | 0 <= b < 256

  type Sectors = seq<seq<Byte>>

  /** Sectors have 512 bytes, and their numbers are ints. */
  predicate ValidDisk(disk: Sectors) {
    |disk| < 0x8000_0000 && forall s :: 0 <= s < |disk| ==> |disk[s]| == 512
  }

  function Size(disk: Sectors): nat { 512 * |disk| }

  /** The byte at an offset of the device. */
  function ByteAt(disk: Sectors, off: nat): Byte
    requires ValidDisk(disk) && off < Size(disk)
  {
    if off < 512 then disk[0][off] else ByteAt(disk[1..], off - 512)
  }

  lemma {:induction false} SectorByte(disk: Sectors, s: nat, k: nat)
    requires ValidDisk(disk) && s < |disk| && k < 512
    ensures ByteAt(disk, 512 * s + k) == disk[s][k]
  {
    if s > 0 {
      SectorByte(disk[1..], s - 1, k);
    }
  }

  /** The bytes of `a` from `p` on are `len` bytes of the device from `off` on. */
  ghost predicate Holds(a: seq<Byte>, p: nat, disk: Sectors, off: nat, len: nat)
    requires ValidDisk(disk)
  {
    && p + len <= |a| && off + len <= Size(disk)
    && forall k :: p <= k < p + len ==> a[k] == ByteAt(disk, off + (k - p))
  }

  /** Only the `len` bytes from `p` on differ. */
  ghost predicate OnlyWritten(a: seq<Byte>, b: seq<Byte>, p: nat, len: nat) {
    |a| == |b| && forall i: nat :: i < |a| && !(p <= i < p + len) ==> b[i] == a[i]
  }

  /** The loop counter is an int. */
  method Memcpy(dst: array<Byte>, p: nat, src: seq<Byte>, from: nat, n: nat)
    requires n < 0x8000_0000 && p + n <= dst.Length && from + n <= |src|
    modifies dst
    ensures forall k :: p <= k < p + n ==> dst[k] == src[from + (k - p)]
    ensures OnlyWritten(old(dst[..]), dst[..], p, n)
  {
    for i := 0 to n
      invariant forall k :: p <= k < p + i ==> dst[k] == src[from + (k - p)]
      invariant OnlyWritten(old(dst[..]), dst[..], p, i)
    {
      dst[p + i] := src[from + i];
    }
  }

  function SectorsFor(n: nat): nat { Ceiling(n, 512) }

  /** How many bytes fat_load_data writes: whole sectors, except that a request for no bytes still
      copies what is left of the first sector. */
  function Written(off: nat, n: nat): nat {
    if n == 0 then 512 - off % 512 else 512 * SectorsFor(n)
  }

  /** Copies part of a sector behind what is already there. */
  method CopySector(disk: Sectors, dst: array<Byte>, ghost p: nat, ghost off: nat, ghost done: nat, at: nat,
                    s: nat, from: nat, n: nat)
    requires ValidDisk(disk) && s < |disk| && from + n <= 512
    requires Holds(dst[..], p, disk, off, done) && at == p + done && off + done == 512 * s + from
    requires at + n <= dst.Length
    modifies dst
    ensures Holds(dst[..], p, disk, off, done + n)
    ensures OnlyWritten(old(dst[..]), dst[..], at, n)
  {
    ghost var before := dst[..];
    Memcpy(dst, at, disk[s], from, n);
    forall k | p <= k < p + done + n
      ensures dst[..][k] == ByteAt(disk, off + (k - p))
    {
      if k >= at {
        SectorByte(disk, s, from + (k - at));
      } else {
        assert before[k] == dst[..][k];
      }
    }
  }

  /** Copies the device from `offset` on: a partial first sector, whole sectors, and a last piece. */
  method LoadData(disk: Sectors, dst: array<Byte>, p: nat, offset: nat, n: nat)
    requires ValidDisk(disk) && offset + Written(offset, n) <= Size(disk)
    requires p + Written(offset, n) <= dst.Length
    modifies dst
    ensures Holds(dst[..], p, disk, offset, Written(offset, n))
    ensures OnlyWritten(old(dst[..]), dst[..], p, Written(offset, n))
  {
    var sector := offset / 512;
    var sectorCount := n / 512 + (if n % 512 == 0 then 0 else 1) + (if offset % 512 == 0 then 0 else 1);
    var partial := offset % 512;
    var at := p;
    CopySector(disk, dst, p, offset, 0, at, sector, partial, 512 - partial);
    at := at + (512 - partial);
    if sectorCount < 2 {
      return;
    }
    for s := sector + 1 to sectorCount + sector - 1
      invariant at == p + (512 - partial) + 512 * (s - sector - 1)
      invariant Holds(dst[..], p, disk, offset, at - p)
      invariant OnlyWritten(old(dst[..]), dst[..], p, at - p)
    {
      CopySector(disk, dst, p, offset, at - p, at, s, 0, 512);
      at := at + 512;
    }
    CopySector(disk, dst, p, offset, at - p, at, sector + sectorCount - 1, 0, if partial != 0 then partial else 512);
  }
}
