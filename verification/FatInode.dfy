/** The streaming inode of kernel/fs/fat_fs.c: a file read one byte at a time through a buffer of one
    sector. */
module FatInodes {
  import opened Bits
  import opened Slabs
  import opened Disk
  import opened Fat

  /** A block of 512 bytes lies inside one cluster, and inside the chain if its start does. */
  lemma BlockInCluster(cs: nat, n: nat, b: nat)
    requires cs > 0 && cs % 512 == 0 && 512 * b < Total(cs, n)
    ensures 512 * b % cs + 512 <= cs
    ensures 512 * b + 512 <= Total(cs, n)
  {
    BlockRemainder(cs / 512, b);
    TotalMultiple(cs, n);
  }

  lemma BlockRemainder(m: nat, b: nat)
    requires m > 0
    ensures 512 * b % (512 * m) == 512 * (b % m) <= 512 * m - 512
  {
    var q, r := b / m, b % m;
    assert q * (512 * m) == 512 * (q * m);
    QuotientUnique(512 * b, 512 * m, q, 512 * r);
  }

  class FatInode {
    const volume: Volume
    const entry: DirEntry
    const buffer: array<Byte>
    var position: nat
    /** The number of the buffered block, -1 at first. */
    var loaded: int
    ghost const chain: seq<nat>

    ghost predicate Valid()
      reads this, buffer
    {
      && WellFormed(volume, entry, chain) && entry.size < 0x8000_0000
      && buffer.Length == 512
      && position <= entry.size
      && -1 <= loaded
      && (loaded >= 0 ==> Copied(buffer[..], 0, Clusters(volume, chain), 512 * loaded, 512))
    }

    /** The bytes of the file, as fat_read_entry delivers them. */
    ghost function File(): seq<Byte>
      requires WellFormed(volume, entry, chain)
    {
      Contents(volume, entry, chain)
    }

    constructor (volume: Volume, entry: DirEntry, ghost chain: seq<nat>)
      requires WellFormed(volume, entry, chain) && entry.size < 0x8000_0000
      ensures Valid() && fresh(buffer) && position == 0
      ensures this.volume == volume && this.entry == entry && this.chain == chain
    {
      this.volume, this.entry, this.chain, this.position, this.loaded := volume, entry, chain, 0, -1;
      var b := new Byte[512];
      this.buffer := b;
    }

    /** The next byte, or nothing at the end of the file. */
    method Get() returns (ok: bool, c: Byte)
      requires Valid()
      modifies this`position, this`loaded, buffer
      ensures Valid()
      ensures ok <==> old(position) < entry.size
      ensures ok ==> c == File()[old(position)] && position == old(position) + 1
      ensures !ok ==> position == old(position)
    {
      if position >= entry.size {
        return false, 0;
      }
      c := Current();
      position := position + 1;
      ok := true;
    }

    /** The byte at the position, through the buffer. */
    method Current() returns (c: Byte)
      requires Valid() && position < entry.size
      modifies this`loaded, buffer
      ensures Valid() && c == File()[position]
    {
      var index := position / 512;
      if index != loaded {
        Refill(index);
      }
      Buffered(buffer[..], volume, entry, chain, index, position % 512);
      c := buffer[position % 512];
    }

    /** Every refill is a read inside one cluster. */
    method Refill(index: nat)
      requires Valid() && 512 * index < entry.size
      modifies this`loaded, buffer
      ensures Valid() && loaded == index
    {
      BlockInCluster(volume.clusterSize, |chain|, index);
      loaded := index;
      ReadEntryOffsetSize(volume, entry, buffer, 512 * index, 512, chain);
      assert FirstPart(volume.clusterSize, 512 * index, 512) == 512;
    }

    /** The bytes not yet read. */
    function Left(): (n: int)
      requires Valid()
      reads this, buffer
      ensures n >= 0 && position + n == |File()|
    {
      entry.size - position
    }

    /** The loop that loads a program: get until there is no more. */
    method ReadAll(dst: array<Byte>) returns (n: nat)
      requires Valid() && dst != buffer && Left() <= dst.Length
      modifies this`position, this`loaded, buffer, dst
      ensures Valid() && position == entry.size
      ensures n == old(Left()) && dst[..n] == File()[old(position)..]
    {
      n := 0;
      ghost var file, start := File(), position;
      var ok := true;
      while ok
        invariant Valid() && position == start + n <= |file|
        invariant dst[..n] == file[start..start + n]
        invariant !ok ==> position == entry.size
        decreases entry.size - position, ok
      {
        ok := GetInto(dst, n);
        if ok {
          n := n + 1;
        }
      }
    }

    /** get with a pointer to store through: the byte is stored only if there is one. */
    method GetInto(dst: array<Byte>, n: nat) returns (ok: bool)
      requires Valid() && dst != buffer && n + Left() <= dst.Length
      modifies this`position, this`loaded, buffer, dst
      ensures Valid()
      ensures ok <==> old(position) < entry.size
      ensures ok ==> position == old(position) + 1 && dst[..] == old(dst[..])[n := File()[old(position)]]
      ensures !ok ==> position == old(position) && dst[..] == old(dst[..])
    {
      var c;
      ok, c := Get();
      if ok {
        dst[n] := c;
      }
    }
  }

  /** Byte `r` of a buffered block is the byte of the file. */
  lemma Buffered(buffer: seq<Byte>, v: Volume, e: DirEntry, chain: seq<nat>, b: nat, r: nat)
    requires WellFormed(v, e, chain) && Copied(buffer, 0, Clusters(v, chain), 512 * b, 512)
    requires r < 512 && 512 * b + r < e.size
    ensures buffer[r] == Contents(v, e, chain)[512 * b + r]
  {
  }
}
