/** The FAT16 reader of kernel/fs/fat.c.

    A file is a chain of clusters in the file allocation table, ended by the entry 0xffff. */
module Fat {
  import opened Bits
  import opened Slabs
  import opened Disk

  const END := 0xffff

  /** What fat_load keeps of a volume. `clusterSize` is bytes per sector times sectors per cluster. */
  datatype Volume = Volume(disk: Sectors, dataOffset: nat, clusterSize: nat, fat: seq<nat>)

  /** A directory entry, as far as reading is concerned. */
  datatype DirEntry = DirEntry(start: nat, size: nat)

  /** The cluster size is returned as an int. */
  predicate ValidVolume(v: Volume) {
    ValidDisk(v.disk) && 0 < v.clusterSize < 0x8000_0000 && v.clusterSize % 512 == 0
  }

  /** Where the data of a cluster starts; the first data cluster has number 2. */
  function ClusterOffset(v: Volume, c: nat): nat
    requires c >= 2
  {
    v.dataOffset + Total(v.clusterSize, c - 2)
  }

  /** `c` is the number of a cluster with a table entry and with its data on the disk. */
  predicate DataCluster(v: Volume, c: nat) {
    2 <= c < |v.fat| && c != END && ClusterOffset(v, c) + v.clusterSize <= Size(v.disk)
  }

  /** Following the table from cluster `c` visits `chain` and then meets the end mark. */
  ghost predicate IsChain(v: Volume, c: nat, chain: seq<nat>)
    decreases |chain|
  {
    if chain == [] then c == END
    else c == chain[0] && DataCluster(v, c) && IsChain(v, v.fat[c], chain[1..])
  }

  /** The chain is determined by its start. */
  lemma {:induction false} ChainUnique(v: Volume, c: nat, a: seq<nat>, b: seq<nat>)
    requires IsChain(v, c, a) && IsChain(v, c, b)
    ensures a == b
    decreases |a|
  {
    if a != [] && b != [] {
      ChainUnique(v, v.fat[c], a[1..], b[1..]);
    }
  }

  /** A chain that ends visits no cluster twice. */
  lemma {:induction false} ChainAcyclic(v: Volume, c: nat, chain: seq<nat>)
    requires IsChain(v, c, chain)
    ensures forall i, j :: 0 <= i < j < |chain| ==> chain[i] != chain[j]
    decreases |chain|
  {
    if chain != [] {
      ChainAcyclic(v, v.fat[c], chain[1..]);
      forall j | 1 <= j < |chain|
        ensures chain[j] != chain[0]
      {
        ChainFrom(v, c, chain, j);
        if chain[j] == chain[0] {
          ChainUnique(v, c, chain, chain[j..]);
        }
      }
    }
  }

  lemma {:induction false} ChainFrom(v: Volume, c: nat, chain: seq<nat>, k: nat)
    requires IsChain(v, c, chain) && k < |chain|
    ensures IsChain(v, chain[k], chain[k..]) && DataCluster(v, chain[k])
    ensures v.fat[chain[k]] == if k + 1 < |chain| then chain[k + 1] else END
    decreases |chain|
  {
    if k > 0 {
      ChainFrom(v, v.fat[c], chain[1..], k - 1);
      assert chain[1..][k - 1..] == chain[k..];
    } else {
      assert chain[0..] == chain;
    }
  }

  // ---------------------------------------------------------------- chains as the standard ends them

  /** The end marks of the Microsoft FAT specification ("FAT Data Structure") for FAT16. */
  predicate EndMark(x: nat) { 0xfff8 <= x <= 0xffff }

  /** A chain of data clusters that ends, as the specification allows, in any end mark. */
  ghost predicate IsStandardChain(v: Volume, c: nat, chain: seq<nat>, mark: nat)
    decreases |chain|
  {
    if chain == [] then c == mark && EndMark(mark)
    else c == chain[0] && c < 0xfff8 && DataCluster(v, c) && IsStandardChain(v, v.fat[c], chain[1..], mark)
  }

  /** The kernel follows the clusters of a standard chain, and then goes on from the end mark as from
      a cluster number. */
  lemma {:induction false} StandardChainFollowed(v: Volume, c: nat, chain: seq<nat>, mark: nat, w: seq<nat>)
    requires IsStandardChain(v, c, chain, mark)
    ensures IsChain(v, c, w) <==> chain <= w && IsChain(v, mark, w[|chain|..])
    decreases |chain|
  {
    if chain == [] {
      assert w[0..] == w;
    } else if w != [] && w[0] == c {
      StandardChainFollowed(v, v.fat[c], chain[1..], mark, w[1..]);
      assert chain <= w <==> chain[1..] <= w[1..];
      if chain <= w {
        assert w[1..][|chain| - 1..] == w[|chain|..];
      }
    }
  }

  /** So the kernel sees a standard chain as it is exactly if the end mark is 0xffff. With another
      mark that is beyond the table no chain is seen at all. */
  lemma StandardChainSeen(v: Volume, c: nat, chain: seq<nat>, mark: nat)
    requires IsStandardChain(v, c, chain, mark)
    ensures IsChain(v, c, chain) <==> mark == 0xffff
    ensures mark != 0xffff && |v.fat| <= mark ==> forall w :: !IsChain(v, c, w)
  {
    StandardChainFollowed(v, c, chain, mark, chain);
    forall w | IsChain(v, c, w)
      ensures mark == 0xffff || mark < |v.fat|
    {
      StandardChainFollowed(v, c, chain, mark, w);
    }
  }

  /** A volume of one cluster, number 2, whose table entry is `mark`. */
  function OneCluster(mark: nat): Volume {
    Volume([seq(512, _ => 0)], 0, 512, [0xfff8, 0xffff, mark])
  }

  /** With the end mark 0xfff8 the one cluster of that volume is a standard chain that the kernel does
      not see. */
  lemma OtherEndMarkExample()
    ensures var v := OneCluster(0xfff8);
            ValidVolume(v) && IsStandardChain(v, 2, [2], 0xfff8) && forall w :: !IsChain(v, 2, w)
  {
    var v := OneCluster(0xfff8);
    assert DataCluster(v, 2);
    assert IsStandardChain(v, 0xfff8, [2][1..], 0xfff8);
    StandardChainSeen(v, 2, [2], 0xfff8);
  }

  /** With the end mark 0xffff it is. */
  lemma EndMarkExample()
    ensures IsChain(OneCluster(0xffff), 2, [2])
  {
    assert DataCluster(OneCluster(0xffff), 2);
    assert IsStandardChain(OneCluster(0xffff), 0xffff, [2][1..], 0xffff);
    StandardChainSeen(OneCluster(0xffff), 2, [2], 0xffff);
  }

  predicate AllData(v: Volume, chain: seq<nat>) {
    forall i :: 0 <= i < |chain| ==> DataCluster(v, chain[i])
  }

  lemma {:induction false} ChainAllData(v: Volume, c: nat, chain: seq<nat>)
    requires IsChain(v, c, chain)
    ensures AllData(v, chain)
    decreases |chain|
  {
    if chain != [] {
      ChainAllData(v, v.fat[c], chain[1..]);
      assert chain == [c] + chain[1..];
    }
  }

  // ---------------------------------------------------------------- the bytes of a file

  ghost function ClusterBytes(v: Volume, c: nat): (r: seq<Byte>)
    requires ValidVolume(v) && DataCluster(v, c)
    ensures |r| == v.clusterSize
    ensures forall i :: 0 <= i < |r| ==> r[i] == ByteAt(v.disk, ClusterOffset(v, c) + i)
  {
    seq<Byte>(v.clusterSize, i requires 0 <= i < v.clusterSize => ByteAt(v.disk, ClusterOffset(v, c) + i))
  }

  /** The clusters of a chain, one after the other. */
  ghost function Clusters(v: Volume, chain: seq<nat>): (r: seq<Byte>)
    requires ValidVolume(v) && AllData(v, chain)
    ensures |r| == Total(v.clusterSize, |chain|)
  {
    if chain == [] then []
    else Clusters(v, chain[..|chain| - 1]) + ClusterBytes(v, chain[|chain| - 1])
  }

  /** Byte `r` of cluster `k` in the concatenation. */
  lemma {:induction false} ClustersAt(v: Volume, chain: seq<nat>, k: nat, r: nat)
    requires ValidVolume(v) && AllData(v, chain)
    requires k < |chain| && r < v.clusterSize
    ensures Total(v.clusterSize, k) + r < Total(v.clusterSize, |chain|)
    ensures Clusters(v, chain)[Total(v.clusterSize, k) + r] == ByteAt(v.disk, ClusterOffset(v, chain[k]) + r)
    decreases |chain|
  {
    SlotsDisjoint(v.clusterSize, k, |chain|);
    if k < |chain| - 1 {
      ClustersAt(v, chain[..|chain| - 1], k, r);
    }
  }

  /** A file whose chain is as long as its size asks for. */
  ghost predicate WellFormed(v: Volume, e: DirEntry, chain: seq<nat>) {
    && ValidVolume(v)
    && IsChain(v, e.start, chain) && chain != []
    && Total(v.clusterSize, |chain| - 1) < e.size <= Total(v.clusterSize, |chain|)
    && AllData(v, chain)
  }

  /** The contents of a file: its clusters cut to its size. */
  ghost function Contents(v: Volume, e: DirEntry, chain: seq<nat>): (r: seq<Byte>)
    requires WellFormed(v, e, chain)
    ensures |r| == e.size
  {
    Clusters(v, chain)[..e.size]
  }

  /** The length condition says that the chain has ceil(size / cluster size) clusters. */
  lemma ChainLength(v: Volume, e: DirEntry, chain: seq<nat>)
    requires ValidVolume(v) && chain != [] && e.size > 0
    ensures Total(v.clusterSize, |chain| - 1) < e.size <= Total(v.clusterSize, |chain|) <==>
            |chain| == (e.size - 1) / v.clusterSize + 1
  {
    var cs, n, q := v.clusterSize, |chain|, (e.size - 1) / v.clusterSize;
    TotalQuotient(cs, e.size - 1);
    if n - 1 < q {
      SlotsDisjoint(cs, n - 1, q);
    } else if q < n - 1 {
      SlotsDisjoint(cs, q, n - 1);
    }
  }

  lemma TotalQuotient(size: nat, x: nat)
    requires size > 0
    ensures Total(size, x / size) + x % size == x && x % size < size
  {
    TotalIsProduct(size, x / size);
  }

  /** Byte `j` of a file, as a byte of the disk. With k = j / cluster size and r = j % cluster size it is
      byte r of the k-th cluster of the chain, and cluster 2 is the first one behind the data offset. */
  lemma ContentsAt(v: Volume, e: DirEntry, chain: seq<nat>, j: nat, k: nat, r: nat)
    requires WellFormed(v, e, chain) && j < e.size
    requires j == k * v.clusterSize + r && r < v.clusterSize
    ensures k == j / v.clusterSize && r == j % v.clusterSize && k < |chain| && chain[k] >= 2
    ensures var place: int := v.dataOffset + (chain[k] - 2) * v.clusterSize + r;
            0 <= place < 512 * |v.disk| && Contents(v, e, chain)[j] == ByteAt(v.disk, place)
  {
    QuotientUnique(j, v.clusterSize, k, r);
    InChain(v, chain, j);
    ClustersAt(v, chain, k, r);
    assert DataCluster(v, chain[k]);
    ClusterPlace(v, chain[k]);
  }

  lemma ClusterPlace(v: Volume, c: nat)
    requires c >= 2
    ensures ClusterOffset(v, c) == v.dataOffset + (c - 2) * v.clusterSize
  {
    TotalIsProduct(v.clusterSize, c - 2);
    assert (c - 2) * v.clusterSize == v.clusterSize * (c - 2);
  }

  // ---------------------------------------------------------------- reading

  /** `a` holds, from `p` on, `len` bytes of `whole` from byte `from` on. */
  ghost predicate Copied(a: seq<Byte>, p: nat, whole: seq<Byte>, from: nat, len: nat) {
    && p + len <= |a| && from + len <= |whole|
    && forall k :: p <= k < p + len ==> a[k] == whole[from + (k - p)]
  }

  lemma CopiedCluster(a: seq<Byte>, p: nat, v: Volume, chain: seq<nat>, i: nat, len: nat)
    requires ValidVolume(v) && AllData(v, chain) && i < |chain| && len <= v.clusterSize
    requires DataCluster(v, chain[i]) && Copied(a, p, ClusterBytes(v, chain[i]), 0, len)
    ensures Copied(a, p, Clusters(v, chain), Total(v.clusterSize, i), len)
  {
    ClusterInClusters(v, chain, i);
    CopiedPart(a, p, ClusterBytes(v, chain[i]), len, Clusters(v, chain), Total(v.clusterSize, i));
  }

  lemma HoldsCluster(a: seq<Byte>, p: nat, v: Volume, c: nat, len: nat)
    requires ValidVolume(v) && DataCluster(v, c) && len <= v.clusterSize
    requires Holds(a, p, v.disk, ClusterOffset(v, c), len)
    ensures Copied(a, p, ClusterBytes(v, c), 0, len)
  {
  }

  lemma ClusterInClusters(v: Volume, chain: seq<nat>, i: nat)
    requires ValidVolume(v) && AllData(v, chain) && i < |chain| && DataCluster(v, chain[i])
    ensures Copied(ClusterBytes(v, chain[i]), 0, Clusters(v, chain), Total(v.clusterSize, i), v.clusterSize)
  {
    SlotsDisjoint(v.clusterSize, i, |chain|);
    forall r | 0 <= r < v.clusterSize
      ensures ClusterBytes(v, chain[i])[r] == Clusters(v, chain)[Total(v.clusterSize, i) + r]
    {
      ClusterByteIn(v, chain, i, r);
    }
  }

  lemma ClusterByteIn(v: Volume, chain: seq<nat>, i: nat, r: nat)
    requires ValidVolume(v) && AllData(v, chain) && i < |chain| && DataCluster(v, chain[i]) && r < v.clusterSize
    ensures Total(v.clusterSize, i) + r < Total(v.clusterSize, |chain|)
    ensures ClusterBytes(v, chain[i])[r] == Clusters(v, chain)[Total(v.clusterSize, i) + r]
  {
    ClustersAt(v, chain, i, r);
  }

  lemma CopiedPart(a: seq<Byte>, p: nat, bytes: seq<Byte>, len: nat, whole: seq<Byte>, from: nat)
    requires Copied(a, p, bytes, 0, len) && Copied(bytes, 0, whole, from, |bytes|)
    ensures Copied(a, p, whole, from, len)
  {
  }

  /** Whole sectors that hold at most a cluster fit into a cluster. */
  lemma WrittenFits(cs: nat, off: nat, n: nat)
    requires cs % 512 == 0 && 0 < n <= cs
    ensures n <= Written(off, n) <= cs && (n == cs ==> Written(off, n) == cs)
  {
  }

  /** Reads the first `bytes` bytes of a cluster, rounded up to sectors. */
  method ReadCluster(v: Volume, cluster: nat, bytes: nat, dst: array<Byte>, p: nat, ghost chain: seq<nat>, ghost i: nat)
    requires ValidVolume(v) && AllData(v, chain) && i < |chain| && cluster == chain[i]
    requires 0 < bytes <= v.clusterSize && p + 512 * SectorsFor(bytes) <= dst.Length
    modifies dst
    ensures Copied(dst[..], p, Clusters(v, chain), Total(v.clusterSize, i), 512 * SectorsFor(bytes))
    ensures OnlyWritten(old(dst[..]), dst[..], p, 512 * SectorsFor(bytes))
    ensures var at: int := v.dataOffset + (cluster - 2) * v.clusterSize;
            at >= 0 && Holds(dst[..], p, v.disk, at, 512 * SectorsFor(bytes))
  {
    var offset := v.dataOffset + v.clusterSize * (cluster - 2);
    TotalIsProduct(v.clusterSize, cluster - 2);
    WrittenFits(v.clusterSize, offset, bytes);
    LoadData(v.disk, dst, p, offset, bytes);
    assert DataCluster(v, chain[i]);
    ClusterPlace(v, cluster);
    HoldsCluster(dst[..], p, v, cluster, 512 * SectorsFor(bytes));
    CopiedCluster(dst[..], p, v, chain, i, 512 * SectorsFor(bytes));
  }

  /** The conversion of an int to size_t. */
  function AsSize(x: int): nat { x % 0x1_0000_0000_0000_0000 }

  /** Where the last cluster of a file starts, in bytes from the start of the file. */
  function LastStart(cs: nat, size: nat): int
    requires cs > 0
  {
    (size - 1) / cs * cs
  }

  lemma LastStartIsTotal(v: Volume, e: DirEntry, chain: seq<nat>)
    requires WellFormed(v, e, chain)
    ensures LastStart(v.clusterSize, e.size) == Total(v.clusterSize, |chain| - 1)
  {
    ChainLength(v, e, chain);
    TotalIsProduct(v.clusterSize, |chain| - 1);
  }

  lemma TotalGrows(cs: nat, i: nat, n: nat)
    requires i <= n
    ensures Total(cs, i) <= Total(cs, n)
  {
    if i < n {
      SlotsDisjoint(cs, i, n);
    }
  }

  /** fat_read_entry counts the bytes read in an int. All its clusters go to their places exactly if
      the last one starts below 2^31. */
  lemma OffsetsExact(v: Volume, e: DirEntry, chain: seq<nat>)
    requires WellFormed(v, e, chain)
    ensures (forall i: nat :: i < |chain| ==> Int32(Total(v.clusterSize, i)) == Total(v.clusterSize, i)) <==>
            LastStart(v.clusterSize, e.size) < 0x8000_0000
  {
    LastStartIsTotal(v, e, chain);
    Int32Exact(Total(v.clusterSize, |chain| - 1));
    forall i: nat | i < |chain| && Total(v.clusterSize, |chain| - 1) < 0x8000_0000
      ensures Int32(Total(v.clusterSize, i)) == Total(v.clusterSize, i)
    {
      TotalGrows(v.clusterSize, i, |chain| - 1);
      Int32Exact(Total(v.clusterSize, i));
    }
  }

  /** The bytes of a large cluster: 128 sectors. */
  const LARGE: nat := 0x1_0000

  /** The entry of cluster `c` in a table where the clusters 2 to n + 1 follow one another. */
  function StraightEntry(n: nat, c: nat): nat { if c == n + 1 then END else c + 1 }

  /** A volume of `n` large clusters that form one chain. */
  function StraightVolume(n: nat): Volume {
    Volume(seq(128 * n, _ => seq(512, _ => 0)), 0, LARGE, seq(n + 2, c requires c >= 0 => StraightEntry(n, c)))
  }

  /** The clusters from `c` on. */
  function Straight(n: nat, c: nat): (chain: seq<nat>)
    requires 2 <= c <= n + 2
    ensures |chain| == n + 2 - c
    decreases n + 2 - c
  {
    if c == n + 2 then [] else [c] + Straight(n, c + 1)
  }

  lemma StraightVolumeValid(n: nat)
    requires n < 0xffef
    ensures ValidVolume(StraightVolume(n))
  {
    var disk := StraightVolume(n).disk;
    assert forall s :: 0 <= s < |disk| ==> disk[s] == seq(512, _ => 0);
  }

  lemma {:induction false} StraightIsChain(n: nat, c: nat)
    requires 2 <= c <= n + 1 < 0xfff0
    ensures IsChain(StraightVolume(n), c, Straight(n, c))
    decreases n + 1 - c
  {
    var v := StraightVolume(n);
    SlotsDisjoint(LARGE, c - 2, n);
    TotalIsProduct(LARGE, n);
    assert DataCluster(v, c);
    assert v.fat[c] == StraightEntry(n, c);
    if c < n + 1 {
      StraightIsChain(n, c + 1);
    }
    assert Straight(n, c)[1..] == Straight(n, c + 1);
  }

  /** Files of more than 2^31 bytes in large clusters: they are well formed, and the last cluster goes
      below the destination. */
  lemma LongFiles(n: nat, e: DirEntry)
    requires 0x8000 < n < 0xffef && e.start == 2
    requires Total(LARGE, n - 1) < e.size <= Total(LARGE, n)
    ensures WellFormed(StraightVolume(n), e, Straight(n, 2)) && e.size > 0x8000_0000
    ensures Int32(Total(LARGE, n - 1)) == Total(LARGE, n - 1) - 0x1_0000_0000 < 0
  {
    StraightVolumeValid(n);
    StraightIsChain(n, 2);
    ChainAllData(StraightVolume(n), 2, Straight(n, 2));
    TotalIsProduct(LARGE, n - 1);
  }

  /** What the two counters of fat_read_entry hold before cluster `i`, as ints. */
  predicate Counted(cs: nat, size: nat, i: nat, bytesLeft: int, processed: int) {
    bytesLeft == Int32(size - Total(cs, i)) && processed == Int32(Total(cs, i))
  }

  lemma CountedOn(cs: nat, size: nat, i: nat, bytesLeft: int, processed: int)
    requires Counted(cs, size, i, bytesLeft, processed)
    ensures Counted(cs, size, i + 1, Int32(bytesLeft - cs), Int32(processed + cs))
  {
    CountOn(size - Total(cs, i), 0 - cs);
    CountOn(Total(cs, i), cs);
  }

  /** How far fat_read_entry writes: the size rounded up to sectors. */
  function Extent(v: Volume, e: DirEntry, chain: seq<nat>): nat
    requires chain != [] && Total(v.clusterSize, |chain| - 1) < e.size
  {
    Total(v.clusterSize, |chain| - 1) + 512 * SectorsFor(e.size - Total(v.clusterSize, |chain| - 1))
  }

  lemma ExtentIsRounded(v: Volume, e: DirEntry, chain: seq<nat>)
    requires WellFormed(v, e, chain)
    ensures Extent(v, e, chain) % 512 == 0 && e.size <= Extent(v, e, chain) < e.size + 512
  {
    TotalMultiple(v.clusterSize, |chain| - 1);
  }

  lemma {:induction false} TotalMultiple(cs: nat, n: nat)
    requires cs % 512 == 0
    ensures Total(cs, n) % 512 == 0
  {
    if n > 0 {
      TotalMultiple(cs, n - 1);
    }
  }

  /** The first `i` clusters of the file have been read into what was `a`. */
  ghost predicate Progress(a: seq<Byte>, b: seq<Byte>, v: Volume, e: DirEntry, chain: seq<nat>, i: nat)
    requires WellFormed(v, e, chain)
  {
    var done := Total(v.clusterSize, i);
    && Copied(b, 0, Clusters(v, chain), 0, if i < |chain| then done else e.size)
    && OnlyWritten(a, b, 0, if i < |chain| then done else Extent(v, e, chain))
  }

  /** Asked of a file so that its size is a 32-bit number and all its clusters go to their places. */
  predicate Countable(v: Volume, e: DirEntry)
    requires v.clusterSize > 0
  {
    e.size < 0x1_0000_0000 && LastStart(v.clusterSize, e.size) < 0x8000_0000
  }

  /** How many bytes the next round reads. A negative `bytesLeft` stands for 2^31 bytes or more; compared
      as a size_t it is larger than a cluster. */
  function NextBytes(cs: nat, bytesLeft: int): int {
    if AsSize(bytesLeft) > cs then cs else bytesLeft
  }

  /** In every round the counters give the place and the length of the next piece. */
  lemma CountersRight(v: Volume, e: DirEntry, chain: seq<nat>, i: nat, bytesLeft: int, processed: int)
    requires WellFormed(v, e, chain) && i < |chain|
    requires e.size < 0x1_0000_0000 && Total(v.clusterSize, |chain| - 1) < 0x8000_0000
    requires Counted(v.clusterSize, e.size, i, bytesLeft, processed)
    ensures processed == Total(v.clusterSize, i)
    ensures var left := e.size - Total(v.clusterSize, i);
            NextBytes(v.clusterSize, bytesLeft) == if left > v.clusterSize then v.clusterSize else left
  {
    TotalGrows(v.clusterSize, i, |chain| - 1);
    Int32Exact(Total(v.clusterSize, i));
    NextBytesRight(v.clusterSize, e.size - Total(v.clusterSize, i));
  }

  lemma NextBytesRight(cs: nat, left: int)
    requires 0 < left < 0x1_0000_0000 && cs < 0x8000_0000
    ensures NextBytes(cs, Int32(left)) == if left > cs then cs else left
  {
    if left >= 0x8000_0000 {
      assert Int32(left) == left - 0x1_0000_0000;
      assert AsSize(Int32(left)) == left - 0x1_0000_0000 + 0x1_0000_0000_0000_0000;
    }
  }

  /** Reads the next piece behind what is there. */
  method ReadPiece(v: Volume, e: DirEntry, dst: array<Byte>, cluster: nat, bytes: nat, processed: nat,
                  ghost a: seq<Byte>, ghost chain: seq<nat>, ghost i: nat)
    requires WellFormed(v, e, chain) && Extent(v, e, chain) <= dst.Length
    requires i < |chain| && cluster == chain[i] && processed == Total(v.clusterSize, i)
    requires bytes == if e.size - processed > v.clusterSize then v.clusterSize else e.size - processed
    requires Progress(a, dst[..], v, e, chain, i)
    modifies dst
    ensures Progress(a, dst[..], v, e, chain, i + 1)
  {
    ghost var before := dst[..];
    ReadSize(v.clusterSize, e.size, i, |chain|);
    ReadCluster(v, cluster, bytes, dst, processed, chain, i);
    Extended(before, dst[..], Clusters(v, chain), processed, 512 * SectorsFor(bytes));
  }

  /** Reads a whole file, cluster by cluster along its chain. The two counters are of type int. */
  method ReadEntry(v: Volume, e: DirEntry, dst: array<Byte>, ghost chain: seq<nat>)
    requires WellFormed(v, e, chain) && Countable(v, e) && Extent(v, e, chain) <= dst.Length
    modifies dst
    ensures e.size <= dst.Length && dst[..e.size] == Contents(v, e, chain)
    ensures OnlyWritten(old(dst[..]), dst[..], 0, Extent(v, e, chain))
  {
    LastStartIsTotal(v, e, chain);
    ReadChain(v, e, dst, chain);
    WholeFile(old(dst[..]), dst[..], v, e, chain);
  }

  lemma WholeFile(a: seq<Byte>, b: seq<Byte>, v: Volume, e: DirEntry, chain: seq<nat>)
    requires WellFormed(v, e, chain) && Progress(a, b, v, e, chain, |chain|)
    ensures e.size <= |b| && b[..e.size] == Contents(v, e, chain)
    ensures OnlyWritten(a, b, 0, Extent(v, e, chain))
  {
  }

  /** The loop of fat_read_entry. */
  method ReadChain(v: Volume, e: DirEntry, dst: array<Byte>, ghost chain: seq<nat>)
    requires WellFormed(v, e, chain) && Extent(v, e, chain) <= dst.Length
    requires e.size < 0x1_0000_0000 && Total(v.clusterSize, |chain| - 1) < 0x8000_0000
    modifies dst
    ensures Progress(old(dst[..]), dst[..], v, e, chain, |chain|)
  {
    var bytesLeft: int := Int32(e.size);
    var processed: int := 0;
    var cluster := e.start;
    ghost var i := 0;
    ghost var a := dst[..];
    NothingRead(a, v, e, chain, bytesLeft);
    while cluster != END
      invariant 0 <= i <= |chain| && cluster == if i < |chain| then chain[i] else END
      invariant Counted(v.clusterSize, e.size, i, bytesLeft, processed)
      invariant Progress(a, dst[..], v, e, chain, i)
      decreases |chain| - i
    {
      cluster := ReadNext(v, e, dst, cluster, bytesLeft, processed, a, chain, i);
      CountedOn(v.clusterSize, e.size, i, bytesLeft, processed);
      bytesLeft := Int32(bytesLeft - v.clusterSize);
      processed := Int32(processed + v.clusterSize);
      i := i + 1;
    }
  }

  lemma NothingRead(a: seq<Byte>, v: Volume, e: DirEntry, chain: seq<nat>, bytesLeft: int)
    requires WellFormed(v, e, chain) && bytesLeft == Int32(e.size)
    ensures Counted(v.clusterSize, e.size, 0, bytesLeft, 0) && Progress(a, a, v, e, chain, 0)
  {
  }

  /** One round of fat_read_entry, and the cluster after it. */
  method ReadNext(v: Volume, e: DirEntry, dst: array<Byte>, cluster: nat, bytesLeft: int, processed: int,
                  ghost a: seq<Byte>, ghost chain: seq<nat>, ghost i: nat) returns (next: nat)
    requires WellFormed(v, e, chain) && Extent(v, e, chain) <= dst.Length
    requires e.size < 0x1_0000_0000 && Total(v.clusterSize, |chain| - 1) < 0x8000_0000
    requires i < |chain| && cluster == chain[i]
    requires Counted(v.clusterSize, e.size, i, bytesLeft, processed)
    requires Progress(a, dst[..], v, e, chain, i)
    modifies dst
    ensures Progress(a, dst[..], v, e, chain, i + 1)
    ensures next == if i + 1 < |chain| then chain[i + 1] else END
  {
    CountersRight(v, e, chain, i, bytesLeft, processed);
    var bytes := NextBytes(v.clusterSize, bytesLeft);
    ReadPiece(v, e, dst, cluster, bytes, processed, a, chain, i);
    ChainFrom(v, e.start, chain, i);
    next := v.fat[cluster];
  }

  /** All clusters but the last are read whole. */
  lemma ReadSize(cs: nat, size: nat, i: nat, n: nat)
    requires cs > 0 && cs % 512 == 0 && i < n && Total(cs, n - 1) < size <= Total(cs, n)
    ensures i < n - 1 ==> size - Total(cs, i) > cs && 512 * SectorsFor(cs) == cs && Total(cs, i + 1) <= Total(cs, n - 1)
    ensures i == n - 1 ==> 0 < size - Total(cs, i) <= cs
  {
    if i < n - 1 {
      SlotsDisjoint(cs, i, n - 1);
    }
  }

  /** What was there stays, and what was read is added behind it. */
  lemma Extended(a: seq<Byte>, b: seq<Byte>, whole: seq<Byte>, p: nat, len: nat)
    requires Copied(a, 0, whole, 0, p) && OnlyWritten(a, b, p, len) && Copied(b, p, whole, p, len)
    ensures Copied(b, 0, whole, 0, p + len)
  {
  }

  /** The cluster that `steps` table lookups lead to. */
  method FollowChain(v: Volume, e: DirEntry, steps: nat, ghost chain: seq<nat>) returns (cluster: nat)
    requires IsChain(v, e.start, chain) && steps < |chain|
    ensures cluster == chain[steps]
  {
    cluster := e.start;
    for i := 0 to steps
      invariant cluster == chain[i]
    {
      ChainFrom(v, e.start, chain, i);
      cluster := v.fat[cluster];
    }
  }

  /** The part of a range that lies in the cluster where the range starts. */
  function FirstPart(cs: nat, offset: nat, size: nat): (r: nat)
    requires cs > 0
    ensures r <= size && (r == size <==> offset % cs + size <= cs)
  {
    if size < cs - offset % cs then size else cs - offset % cs
  }

  /** Reads a range of a file into `dst`. Only the part in the first cluster arrives there: the rest is
      copied inside the scratch buffer of one cluster, which holds it if the range is no longer than a
      cluster. The loop for whole further clusters is not entered then. */
  method ReadEntryOffsetSize(v: Volume, e: DirEntry, dst: array<Byte>, offset: nat, size: nat, ghost chain: seq<nat>)
    requires WellFormed(v, e, chain) && offset < 0x8000_0000 && size <= v.clusterSize
    requires offset < Total(v.clusterSize, |chain|) && offset + size <= Total(v.clusterSize, |chain|)
    requires FirstPart(v.clusterSize, offset, size) <= dst.Length
    modifies dst
    ensures RangeRead(v, chain, offset, size, old(dst[..]), dst[..])
  {
    var buffer := new Byte[v.clusterSize];
    var firstIndex := offset / v.clusterSize;
    var firstOffset := offset % v.clusterSize;
    InChain(v, chain, offset);
    var cluster := FollowChain(v, e, firstIndex, chain);
    var outIndex := FirstPart(v.clusterSize, offset, size);
    WrittenFits(v.clusterSize, 0, v.clusterSize);
    ReadCluster(v, cluster, v.clusterSize, buffer, 0, chain, firstIndex);
    Memcpy(dst, 0, buffer[..], firstOffset, outIndex);
    PartOfCopy(buffer[..], dst[..], Clusters(v, chain), offset - firstOffset, v.clusterSize, firstOffset, outIndex);
    ChainFrom(v, e.start, chain, firstIndex);
    cluster := v.fat[cluster];
    if size - outIndex > 0 {
      ReadRest(v, cluster, buffer, outIndex, size - outIndex, chain, firstIndex + 1);
    }
  }

  /** The last piece of a range over two clusters: it is read into the scratch buffer and copied there. */
  method ReadRest(v: Volume, cluster: nat, buffer: array<Byte>, outIndex: nat, remaining: nat,
                  ghost chain: seq<nat>, ghost i: nat)
    requires ValidVolume(v) && AllData(v, chain) && i < |chain| && cluster == chain[i]
    requires buffer.Length == v.clusterSize && 0 < remaining && outIndex + remaining <= v.clusterSize
    modifies buffer
  {
    WrittenFits(v.clusterSize, 0, remaining);
    ReadCluster(v, cluster, remaining, buffer, 0, chain, i);
    for k := 0 to remaining
    {
      buffer[outIndex + k] := buffer[k];
    }
  }

  /** `b` is `a` after reading a range of the file into it: the part in the first cluster is there. */
  ghost predicate RangeRead(v: Volume, chain: seq<nat>, offset: nat, size: nat, a: seq<Byte>, b: seq<Byte>)
    requires ValidVolume(v) && AllData(v, chain)
  {
    && Copied(b, 0, Clusters(v, chain), offset, FirstPart(v.clusterSize, offset, size))
    && OnlyWritten(a, b, 0, FirstPart(v.clusterSize, offset, size))
  }

  /** What a destination may hold so that a range over two clusters does not arrive. */
  lemma RangeLost(v: Volume, chain: seq<nat>, offset: nat, size: nat) returns (a: seq<Byte>)
    requires ValidVolume(v) && AllData(v, chain) && offset + size <= Total(v.clusterSize, |chain|)
    requires offset % v.clusterSize + size > v.clusterSize
    ensures |a| == size && RangeRead(v, chain, offset, size, a, a)
    ensures !Copied(a, 0, Clusters(v, chain), offset, size)
  {
    var first, whole := FirstPart(v.clusterSize, offset, size), Clusters(v, chain);
    var other: Byte := if whole[offset + first] == 0 then 1 else 0;
    a := whole[offset..offset + first] + seq(size - first, _ => other);
    assert a[first] == other;
    assert Copied(a, 0, whole, offset, first);
  }

  /** The whole range arrives, whatever the destination held before, exactly if it lies inside one
      cluster. */
  lemma RangeArrives(v: Volume, chain: seq<nat>, offset: nat, size: nat)
    requires ValidVolume(v) && AllData(v, chain) && offset + size <= Total(v.clusterSize, |chain|)
    ensures (forall a, b :: |a| >= size && RangeRead(v, chain, offset, size, a, b) ==>
                            Copied(b, 0, Clusters(v, chain), offset, size)) <==>
            offset % v.clusterSize + size <= v.clusterSize
  {
    if offset % v.clusterSize + size > v.clusterSize {
      var a := RangeLost(v, chain, offset, size);
    }
  }

  lemma PartOfCopy(a: seq<Byte>, b: seq<Byte>, whole: seq<Byte>, from: nat, len: nat, r: nat, n: nat)
    requires Copied(a, 0, whole, from, len) && r + n <= len && n <= |b|
    requires forall k :: 0 <= k < n ==> b[k] == a[r + k]
    ensures Copied(b, 0, whole, from + r, n)
  {
  }

  lemma InChain(v: Volume, chain: seq<nat>, offset: nat)
    requires v.clusterSize > 0 && offset < Total(v.clusterSize, |chain|)
    ensures offset / v.clusterSize < |chain|
    ensures Total(v.clusterSize, offset / v.clusterSize) + offset % v.clusterSize == offset
    ensures offset % v.clusterSize < v.clusterSize
    ensures Total(v.clusterSize, offset / v.clusterSize) + v.clusterSize <= Total(v.clusterSize, |chain|)
  {
    var q := offset / v.clusterSize;
    TotalQuotient(v.clusterSize, offset);
    if |chain| < q {
      SlotsDisjoint(v.clusterSize, |chain|, q);
    }
    SlotsDisjoint(v.clusterSize, q, |chain|);
  }

  /** Reads the `k`-th cluster of a file; nothing happens when the chain is too short. */
  method ReadEntryClusterOffset(v: Volume, e: DirEntry, dst: array<Byte>, k: int, ghost chain: seq<nat>)
    requires ValidVolume(v) && IsChain(v, e.start, chain) && v.clusterSize <= dst.Length
    modifies dst
    ensures var n: nat := if k < 0 then 0 else k;
            if n < |chain| then
              DataCluster(v, chain[n]) && dst[..v.clusterSize] == ClusterBytes(v, chain[n])
              && OnlyWritten(old(dst[..]), dst[..], 0, v.clusterSize)
            else dst[..] == old(dst[..])
  {
    var index := 0;
    var cluster := e.start;
    while cluster != END && index < k
      invariant 0 <= index <= |chain| && (index <= k || index == 0)
      invariant cluster == if index < |chain| then chain[index] else END
      invariant dst[..] == old(dst[..])
      decreases |chain| - index
    {
      ChainFrom(v, e.start, chain, index);
      cluster := v.fat[cluster];
      index := index + 1;
    }
    ChainAllData(v, e.start, chain);
    if cluster == END {
      NoEndInside(v, chain, index);
      return;
    }
    ReadWholeCluster(v, cluster, dst, chain, index);
  }

  method ReadWholeCluster(v: Volume, cluster: nat, dst: array<Byte>, ghost chain: seq<nat>, ghost i: nat)
    requires ValidVolume(v) && AllData(v, chain) && i < |chain| && cluster == chain[i] && v.clusterSize <= dst.Length
    modifies dst
    ensures dst[..v.clusterSize] == ClusterBytes(v, cluster)
    ensures OnlyWritten(old(dst[..]), dst[..], 0, v.clusterSize)
  {
    WrittenFits(v.clusterSize, 0, v.clusterSize);
    ReadCluster(v, cluster, v.clusterSize, dst, 0, chain, i);
    forall r: nat | r < v.clusterSize
      ensures dst[r] == ClusterBytes(v, cluster)[r]
    {
      ClustersAt(v, chain, i, r);
      assert dst[r] == dst[..][r];
    }
  }

  lemma NoEndInside(v: Volume, chain: seq<nat>, i: nat)
    requires AllData(v, chain) && i <= |chain| && (if i < |chain| then chain[i] else END) == END
    ensures i == |chain|
  {
  }
}
