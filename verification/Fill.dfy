/** The word-wise memset of kernel/string.c, against a fill byte by byte.

    A 64-bit word is the sequence of its eight bytes, lowest first, as it lies in memory. */
module Fill {
  import opened Bits

  type Word = w: seq<bv8> | |w| == 8 witness [0, 0, 0, 0, 0, 0, 0, 0]

  const ZERO: Word := [0, 0, 0, 0, 0, 0, 0, 0]

  /** w << 8 */
  function ShiftByte(w: Word): Word { [0] + w[..7] }

  /** a | b */
  function OrWords(a: Word, b: Word): Word { seq(8, i requires 0 <= i < 8 => a[i] | b[i]) }

  /** The word after shifting and or-ing `c` in `n` times. */
  function Repeated(c: Word, n: nat): Word {
    if n == 0 then ZERO else OrWords(ShiftByte(Repeated(c, n - 1)), c)
  }

  /** The bytes 0 to `k` of `c`, or-ed together. */
  function Union(c: Word, k: nat): bv8
    requires k < 8
  {
    if k == 0 then c[0] else Union(c, k - 1) | c[k]
  }

  lemma {:induction false} RepeatedIsUnion(c: Word, n: nat, k: nat)
    requires k < n <= 8
    ensures Repeated(c, n)[k] == Union(c, k)
  {
    if k > 0 {
      RepeatedIsUnion(c, n - 1, k - 1);
    }
  }

  /** No byte of `c` has a bit that its lowest byte lacks. */
  predicate Covered(c: Word) {
    forall k :: 0 <= k < 8 ==> c[k] | c[0] == c[0]
  }

  lemma {:induction false} UnionCovered(c: Word, k: nat)
    requires k < 8 && Covered(c)
    ensures Union(c, k) == c[0]
  {
    if k > 0 {
      UnionCovered(c, k - 1);
      OrCommutes(c[0], c[k]);
    }
  }

  lemma OrCommutes(a: bv8, b: bv8)
    ensures a | b == b | a
  {
  }

  lemma OrAbsorbs(a: bv8, b: bv8, x: bv8)
    requires a | b == x
    ensures b | x == x
  {
  }

  /** Byte `k` of an int converted to uint64_t, in two's complement. */
  function ByteOf(c: int, k: nat): (r: int)
    ensures 0 <= r < 256
    decreases k
  {
    if k == 0 then c % 256 else ByteOf(c / 256, k - 1)
  }

  /** An int converted to uint64_t. */
  function WordOf(c: int): Word {
    seq(8, k requires 0 <= k < 8 => ByteOf(c, k) as bv8)
  }

  lemma {:induction false} SmallBytes(c: int, k: nat)
    requires 0 <= c < 256 && k > 0
    ensures ByteOf(c, k) == 0
  {
    if k > 1 {
      SmallBytes(0, k - 1);
    }
  }

  /** Numbers from 0 to 255 are a lowest byte and zeros. */
  lemma ByteWord(c: int)
    requires 0 <= c < 256
    ensures WordOf(c)[0] == c as bv8 && Covered(WordOf(c))
  {
    forall k | 0 < k < 8
      ensures WordOf(c)[k] == 0
    {
      SmallBytes(c, k);
    }
    ByteValueCovered(WordOf(c));
  }

  /** The repeated word is the lowest byte of `c` eight times. */
  predicate FillsWord(c: Word) {
    forall k :: 0 <= k < 8 ==> Repeated(c, 8)[k] == c[0]
  }

  /** That is so exactly when the lowest byte covers the others. */
  lemma CoveredFillsWord(c: Word)
    ensures Covered(c) <==> FillsWord(c)
  {
    if Covered(c) {
      forall k | 0 <= k < 8
        ensures Repeated(c, 8)[k] == c[0]
      {
        RepeatedIsUnion(c, 8, k);
        UnionCovered(c, k);
      }
    }
    if FillsWord(c) {
      forall k | 0 <= k < 8
        ensures c[k] | c[0] == c[0]
      {
        RepeatedIsUnion(c, 8, k);
        assert Repeated(c, 8)[k] == c[0];
        UnionCovers(c, k);
      }
    }
  }

  lemma UnionCovers(c: Word, k: nat)
    requires k < 8 && Union(c, k) == c[0]
    ensures c[k] | c[0] == c[0]
  {
    if k == 0 {
      ZeroIsCovered(c[0]);
    } else {
      OrAbsorbs(Union(c, k - 1), c[k], c[0]);
    }
  }

  /** A byte value: what memset is specified for. */
  lemma ByteValueCovered(c: Word)
    requires forall k :: 0 < k < 8 ==> c[k] == 0
    ensures Covered(c)
  {
    ZeroIsCovered(c[0]);
  }

  lemma ZeroIsCovered(b: bv8)
    ensures 0 | b == b && b | b == b
  {
  }

  /** memset(p, 0x100, 8) should store zeros; it stores ones above the lowest byte. */
  lemma NotCoveredExample()
    ensures WordOf(0x100) == [0, 1, 0, 0, 0, 0, 0, 0] && !Covered([0, 1, 0, 0, 0, 0, 0, 0])
    ensures Repeated([0, 1, 0, 0, 0, 0, 0, 0], 8)[1] == 1
  {
    var c: Word := [0, 1, 0, 0, 0, 0, 0, 0];
    assert ByteOf(0x100, 1) == ByteOf(1, 0) == 1;
    forall k | 2 <= k < 8
      ensures ByteOf(0x100, k) == 0
    {
      assert ByteOf(0x100, k) == ByteOf(1, k - 1);
      SmallBytes(1, k - 1);
    }
    assert WordOf(0x100) == c;
    assert c[1] | c[0] == 1;
    RepeatedIsUnion(c, 8, 1);
    assert Union(c, 1) == c[0] | c[1];
  }

  /** What the word-wise memset leaves at position `j` of an area of `n` bytes. */
  function Stored(c: Word, n: nat, j: nat): bv8
    requires j < n
  {
    if j < n / 8 * 8 then Repeated(c, 8)[j % 8] else c[0]
  }

  method WriteWord(a: array<bv8>, at: nat, w: Word)
    requires at + 8 <= a.Length
    modifies a
    ensures forall k :: 0 <= k < a.Length ==> a[k] == if at <= k < at + 8 then w[k - at] else old(a[k])
  {
    for i := 0 to 8
      invariant forall k :: 0 <= k < a.Length ==> a[k] == if at <= k < at + i then w[k - at] else old(a[k])
    {
      a[at + i] := w[i];
    }
  }

  /** The number of words and the number of bytes in them are ints. They are right exactly for fewer
      than 2^31 bytes. */
  lemma IntsExact(n: nat)
    requires n < 0x1_0000_0000_0000_0000
    ensures Int32(n / 8) == n / 8 && Int32(n / 8 * 8) == n / 8 * 8 <==> n < 0x8000_0000
  {
    Int32Exact(n / 8);
    Int32Exact(n / 8 * 8);
  }

  /** For 2^31 + 4 bytes the last four would go 2^31 bytes below the area. */
  lemma LongFillExample()
    ensures var n := 0x8000_0004;
            Int32(n / 8) == n / 8 && Int32(n / 8 * 8) == -0x8000_0000 && n - n / 8 * 8 == 4
  {
  }

  /** memset, from the converted argument on. */
  method MemsetWord(a: array<bv8>, c: Word, n: nat)
    requires n <= a.Length && n < 0x8000_0000
    modifies a
    ensures forall j :: 0 <= j < n ==> a[j] == Stored(c, n, j)
    ensures forall j :: n <= j < a.Length ==> a[j] == old(a[j])
    ensures (n < 8 || Covered(c)) <==> forall j :: 0 <= j < n ==> a[j] == c[0]
  {
    var big := ZERO;
    for i := 0 to 8
      invariant big == Repeated(c, i)
    {
      big := OrWords(ShiftByte(big), c);
    }
    var bigWrites := n / 8;
    for i := 0 to bigWrites
      invariant forall j :: 0 <= j < 8 * i ==> a[j] == big[j % 8]
      invariant forall j :: 8 * i <= j < a.Length ==> a[j] == old(a[j])
    {
      WriteWord(a, 8 * i, big);
    }
    for i := 0 to n - 8 * bigWrites
      invariant forall j :: 0 <= j < 8 * bigWrites ==> a[j] == big[j % 8]
      invariant forall j :: 8 * bigWrites <= j < 8 * bigWrites + i ==> a[j] == c[0]
      invariant forall j :: 8 * bigWrites + i <= j < a.Length ==> a[j] == old(a[j])
    {
      a[8 * bigWrites + i] := c[0];
    }
    StoredFills(c, n);
  }

  /** The stored bytes are those of a byte-by-byte fill exactly when no whole word is written or the
      lowest byte covers the others. */
  lemma StoredFills(c: Word, n: nat)
    requires n < 0x8000_0000
    ensures (n < 8 || Covered(c)) <==> forall j :: 0 <= j < n ==> Stored(c, n, j) == c[0]
  {
    CoveredFillsWord(c);
    if FillsWord(c) {
      forall j | 0 <= j < n
        ensures Stored(c, n, j) == c[0]
      {
        assert 0 <= j % 8 < 8;
      }
    } else if n >= 8 {
      var k :| 0 <= k < 8 && Repeated(c, 8)[k] != c[0];
      assert Stored(c, n, k) != c[0];
    }
  }

  /** memset. For the values 0 to 255 it is the byte fill of the C standard; in general it is one exactly
      if no word is written or the lowest byte covers the others. */
  method Memset(a: array<bv8>, c: int, n: nat)
    requires n <= a.Length && n < 0x8000_0000
    modifies a
    ensures forall j :: n <= j < a.Length ==> a[j] == old(a[j])
    ensures (n < 8 || Covered(WordOf(c))) <==> forall j :: 0 <= j < n ==> a[j] == WordOf(c)[0]
    ensures 0 <= c < 256 ==> forall j :: 0 <= j < n ==> a[j] == c as bv8
  {
    MemsetWord(a, WordOf(c), n);
    if 0 <= c < 256 {
      ByteWord(c);
    }
  }
}
