/** Number printing: uint64_to_string of kernel/log.c with strrev and strcpy of kernel/string.c. */
module Numerals {
  import opened Bits

  const NUL: char := '\0'

  // ---------------------------------------------------------------- digits

  function Digit(d: nat): char
    requires d < 36
  {
    if d < 10 then d as char + '0' else (d - 10) as char + 'a'
  }

  function DigitValue(c: char): nat {
    if '0' <= c <= '9' then (c - '0') as int
    else if 'a' <= c <= 'z' then (c - 'a') as int + 10
    else 0
  }

  lemma DigitRoundTrip(d: nat)
    requires d < 36
    ensures DigitValue(Digit(d)) == d && Digit(d) != NUL
  {
  }

  /** The digits of a number, lowest first; none for zero. */
  function Digits(n: nat, base: nat): (r: string)
    requires 2 <= base <= 36
    decreases n
  {
    if n == 0 then [] else
    Shrinks(n, base);
    [Digit(n % base)] + Digits(n / base, base)
  }

  function Reversed(s: string): (r: string)
    ensures |r| == |s| && forall i :: 0 <= i < |s| ==> r[i] == s[|s| - 1 - i]
  {
    if s == [] then [] else Reversed(s[1..]) + [s[0]]
  }

  /** The numeral: highest digit first, and a single 0 for zero. */
  function Numeral(n: nat, base: nat): string
    requires 2 <= base <= 36
  {
    if n == 0 then "0" else Reversed(Digits(n, base))
  }

  /** Reading a numeral from left to right. */
  function Parse(s: string, base: nat): nat {
    if s == [] then 0 else Parse(s[..|s| - 1], base) * base + DigitValue(s[|s| - 1])
  }

  lemma {:induction false} ParseReversed(n: nat, base: nat)
    requires 2 <= base <= 36
    ensures Parse(Reversed(Digits(n, base)), base) == n
    decreases n
  {
    if n > 0 {
      var q, d := n / base, n % base;
      Shrinks(n, base);
      DivMod(n, base);
      DigitRoundTrip(d);
      ParseReversed(q, base);
      assert Digits(n, base) == [Digit(d)] + Digits(q, base);
      ReversedLast(Digit(d), Digits(q, base));
      ParseLast(Reversed(Digits(q, base)), Digit(d), base);
    }
  }

  lemma Shrinks(n: nat, base: nat)
    requires n > 0 && base >= 2
    ensures 0 <= n / base < n
  {
    DivMod(n, base);
    MultipleBelow(n / base, base);
  }

  lemma LastOf(c: char, s: string)
    requires s != []
    ensures ([c] + s)[|s|] == s[|s| - 1]
  {
  }

  lemma ReversedLast(c: char, s: string)
    ensures Reversed([c] + s) == Reversed(s) + [c]
  {
    assert ([c] + s)[1..] == s;
  }

  lemma ParseLast(s: string, c: char, base: nat)
    ensures Parse(s + [c], base) == Parse(s, base) * base + DigitValue(c)
  {
    assert (s + [c])[..|s|] == s;
  }

  lemma DivMod(n: nat, base: nat)
    requires base > 0
    ensures n / base * base + n % base == n
  {
  }

  /** Printing and reading back gives the number. */
  lemma ParseNumeral(n: nat, base: nat)
    requires 2 <= base <= 36
    ensures Parse(Numeral(n, base), base) == n
  {
    ParseReversed(n, base);
    assert n == 0 ==> Parse("0"[..0], base) == 0;
  }

  /** The characters of the digits. */
  lemma DigitTable(d: nat)
    requires d < 36
    ensures Digit(d) == "0123456789abcdefghijklmnopqrstuvwxyz"[d]
  {
  }

  lemma QuotientOfQuotient(n: nat, b: nat, p: nat)
    requires b > 0 && p > 0
    ensures p * b > 0 && n / b / p == n / (p * b)
  {
    var q, r, t := n / b / p, n / b % p, n % b;
    DivMod(n, b);
    DivMod(n / b, p);
    Regrouped(q, p, r, b);
    Distribute(p, r, b);
    MultipleBelow(p - r, b);
    QuotientUnique(n, p * b, q, r * b + t);
  }

  lemma Regrouped(q: nat, p: nat, r: nat, b: nat)
    ensures (q * p + r) * b == q * (p * b) + r * b
  {
  }

  /** The digit of weight base^i. */
  function Place(n: nat, base: nat, i: nat): (d: nat)
    requires base > 0
    ensures d < base
    decreases i
  {
    DivMod(n, base);
    if i == 0 then n % base else Place(n / base, base, i - 1)
  }

  lemma {:induction false} PlaceIsQuotient(n: nat, base: nat, i: nat)
    requires base > 0
    ensures Place(n, base, i) == n / Power(base, i) % base
    decreases i
  {
    if i > 0 {
      PlaceIsQuotient(n / base, base, i - 1);
      QuotientOfQuotient(n, base, Power(base, i - 1));
    }
  }

  /** Character `i` of the digits, lowest first, shows the digit of weight base^i. */
  lemma {:induction false} DigitsAt(n: nat, base: nat, i: nat)
    requires 2 <= base <= 36 && i < |Digits(n, base)|
    ensures Digits(n, base)[i] == Digit(Place(n, base, i))
    decreases i
  {
    var q, d := n / base, n % base;
    Shrinks(n, base);
    assert Digits(n, base) == [Digit(d)] + Digits(q, base);
    if i > 0 {
      DigitsAt(q, base, i - 1);
    }
  }

  /** The numeral of a positive number, character by character: its digits with the highest first. */
  lemma NumeralAt(n: nat, base: nat, i: nat)
    requires 2 <= base <= 36 && n > 0 && i < |Numeral(n, base)|
    ensures Numeral(n, base)[|Numeral(n, base)| - 1 - i] == Digit(Place(n, base, i))
  {
    var s := Digits(n, base);
    assert Numeral(n, base) == Reversed(s);
    DigitsAt(n, base, i);
    ReversedFromEnd(s, i);
  }

  lemma ReversedFromEnd(s: string, i: nat)
    requires i < |s|
    ensures Reversed(s)[|s| - 1 - i] == s[i]
  {
  }

  /** The numeral of zero is one character. */
  lemma NumeralOfZero(base: nat)
    requires 2 <= base <= 36
    ensures Numeral(0, base) == "0"
  {
  }

  /** Only zero starts with the digit 0. */
  lemma {:induction false} NoLeadingZero(n: nat, base: nat)
    requires 2 <= base <= 36 && n > 0
    ensures Digits(n, base) != [] && Digits(n, base)[|Digits(n, base)| - 1] != '0'
    decreases n
  {
    var q, d := n / base, n % base;
    assert Digits(n, base) == [Digit(d)] + Digits(q, base);
    Shrinks(n, base);
    if q > 0 {
      NoLeadingZero(q, base);
      LastOf(Digit(d), Digits(q, base));
    } else {
      DivMod(n, base);
      DigitRoundTrip(d);
      assert Digits(q, base) == [];
    }
  }

  // ---------------------------------------------------------------- how many digits there are

  /** A number has at most k digits exactly when it is below base^k. */
  lemma {:induction false} DigitCount(n: nat, base: nat, k: nat)
    requires 2 <= base <= 36
    ensures |Digits(n, base)| <= k <==> n < Power(base, k)
    decreases k
  {
    if k > 0 && n > 0 {
      DigitCount(n / base, base, k - 1);
      QuotientBelow(n, base, Power(base, k - 1));
    }
  }

  lemma QuotientBelow(n: nat, base: nat, p: nat)
    requires base > 0
    ensures n / base < p <==> n < p * base
  {
    DivMod(n, base);
    Distribute(p, n / base, base);
    MultipleBelow(p - n / base, base);
  }

  lemma {:induction false} PowerGrows(a: nat, b: nat, k: nat)
    requires a <= b
    ensures Power(a, k) <= Power(b, k)
  {
    if k > 0 {
      PowerGrows(a, b, k - 1);
      ProductGrows(Power(a, k - 1), Power(b, k - 1), a, b);
    }
  }

  /** From base 3 on, every 64-bit number fits the buffer of 50 characters. */
  lemma FitsBuffer(n: nat, base: nat)
    requires 3 <= base <= 36 && n < 0x1_0000_0000_0000_0000
    ensures |Digits(n, base)| <= 49
  {
    PowerOfThree();
    PowerGrows(3, base, 49);
    DigitCount(n, base, 49);
  }

  lemma PowerOfThree()
    ensures Power(3, 49) >= 0x1_0000_0000_0000_0000
  {
    assert Power(3, 10) == 59049;
    assert Power(3, 20) == 3486784401;
    assert Power(3, 30) == 205891132094649;
    assert Power(3, 40) == 12157665459056928801;
    assert Power(3, 49) == 239299329230617529590083;
  }

  /** In base 2 it does not: the largest numbers need more than 49 digits. */
  lemma BinaryOverflows(n: nat)
    ensures |Digits(n, 2)| <= 49 <==> n < 0x2_0000_0000_0000
  {
    assert Power(2, 10) == 0x400;
    assert Power(2, 20) == 0x10_0000;
    assert Power(2, 30) == 0x4000_0000;
    assert Power(2, 40) == 0x100_0000_0000;
    assert Power(2, 49) == 0x2_0000_0000_0000;
    DigitCount(n, 2, 49);
  }

  // ---------------------------------------------------------------- the kernel's routines

  /** `a` holds the string `s` from its start, ended by NUL. */
  predicate Text(a: seq<char>, s: string) {
    |s| < |a| && a[..|s|] == s && a[|s|] == NUL && NUL !in s
  }

  method StrLen(a: array<char>, ghost s: string) returns (n: nat)
    requires Text(a[..], s)
    ensures n == |s|
  {
    n := 0;
    while a[n] != NUL
      invariant n <= |s|
      decreases |s| - n
    {
      n := n + 1;
    }
  }

  /** Reverses a string in place. Its length is an int. */
  method StrRev(a: array<char>, ghost s: string)
    requires Text(a[..], s) && |s| < 0x8000_0000
    modifies a
    ensures Text(a[..], Reversed(s))
    ensures forall k :: |s| <= k < a.Length ==> a[k] == old(a[k])
  {
    var len := StrLen(a, s);
    var left, right := 0, len - 1;
    while left < right
      invariant 0 <= left <= right + 1 && left + right == len - 1 && right < len
      invariant forall k :: left <= k <= right ==> a[k] == s[k]
      invariant forall k :: 0 <= k < left ==> a[k] == s[len - 1 - k]
      invariant forall k :: right < k < len ==> a[k] == s[len - 1 - k]
      invariant forall k :: len <= k < a.Length ==> a[k] == old(a[k])
    {
      a[left], a[right] := a[right], a[left];
      left := left + 1;
      right := right - 1;
    }
    assert a[..len] == Reversed(s);
  }

  /** Copies a string and says where its NUL is. */
  method StrCpy(dst: array<char>, src: array<char>, ghost s: string) returns (end: nat)
    requires Text(src[..], s) && |s| < dst.Length && dst != src
    modifies dst
    ensures Text(dst[..], s) && end == |s|
    ensures forall k :: |s| < k < dst.Length ==> dst[k] == old(dst[k])
  {
    var i := 0;
    while src[i] != NUL
      invariant i <= |s| && dst[..i] == s[..i]
      invariant forall k :: i <= k < dst.Length ==> dst[k] == old(dst[k])
      decreases |s| - i
    {
      dst[i] := src[i];
      i := i + 1;
    }
    dst[i] := NUL;
    assert dst[..|s|] == s;
    return i;
  }

  /** Prints `num` into `str`: digits lowest first into a buffer, reversed in place, then copied out. */
  method ToString(str: array<char>, num: nat, base: nat)
    requires 2 <= base <= 36 && |Digits(num, base)| <= 49
    requires |Numeral(num, base)| < str.Length
    modifies str
    ensures Text(str[..], Numeral(num, base))
  {
    var buffer := new char[50];
    ghost var s: string;
    if num == 0 {
      buffer[0] := '0';
      buffer[1] := NUL;
      s := "0";
    } else {
      s := Digits(num, base);
      WriteDigits(buffer, num, base);
    }
    assert Text(buffer[..], s);
    StrRev(buffer, s);
    var _ := StrCpy(str, buffer, Reversed(s));
  }

  lemma AppendDigit(s: string, written: string, d: nat, rest: string)
    requires d < 36 && s == written + ([Digit(d)] + rest) && NUL !in written
    ensures s == (written + [Digit(d)]) + rest && NUL !in written + [Digit(d)] && |written| < |s|
  {
    DigitRoundTrip(d);
  }

  /** The division loop. */
  method WriteDigits(buffer: array<char>, num: nat, base: nat)
    requires 2 <= base <= 36 && |Digits(num, base)| <= 49 && buffer.Length == 50
    modifies buffer
    ensures Text(buffer[..], Digits(num, base))
  {
    ghost var s := Digits(num, base);
    var n: nat, i: nat := num, 0;
    while n > 0
      invariant 0 <= i <= |s| && s == buffer[..i] + Digits(n, base)
      invariant NUL !in buffer[..i]
      decreases n
    {
      var mod, quot := n % base, n / base;
      Shrinks(n, base);
      AppendDigit(s, buffer[..i], mod, Digits(quot, base));
      ghost var written := buffer[..i];
      buffer[i] := Digit(mod);
      assert buffer[..i + 1] == written + [Digit(mod)];
      n, i := quot, i + 1;
    }
    buffer[i] := NUL;
    assert buffer[..i] == s;
  }
}
