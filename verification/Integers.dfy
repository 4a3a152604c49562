/** Conversions between numbers, byte strings and bit strings. */
module Integers {
  import opened Prelude
  import opened Oaep

  // ---------------------------------------------------------------- numbers

  function Power256(k: nat): nat {
    if k == 0 then 1 else 256 * Power256(k - 1)
  }

  /** The sum of each byte times its weight. */
  function BytesToLong(s: Bytes): nat {
    if s == [] then 0 else s[0] * Power256(|s| - 1) + BytesToLong(s[1..])
  }

  /** The digits of a number to the base 256, none for zero. */
  function Digits256(n: nat): Bytes {
    if n == 0 then [] else Digits256(n / 256) + [n % 256]
  }

  function Reversed(s: Bytes): (r: Bytes)
    ensures |r| == |s|
  {
    if s == [] then [] else Reversed(s[1..]) + [s[0]]
  }

  lemma {:induction false} ReversedSnoc(s: Bytes, x: Byte)
    ensures Reversed(s + [x]) == [x] + Reversed(s)
  {
    if s == [] {
      assert Reversed([x]) == Reversed([]) + [x];
    } else {
      assert (s + [x])[0] == s[0] && (s + [x])[1..] == s[1..] + [x];
      ReversedSnoc(s[1..], x);
    }
  }

  lemma DigitsStep(rest: nat, chars: Bytes)
    requires rest > 0
    ensures Digits256(rest) + Reversed(chars) == Digits256(rest / 256) + Reversed(chars + [rest % 256])
  {
    var d: Byte := rest % 256;
    ReversedSnoc(chars, d);
    assert Digits256(rest) == Digits256(rest / 256) + [d];
    Associates(Digits256(rest / 256), [d], Reversed(chars));
  }

  /** A big-endian byte string of a number; of a negative one it is empty. */
  method BigIntToBytes(n: int) returns (r: Bytes)
    ensures r == if n > 0 then Digits256(n) else []
    ensures BytesToLong(r) == n <==> n >= 0
  {
    var rest := n;
    var chars: Bytes := [];
    while rest > 0
      invariant n > 0 ==> rest >= 0 && Digits256(n) == Digits256(rest) + Reversed(chars)
      invariant n <= 0 ==> rest == n && chars == []
      decreases rest
    {
      DigitsStep(rest, chars);
      chars := chars + [rest % 256];
      rest := rest / 256;
    }
    r := Reversed(chars);
    if n > 0 {
      assert Digits256(0) == [];
      DigitsHaveValue(n);
    }
  }

  lemma {:induction false} LongSnoc(s: Bytes, b: Byte)
    ensures BytesToLong(s + [b]) == BytesToLong(s) * 256 + b
  {
    if s == [] {
      assert [b][1..] == [] && Power256(0) == 1;
    } else {
      assert (s + [b])[0] == s[0] && (s + [b])[1..] == s[1..] + [b];
      LongSnoc(s[1..], b);
      var p := Power256(|s| - 1);
      assert Power256(|s|) == 256 * p;
      assert s[0] * (256 * p) == (s[0] * p) * 256 by { Regroup(s[0], p); }
    }
  }

  lemma Regroup(a: nat, p: nat)
    ensures a * (256 * p) == (a * p) * 256
  {
  }

  /** The bytes of a number have its value. */
  lemma {:induction false} DigitsHaveValue(n: nat)
    ensures BytesToLong(Digits256(n)) == n
  {
    if n > 0 {
      DigitsHaveValue(n / 256);
      LongSnoc(Digits256(n / 256), n % 256);
    }
  }

  lemma {:induction false} DigitsOfValue(s: Bytes)
    requires s != [] ==> s[0] != 0
    ensures Digits256(BytesToLong(s)) == s
    ensures BytesToLong(s) == 0 <==> s == []
    decreases |s|
  {
    if s != [] {
      var front, last := s[..|s| - 1], s[|s| - 1];
      assert s == front + [last];
      LongSnoc(front, last);
      DigitsOfValue(front);
      var v := BytesToLong(front);
      assert (v * 256 + last) / 256 == v && (v * 256 + last) % 256 == last;
    }
  }

  lemma {:induction false} ZerosHaveNoValue(n: nat, s: Bytes)
    ensures BytesToLong(Repeat(0 as Byte, n) + s) == BytesToLong(s)
  {
    if n == 0 {
      assert Repeat(0 as Byte, 0) + s == s;
    } else {
      assert (Repeat(0 as Byte, n) + s)[1..] == Repeat(0 as Byte, n - 1) + s;
      ZerosHaveNoValue(n - 1, s);
    }
  }

  /** The bytes of the value of a string are the string without its leading zeros. */
  lemma ValueHasStrippedDigits(s: Bytes)
    ensures Digits256(BytesToLong(s)) == Strip(s)
  {
    ZerosHaveNoValue(|s| - |Strip(s)|, Strip(s));
    DigitsOfValue(Strip(s));
  }

  /** Trims leading zeros, but keeps one byte. */
  function TrimBytes(s: Bytes): Bytes {
    var trimmed := Strip(s);
    if trimmed == [] then [0] else trimmed
  }

  /** Trimming depends on the value alone, so padding a number with zeros never changes a key's identifier. */
  lemma TrimDependsOnValue(a: Bytes, b: Bytes)
    ensures TrimBytes(a) == TrimBytes(b) <==> BytesToLong(a) == BytesToLong(b)
    ensures BytesToLong(TrimBytes(a)) == BytesToLong(a)
  {
    ValueHasStrippedDigits(a);
    ValueHasStrippedDigits(b);
    DigitsHaveValue(BytesToLong(a));
    DigitsHaveValue(BytesToLong(b));
    assert BytesToLong([0]) == 0;
    assert Strip(a) == [0] ==> false;
    assert Strip(b) == [0] ==> false;
  }

  // ---------------------------------------------------------------- bits

  /** The binary digits of a number. */
  function IntToBin(n: nat): (r: string)
    ensures r != [] && forall c :: c in r ==> c == '0' || c == '1'
  {
    if n == 0 then "0"
    else if n == 1 then "1"
    else if n % 2 == 0 then IntToBin(n / 2) + "0"
    else IntToBin(n / 2) + "1"
  }

  /** Zeros in front up to a multiple of eight. */
  function PadByte(bits: string): (r: string)
    ensures |r| % 8 == 0
  {
    Repeat('0', (8 - |bits| % 8) % 8) + bits
  }

  predicate AreBits(s: string) {
    forall c :: c in s ==> c == '0' || c == '1'
  }

  /** int(x, 2). */
  function BitsValue(bits: string): nat {
    if bits == [] then 0 else 2 * BitsValue(bits[..|bits| - 1]) + if bits[|bits| - 1] == '1' then 1 else 0
  }

  function BytesToBin(s: Bytes): string {
    if s == [] then [] else PadByte(IntToBin(s[0])) + BytesToBin(s[1..])
  }

  lemma {:induction false} BitsBound(bits: string, k: nat)
    requires |bits| <= k
    ensures BitsValue(bits) < Pow2(k)
    decreases k
  {
    if bits != [] {
      BitsBound(bits[..|bits| - 1], k - 1);
    } else if k > 0 {
      BitsBound(bits, k - 1);
    }
  }

  lemma EightBits(bits: string)
    requires |bits| == 8
    ensures BitsValue(bits) < 256
  {
    BitsBound(bits, 8);
    EightBitsSuffice();
  }

  /** The bytes of a bit string whose length is a multiple of eight. */
  function Octets(bits: string): Bytes
    requires |bits| % 8 == 0
  {
    if bits == [] then []
    else
      EightBits(bits[..8]);
      [BitsValue(bits[..8])] + Octets(bits[8..])
  }

  function BinToBytes(bits: string): Bytes {
    Octets(PadByte(bits))
  }

  lemma {:induction false} BinHasValue(n: nat)
    ensures BitsValue(IntToBin(n)) == n
  {
    var r := IntToBin(n);
    if n > 1 {
      BinHasValue(n / 2);
      assert r[..|r| - 1] == IntToBin(n / 2);
    } else {
      assert r[..0] == [] && BitsValue([]) == 0;
    }
  }

  lemma {:induction false} BinLength(n: nat, k: nat)
    requires n < Pow2(k) && k > 0
    ensures |IntToBin(n)| <= k
    decreases k
  {
    if n > 1 {
      BinLength(n / 2, k - 1);
    }
  }

  lemma {:induction false} LeadingZeroBits(n: nat, bits: string)
    ensures BitsValue(Repeat('0', n) + bits) == BitsValue(bits)
    decreases |bits|, n
  {
    var all := Repeat('0', n) + bits;
    if bits != [] {
      LeadingZeroBits(n, bits[..|bits| - 1]);
      assert all[..|all| - 1] == Repeat('0', n) + bits[..|bits| - 1];
    } else if n > 0 {
      LeadingZeroBits(n - 1, bits);
      assert all[..|all| - 1] == Repeat('0', n - 1) + bits;
    }
  }

  /** A byte takes eight bits, which have its value. */
  lemma ByteBits(b: Byte)
    ensures |PadByte(IntToBin(b))| == 8 && BitsValue(PadByte(IntToBin(b))) == b
  {
    EightBitsSuffice();
    BinLength(b, 8);
    BinHasValue(b);
    hide IntToBin, BitsValue;
    PadToEight(IntToBin(b));
    LeadingZeroBits(8 - |IntToBin(b)|, IntToBin(b));
  }

  lemma EightBitsSuffice()
    ensures Pow2(8) == 256
  {
    assert Pow2(4) == 16;
  }

  lemma PadToEight(bits: string)
    requires 0 < |bits| <= 8
    ensures PadByte(bits) == Repeat('0', 8 - |bits|) + bits
  {
  }

  lemma PadNothing(bits: string)
    requires |bits| % 8 == 0
    ensures PadByte(bits) == bits
  {
  }

  lemma {:induction false} OctetsInvert(s: Bytes)
    ensures |BytesToBin(s)| % 8 == 0 && Octets(BytesToBin(s)) == s
  {
    hide PadByte, IntToBin, BitsValue;
    if s != [] {
      OctetsInvert(s[1..]);
      ByteBits(s[0]);
      var head, all := PadByte(IntToBin(s[0])), BytesToBin(s);
      assert all[..8] == head && all[8..] == BytesToBin(s[1..]);
    }
  }

  /** Turning bytes into bits and back gives the bytes. */
  lemma BinToBytesInverts(s: Bytes)
    ensures BinToBytes(BytesToBin(s)) == s
  {
    OctetsInvert(s);
    hide BytesToBin, Octets, PadByte;
    PadNothing(BytesToBin(s));
  }

  lemma {:induction false} SameValueSameBits(a: string, b: string)
    requires |a| == |b| && AreBits(a) && AreBits(b) && BitsValue(a) == BitsValue(b)
    ensures a == b
    decreases |a|
  {
    if a != [] {
      var n := |a| - 1;
      assert a[n] in a && b[n] in b;
      assert forall c :: c in a[..n] ==> c in a;
      assert forall c :: c in b[..n] ==> c in b;
      SameValueSameBits(a[..n], b[..n]);
      assert a == a[..n] + [a[n]] && b == b[..n] + [b[n]];
    }
  }

  lemma {:induction false} BitsOfOctets(bits: string)
    requires |bits| % 8 == 0 && AreBits(bits)
    ensures BytesToBin(Octets(bits)) == bits
    decreases |bits|
  {
    hide PadByte, IntToBin, BitsValue;
    if bits != [] {
      var head := bits[..8];
      assert forall c :: c in head ==> c in bits;
      assert forall c :: c in bits[8..] ==> c in bits;
      EightBits(head);
      ByteBits(BitsValue(head));
      PaddedAreBits(BitsValue(head));
      SameValueSameBits(PadByte(IntToBin(BitsValue(head))), head);
      BitsOfOctets(bits[8..]);
      assert Octets(bits)[1..] == Octets(bits[8..]);
      assert bits == head + bits[8..];
    }
  }

  lemma PaddedAreBits(n: nat)
    ensures AreBits(PadByte(IntToBin(n)))
  {
  }

  /** Turning bits into bytes and back gives the bits, padded to whole bytes. */
  lemma BytesToBinInverts(bits: string)
    requires AreBits(bits)
    ensures BytesToBin(BinToBytes(bits)) == PadByte(bits)
  {
    BitsOfOctets(PadByte(bits));
  }

  /** A digit of a bit string, the last one first, is that of its value. */
  lemma {:induction false} BitOfValue(bits: string, i: nat)
    requires i < |bits|
    ensures BitOf(BitsValue(bits), i) == if bits[|bits| - 1 - i] == '1' then 1 else 0
    decreases i
  {
    var front := bits[..|bits| - 1];
    Digits(if bits[|bits| - 1] == '1' then 1 else 0, BitsValue(front));
    hide BitsValue;
    if i > 0 {
      BitOfValue(front, i - 1);
    }
  }

  /** Every byte is written as its eight bits, the most significant first, one byte after the other. */
  lemma {:induction false} BytesAreBits(s: Bytes, j: nat, i: nat)
    requires j < |s| && i < 8
    ensures |BytesToBin(s)| == 8 * |s|
    ensures BytesToBin(s)[8 * j + i] == if BitOf(s[j], 7 - i) == 1 then '1' else '0'
    decreases |s|
  {
    BinLengths(s);
    var head := PadByte(IntToBin(s[0]));
    ByteBits(s[0]);
    assert BytesToBin(s) == head + BytesToBin(s[1..]);
    if j == 0 {
      PaddedAreBits(s[0]);
      assert head[i] in head;
      BitOfValue(head, 7 - i);
    } else {
      hide BytesToBin, PadByte, IntToBin, BitOf;
      BytesAreBits(s[1..], j - 1, i);
      assert 8 * j + i == 8 + (8 * (j - 1) + i);
    }
  }

  lemma {:induction false} BinLengths(s: Bytes)
    ensures |BytesToBin(s)| == 8 * |s|
  {
    hide PadByte, IntToBin;
    if s != [] {
      ByteBits(s[0]);
      BinLengths(s[1..]);
    }
  }

  /** A bit string that does not fill its bytes has its value at the end of them. */
  lemma PaddedInFront(bits: string)
    ensures var pad := |PadByte(bits)| - |bits|;
            0 <= pad < 8 && PadByte(bits)[pad..] == bits && forall i :: 0 <= i < pad ==> PadByte(bits)[i] == '0'
  {
  }
}
