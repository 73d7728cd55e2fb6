/**
 * The bit helpers of Utils: intToBinary and binaryToInt (fixed-width,
 * most significant bit first, on Java's 32-bit int), and the two loops that
 * turn the codec's bit list into bytes and back: writeBits pads the list in
 * place with false bits to a whole number of bytes and ORs each bit into its
 * byte, readBits reads every byte's bits back, most significant first. The
 * file streams around those loops are not modelled.
 */
module BitStreams {

  // ---------------------------------------------------------------------
  // Java's int
  // ---------------------------------------------------------------------

  const MinInt: int := -0x8000_0000
  const IntRange: int := 0x1_0000_0000

  /** x is a value of Java's 32-bit int. */
  predicate IsInt(x: int)
  {
    MinInt <= x < -MinInt
  }

  /** Java's wrap-around of an int result: the int congruent to x modulo 2^32. */
  function Wrap(x: int): (r: int)
    ensures IsInt(r) && (r - x) % IntRange == 0
    ensures IsInt(x) ==> r == x
  {
    (x - MinInt) % IntRange + MinInt
  }

  function Pow2(k: nat): (r: nat)
    ensures r >= 1
  {
    if k == 0 then 1 else 2 * Pow2(k - 1)
  }

  /**
   * Java's int expression `1 << k`: the shift distance is k's low five
   * bits, and a shift by 31 gives the sign bit alone.
   */
  function ShiftOne(k: int): (r: int)
    ensures IsInt(r)
    ensures 0 <= k <= 30 ==> r == Pow2(k)
  {
    var s := k % 32;
    if s == 31 then MinInt else PowMonotone(s, 30); Pow31(); Pow2(s)
  }

  lemma Pow31()
    ensures Pow2(31) == -MinInt && Pow2(30) == -MinInt / 2
  {
    assert Pow2(8) == 256 && Pow2(7) == 128 && Pow2(6) == 64;
    PowAdd(8, 8);
    PowAdd(16, 8);
    PowAdd(24, 7);
    PowAdd(24, 6);
  }

  lemma {:induction false} PowAdd(i: nat, j: nat)
    ensures Pow2(i + j) == Pow2(i) * Pow2(j)
    decreases j
  {
    if j > 0 {
      PowAdd(i, j - 1);
    }
  }

  lemma {:induction false} PowMonotone(i: nat, j: nat)
    requires i <= j
    ensures Pow2(i) <= Pow2(j)
    decreases j
  {
    if i < j {
      PowMonotone(i, j - 1);
    }
  }

  // ---------------------------------------------------------------------
  // Fixed-width binary numbers, most significant bit first
  // ---------------------------------------------------------------------

  /** The k-bit binary code of n modulo 2^k, most significant bit first. */
  function Bits(n: nat, k: nat): (r: seq<bool>)
    ensures |r| == k
  {
    if k == 0 then [] else [(n / Pow2(k - 1)) % 2 == 1] + Bits(n % Pow2(k - 1), k - 1)
  }

  /** The number a bit list stands for: bit i weighs 2^(|b| - 1 - i). */
  function Value(b: seq<bool>): nat
  {
    if |b| == 0 then 0 else (if b[0] then Pow2(|b| - 1) else 0) + Value(b[1..])
  }

  function Zeros(k: nat): (r: seq<bool>)
    ensures |r| == k && forall i :: 0 <= i < k ==> !r[i]
  {
    seq(k, i => false)
  }

  /** A list of k bits stands for a number below 2^k. */
  lemma {:induction false} ValueBound(b: seq<bool>)
    ensures Value(b) < Pow2(|b|)
  {
    if |b| > 0 {
      ValueBound(b[1..]);
    }
  }

  /** One step of the most-significant-first split of n < 2p. */
  lemma HighBit(n: nat, p: nat)
    requires p > 0 && n < 2 * p
    ensures ((n / p) % 2 == 1) == (n >= p)
    ensures n % p == (if n >= p then n - p else n)
  {
    if n >= p {
      assert n == p * 1 + (n - p);
    } else {
      assert n == p * 0 + n;
    }
  }

  /** Reading back the k-bit code of a number below 2^k gives the number. */
  lemma {:induction false} ValueBits(n: nat, k: nat)
    requires n < Pow2(k)
    ensures Value(Bits(n, k)) == n
  {
    if k > 0 {
      var p := Pow2(k - 1);
      HighBit(n, p);
      var b := Bits(n, k);
      assert b[1..] == Bits(n % p, k - 1);
      ValueBits(n % p, k - 1);
    }
  }

  /** Coding the number a k-bit list stands for in k bits gives the list. */
  lemma {:induction false} BitsValue(b: seq<bool>)
    ensures Bits(Value(b), |b|) == b
  {
    if |b| > 0 {
      var p := Pow2(|b| - 1);
      ValueBound(b[1..]);
      HighBit(Value(b), p);
      BitsValue(b[1..]);
      assert Bits(Value(b), |b|) == [b[0]] + b[1..];
    }
  }

  // ---------------------------------------------------------------------
  // intToBinary and binaryToInt
  // ---------------------------------------------------------------------

  /**
   * intToBinary, with Java's int arithmetic: bitSize bits, as many as
   * asked. A number that fits into bitSize <= 31 bits gets its binary code.
   * From bitSize 32 on, the first power 1 << 31 is negative: the number 5,
   * which fits into 32 bits, gets a 1 and then 31 zeros.
   */
  method IntToBinary(number: int, bitSize: int) returns (bits: seq<bool>)
    requires IsInt(number) && IsInt(bitSize)
    ensures |bits| == if bitSize > 0 then bitSize else 0
    ensures 0 <= bitSize <= 31 && 0 <= number < Pow2(bitSize) ==> bits == Bits(number, bitSize)
    ensures bitSize == 32 && 0 <= number ==> bits == [true] + Zeros(31)
  {
    ghost var fits := 0 <= bitSize <= 31 && 0 <= number < Pow2(bitSize);
    ghost var wide := bitSize == 32 && 0 <= number;
    var n, k := number, bitSize;
    bits := [];
    while k > 0
      invariant IsInt(n) && IsInt(k) && k <= bitSize
      invariant if bitSize > 0 then 0 <= k && |bits| == bitSize - k else k == bitSize && bits == []
      invariant fits ==> 0 <= n < Pow2(k) && bits + Bits(n, k) == Bits(number, bitSize)
      invariant wide ==> WideSoFar(bits, n, k, number)
    {
      k := k - 1;
      var powerOf2 := ShiftOne(k);
      ghost var before, m := bits, n;
      if n >= powerOf2 {
        bits := bits + [true];
        n := Wrap(n - powerOf2);
      } else {
        bits := bits + [false];
      }
      if fits {
        FitsStep(before, m, k, powerOf2, bits, n, number, bitSize);
      }
      if wide {
        WideStep(before, m, k, powerOf2, bits, n, number);
      }
    }
  }

  /** The code of 5 in 32 bits begins with a 0, not with the 1 intToBinary writes. */
  lemma WideFive()
    ensures 0 <= 5 < Pow2(32) && Bits(5, 32) != [true] + Zeros(31)
  {
    Pow31();
    assert Pow2(32) == 2 * Pow2(31);
    assert Bits(5, 32)[0] == ((5 / Pow2(31)) % 2 == 1);
    assert 5 / Pow2(31) == 0;
  }

  /** Where intToBinary stands on a non-negative number with bitSize 32. */
  ghost predicate WideSoFar(bits: seq<bool>, n: int, k: int, number: int)
  {
    (k == 32 && n == number && bits == []) || (0 <= k < 32 && n < 0 && bits == [true] + Zeros(31 - k))
  }

  /** One round of intToBinary, with Java's int, on a number that fits. */
  lemma FitsStep(before: seq<bool>, m: int, k: nat, p: int, after: seq<bool>, n: int, number: nat, bitSize: nat)
    requires k < 31 && p == ShiftOne(k) && 0 <= m < Pow2(k + 1) && before + Bits(m, k + 1) == Bits(number, bitSize)
    requires after == before + [m >= p] && n == (if m >= p then Wrap(m - p) else m)
    ensures 0 <= n < Pow2(k) && after + Bits(n, k) == Bits(number, bitSize)
  {
    PowMonotone(k + 1, 31);
    Pow31();
    CodeStep(before, m, k, p, after, n, number, bitSize);
  }

  /** One round of intToBinary on a number that fits: one bit moves from the code of m to the list. */
  lemma CodeStep(before: seq<bool>, m: int, k: nat, p: int, after: seq<bool>, n: int, number: nat, bitSize: nat)
    requires p == Pow2(k) && 0 <= m < Pow2(k + 1) && before + Bits(m, k + 1) == Bits(number, bitSize)
    requires after == before + [m >= p] && n == (if m >= p then m - p else m)
    ensures 0 <= n < Pow2(k) && after + Bits(n, k) == Bits(number, bitSize)
  {
    assert Pow2(k + 1) == 2 * p;
    HighBit(m, p);
    UnfoldBits(m, k, p);
    MoveBit(before, m >= p, Bits(n, k), Bits(m, k + 1), Bits(number, bitSize));
  }

  lemma UnfoldBits(m: nat, k: nat, p: nat)
    requires p == Pow2(k)
    ensures Bits(m, k + 1) == [(m / p) % 2 == 1] + Bits(m % p, k)
  {
  }

  lemma MoveBit(before: seq<bool>, b: bool, rest: seq<bool>, whole: seq<bool>, total: seq<bool>)
    requires before + whole == total && whole == [b] + rest
    ensures before + [b] + rest == total
  {
  }

  /** One round of intToBinary on a non-negative number with bitSize 32. */
  lemma WideStep(before: seq<bool>, m: int, k: int, p: int, after: seq<bool>, n: int, number: int)
    requires 0 <= k && IsInt(m) && WideSoFar(before, m, k + 1, number) && 0 <= number < -MinInt
    requires p == ShiftOne(k) && after == before + [m >= p] && n == (if m >= p then Wrap(m - p) else m)
    ensures WideSoFar(after, n, k, number)
  {
    if k == 31 {
      WrapHigh(m);
    } else {
      assert p >= 1;
      ZerosStep(31 - k);
    }
  }

  /** The sign bit subtracted from a non-negative int wraps around to a negative one. */
  lemma WrapHigh(n: int)
    requires 0 <= n < -MinInt
    ensures n >= ShiftOne(31) && Wrap(n - ShiftOne(31)) == n + MinInt
  {
    assert n - ShiftOne(31) - MinInt == n + IntRange;
    assert (n + IntRange) % IntRange == n;
  }

  lemma ZerosStep(k: nat)
    requires k > 0
    ensures [true] + Zeros(k) == [true] + Zeros(k - 1) + [false]
  {
    assert Zeros(k) == Zeros(k - 1) + [false];
  }

  /**
   * The corrected intToBinary, with the powers of two computed without
   * overflow: every number that fits into bitSize bits gets its binary code.
   */
  method IntToBinaryWide(number: int, bitSize: int) returns (bits: seq<bool>)
    requires IsInt(number) && IsInt(bitSize)
    ensures |bits| == if bitSize > 0 then bitSize else 0
    ensures 0 <= bitSize && 0 <= number < Pow2(bitSize) ==> bits == Bits(number, bitSize)
  {
    ghost var fits := 0 <= bitSize && 0 <= number < Pow2(bitSize);
    var n, k := number, bitSize;
    bits := [];
    while k > 0
      invariant k <= bitSize
      invariant if bitSize > 0 then 0 <= k && |bits| == bitSize - k else k == bitSize && bits == []
      invariant fits ==> 0 <= n < Pow2(k) && bits + Bits(n, k) == Bits(number, bitSize)
    {
      k := k - 1;
      var powerOf2 := Pow2(k);
      ghost var before, m := bits, n;
      if n >= powerOf2 {
        bits := bits + [true];
        n := n - powerOf2;
      } else {
        bits := bits + [false];
      }
      if fits {
        CodeStep(before, m, k, powerOf2, bits, n, number, bitSize);
      }
    }
  }

  /**
   * binaryToInt, with Java's int arithmetic: a list of up to 31 bits gives
   * the number it stands for (most significant bit first).
   */
  method BinaryToInt(bits: seq<bool>) returns (result: int)
    requires |bits| < -MinInt
    ensures IsInt(result)
    ensures |bits| <= 31 ==> result == Value(bits) && result < Pow2(|bits|)
  {
    ghost var small := |bits| <= 31;
    result := 0;
    var power := |bits| - 1;
    var i := 0;
    if small {
      ValueBound(bits);
    }
    while i < |bits|
      invariant 0 <= i <= |bits| && power == |bits| - 1 - i
      invariant IsInt(result)
      invariant small ==> result + Value(bits[i..]) == Value(bits)
    {
      if small {
        SuffixValue(bits, i);
        ValueBound(bits);
        PowMonotone(|bits|, 31);
        Pow31();
        assert result + (if bits[i] then Pow2(power) else 0) <= Value(bits) < -MinInt;
      }
      if bits[i] {
        result := Wrap(result + ShiftOne(power));
      }
      power := power - 1;
      i := i + 1;
    }
    if small {
      assert bits[|bits|..] == [];
      ValueBound(bits);
    }
  }

  /** binaryToInt(intToBinary(number, bitSize)) gives the number back when it fits into 31 bits or fewer. */
  method IntRoundTrip(number: int, bitSize: int) returns (r: int)
    requires 0 <= bitSize <= 31 && 0 <= number < Pow2(bitSize)
    ensures r == number
  {
    PowMonotone(bitSize, 31);
    Pow31();
    var bits := IntToBinary(number, bitSize);
    ValueBits(number, bitSize);
    r := BinaryToInt(bits);
  }

  /** The weight of bit i, then the bits after it. */
  lemma SuffixValue(bits: seq<bool>, i: nat)
    requires i < |bits|
    ensures Value(bits[i..]) == (if bits[i] then Pow2(|bits| - 1 - i) else 0) + Value(bits[i + 1..])
  {
    assert bits[i..][1..] == bits[i + 1..];
  }

  // ---------------------------------------------------------------------
  // Bytes
  // ---------------------------------------------------------------------

  /** The mask of bit j of a byte, counted from the most significant one: 128 >> j. */
  function Mask(j: nat): bv8
    requires j < 8
  {
    (128 as bv8) >> j
  }

  /** Whether bit j of b, counted from the most significant one, is set. */
  predicate Bit(b: bv8, j: nat)
    requires j < 8
  {
    b & Mask(j) != 0
  }

  /** ORing in mask j sets bit j and leaves the other bits alone. */
  lemma OrMask(b: bv8, j: nat, k: nat)
    requires j < 8 && k < 8
    ensures Bit(b | Mask(j), k) <==> Bit(b, k) || j == k
  {
  }

  lemma ZeroByte(k: nat)
    requires k < 8
    ensures !Bit(0, k)
  {
  }

  /** Java's (byte) cast: the low eight bits of an int. */
  function ByteOf(v: int): bv8
  {
    (v % 256) as bv8
  }

  /** A byte promoted to int for &: its sign bit copied into the upper 24 bits. */
  function SignExtend(b: bv8): bv32
  {
    if b & 0x80 != 0 then (b as bv32) | 0xFFFF_FF00 else b as bv32
  }

  /** The test readBits makes for bit j: aByte & (byte) (128 / (1 << j)), on the promoted ints. */
  predicate ReadBit(b: bv8, j: nat)
    requires j < 8
  {
    SignExtend(b) & SignExtend(ByteOf(128 / ShiftOne(j))) != 0
  }

  /**
   * For j = 0 the mask (byte) 128 is the negative byte -128, whose promotion
   * sets the upper 24 bits too; the test is bit j of the byte all the same.
   */
  lemma ReadBitIsBit(b: bv8, j: nat)
    requires j < 8
    ensures ReadBit(b, j) == Bit(b, j)
  {
    ReadMask(j);
    PromotedAnd(b, Mask(j));
  }

  /** The int mask readBits computes has the low eight bits 128 >> j. */
  lemma ReadMask(j: nat)
    requires j < 8
    ensures ByteOf(128 / ShiftOne(j)) == Mask(j)
  {
    if j == 0 { MaskAt(j, 1, 128, 0x80); }
    else if j == 1 { MaskAt(j, 2, 64, 0x40); }
    else if j == 2 { MaskAt(j, 4, 32, 0x20); }
    else if j == 3 { MaskAt(j, 8, 16, 0x10); }
    else if j == 4 { MaskAt(j, 16, 8, 0x08); }
    else if j == 5 { MaskAt(j, 32, 4, 0x04); }
    else if j == 6 { MaskAt(j, 64, 2, 0x02); }
    else { MaskAt(j, 128, 1, 0x01); }
  }

  /** One case of ReadMask: the power 1 << j and the mask it gives. */
  lemma MaskAt(j: nat, p: nat, v: int, m: bv8)
    requires j < 8 && p == Pow2(j) && v == 128 / p && ByteOf(v) == m && Mask(j) == m
    ensures ByteOf(128 / ShiftOne(j)) == Mask(j)
  {
    PowMonotone(j, 30);
  }

  /** Promoting both bytes does not change whether they share a set bit. */
  lemma PromotedAnd(b: bv8, m: bv8)
    ensures (SignExtend(b) & SignExtend(m) != 0) == (b & m != 0)
  {
  }

  /** The bits of one byte, most significant first. */
  function ByteBits(b: bv8): (r: seq<bool>)
    ensures |r| == 8 && forall j :: 0 <= j < 8 ==> r[j] == Bit(b, j)
  {
    seq(8, j requires 0 <= j < 8 => Bit(b, j))
  }

  /** The bits of a byte array, byte after byte, each most significant bit first. */
  function Unpacked(bytes: seq<bv8>): (r: seq<bool>)
    ensures |r| == 8 * |bytes|
    ensures forall i, j :: 0 <= i < |bytes| && 0 <= j < 8 ==> r[8 * i + j] == Bit(bytes[i], j)
  {
    if |bytes| == 0 then []
    else
      var front := Unpacked(bytes[..|bytes| - 1]);
      assert forall i :: 0 <= i < |bytes| - 1 ==> bytes[..|bytes| - 1][i] == bytes[i];
      front + ByteBits(bytes[|bytes| - 1])
  }

  /** The number of false bits writeBits adds: up to the next multiple of 8. */
  function PadLength(n: nat): nat
  {
    (8 - n % 8) % 8
  }

  /** The list as writeBits leaves it: padded with false bits to a whole number of bytes. */
  function Padded(b: seq<bool>): (r: seq<bool>)
    ensures |r| % 8 == 0 && |b| <= |r| < |b| + 8
    ensures r[..|b|] == b && forall i :: |b| <= i < |r| ==> !r[i]
  {
    b + Zeros(PadLength(|b|))
  }

  /** A list of whole bytes needs no padding. */
  lemma {:induction false} PaddedTwice(b: seq<bool>)
    ensures Padded(Padded(b)) == Padded(b)
  {
    var r := Padded(b);
    assert PadLength(|r|) == 0;
    assert r + Zeros(0) == r;
  }

  /** The empty list stays empty. */
  lemma PaddedEmpty()
    ensures Padded([]) == []
  {
    assert PadLength(0) == 0;
  }

  /** Bytes whose bits are the list's, byte after byte, unpack to the list. */
  lemma {:induction false} UnpackPacked(bits: seq<bool>, bytes: seq<bv8>)
    requires |bits| == 8 * |bytes|
    requires forall i, j :: 0 <= i < |bytes| && 0 <= j < 8 ==> (Bit(bytes[i], j) <==> bits[8 * i + j])
    ensures Unpacked(bytes) == bits
  {
    var u := Unpacked(bytes);
    forall n | 0 <= n < |bits|
      ensures u[n] == bits[n]
    {
      var i, j := n / 8, n % 8;
      assert n == 8 * i + j;
      assert u[8 * i + j] == Bit(bytes[i], j);
    }
  }

  // ---------------------------------------------------------------------
  // writeBits and readBits
  // ---------------------------------------------------------------------

  /** The codec's bit list, which writeBits pads in place. */
  class BitList {
    var items: seq<bool>

    constructor (items: seq<bool>)
      ensures this.items == items
    {
      this.items := items;
    }

    method Add(b: bool)
      modifies this
      ensures items == old(items) + [b]
    {
      items := items + [b];
    }
  }

  /**
   * writeBits without the file: pads the caller's list to a whole number of
   * bytes and packs it, bit j of byte i being bit 8i + j of the list.
   */
  method WriteBits(list: BitList) returns (bytes: array<bv8>)
    modifies list
    ensures list.items == Padded(old(list.items))
    ensures fresh(bytes) && bytes.Length == |list.items| / 8
    ensures forall i, j :: 0 <= i < bytes.Length && 0 <= j < 8 ==> (Bit(bytes[i], j) <==> list.items[8 * i + j])
  {
    ghost var original := list.items;
    while |list.items| % 8 != 0
      invariant |original| <= |list.items| <= |original| + PadLength(|original|)
      invariant list.items == original + Zeros(|list.items| - |original|)
      decreases |original| + PadLength(|original|) - |list.items|
    {
      list.Add(false);
      assert list.items == original + Zeros(|list.items| - |original|) by {
        assert Zeros(|list.items| - |original|) == Zeros(|list.items| - 1 - |original|) + [false];
      }
    }
    bytes := Pack(list.items);
  }

  /** The packing loop of writeBits: byte i gets mask 128 >> j exactly when bit 8i + j is set. */
  method Pack(bits: seq<bool>) returns (bytes: array<bv8>)
    ensures fresh(bytes) && bytes.Length == |bits| / 8
    ensures forall i, j :: 0 <= i < bytes.Length && 0 <= j < 8 ==> (Bit(bytes[i], j) <==> bits[8 * i + j])
  {
    bytes := new bv8[|bits| / 8](_ => 0);
    var byteIndex := 0;
    while byteIndex < bytes.Length
      invariant 0 <= byteIndex <= bytes.Length
      invariant forall i, j :: 0 <= i < byteIndex && 0 <= j < 8 ==> (Bit(bytes[i], j) <==> bits[8 * i + j])
      invariant forall i :: byteIndex <= i < bytes.Length ==> bytes[i] == 0
    {
      PackByte(bytes, bits, byteIndex);
      byteIndex := byteIndex + 1;
    }
  }

  /** The inner loop of the packing: the eight bits of one byte. */
  method PackByte(bytes: array<bv8>, bits: seq<bool>, byteIndex: nat)
    requires byteIndex < bytes.Length == |bits| / 8 && bytes[byteIndex] == 0
    modifies bytes
    ensures forall j :: 0 <= j < 8 ==> (Bit(bytes[byteIndex], j) <==> bits[8 * byteIndex + j])
    ensures forall i :: 0 <= i < bytes.Length && i != byteIndex ==> bytes[i] == old(bytes[i])
  {
    assert 8 * byteIndex + 8 <= |bits|;
    var bitIndex := 0;
    forall k | 0 <= k < 8 {
      ZeroByte(k);
    }
    while bitIndex < 8
      invariant 0 <= bitIndex <= 8
      invariant forall j :: 0 <= j < 8 ==> (Bit(bytes[byteIndex], j) <==> j < bitIndex && bits[8 * byteIndex + j])
      invariant forall i :: 0 <= i < bytes.Length && i != byteIndex ==> bytes[i] == old(bytes[i])
    {
      var b := bytes[byteIndex];
      if bits[8 * byteIndex + bitIndex] {
        bytes[byteIndex] := b | Mask(bitIndex);
        forall k | 0 <= k < 8
          ensures Bit(bytes[byteIndex], k) <==> k <= bitIndex && bits[8 * byteIndex + k]
        {
          OrMask(b, bitIndex, k);
        }
      }
      bitIndex := bitIndex + 1;
    }
  }

  /** readBits without the file: every byte's bits, most significant first. */
  method ReadBits(bytes: seq<bv8>) returns (bits: seq<bool>)
    ensures bits == Unpacked(bytes)
  {
    bits := [];
    var k := 0;
    while k < |bytes|
      invariant 0 <= k <= |bytes|
      invariant bits == Unpacked(bytes[..k])
    {
      var aByte := bytes[k];
      var bitIndex := 0;
      while bitIndex < 8
        invariant 0 <= bitIndex <= 8
        invariant bits == Unpacked(bytes[..k]) + ByteBits(aByte)[..bitIndex]
      {
        ReadBitIsBit(aByte, bitIndex);
        bits := bits + [ReadBit(aByte, bitIndex)];
        bitIndex := bitIndex + 1;
      }
      assert bytes[..k + 1][..k] == bytes[..k];
      k := k + 1;
    }
    assert bytes[..|bytes|] == bytes;
  }

  /** What readBits gets back from the bytes writeBits packed: the padded list. */
  method Transfer(list: BitList) returns (received: seq<bool>)
    modifies list
    ensures received == Padded(old(list.items)) && list.items == received
  {
    var bytes := WriteBits(list);
    UnpackPacked(list.items, bytes[..]);
    received := ReadBits(bytes[..]);
  }
}
