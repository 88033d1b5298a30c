/**
 * Bit addressing over byte buffers (TDES.c, getBit and putBit).
 *
 * Bits are numbered from 1, most significant bit first: bit i lives in byte
 * (i - 1) / 8 at position 7 - (i - 1) % 8, counted from the least significant
 * end. Every table of the cipher is written against this numbering.
 */
module Bits {

  /** The value of one bit, as getBit returns it. */
  type Bit = b: int | 0 <= b <= 1

  /**
   * The shift that reaches bit t of a byte counted from the most significant
   * end, 7 - t, as the bit-vector amount the byte is shifted by.
   */
  function Shift(t: int): (p: bv8)
    requires 0 <= t < 8
    ensures p < 8 && p as int == 7 - t
  {
    if t == 0 then 7 else if t == 1 then 6 else if t == 2 then 5 else if t == 3 then 4
    else if t == 4 then 3 else if t == 5 then 2 else if t == 6 then 1 else 0
  }

  /** Bit p of byte x, counted from the least significant end: x >> p & 1. */
  function ByteBit(x: bv8, p: bv8): Bit
    requires p < 8
  {
    if (x >> p) & 1 == 1 then 1 else 0
  }

  /** getBit: bit i (1-based, MSB first) of data. */
  function GetBit(data: seq<bv8>, i: int): Bit
    requires 1 <= i <= 8 * |data|
  {
    var idx := i - 1;
    var bytePos := idx / 8;
    var bitPos := Shift(idx % 8);
    ByteBit(data[bytePos], bitPos)
  }

  /** The byte putBit stores: x with bit p set (x | 1 << p) or cleared (x & ~(1 << p)). */
  function WriteBit(x: bv8, p: bv8, setting: bool): bv8
    requires p < 8
  {
    if setting then x | (1 << p) else x & !(1 << p)
  }

  /**
   * putBit: sets bit i of data when v is 1 and clears it for any other v.
   * Every other bit keeps its value, and only byte (i - 1) / 8 is written.
   */
  method PutBit(data: array<bv8>, i: int, v: int)
    requires 1 <= i <= 8 * data.Length
    modifies data
    ensures GetBit(data[..], i) == if v == 1 then 1 else 0
    ensures forall j :: 1 <= j <= 8 * data.Length && j != i ==> GetBit(data[..], j) == GetBit(old(data[..]), j)
    ensures forall k :: 0 <= k < data.Length && k != (i - 1) / 8 ==> data[k] == old(data[k])
  {
    var idx := i - 1;
    var bytePos := idx / 8;
    var bitPos := Shift(idx % 8);
    ghost var before := data[..];
    data[bytePos] := WriteBit(data[bytePos], bitPos, v == 1);
    BitWrittenSpec(before, data[..], i, v == 1);
  }

  /** Writing bit p of a byte makes bit q the written value when q == p and leaves it otherwise. */
  lemma WriteBitAt(x: bv8, p: bv8, q: bv8, setting: bool)
    requires p < 8 && q < 8
    ensures ByteBit(WriteBit(x, p, setting), q) == if p == q then (if setting then 1 else 0) else ByteBit(x, q)
  {
  }

  /** Replacing one byte leaves the bits of every other byte as they were. */
  lemma OtherBytesKept(before: seq<bv8>, after: seq<bv8>, b: int, y: bv8)
    requires 0 <= b < |before| && after == before[b := y]
    ensures forall j :: 1 <= j <= 8 * |before| && (j - 1) / 8 != b ==> GetBit(after, j) == GetBit(before, j)
  {
  }

  /** Bit-level meaning of the byte update putBit performs. */
  lemma BitWrittenSpec(before: seq<bv8>, after: seq<bv8>, i: int, setting: bool)
    requires 1 <= i <= 8 * |before|
    requires after == before[(i - 1) / 8 := WriteBit(before[(i - 1) / 8], Shift((i - 1) % 8), setting)]
    ensures GetBit(after, i) == if setting then 1 else 0
    ensures forall j :: 1 <= j <= 8 * |before| && j != i ==> GetBit(after, j) == GetBit(before, j)
  {
    var b := (i - 1) / 8;
    var p := Shift((i - 1) % 8);
    OtherBytesKept(before, after, b, after[b]);
    WriteBitAt(before[b], p, p, setting);
    forall j | 1 <= j <= 8 * |before| && j != i && (j - 1) / 8 == b
      ensures GetBit(after, j) == GetBit(before, j)
    {
      WriteBitAt(before[b], p, Shift((j - 1) % 8), setting);
    }
  }

  /** Bitwise exclusive or of two equally long byte strings. */
  function XorBytes(a: seq<bv8>, b: seq<bv8>): (r: seq<bv8>)
    requires |a| == |b|
    ensures |r| == |a|
  {
    seq(|a|, k requires 0 <= k < |a| => a[k] ^ b[k])
  }

  /** Exclusive or with the same string on the left twice gives back the original. */
  lemma XorCancel(a: seq<bv8>, b: seq<bv8>)
    requires |a| == |b|
    ensures XorBytes(a, XorBytes(a, b)) == b
  {
    var once := XorBytes(a, b);
    forall k | 0 <= k < |b| ensures XorBytes(a, once)[k] == b[k] {
      assert once[k] == a[k] ^ b[k];
    }
  }

  /** Bit k of a bit string as a byte holding just that bit; zero past the end. */
  function BitAt(bits: seq<Bit>, k: int): bv8
  {
    if 0 <= k < |bits| && bits[k] == 1 then 1 else 0
  }

  /** The byte holding bits o .. o + 7 of a bit string, MSB first. */
  function PackByte(bits: seq<Bit>, o: int): bv8
  {
    (BitAt(bits, o) << 7) | (BitAt(bits, o + 1) << 6) | (BitAt(bits, o + 2) << 5) | (BitAt(bits, o + 3) << 4)
    | (BitAt(bits, o + 4) << 3) | (BitAt(bits, o + 5) << 2) | (BitAt(bits, o + 6) << 1) | BitAt(bits, o + 7)
  }

  /**
   * A bit string laid out in bytes in the order GetBit reads them, with the
   * last byte filled up with zero bits.
   */
  function Pack(bits: seq<Bit>): (r: seq<bv8>)
    ensures |r| == (|bits| + 7) / 8
  {
    seq((|bits| + 7) / 8, b => PackByte(bits, 8 * b))
  }

  /** The bits of a byte assembled from eight one-bit values a0 (most significant) .. a7. */
  lemma AssembledBits(a0: bv8, a1: bv8, a2: bv8, a3: bv8, a4: bv8, a5: bv8, a6: bv8, a7: bv8)
    requires a0 <= 1 && a1 <= 1 && a2 <= 1 && a3 <= 1 && a4 <= 1 && a5 <= 1 && a6 <= 1 && a7 <= 1
    ensures var x := (a0 << 7) | (a1 << 6) | (a2 << 5) | (a3 << 4) | (a4 << 3) | (a5 << 2) | (a6 << 1) | a7;
      (x >> 7) & 1 == a0 && (x >> 6) & 1 == a1 && (x >> 5) & 1 == a2 && (x >> 4) & 1 == a3 &&
      (x >> 3) & 1 == a4 && (x >> 2) & 1 == a5 && (x >> 1) & 1 == a6 && (x >> 0) & 1 == a7
  {
  }

  /** Bit 7 - t of PackByte(bits, o) is bit o + t of the string. */
  lemma PackByteBit(bits: seq<Bit>, o: int, t: int)
    requires 0 <= t < 8
    ensures ByteBit(PackByte(bits, o), Shift(t)) == if BitAt(bits, o + t) == 1 then 1 else 0
  {
    AssembledBits(BitAt(bits, o), BitAt(bits, o + 1), BitAt(bits, o + 2), BitAt(bits, o + 3),
                  BitAt(bits, o + 4), BitAt(bits, o + 5), BitAt(bits, o + 6), BitAt(bits, o + 7));
  }

  /** Reading back a packed bit string gives the bits, then zeros up to the byte boundary. */
  lemma GetBitPack(bits: seq<Bit>, j: int)
    requires 1 <= j <= 8 * |Pack(bits)|
    ensures GetBit(Pack(bits), j) == if j <= |bits| then bits[j - 1] else 0
  {
    var b := (j - 1) / 8;
    var t := (j - 1) % 8;
    assert j - 1 == 8 * b + t;
    assert Pack(bits)[b] == PackByte(bits, 8 * b);
    PackByteBit(bits, 8 * b, t);
  }

  /** A byte is determined by its eight bits. */
  lemma ByteFromBits(a: bv8, c: bv8)
    requires forall t :: 0 <= t < 8 ==> ByteBit(a, Shift(t)) == ByteBit(c, Shift(t))
    ensures a == c
  {
    assert ByteBit(a, Shift(0)) == ByteBit(c, Shift(0)) && ByteBit(a, Shift(1)) == ByteBit(c, Shift(1));
    assert ByteBit(a, Shift(2)) == ByteBit(c, Shift(2)) && ByteBit(a, Shift(3)) == ByteBit(c, Shift(3));
    assert ByteBit(a, Shift(4)) == ByteBit(c, Shift(4)) && ByteBit(a, Shift(5)) == ByteBit(c, Shift(5));
    assert ByteBit(a, Shift(6)) == ByteBit(c, Shift(6)) && ByteBit(a, Shift(7)) == ByteBit(c, Shift(7));
  }

  /** Two byte strings of one length that agree on every bit are equal. */
  lemma BytesEqualByBits(a: seq<bv8>, c: seq<bv8>)
    requires |a| == |c|
    requires forall j :: 1 <= j <= 8 * |a| ==> GetBit(a, j) == GetBit(c, j)
    ensures a == c
  {
    forall k | 0 <= k < |a| ensures a[k] == c[k] {
      forall t | 0 <= t < 8 ensures ByteBit(a[k], Shift(t)) == ByteBit(c[k], Shift(t)) {
        var j := 8 * k + t + 1;
        assert (j - 1) / 8 == k && (j - 1) % 8 == t;
        assert GetBit(a, j) == GetBit(c, j);
      }
      ByteFromBits(a[k], c[k]);
    }
  }

  /** Bits of a concatenation: first those of a, then those of b. */
  lemma GetBitConcat(a: seq<bv8>, b: seq<bv8>, j: int)
    requires 1 <= j <= 8 * (|a| + |b|)
    ensures GetBit(a + b, j) == if j <= 8 * |a| then GetBit(a, j) else GetBit(b, j - 8 * |a|)
  {
    if j > 8 * |a| {
      assert (j - 1) / 8 == |a| + (j - 8 * |a| - 1) / 8;
    }
  }

  /** Bits of a prefix are the leading bits of the whole. */
  lemma GetBitPrefix(a: seq<bv8>, m: int, j: int)
    requires 0 <= m <= |a| && 1 <= j <= 8 * m
    ensures GetBit(a[..m], j) == GetBit(a, j)
  {
  }
}
