/**
 * The DES cipher function f (TDES.c, sBox and fFunction).
 *
 * f(R, K) expands the 32-bit half-block R to 48 bits, adds the 48-bit subkey
 * K bit by bit modulo 2, replaces each group of six bits by the 4-bit value of
 * its S-box and permutes the 32 resulting bits with P.
 */
module RoundFunction {
  import opened Bits
  import opened Permutation
  import opened Tables

  /** The row sBox reads from box idx's six input bits b1 .. b6: b1 b6 in binary. */
  function Row(input: seq<bv8>, idx: int): (row: int)
    requires |input| == 6 && 0 <= idx < 8
    ensures 0 <= row < 4
  {
    2 * GetBit(input, 6 * idx + 1) + GetBit(input, 6 * idx + 6)
  }

  /** The column sBox reads: b2 b3 b4 b5 in binary. */
  function Column(input: seq<bv8>, idx: int): (col: int)
    requires |input| == 6 && 0 <= idx < 8
    ensures 0 <= col < 16
  {
    8 * GetBit(input, 6 * idx + 2) + 4 * GetBit(input, 6 * idx + 3)
    + 2 * GetBit(input, 6 * idx + 4) + GetBit(input, 6 * idx + 5)
  }

  /** The 4-bit output of S-box idx + 1 on bits 6 idx + 1 .. 6 idx + 6 of input. */
  function SValue(input: seq<bv8>, idx: int): Nibble
    requires |input| == 6 && 0 <= idx < 8
  {
    SBoxShape();
    SBoxTable[idx][Row(input, idx)][Column(input, idx)]
  }

  /**
   * sBox: the S-box value lands in the four high-order bits of output[0] and
   * the four low-order bits are zero.
   */
  method SBox(output: array<bv8>, input: seq<bv8>, idx: int)
    requires output.Length == 1 && |input| == 6 && 0 <= idx < 8
    modifies output
    ensures output[0] >> 4 == SValue(input, idx)
    ensures output[0] & 0x0F == 0
  {
    var b1: int := GetBit(input, 6 * idx + 1);
    var b2: int := GetBit(input, 6 * idx + 2);
    var b3: int := GetBit(input, 6 * idx + 3);
    var b4: int := GetBit(input, 6 * idx + 4);
    var b5: int := GetBit(input, 6 * idx + 5);
    var b6: int := GetBit(input, 6 * idx + 6);
    var row := 2 * b1 + b6;
    var col := 8 * b2 + 4 * b3 + 2 * b4 + b5;
    SBoxShape();
    assert row == Row(input, idx) && col == Column(input, idx);
    output[0] := (SBoxTable[idx][row][col] as bv8) << 4;
    HighNibble(SValue(input, idx));
  }

  /** A 4-bit value shifted into the high nibble comes back out and leaves the low nibble zero. */
  lemma HighNibble(v: bv8)
    requires v < 16
    ensures (v << 4) >> 4 == v && (v << 4) & 0x0F == 0
  {
  }

  /** The eight S-box values of a 48-bit input, S1 first. */
  function SValues(input: seq<bv8>): (vals: seq<Nibble>)
    requires |input| == 6
    ensures |vals| == 8
    ensures forall t :: 0 <= t < 8 ==> vals[t] == SValue(input, t)
  {
    seq(8, t requires 0 <= t < 8 => SValue(input, t))
  }

  /** Eight 4-bit values as a string of 32 bits, each most significant bit first. */
  function NibbleBits(vals: seq<Nibble>): (bits: seq<Bit>)
    requires |vals| == 8
    ensures |bits| == 32
  {
    seq(32, p requires 0 <= p < 32 => ByteBit(vals[p / 4], Shift(p % 4 + 4)))
  }

  /** The cipher function f(R, K) = P(S(E(R) xor K)). */
  function F(R: seq<bv8>, K: seq<bv8>): (r: seq<bv8>)
    requires |R| == 4 && |K| == 6
    ensures |r| == 4
  {
    TableLengths();
    var b := XorBytes(Permuted(R, Expansion, 48), K);
    Permuted(Pack(NibbleBits(SValues(b))), RoundPerm, 32)
  }

  /** A byte made of two nibbles a (high) and b (low), bit by bit. */
  lemma NibblePair(a: bv8, b: bv8)
    requires a < 16 && b < 16
    ensures (a << 4) | b
         == (((a >> 3) & 1) << 7) | (((a >> 2) & 1) << 6) | (((a >> 1) & 1) << 5) | ((a & 1) << 4)
          | (((b >> 3) & 1) << 3) | (((b >> 2) & 1) << 2) | (((b >> 1) & 1) << 1) | (b & 1)
  {
  }

  /** Bit m (0 .. 7, from the top) of byte k of the bit string is bit m % 4 of value 2k + m / 4. */
  lemma NibbleBit(vals: seq<Nibble>, k: int, m: int)
    requires |vals| == 8 && 0 <= k < 4 && 0 <= m < 8
    ensures BitAt(NibbleBits(vals), 8 * k + m) == (vals[2 * k + m / 4] >> Shift(m % 4 + 4)) & 1
  {
    var p := 8 * k + m;
    assert p / 4 == 2 * k + m / 4 && p % 4 == m % 4;
    var v := vals[2 * k + m / 4];
    var sh := Shift(m % 4 + 4);
    assert NibbleBits(vals)[p] == ByteBit(v, sh);
    BitOfByte(v, sh);
  }

  /** A bit read with ByteBit, as a one-bit byte. */
  lemma BitOfByte(v: bv8, sh: bv8)
    requires sh < 8
    ensures (if ByteBit(v, sh) == 1 then 1 else 0) as bv8 == (v >> sh) & 1
  {
  }

  /**
   * Byte k of the packed bit string holds value 2k in its high nibble and
   * value 2k + 1 in its low nibble, as fFunction assembles the S-box outputs.
   */
  lemma NibblesPacked(vals: seq<Nibble>, k: int)
    requires |vals| == 8 && 0 <= k < 4
    ensures Pack(NibbleBits(vals))[k] == ((vals[2 * k] as bv8) << 4) | vals[2 * k + 1] as bv8
  {
    var bits := NibbleBits(vals);
    NibbleBit(vals, k, 0);
    NibbleBit(vals, k, 1);
    NibbleBit(vals, k, 2);
    NibbleBit(vals, k, 3);
    NibbleBit(vals, k, 4);
    NibbleBit(vals, k, 5);
    NibbleBit(vals, k, 6);
    NibbleBit(vals, k, 7);
    NibblePair(vals[2 * k], vals[2 * k + 1]);
    assert Pack(bits)[k] == PackByte(bits, 8 * k);
  }

  /**
   * fFunction: result holds f(R, K). The expanded half-block and its sum with
   * the subkey are six bytes here; see the model notes on the 48-byte buffers
   * of the source.
   */
  method FFunction(result: array<bv8>, R: seq<bv8>, K: seq<bv8>)
    requires result.Length == 4 && |R| == 4 && |K| == 6
    modifies result
    ensures result[..] == F(R, K)
  {
    TableLengths();
    var rNew := new bv8[6](_ => 0);
    var b := new bv8[6](_ => 0);
    Permute(rNew, R, Expansion, 48);
    ghost var expanded := rNew[..];
    assert expanded == Permuted(R, Expansion, 48);
    MixKey(b, rNew, K);
    ghost var mixed := b[..];
    assert mixed == XorBytes(expanded, K);
    var toPermute := new bv8[4](_ => 0);
    Substitute(toPermute, b[..]);
    Permute(result, toPermute[..], RoundPerm, 32);
  }

  /** The key-mixing loop of fFunction: b becomes rNew xor K, byte by byte. */
  method MixKey(b: array<bv8>, rNew: array<bv8>, K: seq<bv8>)
    requires b.Length == 6 && rNew.Length == 6 && |K| == 6 && b != rNew
    modifies b
    ensures b[..] == XorBytes(rNew[..], K)
  {
    for i := 0 to 6
      invariant forall k :: 0 <= k < i ==> b[k] == rNew[k] ^ K[k]
    {
      b[i] := rNew[i] ^ K[i];
    }
  }

  /**
   * The S-box loop of fFunction: the eight S-box values of input, two to a
   * byte, S1 in the high nibble of the first byte.
   */
  method Substitute(toPermute: array<bv8>, input: seq<bv8>)
    requires toPermute.Length == 4 && |input| == 6
    modifies toPermute
    ensures toPermute[..] == Pack(NibbleBits(SValues(input)))
  {
    ghost var vals := SValues(input);
    var sboxResult := new bv8[1](_ => 0);
    for i := 0 to 8
      invariant Assembled(toPermute[..], vals, i)
    {
      SBox(sboxResult, input, i);
      HighNibbleOf(sboxResult[0], vals[i] as bv8);
      ghost var before := toPermute[..];
      if i % 2 == 0 {
        toPermute[i / 2] := sboxResult[0];
      } else {
        toPermute[i / 2] := toPermute[i / 2] | (sboxResult[0] >> 4);
      }
      AssembleStep(before, toPermute[..], vals, i, sboxResult[0]);
    }
    AssembledAll(toPermute[..], vals);
  }

  /**
   * After i S-boxes: every byte whose two S-boxes are done holds both values,
   * and when i is odd the byte in progress holds S-box i in its high nibble.
   */
  ghost predicate Assembled(t: seq<bv8>, vals: seq<Nibble>, i: int)
    requires |t| == 4 && |vals| == 8 && 0 <= i <= 8
  {
    (forall k :: 0 <= k < 4 && 2 * k + 1 < i ==> t[k] == NibbleByte(vals, k))
    && (i % 2 == 1 ==> t[i / 2] == (vals[i - 1] as bv8) << 4)
  }

  /** One turn of the S-box loop keeps Assembled. */
  lemma AssembleStep(before: seq<bv8>, after: seq<bv8>, vals: seq<Nibble>, i: int, x: bv8)
    requires |before| == 4 && |vals| == 8 && 0 <= i < 8
    requires Assembled(before, vals, i)
    requires x == (vals[i] as bv8) << 4
    requires after == before[i / 2 := if i % 2 == 0 then x else before[i / 2] | (x >> 4)]
    ensures Assembled(after, vals, i + 1)
  {
    var h := i / 2;
    HighNibble(vals[i] as bv8);
    if i % 2 == 0 {
      assert i + 1 == 2 * h + 1;
      assert after[h] == (vals[i] as bv8) << 4;
    } else {
      assert i == 2 * h + 1;
      assert after[h] == NibbleByte(vals, h);
    }
  }

  /** Byte k of the S output as fFunction assembles it: value 2k high, value 2k + 1 low. */
  function NibbleByte(vals: seq<Nibble>, k: int): bv8
    requires |vals| == 8 && 0 <= k < 4
  {
    ((vals[2 * k] as bv8) << 4) | vals[2 * k + 1] as bv8
  }

  /** Once all eight S-boxes are done the bytes are the packed S output. */
  lemma AssembledAll(t: seq<bv8>, vals: seq<Nibble>)
    requires |t| == 4 && |vals| == 8
    requires Assembled(t, vals, 8)
    ensures t == Pack(NibbleBits(vals))
  {
    forall k | 0 <= k < 4 ensures t[k] == Pack(NibbleBits(vals))[k] {
      NibblesPacked(vals, k);
    }
  }

  /** A byte whose high nibble is v and whose low nibble is zero is v << 4. */
  lemma HighNibbleOf(x: bv8, v: bv8)
    requires x >> 4 == v && x & 0x0F == 0
    ensures x == v << 4
  {
  }
}
