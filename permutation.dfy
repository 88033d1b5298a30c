/**
 * Table-driven bit permutation (TDES.c, permute).
 *
 * permute(output, input, perm, n) sets bit i of output to bit perm[i - 1] of
 * input for i = 1 .. n, then clears the rest of the last output byte it
 * touched. It both selects and reorders: n may be smaller or larger than the
 * input's width. Output bytes past the first ceil(n / 8) are left alone.
 */
module Permutation {
  import opened Bits

  /** The table's first n entries name bits of a width-bit input. */
  predicate ValidTable(perm: seq<int>, n: int, width: int)
  {
    0 <= n <= |perm| && forall k :: 0 <= k < n ==> 1 <= perm[k] <= width
  }

  /** The bits permute writes, in output order: bit k + 1 of the output is input bit perm[k]. */
  function Select(input: seq<bv8>, perm: seq<int>, n: int): (bits: seq<Bit>)
    requires ValidTable(perm, n, 8 * |input|)
    ensures |bits| == n
  {
    seq(n, k requires 0 <= k < n => GetBit(input, perm[k]))
  }

  /** The first ceil(n / 8) bytes permute leaves in its output. */
  function Permuted(input: seq<bv8>, perm: seq<int>, n: int): (r: seq<bv8>)
    requires ValidTable(perm, n, 8 * |input|)
    ensures |r| == (n + 7) / 8
  {
    Pack(Select(input, perm, n))
  }

  /** Bit j of a permuted string is input bit perm[j - 1] for j <= n and zero up to the byte boundary. */
  lemma PermutedBit(input: seq<bv8>, perm: seq<int>, n: int, j: int)
    requires ValidTable(perm, n, 8 * |input|)
    requires 1 <= j <= 8 * ((n + 7) / 8)
    ensures GetBit(Permuted(input, perm, n), j) == if j <= n then GetBit(input, perm[j - 1]) else 0
  {
    GetBitPack(Select(input, perm, n), j);
  }

  /** Bits 1 .. hi - 1 of out are the input bits the table names for them. */
  predicate CopiedBits(out: seq<bv8>, input: seq<bv8>, perm: seq<int>, n: int, hi: int)
    requires ValidTable(perm, n, 8 * |input|) && hi <= n + 1 && hi - 1 <= 8 * |out|
  {
    forall j :: 1 <= j < hi ==> GetBit(out, j) == GetBit(input, perm[j - 1])
  }

  /** Bits lo .. hi - 1 of out are zero. */
  predicate ClearedBits(out: seq<bv8>, lo: int, hi: int)
    requires 1 <= lo && hi - 1 <= 8 * |out|
  {
    forall j :: lo <= j < hi ==> GetBit(out, j) == 0
  }

  /**
   * permute: output bits 1 .. n come from input through the table, the bits
   * after n up to the next byte boundary are cleared, and the output bytes
   * after that are unchanged.
   */
  method Permute(output: array<bv8>, input: seq<bv8>, perm: seq<int>, n: int)
    requires ValidTable(perm, n, 8 * |input|)
    requires (n + 7) / 8 <= output.Length
    modifies output
    ensures forall j :: 1 <= j <= n ==> GetBit(output[..], j) == GetBit(input, perm[j - 1])
    ensures forall j :: n < j <= 8 * ((n + 7) / 8) ==> GetBit(output[..], j) == 0
    ensures output[..(n + 7) / 8] == Permuted(input, perm, n)
    ensures output[(n + 7) / 8..] == old(output[(n + 7) / 8..])
  {
    var used := (n + 7) / 8;
    ByteCount(n);
    ghost var tail := output[used..];
    for i := 1 to n + 1
      invariant CopiedBits(output[..], input, perm, n, i)
      invariant output[used..] == tail
    {
      ghost var before := output[..];
      PutBit(output, i, GetBit(input, perm[i - 1]));
      CopyStep(before, output[..], input, perm, n, i, used, tail);
    }
    if n % 8 != 0 {
      for i := 1 to 8 - n % 8 + 1
        invariant CopiedBits(output[..], input, perm, n, n + 1)
        invariant ClearedBits(output[..], n + 1, n + i)
        invariant output[used..] == tail
      {
        ghost var before := output[..];
        PutBit(output, n + i, 0);
        ClearStep(before, output[..], input, perm, n, n + i, used, tail);
      }
    }
    assert CopiedBits(output[..], input, perm, n, n + 1);
    assert ClearedBits(output[..], n + 1, 8 * used + 1);
    PermutedFromBits(output[..], input, perm, n);
  }

  /** ceil(n / 8) bytes hold n bits and the n % 8 != 0 padding bits that follow them. */
  lemma ByteCount(n: int)
    requires 0 <= n
    ensures n <= 8 * ((n + 7) / 8) < n + 8
    ensures 8 * ((n + 7) / 8) == if n % 8 == 0 then n else n + 8 - n % 8
  {
  }

  /** One pass of permute's first loop keeps its invariant. */
  lemma CopyStep(before: seq<bv8>, after: seq<bv8>, input: seq<bv8>, perm: seq<int>, n: int, i: int, used: int, tail: seq<bv8>)
    requires ValidTable(perm, n, 8 * |input|) && 1 <= i <= n && used == (n + 7) / 8 && used <= |before| == |after|
    requires CopiedBits(before, input, perm, n, i) && before[used..] == tail
    requires GetBit(after, i) == GetBit(input, perm[i - 1])
    requires forall j :: 1 <= j <= 8 * |before| && j != i ==> GetBit(after, j) == GetBit(before, j)
    requires forall k :: 0 <= k < |before| && k != (i - 1) / 8 ==> after[k] == before[k]
    ensures CopiedBits(after, input, perm, n, i + 1) && after[used..] == tail
  {
    assert after[used..] == before[used..];
  }

  /** One pass of permute's second loop keeps its invariant. */
  lemma ClearStep(before: seq<bv8>, after: seq<bv8>, input: seq<bv8>, perm: seq<int>, n: int, i: int, used: int, tail: seq<bv8>)
    requires ValidTable(perm, n, 8 * |input|) && n < i <= 8 * used && used == (n + 7) / 8 && used <= |before| == |after|
    requires CopiedBits(before, input, perm, n, n + 1) && ClearedBits(before, n + 1, i) && before[used..] == tail
    requires GetBit(after, i) == 0
    requires forall j :: 1 <= j <= 8 * |before| && j != i ==> GetBit(after, j) == GetBit(before, j)
    requires forall k :: 0 <= k < |before| && k != (i - 1) / 8 ==> after[k] == before[k]
    ensures CopiedBits(after, input, perm, n, n + 1) && ClearedBits(after, n + 1, i + 1) && after[used..] == tail
  {
    assert after[used..] == before[used..];
  }

  /** A buffer whose bits are the ones permute writes holds Permuted in its first ceil(n / 8) bytes. */
  lemma PermutedFromBits(out: seq<bv8>, input: seq<bv8>, perm: seq<int>, n: int)
    requires ValidTable(perm, n, 8 * |input|)
    requires (n + 7) / 8 <= |out|
    requires forall j :: 1 <= j <= n ==> GetBit(out, j) == GetBit(input, perm[j - 1])
    requires forall j :: n < j <= 8 * ((n + 7) / 8) ==> GetBit(out, j) == 0
    ensures out[..(n + 7) / 8] == Permuted(input, perm, n)
  {
    var used := (n + 7) / 8;
    forall j | 1 <= j <= 8 * used
      ensures GetBit(out[..used], j) == GetBit(Permuted(input, perm, n), j)
    {
      GetBitPrefix(out, used, j);
      PermutedBit(input, perm, n, j);
    }
    BytesEqualByBits(out[..used], Permuted(input, perm, n));
  }
}
