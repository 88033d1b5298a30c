/**
 * Single-block DES (TDES.c, encryptBlock and decryptBlock).
 *
 * The initial permutation splits the 64-bit block into halves L0 and R0;
 * round i sets Li = Ri-1 and Ri = f(Ri-1, K[i]) xor Li-1; the block that
 * comes out is the final permutation of R16 || L16. Decryption runs the same
 * rounds with the subkeys in reverse order.
 */
module BlockCipher {
  import opened Bits
  import opened Permutation
  import opened Tables
  import opened RoundFunction

  /** The number of bytes in a block. */
  const BLOCK_BYTES: int := 8
  /** The number of bytes in a half-block. */
  const HALF_BLOCK_BYTES: int := 4

  /** The halves L and R of the block between two rounds. */
  datatype Halves = Halves(left: seq<bv8>, right: seq<bv8>)

  /** Both halves are 32 bits long. */
  predicate WellFormed(h: Halves)
  {
    |h.left| == HALF_BLOCK_BYTES && |h.right| == HALF_BLOCK_BYTES
  }

  /** Every subkey of a list is 48 bits long. */
  predicate ValidSubkeys(ks: seq<seq<bv8>>)
  {
    forall i :: 0 <= i < |ks| ==> |ks[i]| == 6
  }

  /** A subkey array as generateSubkeys fills it: 17 rows of six bytes, row 0 unused. */
  predicate Schedule(K: seq<seq<bv8>>)
  {
    |K| == ROUND_COUNT && ValidSubkeys(K)
  }

  /** L and R exchanged. */
  function Swap(h: Halves): Halves
  {
    Halves(h.right, h.left)
  }

  /** One round: L becomes R, and R becomes f(R, k) xor L. */
  function Round(h: Halves, k: seq<bv8>): (next: Halves)
    requires WellFormed(h) && |k| == 6
    ensures WellFormed(next)
  {
    Halves(h.right, XorBytes(F(h.right, k), h.left))
  }

  /** The rounds of ks applied in order, ks[0] first. */
  function Rounds(h: Halves, ks: seq<seq<bv8>>): (r: Halves)
    requires WellFormed(h) && ValidSubkeys(ks)
    ensures WellFormed(r)
    decreases |ks|
  {
    if ks == [] then h else Round(Rounds(h, ks[..|ks| - 1]), ks[|ks| - 1])
  }

  /** A list in reverse order. */
  function Reverse<T>(s: seq<T>): (r: seq<T>)
    ensures |r| == |s|
  {
    seq(|s|, i requires 0 <= i < |s| => s[|s| - 1 - i])
  }

  /** The halves L0 and R0 the initial permutation takes out of a block. */
  function InitialPermutation(block: seq<bv8>): (h: Halves)
    requires |block| == BLOCK_BYTES
    ensures WellFormed(h)
  {
    TableLengths();
    Halves(Permuted(block, LeftInitialPerm, 32), Permuted(block, RightInitialPerm, 32))
  }

  /** The final permutation of R || L, the output of a block operation. */
  function FinalPermutation(h: Halves): (block: seq<bv8>)
    requires WellFormed(h)
    ensures |block| == BLOCK_BYTES
  {
    TableLengths();
    Permuted(h.right + h.left, FinalPerm, 64)
  }

  /** The DES block operation with the subkeys ks in the order given. */
  function Cipher(block: seq<bv8>, ks: seq<seq<bv8>>): (r: seq<bv8>)
    requires |block| == BLOCK_BYTES && ValidSubkeys(ks)
    ensures |r| == BLOCK_BYTES
  {
    FinalPermutation(Rounds(InitialPermutation(block), ks))
  }

  /** encryptBlock: rounds 1 .. 16 use K[1] .. K[16]. */
  function EncryptBlockSpec(block: seq<bv8>, K: seq<seq<bv8>>): (r: seq<bv8>)
    requires |block| == BLOCK_BYTES && Schedule(K)
    ensures |r| == BLOCK_BYTES
  {
    Cipher(block, K[1..])
  }

  /** decryptBlock: rounds 1 .. 16 use K[16] .. K[1]. */
  function DecryptBlockSpec(block: seq<bv8>, K: seq<seq<bv8>>): (r: seq<bv8>)
    requires |block| == BLOCK_BYTES && Schedule(K)
    ensures |r| == BLOCK_BYTES
  {
    Cipher(block, Reverse(K[1..]))
  }

  /** A round applied to its own output with the halves exchanged gives back the exchanged input. */
  lemma RoundUndo(h: Halves, k: seq<bv8>)
    requires WellFormed(h) && |k| == 6
    ensures Round(Swap(Round(h, k)), k) == Swap(h)
  {
    XorCancel(F(h.right, k), h.left);
  }

  /** Running the rounds from the front: the first subkey is used first. */
  lemma {:induction false} RoundsFirst(h: Halves, k: seq<bv8>, ks: seq<seq<bv8>>)
    requires WellFormed(h) && |k| == 6 && ValidSubkeys(ks)
    ensures ValidSubkeys([k] + ks)
    ensures Rounds(h, [k] + ks) == Rounds(Round(h, k), ks)
    decreases |ks|
  {
    var all := [k] + ks;
    assert ValidSubkeys(all) by {
      forall i | 0 <= i < |all| ensures |all[i]| == 6 {
        if i > 0 { assert all[i] == ks[i - 1]; }
      }
    }
    if ks != [] {
      var n := |ks| - 1;
      assert all[..|all| - 1] == [k] + ks[..n];
      assert all[|all| - 1] == ks[n];
      RoundsFirst(h, k, ks[..n]);
    } else {
      assert all[..|all| - 1] == [];
    }
  }

  /**
   * The Feistel property: the rounds of ks, followed after exchanging the
   * halves by the rounds of ks reversed, give back the exchanged input.
   */
  lemma {:induction false} FeistelInverse(h: Halves, ks: seq<seq<bv8>>)
    requires WellFormed(h) && ValidSubkeys(ks)
    ensures ValidSubkeys(Reverse(ks))
    ensures Rounds(Swap(Rounds(h, ks)), Reverse(ks)) == Swap(h)
    decreases |ks|
  {
    assert ValidSubkeys(Reverse(ks)) by {
      forall i | 0 <= i < |ks| ensures |Reverse(ks)[i]| == 6 {
        assert Reverse(ks)[i] == ks[|ks| - 1 - i];
      }
    }
    if ks != [] {
      var n := |ks| - 1;
      var front := ks[..n];
      var k := ks[n];
      var g := Rounds(h, front);
      assert Reverse(ks) == [k] + Reverse(front);
      FeistelInverse(h, front);
      RoundsFirst(Swap(Round(g, k)), k, Reverse(front));
      RoundUndo(g, k);
    }
  }

  /** Reversing twice gives back the list. */
  lemma ReverseTwice<T>(s: seq<T>)
    ensures Reverse(Reverse(s)) == s
  {
  }

  /** The initial permutation applied to the final permutation of x splits x into its two halves. */
  lemma InitialOfFinal(x: seq<bv8>)
    requires |x| == BLOCK_BYTES
    ensures InitialPermutation(Permuted(x, FinalPerm, 64)) == Halves(x[..4], x[4..])
  {
    LeftOfFinal(x);
    RightOfFinal(x);
  }

  /** leftInitialPerm picks the first half of x back out of its final permutation. */
  lemma LeftOfFinal(x: seq<bv8>)
    requires |x| == BLOCK_BYTES
    ensures InitialPermutation(Permuted(x, FinalPerm, 64)).left == x[..4]
  {
    TableLengths();
    FinalPermInvertsInitial();
    var y := Permuted(x, FinalPerm, 64);
    var l := InitialPermutation(y).left;
    forall j | 1 <= j <= 32 ensures GetBit(l, j) == GetBit(x[..4], j) {
      PermutedBit(y, LeftInitialPerm, 32, j);
      PermutedBit(x, FinalPerm, 64, LeftInitialPerm[j - 1]);
      assert (LeftInitialPerm + RightInitialPerm)[j - 1] == LeftInitialPerm[j - 1];
      GetBitPrefix(x, 4, j);
    }
    BytesEqualByBits(l, x[..4]);
  }

  /** rightInitialPerm picks the second half of x back out of its final permutation. */
  lemma RightOfFinal(x: seq<bv8>)
    requires |x| == BLOCK_BYTES
    ensures InitialPermutation(Permuted(x, FinalPerm, 64)).right == x[4..]
  {
    TableLengths();
    FinalPermInvertsInitial();
    var y := Permuted(x, FinalPerm, 64);
    var r := InitialPermutation(y).right;
    assert x == x[..4] + x[4..];
    forall j | 1 <= j <= 32 ensures GetBit(r, j) == GetBit(x[4..], j) {
      PermutedBit(y, RightInitialPerm, 32, j);
      PermutedBit(x, FinalPerm, 64, RightInitialPerm[j - 1]);
      assert (LeftInitialPerm + RightInitialPerm)[j + 31] == RightInitialPerm[j - 1];
      GetBitConcat(x[..4], x[4..], j + 32);
    }
    BytesEqualByBits(r, x[4..]);
  }

  /** The final permutation undoes the initial one: FP(L0 || R0) is the block. */
  lemma FinalOfInitial(block: seq<bv8>)
    requires |block| == BLOCK_BYTES
    ensures FinalPermutation(Swap(InitialPermutation(block))) == block
  {
    TableLengths();
    InitialPermInvertsFinal();
    var h := InitialPermutation(block);
    var joined := h.left + h.right;
    var out := FinalPermutation(Swap(h));
    assert out == Permuted(joined, FinalPerm, 64);
    forall j | 1 <= j <= 64 ensures GetBit(out, j) == GetBit(block, j) {
      PermutedBit(joined, FinalPerm, 64, j);
      var p := FinalPerm[j - 1];
      GetBitConcat(h.left, h.right, p);
      if p <= 32 {
        PermutedBit(block, LeftInitialPerm, 32, p);
        assert (LeftInitialPerm + RightInitialPerm)[p - 1] == LeftInitialPerm[p - 1];
      } else {
        PermutedBit(block, RightInitialPerm, 32, p - 32);
        assert (LeftInitialPerm + RightInitialPerm)[p - 1] == RightInitialPerm[p - 33];
      }
    }
    BytesEqualByBits(out, block);
  }

  /**
   * Running the block operation with ks and then with ks reversed gives back
   * the block.
   */
  lemma CipherInverse(block: seq<bv8>, ks: seq<seq<bv8>>)
    requires |block| == BLOCK_BYTES && ValidSubkeys(ks)
    ensures ValidSubkeys(Reverse(ks))
    ensures Cipher(Cipher(block, ks), Reverse(ks)) == block
  {
    var h0 := InitialPermutation(block);
    var h := Rounds(h0, ks);
    var x := h.right + h.left;
    assert x[..4] == h.right && x[4..] == h.left;
    InitialOfFinal(x);
    FeistelInverse(h0, ks);
    FinalOfInitial(block);
  }

  /** decryptBlock undoes encryptBlock under the same subkeys. */
  lemma DecryptEncrypt(block: seq<bv8>, K: seq<seq<bv8>>)
    requires |block| == BLOCK_BYTES && Schedule(K)
    ensures DecryptBlockSpec(EncryptBlockSpec(block, K), K) == block
  {
    CipherInverse(block, K[1..]);
  }

  /** encryptBlock undoes decryptBlock under the same subkeys. */
  lemma EncryptDecrypt(block: seq<bv8>, K: seq<seq<bv8>>)
    requires |block| == BLOCK_BYTES && Schedule(K)
    ensures EncryptBlockSpec(DecryptBlockSpec(block, K), K) == block
  {
    var ks := Reverse(K[1..]);
    assert ValidSubkeys(ks) by {
      forall i | 0 <= i < |ks| ensures |ks[i]| == 6 {
        assert ks[i] == K[1..][|ks| - 1 - i];
      }
    }
    CipherInverse(block, ks);
    ReverseTwice(K[1..]);
  }

  /**
   * encryptBlock: the block is replaced by its encryption under the subkeys
   * K[1] .. K[16].
   */
  method EncryptBlock(block: array<bv8>, K: seq<seq<bv8>>)
    requires block.Length == BLOCK_BYTES && Schedule(K)
    modifies block
    ensures block[..] == EncryptBlockSpec(old(block[..]), K)
  {
    var l, r := SplitBlock(block[..]);
    l, r := RunRounds(l, r, K[1..]);
    JoinBlock(block, l, r);
  }

  /**
   * decryptBlock: the block is replaced by its decryption, the rounds using
   * K[16] .. K[1].
   */
  method DecryptBlock(block: array<bv8>, K: seq<seq<bv8>>)
    requires block.Length == BLOCK_BYTES && Schedule(K)
    modifies block
    ensures block[..] == DecryptBlockSpec(old(block[..]), K)
  {
    ReverseValid(K[1..]);
    var l, r := SplitBlock(block[..]);
    l, r := RunRounds(l, r, Reverse(K[1..]));
    JoinBlock(block, l, r);
  }

  /**
   * The round loop of encryptBlock and decryptBlock: round i + 1 takes L[i]
   * and R[i] to L[i + 1] and R[i + 1] with subkey ks[i]. The L and R rows of
   * the source are kept as the previous and the current round's buffers.
   */
  method RunRounds(l0: array<bv8>, r0: array<bv8>, ks: seq<seq<bv8>>) returns (l: array<bv8>, r: array<bv8>)
    requires l0.Length == HALF_BLOCK_BYTES && r0.Length == HALF_BLOCK_BYTES && ValidSubkeys(ks)
    ensures l.Length == HALF_BLOCK_BYTES && r.Length == HALF_BLOCK_BYTES
    ensures Halves(l[..], r[..]) == Rounds(Halves(l0[..], r0[..]), ks)
  {
    ghost var h0 := Halves(l0[..], r0[..]);
    l, r := l0, r0;
    for i := 0 to |ks|
      invariant l.Length == HALF_BLOCK_BYTES && r.Length == HALF_BLOCK_BYTES
      invariant ValidSubkeys(ks[..i]) && Halves(l[..], r[..]) == Rounds(h0, ks[..i])
    {
      var lNext, rNext := FeistelRound(l, r, ks[i]);
      RoundsStep(h0, ks, i);
      l, r := lNext, rNext;
    }
    assert ks[..|ks|] == ks;
  }

  /** Running one more subkey is one more round on the halves so far. */
  lemma RoundsStep(h: Halves, ks: seq<seq<bv8>>, i: int)
    requires WellFormed(h) && ValidSubkeys(ks) && 0 <= i < |ks|
    ensures ValidSubkeys(ks[..i]) && ValidSubkeys(ks[..i + 1])
    ensures Rounds(h, ks[..i + 1]) == Round(Rounds(h, ks[..i]), ks[i])
  {
    assert ks[..i + 1][..i] == ks[..i];
  }

  /** A reversed list of subkeys is a list of subkeys. */
  lemma ReverseValid(ks: seq<seq<bv8>>)
    requires ValidSubkeys(ks)
    ensures ValidSubkeys(Reverse(ks))
  {
    forall i | 0 <= i < |ks| ensures |Reverse(ks)[i]| == 6 {
      assert Reverse(ks)[i] == ks[|ks| - 1 - i];
    }
  }

  /** The start of a block operation: L[0] and R[0] are the two halves of the initial permutation. */
  method SplitBlock(block: seq<bv8>) returns (l: array<bv8>, r: array<bv8>)
    requires |block| == BLOCK_BYTES
    ensures fresh(l) && fresh(r)
    ensures l.Length == HALF_BLOCK_BYTES && r.Length == HALF_BLOCK_BYTES
    ensures Halves(l[..], r[..]) == InitialPermutation(block)
  {
    TableLengths();
    l := new bv8[HALF_BLOCK_BYTES](_ => 0);
    r := new bv8[HALF_BLOCK_BYTES](_ => 0);
    Permute(l, block, LeftInitialPerm, 32);
    Permute(r, block, RightInitialPerm, 32);
  }

  /**
   * One pass of the round loop of a block operation: R[i] is f(R[i - 1], k),
   * then byte by byte L[i] takes R[i - 1] and R[i] is combined with L[i - 1].
   */
  method FeistelRound(l: array<bv8>, r: array<bv8>, k: seq<bv8>) returns (lNext: array<bv8>, rNext: array<bv8>)
    requires l.Length == HALF_BLOCK_BYTES && r.Length == HALF_BLOCK_BYTES && |k| == 6
    ensures fresh(lNext) && fresh(rNext)
    ensures lNext.Length == HALF_BLOCK_BYTES && rNext.Length == HALF_BLOCK_BYTES
    ensures Halves(lNext[..], rNext[..]) == Round(Halves(l[..], r[..]), k)
  {
    lNext := new bv8[HALF_BLOCK_BYTES](_ => 0);
    rNext := new bv8[HALF_BLOCK_BYTES](_ => 0);
    FFunction(rNext, r[..], k);
    ghost var f := rNext[..];
    for j := 0 to HALF_BLOCK_BYTES
      modifies lNext, rNext
      invariant RoundBytes(lNext[..], rNext[..], f, l[..], r[..], j)
    {
      ghost var lBefore, rBefore := lNext[..], rNext[..];
      lNext[j] := r[j];
      rNext[j] := rNext[j] ^ l[j];
      RoundByteStep(lBefore, rBefore, lNext[..], rNext[..], f, l[..], r[..], j);
    }
    RoundBytesDone(lNext[..], rNext[..], f, l[..], r[..]);
  }

  /** After j passes of the byte loop: bytes 0 .. j - 1 are done, the rest of R[i] still holds f. */
  ghost predicate RoundBytes(ln: seq<bv8>, rn: seq<bv8>, f: seq<bv8>, l: seq<bv8>, r: seq<bv8>, j: int)
    requires |ln| == |rn| == |f| == |l| == |r| == HALF_BLOCK_BYTES && 0 <= j <= HALF_BLOCK_BYTES
  {
    (forall m :: 0 <= m < j ==> ln[m] == r[m] && rn[m] == f[m] ^ l[m])
    && (forall m :: j <= m < HALF_BLOCK_BYTES ==> rn[m] == f[m])
  }

  /** One pass of the byte loop keeps RoundBytes. */
  lemma RoundByteStep(ln0: seq<bv8>, rn0: seq<bv8>, ln1: seq<bv8>, rn1: seq<bv8>, f: seq<bv8>, l: seq<bv8>, r: seq<bv8>, j: int)
    requires |ln0| == |rn0| == |f| == |l| == |r| == HALF_BLOCK_BYTES && 0 <= j < HALF_BLOCK_BYTES
    requires RoundBytes(ln0, rn0, f, l, r, j)
    requires ln1 == ln0[j := r[j]] && rn1 == rn0[j := rn0[j] ^ l[j]]
    ensures RoundBytes(ln1, rn1, f, l, r, j + 1)
  {
  }

  /** When the byte loop is done, L[i] is R[i - 1] and R[i] is f xor L[i - 1]. */
  lemma RoundBytesDone(ln: seq<bv8>, rn: seq<bv8>, f: seq<bv8>, l: seq<bv8>, r: seq<bv8>)
    requires |ln| == |rn| == |f| == |l| == |r| == HALF_BLOCK_BYTES
    requires RoundBytes(ln, rn, f, l, r, HALF_BLOCK_BYTES)
    ensures ln == r && rn == XorBytes(f, l)
  {
  }

  /**
   * The end of a block operation: the result buffer holds R[16] then L[16],
   * and the block becomes its final permutation.
   */
  method JoinBlock(block: array<bv8>, l: array<bv8>, r: array<bv8>)
    requires block.Length == BLOCK_BYTES && l.Length == HALF_BLOCK_BYTES && r.Length == HALF_BLOCK_BYTES
    requires block != l && block != r
    modifies block
    ensures block[..] == FinalPermutation(Halves(l[..], r[..]))
  {
    TableLengths();
    var result := new bv8[BLOCK_BYTES](_ => 0);
    for i := 0 to BLOCK_BYTES
      invariant forall m :: 0 <= m < i ==> result[m] == (r[..] + l[..])[m]
    {
      if i >= HALF_BLOCK_BYTES {
        result[i] := l[i - HALF_BLOCK_BYTES];
      } else {
        result[i] := r[i];
      }
    }
    assert result[..] == r[..] + l[..];
    Permute(block, result[..], FinalPerm, 64);
  }
}
