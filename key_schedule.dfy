/**
 * The DES key schedule (TDES.c, generateSubkeys).
 *
 * Permuted choice 1 splits the 64-bit key into two 28-bit halves C0 and D0.
 * Round i rotates both halves left by subkeyShiftSchedule[i] places and
 * permuted choice 2 picks the 48 bits of subkey K[i] out of Ci || Di.
 * Halves are specified as bit strings; the buffers generateSubkeys keeps them
 * in are read through GetBit.
 */
module KeySchedule {
  import opened Bits
  import opened Permutation
  import opened Tables

  /** The number of bits in one key half. */
  const HALF_BITS: int := 28

  /** h rotated left by s places: bit k of the result is bit k + s of h, counted modulo |h|. */
  function Rotate(h: seq<Bit>, s: int): (r: seq<Bit>)
    requires 0 <= s <= |h|
    ensures |r| == |h|
    ensures forall k :: 0 <= k < |h| ==> r[k] == if k + s < |h| then h[k + s] else h[k + s - |h|]
  {
    h[s..] + h[..s]
  }

  /**
   * The rotation of the halves after rounds 1 .. i, reduced to 1 .. 28 once
   * it passes 28 (0 before round 1).
   */
  function Offset(i: int): (t: int)
    requires 0 <= i < ROUND_COUNT
    ensures 0 <= t <= HALF_BITS
  {
    ShiftsAreOneOrTwo();
    if i == 0 then 0
    else
      var t := Offset(i - 1) + ShiftSchedule[i];
      if t <= HALF_BITS then t else t - HALF_BITS
  }

  /** The left half Ci after round i: C0 (permuted choice 1, left part) rotated by Offset(i). */
  function C(key: seq<bv8>, i: int): (h: seq<Bit>)
    requires |key| == 8 && 0 <= i < ROUND_COUNT
    ensures |h| == HALF_BITS
  {
    TableLengths();
    Rotate(Select(key, LeftSubkeyPerm, HALF_BITS), Offset(i))
  }

  /** The right half Di after round i: D0 (permuted choice 1, right part) rotated by Offset(i). */
  function D(key: seq<bv8>, i: int): (h: seq<Bit>)
    requires |key| == 8 && 0 <= i < ROUND_COUNT
    ensures |h| == HALF_BITS
  {
    TableLengths();
    Rotate(Select(key, RightSubkeyPerm, HALF_BITS), Offset(i))
  }

  /** Subkey i (1 .. 16): permuted choice 2 applied to Ci || Di, six bytes. */
  function Subkey(key: seq<bv8>, i: int): (k: seq<bv8>)
    requires |key| == 8 && 1 <= i < ROUND_COUNT
    ensures |k| == 6
  {
    TableLengths();
    Permuted(Pack(C(key, i) + D(key, i)), SubkeyPerm, 48)
  }

  /** The first 28 bits of a buffer, as a bit string. */
  function HalfBits(h: seq<bv8>): (r: seq<Bit>)
    requires 4 <= |h|
    ensures |r| == HALF_BITS
    ensures forall k :: 0 <= k < HALF_BITS ==> r[k] == GetBit(h, k + 1)
  {
    seq(HALF_BITS, k requires 0 <= k < HALF_BITS => GetBit(h, k + 1))
  }

  /** Rotating by a and then by b is rotating by a + b, less |h| when that passes |h|. */
  lemma RotateTwice(h: seq<Bit>, a: int, b: int)
    requires 0 <= a <= |h| && 0 <= b <= |h|
    ensures Rotate(Rotate(h, a), b) == Rotate(h, if a + b <= |h| then a + b else a + b - |h|)
  {
  }

  /** Rotating by nothing changes nothing. */
  lemma RotateNone(h: seq<Bit>)
    ensures Rotate(h, 0) == h
  {
  }

  /** C0 and D0 are the halves permuted choice 1 selects from the key. */
  lemma FirstHalves(key: seq<bv8>)
    requires |key| == 8
    ensures |LeftSubkeyPerm| == HALF_BITS && C(key, 0) == Select(key, LeftSubkeyPerm, HALF_BITS)
    ensures |RightSubkeyPerm| == HALF_BITS && D(key, 0) == Select(key, RightSubkeyPerm, HALF_BITS)
  {
    TableLengths();
    RotateNone(Select(key, LeftSubkeyPerm, HALF_BITS));
    RotateNone(Select(key, RightSubkeyPerm, HALF_BITS));
  }

  /** Round i rotates Ci-1 and Di-1 left by subkeyShiftSchedule[i] places. */
  lemma HalvesStep(key: seq<bv8>, i: int)
    requires |key| == 8 && 1 <= i < ROUND_COUNT
    ensures ShiftSchedule[i] == 1 || ShiftSchedule[i] == 2
    ensures C(key, i) == Rotate(C(key, i - 1), ShiftSchedule[i])
    ensures D(key, i) == Rotate(D(key, i - 1), ShiftSchedule[i])
  {
    TableLengths();
    ShiftsAreOneOrTwo();
    RotateTwice(Select(key, LeftSubkeyPerm, HALF_BITS), Offset(i - 1), ShiftSchedule[i]);
    RotateTwice(Select(key, RightSubkeyPerm, HALF_BITS), Offset(i - 1), ShiftSchedule[i]);
  }

  /** The sixteen shifts of the schedule add up to one full turn of 28. */
  lemma FullTurn()
    ensures Offset(16) == HALF_BITS
  {
    HalfTurn();
    assert Offset(9) == 15 && Offset(10) == 17 && Offset(11) == 19 && Offset(12) == 21;
    assert Offset(13) == 23 && Offset(14) == 25 && Offset(15) == 27;
  }

  /** The first eight shifts add up to 14. */
  lemma HalfTurn()
    ensures Offset(8) == 14
  {
    assert Offset(1) == 1 && Offset(2) == 2 && Offset(3) == 4 && Offset(4) == 6;
    assert Offset(5) == 8 && Offset(6) == 10 && Offset(7) == 12;
  }

  /** After the sixteenth round the halves are back where they started: C16 = C0 and D16 = D0. */
  lemma HalvesReturn(key: seq<bv8>)
    requires |key| == 8
    ensures C(key, 16) == C(key, 0) && D(key, 16) == D(key, 0)
  {
    TableLengths();
    FullTurn();
    var c0 := Select(key, LeftSubkeyPerm, HALF_BITS);
    var d0 := Select(key, RightSubkeyPerm, HALF_BITS);
    RotateNone(c0);
    RotateNone(d0);
    assert Rotate(c0, HALF_BITS) == c0;
    assert Rotate(d0, HALF_BITS) == d0;
  }

  /**
   * generateSubkeys: K[i] becomes subkey i for rounds 1 .. 16 and K[0] is
   * left as it was. The c and d rows of the source are kept as the previous
   * and the current round's buffers.
   */
  method GenerateSubkeys(K: array<seq<bv8>>, key: seq<bv8>)
    requires K.Length == ROUND_COUNT && |key| == 8
    modifies K
    ensures K[0] == old(K[0])
    ensures forall i :: 1 <= i < ROUND_COUNT ==> K[i] == Subkey(key, i)
  {
    var cRow, dRow := InitialHalves(key);
    assert HalvesAfter(cRow, dRow, key, 0);
    for i := 1 to ROUND_COUNT
      invariant |cRow| == 7 && |dRow| == 4
      invariant HalvesAfter(cRow, dRow, key, i - 1)
      invariant K[0] == old(K[0])
      invariant SubkeysSoFar(K[..], key, i)
    {
      HalvesStep(key, i);
      var cNext, dNext, k := NextRound(cRow, dRow, ShiftSchedule[i]);
      RoundState(key, i, cRow, dRow, cNext[..], dNext[..]);
      ghost var before := K[..];
      K[i] := k;
      SubkeyStored(before, K[..], key, i);
      cRow, dRow := cNext[..], dNext[..];
    }
  }

  /** Buffers c and d hold the halves Cn and Dn. */
  ghost predicate HalvesAfter(c: seq<bv8>, d: seq<bv8>, key: seq<bv8>, n: int)
    requires 4 <= |c| && 4 <= |d| && |key| == 8 && 0 <= n < ROUND_COUNT
  {
    HalfBits(c) == C(key, n) && HalfBits(d) == D(key, n)
  }

  /** Entries 1 .. n - 1 of ks are the subkeys of key. */
  ghost predicate SubkeysSoFar(ks: seq<seq<bv8>>, key: seq<bv8>, n: int)
    requires |ks| == ROUND_COUNT && |key| == 8 && 1 <= n <= ROUND_COUNT
  {
    forall r :: 1 <= r < n ==> ks[r] == Subkey(key, r)
  }

  /** Storing subkey i extends SubkeysSoFar by one entry. */
  lemma SubkeyStored(before: seq<seq<bv8>>, after: seq<seq<bv8>>, key: seq<bv8>, i: int)
    requires |before| == ROUND_COUNT && |key| == 8 && 1 <= i < ROUND_COUNT
    requires SubkeysSoFar(before, key, i)
    requires after == before[i := Subkey(key, i)]
    ensures SubkeysSoFar(after, key, i + 1)
  {
  }

  /** The start of generateSubkeys: c[0] and d[0] are permuted choice 1 of the key, C0 and D0. */
  method InitialHalves(key: seq<bv8>) returns (c0: seq<bv8>, d0: seq<bv8>)
    requires |key| == 8
    ensures |c0| == 7 && |d0| == 4
    ensures HalfBits(c0) == C(key, 0) && HalfBits(d0) == D(key, 0)
  {
    FirstHalves(key);
    var c := new bv8[7](_ => 0);
    var d := new bv8[4](_ => 0);
    Permute(c, key, LeftSubkeyPerm, HALF_BITS);
    Permute(d, key, RightSubkeyPerm, HALF_BITS);
    HalfFromPermute(c[..], key, LeftSubkeyPerm);
    HalfFromPermute(d[..], key, RightSubkeyPerm);
    c0, d0 := c[..], d[..];
  }

  /** Round i of the schedule takes Ci-1, Di-1 to Ci, Di and subkey i. */
  lemma RoundState(key: seq<bv8>, i: int, c: seq<bv8>, d: seq<bv8>, cNext: seq<bv8>, dNext: seq<bv8>)
    requires |key| == 8 && 1 <= i < ROUND_COUNT && 4 <= |c| && 4 <= |d| && 4 <= |cNext| && 4 <= |dNext|
    requires ShiftSchedule[i] == 1 || ShiftSchedule[i] == 2
    requires HalvesAfter(c, d, key, i - 1)
    requires HalfBits(cNext) == Rotate(HalfBits(c), ShiftSchedule[i])
    requires HalfBits(dNext) == Rotate(HalfBits(d), ShiftSchedule[i])
    ensures HalvesAfter(cNext, dNext, key, i)
    ensures |SubkeyPerm| == 48 && Permuted(Pack(HalfBits(cNext) + HalfBits(dNext)), SubkeyPerm, 48) == Subkey(key, i)
  {
    TableLengths();
    HalvesStep(key, i);
  }

  /**
   * One pass of the round loop of generateSubkeys: the halves c[i] and d[i]
   * are c[i - 1] and d[i - 1] rotated left by s, d[i] is appended to c[i] as
   * bits 29 .. 56, and the subkey is permuted choice 2 of that register.
   */
  method NextRound(c: seq<bv8>, d: seq<bv8>, s: int) returns (cNext: array<bv8>, dNext: array<bv8>, k: seq<bv8>)
    requires |c| == 7 && |d| == 4 && (s == 1 || s == 2)
    ensures fresh(cNext) && fresh(dNext) && cNext.Length == 7 && dNext.Length == 4
    ensures HalfBits(cNext[..]) == Rotate(HalfBits(c), s) && HalfBits(dNext[..]) == Rotate(HalfBits(d), s)
    ensures |SubkeyPerm| == 48 && k == Permuted(Pack(HalfBits(cNext[..]) + HalfBits(dNext[..])), SubkeyPerm, 48)
  {
    TableLengths();
    cNext := new bv8[7](_ => 0);
    dNext := new bv8[4](_ => 0);
    RotateHalves(cNext, dNext, c, d, s);
    JoinHalves(cNext, dNext[..]);
    var buffer := new bv8[6](_ => 0);
    Permute(buffer, cNext[..], SubkeyPerm, 48);
    SubkeyFromBuffer(cNext[..], dNext[..]);
    k := buffer[..];
  }

  /** The joining loop of generateSubkeys: bits 29 .. 56 of c[i] become the bits of d[i]. */
  method JoinHalves(cNext: array<bv8>, dn: seq<bv8>)
    requires cNext.Length == 7 && |dn| == 4
    modifies cNext
    ensures HalfBits(cNext[..]) == HalfBits(old(cNext[..]))
    ensures Joined(cNext[..], dn, HALF_BITS + 1)
  {
    ghost var cBits := HalfBits(cNext[..]);
    for j := 1 to HALF_BITS + 1
      invariant HalfBits(cNext[..]) == cBits
      invariant Joined(cNext[..], dn, j)
    {
      ghost var before := cNext[..];
      PutBit(cNext, HALF_BITS + j, GetBit(dn, j));
      JoinStep(before, cNext[..], dn, j);
    }
  }

  /** Bits 29 .. 28 + j - 1 of cd are bits 1 .. j - 1 of dn. */
  ghost predicate Joined(cd: seq<bv8>, dn: seq<bv8>, j: int)
    requires |cd| == 7 && |dn| == 4 && 1 <= j <= HALF_BITS + 1
  {
    forall m :: HALF_BITS < m < HALF_BITS + j ==> GetBit(cd, m) == GetBit(dn, m - HALF_BITS)
  }

  /**
   * One round of the rotation in generateSubkeys: bits 1 .. 28 - s of the new
   * halves are bits 1 + s .. 28 of the old ones, and the s bits shifted out
   * at the front are written back at the end (bits 27 and 28 when s is 2,
   * bit 28 when s is 1).
   */
  method RotateHalves(cNext: array<bv8>, dNext: array<bv8>, c: seq<bv8>, d: seq<bv8>, s: int)
    requires cNext.Length == 7 && dNext.Length == 4 && cNext != dNext
    requires |c| == 7 && |d| == 4 && (s == 1 || s == 2)
    modifies cNext, dNext
    ensures HalfBits(cNext[..]) == Rotate(HalfBits(c), s)
    ensures HalfBits(dNext[..]) == Rotate(HalfBits(d), s)
  {
    for j := 1 to HALF_BITS - s + 1
      invariant ShiftedPrefix(cNext[..], c, s, j - 1)
      invariant ShiftedPrefix(dNext[..], d, s, j - 1)
    {
      ghost var c0 := cNext[..];
      PutBit(cNext, j, GetBit(c, j + s));
      ShiftStep(c0, cNext[..], c, s, j);
      ghost var d0 := dNext[..];
      PutBit(dNext, j, GetBit(d, j + s));
      ShiftStep(d0, dNext[..], d, s, j);
    }
    ghost var c0 := cNext[..];
    ghost var d0 := dNext[..];
    if s > 1 {
      PutBit(cNext, HALF_BITS - 1, GetBit(c, 1));
      ghost var c1 := cNext[..];
      PutBit(cNext, HALF_BITS, GetBit(c, 2));
      WrapTwo(c0, c1, cNext[..], c);
      PutBit(dNext, HALF_BITS - 1, GetBit(d, 1));
      ghost var d1 := dNext[..];
      PutBit(dNext, HALF_BITS, GetBit(d, 2));
      WrapTwo(d0, d1, dNext[..], d);
    } else {
      PutBit(cNext, HALF_BITS, GetBit(c, 1));
      WrapOne(c0, cNext[..], c);
      PutBit(dNext, HALF_BITS, GetBit(d, 1));
      WrapOne(d0, dNext[..], d);
    }
  }

  /** Bits 1 .. m of next are bits 1 + s .. m + s of prev. */
  predicate ShiftedPrefix(next: seq<bv8>, prev: seq<bv8>, s: int, m: int)
    requires 4 <= |next| && 4 <= |prev| && 1 <= s <= 2 && 0 <= m <= HALF_BITS - s
  {
    forall t :: 1 <= t <= m ==> GetBit(next, t) == GetBit(prev, t + s)
  }

  /** One pass of the rotation loop keeps its invariant. */
  lemma ShiftStep(before: seq<bv8>, after: seq<bv8>, prev: seq<bv8>, s: int, j: int)
    requires 4 <= |before| == |after| && 4 <= |prev| && 1 <= s <= 2 && 1 <= j <= HALF_BITS - s
    requires ShiftedPrefix(before, prev, s, j - 1)
    requires GetBit(after, j) == GetBit(prev, j + s)
    requires forall m :: 1 <= m <= 8 * |before| && m != j ==> GetBit(after, m) == GetBit(before, m)
    ensures ShiftedPrefix(after, prev, s, j)
  {
  }

  /** Writing bits 27 and 28 after the loop completes a rotation by two. */
  lemma WrapTwo(b0: seq<bv8>, b1: seq<bv8>, b2: seq<bv8>, prev: seq<bv8>)
    requires 4 <= |b0| == |b1| == |b2| && 4 <= |prev|
    requires ShiftedPrefix(b0, prev, 2, HALF_BITS - 2)
    requires GetBit(b1, HALF_BITS - 1) == GetBit(prev, 1)
    requires forall m :: 1 <= m <= 8 * |b0| && m != HALF_BITS - 1 ==> GetBit(b1, m) == GetBit(b0, m)
    requires GetBit(b2, HALF_BITS) == GetBit(prev, 2)
    requires forall m :: 1 <= m <= 8 * |b1| && m != HALF_BITS ==> GetBit(b2, m) == GetBit(b1, m)
    ensures HalfBits(b2) == Rotate(HalfBits(prev), 2)
  {
    RotatedHalf(b2, prev, 2);
  }

  /** Writing bit 28 after the loop completes a rotation by one. */
  lemma WrapOne(b0: seq<bv8>, b1: seq<bv8>, prev: seq<bv8>)
    requires 4 <= |b0| == |b1| && 4 <= |prev|
    requires ShiftedPrefix(b0, prev, 1, HALF_BITS - 1)
    requires GetBit(b1, HALF_BITS) == GetBit(prev, 1)
    requires forall m :: 1 <= m <= 8 * |b0| && m != HALF_BITS ==> GetBit(b1, m) == GetBit(b0, m)
    ensures HalfBits(b1) == Rotate(HalfBits(prev), 1)
  {
    RotatedHalf(b1, prev, 1);
  }

  /** A buffer whose bits are those of the rotation loop holds the rotated half. */
  lemma RotatedHalf(next: seq<bv8>, prev: seq<bv8>, s: int)
    requires 4 <= |next| && 4 <= |prev| && (s == 1 || s == 2)
    requires forall m :: 1 <= m <= HALF_BITS - s ==> GetBit(next, m) == GetBit(prev, m + s)
    requires forall m :: HALF_BITS - s < m <= HALF_BITS ==> GetBit(next, m) == GetBit(prev, m + s - HALF_BITS)
    ensures HalfBits(next) == Rotate(HalfBits(prev), s)
  {
    var r := Rotate(HalfBits(prev), s);
    forall k | 0 <= k < HALF_BITS ensures HalfBits(next)[k] == r[k] {
      if k + 1 <= HALF_BITS - s {
        assert r[k] == HalfBits(prev)[k + s];
      } else {
        assert r[k] == HalfBits(prev)[k + s - HALF_BITS];
      }
    }
  }

  /** The permuted choice 1 halves permute leaves in c[0] and d[0] are C0 and D0. */
  lemma HalfFromPermute(h: seq<bv8>, key: seq<bv8>, perm: seq<int>)
    requires |key| == 8 && 4 <= |h| && ValidTable(perm, HALF_BITS, 64)
    requires h[..4] == Permuted(key, perm, HALF_BITS)
    ensures HalfBits(h) == Select(key, perm, HALF_BITS)
  {
    forall k | 0 <= k < HALF_BITS ensures HalfBits(h)[k] == Select(key, perm, HALF_BITS)[k] {
      GetBitPrefix(h, 4, k + 1);
      PermutedBit(key, perm, HALF_BITS, k + 1);
    }
  }

  /** One pass of the loop that appends d[i] to c[i] keeps its invariant. */
  lemma JoinStep(before: seq<bv8>, after: seq<bv8>, dn: seq<bv8>, j: int)
    requires |before| == |after| == 7 && |dn| == 4 && 1 <= j <= HALF_BITS
    requires Joined(before, dn, j)
    requires GetBit(after, HALF_BITS + j) == GetBit(dn, j)
    requires forall m :: 1 <= m <= 56 && m != HALF_BITS + j ==> GetBit(after, m) == GetBit(before, m)
    ensures HalfBits(after) == HalfBits(before)
    ensures Joined(after, dn, j + 1)
  {
  }

  /** The subkey permute computes from c[i] = Ci || Di is permuted choice 2 of the two halves. */
  lemma SubkeyFromBuffer(cd: seq<bv8>, dn: seq<bv8>)
    requires |cd| == 7 && |dn| == 4
    requires Joined(cd, dn, HALF_BITS + 1)
    ensures ValidTable(SubkeyPerm, 48, 8 * |cd|)
    ensures Permuted(cd, SubkeyPerm, 48) == Permuted(Pack(HalfBits(cd) + HalfBits(dn)), SubkeyPerm, 48)
  {
    TableLengths();
    var bits := HalfBits(cd) + HalfBits(dn);
    forall m | 1 <= m <= 56 ensures GetBit(cd, m) == GetBit(Pack(bits), m) {
      GetBitPack(bits, m);
      if m <= HALF_BITS {
        assert GetBit(cd, m) == HalfBits(cd)[m - 1];
      } else {
        assert GetBit(dn, m - HALF_BITS) == HalfBits(dn)[m - HALF_BITS - 1];
      }
    }
    BytesEqualByBits(cd, Pack(bits));
  }
}
