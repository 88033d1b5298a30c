/**
 * The constant tables of DES, as FIPS PUB 46-3 prints them.
 *
 * TDES.c reads these from magic.h and TDESinternal.h, which are not part of
 * this model; their contents here are those of the standard, under the names
 * TDES.c uses for them. Every permutation table holds 1-based bit positions,
 * and its element type states the range of those positions: an entry of
 * SubkeyPerm names one of the 56 bits of C || D, an entry of Expansion one
 * of the 32 bits of R, and so on. Entry 0 of the shift schedule is never read
 * (the key schedule reads entries 1 to 16).
 */
module Tables {

  /** A bit position in a 64-bit block or key. */
  type Index64 = x: int | 1 <= x <= 64 witness 1
  /** A bit position in the 56-bit C || D register. */
  type Index56 = x: int | 1 <= x <= 56 witness 1
  /** A bit position in a 32-bit half-block. */
  type Index32 = x: int | 1 <= x <= 32 witness 1
  /** An S-box entry: a 4-bit value, held in a byte. */
  type Nibble = x: bv8 | x < 16

  /** Rounds are numbered 1 to 16; index 0 of the round arrays holds the initial state. */
  const ROUND_COUNT: int := 17

  /** leftInitialPerm: the first 32 entries of the initial permutation IP (yields L0). */
  const LeftInitialPerm: seq<Index64> :=
      [58, 50, 42, 34, 26, 18, 10, 2]
      + [60, 52, 44, 36, 28, 20, 12, 4]
      + [62, 54, 46, 38, 30, 22, 14, 6]
      + [64, 56, 48, 40, 32, 24, 16, 8]

  /** rightInitialPerm: the last 32 entries of the initial permutation IP (yields R0). */
  const RightInitialPerm: seq<Index64> :=
      [57, 49, 41, 33, 25, 17, 9, 1]
      + [59, 51, 43, 35, 27, 19, 11, 3]
      + [61, 53, 45, 37, 29, 21, 13, 5]
      + [63, 55, 47, 39, 31, 23, 15, 7]

  /** finalPerm: the inverse initial permutation IP^-1. */
  const FinalPerm: seq<Index64> :=
      [40, 8, 48, 16, 56, 24, 64, 32]
      + [39, 7, 47, 15, 55, 23, 63, 31]
      + [38, 6, 46, 14, 54, 22, 62, 30]
      + [37, 5, 45, 13, 53, 21, 61, 29]
      + [36, 4, 44, 12, 52, 20, 60, 28]
      + [35, 3, 43, 11, 51, 19, 59, 27]
      + [34, 2, 42, 10, 50, 18, 58, 26]
      + [33, 1, 41, 9, 49, 17, 57, 25]

  /** expandedRSelector: the expansion E from 32 to 48 bits. */
  const Expansion: seq<Index32> :=
      [32, 1, 2, 3, 4, 5]
      + [4, 5, 6, 7, 8, 9]
      + [8, 9, 10, 11, 12, 13]
      + [12, 13, 14, 15, 16, 17]
      + [16, 17, 18, 19, 20, 21]
      + [20, 21, 22, 23, 24, 25]
      + [24, 25, 26, 27, 28, 29]
      + [28, 29, 30, 31, 32, 1]

  /** fFunctionPerm: the permutation P applied to the S-box outputs. */
  const RoundPerm: seq<Index32> :=
      [16, 7, 20, 21]
      + [29, 12, 28, 17]
      + [1, 15, 23, 26]
      + [5, 18, 31, 10]
      + [2, 8, 24, 14]
      + [32, 27, 3, 9]
      + [19, 13, 30, 6]
      + [22, 11, 4, 25]

  /** leftSubkeyPerm: the C half of permuted choice 1 (PC-1). */
  const LeftSubkeyPerm: seq<Index64> :=
      [57, 49, 41, 33, 25, 17, 9]
      + [1, 58, 50, 42, 34, 26, 18]
      + [10, 2, 59, 51, 43, 35, 27]
      + [19, 11, 3, 60, 52, 44, 36]

  /** rightSubkeyPerm: the D half of permuted choice 1 (PC-1). */
  const RightSubkeyPerm: seq<Index64> :=
      [63, 55, 47, 39, 31, 23, 15]
      + [7, 62, 54, 46, 38, 30, 22]
      + [14, 6, 61, 53, 45, 37, 29]
      + [21, 13, 5, 28, 20, 12, 4]

  /** subkeyPerm: permuted choice 2 (PC-2), selecting 48 of the 56 bits of C || D. */
  const SubkeyPerm: seq<Index56> :=
      [14, 17, 11, 24, 1, 5]
      + [3, 28, 15, 6, 21, 10]
      + [23, 19, 12, 4, 26, 8]
      + [16, 7, 27, 20, 13, 2]
      + [41, 52, 31, 37, 47, 55]
      + [30, 40, 51, 45, 33, 48]
      + [44, 49, 39, 56, 34, 53]
      + [46, 42, 50, 36, 29, 32]

  /** subkeyShiftSchedule: left rotations of C and D in rounds 1 to 16. */
  const ShiftSchedule: seq<int> := [0, 1, 1, 2, 2, 2, 2, 2, 2, 1, 2, 2, 2, 2, 2, 2, 1]

  /** sBoxTable: S1 .. S8, each 4 rows of 16 four-bit entries. */
  const SBoxTable: seq<seq<seq<Nibble>>> := [
      // S1
      [
        [14, 4, 13, 1, 2, 15, 11, 8, 3, 10, 6, 12, 5, 9, 0, 7],
        [0, 15, 7, 4, 14, 2, 13, 1, 10, 6, 12, 11, 9, 5, 3, 8],
        [4, 1, 14, 8, 13, 6, 2, 11, 15, 12, 9, 7, 3, 10, 5, 0],
        [15, 12, 8, 2, 4, 9, 1, 7, 5, 11, 3, 14, 10, 0, 6, 13]
      ],
      // S2
      [
        [15, 1, 8, 14, 6, 11, 3, 4, 9, 7, 2, 13, 12, 0, 5, 10],
        [3, 13, 4, 7, 15, 2, 8, 14, 12, 0, 1, 10, 6, 9, 11, 5],
        [0, 14, 7, 11, 10, 4, 13, 1, 5, 8, 12, 6, 9, 3, 2, 15],
        [13, 8, 10, 1, 3, 15, 4, 2, 11, 6, 7, 12, 0, 5, 14, 9]
      ],
      // S3
      [
        [10, 0, 9, 14, 6, 3, 15, 5, 1, 13, 12, 7, 11, 4, 2, 8],
        [13, 7, 0, 9, 3, 4, 6, 10, 2, 8, 5, 14, 12, 11, 15, 1],
        [13, 6, 4, 9, 8, 15, 3, 0, 11, 1, 2, 12, 5, 10, 14, 7],
        [1, 10, 13, 0, 6, 9, 8, 7, 4, 15, 14, 3, 11, 5, 2, 12]
      ],
      // S4
      [
        [7, 13, 14, 3, 0, 6, 9, 10, 1, 2, 8, 5, 11, 12, 4, 15],
        [13, 8, 11, 5, 6, 15, 0, 3, 4, 7, 2, 12, 1, 10, 14, 9],
        [10, 6, 9, 0, 12, 11, 7, 13, 15, 1, 3, 14, 5, 2, 8, 4],
        [3, 15, 0, 6, 10, 1, 13, 8, 9, 4, 5, 11, 12, 7, 2, 14]
      ],
      // S5
      [
        [2, 12, 4, 1, 7, 10, 11, 6, 8, 5, 3, 15, 13, 0, 14, 9],
        [14, 11, 2, 12, 4, 7, 13, 1, 5, 0, 15, 10, 3, 9, 8, 6],
        [4, 2, 1, 11, 10, 13, 7, 8, 15, 9, 12, 5, 6, 3, 0, 14],
        [11, 8, 12, 7, 1, 14, 2, 13, 6, 15, 0, 9, 10, 4, 5, 3]
      ],
      // S6
      [
        [12, 1, 10, 15, 9, 2, 6, 8, 0, 13, 3, 4, 14, 7, 5, 11],
        [10, 15, 4, 2, 7, 12, 9, 5, 6, 1, 13, 14, 0, 11, 3, 8],
        [9, 14, 15, 5, 2, 8, 12, 3, 7, 0, 4, 10, 1, 13, 11, 6],
        [4, 3, 2, 12, 9, 5, 15, 10, 11, 14, 1, 7, 6, 0, 8, 13]
      ],
      // S7
      [
        [4, 11, 2, 14, 15, 0, 8, 13, 3, 12, 9, 7, 5, 10, 6, 1],
        [13, 0, 11, 7, 4, 9, 1, 10, 14, 3, 5, 12, 2, 15, 8, 6],
        [1, 4, 11, 13, 12, 3, 7, 14, 10, 15, 6, 8, 0, 5, 9, 2],
        [6, 11, 13, 8, 1, 4, 10, 7, 9, 5, 0, 15, 14, 2, 3, 12]
      ],
      // S8
      [
        [13, 2, 8, 4, 6, 15, 11, 1, 10, 9, 3, 14, 5, 0, 12, 7],
        [1, 15, 13, 8, 10, 3, 7, 4, 12, 5, 6, 11, 0, 14, 9, 2],
        [7, 11, 4, 1, 9, 12, 14, 2, 0, 6, 10, 13, 15, 3, 5, 8],
        [2, 1, 14, 7, 4, 10, 8, 13, 15, 12, 9, 0, 3, 5, 6, 11]
      ]
    ]

  /** Every table has the length TDES.c reads it with. */
  lemma TableLengths()
    ensures |LeftInitialPerm| == 32 && |RightInitialPerm| == 32 && |FinalPerm| == 64
    ensures |Expansion| == 48 && |RoundPerm| == 32
    ensures |LeftSubkeyPerm| == 28 && |RightSubkeyPerm| == 28 && |SubkeyPerm| == 48
    ensures |ShiftSchedule| == ROUND_COUNT
  {
  }

  /** The S-box table has 8 boxes of 4 rows of 16 entries. */
  lemma SBoxShape()
    ensures |SBoxTable| == 8
    ensures forall t :: 0 <= t < 8 ==> |SBoxTable[t]| == 4
    ensures forall t, r :: 0 <= t < 8 && 0 <= r < 4 ==> |SBoxTable[t][r]| == 16
  {
  }

  /** Rounds 1 to 16 rotate by one or two positions, the only amounts the key schedule's rotation code handles. */
  lemma ShiftsAreOneOrTwo()
    ensures |ShiftSchedule| == ROUND_COUNT
    ensures forall i :: 1 <= i < ROUND_COUNT ==> ShiftSchedule[i] == 1 || ShiftSchedule[i] == 2
  {
  }

  /** finalPerm undoes the initial permutation: IP^-1 (IP (k)) = k for all 64 positions. */
  lemma FinalPermInvertsInitial()
    ensures |LeftInitialPerm + RightInitialPerm| == 64 && |FinalPerm| == 64
    ensures forall k :: 0 <= k < 64 ==> FinalPerm[(LeftInitialPerm + RightInitialPerm)[k] - 1] == k + 1
  {
    FinalPermInvertsLeft();
    FinalPermInvertsRight();
  }

  /** finalPerm sends the positions leftInitialPerm picks (the first half of IP) back. */
  lemma FinalPermInvertsLeft()
    ensures |LeftInitialPerm| == 32 && |FinalPerm| == 64
    ensures forall k :: 0 <= k < 32 ==> FinalPerm[LeftInitialPerm[k] - 1] == k + 1
  {
    FinalPermInvertsLeftLow();
    FinalPermInvertsLeftHigh();
  }

  /** The same for the first 16 entries of leftInitialPerm. */
  lemma FinalPermInvertsLeftLow()
    ensures |LeftInitialPerm| == 32 && |FinalPerm| == 64
    ensures forall k :: 0 <= k < 16 ==> FinalPerm[LeftInitialPerm[k] - 1] == k + 1
  {
  }

  /** The same for the last 16 entries of leftInitialPerm. */
  lemma FinalPermInvertsLeftHigh()
    ensures |LeftInitialPerm| == 32 && |FinalPerm| == 64
    ensures forall k :: 16 <= k < 32 ==> FinalPerm[LeftInitialPerm[k] - 1] == k + 1
  {
  }

  /** finalPerm sends the positions rightInitialPerm picks (the second half of IP) back. */
  lemma FinalPermInvertsRight()
    ensures |RightInitialPerm| == 32 && |FinalPerm| == 64
    ensures forall k :: 0 <= k < 32 ==> FinalPerm[RightInitialPerm[k] - 1] == k + 33
  {
    FinalPermInvertsRightLow();
    FinalPermInvertsRightHigh();
  }

  /** The same for the first 16 entries of rightInitialPerm. */
  lemma FinalPermInvertsRightLow()
    ensures |RightInitialPerm| == 32 && |FinalPerm| == 64
    ensures forall k :: 0 <= k < 16 ==> FinalPerm[RightInitialPerm[k] - 1] == k + 33
  {
  }

  /** The same for the last 16 entries of rightInitialPerm. */
  lemma FinalPermInvertsRightHigh()
    ensures |RightInitialPerm| == 32 && |FinalPerm| == 64
    ensures forall k :: 16 <= k < 32 ==> FinalPerm[RightInitialPerm[k] - 1] == k + 33
  {
  }

  /** The initial permutation undoes finalPerm: IP (IP^-1 (k)) = k for all 64 positions. */
  lemma InitialPermInvertsFinal()
    ensures |LeftInitialPerm + RightInitialPerm| == 64 && |FinalPerm| == 64
    ensures forall k :: 0 <= k < 64 ==> (LeftInitialPerm + RightInitialPerm)[FinalPerm[k] - 1] == k + 1
  {
    InitialPermInvertsFinal0();
    InitialPermInvertsFinal1();
    InitialPermInvertsFinal2();
    InitialPermInvertsFinal3();
  }

  /** IP undoes finalPerm on positions 1 .. 16. */
  lemma InitialPermInvertsFinal0()
    ensures |FinalPerm| == 64
    ensures forall k :: 0 <= k < 16 ==> (LeftInitialPerm + RightInitialPerm)[FinalPerm[k] - 1] == k + 1
  {
  }

  /** IP undoes finalPerm on positions 17 .. 32. */
  lemma InitialPermInvertsFinal1()
    ensures |FinalPerm| == 64
    ensures forall k :: 16 <= k < 32 ==> (LeftInitialPerm + RightInitialPerm)[FinalPerm[k] - 1] == k + 1
  {
  }

  /** IP undoes finalPerm on positions 33 .. 48. */
  lemma InitialPermInvertsFinal2()
    ensures |FinalPerm| == 64
    ensures forall k :: 32 <= k < 48 ==> (LeftInitialPerm + RightInitialPerm)[FinalPerm[k] - 1] == k + 1
  {
  }

  /** IP undoes finalPerm on positions 49 .. 64. */
  lemma InitialPermInvertsFinal3()
    ensures |FinalPerm| == 64
    ensures forall k :: 48 <= k < 64 ==> (LeftInitialPerm + RightInitialPerm)[FinalPerm[k] - 1] == k + 1
  {
  }
}
