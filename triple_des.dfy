/**
 * Triple DES over whole messages (TDES.c, encryptTDES and decryptTDES).
 *
 * The 24-byte key is three DES keys. Encryption pads the message to a whole
 * number of blocks, every pad byte holding the pad length (1 to 8, a full
 * block when the length is already a multiple of 8), and then encrypts each
 * block on its own as E_K3(D_K2(E_K1(block))). Decryption undoes each block
 * as D_K1(E_K2(D_K3(block))) and drops as many bytes from the end as the last
 * byte says.
 */
module TripleDes {
  import opened Tables
  import opened KeySchedule
  import opened BlockCipher

  /** The ways decryptTDES refuses its input. */
  datatype Error =
    | InvalidLength     // not a positive multiple of the block size
    | MalformedPadding  // the last byte asks to drop more bytes than there are

  /** The outcome of an operation that can fail. */
  datatype Result<T> = Ok(value: T) | Fail(error: Error)

  /** The number of key bytes triple DES reads: three DES keys. */
  const KEY_BYTES: int := 24

  /** A subkey row as the callers of generateSubkeys initialise it. */
  const ZERO_SUBKEY: seq<bv8> := [0, 0, 0, 0, 0, 0]

  /**
   * The subkey array generateSubkeys leaves for an 8-byte key in an array the
   * caller has zeroed: row 0 stays zero, row i is subkey i.
   */
  function SubkeyArray(key: seq<bv8>): (K: seq<seq<bv8>>)
    requires |key| == BLOCK_BYTES
    ensures Schedule(K)
    ensures K[0] == ZERO_SUBKEY
    ensures forall i :: 1 <= i < ROUND_COUNT ==> K[i] == Subkey(key, i)
  {
    seq(ROUND_COUNT, i requires 0 <= i < ROUND_COUNT => if i == 0 then ZERO_SUBKEY else Subkey(key, i))
  }

  /** The subkeys of the first DES key, key bytes 0 .. 7. */
  function K1(key: seq<bv8>): seq<seq<bv8>>
    requires |key| >= KEY_BYTES
  {
    SubkeyArray(key[..8])
  }

  /** The subkeys of the second DES key, key bytes 8 .. 15. */
  function K2(key: seq<bv8>): seq<seq<bv8>>
    requires |key| >= KEY_BYTES
  {
    SubkeyArray(key[8..16])
  }

  /** The subkeys of the third DES key, key bytes 16 .. 23. */
  function K3(key: seq<bv8>): seq<seq<bv8>>
    requires |key| >= KEY_BYTES
  {
    SubkeyArray(key[16..24])
  }

  /** One block through encryptTDES: encrypt with K1, decrypt with K2, encrypt with K3. */
  function EncryptEde(block: seq<bv8>, key: seq<bv8>): (r: seq<bv8>)
    requires |block| == BLOCK_BYTES && |key| >= KEY_BYTES
    ensures |r| == BLOCK_BYTES
  {
    EncryptBlockSpec(DecryptBlockSpec(EncryptBlockSpec(block, K1(key)), K2(key)), K3(key))
  }

  /** One block through decryptTDES: decrypt with K3, encrypt with K2, decrypt with K1. */
  function DecryptDed(block: seq<bv8>, key: seq<bv8>): (r: seq<bv8>)
    requires |block| == BLOCK_BYTES && |key| >= KEY_BYTES
    ensures |r| == BLOCK_BYTES
  {
    DecryptBlockSpec(EncryptBlockSpec(DecryptBlockSpec(block, K3(key)), K2(key)), K1(key))
  }

  /** The block step of decryptTDES undoes the one of encryptTDES. */
  lemma DecryptEde(block: seq<bv8>, key: seq<bv8>)
    requires |block| == BLOCK_BYTES && |key| >= KEY_BYTES
    ensures DecryptDed(EncryptEde(block, key), key) == block
  {
    var a := EncryptBlockSpec(block, K1(key));
    var b := DecryptBlockSpec(a, K2(key));
    DecryptEncrypt(b, K3(key));
    EncryptDecrypt(a, K2(key));
    DecryptEncrypt(block, K1(key));
  }

  /** The block step of encryptTDES undoes the one of decryptTDES. */
  lemma EncryptDed(block: seq<bv8>, key: seq<bv8>)
    requires |block| == BLOCK_BYTES && |key| >= KEY_BYTES
    ensures EncryptEde(DecryptDed(block, key), key) == block
  {
    var a := DecryptBlockSpec(block, K3(key));
    var b := EncryptBlockSpec(a, K2(key));
    EncryptDecrypt(b, K1(key));
    DecryptEncrypt(a, K2(key));
    EncryptDecrypt(block, K3(key));
  }

  /** The pad length: 8 - len % 8, from 1 to 8, bringing the length to a multiple of 8. */
  function PadLength(len: nat): (add: nat)
    ensures 1 <= add <= BLOCK_BYTES && (len + add) % BLOCK_BYTES == 0
    ensures len % BLOCK_BYTES == 0 ==> add == BLOCK_BYTES
  {
    BLOCK_BYTES - len % BLOCK_BYTES
  }

  /** A pad length as the byte memset writes. */
  function PadByte(add: nat): (b: bv8)
    requires 1 <= add <= BLOCK_BYTES
    ensures b as int == add
  {
    if add == 1 then 1 else if add == 2 then 2 else if add == 3 then 3 else if add == 4 then 4
    else if add == 5 then 5 else if add == 6 then 6 else if add == 7 then 7 else 8
  }

  /** The padded message: the input, then PadLength bytes each holding that length. */
  function Pad(input: seq<bv8>): (p: seq<bv8>)
    ensures |p| == |input| + PadLength(|input|) && |p| % BLOCK_BYTES == 0 && |p| >= BLOCK_BYTES
    ensures p[..|input|] == input
    ensures forall k :: |input| <= k < |p| ==> p[k] as int == PadLength(|input|)
  {
    var add := PadLength(|input|);
    input + seq(add, _ => PadByte(add))
  }

  /** A block operation: a function that takes every 8-byte block to an 8-byte block. */
  ghost predicate BlockOp(op: seq<bv8> -> seq<bv8>)
  {
    forall b :: |b| == BLOCK_BYTES ==> |op(b)| == BLOCK_BYTES
  }

  /** Every block of a message put through op on its own (ECB), first block first. */
  function Ecb(op: seq<bv8> -> seq<bv8>, data: seq<bv8>): (r: seq<bv8>)
    requires BlockOp(op) && |data| % BLOCK_BYTES == 0
    ensures |r| == |data|
    decreases |data|
  {
    if |data| == 0 then [] else op(data[..BLOCK_BYTES]) + Ecb(op, data[BLOCK_BYTES..])
  }

  /** One more block appends its image and changes nothing before it. */
  lemma {:induction false} EcbAppend(op: seq<bv8> -> seq<bv8>, data: seq<bv8>, block: seq<bv8>)
    requires BlockOp(op) && |data| % BLOCK_BYTES == 0 && |block| == BLOCK_BYTES
    ensures Ecb(op, data + block) == Ecb(op, data) + op(block)
    decreases |data|
  {
    if |data| == 0 {
      assert data + block == block;
      assert block[BLOCK_BYTES..] == [];
      assert block[..BLOCK_BYTES] == block;
    } else {
      var all := data + block;
      assert all[..BLOCK_BYTES] == data[..BLOCK_BYTES];
      assert all[BLOCK_BYTES..] == data[BLOCK_BYTES..] + block;
      EcbAppend(op, data[BLOCK_BYTES..], block);
    }
  }

  /** Block b of the output depends on block b of the input alone. */
  lemma {:induction false} EcbBlock(op: seq<bv8> -> seq<bv8>, data: seq<bv8>, b: nat)
    requires BlockOp(op) && |data| % BLOCK_BYTES == 0 && BLOCK_BYTES * (b + 1) <= |data|
    ensures Ecb(op, data)[BLOCK_BYTES * b..BLOCK_BYTES * (b + 1)] == op(data[BLOCK_BYTES * b..BLOCK_BYTES * (b + 1)])
    decreases b
  {
    var r := Ecb(op, data);
    var rest := data[BLOCK_BYTES..];
    var head := op(data[..BLOCK_BYTES]);
    assert r == head + Ecb(op, rest);
    if b > 0 {
      EcbBlock(op, rest, b - 1);
      assert r[BLOCK_BYTES * b..BLOCK_BYTES * (b + 1)] == Ecb(op, rest)[BLOCK_BYTES * (b - 1)..BLOCK_BYTES * b];
      assert data[BLOCK_BYTES * b..BLOCK_BYTES * (b + 1)] == rest[BLOCK_BYTES * (b - 1)..BLOCK_BYTES * b];
    }
  }

  /** When dec undoes enc on every block, ECB with dec undoes ECB with enc. */
  lemma {:induction false} EcbInverse(enc: seq<bv8> -> seq<bv8>, dec: seq<bv8> -> seq<bv8>, data: seq<bv8>)
    requires BlockOp(enc) && BlockOp(dec) && |data| % BLOCK_BYTES == 0
    requires forall b :: |b| == BLOCK_BYTES ==> dec(enc(b)) == b
    ensures Ecb(dec, Ecb(enc, data)) == data
    decreases |data|
  {
    if |data| > 0 {
      var c := Ecb(enc, data);
      var head := enc(data[..BLOCK_BYTES]);
      assert c == head + Ecb(enc, data[BLOCK_BYTES..]);
      assert c[..BLOCK_BYTES] == head;
      assert c[BLOCK_BYTES..] == Ecb(enc, data[BLOCK_BYTES..]);
      EcbInverse(enc, dec, data[BLOCK_BYTES..]);
      assert data == data[..BLOCK_BYTES] + data[BLOCK_BYTES..];
    }
  }

  /** EncryptEde as a block operation (a block of another length is left as it is). */
  function EdeOp(key: seq<bv8>): (op: seq<bv8> -> seq<bv8>)
    requires |key| >= KEY_BYTES
    ensures BlockOp(op)
    ensures forall b :: |b| == BLOCK_BYTES ==> op(b) == EncryptEde(b, key)
  {
    b => if |b| == BLOCK_BYTES then EncryptEde(b, key) else b
  }

  /** DecryptDed as a block operation (a block of another length is left as it is). */
  function DedOp(key: seq<bv8>): (op: seq<bv8> -> seq<bv8>)
    requires |key| >= KEY_BYTES
    ensures BlockOp(op)
    ensures forall b :: |b| == BLOCK_BYTES ==> op(b) == DecryptDed(b, key)
  {
    b => if |b| == BLOCK_BYTES then DecryptDed(b, key) else b
  }

  /** ECB decryption under a key undoes ECB encryption under the same key. */
  lemma EcbRoundTrip(data: seq<bv8>, key: seq<bv8>)
    requires |data| % BLOCK_BYTES == 0 && |key| >= KEY_BYTES
    ensures Ecb(DedOp(key), Ecb(EdeOp(key), data)) == data
  {
    forall b | |b| == BLOCK_BYTES ensures DedOp(key)(EdeOp(key)(b)) == b {
      DecryptEde(b, key);
    }
    EcbInverse(EdeOp(key), DedOp(key), data);
  }

  /** encryptTDES: the padded message, block by block through EncryptEde. */
  function EncryptTdesSpec(input: seq<bv8>, key: seq<bv8>): (c: seq<bv8>)
    requires |key| >= KEY_BYTES
    ensures |c| == |input| + PadLength(|input|)
  {
    Ecb(EdeOp(key), Pad(input))
  }

  /**
   * Block j of the output of encryptTDES is block j of the padded message
   * through EdeOp (that is, EncryptEde), whatever the other blocks hold.
   */
  lemma EncryptTdesBlock(input: seq<bv8>, key: seq<bv8>, j: nat)
    requires |key| >= KEY_BYTES && BLOCK_BYTES * (j + 1) <= |input| + PadLength(|input|)
    ensures EncryptTdesSpec(input, key)[BLOCK_BYTES * j..BLOCK_BYTES * (j + 1)]
         == EdeOp(key)(Pad(input)[BLOCK_BYTES * j..BLOCK_BYTES * (j + 1)])
  {
    EcbBlock(EdeOp(key), Pad(input), j);
  }

  /**
   * The end of decryptTDES: the last byte says how many bytes to drop. A
   * count larger than the message is refused; any other count, even one no
   * padding could have produced, is dropped as it stands.
   */
  function Unpad(plain: seq<bv8>): (r: Result<seq<bv8>>)
    requires |plain| > 0
    ensures r.Fail? <==> plain[|plain| - 1] as int > |plain|
    ensures r.Fail? ==> r.error == MalformedPadding
    ensures r.Ok? ==> |r.value| == |plain| - plain[|plain| - 1] as int && r.value == plain[..|r.value|]
  {
    var padding := plain[|plain| - 1] as int;
    if padding > |plain| then Fail(MalformedPadding) else Ok(plain[..|plain| - padding])
  }

  /** Removing the padding gives back the message that was padded. */
  lemma UnpadPad(input: seq<bv8>)
    ensures Unpad(Pad(input)) == Ok(input)
  {
    var p := Pad(input);
    assert p[|p| - 1] as int == PadLength(|input|);
  }

  /**
   * decryptTDES: refuses a length that is not a positive multiple of 8;
   * otherwise decrypts every block and removes the padding.
   */
  function DecryptTdesSpec(input: seq<bv8>, key: seq<bv8>): (r: Result<seq<bv8>>)
    requires |key| >= KEY_BYTES
    ensures r == Fail(InvalidLength) <==> !(|input| / BLOCK_BYTES > 0 && |input| % BLOCK_BYTES == 0)
  {
    if !(|input| / BLOCK_BYTES > 0 && |input| % BLOCK_BYTES == 0) then Fail(InvalidLength)
    else Unpad(Ecb(DedOp(key), input))
  }

  /** decryptTDES gives back every message encryptTDES was given, under the same key. */
  lemma TdesRoundTrip(input: seq<bv8>, key: seq<bv8>)
    requires |key| >= KEY_BYTES
    ensures DecryptTdesSpec(EncryptTdesSpec(input, key), key) == Ok(input)
  {
    var p := Pad(input);
    EcbRoundTrip(p, key);
    UnpadPad(input);
  }

  /**
   * The key set-up of encryptTDES and decryptTDES: generateSubkeys on the
   * three 8-byte keys, each into a zeroed subkey array.
   */
  method ScheduleKeys(key: seq<bv8>) returns (s1: seq<seq<bv8>>, s2: seq<seq<bv8>>, s3: seq<seq<bv8>>)
    requires |key| >= KEY_BYTES
    ensures s1 == K1(key) && s2 == K2(key) && s3 == K3(key)
  {
    var a1 := new seq<bv8>[ROUND_COUNT](_ => ZERO_SUBKEY);
    var a2 := new seq<bv8>[ROUND_COUNT](_ => ZERO_SUBKEY);
    var a3 := new seq<bv8>[ROUND_COUNT](_ => ZERO_SUBKEY);
    GenerateSubkeys(a1, key[..8]);
    GenerateSubkeys(a2, key[8..16]);
    GenerateSubkeys(a3, key[16..24]);
    s1, s2, s3 := a1[..], a2[..], a3[..];
    assert s1 == SubkeyArray(key[..8]);
    assert s2 == SubkeyArray(key[8..16]);
    assert s3 == SubkeyArray(key[16..24]);
  }

  /**
   * encryptTDES: the result holds the padded message encrypted block by
   * block, and n is its length.
   */
  method EncryptTDES(input: seq<bv8>, key: seq<bv8>) returns (result: array<bv8>, n: int)
    requires |key| >= KEY_BYTES
    ensures n == result.Length == |input| + PadLength(|input|)
    ensures result[..] == EncryptTdesSpec(input, key)
  {
    var padded, add := PadInput(input);
    var s1, s2, s3 := ScheduleKeys(key);
    ghost var op := EdeOp(key);
    EdeOpSteps(key, s1, s2, s3);
    result := EncryptBlocks(padded, op, s1, s2, s3);
    n := |input| + add;
  }

  /** op takes every block through encryptBlock with s1, decryptBlock with s2 and encryptBlock with s3. */
  ghost predicate EdeSteps(op: seq<bv8> -> seq<bv8>, s1: seq<seq<bv8>>, s2: seq<seq<bv8>>, s3: seq<seq<bv8>>)
    requires Schedule(s1) && Schedule(s2) && Schedule(s3)
  {
    forall b {:trigger EncryptBlockSpec(b, s1)} :: |b| == BLOCK_BYTES
      ==> op(b) == EncryptBlockSpec(DecryptBlockSpec(EncryptBlockSpec(b, s1), s2), s3)
  }

  /** With the three subkey arrays of a key, EdeOp of that key is the block step of encryptTDES. */
  lemma EdeOpSteps(key: seq<bv8>, s1: seq<seq<bv8>>, s2: seq<seq<bv8>>, s3: seq<seq<bv8>>)
    requires |key| >= KEY_BYTES && s1 == K1(key) && s2 == K2(key) && s3 == K3(key)
    ensures EdeSteps(EdeOp(key), s1, s2, s3)
  {
  }

  /**
   * The block loop of encryptTDES: every block of padded goes through
   * encryptBlock, decryptBlock and encryptBlock into the same place of the result.
   */
  method EncryptBlocks(padded: array<bv8>, ghost op: seq<bv8> -> seq<bv8>,
                       s1: seq<seq<bv8>>, s2: seq<seq<bv8>>, s3: seq<seq<bv8>>) returns (result: array<bv8>)
    requires Schedule(s1) && Schedule(s2) && Schedule(s3) && BlockOp(op) && EdeSteps(op, s1, s2, s3)
    requires padded.Length % BLOCK_BYTES == 0
    ensures fresh(result) && result[..] == Ecb(op, padded[..])
  {
    ghost var p := padded[..];
    var num := padded.Length / BLOCK_BYTES;
    WholeBlocks(padded.Length);
    var block := new bv8[BLOCK_BYTES](_ => 0);
    result := new bv8[BLOCK_BYTES * num];
    for i := 0 to num
      modifies block, result
      invariant padded[..] == p
      invariant EcbPrefix(op, p, result[..], i)
    {
      MemCopy(block, 0, padded[BLOCK_BYTES * i..BLOCK_BYTES * (i + 1)]);
      ghost var plain := block[..];
      assert plain == p[BLOCK_BYTES * i..BLOCK_BYTES * (i + 1)];
      EdeBlock(block, op, s1, s2, s3);
      ghost var prev := result[..];
      MemCopy(result, BLOCK_BYTES * i, block[..]);
      EcbStep(op, p, prev, result[..], block[..], i);
    }
    assert result[..] == result[..BLOCK_BYTES * num];
    assert p[..BLOCK_BYTES * num] == p;
  }

  /** The block step of encryptTDES: encryptBlock with s1, decryptBlock with s2, encryptBlock with s3. */
  method EdeBlock(block: array<bv8>, ghost op: seq<bv8> -> seq<bv8>,
                  s1: seq<seq<bv8>>, s2: seq<seq<bv8>>, s3: seq<seq<bv8>>)
    requires block.Length == BLOCK_BYTES && Schedule(s1) && Schedule(s2) && Schedule(s3)
    requires EdeSteps(op, s1, s2, s3)
    modifies block
    ensures block[..] == op(old(block[..]))
  {
    EncryptBlock(block, s1);
    DecryptBlock(block, s2);
    EncryptBlock(block, s3);
  }

  /**
   * decryptTDES: a length that is not a positive multiple of 8 is refused;
   * otherwise every block is decrypted and as many bytes as the last one says
   * are dropped, a count beyond the length being refused. n is the length of
   * the plaintext.
   */
  method DecryptTDES(input: seq<bv8>, key: seq<bv8>) returns (outcome: Result<array<bv8>>, n: int)
    requires |key| >= KEY_BYTES
    ensures outcome.Fail? <==> DecryptTdesSpec(input, key).Fail?
    ensures outcome.Fail? ==> outcome.error == DecryptTdesSpec(input, key).error
    ensures outcome.Ok? ==> outcome.value[..] == DecryptTdesSpec(input, key).value && n == outcome.value.Length
  {
    if !(|input| / BLOCK_BYTES > 0 && |input| % BLOCK_BYTES == 0) {
      return Fail(InvalidLength), 0;
    }
    var s1, s2, s3 := ScheduleKeys(key);
    ghost var op := DedOp(key);
    DedOpSteps(key, s1, s2, s3);
    var result := DecryptBlocks(input, op, s1, s2, s3);
    DecryptedBlocks(input, key, result[..]);
    outcome, n := StripPadding(result);
  }

  /**
   * The end of decryptTDES: the last byte of the decrypted message says how
   * many bytes to drop; the rest is kept in a buffer of the new length.
   */
  method StripPadding(result: array<bv8>) returns (outcome: Result<array<bv8>>, n: int)
    requires result.Length > 0
    ensures outcome.Fail? <==> Unpad(result[..]).Fail?
    ensures outcome.Fail? ==> outcome.error == Unpad(result[..]).error
    ensures outcome.Ok? ==> outcome.value[..] == Unpad(result[..]).value && n == outcome.value.Length
  {
    UnpadOutcome(Unpad(result[..]), result[..]);
    var padding := result[result.Length - 1] as int;
    n := result.Length - padding;
    if padding > result.Length {
      return Fail(MalformedPadding), n;
    }
    var trimmed := new bv8[n](_ => 0);
    MemCopy(trimmed, 0, result[..n]);
    outcome := Ok(trimmed);
  }

  /** Once the length is accepted, decryptTDES is Unpad of the decrypted blocks. */
  lemma DecryptedBlocks(input: seq<bv8>, key: seq<bv8>, plain: seq<bv8>)
    requires |key| >= KEY_BYTES && |input| / BLOCK_BYTES > 0 && |input| % BLOCK_BYTES == 0
    requires plain == Ecb(DedOp(key), input)
    ensures DecryptTdesSpec(input, key) == Unpad(plain)
  {
  }

  /** What Unpad says about a given outcome r of it. */
  lemma UnpadOutcome(r: Result<seq<bv8>>, plain: seq<bv8>)
    requires |plain| > 0 && r == Unpad(plain)
    ensures r.Fail? <==> plain[|plain| - 1] as int > |plain|
    ensures r.Fail? ==> r.error == MalformedPadding
    ensures r.Ok? ==> r.value == plain[..|plain| - plain[|plain| - 1] as int]
  {
  }

  /** op takes every block through decryptBlock with s3, encryptBlock with s2 and decryptBlock with s1. */
  ghost predicate DedSteps(op: seq<bv8> -> seq<bv8>, s1: seq<seq<bv8>>, s2: seq<seq<bv8>>, s3: seq<seq<bv8>>)
    requires Schedule(s1) && Schedule(s2) && Schedule(s3)
  {
    forall b {:trigger DecryptBlockSpec(b, s3)} :: |b| == BLOCK_BYTES
      ==> op(b) == DecryptBlockSpec(EncryptBlockSpec(DecryptBlockSpec(b, s3), s2), s1)
  }

  /** With the three subkey arrays of a key, DedOp of that key is the block step of decryptTDES. */
  lemma DedOpSteps(key: seq<bv8>, s1: seq<seq<bv8>>, s2: seq<seq<bv8>>, s3: seq<seq<bv8>>)
    requires |key| >= KEY_BYTES && s1 == K1(key) && s2 == K2(key) && s3 == K3(key)
    ensures DedSteps(DedOp(key), s1, s2, s3)
  {
  }

  /**
   * The block loop of decryptTDES: every block of input goes through
   * decryptBlock, encryptBlock and decryptBlock into the same place of the result.
   */
  method DecryptBlocks(input: seq<bv8>, ghost op: seq<bv8> -> seq<bv8>,
                       s1: seq<seq<bv8>>, s2: seq<seq<bv8>>, s3: seq<seq<bv8>>) returns (result: array<bv8>)
    requires Schedule(s1) && Schedule(s2) && Schedule(s3) && BlockOp(op) && DedSteps(op, s1, s2, s3)
    requires |input| % BLOCK_BYTES == 0
    ensures fresh(result) && result[..] == Ecb(op, input)
  {
    var num := |input| / BLOCK_BYTES;
    WholeBlocks(|input|);
    var block := new bv8[BLOCK_BYTES](_ => 0);
    result := new bv8[BLOCK_BYTES * num];
    for i := 0 to num
      modifies block, result
      invariant EcbPrefix(op, input, result[..], i)
    {
      MemCopy(block, 0, input[BLOCK_BYTES * i..BLOCK_BYTES * (i + 1)]);
      ghost var cipher := block[..];
      assert cipher == input[BLOCK_BYTES * i..BLOCK_BYTES * (i + 1)];
      DedBlock(block, op, s1, s2, s3);
      ghost var prev := result[..];
      MemCopy(result, BLOCK_BYTES * i, block[..]);
      EcbStep(op, input, prev, result[..], block[..], i);
    }
    assert result[..] == result[..BLOCK_BYTES * num];
    assert input[..BLOCK_BYTES * num] == input;
  }

  /** The block step of decryptTDES: decryptBlock with s3, encryptBlock with s2, decryptBlock with s1. */
  method DedBlock(block: array<bv8>, ghost op: seq<bv8> -> seq<bv8>,
                  s1: seq<seq<bv8>>, s2: seq<seq<bv8>>, s3: seq<seq<bv8>>)
    requires block.Length == BLOCK_BYTES && Schedule(s1) && Schedule(s2) && Schedule(s3)
    requires DedSteps(op, s1, s2, s3)
    modifies block
    ensures block[..] == op(old(block[..]))
  {
    DecryptBlock(block, s3);
    EncryptBlock(block, s2);
    DecryptBlock(block, s1);
  }

  /**
   * The padding step of encryptTDES: the message, then add bytes each
   * holding add, in a buffer of inputLen + add bytes.
   */
  method PadInput(input: seq<bv8>) returns (padded: array<bv8>, add: int)
    ensures fresh(padded)
    ensures add == PadLength(|input|) && padded[..] == Pad(input)
  {
    add := BLOCK_BYTES - |input| % BLOCK_BYTES;
    padded := new bv8[|input| + add];
    forall k | 0 <= k < |input| {
      padded[k] := input[k];
    }
    forall k | |input| <= k < |input| + add {
      padded[k] := PadByte(add);
    }
    assert padded[..] == Pad(input);
  }

  /** A length that is a multiple of 8 is 8 times its number of blocks. */
  lemma WholeBlocks(len: int)
    requires 0 <= len && len % BLOCK_BYTES == 0
    ensures BLOCK_BYTES * (len / BLOCK_BYTES) == len
  {
  }

  /** memcpy: the bytes of src land in dst from position at on, and nothing else changes. */
  method MemCopy(dst: array<bv8>, at: int, src: seq<bv8>)
    requires 0 <= at && at + |src| <= dst.Length
    modifies dst
    ensures dst[..] == old(dst[..at]) + src + old(dst[at + |src|..])
  {
    forall k | 0 <= k < |src| {
      dst[at + k] := src[k];
    }
  }

  /** The first i blocks of out are the first i blocks of data, each mapped by op. */
  ghost predicate EcbPrefix(op: seq<bv8> -> seq<bv8>, data: seq<bv8>, out: seq<bv8>, i: nat)
    requires BlockOp(op)
  {
    BLOCK_BYTES * i <= |data| && BLOCK_BYTES * i <= |out|
    && (WholeBlocksOf(i); out[..BLOCK_BYTES * i] == Ecb(op, data[..BLOCK_BYTES * i]))
  }

  /** i blocks are a whole number of blocks. */
  lemma WholeBlocksOf(i: nat)
    ensures (BLOCK_BYTES * i) % BLOCK_BYTES == 0
  {
  }

  /** One pass of the block loop of encryptTDES or decryptTDES keeps its invariant. */
  lemma EcbStep(op: seq<bv8> -> seq<bv8>, data: seq<bv8>, prev: seq<bv8>, after: seq<bv8>, out: seq<bv8>, i: nat)
    requires BlockOp(op) && BLOCK_BYTES * (i + 1) <= |data| && BLOCK_BYTES * (i + 1) <= |prev|
    requires EcbPrefix(op, data, prev, i)
    requires |out| == BLOCK_BYTES && after == prev[..BLOCK_BYTES * i] + out + prev[BLOCK_BYTES * (i + 1)..]
    requires out == op(data[BLOCK_BYTES * i..BLOCK_BYTES * (i + 1)])
    ensures EcbPrefix(op, data, after, i + 1)
  {
    var block := data[BLOCK_BYTES * i..BLOCK_BYTES * (i + 1)];
    assert data[..BLOCK_BYTES * (i + 1)] == data[..BLOCK_BYTES * i] + block;
    EcbAppend(op, data[..BLOCK_BYTES * i], block);
    assert after[..BLOCK_BYTES * (i + 1)] == prev[..BLOCK_BYTES * i] + out;
  }
}
