/**
 The functions of LE Secure Connections pairing in the security tool box, in the byte order of the code: least
 significant byte first. Each one is AES-CMAC over the string of the Core Specification (sections 2.2.6 to 2.2.9
 of Core Spec Vol 3 Part H), which is written with the most significant byte first.
 */
module PairingCmac {
  import opened Arithmetic
  import opened Bytes
  import opened Cmac
  import opened LittleEndian

  // ---- The building blocks ----

  /** The cipher works on the reversed key and data and its result is reversed again. */
  function AesLe(e: Cipher, key: Block, data: Block): Block {
    Rev(e(Rev(key), Rev(data)))
  }

  function LeftShifted(x: Block): Block {
    Rev(Doubled(Rev(x)))
  }

  lemma LeftShiftedIs(x: Block)
    ensures LeftShifted(x) == FromValue(2 * Value(x) % Power256(BLOCK), BLOCK)
  {
    RevRev(x);
    RevRev(FromValue(2 * Value(x) % Power256(BLOCK), BLOCK));
  }

  /** A byte shifted left, with the bit that comes in from below and the one that goes out at the top. */
  function ShiftedByte(b: Byte, below: nat): (r: Byte)
    requires below <= 1
    ensures r + 256 * TopBitOfByte(b) == 2 * b + below
  {
    b * 2 % 256 + below
  }

  function TopBitOfByte(b: Byte): nat {
    if b >= 128 then 1 else 0
  }

  lemma ValueOfByte(b: Byte)
    ensures Value([b]) == b
  {
  }

  lemma ValueOfLast(s: seq<Byte>, b: Byte)
    ensures Value(s + [b]) == Value(s) + Power256(|s|) * b
  {
    ValueConcat(s, [b]);
    ValueOfByte(b);
  }

  lemma ShiftStep(done: seq<Byte>, read: seq<Byte>, below: nat, b: Byte)
    requires |done| == |read| && below <= 1
    requires Value(done) + Power256(|read|) * below == 2 * Value(read)
    ensures Value(done + [ShiftedByte(b, below)]) + Power256(|read| + 1) * TopBitOfByte(b) == 2 * Value(read + [b])
  {
    ValueOfLast(done, ShiftedByte(b, below));
    ValueOfLast(read, b);
    Distribute(Power256(|read|), Value(done), Value(read), below, ShiftedByte(b, below), TopBitOfByte(b), b);
  }

  lemma Distribute(p: nat, done: nat, read: nat, below: nat, low: nat, high: nat, b: nat)
    requires done + p * below == 2 * read && low + 256 * high == 2 * b + below
    ensures done + p * low + (256 * p) * high == 2 * (read + p * b)
  {
  }

  lemma ShiftResult(out: Block, input: Block, overflow: nat)
    requires overflow <= 1 && Value(out) + Power256(BLOCK) * overflow == 2 * Value(input)
    ensures out == LeftShifted(input)
  {
    var p := Power256(BLOCK);
    ValueBound(out);
    RemainderIs(2 * Value(input), p, overflow, Value(out));
    LeftShiftedIs(input);
    FromValueRoundTrip(out);
  }

  /** The bits of every byte move up by one; the highest one becomes the lowest of the next byte. */
  method LeftShift(input: Block) returns (output: Block)
    ensures output == LeftShifted(input)
  {
    var out: seq<Byte> := [];
    var overflow := 0;
    for i := 0 to BLOCK
      invariant |out| == i && overflow <= 1
      invariant Value(out) + Power256(i) * overflow == 2 * Value(input[..i])
    {
      ShiftStep(out, input[..i], overflow, input[i]);
      assert input[..i] + [input[i]] == input[..i + 1];
      out := out + [ShiftedByte(input[i], overflow)];
      overflow := TopBitOfByte(input[i]);
    }
    assert input[..BLOCK] == input;
    ShiftResult(out, input, overflow);
    output := out;
  }

  function ReducingByte(): Block {
    [0x87] + Zeros(BLOCK - 1)
  }

  function SubkeyLe(x: Block): Block {
    if x[BLOCK - 1] < 128 then LeftShifted(x) else Xor(LeftShifted(x), ReducingByte())
  }

  function K1Le(e: Cipher, key: Block): Block {
    SubkeyLe(AesLe(e, key, Zeros(BLOCK)))
  }

  function K2Le(e: Cipher, key: Block): Block {
    SubkeyLe(K1Le(e, key))
  }

  // ---- The building blocks against RFC 4493 ----

  lemma TopBitIs(x: Block)
    ensures TopBit(Rev(x)) <==> x[BLOCK - 1] >= 128
  {
    RevRev(x);
    var low := x[..BLOCK - 1];
    assert x == low + [x[BLOCK - 1]];
    ValueOfLast(low, x[BLOCK - 1]);
    ValueBound(low);
    TopBitOf(Power256(BLOCK - 1), Value(low), x[BLOCK - 1]);
  }

  lemma TopBitOf(p: nat, low: nat, b: nat)
    requires low < p && b < 256
    ensures 2 * (low + p * b) >= 256 * p <==> b >= 128
  {
    if b >= 128 {
      LargerFactor(p, 128, b);
    } else {
      LargerFactor(p, b, 127);
    }
  }

  lemma LargerFactor(p: nat, a: nat, b: nat)
    requires a <= b
    ensures p * a <= p * b
  {
  }

  lemma SubkeyLeIs(x: Block)
    ensures Rev(SubkeyLe(x)) == Subkey(Rev(x))
  {
    TopBitIs(x);
    RevRev(Doubled(Rev(x)));
    if x[BLOCK - 1] >= 128 {
      RevXor(LeftShifted(x), ReducingByte());
      RevReducingByte();
    }
  }

  lemma RevReducingByte()
    ensures Rev(ReducingByte()) == Rb()
  {
  }

  lemma AesLeIs(e: Cipher, key: Block, data: Block)
    ensures Rev(AesLe(e, key, data)) == e(Rev(key), Rev(data))
  {
  }

  // ---- The cipher in its scratch memory ----

  const SCRATCH := 3 * BLOCK

  method CopyReversed(bytes: seq<Byte>, to: array<Byte>, at: nat)
    requires at + |bytes| <= to.Length
    modifies to
    ensures to[..] == Spliced(old(to[..]), at, Rev(bytes))
  {
    for i := 0 to |bytes|
      invariant to[..at] == old(to[..at]) && to[at + |bytes|..] == old(to[at + |bytes|..])
      invariant forall k :: at <= k < at + i ==> to[k] == bytes[|bytes| - 1 - (k - at)]
    {
      to[at + i] := bytes[|bytes| - 1 - i];
    }
    assert to[at..at + |bytes|] == Rev(bytes);
    assert to[..] == to[..at] + to[at..at + |bytes|] + to[at + |bytes|..];
  }

  /** The hardware: it encrypts the second block of its memory with the first as the key, into the third. */
  method EncryptBlock(e: Cipher, scratch: array<Byte>)
    requires scratch.Length == SCRATCH
    modifies scratch
    ensures scratch[..] ==
            Spliced(old(scratch[..]), 2 * BLOCK, e(old(scratch[..BLOCK]), old(scratch[BLOCK..2 * BLOCK])))
  {
    CopyReversed(Rev(e(scratch[..BLOCK], scratch[BLOCK..2 * BLOCK])), scratch, 2 * BLOCK);
  }

  lemma ScratchIs(s: seq<Byte>, a: Block, b: Block, c: Block)
    requires |s| == SCRATCH
    ensures var two := Spliced(Spliced(s, 0, a), BLOCK, b);
            && two[..BLOCK] == a && two[BLOCK..2 * BLOCK] == b
            && Spliced(two, 2 * BLOCK, c) == a + b + c
  {
  }

  /** aes_le: key and data are reversed into the scratch memory and the result is reversed out of it. The key does not
      stay behind. */
  method AesInScratch(e: Cipher, key: Block, data: Block, scratch: array<Byte>) returns (result: Block)
    requires scratch.Length == SCRATCH
    modifies scratch
    ensures Rev(result) == e(Rev(key), Rev(data))
    ensures scratch[..] == Zeros(BLOCK) + Rev(data) + Rev(result)
  {
    ghost var before, encrypted := scratch[..], e(Rev(key), Rev(data));
    ScratchIs(before, Rev(key), Rev(data), encrypted);
    CopyReversed(key, scratch, 0);
    CopyReversed(data, scratch, BLOCK);
    EncryptBlock(e, scratch);
    assert scratch[..] == Rev(key) + Rev(data) + encrypted;
    result := Rev(scratch[2 * BLOCK..]);
    CopyReversed(Zeros(BLOCK), scratch, 0);
    RevRev(encrypted);
    KeyErased(Rev(key), Rev(data), encrypted);
  }

  lemma KeyErased(a: Block, b: Block, c: Block)
    ensures (a + b + c)[2 * BLOCK..] == c
    ensures Spliced(a + b + c, 0, Rev(Zeros(BLOCK))) == Zeros(BLOCK) + b + c
  {
  }

  /** The subkeys are those of RFC 4493, for every key and every cipher. */
  lemma SubkeysAre(e: Cipher, key: Block)
    ensures Rev(K1Le(e, key)) == K1(e, Rev(key))
    ensures Rev(K2Le(e, key)) == K2(e, Rev(key))
  {
    AesLeIs(e, key, Zeros(BLOCK));
    assert Rev(Zeros(BLOCK)) == Zeros(BLOCK);
    SubkeyLeIs(AesLe(e, key, Zeros(BLOCK)));
    SubkeyLeIs(K1Le(e, key));
  }

  /** One step of the chain, in both byte orders. */
  lemma ChainStep(e: Cipher, key: Block, t: Block, block: Block)
    ensures Rev(AesLe(e, key, Xor(t, block))) == e(Rev(key), Xor(Rev(t), Rev(block)))
  {
    AesLeIs(e, key, Xor(t, block));
    RevXor(t, block);
  }

  /** The last step, with a complete block. */
  lemma LastComplete(e: Cipher, key: Block, t: Block, block: Block)
    ensures Rev(AesLe(e, key, Xor(t, Xor(K1Le(e, key), block)))) == CmacFrom(e, Rev(key), Rev(t), Rev(block))
  {
    SubkeysAre(e, key);
    ChainStep(e, key, t, Xor(K1Le(e, key), block));
    RevXor(K1Le(e, key), block);
    XorCommutes(K1(e, Rev(key)), Rev(block));
    XorCommutes(Rev(t), Xor(Rev(block), K1(e, Rev(key))));
  }

  /** The last step, with a block that ends in the padding of `m`. */
  lemma LastPadded(e: Cipher, key: Block, t: Block, block: Block, m: seq<Byte>)
    requires |m| < BLOCK && Rev(block) == Padded(m)
    ensures Rev(AesLe(e, key, Xor(t, Xor(K2Le(e, key), block)))) == CmacFrom(e, Rev(key), Rev(t), m)
  {
    SubkeysAre(e, key);
    ChainStep(e, key, t, Xor(K2Le(e, key), block));
    RevXor(K2Le(e, key), block);
    XorCommutes(K2(e, Rev(key)), Padded(m));
    XorCommutes(Rev(t), Xor(Padded(m), K2(e, Rev(key))));
  }
}
