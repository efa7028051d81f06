/**
 AES-CMAC as RFC 4493 defines it, for any block cipher: subkeys in section 2.3, the chain of blocks in section
 2.4. Strings are written with the most significant byte first.
 */
module Cmac {
  import opened Arithmetic
  import opened Bytes
  import opened LittleEndian

  const BLOCK := 16

  function Zeros(n: nat): (r: seq<Byte>)
    ensures |r| == n && forall i :: 0 <= i < n ==> r[i] == 0
  {
    seq(n, _ => 0)
  }

  type Block = b: seq<Byte> | |b| == BLOCK witness Zeros(BLOCK)

  /** Key and data to encrypted data. */
  type Cipher = (Block, Block) -> Block

  // ---- Exclusive or ----

  function XorBits(a: nat, b: nat, n: nat): nat {
    if n == 0 then 0 else (if a % 2 == b % 2 then 0 else 1) + 2 * XorBits(a / 2, b / 2, n - 1)
  }

  lemma {:induction false} XorBitsIs(a: nat, b: nat, n: nat)
    ensures XorBits(a, b, n) < Power2(n) && XorBits(a, b, n) == XorBits(b, a, n)
    ensures a < Power2(n) ==> XorBits(0, a, n) == a
  {
    if n == 0 {
    } else {
      XorBitsIs(a / 2, b / 2, n - 1);
    }
  }

  function XorByte(a: Byte, b: Byte): (r: Byte)
    ensures r == XorBits(a, b, 8)
  {
    XorBitsIs(a, b, 8);
    Power2Of8();
    XorBits(a, b, 8)
  }

  lemma {:induction false} XorBitsAt(a: nat, b: nat, n: nat, k: nat)
    requires k < n
    ensures Bit(XorBits(a, b, n), k) <==> Bit(a, k) != Bit(b, k)
    decreases n
  {
    if k == 0 {
    } else {
      XorBitsAt(a / 2, b / 2, n - 1, k - 1);
    }
  }

  /** Each bit of the result is set exactly where the two bits differ. */
  lemma XorByteIs(a: Byte, b: Byte, k: nat)
    requires k < 8
    ensures Bit(XorByte(a, b), k) <==> Bit(a, k) != Bit(b, k)
  {
    XorBitsAt(a, b, 8, k);
  }

  function Xor(a: Block, b: Block): (r: Block)
    ensures forall i :: 0 <= i < BLOCK ==> r[i] == XorByte(a[i], b[i])
  {
    seq(BLOCK, i requires 0 <= i < BLOCK => XorByte(a[i], b[i]))
  }

  lemma XorCommutes(a: Block, b: Block)
    ensures Xor(a, b) == Xor(b, a)
  {
    forall i | 0 <= i < BLOCK
      ensures Xor(a, b)[i] == Xor(b, a)[i]
    {
      XorBitsIs(a[i], b[i], 8);
    }
  }

  lemma XorZero(a: Block)
    ensures Xor(Zeros(BLOCK), a) == a
  {
    forall i | 0 <= i < BLOCK
      ensures Xor(Zeros(BLOCK), a)[i] == a[i]
    {
      XorBitsIs(0, a[i], 8);
      XorBitsIs(a[i], 0, 8);
      Power2Of8();
    }
  }

  // ---- Byte order ----

  function Rev(s: seq<Byte>): (r: seq<Byte>)
    ensures |r| == |s| && forall i :: 0 <= i < |s| ==> r[i] == s[|s| - 1 - i]
  {
    seq(|s|, i requires 0 <= i < |s| => s[|s| - 1 - i])
  }

  lemma RevRev(s: seq<Byte>)
    ensures Rev(Rev(s)) == s
  {
  }

  lemma RevConcat(a: seq<Byte>, b: seq<Byte>)
    ensures Rev(a + b) == Rev(b) + Rev(a)
  {
  }

  lemma RevXor(a: Block, b: Block)
    ensures Rev(Xor(a, b)) == Xor(Rev(a), Rev(b))
  {
  }

  // ---- The subkeys ----

  /** The number shifted left by one bit, in as many bits as before. */
  function Doubled(b: Block): Block {
    Rev(FromValue(2 * Value(Rev(b)) % Power256(BLOCK), BLOCK))
  }

  /** The constant of section 2.3 for blocks of 128 bits. */
  function Rb(): Block {
    Zeros(BLOCK - 1) + [0x87]
  }

  function TopBit(b: Block): bool {
    2 * Value(Rev(b)) >= Power256(BLOCK)
  }

  function Subkey(b: Block): Block {
    if TopBit(b) then Xor(Doubled(b), Rb()) else Doubled(b)
  }

  function K1(e: Cipher, key: Block): Block {
    Subkey(e(key, Zeros(BLOCK)))
  }

  function K2(e: Cipher, key: Block): Block {
    Subkey(K1(e, key))
  }

  // ---- The message authentication code ----

  function Padded(m: seq<Byte>): Block
    requires |m| < BLOCK
  {
    m + [0x80] + Zeros(BLOCK - 1 - |m|)
  }

  function LastBlock(e: Cipher, key: Block, m: seq<Byte>): Block
    requires |m| <= BLOCK
  {
    if |m| == BLOCK then Xor(m, K1(e, key)) else Xor(Padded(m), K2(e, key))
  }

  /** The chain from the value `x` on. */
  function CmacFrom(e: Cipher, key: Block, x: Block, m: seq<Byte>): Block
    decreases |m|
  {
    if |m| <= BLOCK then e(key, Xor(LastBlock(e, key, m), x))
    else CmacFrom(e, key, e(key, Xor(x, m[..BLOCK])), m[BLOCK..])
  }

  function Mac(e: Cipher, key: Block, m: seq<Byte>): Block {
    CmacFrom(e, key, Zeros(BLOCK), m)
  }

  lemma CmacStep(e: Cipher, key: Block, x: Block, first: Block, rest: seq<Byte>)
    requires rest != []
    ensures CmacFrom(e, key, x, first + rest) == CmacFrom(e, key, e(key, Xor(x, first)), rest)
  {
  }

  lemma CmacFirst(e: Cipher, key: Block, first: Block, rest: seq<Byte>)
    requires rest != []
    ensures Mac(e, key, first + rest) == CmacFrom(e, key, e(key, first), rest)
  {
    CmacStep(e, key, Zeros(BLOCK), first, rest);
    XorZero(first);
  }
}
