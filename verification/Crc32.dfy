/**
 The CRC-32 of the example flash handler: a table of 256 registers, filled once, that drives one
 register update a byte. The reference is the bit-serial register of a reflected polynomial, which is
 fed one message bit at a time and knows nothing of bytes or tables. A 32-bit integer is written as the
 sequence of its bits, least significant first. Everything holds for any polynomial `p`; the handler
 uses Polynomial().
 */
module Crc32 {
  import opened Arithmetic
  import opened Bytes

  const TABLE_SIZE := 256
  const BITS_PER_BYTE := 8
  const WIDTH := 32

  type Word = w: seq<bool> | |w| == WIDTH witness Zeros(WIDTH)

  function Zeros(k: nat): (r: seq<bool>)
    ensures |r| == k && forall i :: 0 <= i < k ==> !r[i]
  {
    seq(k, _ => false)
  }

  /** The bits of a number, least significant first. */
  function BitsOf(n: nat, k: nat): (r: seq<bool>)
    ensures |r| == k
  {
    seq(k, i requires 0 <= i < k => Bit(n, i))
  }

  function ValueOf(bits: seq<bool>): nat {
    if bits == [] then 0 else (if bits[0] then 1 else 0) + 2 * ValueOf(bits[1..])
  }

  function WordOf(n: nat): Word {
    BitsOf(n, WIDTH)
  }

  function Polynomial(): Word {
    WordOf(0xEDB88320)
  }

  /** The bits of the four bytes of the polynomial, from its highest coefficients to its lowest. */
  lemma PolynomialBytes(k: nat)
    requires k < 8
    ensures Bit(0x20, k) <==> k in {5}
    ensures Bit(0x83, k) <==> k in {0, 1, 7}
    ensures Bit(0xB8, k) <==> k in {3, 4, 5, 7}
    ensures Bit(0xED, k) <==> k in {0, 2, 3, 5, 6, 7}
  {
    assert !Bit(0x20, 0) && !Bit(0x20, 1) && !Bit(0x20, 2) && !Bit(0x20, 3) && !Bit(0x20, 4) && Bit(0x20, 5) && !Bit(0x20, 6) && !Bit(0x20, 7);
    assert Bit(0x83, 0) && Bit(0x83, 1) && !Bit(0x83, 2) && !Bit(0x83, 3) && !Bit(0x83, 4) && !Bit(0x83, 5) && !Bit(0x83, 6) && Bit(0x83, 7);
    assert !Bit(0xB8, 0) && !Bit(0xB8, 1) && !Bit(0xB8, 2) && Bit(0xB8, 3) && Bit(0xB8, 4) && Bit(0xB8, 5) && !Bit(0xB8, 6) && Bit(0xB8, 7);
    assert Bit(0xED, 0) && !Bit(0xED, 1) && Bit(0xED, 2) && Bit(0xED, 3) && !Bit(0xED, 4) && Bit(0xED, 5) && Bit(0xED, 6) && Bit(0xED, 7);
  }

  lemma PolynomialBit(bit: nat)
    requires bit < WIDTH
    ensures Bit(0xEDB88320, bit) <==>
            Bit(if bit < 8 then 0x20 else if bit < 16 then 0x83 else if bit < 24 then 0xB8 else 0xED, bit % 8)
  {
    Power2Of8();
    BitOfSum(0x20, 0xEDB883, 8, bit);
    if bit >= 8 {
      BitOfSum(0x83, 0xEDB8, 8, bit - 8);
      if bit >= 16 {
        BitOfSum(0xB8, 0xED, 8, bit - 16);
      }
    }
  }

  /** The reflected polynomial of CRC-32: bit 31 - k of it is the coefficient of x^k. */
  lemma PolynomialIs(k: nat)
    requires k < WIDTH
    ensures Polynomial()[WIDTH - 1 - k] <==> k in {26, 23, 22, 16, 12, 11, 10, 8, 7, 5, 4, 2, 1, 0}
  {
    PolynomialBit(WIDTH - 1 - k);
    PolynomialBytes((WIDTH - 1 - k) % 8);
  }

  function Xor(a: Word, b: Word): Word {
    seq(WIDTH, i requires 0 <= i < WIDTH => a[i] != b[i])
  }

  function Not(a: Word): Word {
    seq(WIDTH, i requires 0 <= i < WIDTH => !a[i])
  }

  function ShiftRight(a: Word, k: nat): Word
    requires k <= WIDTH
  {
    a[k..] + Zeros(k)
  }

  // ---- The reference: a bit-serial register ----

  /** The register after feeding one message bit: it moves down by one bit, and where the bit that falls out and the message
      bit differ, the polynomial is added. */
  function FeedBit(p: Word, c: Word, bit: bool): Word {
    seq(WIDTH, i requires 0 <= i < WIDTH => (i + 1 < WIDTH && c[i + 1]) != (c[0] != bit && p[i]))
  }

  function FeedBits(p: Word, c: Word, bits: seq<bool>): Word
    decreases bits
  {
    if bits == [] then c else FeedBits(p, FeedBit(p, c, bits[0]), bits[1..])
  }

  function MessageBits(data: seq<Byte>): seq<bool> {
    if data == [] then [] else BitsOf(data[0], BITS_PER_BYTE) + MessageBits(data[1..])
  }

  /** The checksum as a bit-serial CRC with inverted input and output register. */
  function Reference(p: Word, data: seq<Byte>, crc: Word): Word {
    var start := seq(WIDTH, i requires 0 <= i < WIDTH => !crc[i]);
    var register := FeedBits(p, start, MessageBits(data));
    seq(WIDTH, i requires 0 <= i < WIDTH => !register[i])
  }

  // ---- The table ----

  function ShiftOne(p: Word, c: Word): Word {
    if c[0] then Xor(p, ShiftRight(c, 1)) else ShiftRight(c, 1)
  }

  function Shift(p: Word, c: Word, k: nat): Word
    decreases k
  {
    if k == 0 then c else ShiftOne(p, Shift(p, c, k - 1))
  }

  function TableEntry(p: Word, n: nat): Word {
    Shift(p, WordOf(n), BITS_PER_BYTE)
  }

  ghost predicate IsTable(p: Word, table: seq<Word>) {
    |table| == TABLE_SIZE && forall n :: 0 <= n < TABLE_SIZE ==> table[n] == TableEntry(p, n)
  }

  // ---- The byte-wise checksum ----

  /** Which table entry a byte selects: the low byte of the register mixed with it. */
  function TableIndex(c: Word, b: Byte): nat {
    ValueOf(Xor(c, WordOf(b))[..BITS_PER_BYTE])
  }

  function FeedByte(p: Word, c: Word, b: Byte): Word {
    Xor(ShiftRight(c, BITS_PER_BYTE), TableEntry(p, TableIndex(c, b)))
  }

  function FeedBytes(p: Word, c: Word, data: seq<Byte>): Word
    decreases data
  {
    if data == [] then c else FeedBytes(p, FeedByte(p, c, data[0]), data[1..])
  }

  function Checksum(p: Word, data: seq<Byte>, crc: Word): Word {
    Not(FeedBytes(p, Not(crc), data))
  }

  /** Fills the table as the constructor of the flash handler does. */
  method BuildTable(p: Word, table: array<Word>)
    requires table.Length == TABLE_SIZE
    modifies table
    ensures IsTable(p, table[..])
  {
    var n := 0;
    while n != TABLE_SIZE
      invariant 0 <= n <= TABLE_SIZE
      invariant forall i :: 0 <= i < n ==> table[i] == TableEntry(p, i)
    {
      var c := BuildTableEntry(p, WordOf(n), BITS_PER_BYTE);
      assert c == TableEntry(p, n);
      table[n] := c;
      n := n + 1;
    }
  }

  /** The inner loop: one register shifted bit by bit. */
  method BuildTableEntry(p: Word, start: Word, steps: nat) returns (c: Word)
    ensures c == Shift(p, start, steps)
  {
    c := start;
    var k := 0;
    while k != steps
      invariant 0 <= k <= steps
      invariant c == Shift(p, start, k)
    {
      c := if c[0] then Xor(p, ShiftRight(c, 1)) else ShiftRight(c, 1);
      k := k + 1;
    }
  }

  /** The checksum loop over a table. */
  method ComputeChecksum(p: Word, table: array<Word>, data: seq<Byte>, crc: Word) returns (r: Word)
    requires IsTable(p, table[..])
    ensures r == Reference(p, data, crc)
  {
    var c := Not(crc);
    var i := 0;
    while i < |data|
      invariant 0 <= i <= |data|
      invariant FeedBytes(p, c, data[i..]) == FeedBytes(p, Not(crc), data)
    {
      var index := TableIndex(c, data[i]);
      IndexInTable(c, data[i]);
      assert table[..][index] == TableEntry(p, index);
      assert data[i..][1..] == data[i + 1..];
      c := Xor(ShiftRight(c, BITS_PER_BYTE), table[index]);
      i := i + 1;
    }
    ChecksumIsBitSerial(p, data, crc);
    return Not(c);
  }

  // ---- Table-driven equals bit-serial ----

  lemma BitsOfStep(n: nat, k: nat)
    requires k > 0
    ensures BitsOf(n, k) == [n % 2 == 1] + BitsOf(n / 2, k - 1)
  {
  }

  lemma BitsOfHead(bit: bool, v: nat, k: nat)
    requires k > 0
    ensures BitsOf((if bit then 1 else 0) + 2 * v, k) == [bit] + BitsOf(v, k - 1)
  {
    BitsOfStep((if bit then 1 else 0) + 2 * v, k);
  }

  lemma HeadFirst(bits: seq<bool>, rest: seq<bool>)
    requires bits != []
    ensures [bits[0]] + (bits[1..] + rest) == bits + rest
  {
  }

  lemma {:induction false} ValueOfBits(bits: seq<bool>, k: nat)
    requires |bits| <= k
    ensures BitsOf(ValueOf(bits), k) == bits + Zeros(k - |bits|)
    decreases k
  {
    if bits == [] {
      BitsOfZero(k);
    } else {
      ValueOfBits(bits[1..], k - 1);
      BitsOfHead(bits[0], ValueOf(bits[1..]), k);
      HeadFirst(bits, Zeros(k - |bits|));
    }
  }

  lemma {:induction false} BitsOfZero(k: nat)
    ensures BitsOf(0, k) == Zeros(k)
  {
    if k == 0 {
    } else {
      BitsOfZero(k - 1);
      BitsOfStep(0, k);
    }
  }

  lemma {:induction false} ValueBound(bits: seq<bool>)
    requires |bits| <= BITS_PER_BYTE
    ensures ValueOf(bits) < Power2(|bits|)
  {
    if bits == [] {
    } else {
      ValueBound(bits[1..]);
    }
  }

  lemma IndexInTable(c: Word, b: Byte)
    ensures TableIndex(c, b) < TABLE_SIZE
  {
    ValueBound(Xor(c, WordOf(b))[..BITS_PER_BYTE]);
    Power2Of8();
  }

  /** A byte occupies the low eight bits of a word. */
  lemma {:induction false} ByteBits(n: nat, k: nat, bound: nat)
    requires n < Power2(bound) && bound <= k
    ensures BitsOf(n, k) == BitsOf(n, bound) + Zeros(k - bound)
    decreases k
  {
    if bound == 0 {
      BitsOfZero(k);
    } else {
      ByteBits(n / 2, k - 1, bound - 1);
      BitsOfStep(n, k);
      BitsOfStep(n, bound);
    }
  }

  lemma ShiftOneIsLinear(p: Word, a: Word, b: Word)
    ensures ShiftOne(p, Xor(a, b)) == Xor(ShiftOne(p, a), ShiftOne(p, b))
  {
  }

  lemma {:induction false} ShiftIsLinear(p: Word, a: Word, b: Word, k: nat)
    ensures Shift(p, Xor(a, b), k) == Xor(Shift(p, a, k), Shift(p, b, k))
    decreases k
  {
    if k == 0 {
    } else {
      ShiftIsLinear(p, a, b, k - 1);
      ShiftOneIsLinear(p, Shift(p, a, k - 1), Shift(p, b, k - 1));
    }
  }

  /** Bits above the lowest k only move down: nothing of them is mixed in by k steps. */
  lemma {:induction false} ShiftHighPart(p: Word, c: Word, k: nat)
    requires k <= WIDTH && c[..k] == Zeros(k)
    ensures Shift(p, c, k) == ShiftRight(c, k)
    decreases k
  {
    if k == 0 {
    } else {
      assert c[..k - 1] == c[..k][..k - 1];
      ShiftHighPart(p, c, k - 1);
      assert !c[..k][k - 1];
    }
  }

  /** One table step of the register is eight single-bit shifts. */
  lemma FeedByteIsEightShifts(p: Word, c: Word, b: Byte)
    ensures FeedByte(p, c, b) == Shift(p, Xor(c, WordOf(b)), BITS_PER_BYTE)
  {
    var mixed := Xor(c, WordOf(b));
    var high: Word := Zeros(BITS_PER_BYTE) + mixed[BITS_PER_BYTE..];
    var low := WordOf(TableIndex(c, b));
    ValueOfBits(mixed[..BITS_PER_BYTE], WIDTH);
    assert mixed == Xor(high, low);
    ShiftIsLinear(p, high, low, BITS_PER_BYTE);
    ShiftHighPart(p, high, BITS_PER_BYTE);
    Power2Of8();
    ByteBits(b, WIDTH, BITS_PER_BYTE);
    assert ShiftRight(high, BITS_PER_BYTE) == ShiftRight(c, BITS_PER_BYTE);
  }

  /** A step with pending message bits feeds the lowest one and keeps the others pending. */
  lemma FeedLowestPending(p: Word, c: Word, pending: Word)
    ensures ShiftOne(p, Xor(c, pending)) == Xor(FeedBit(p, c, pending[0]), ShiftRight(pending, 1))
  {
  }

  lemma {:induction false} ShiftFromTheFront(p: Word, c: Word, k: nat)
    requires k > 0
    ensures Shift(p, c, k) == Shift(p, ShiftOne(p, c), k - 1)
    decreases k
  {
    if k <= 1 {
    } else {
      ShiftFromTheFront(p, c, k - 1);
    }
  }

  lemma {:induction false} FeedPending(p: Word, c: Word, pending: Word, k: nat)
    requires k <= WIDTH && pending[k..] == Zeros(WIDTH - k)
    ensures Shift(p, Xor(c, pending), k) == FeedBits(p, c, pending[..k])
    decreases k
  {
    if k == 0 {
      assert Xor(c, pending) == c;
    } else {
      var rest := ShiftRight(pending, 1);
      FeedLowestPending(p, c, pending);
      ShiftFromTheFront(p, Xor(c, pending), k);
      assert rest[k - 1..] == Zeros(WIDTH - (k - 1)) by {
        assert forall i :: k <= i < WIDTH ==> pending[i] == pending[k..][i - k];
      }
      FeedPending(p, FeedBit(p, c, pending[0]), rest, k - 1);
      assert pending[..k][1..] == rest[..k - 1];
    }
  }

  lemma {:induction false} FeedBitsConcat(p: Word, c: Word, a: seq<bool>, b: seq<bool>)
    ensures FeedBits(p, c, a + b) == FeedBits(p, FeedBits(p, c, a), b)
    decreases a
  {
    if a == [] {
      assert a + b == b;
    } else {
      assert (a + b)[1..] == a[1..] + b;
      FeedBitsConcat(p, FeedBit(p, c, a[0]), a[1..], b);
    }
  }

  /** Feeding a byte through the table is feeding its eight bits. */
  lemma FeedByteIsBitSerial(p: Word, c: Word, b: Byte)
    ensures FeedByte(p, c, b) == FeedBits(p, c, BitsOf(b, BITS_PER_BYTE))
  {
    FeedByteIsEightShifts(p, c, b);
    Power2Of8();
    ByteBits(b, WIDTH, BITS_PER_BYTE);
    FeedPending(p, c, WordOf(b), BITS_PER_BYTE);
  }

  lemma {:induction false} FeedBytesIsBitSerial(p: Word, c: Word, data: seq<Byte>)
    ensures FeedBytes(p, c, data) == FeedBits(p, c, MessageBits(data))
    decreases data
  {
    if data == [] {
    } else {
      FeedByteIsBitSerial(p, c, data[0]);
      FeedBitsConcat(p, c, BitsOf(data[0], BITS_PER_BYTE), MessageBits(data[1..]));
      FeedBytesIsBitSerial(p, FeedByte(p, c, data[0]), data[1..]);
    }
  }

  /** The table-driven checksum is the bit-serial CRC on every byte string. */
  lemma ChecksumIsBitSerial(p: Word, data: seq<Byte>, crc: Word)
    ensures Checksum(p, data, crc) == Reference(p, data, crc)
  {
    FeedBytesIsBitSerial(p, Not(crc), data);
    assert seq(WIDTH, i requires 0 <= i < WIDTH => !crc[i]) == Not(crc);
  }

  lemma {:induction false} FeedBytesConcat(p: Word, c: Word, a: seq<Byte>, b: seq<Byte>)
    ensures FeedBytes(p, c, a + b) == FeedBytes(p, FeedBytes(p, c, a), b)
    decreases a
  {
    if a == [] {
      assert a + b == b;
    } else {
      assert (a + b)[1..] == a[1..] + b;
      FeedBytesConcat(p, FeedByte(p, c, a[0]), a[1..], b);
    }
  }

  /** A checksum continues over a split of the data at any place. */
  lemma ChecksumConcat(p: Word, a: seq<Byte>, b: seq<Byte>, crc: Word)
    ensures Checksum(p, a + b, crc) == Checksum(p, b, Checksum(p, a, crc))
  {
    FeedBytesConcat(p, Not(crc), a, b);
    assert Not(Not(FeedBytes(p, Not(crc), a))) == FeedBytes(p, Not(crc), a);
  }
}
