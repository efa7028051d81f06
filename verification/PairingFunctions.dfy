/** f4, f5, f6 and g2, and the strings of sections 2.2.6 to 2.2.9 of Core Spec Vol 3 Part H that they authenticate. */
module PairingFunctions {
  import opened Arithmetic
  import opened Bytes
  import opened Cmac
  import opened LittleEndian
  import opened PairingCmac

  const WORD := 0x1_0000_0000
  const PUBLIC_KEY := 32
  const ADDRESS := 6
  const IO_CAPABILITIES := 3

  type Half = s: seq<Byte> | |s| == PUBLIC_KEY witness Zeros(PUBLIC_KEY)

  datatype Address = Address(random: bool, value: seq<Byte>) {
    predicate Valid() {
      |value| == ADDRESS
    }

    function TypeByte(): Byte {
      if random then 1 else 0
    }

    /** The address as 56 bits: 1 for a random and 0 for a public one, then the address. */
    function Text(): (r: seq<Byte>)
      requires Valid()
      ensures |r| == 7
    {
      [if random then 1 else 0] + Rev(value)
    }
  }

  // ---- The chain ----

  /** A further block of the message. */
  lemma NextBlock(e: Cipher, key: Block, t: Block, block: Block, rest: seq<Byte>)
    requires rest != []
    ensures CmacFrom(e, Rev(key), Rev(t), Rev(block) + rest)
            == CmacFrom(e, Rev(key), Rev(AesLe(e, key, Xor(t, block))), rest)
  {
    CmacStep(e, Rev(key), Rev(t), Rev(block), rest);
    ChainStep(e, key, t, block);
  }

  lemma FirstBlock(e: Cipher, key: Block, block: Block, rest: seq<Byte>)
    requires rest != []
    ensures Mac(e, Rev(key), Rev(block) + rest) == CmacFrom(e, Rev(key), Rev(AesLe(e, key, block)), rest)
  {
    CmacFirst(e, Rev(key), Rev(block), rest);
    AesLeIs(e, key, block);
  }

  lemma RevHalves(u: Half)
    ensures Rev(u) == Rev(u[BLOCK..]) + Rev(u[..BLOCK])
  {
  }

  /** Two times two blocks in front of the last one. */
  function KeysChain(e: Cipher, u: Half, v: Half, k: Block): Block {
    var t0 := AesLe(e, k, u[BLOCK..]);
    var t1 := AesLe(e, k, Xor(t0, u[..BLOCK]));
    var t2 := AesLe(e, k, Xor(t1, v[BLOCK..]));
    AesLe(e, k, Xor(t2, v[..BLOCK]))
  }

  lemma KeysChainIs(e: Cipher, u: Half, v: Half, k: Block, rest: seq<Byte>)
    requires rest != []
    ensures Mac(e, Rev(k), Rev(u) + Rev(v) + rest) == CmacFrom(e, Rev(k), Rev(KeysChain(e, u, v, k)), rest)
  {
    var t0 := AesLe(e, k, u[BLOCK..]);
    var t1 := AesLe(e, k, Xor(t0, u[..BLOCK]));
    var t2 := AesLe(e, k, Xor(t1, v[BLOCK..]));
    var r3 := Rev(v[..BLOCK]) + rest;
    var r2 := Rev(v[BLOCK..]) + r3;
    var r1 := Rev(u[..BLOCK]) + r2;
    RevHalves(u);
    RevHalves(v);
    assert Rev(u) + Rev(v) + rest == Rev(u[BLOCK..]) + r1;
    FirstBlock(e, k, u[BLOCK..], r1);
    NextBlock(e, k, t0, u[..BLOCK], r2);
    NextBlock(e, k, t1, v[BLOCK..], r3);
    NextBlock(e, k, t2, v[..BLOCK], rest);
  }

  // ---- f4 ----

  function F4(e: Cipher, u: Half, v: Half, k: Block, z: Byte): Block {
    var m4 := Zeros(14) + [0x80, z];
    AesLe(e, k, Xor(KeysChain(e, u, v, k), Xor(K2Le(e, k), m4)))
  }

  /** f4(U, V, X, Z) is AES-CMAC with key X over U || V || Z. */
  lemma F4IsCmac(e: Cipher, u: Half, v: Half, k: Block, z: Byte)
    ensures Rev(F4(e, u, v, k, z)) == Mac(e, Rev(k), Rev(u) + Rev(v) + [z])
  {
    var m4 := Zeros(14) + [0x80, z];
    assert Rev(m4) == Padded([z]);
    KeysChainIs(e, u, v, k, [z]);
    LastPadded(e, k, KeysChain(e, u, v, k), m4, [z]);
  }

  // ---- g2 ----

  function G2(e: Cipher, u: Half, v: Half, x: Block, y: Block): nat {
    var t4 := AesLe(e, x, Xor(KeysChain(e, u, v, x), Xor(K1Le(e, x), y)));
    Value(t4[..4])
  }

  /** g2(U, V, X, Y) is AES-CMAC with key X over U || V || Y, modulo 2^32. */
  lemma G2IsCmac(e: Cipher, u: Half, v: Half, x: Block, y: Block)
    ensures G2(e, u, v, x, y) == Value(Rev(Mac(e, Rev(x), Rev(u) + Rev(v) + Rev(y)))) % WORD
  {
    var t4 := AesLe(e, x, Xor(KeysChain(e, u, v, x), Xor(K1Le(e, x), y)));
    KeysChainIs(e, u, v, x, Rev(y));
    LastComplete(e, x, KeysChain(e, u, v, x), y);
    RevRev(t4);
    LowWord(t4);
  }

  lemma LowWord(s: Block)
    ensures Value(s[..4]) == Value(s) % WORD
  {
    assert s == s[..4] + s[4..];
    ValueConcat(s[..4], s[4..]);
    ValueBound(s[..4]);
    WordIsPower();
    RemainderIs(Value(s), WORD, Value(s[4..]), Value(s[..4]));
  }

  lemma WordIsPower()
    ensures Power256(4) == WORD
  {
  }

  // ---- Filling a buffer ----

  method Put(buffer: array<Byte>, at: nat, data: seq<Byte>)
    requires at + |data| <= buffer.Length
    modifies buffer
    ensures buffer[..] == Spliced(old(buffer[..]), at, data)
  {
    CopyOut(data, buffer, at);
    assert buffer[..] == buffer[..at] + buffer[at..at + |data|] + buffer[at + |data|..];
  }

  /** Two patches next to each other are one. */
  lemma PatchTwice(s: seq<Byte>, at: nat, x: seq<Byte>, y: seq<Byte>)
    requires at + |x| + |y| <= |s|
    ensures Spliced(Spliced(s, at + |x|, y), at, x) == Spliced(s, at, x + y)
  {
  }

  /** A third patch at another place does not matter to that. */
  lemma PatchAround(s: seq<Byte>, other: nat, c: seq<Byte>, at: nat, x: seq<Byte>, y: seq<Byte>)
    requires other + |c| <= at && at + |x| + |y| <= |s|
    ensures Spliced(Spliced(Spliced(s, at + |x|, y), other, c), at, x) == Spliced(Spliced(s, at, x + y), other, c)
  {
  }

  /** Both addresses with their types, in the byte order of the code. */
  function AddressBytes(a1: Address, a2: Address): (r: seq<Byte>)
    requires a1.Valid() && a2.Valid()
    ensures |r| == 14
  {
    a2.value + ([a2.TypeByte()] + (a1.value + [a1.TypeByte()]))
  }

  lemma AddressPatches(s: seq<Byte>, at: nat, a1: Address, a2: Address)
    requires a1.Valid() && a2.Valid() && at + 14 <= |s|
    ensures var s1 := Spliced(s, at + 13, [a1.TypeByte()]);
            var s2 := Spliced(s1, at + 7, a1.value);
            var s3 := Spliced(s2, at + 6, [a2.TypeByte()]);
            Spliced(s3, at, a2.value) == Spliced(s, at, AddressBytes(a1, a2))
  {
    PatchTwice(s, at + 7, a1.value, [a1.TypeByte()]);
    PatchTwice(s, at + 6, [a2.TypeByte()], a1.value + [a1.TypeByte()]);
    PatchTwice(s, at, a2.value, [a2.TypeByte()] + (a1.value + [a1.TypeByte()]));
  }

  method PutAddresses(buffer: array<Byte>, at: nat, a1: Address, a2: Address)
    requires a1.Valid() && a2.Valid() && at + 14 <= buffer.Length
    modifies buffer
    ensures buffer[..] == Spliced(old(buffer[..]), at, AddressBytes(a1, a2))
  {
    AddressPatches(buffer[..], at, a1, a2);
    Put(buffer, at + 13, [a1.TypeByte()]);
    Put(buffer, at + 7, a1.value);
    Put(buffer, at + 6, [a2.TypeByte()]);
    Put(buffer, at, a2.value);
  }

  // ---- f5 ----

  /** "btle", as 32 bits. */
  function KeyId(): seq<Byte> {
    [0x62, 0x74, 0x6c, 0x65]
  }

  function KeyIdLe(): seq<Byte> {
    [0x65, 0x6c, 0x74, 0x62]
  }

  /** The salt of section 2.2.7. */
  function Salt(): Block {
    [0x6c, 0x88, 0x83, 0x91, 0xaa, 0xf5, 0xa5, 0x38, 0x60, 0x37, 0x0b, 0xdb, 0x5a, 0x60, 0x83, 0xbe]
  }

  /** The string that is authenticated, behind the counter. */
  function F5Text(n1: Block, n2: Block, a1: Address, a2: Address): (r: seq<Byte>)
    requires a1.Valid() && a2.Valid()
    ensures |r| == 52
  {
    KeyId() + Rev(n1) + Rev(n2) + a1.Text() + a2.Text() + [0x01, 0x00]
  }

  function F5Cmac(e: Cipher, key: Block, buffer: seq<Byte>): Block
    requires |buffer| == 4 * BLOCK
  {
    var t0 := AesLe(e, key, buffer[48..64]);
    var t1 := AesLe(e, key, Xor(t0, buffer[32..48]));
    var t2 := AesLe(e, key, Xor(t1, buffer[16..32]));
    AesLe(e, key, Xor(t2, Xor(K2Le(e, key), buffer[0..16])))
  }

  lemma RevSlice(s: seq<Byte>, i: nat, j: nat)
    requires i <= j <= |s|
    ensures Rev(s[i..j]) == Rev(s)[|s| - j..|s| - i]
  {
  }

  /** Three blocks and a padded one. */
  lemma ThreeBlocks(e: Cipher, key: Block, b0: Block, b1: Block, b2: Block, b3: Block, last: seq<Byte>)
    requires 0 < |last| < BLOCK && Rev(b3) == Padded(last)
    ensures var t0 := AesLe(e, key, b0);
            var t1 := AesLe(e, key, Xor(t0, b1));
            var t2 := AesLe(e, key, Xor(t1, b2));
            Rev(AesLe(e, key, Xor(t2, Xor(K2Le(e, key), b3))))
            == Mac(e, Rev(key), Rev(b0) + (Rev(b1) + (Rev(b2) + last)))
  {
    var t0 := AesLe(e, key, b0);
    var t1 := AesLe(e, key, Xor(t0, b1));
    var t2 := AesLe(e, key, Xor(t1, b2));
    FirstBlock(e, key, b0, Rev(b1) + (Rev(b2) + last));
    NextBlock(e, key, t0, b1, Rev(b2) + last);
    NextBlock(e, key, t1, b2, last);
    LastPadded(e, key, t2, b3, last);
  }

  /** The blocks of a buffer that holds a padded text of 53 bytes in reversed order. */
  lemma BlocksOfText(buffer: seq<Byte>, m: seq<Byte>)
    requires |buffer| == 4 * BLOCK && |m| == 53 && Rev(buffer) == m + [0x80] + Zeros(10)
    ensures Rev(buffer[48..64]) == m[..16] && Rev(buffer[32..48]) == m[16..32] && Rev(buffer[16..32]) == m[32..48]
    ensures Rev(buffer[0..16]) == Padded(m[48..])
  {
    RevSlice(buffer, 48, 64);
    RevSlice(buffer, 32, 48);
    RevSlice(buffer, 16, 32);
    RevSlice(buffer, 0, 16);
  }

  /** The four blocks of the buffer, the highest first, are the padded text. */
  lemma F5CmacIs(e: Cipher, key: Block, buffer: seq<Byte>, m: seq<Byte>)
    requires |buffer| == 4 * BLOCK && |m| == 53 && Rev(buffer) == m + [0x80] + Zeros(10)
    ensures Rev(F5Cmac(e, key, buffer)) == Mac(e, Rev(key), m)
  {
    BlocksOfText(buffer, m);
    ThreeBlocks(e, key, buffer[48..64], buffer[32..48], buffer[16..32], buffer[0..16], m[48..]);
    FourParts(m);
  }

  lemma FourParts(m: seq<Byte>)
    requires |m| >= 48
    ensures m[..16] + (m[16..32] + (m[32..48] + m[48..])) == m
  {
    assert m[32..48] + m[48..] == m[32..];
    assert m[16..32] + m[32..] == m[16..];
  }

  /** The salt in the byte order of the code. */
  function SaltLe(): Block {
    [0xbe, 0x83, 0x60, 0x5a, 0xdb, 0x0b, 0x37, 0x60, 0x38, 0xa5, 0xf5, 0xaa, 0x91, 0x83, 0x88, 0x6c]
  }

  lemma SaltIs()
    ensures Rev(SaltLe()) == Salt()
  {
  }

  function KeyUnder(e: Cipher, salt: Block, dhKey: Half): Block {
    var t0 := AesLe(e, salt, dhKey[BLOCK..]);
    AesLe(e, salt, Xor(t0, Xor(K1Le(e, salt), dhKey[..BLOCK])))
  }

  lemma KeyUnderIs(e: Cipher, salt: Block, dhKey: Half)
    ensures Rev(KeyUnder(e, salt, dhKey)) == Mac(e, Rev(salt), Rev(dhKey))
  {
    RevHalves(dhKey);
    FirstBlock(e, salt, dhKey[BLOCK..], Rev(dhKey[..BLOCK]));
    LastComplete(e, salt, AesLe(e, salt, dhKey[BLOCK..]), dhKey[..BLOCK]);
  }

  function F5Key(e: Cipher, dhKey: Half): Block {
    KeyUnder(e, SaltLe(), dhKey)
  }

  /** The key of f5 is AES-CMAC over the shared secret, with the salt as key. */
  lemma F5KeyIs(e: Cipher, dhKey: Half)
    ensures Rev(F5Key(e, dhKey)) == Mac(e, Salt(), Rev(dhKey))
  {
    SaltIs();
    KeyUnderIs(e, SaltLe(), dhKey);
  }

  /** What is between the zeros at the start of the buffer and the counter in its last byte. */
  function F5Middle(n1: Block, n2: Block, a1: Address, a2: Address): (r: seq<Byte>)
    requires a1.Valid() && a2.Valid()
    ensures |r| == 53
  {
    [0x80, 0x00, 0x01] + (AddressBytes(a1, a2) + (n2 + (n1 + KeyIdLe())))
  }

  /** The buffer read reversed is the text, padded. */
  lemma F5BufferIsText(buffer: seq<Byte>, counter: Byte, n1: Block, n2: Block, a1: Address, a2: Address)
    requires a1.Valid() && a2.Valid()
    requires buffer == Zeros(10) + F5Middle(n1, n2, a1, a2) + [counter]
    ensures Rev(buffer) == [counter] + F5Text(n1, n2, a1, a2) + [0x80] + Zeros(10)
  {
    RevConcat(Zeros(10) + F5Middle(n1, n2, a1, a2), [counter]);
    RevConcat(Zeros(10), F5Middle(n1, n2, a1, a2));
    RevF5Middle(n1, n2, a1, a2);
    assert Rev([counter]) == [counter] && Rev(Zeros(10)) == Zeros(10);
  }

  lemma RevF5Middle(n1: Block, n2: Block, a1: Address, a2: Address)
    requires a1.Valid() && a2.Valid()
    ensures Rev(F5Middle(n1, n2, a1, a2))
            == KeyId() + Rev(n1) + Rev(n2) + (a1.Text() + a2.Text()) + [0x01, 0x00, 0x80]
  {
  }

  lemma F5Patches(z: seq<Byte>, id: seq<Byte>, n1: Block, n2: Block, addresses: seq<Byte>)
    requires |z| == 4 * BLOCK && |id| == 4 && |addresses| == 14
    ensures var s1 := Spliced(z, 59, id);
            var s2 := Spliced(s1, 10, [0x80, 0x00, 0x01]);
            var s3 := Spliced(s2, 43, n1);
            var s4 := Spliced(s3, 27, n2);
            Spliced(s4, 13, addresses) == Spliced(z, 10, [0x80, 0x00, 0x01] + (addresses + (n2 + (n1 + id))))
  {
    var c := [0x80, 0x00, 0x01];
    PatchAround(z, 10, c, 43, n1, id);
    PatchAround(z, 10, c, 27, n2, n1 + id);
    PatchAround(z, 10, c, 13, addresses, n2 + (n1 + id));
    PatchTwice(z, 10, c, addresses + (n2 + (n1 + id)));
  }

  method F5Fill(n1: Block, n2: Block, a1: Address, a2: Address) returns (buffer: array<Byte>)
    requires a1.Valid() && a2.Valid()
    ensures fresh(buffer) && buffer[..] == Zeros(10) + F5Middle(n1, n2, a1, a2) + [0]
  {
    buffer := new Byte[4 * BLOCK](_ => 0);
    assert buffer[..10] == Zeros(10) && buffer[63..] == [0];
    F5Patches(buffer[..], KeyIdLe(), n1, n2, AddressBytes(a1, a2));
    Put(buffer, 11 + 48, KeyIdLe());
    Put(buffer, 10, [0x80, 0x00, 0x01]);
    Put(buffer, 32 + 11, n1);
    Put(buffer, 16 + 11, n2);
    PutAddresses(buffer, 13, a1, a2);
  }

  /** f5: with T = AES-CMAC of the shared secret under the salt, the MAC key and the long term key are AES-CMAC with
      key T over counter || keyID || N1 || N2 || A1 || A2 || length, for the counters 0 and 1. */
  method F5(e: Cipher, dhKey: Half, n1: Block, n2: Block, a1: Address, a2: Address)
    returns (macKey: Block, longTermKey: Block)
    requires a1.Valid() && a2.Valid()
    ensures var t := Mac(e, Salt(), Rev(dhKey));
            var text := [0x62, 0x74, 0x6c, 0x65] + Rev(n1) + Rev(n2) + a1.Text() + a2.Text() + [0x01, 0x00];
            Rev(macKey) == Mac(e, t, [0] + text) && Rev(longTermKey) == Mac(e, t, [1] + text)
  {
    var buffer := F5Fill(n1, n2, a1, a2);
    var key := F5Key(e, dhKey);
    F5KeyIs(e, dhKey);
    ghost var front := Zeros(10) + F5Middle(n1, n2, a1, a2);

    macKey := F5Cmac(e, key, buffer[..]);
    F5BufferIsText(buffer[..], 0, n1, n2, a1, a2);
    F5CmacIs(e, key, buffer[..], [0] + F5Text(n1, n2, a1, a2));

    buffer[15 + 48] := 1;
    assert buffer[..] == front + [1];
    longTermKey := F5Cmac(e, key, buffer[..]);
    F5BufferIsText(buffer[..], 1, n1, n2, a1, a2);
    F5CmacIs(e, key, buffer[..], [1] + F5Text(n1, n2, a1, a2));
  }

  // ---- f6 ----

  /** The last two blocks, in reversed order. */
  lemma F6Blocks(buffer: seq<Byte>, io: seq<Byte>, a1: Address, a2: Address)
    requires a1.Valid() && a2.Valid() && |io| == IO_CAPABILITIES
    requires buffer == Zeros(14) + ([0x80] + (AddressBytes(a1, a2) + io))
    ensures var text := Rev(io) + a1.Text() + a2.Text();
            && |text| == 17 && |buffer| == 32
            && Rev(buffer[16..32]) == text[..16] && Rev(buffer[0..16]) == Padded(text[16..])
  {
  }

  method F6Fill(io: seq<Byte>, a1: Address, a2: Address) returns (buffer: array<Byte>)
    requires a1.Valid() && a2.Valid() && |io| == IO_CAPABILITIES
    ensures fresh(buffer) && buffer[..] == Zeros(14) + ([0x80] + (AddressBytes(a1, a2) + io))
  {
    buffer := new Byte[2 * BLOCK](_ => 0);
    ghost var z := buffer[..];
    Put(buffer, 16 + 13, io);
    PutAddresses(buffer, 15, a1, a2);
    PatchTwice(z, 15, AddressBytes(a1, a2), io);
    Put(buffer, 14, [0x80]);
    PatchTwice(z, 14, [0x80], AddressBytes(a1, a2) + io);
    assert z[..14] == Zeros(14) && z[32..] == [];
  }

  /** f6 is AES-CMAC with key W over N1 || N2 || R || IOcap || A1 || A2. */
  method F6(e: Cipher, key: Block, n1: Block, n2: Block, r: Block, io: seq<Byte>, a1: Address, a2: Address)
    returns (mac: Block)
    requires a1.Valid() && a2.Valid() && |io| == IO_CAPABILITIES
    ensures Rev(mac) == Mac(e, Rev(key), Rev(n1) + (Rev(n2) + (Rev(r) + (Rev(io) + a1.Text() + a2.Text()))))
  {
    var buffer := F6Fill(io, a1, a2);
    var m3, m4 := buffer[16..32], buffer[0..16];
    var t0 := AesLe(e, key, n1);
    var t1 := AesLe(e, key, Xor(t0, n2));
    var t2 := AesLe(e, key, Xor(t1, r));
    var t3 := AesLe(e, key, Xor(t2, m3));
    mac := AesLe(e, key, Xor(t3, Xor(K2Le(e, key), m4)));

    ghost var text := Rev(io) + a1.Text() + a2.Text();
    F6Blocks(buffer[..], io, a1, a2);
    assert m3 == buffer[..][16..32] && m4 == buffer[..][0..16];
    assert text == Rev(m3) + text[16..];
    FirstBlock(e, key, n1, Rev(n2) + (Rev(r) + text));
    NextBlock(e, key, t0, n2, Rev(r) + text);
    NextBlock(e, key, t1, r, text);
    NextBlock(e, key, t2, m3, text[16..]);
    LastPadded(e, key, t3, m4, text[16..]);
  }
}
