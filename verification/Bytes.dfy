/** Bytes and the little-endian 16 bit integers that the protocol is made of. */
module Bytes {

  type Byte = b: nat | b < 256

  type Word16 = w: nat | w < 0x10000

  function ToBytes(w: Word16): (r: seq<Byte>)
    ensures |r| == 2
  {
    [w % 256, w / 256]
  }

  function FromBytes(low: Byte, high: Byte): (r: Word16) {
    low + 256 * high
  }

  lemma BytesRoundTrip(w: Word16)
    ensures FromBytes(ToBytes(w)[0], ToBytes(w)[1]) == w
  {
  }

  /** A string with some of its bytes replaced. */
  function Spliced(s: seq<Byte>, at: nat, data: seq<Byte>): (r: seq<Byte>)
    requires at + |data| <= |s|
    ensures |r| == |s|
  {
    s[..at] + data + s[at + |data|..]
  }

  /** The bytes are copied to their place one by one; the rest of the array stays as it is. */
  method CopyOut(data: seq<Byte>, output: array<Byte>, at: nat)
    requires at + |data| <= output.Length
    modifies output
    ensures output[..at] == old(output[..at]) && output[at..at + |data|] == data
    ensures output[at + |data|..] == old(output[at + |data|..])
  {
    for k := 0 to |data|
      invariant output[..at] == old(output[..at])
      invariant output[at..at + k] == data[..k]
      invariant output[at + k..] == old(output[at + k..])
    {
      output[at + k] := data[k];
      assert output[at + k + 1..] == old(output[at + k..])[1..];
    }
    assert data[..|data|] == data;
  }
}
