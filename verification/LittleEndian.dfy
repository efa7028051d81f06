/** The numbers that strings of bytes stand for, least significant byte first. */
module LittleEndian {
  import opened Bytes

  function Power256(n: nat): (r: nat)
    ensures r > 0
  {
    if n == 0 then 1 else 256 * Power256(n - 1)
  }

  /** The number that a string stands for, least significant byte first. */
  function Value(s: seq<Byte>): nat {
    if s == [] then 0 else s[0] + 256 * Value(s[1..])
  }

  function FromValue(v: nat, n: nat): (r: seq<Byte>)
    ensures |r| == n
  {
    if n == 0 then [] else [v % 256] + FromValue(v / 256, n - 1)
  }

  lemma {:induction false} ValueBound(s: seq<Byte>)
    ensures Value(s) < Power256(|s|)
  {
    if s == [] {
    } else {
      ValueBound(s[1..]);
    }
  }

  lemma ScaledProduct(p: nat, v: nat)
    ensures 256 * (p * v) == (256 * p) * v
  {
  }

  lemma ValueOfHead(a: seq<Byte>, b: seq<Byte>)
    requires a != []
    ensures Value(a + b) == a[0] + 256 * Value(a[1..] + b)
  {
    assert (a + b)[1..] == a[1..] + b;
  }

  lemma {:induction false} ValueConcat(a: seq<Byte>, b: seq<Byte>)
    ensures Value(a + b) == Value(a) + Power256(|a|) * Value(b)
    decreases a
  {
    if a == [] {
      assert a + b == b;
    } else {
      ValueConcat(a[1..], b);
      ValueOfHead(a, b);
      ScaledProduct(Power256(|a| - 1), Value(b));
    }
  }

  lemma {:induction false} FromValueRoundTrip(s: seq<Byte>)
    ensures FromValue(Value(s), |s|) == s
    decreases s
  {
    if s == [] {
    } else {
      FromValueRoundTrip(s[1..]);
      assert Value(s) % 256 == s[0] && Value(s) / 256 == Value(s[1..]);
      assert s == [s[0]] + s[1..];
    }
  }

  /** The two bytes of a handle, an offset or a size stand for it. */
  lemma ValueOfWord(w: Word16)
    ensures Value(ToBytes(w)) == w
  {
    ValueOfPair(w % 256, w / 256);
  }

  lemma ValueOfPair(low: Byte, high: Byte)
    ensures Value([low, high]) == FromBytes(low, high)
  {
    assert [low, high][1..] == [high] && Value([high]) == high;
  }
}
