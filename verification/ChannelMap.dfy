/**
 The hop sequence of a connection: for every slot the channel that channel selection algorithm #1 chooses
 (section 4.5.8.2 of Core Spec Vol 6 Part B).
 */
module ChannelMap {
  import opened Arithmetic
  import opened Bytes
  import opened LittleEndian

  const CHANNELS := 37
  const MAP_BYTES := 5

  // ---- The map of used channels ----

  function InMap(bits: seq<Byte>, channel: nat): bool
    requires |bits| == MAP_BYTES && channel < 8 * MAP_BYTES
  {
    Bit(bits[channel / 8], channel % 8)
  }

  lemma {:induction false} BitOfBytes(bits: seq<Byte>, k: nat)
    requires k < 8 * |bits|
    ensures Bit(Value(bits), k) <==> Bit(bits[k / 8], k % 8)
    decreases |bits|
  {
    Power2Of8();
    BitOfSum(bits[0], Value(bits[1..]), 8, k);
    if k >= 8 {
      BitOfBytes(bits[1..], k - 8);
      assert (k - 8) / 8 == k / 8 - 1 && (k - 8) % 8 == k % 8;
    }
  }

  /** The five bytes of a map are one number, lowest byte first, whose bit c says whether channel c is used. */
  lemma InMapIs(bits: seq<Byte>, channel: nat)
    requires |bits| == MAP_BYTES && channel < 8 * MAP_BYTES
    ensures Power2(channel) > 0
    ensures InMap(bits, channel) <==> Value(bits) / Power2(channel) % 2 == 1
  {
    BitOfBytes(bits, channel);
    BitIs(Value(bits), channel);
  }

  /** The used channels below `n`, in ascending order. */
  function UsedBelow(bits: seq<Byte>, n: nat): (r: seq<nat>)
    requires |bits| == MAP_BYTES && n <= CHANNELS
    ensures |r| <= n
  {
    if n == 0 then []
    else UsedBelow(bits, n - 1) + if InMap(bits, n - 1) then [n - 1] else []
  }

  function Used(bits: seq<Byte>): seq<nat>
    requires |bits| == MAP_BYTES
  {
    UsedBelow(bits, CHANNELS)
  }

  lemma {:induction false} UsedMembers(bits: seq<Byte>, n: nat, c: nat)
    requires |bits| == MAP_BYTES && n <= CHANNELS && c < CHANNELS
    ensures c in UsedBelow(bits, n) <==> c < n && InMap(bits, c)
  {
    if n == 0 {
    } else {
      UsedMembers(bits, n - 1, c);
    }
  }

  lemma {:induction false} UsedInOrder(bits: seq<Byte>, n: nat, i: nat, j: nat)
    requires |bits| == MAP_BYTES && n <= CHANNELS && i <= j < |UsedBelow(bits, n)|
    ensures UsedBelow(bits, n)[j] < n
    ensures i < j ==> UsedBelow(bits, n)[i] < UsedBelow(bits, n)[j]
  {
    if n == 0 {
    } else if j < |UsedBelow(bits, n - 1)| {
      UsedInOrder(bits, n - 1, i, j);
    } else if i < j {
      UsedInOrder(bits, n - 1, i, i);
    }
  }

  lemma UsedIs(bits: seq<Byte>, n: nat)
    requires |bits| == MAP_BYTES && n <= CHANNELS
    ensures forall c :: c in UsedBelow(bits, n) <==> 0 <= c < n && InMap(bits, c)
    ensures forall i, j :: 0 <= i < j < |UsedBelow(bits, n)| ==> UsedBelow(bits, n)[i] < UsedBelow(bits, n)[j] < n
  {
    var used := UsedBelow(bits, n);
    forall i, j | 0 <= i < j < |used|
      ensures used[i] < used[j] < n
    {
      UsedInOrder(bits, n, i, j);
    }
    forall c | c in used
      ensures 0 <= c < n && InMap(bits, c)
    {
      var k :| 0 <= k < |used| && used[k] == c;
      UsedInOrder(bits, n, k, k);
      UsedMembers(bits, n, c);
    }
    forall c | 0 <= c < n && InMap(bits, c)
      ensures c in used
    {
      UsedMembers(bits, n, c);
    }
  }

  // ---- The algorithm ----

  /** The unmapped channel of slot `i`. */
  function Unmapped(hop: nat, i: nat): (r: nat)
    ensures r < CHANNELS
  {
    hop * (i + 1) % CHANNELS
  }

  /** The unmapped channel itself, if it is used; otherwise it is remapped into the list of used channels. */
  function Mapped(bits: seq<Byte>, unmapped: nat): nat
    requires |bits| == MAP_BYTES && unmapped < CHANNELS && Used(bits) != []
  {
    if InMap(bits, unmapped) then unmapped
    else
      var m := |Used(bits)|;
      RemainderInRange(unmapped, m);
      Used(bits)[unmapped % m]
  }

  predicate ValidHop(hop: nat) {
    5 <= hop <= 16
  }

  // ---- Arithmetic modulo the number of channels ----

  lemma UnmappedStep(hop: nat, i: nat)
    ensures (Unmapped(hop, i) + hop) % CHANNELS == Unmapped(hop, i + 1)
  {
    assert hop * (i + 2) == hop * (i + 1) + hop;
    AddModulo(hop * (i + 1), hop);
  }

  lemma AddModulo(a: nat, b: nat)
    ensures (a % CHANNELS + b) % CHANNELS == (a + b) % CHANNELS
  {
  }

  /** The inverse of a hop increment: 37 is a prime. */
  function Inverse(hop: nat): (r: nat)
    requires ValidHop(hop)
    ensures hop * r % CHANNELS == 1
  {
    [15, 31, 16, 14, 33, 26, 27, 34, 20, 8, 5, 7][hop - 5]
  }

  /** The slot in which an unmapped channel comes up. */
  function Slot(hop: nat, channel: nat): (r: nat)
    requires ValidHop(hop)
    ensures r < CHANNELS
  {
    (Inverse(hop) * channel + CHANNELS - 1) % CHANNELS
  }

  lemma CancelHop(hop: int, inverse: int, s: int, n: int, q: int, u: int)
    requires hop * inverse == CHANNELS * s + 1 && hop * n == CHANNELS * q + u
    ensures inverse * u == n + CHANNELS * (s * n - inverse * q)
  {
    assert inverse * (hop * n) == (hop * inverse) * n;
    assert (CHANNELS * s + 1) * n == CHANNELS * (s * n) + n;
    assert inverse * (CHANNELS * q + u) == CHANNELS * (inverse * q) + inverse * u;
  }

  lemma CancelInverse(hop: int, inverse: int, s: int, n: int, q: int, u: int)
    requires hop * inverse == CHANNELS * s + 1 && n == inverse * u - CHANNELS * q
    ensures hop * n == u + CHANNELS * (s * u - hop * q)
  {
    assert hop * (inverse * u) == (hop * inverse) * u;
    assert (CHANNELS * s + 1) * u == CHANNELS * (s * u) + u;
    assert hop * (inverse * u - CHANNELS * q) == hop * (inverse * u) - CHANNELS * (hop * q);
  }

  lemma SlotOfUnmapped(hop: nat, i: nat)
    requires ValidHop(hop) && i < CHANNELS
    ensures Slot(hop, Unmapped(hop, i)) == i
  {
    var inverse, u := Inverse(hop), Unmapped(hop, i);
    var s, q := hop * inverse / CHANNELS, hop * (i + 1) / CHANNELS;
    CancelHop(hop, inverse, s, i + 1, q, u);
    RemainderIs(inverse * u + CHANNELS - 1, CHANNELS, s * (i + 1) - inverse * q + 1, i);
  }

  lemma UnmappedOfSlot(hop: nat, u: nat)
    requires ValidHop(hop) && u < CHANNELS
    ensures Unmapped(hop, Slot(hop, u)) == u
  {
    var inverse, i := Inverse(hop), Slot(hop, u);
    var s, q := hop * inverse / CHANNELS, (inverse * u + CHANNELS - 1) / CHANNELS - 1;
    CancelInverse(hop, inverse, s, i + 1, q, u);
    RemainderIs(hop * (i + 1), CHANNELS, s * u - hop * q, u);
  }

  /** For every valid hop increment, the unmapped channels of 37 slots are a permutation of all channels: no
      channel comes up in two slots, and every one comes up in its slot. */
  lemma UnmappedIsPermutation(hop: nat)
    requires ValidHop(hop)
    ensures forall i, j :: 0 <= i < CHANNELS && 0 <= j < CHANNELS && Unmapped(hop, i) == Unmapped(hop, j) ==> i == j
    ensures forall u :: 0 <= u < CHANNELS ==> Slot(hop, u) < CHANNELS && Unmapped(hop, Slot(hop, u)) == u
  {
    forall i, j | 0 <= i < CHANNELS && 0 <= j < CHANNELS && Unmapped(hop, i) == Unmapped(hop, j)
      ensures i == j
    {
      SlotOfUnmapped(hop, i);
      SlotOfUnmapped(hop, j);
    }
    forall u | 0 <= u < CHANNELS
      ensures Unmapped(hop, Slot(hop, u)) == u
    {
      UnmappedOfSlot(hop, u);
    }
  }

  // ---- How often a channel is chosen ----

  /** The channel of a slot. */
  function Chosen(bits: seq<Byte>, hop: nat, i: nat): nat
    requires |bits| == MAP_BYTES && Used(bits) != []
  {
    Mapped(bits, Unmapped(hop, i))
  }

  /** Only used channels are chosen. */
  lemma ChosenIsUsed(bits: seq<Byte>, unmapped: nat)
    requires |bits| == MAP_BYTES && Used(bits) != [] && unmapped < CHANNELS
    ensures Mapped(bits, unmapped) < CHANNELS && InMap(bits, Mapped(bits, unmapped))
  {
    UsedIs(bits, CHANNELS);
    RemainderInRange(unmapped, |Used(bits)|);
    assert Mapped(bits, unmapped) in Used(bits);
  }

  /** The slots of a channel, and the unmapped channels that are mapped to it. */
  ghost function SlotsOf(bits: seq<Byte>, hop: nat, channel: nat): set<nat>
    requires |bits| == MAP_BYTES && Used(bits) != []
  {
    set i: nat | i < CHANNELS && Chosen(bits, hop, i) == channel
  }

  ghost function SourcesOf(bits: seq<Byte>, channel: nat): set<nat>
    requires |bits| == MAP_BYTES && Used(bits) != []
  {
    set u: nat | u < CHANNELS && Mapped(bits, u) == channel
  }

  ghost function Image(hop: nat, slots: set<nat>): set<nat> {
    set i | i in slots :: Unmapped(hop, i)
  }

  lemma {:induction false} ImageSize(hop: nat, slots: set<nat>)
    requires ValidHop(hop) && forall i :: i in slots ==> i < CHANNELS
    ensures |Image(hop, slots)| == |slots|
    decreases |slots|
  {
    if slots == {} {
    } else {
      var i :| i in slots;
      var rest := slots - {i};
      ImageSize(hop, rest);
      UnmappedIsPermutation(hop);
      assert Image(hop, slots) == Image(hop, rest) + {Unmapped(hop, i)};
      assert Unmapped(hop, i) !in Image(hop, rest);
    }
  }

  lemma SlotsAndSources(bits: seq<Byte>, hop: nat, channel: nat)
    requires |bits| == MAP_BYTES && Used(bits) != [] && ValidHop(hop)
    ensures |SlotsOf(bits, hop, channel)| == |SourcesOf(bits, channel)|
  {
    var slots := SlotsOf(bits, hop, channel);
    ImageSize(hop, slots);
    forall u | u in SourcesOf(bits, channel)
      ensures u in Image(hop, slots)
    {
      UnmappedOfSlot(hop, u);
      assert Slot(hop, u) in slots;
    }
    assert Image(hop, slots) == SourcesOf(bits, channel);
  }

  /** The unused channels that are remapped to place `k` of the list of used channels. */
  ghost function RemappedTo(bits: seq<Byte>, k: nat): set<nat>
    requires |bits| == MAP_BYTES && Used(bits) != []
  {
    set u: nat | u < CHANNELS && !InMap(bits, u) && u % |Used(bits)| == k
  }

  lemma SourcesAre(bits: seq<Byte>, k: nat)
    requires |bits| == MAP_BYTES && k < |Used(bits)|
    ensures SourcesOf(bits, Used(bits)[k]) == RemappedTo(bits, k) + {Used(bits)[k]}
    ensures Used(bits)[k] !in RemappedTo(bits, k)
  {
    var c := Used(bits)[k];
    UsedIs(bits, CHANNELS);
    assert c in Used(bits);
    forall u: nat | u < CHANNELS
      ensures Mapped(bits, u) == c <==> u in RemappedTo(bits, k) + {c}
    {
      if !InMap(bits, u) {
        RemainderInRange(u, |Used(bits)|);
        var r := u % |Used(bits)|;
        assert r != k ==> Used(bits)[r] != Used(bits)[k];
      }
    }
  }

  /** In the 37 slots of a hop sequence, the k-th used channel comes up once, and once more for every unused channel
      with the remainder k. */
  lemma ChannelOccurrences(bits: seq<Byte>, hop: nat, k: nat)
    requires |bits| == MAP_BYTES && ValidHop(hop) && k < |Used(bits)|
    ensures |SlotsOf(bits, hop, Used(bits)[k])| == 1 + |RemappedTo(bits, k)|
  {
    SlotsAndSources(bits, hop, Used(bits)[k]);
    SourcesAre(bits, k);
  }

  // ---- The class ----

  class ChannelMap {
    const channels: array<nat>
    var hop: nat
    ghost var ready: bool        // some reset succeeded;
    ghost var bits: seq<Byte>    // the last one that did had this map
    ghost var increment: nat     // and this hop increment

    /** The channels are those of the last successful reset. */
    ghost predicate Valid()
      reads this, channels
    {
      && channels.Length == CHANNELS
      && (ready ==>
            && |bits| == MAP_BYTES && ValidHop(increment) && |Used(bits)| >= 2
            && forall i :: 0 <= i < CHANNELS ==> channels[i] == Chosen(bits, increment, i))
    }

    constructor ()
      ensures Valid() && hop == 0 && !ready && fresh(channels)
    {
      channels := new nat[CHANNELS](_ => 0);
      hop, ready, bits, increment := 0, false, [], 0;
    }

    static method BuildUsedChannelMap(bits: seq<Byte>, used: array<nat>) returns (count: nat)
      requires |bits| == MAP_BYTES && used.Length == CHANNELS
      modifies used
      ensures count <= CHANNELS && used[..count] == Used(bits)
    {
      count := 0;
      for channel := 0 to CHANNELS
        invariant count <= channel && used[..count] == UsedBelow(bits, channel)
      {
        if InMap(bits, channel) {
          used[count] := channel;
          count := count + 1;
        }
      }
    }

    /** A new map and hop increment. An increment out of range changes nothing; a map with fewer than two channels
        leaves the old sequence in place, but the increment is the new one. */
    method Reset(newBits: seq<Byte>, newIncrement: nat) returns (ok: bool)
      requires Valid() && |newBits| == MAP_BYTES
      modifies this, channels
      ensures Valid()
      ensures ok <==> 5 <= newIncrement <= 16 && |Used(newBits)| >= 2
      ensures ok ==> ready && bits == newBits && increment == newIncrement
      ensures !ok ==> ready == old(ready) && bits == old(bits) && increment == old(increment) && channels[..] == old(channels[..])
      ensures hop == if 5 <= newIncrement <= 16 then newIncrement else old(hop)
    {
      if newIncrement < 5 || newIncrement > 16 {
        return false;
      }
      hop := newIncrement;
      var used := new nat[CHANNELS];
      var count := BuildUsedChannelMap(newBits, used);
      if count < 2 {
        return false;
      }
      Fill(newBits, newIncrement, used, count);
      ready, bits, increment := true, newBits, newIncrement;
      return true;
    }

    method Fill(newBits: seq<Byte>, newIncrement: nat, used: array<nat>, count: nat)
      requires channels.Length == CHANNELS && |newBits| == MAP_BYTES && ValidHop(newIncrement)
      requires used != channels && 0 < count <= used.Length && used[..count] == Used(newBits)
      modifies channels
      ensures forall i :: 0 <= i < CHANNELS ==> channels[i] == Chosen(newBits, newIncrement, i)
    {
      var channel := newIncrement;
      for index := 0 to CHANNELS
        invariant channel == Unmapped(newIncrement, index)
        invariant used[..count] == Used(newBits)
        invariant forall i :: 0 <= i < index ==> channels[i] == Chosen(newBits, newIncrement, i)
      {
        if InMap(newBits, channel) {
          channels[index] := channel;
        } else {
          RemainderInRange(channel, count);
          channels[index] := used[channel % count];
        }
        UnmappedStep(newIncrement, index);
        channel := (channel + newIncrement) % CHANNELS;
      }
    }

    /** A new map for the increment that is in use; before the first one there is none. */
    method ResetMap(newBits: seq<Byte>) returns (ok: bool)
      requires Valid() && |newBits| == MAP_BYTES
      modifies this, channels
      ensures Valid()
      ensures ok <==> 5 <= old(hop) <= 16 && |Used(newBits)| >= 2
      ensures ok ==> ready && bits == newBits && increment == old(hop)
      ensures !ok ==> ready == old(ready) && bits == old(bits) && increment == old(increment) && channels[..] == old(channels[..])
      ensures hop == old(hop)
    {
      ok := Reset(newBits, hop);
    }

    /** The channel of a slot: the one that the algorithm chooses for the last map and increment that were accepted. */
    method DataChannel(index: nat) returns (channel: nat)
      requires Valid() && index < CHANNELS
      ensures ready ==> channel == Chosen(bits, increment, index) && channel in Used(bits)
    {
      channel := channels[index];
      if ready {
        ChosenIsUsed(bits, Unmapped(increment, index));
        UsedIs(bits, CHANNELS);
      }
    }
  }
}
