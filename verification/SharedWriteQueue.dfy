/**
 The queue of prepared writes: an allocator in a fixed array of bytes. Every element is stored as its size
 in two bytes, followed by its bytes; the first client that allocates owns the queue until it is freed.
 */
module SharedWriteQueue {
  import opened Bytes

  const SIZE_BYTES := 2

  datatype Owner = Nobody | Client(id: nat)

  /** What `first` and `next` deliver: where an element's bytes are, or the end of the queue. */
  datatype Pointer = End | At(at: nat, size: nat)

  // ---- The format ----

  type Element = e: seq<Byte> | 0 < |e| < 0x10000 witness [0]

  function EncodeElement(e: Element): seq<Byte> {
    ToBytes(|e|) + e
  }

  function Encode(es: seq<Element>): seq<Byte> {
    if es == [] then [] else EncodeElement(es[0]) + Encode(es[1..])
  }

  datatype Parsed = Malformed | Elements(es: seq<Element>)

  /** Reading the format, without knowing what was stored. */
  function Parse(b: seq<Byte>): Parsed {
    if b == [] then Elements([])
    else if |b| < SIZE_BYTES then Malformed
    else
      var size := FromBytes(b[0], b[1]);
      if size == 0 || |b| < SIZE_BYTES + size then Malformed
      else match Parse(b[SIZE_BYTES + size..])
        case Malformed => Malformed
        case Elements(es) => Elements([b[SIZE_BYTES..SIZE_BYTES + size]] + es)
  }

  lemma ParseFirst(e: Element, rest: seq<Byte>)
    ensures Parse(EncodeElement(e) + rest)
            == (match Parse(rest) case Malformed => Malformed case Elements(es) => Elements([e] + es))
  {
  }

  /** What was stored can be read back. */
  lemma {:induction false} ParseEncode(es: seq<Element>)
    ensures Parse(Encode(es)) == Elements(es)
  {
    if es == [] {
    } else {
      ParseEncode(es[1..]);
      ParseFirst(es[0], Encode(es[1..]));
      assert es == [es[0]] + es[1..];
    }
  }

  lemma {:induction false} EncodeConcat(a: seq<Element>, b: seq<Element>)
    ensures Encode(a + b) == Encode(a) + Encode(b)
    decreases a
  {
    if a == [] {
      assert a + b == b;
    } else {
      EncodeConcat(a[1..], b);
      assert (a + b)[1..] == a[1..] + b;
    }
  }

  lemma EncodeOne(e: Element)
    ensures Encode([e]) == EncodeElement(e)
  {
  }

  lemma ParseStep(b: seq<Byte>) returns (e: Element, rest: seq<Byte>)
    requires Parse(b).Elements? && b != []
    ensures b == EncodeElement(e) + rest && |rest| < |b|
    ensures Parse(rest).Elements? && Parse(b).es == [e] + Parse(rest).es
  {
    var size := FromBytes(b[0], b[1]);
    e, rest := b[SIZE_BYTES..SIZE_BYTES + size], b[SIZE_BYTES + size..];
    assert b[..SIZE_BYTES] == ToBytes(size);
  }

  /** Only the stored form of a list of elements parses as that list. */
  lemma {:induction false} EncodeParse(b: seq<Byte>)
    requires Parse(b).Elements?
    ensures Encode(Parse(b).es) == b
    decreases |b|
  {
    if b == [] {
    } else {
      var e, rest := ParseStep(b);
      EncodeParse(rest);
      EncodeOne(e);
      EncodeConcat([e], Parse(rest).es);
    }
  }

  /** Where the k-th element starts, with its size. */
  function Start(es: seq<Element>, k: nat): nat
    requires k <= |es|
  {
    |Encode(es[..k])|
  }

  lemma ElementAt(es: seq<Element>, k: nat)
    requires k < |es|
    ensures Start(es, k + 1) == Start(es, k) + SIZE_BYTES + |es[k]| <= |Encode(es)|
    ensures Encode(es)[Start(es, k)..Start(es, k + 1)] == EncodeElement(es[k])
  {
    EncodeOne(es[k]);
    EncodeConcat(es[..k], [es[k]]);
    assert es[..k] + [es[k]] == es[..k + 1];
    EncodeConcat(es[..k + 1], es[k + 1..]);
    assert es[..k + 1] + es[k + 1..] == es;
  }

  lemma LastStart(es: seq<Element>)
    ensures Start(es, |es|) == |Encode(es)|
  {
    assert es[..|es|] == es;
  }

  // ---- The queue ----

  class WriteQueue {
    const buffer: array<Byte>
    var end: nat
    var owner: Owner
    ghost var elements: seq<Element>

    /** The used prefix of the buffer is the stored form of the elements, and the queue has an owner exactly
        while it has elements. */
    ghost predicate Valid()
      reads this, buffer
    {
      && end <= buffer.Length < 0x10000
      && buffer[..end] == Encode(elements)
      && (owner == Nobody <==> elements == [])
    }

    constructor (size: nat)
      requires size < 0x10000
      ensures Valid() && fresh(buffer) && buffer.Length == size && elements == []
    {
      buffer := new Byte[size](_ => 0);
      end, owner, elements := 0, Nobody, [];
    }

    /** Room for `size` bytes behind the last element, if it is there and if nobody else owns the queue. */
    method Allocate(size: nat, client: Owner) returns (p: Pointer)
      requires Valid() && client != Nobody && 0 < size
      modifies this, buffer
      ensures Valid()
      ensures p.At? <==> size + SIZE_BYTES <= buffer.Length - old(end) && old(owner) in {Nobody, client}
      ensures p.End? ==> elements == old(elements) && owner == old(owner) && end == old(end)
                         && buffer[..] == old(buffer[..])
      ensures p.At? ==> && owner == client
                        && p == At(old(end) + SIZE_BYTES, size)
                        && end == p.at + size <= buffer.Length
                        && elements == old(elements) + [buffer[p.at..end]]
    {
      if size + SIZE_BYTES > buffer.Length - end || (owner != Nobody && owner != client) {
        return End;
      }
      ghost var before := buffer[..end];
      buffer[end] := size % 256;
      buffer[end + 1] := size / 256;
      owner := client;
      end := end + size + SIZE_BYTES;
      p := At(end - size, size);

      ghost var e := buffer[p.at..end];
      assert buffer[..end] == before + (ToBytes(size) + e);
      EncodeOne(e);
      EncodeConcat(elements, [e]);
      elements := elements + [e];
    }

    /** The caller copies its bytes to the place that it was given. */
    method Store(at: nat, data: Element)
      requires Valid() && elements != [] && |data| == |elements[|elements| - 1]| && at == end - |data|
      modifies this`elements, buffer
      ensures Valid()
      ensures elements == old(elements)[..|old(elements)| - 1] + [data]
    {
      ghost var es, stored := elements, buffer[..end];
      LastElement(es, data);
      for k := 0 to |data|
        invariant elements == es
        invariant buffer[..at] == stored[..at]
        invariant buffer[at..at + k] == data[..k]
      {
        buffer[at + k] := data[k];
      }
      assert buffer[..end] == stored[..at] + data by {
        assert data[..|data|] == data;
      }
      elements := es[..|es| - 1] + [data];
    }

    static lemma LastElement(es: seq<Element>, data: Element)
      requires es != [] && |data| == |es[|es| - 1]|
      ensures |Encode(es)| >= |data|
      ensures Encode(es[..|es| - 1] + [data]) == Encode(es)[..|Encode(es)| - |data|] + data
    {
      var n := |es| - 1;
      EncodeBehind(es[..n], es[n]);
      EncodeBehind(es[..n], data);
      assert es[..n] + [es[n]] == es;
      OtherEnd(Encode(es[..n]) + ToBytes(|data|), es[n], data);
    }

    static lemma EncodeBehind(es: seq<Element>, e: Element)
      ensures Encode(es + [e]) == (Encode(es) + ToBytes(|e|)) + e
    {
      EncodeOne(e);
      EncodeConcat(es, [e]);
      assert Encode(es) + (ToBytes(|e|) + e) == (Encode(es) + ToBytes(|e|)) + e;
    }

    static lemma OtherEnd(front: seq<Byte>, was: seq<Byte>, data: seq<Byte>)
      requires |was| == |data|
      ensures front + data == (front + was)[..|front + was| - |data|] + data
    {
    }

    method Free(client: Owner)
      requires Valid() && client != Nobody
      modifies this
      ensures Valid()
      ensures if old(owner) == client then elements == [] && owner == Nobody
              else elements == old(elements) && owner == old(owner) && end == old(end)
    {
      if owner == client {
        end := 0;
        owner := Nobody;
        elements := [];
      }
    }

    method ReadSize(at: nat, ghost k: nat) returns (size: nat)
      requires Valid() && k < |elements| && at == Start(elements, k) + SIZE_BYTES
      ensures size == |elements[k]|
      ensures at + size == Start(elements, k + 1) <= end && buffer[at..at + size] == elements[k]
    {
      ElementAt(elements, k);
      ghost var stored := buffer[..end][Start(elements, k)..Start(elements, k + 1)];
      assert stored == EncodeElement(elements[k]);
      assert buffer[at - 2] == stored[0] && buffer[at - 1] == stored[1];
      BytesRoundTrip(|elements[k]|);
      size := FromBytes(buffer[at - 2], buffer[at - 1]);
      assert buffer[at..at + size] == stored[SIZE_BYTES..];
    }

    /** A pointer to element `k`, and to its bytes; behind the last element it is the end. */
    ghost predicate PointsAt(p: Pointer, k: nat)
      reads this, buffer
    {
      if k < |elements| then
        && p == At(Start(elements, k) + SIZE_BYTES, |elements[k]|)
        && p.at + p.size <= end <= buffer.Length
        && buffer[p.at..p.at + p.size] == elements[k]
      else p == End
    }

    method First(client: Owner) returns (p: Pointer)
      requires Valid() && client != Nobody
      ensures if owner == client then elements != [] && PointsAt(p, 0) else p == End
    {
      if owner != client || end == 0 {
        return End;
      }
      var size := ReadSize(SIZE_BYTES, 0);
      p := At(SIZE_BYTES, size);
    }

    /** The end of element `k` is that of the queue exactly if it is the last one. */
    lemma EndOfElement(k: nat)
      requires Valid() && k < |elements|
      ensures Start(elements, k + 1) <= end
      ensures Start(elements, k + 1) == end <==> k + 1 == |elements|
    {
      ElementAt(elements, k);
      LastStart(elements);
      if k + 1 < |elements| {
        ElementAt(elements, k + 1);
      }
    }

    /** From element `k` to the one behind it, or to the end. */
    method Next(at: nat, ghost k: nat) returns (p: Pointer)
      requires Valid() && k < |elements| && at == Start(elements, k) + SIZE_BYTES
      ensures PointsAt(p, k + 1)
    {
      var size := ReadSize(at, k);
      var last := at + size;
      EndOfElement(k);
      if last == end {
        return End;
      }
      var following := ReadSize(last + SIZE_BYTES, k + 1);
      p := At(last + SIZE_BYTES, following);
    }
  }
}
