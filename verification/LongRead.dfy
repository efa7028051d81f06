/**
 Reading values that are longer than a response: read access at an offset, the scattered read of a characteristic
 declaration, Read Blob, and the client that repeats it (section 4.8.3 of Core Spec Vol 3 Part G).
 */
module LongRead {
  import opened AttPdu
  import opened Bytes
  import opened LittleEndian

  function Min(a: nat, b: nat): nat {
    if a <= b then a else b
  }

  // ---- Scattered read ----

  /** What `size` bytes of room take from `v` behind `offset`. */
  function Part(v: seq<Byte>, offset: nat, size: nat): (r: seq<Byte>)
    requires offset <= |v|
    ensures |r| == Min(|v| - offset, size)
  {
    v[offset..offset + Min(|v| - offset, size)]
  }

  /** A signed offset into a piece: in front of the piece it is its start, behind the piece its end. */
  function Clamped(offset: int, n: nat): (r: nat)
    ensures r <= n
  {
    if offset < 0 then 0 else Min(offset, n)
  }

  /** Copies what is left of `source` behind `offset`, as far as there is room up to `end`. */
  method Copy(offset: int, source: seq<Byte>, out: array<Byte>, begin: nat, end: nat) returns (next: nat)
    requires begin <= end <= out.Length
    modifies out
    ensures next == begin + |Part(source, Clamped(offset, |source|), end - begin)|
    ensures out[..next] == old(out[..begin]) + Part(source, Clamped(offset, |source|), end - begin)
  {
    var from := if offset > 0 then offset else 0;
    var sourceSize := if |source| - from > 0 then |source| - from else 0;
    var copySize := Min(sourceSize, end - begin);
    if copySize > 0 {
      CopyOut(source[from..from + copySize], out, begin);
    }
    next := begin + copySize;
    assert out[..next] == out[..begin] + out[begin..next];
  }

  /** The part of a concatenation, from the parts of its two halves. */
  lemma PartOfConcat(a: seq<Byte>, b: seq<Byte>, offset: nat, size: nat)
    ensures var first := Part(a, Clamped(offset, |a|), size);
            Part(a + b, Clamped(offset, |a + b|), size) == first + Part(b, Clamped(offset - |a|, |b|), size - |first|)
  {
    if offset >= |a| {
      PartOfSecond(a, b, Clamped(offset, |a + b|), size);
    } else {
      PartOfFirst(a, b, offset, size);
    }
  }

  lemma PartOfSecond(a: seq<Byte>, b: seq<Byte>, from: nat, size: nat)
    requires |a| <= from <= |a + b|
    ensures Part(a + b, from, size) == Part(b, from - |a|, size)
  {
  }

  lemma PartOfFirst(a: seq<Byte>, b: seq<Byte>, from: nat, size: nat)
    requires from <= |a|
    ensures var first := Part(a, from, size); Part(a + b, from, size) == first + Part(b, 0, size - |first|)
  {
  }

  lemma PartOfThree(a: seq<Byte>, b: seq<Byte>, c: seq<Byte>, offset: nat, size: nat)
    ensures var p1 := Part(a, Clamped(offset, |a|), size);
            var p2 := Part(b, Clamped(offset - |a|, |b|), size - |p1|);
            var p3 := Part(c, Clamped(offset - |a| - |b|, |c|), size - |p1| - |p2|);
            p1 + p2 + p3 == Part(a + b + c, Clamped(offset, |a + b + c|), size)
  {
    PartOfConcat(a + b, c, offset, size);
    PartOfConcat(a, b, offset, size);
  }

  /** The three pieces are read as the one value that they make up, for every offset and every size of the buffer. */
  method ScatteredReadAccess(offset: nat, a: seq<Byte>, b: seq<Byte>, c: seq<Byte>, out: array<Byte>)
    requires offset <= |a| + |b| + |c|
    modifies out
    ensures out[..Min(|a| + |b| + |c| - offset, out.Length)] == Part(a + b + c, offset, out.Length)
  {
    ghost var whole := a + b + c;
    var n := ScatteredCopy(offset, a, b, c, out);
    ScatteredPart(offset, a, b, c, out.Length);
    assert out[..n] == Part(whole, offset, out.Length);
  }

  lemma ScatteredPart(offset: nat, a: seq<Byte>, b: seq<Byte>, c: seq<Byte>, size: nat)
    requires offset <= |a| + |b| + |c|
    ensures Clamped(offset, |a + b + c|) == offset && |Part(a + b + c, offset, size)| == Min(|a| + |b| + |c| - offset, size)
    ensures var p1 := Part(a, Clamped(offset, |a|), size);
            var p2 := Part(b, Clamped(offset - |a|, |b|), size - |p1|);
            var p3 := Part(c, Clamped(offset - |a| - |b|, |c|), size - |p1| - |p2|);
            p1 + p2 + p3 == Part(a + b + c, offset, size)
  {
    PartOfThree(a, b, c, offset, size);
  }

  method ScatteredCopy(offset: nat, a: seq<Byte>, b: seq<Byte>, c: seq<Byte>, out: array<Byte>) returns (n: nat)
    modifies out
    ensures var p1 := Part(a, Clamped(offset, |a|), out.Length);
            var p2 := Part(b, Clamped(offset - |a|, |b|), out.Length - |p1|);
            var p3 := Part(c, Clamped(offset - |a| - |b|, |c|), out.Length - |p1| - |p2|);
            n == |p1 + p2 + p3| <= out.Length && out[..n] == p1 + p2 + p3
  {
    ghost var p1 := Part(a, Clamped(offset, |a|), out.Length);
    ghost var p2 := Part(b, Clamped(offset - |a|, |b|), out.Length - |p1|);
    ghost var p3 := Part(c, Clamped(offset - |a| - |b|, |c|), out.Length - |p1| - |p2|);
    n := CopyBehind(offset, a, out, 0, [], p1);
    n := CopyBehind(offset - |a|, b, out, n, p1, p2);
    n := CopyBehind(offset - |a| - |b|, c, out, n, p1 + p2, p3);
  }

  /** A copy behind what is already there. */
  method CopyBehind(offset: int, source: seq<Byte>, out: array<Byte>, begin: nat, ghost front: seq<Byte>, ghost piece: seq<Byte>)
    returns (next: nat)
    requires begin <= out.Length && out[..begin] == front
    requires piece == Part(source, Clamped(offset, |source|), out.Length - begin)
    modifies out
    ensures next == begin + |piece| <= out.Length
    ensures out[..next] == front + piece
  {
    next := Copy(offset, source, out, begin, out.Length);
  }

  // ---- Read access ----

  datatype Access = Success(data: seq<Byte>) | Failure(code: Byte)

  /** Access to a value at an offset, with room for `size` bytes. */
  function ReadAccess(v: seq<Byte>, offset: nat, size: nat): Access {
    if offset > |v| then Failure(INVALID_OFFSET) else Success(Part(v, offset, size))
  }

  /** Access to a constant string or a descriptor: the bytes are copied into the buffer. */
  method ReadValue(v: seq<Byte>, offset: nat, out: array<Byte>, at: nat) returns (ok: bool, size: nat)
    requires at <= out.Length
    modifies out
    ensures ok <==> ReadAccess(v, offset, out.Length - at).Success?
    ensures ok ==> size == Min(|v| - offset, out.Length - at)
    ensures ok ==> out[at..at + size] == ReadAccess(v, offset, out.Length - at).data
    ensures out[..at] == old(out[..at])
    ensures !ok ==> out[..] == old(out[..])
  {
    if offset > |v| {
      return false, 0;
    }
    size := Min(|v| - offset, out.Length - at);
    CopyOut(v[offset..offset + size], out, at);
    ok := true;
  }

  /** The i-th byte of a number, from the lowest on; a negative number is shifted arithmetically. */
  function ByteOf(value: int, i: nat): Byte
    decreases i
  {
    if i == 0 then value % 256 else ByteOf(value / 256, i - 1)
  }

  /** A fixed number as the bytes that are read, lowest first. */
  function FixedValue(value: int, size: nat): (r: seq<Byte>)
    ensures |r| == size
  {
    seq(size, i requires 0 <= i < size => ByteOf(value, i))
  }

  /** What is read stands for the fixed number, if that fits its size; for a negative one in two's complement. */
  lemma {:induction false} FixedValueStandsForNumber(value: int, size: nat)
    requires 0 - Power256(size) <= value < Power256(size)
    ensures Value(FixedValue(value, size)) == if value < 0 then value + Power256(size) else value
    decreases size
  {
    if size == 0 {
      assert FixedValue(value, size) == [];
    } else {
      FixedValueStandsForNumber(value / 256, size - 1);
      assert FixedValue(value, size)[1..] == FixedValue(value / 256, size - 1);
    }
  }

  /** Access to a fixed number: its bytes are computed one by one. */
  method ReadFixedValue(value: int, valueSize: nat, offset: nat, out: array<Byte>, at: nat) returns (ok: bool, size: nat)
    requires at <= out.Length
    modifies out
    ensures ok <==> ReadAccess(FixedValue(value, valueSize), offset, out.Length - at).Success?
    ensures ok ==> size == Min(valueSize - offset, out.Length - at)
    ensures ok ==> out[at..at + size] == ReadAccess(FixedValue(value, valueSize), offset, out.Length - at).data
    ensures out[..at] == old(out[..at])
    ensures !ok ==> out[..] == old(out[..])
  {
    if offset > valueSize {
      return false, 0;
    }
    size := Min(valueSize - offset, out.Length - at);
    ghost var part := FixedValue(value, valueSize)[offset..offset + size];
    for k := 0 to size
      invariant out[..at] == old(out[..at])
      invariant out[at..at + k] == part[..k]
    {
      out[at + k] := ByteOf(value, offset + k);
      assert part[..k + 1] == part[..k] + [part[k]];
    }
    assert part[..size] == part;
    ok := true;
  }

  /** The declaration of a characteristic with a UUID of its own: properties, handle of the value, UUID. */
  method ReadDeclaration(properties: Byte, valueHandle: Word16, uuid: seq<Byte>, offset: nat, out: array<Byte>)
    returns (ok: bool, size: nat)
    modifies out
    ensures var access := ReadAccess([properties] + ToBytes(valueHandle) + uuid, offset, out.Length);
            && (ok <==> access.Success?)
            && (ok ==> size <= out.Length && out[..size] == access.data)
            && (!ok ==> out[..] == old(out[..]))
  {
    var handle := ToBytes(valueHandle);
    var dataSize := 1 + |handle| + |uuid|;
    if offset > dataSize {
      return false, 0;
    }
    ScatteredReadAccess(offset, [properties], handle, uuid, out);
    size := Min(dataSize - offset, out.Length);
    ok := true;
  }

  // ---- Read Blob ----

  /** An attribute whose value is read by copying, with the options of its characteristic. */
  datatype Attribute = Attribute(value: seq<Byte>, readable: bool, requiresEncryption: bool)

  function AttributeAccess(a: Attribute, offset: nat, size: nat, s: Security): Access {
    if !Allows(s, a.requiresEncryption) then Failure(SecurityError(s))
    else if !a.readable then Failure(READ_NOT_PERMITTED)
    else ReadAccess(a.value, offset, size)
  }

  /** The response to a request for an attribute with that handle. */
  function ReadBlob(opcode: Byte, handle: Word16, a: Attribute, offset: Word16, mtu: nat, s: Security): Response
    requires mtu >= DEFAULT_MTU
  {
    match AttributeAccess(a, offset, mtu - 1, s)
    case Success(data) => [READ_BLOB_RESPONSE] + data
    case Failure(code) => Error(opcode, code, handle)
  }

  /** The handler: the attributes of the table by their handles. */
  function RespondToReadBlob(table: map<Word16, Attribute>, pdu: seq<Byte>, mtu: nat, s: Security): Response
    requires pdu != [] && mtu >= DEFAULT_MTU
  {
    if |pdu| != 5 then Error(pdu[0], INVALID_PDU, 0)
    else
      var handle, offset := FromBytes(pdu[1], pdu[2]), FromBytes(pdu[3], pdu[4]);
      if handle == 0 || handle !in table then Error(pdu[0], INVALID_HANDLE, handle)
      else ReadBlob(pdu[0], handle, table[handle], offset, mtu, s)
  }

  /** Access to an attribute: the link's security first, then whether it can be read at all. */
  method ReadAttribute(a: Attribute, offset: nat, out: array<Byte>, at: nat, s: Security) returns (error: Byte, size: nat)
    requires at <= out.Length
    modifies out
    ensures var access := AttributeAccess(a, offset, out.Length - at, s);
            && (access == Failure(error) <==> access.Failure?)
            && (access.Failure? <==> error != 0)
            && (access.Success? ==> at + size <= out.Length && out[at..at + size] == access.data)
  {
    error, size := 0, 0;
    if !Allows(s, a.requiresEncryption) {
      error := SecurityError(s);
    } else if !a.readable {
      error := READ_NOT_PERMITTED;
    } else {
      var ok, read := ReadValue(a.value, offset, out, at);
      error, size := if ok then 0 else INVALID_OFFSET, read;
    }
  }

  method HandleReadBlob(table: map<Word16, Attribute>, s: Security, pdu: seq<Byte>, output: array<Byte>) returns (size: nat)
    requires pdu != [] && output.Length >= DEFAULT_MTU
    modifies output
    ensures size <= output.Length && output[..size] == RespondToReadBlob(table, pdu, output.Length, s)
  {
    if |pdu| != 5 {
      size := ErrorResponse(pdu[0], INVALID_PDU, 0, output);
      return;
    }
    var handle, offset := FromBytes(pdu[1], pdu[2]), FromBytes(pdu[3], pdu[4]);
    if handle == 0 || handle !in table {
      size := ErrorResponse(pdu[0], INVALID_HANDLE, handle, output);
      return;
    }
    var error, read := ReadAttribute(table[handle], offset, output, 1, s);
    if error == 0 {
      output[0] := READ_BLOB_RESPONSE;
      size := 1 + read;
      assert output[..size] == [READ_BLOB_RESPONSE] + output[1..size];
    } else {
      size := ErrorResponse(pdu[0], error, handle, output);
    }
  }

  /** A request is answered with the bytes of the value from the offset on, as far as they fit, exactly if the handle is
      known, the link may access the attribute, it can be read, and the offset is not behind its value; otherwise with the
      error of the first of these that fails, and with no byte of the value. */
  lemma ReadBlobAnswers(table: map<Word16, Attribute>, pdu: seq<Byte>, mtu: nat, s: Security)
    requires pdu != [] && mtu >= 23
    ensures var response := RespondToReadBlob(table, pdu, mtu, s);
            if |pdu| != 5 then IsError(response, pdu[0], 0, 0x04)
            else
              var handle, offset := FromBytes(pdu[1], pdu[2]), FromBytes(pdu[3], pdu[4]);
              if handle == 0 || handle !in table then IsError(response, pdu[0], handle, 0x01)
              else
                var a := table[handle];
                if a.requiresEncryption && !s.encrypted then IsError(response, pdu[0], handle, if s.hasKey then 0x0f else 0x05)
                else if !a.readable then IsError(response, pdu[0], handle, 0x02)
                else if offset > |a.value| then IsError(response, pdu[0], handle, 0x07)
                else if |a.value| - offset < mtu - 1 then response == [0x0d] + a.value[offset..]
                else response == [0x0d] + a.value[offset..offset + mtu - 1]
  {
  }

  // ---- The client ----

  /** The PDU of a request. */
  function ReadBlobRequest(handle: Word16, offset: Word16): seq<Byte> {
    [READ_BLOB_REQUEST] + ToBytes(handle) + ToBytes(offset)
  }

  /** The link may read an attribute of the table. */
  predicate CanRead(table: map<Word16, Attribute>, handle: Word16, s: Security) {
    handle != 0 && handle in table && table[handle].readable && Allows(s, table[handle].requiresEncryption)
  }

  lemma BlobIsPart(table: map<Word16, Attribute>, handle: Word16, offset: Word16, mtu: nat, s: Security)
    requires CanRead(table, handle, s) && offset <= |table[handle].value| && mtu >= DEFAULT_MTU
    ensures RespondToReadBlob(table, ReadBlobRequest(handle, offset), mtu, s)
            == [READ_BLOB_RESPONSE] + Part(table[handle].value, offset, mtu - 1)
  {
    RequestFields(handle, offset);
  }

  lemma RequestFields(handle: Word16, offset: Word16)
    ensures var pdu := ReadBlobRequest(handle, offset);
            |pdu| == 5 && FromBytes(pdu[1], pdu[2]) == handle && FromBytes(pdu[3], pdu[4]) == offset
  {
    BytesRoundTrip(handle);
    BytesRoundTrip(offset);
  }

  /** A client that asks for one offset after the other, until a response is shorter than the MTU or an error. */
  function ReadLong(respond: Word16 -> Response, offset: nat, mtu: nat): seq<Byte>
    requires mtu >= DEFAULT_MTU
    decreases 0x10000 - offset
  {
    if offset >= 0x10000 then []
    else
      var response := respond(offset);
      if response == [] || response[0] != READ_BLOB_RESPONSE then []
      else if |response| < mtu then response[1..]
      else response[1..] + ReadLong(respond, offset + mtu - 1, mtu)
  }

  lemma {:induction false} ReadLongOfParts(respond: Word16 -> Response, v: seq<Byte>, offset: nat, mtu: nat)
    requires offset <= |v| < 0x10000 && mtu >= DEFAULT_MTU
    requires forall o: Word16 :: o <= |v| ==> respond(o) == [READ_BLOB_RESPONSE] + Part(v, o, mtu - 1)
    ensures ReadLong(respond, offset, mtu) == v[offset..]
    decreases |v| - offset
  {
    var part := Part(v, offset, mtu - 1);
    assert respond(offset)[1..] == part;
    PartAndRest(v, offset, mtu - 1);
    if |v| - offset < mtu - 1 {
    } else {
      ReadLongOfParts(respond, v, offset + mtu - 1, mtu);
    }
  }

  lemma PartAndRest(v: seq<Byte>, offset: nat, size: nat)
    requires offset <= |v|
    ensures |v| - offset < size ==> Part(v, offset, size) == v[offset..]
    ensures |v| - offset >= size ==> Part(v, offset, size) + v[offset + size..] == v[offset..]
  {
  }

  /** The procedure ends and delivers exactly the value of an attribute that the link may read, for every value and every
      MTU. */
  lemma ReadLongIsValue(table: map<Word16, Attribute>, handle: Word16, mtu: nat, s: Security)
    requires CanRead(table, handle, s) && |table[handle].value| < 0x10000 && mtu >= DEFAULT_MTU
    ensures ReadLong(o => RespondToReadBlob(table, ReadBlobRequest(handle, o), mtu, s), 0, mtu) == table[handle].value
  {
    var respond := o => RespondToReadBlob(table, ReadBlobRequest(handle, o), mtu, s);
    forall o: Word16 | o <= |table[handle].value|
      ensures respond(o) == [READ_BLOB_RESPONSE] + Part(table[handle].value, o, mtu - 1)
    {
      BlobIsPart(table, handle, o, mtu, s);
    }
    ReadLongOfParts(respond, table[handle].value, 0, mtu);
  }
}
