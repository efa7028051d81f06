/** The handler that writes the response to Find Information into the output buffer. */
module FindInformationHandler {
  import opened AttPdu
  import opened AttributeHandles
  import opened Bytes
  import opened FindInformation
  import opened GattServer

  const SHORT_UUIDS: Byte := 1
  const LONG_UUIDS: Byte := 2

  datatype Uuid = Uuid16(value: Word16) | Uuid128(bytes: seq<Byte>)

  /** The UUIDs of the table's attributes. */
  ghost predicate Fits(t: Table, uuids: seq<Uuid>) {
    && |uuids| == |t.handles| == |t.short|
    && (forall i :: 0 <= i < |uuids| ==> t.short[i] == uuids[i].Uuid16?)
    && (forall i :: 0 <= i < |uuids| ==> uuids[i].Uuid128? ==> |uuids[i].bytes| == 16)
    && (forall i :: 0 <= i < |uuids| ==> t.handles[i] <= LAST_HANDLE)
  }

  function Tuple(t: Table, uuids: seq<Uuid>, i: nat): (r: seq<Byte>)
    requires Fits(t, uuids) && i < |uuids|
    ensures |r| == TupleSize(t.short[i])
  {
    ToBytes(t.handles[i]) + if uuids[i].Uuid16? then ToBytes(uuids[i].value) else uuids[i].bytes
  }

  ghost predicate Within(indices: seq<nat>, n: nat) {
    forall k :: 0 <= k < |indices| ==> indices[k] < n
  }

  function Tuples(t: Table, uuids: seq<Uuid>, indices: seq<nat>): seq<Byte>
    requires Fits(t, uuids) && Within(indices, |uuids|)
  {
    if indices == [] then [] else Tuple(t, uuids, indices[0]) + Tuples(t, uuids, indices[1..])
  }

  lemma CollectWithin(t: Table, start: nat, end: nat, short: bool, room: nat)
    requires |t.short| == |t.handles|
    ensures Within(Collect(t, start, end, short, room), |t.handles|)
  {
    CollectBounds(t, start, end, short, room);
    var r := Collect(t, start, end, short, room);
    assert forall k :: 0 <= k < |r| ==> r[k] in r;
  }

  function Header(short: bool): seq<Byte> {
    [FIND_INFORMATION_RESPONSE, if short then SHORT_UUIDS else LONG_UUIDS]
  }

  function Respond(t: Table, uuids: seq<Uuid>, pdu: seq<Byte>, outSize: nat): Response
    requires Fits(t, uuids) && pdu != [] && outSize >= HEADER
  {
    if |pdu| != 5 then Error(pdu[0], INVALID_PDU, 0)
    else
      var from, to := FromBytes(pdu[1], pdu[2]), FromBytes(pdu[3], pdu[4]);
      if from == 0 || from > to then Error(pdu[0], INVALID_HANDLE, from)
      else match Find(t, from, to, outSize)
        case NotFound => Error(pdu[0], ATTRIBUTE_NOT_FOUND, from)
        case Found(short, indices) =>
          CollectWithin(t, FirstIndex(t, from), EndingIndex(t, to), short, outSize - HEADER);
          Header(short) + Tuples(t, uuids, indices)
  }

  /** The tables of a server without includes: the look-up by recursion over the services is the one used here. */
  lemma TableOfServices(services: seq<Service>, short: seq<bool>, handle: nat, i: nat)
    requires Accepted(1, services) && NoIncludes(services) && |short| == |Handles(1, services)|
    ensures var t := Table(Handles(1, services), short);
            && FirstIndexByHandle(services, handle) == FirstIndex(t, handle)
            && (i < |t.handles| ==> HandleByIndex(services, i) == t.handles[i])
            && (|t.handles| < 0x10000 && (forall k :: 0 <= k < |t.handles| ==> t.handles[k] <= LAST_HANDLE) ==> t.Valid())
  {
    var end := HandlesIncrease(1, services);
    FirstIndexFromIs(1, 0, services, handle);
    HandleFromIs(1, 0, services, i);
  }

  /** What the loop writes from attribute `i` on. */
  function Listed(t: Table, uuids: seq<Uuid>, i: nat, end: nat, short: bool, room: nat): seq<Byte>
    requires Fits(t, uuids)
  {
    CollectWithin(t, i, end, short, room);
    Tuples(t, uuids, Collect(t, i, end, short, room))
  }

  predicate LoopGoesOn(t: Table, i: nat, end: nat, short: bool, room: nat) {
    (i <= end || end == INVALID_INDEX) && i < |t.handles| && room >= TupleSize(short)
  }

  /** The room that is left behind attribute `i`. */
  function RoomBehind(t: Table, i: nat, short: bool, room: nat): (r: nat)
    requires i < |t.short| && room >= TupleSize(short)
    ensures r <= room
  {
    if t.short[i] == short then room - TupleSize(short) else room
  }

  lemma ListedNext(t: Table, uuids: seq<Uuid>, i: nat, end: nat, short: bool, room: nat)
    requires Fits(t, uuids) && LoopGoesOn(t, i, end, short, room)
    ensures var rest := Listed(t, uuids, i + 1, end, short, RoomBehind(t, i, short, room));
            Listed(t, uuids, i, end, short, room) == if t.short[i] == short then Tuple(t, uuids, i) + rest else rest
  {
    if t.short[i] == short {
      var rest := Collect(t, i + 1, end, short, room - TupleSize(short));
      assert Collect(t, i, end, short, room) == [i] + rest;
      CollectWithin(t, i + 1, end, short, room - TupleSize(short));
    }
  }

  lemma ListedEnds(t: Table, uuids: seq<Uuid>, i: nat, end: nat, short: bool, room: nat)
    requires Fits(t, uuids) && !LoopGoesOn(t, i, end, short, room)
    ensures Listed(t, uuids, i, end, short, room) == []
  {
  }

  /** The output so far, together with what the loop will still write, is all of the text. */
  ghost predicate Writes(output: array<Byte>, out: nat, rest: seq<Byte>, text: seq<Byte>)
    reads output
  {
    out <= output.Length && output[..out] + rest == text
  }

  lemma Regrouped(a: seq<Byte>, b: seq<Byte>, c: seq<Byte>)
    ensures (a + b) + c == a + (b + c)
  {
  }

  method WriteFirst(tuple: seq<Byte>, output: array<Byte>, at: nat, ghost all: seq<Byte>, ghost rest: seq<Byte>,
                    ghost text: seq<Byte>)
    requires at + |tuple| <= output.Length && all == tuple + rest && Writes(output, at, all, text)
    modifies output
    ensures Writes(output, at + |tuple|, rest, text)
  {
    ghost var before := output[..at];
    CopyOut(tuple, output, at);
    assert output[..at + |tuple|] == before + tuple;
    Regrouped(before, tuple, rest);
  }

  /** One attribute: a tuple if its UUID has the size that is listed. */
  method WriteNext(t: Table, uuids: seq<Uuid>, i: nat, short: bool, output: array<Byte>, at: nat, ghost all: seq<Byte>,
                   ghost rest: seq<Byte>, ghost text: seq<Byte>)
    returns (out: nat)
    requires Fits(t, uuids) && i < |uuids| && at + TupleSize(short) <= output.Length
    requires all == (if t.short[i] == short then Tuple(t, uuids, i) + rest else rest) && Writes(output, at, all, text)
    modifies output
    ensures out == output.Length - RoomBehind(t, i, short, output.Length - at)
    ensures Writes(output, out, rest, text)
  {
    out := at;
    if t.short[i] == short {
      WriteFirst(Tuple(t, uuids, i), output, at, all, rest, text);
      out := at + TupleSize(short);
    }
  }

  /** The loop over the attributes: what is written behind `at` are the tuples of the collected attributes. */
  method CollectTuples(t: Table, uuids: seq<Uuid>, start: nat, end: nat, short: bool, output: array<Byte>, at: nat)
    returns (out: nat)
    requires Fits(t, uuids) && at <= output.Length
    modifies output
    ensures at <= out <= output.Length
    ensures output[..out] == old(output[..at]) + Listed(t, uuids, start, end, short, output.Length - at)
  {
    var i := start;
    out := at;
    ghost var text := output[..at] + Listed(t, uuids, start, end, short, output.Length - at);
    while LoopGoesOn(t, i, end, short, output.Length - out)
      invariant at <= out <= output.Length
      invariant Writes(output, out, Listed(t, uuids, i, end, short, output.Length - out), text)
      decreases |t.handles| - i
    {
      ghost var room := output.Length - out;
      ghost var all := Listed(t, uuids, i, end, short, room);
      ghost var rest := Listed(t, uuids, i + 1, end, short, RoomBehind(t, i, short, room));
      ListedNext(t, uuids, i, end, short, room);
      out := WriteNext(t, uuids, i, short, output, out, all, rest, text);
      i := i + 1;
    }
    ListedEnds(t, uuids, i, end, short, output.Length - out);
  }

  /** The response to a request that finds an attribute to start at. */
  method WriteResponse(t: Table, uuids: seq<Uuid>, start: nat, end: nat, short: bool, output: array<Byte>) returns (size: nat)
    requires Fits(t, uuids) && output.Length >= DEFAULT_MTU
    modifies output
    ensures size <= output.Length
    ensures output[..size] == Header(short) + Listed(t, uuids, start, end, short, output.Length - HEADER)
  {
    output[0] := FIND_INFORMATION_RESPONSE;
    output[1] := if short then SHORT_UUIDS else LONG_UUIDS;
    assert output[..HEADER] == Header(short);
    size := CollectTuples(t, uuids, start, end, short, output, HEADER);
  }

  method HandleFindInformation(t: Table, uuids: seq<Uuid>, pdu: seq<Byte>, output: array<Byte>) returns (size: nat)
    requires Fits(t, uuids) && pdu != [] && output.Length >= DEFAULT_MTU
    modifies output
    ensures size <= output.Length && output[..size] == Respond(t, uuids, pdu, output.Length)
  {
    if |pdu| != 5 {
      size := ErrorResponse(pdu[0], INVALID_PDU, 0, output);
      return;
    }
    var from, to := FromBytes(pdu[1], pdu[2]), FromBytes(pdu[3], pdu[4]);
    if from == 0 || from > to {
      size := ErrorResponse(pdu[0], INVALID_HANDLE, from, output);
      return;
    }
    var start := FirstIndex(t, from);
    if start == INVALID_INDEX || start >= |t.handles| {
      size := ErrorResponse(pdu[0], ATTRIBUTE_NOT_FOUND, from, output);
      return;
    }
    size := WriteResponse(t, uuids, start, EndingIndex(t, to), t.short[start], output);
  }
}
