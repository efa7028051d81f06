/**
 Prepare Write and Execute Write over the write queue, as functions on the queue's owner and elements and
 on the attribute values. Attribute values are bound variables of fixed size.
 */
module PreparedWrites {
  import opened AttPdu
  import opened Bytes
  import opened SharedWriteQueue

  const NO_SECURITY := Security(false, false)

  datatype Attribute = Attribute(writable: bool, requiresEncryption: bool)

  /** The attributes, and the index that a handle stands for. */
  datatype Table = Table(attributes: seq<Attribute>, index: map<Word16, nat>) {
    predicate Valid() {
      forall h :: h in index ==> index[h] < |attributes|
    }
  }

  type Values = seq<seq<Byte>>

  datatype State = State(owner: Owner, elements: seq<Element>, values: Values)

  // ---- Access to a value ----

  datatype Access = Success | Failure(code: Byte)

  function WriteAccess(a: Attribute, size: nat, offset: nat, length: nat, s: Security): Access {
    if !Allows(s, a.requiresEncryption) then Failure(SecurityError(s))
    else if !a.writable then Failure(WRITE_NOT_PERMITTED)
    else if offset > size then Failure(INVALID_OFFSET)
    else if length + offset > size then Failure(INVALID_LENGTH)
    else Success
  }

  /** The values after one access; a failing one changes nothing. */
  function Written(t: Table, values: Values, i: nat, offset: nat, data: seq<Byte>, s: Security): (r: Values)
    requires |values| == |t.attributes| && i < |values|
    ensures |r| == |values| && |r[i]| == |values[i]| && forall j :: 0 <= j < |r| && j != i ==> r[j] == values[j]
  {
    if WriteAccess(t.attributes[i], |values[i]|, offset, |data|, s).Success?
    then values[i := Spliced(values[i], offset, data)] else values
  }

  // ---- Prepare Write ----

  /** What a prepared element says: handle, offset, bytes. */
  predicate Preparable(t: Table, e: seq<Byte>) {
    && |e| >= 4
    && var handle := FromBytes(e[0], e[1]); handle != 0 && handle in t.index
  }

  predicate AllPreparable(t: Table, es: seq<Element>) {
    forall i :: 0 <= i < |es| ==> Preparable(t, es[i])
  }

  function HandleOf(e: seq<Byte>): Word16
    requires |e| >= 4
  {
    FromBytes(e[0], e[1])
  }

  function OffsetOf(e: seq<Byte>): Word16
    requires |e| >= 4
  {
    FromBytes(e[2], e[3])
  }

  predicate Fits(queueSize: nat, elements: seq<Element>, size: nat) {
    size + SIZE_BYTES <= queueSize - |Encode(elements)|
  }

  function Prepare(t: Table, queueSize: Word16, st: State, client: Owner, pdu: seq<Byte>, outSize: nat)
    : (r: (State, Response))
    requires t.Valid() && |st.values| == |t.attributes| && pdu != [] && outSize >= 1
    ensures r.0.values == st.values
  {
    if |pdu| < 5 then (st, Error(pdu[0], INVALID_PDU, 0))
    else if !Preparable(t, pdu[1..]) then (st, Error(pdu[0], INVALID_HANDLE, HandleOf(pdu[1..])))
    else
      var handle := HandleOf(pdu[1..]);
      var i := t.index[handle];
      var access := WriteAccess(t.attributes[i], |st.values[i]|, 0, 0, NO_SECURITY);
      if access.Failure? then (st, Error(pdu[0], access.code, handle))
      else if !Fits(queueSize, st.elements, |pdu| - 1) || st.owner !in {Nobody, client} then
        (st, Error(pdu[0], PREPARE_QUEUE_FULL, handle))
      else
        (State(client, st.elements + [pdu[1..]], st.values),
         [PREPARE_RESPONSE] + pdu[1..if outSize < |pdu| then outSize else |pdu|])
  }

  // ---- Execute Write ----

  datatype Outcome = Done | Failed(code: Byte, handle: Word16)

  /** The elements in their order, up to the first one that fails. */
  function Replay(t: Table, values: Values, es: seq<Element>, s: Security): (r: (Values, Outcome))
    requires t.Valid() && |values| == |t.attributes| && AllPreparable(t, es)
    ensures |r.0| == |values|
    decreases es
  {
    if es == [] then (values, Done)
    else
      var e := es[0];
      assert Preparable(t, es[0]);
      var i := t.index[HandleOf(e)];
      var access := WriteAccess(t.attributes[i], |values[i]|, OffsetOf(e), |e| - 4, s);
      if access.Failure? then
        (values, Failed(if access.code == INVALID_LENGTH then INVALID_LENGTH else INVALID_OFFSET, HandleOf(e)))
      else Replay(t, Written(t, values, i, OffsetOf(e), e[4..], s), es[1..], s)
  }

  /** Whatever a client asks for when it ends its writes: only the owner's end frees the queue. */
  function Freed(st: State, client: Owner): State {
    if st.owner == client then State(Nobody, [], st.values) else st
  }

  function Execute(t: Table, st: State, client: Owner, s: Security, pdu: seq<Byte>): (r: (State, Response))
    requires t.Valid() && |st.values| == |t.attributes| && AllPreparable(t, st.elements) && pdu != []
    ensures |r.0.values| == |st.values|
  {
    if |pdu| != 2 || (pdu[1] != 0 && pdu[1] != 1) then (st, Error(pdu[0], INVALID_PDU, 0))
    else if pdu[1] == 1 && st.owner == client then
      var (values, outcome) := Replay(t, st.values, st.elements, s);
      (Freed(st.(values := values), client),
       if outcome.Failed? then Error(pdu[0], outcome.code, outcome.handle) else [EXECUTE_RESPONSE])
    else (Freed(st, client), [EXECUTE_RESPONSE])
  }

  // ---- Write Request ----

  function Write(t: Table, st: State, s: Security, pdu: seq<Byte>): (r: (State, Response))
    requires t.Valid() && |st.values| == |t.attributes| && pdu != []
    ensures r.0.owner == st.owner && r.0.elements == st.elements && |r.0.values| == |st.values|
  {
    if |pdu| < 3 then (st, Error(pdu[0], INVALID_PDU, 0))
    else
      var handle := FromBytes(pdu[1], pdu[2]);
      if handle == 0 || handle !in t.index then (st, Error(pdu[0], INVALID_HANDLE, handle))
      else
        var i := t.index[handle];
        var access := WriteAccess(t.attributes[i], |st.values[i]|, 0, |pdu| - 3, s);
        (st.(values := Written(t, st.values, i, 0, pdu[3..], s)),
         if access.Failure? then Error(pdu[0], access.code, handle) else [WRITE_RESPONSE])
  }

  // ---- Runs ----

  datatype Event =
    | PrepareWrite(client: Owner, pdu: seq<Byte>, outSize: nat)
    | ExecuteWrite(client: Owner, security: Security, pdu: seq<Byte>)
    | WriteRequest(client: Owner, security: Security, pdu: seq<Byte>)
    | Disconnected(client: Owner)
  {
    predicate Valid() {
      && client != Nobody
      && (Disconnected? || pdu != [])
      && (PrepareWrite? ==> outSize >= 23)
    }
  }

  /** The queue has an owner exactly while it has elements; they fit, and each one names an attribute. */
  ghost predicate Inv(t: Table, queueSize: Word16, st: State) {
    && t.Valid()
    && |st.values| == |t.attributes|
    && (st.owner == Nobody <==> st.elements == [])
    && |Encode(st.elements)| <= queueSize
    && AllPreparable(t, st.elements)
  }

  function Step(t: Table, queueSize: Word16, st: State, e: Event): (r: (State, Response))
    requires t.Valid() && |st.values| == |t.attributes| && AllPreparable(t, st.elements) && e.Valid()
  {
    match e
    case PrepareWrite(client, pdu, outSize) => Prepare(t, queueSize, st, client, pdu, outSize)
    case ExecuteWrite(client, s, pdu) => Execute(t, st, client, s, pdu)
    case WriteRequest(client, s, pdu) => Write(t, st, s, pdu)
    case Disconnected(client) => (Freed(st, client), [])
  }

  lemma StepKeepsInv(t: Table, queueSize: Word16, st: State, e: Event)
    requires Inv(t, queueSize, st) && e.Valid()
    ensures Inv(t, queueSize, Step(t, queueSize, st, e).0)
  {
    var (next, response) := Step(t, queueSize, st, e);
    if next.elements != st.elements && next.elements != [] {
      PrepareAppends(t, queueSize, st, e.client, e.pdu, e.outSize);
    }
  }

  /** A prepared write is accepted exactly under these conditions, and then it is the queue's last element. The
      check uses no security attributes at all: an attribute that requires encryption is never accepted,
      however secure the connection is. */
  lemma PrepareAppends(t: Table, queueSize: Word16, st: State, client: Owner, pdu: seq<Byte>, outSize: nat)
    requires Inv(t, queueSize, st) && pdu != [] && client != Nobody && outSize >= 23
    ensures var (next, response) := Prepare(t, queueSize, st, client, pdu, outSize);
            if && |pdu| >= 5
               && Preparable(t, pdu[1..])
               && t.attributes[t.index[HandleOf(pdu[1..])]] == Attribute(true, false)
               && |Encode(st.elements)| + SIZE_BYTES + |pdu| - 1 <= queueSize
               && st.owner in {Nobody, client}
            then && response[0] == PREPARE_RESPONSE
                 && next.owner == client
                 && |next.elements| == |st.elements| + 1
                 && next.elements == st.elements + [pdu[1..]]
                 && |Encode(next.elements)| == |Encode(st.elements)| + SIZE_BYTES + |pdu| - 1
            else next == st && response[0] == ERROR_RESPONSE
  {
    if Prepare(t, queueSize, st, client, pdu, outSize).0 != st {
      var e: Element := pdu[1..];
      EncodeOne(e);
      EncodeConcat(st.elements, [e]);
    }
  }
}
