/** The server's handlers for prepared writes, on the queue in its byte array, against PreparedWrites. */
module WriteServer {
  import opened AttPdu
  import opened Bytes
  import opened SharedWriteQueue
  import opened PreparedWrites

  class Server {
    const table: Table
    const queue: WriteQueue
    var values: Values

    ghost function View(): State
      reads this, queue
    {
      State(queue.owner, queue.elements, values)
    }

    ghost predicate Valid()
      reads this, queue, queue.buffer
    {
      && queue.Valid()
      && table.Valid() && |values| == |table.attributes|
      && AllPreparable(table, queue.elements)
    }

    constructor (t: Table, queueSize: Word16, initial: Values)
      requires t.Valid() && |initial| == |t.attributes|
      ensures Valid() && fresh(queue) && fresh(queue.buffer) && queue.buffer.Length == queueSize
      ensures table == t && View() == State(Nobody, [], initial)
      ensures Inv(t, queueSize, View())
    {
      table, values := t, initial;
      queue := new WriteQueue(queueSize);
    }

    /** The bytes are copied into the bound variable one by one. */
    method Access(i: nat, offset: nat, data: seq<Byte>, s: Security) returns (access: Access)
      requires |values| == |table.attributes| && i < |values|
      modifies this`values
      ensures access == WriteAccess(table.attributes[i], |old(values[i])|, offset, |data|, s)
      ensures values == Written(table, old(values), i, offset, data, s)
    {
      access := WriteAccess(table.attributes[i], |values[i]|, offset, |data|, s);
      if access.Success? {
        var v := values[i];
        ghost var before := v;
        for k := 0 to |data|
          invariant |v| == |before|
          invariant v == before[..offset] + data[..k] + before[offset + k..]
        {
          v := v[offset + k := data[k]];
        }
        assert v == Spliced(before, offset, data);
        values := values[i := v];
      }
    }

    /** The queue takes all of the PDU but the opcode, if it has room. */
    method Enqueue(client: Owner, pdu: seq<Byte>) returns (ok: bool)
      requires queue.Valid() && client != Nobody && |pdu| >= 5
      modifies queue, queue.buffer
      ensures queue.Valid()
      ensures ok <==> Fits(queue.buffer.Length, old(queue.elements), |pdu| - 1) && old(queue.owner) in {Nobody, client}
      ensures !ok ==> queue.elements == old(queue.elements) && queue.owner == old(queue.owner)
      ensures ok ==> |pdu| < 0x10000 && queue.elements == old(queue.elements) + [pdu[1..]] && queue.owner == client
    {
      var p := queue.Allocate(|pdu| - 1, client);
      ok := p.At?;
      if ok {
        queue.Store(p.at, pdu[1..]);
      }
    }

    /** The response repeats the request, as far as there is room. */
    method Echo(pdu: seq<Byte>, output: array<Byte>) returns (size: nat)
      requires |pdu| >= 5 && output.Length >= 23
      modifies output
      ensures size <= output.Length
      ensures output[..size] == [PREPARE_RESPONSE] + pdu[1..if output.Length < |pdu| then output.Length else |pdu|]
    {
      size := if output.Length < |pdu| then output.Length else |pdu|;
      output[0] := PREPARE_RESPONSE;
      CopyOut(pdu[1..size], output, 1);
      assert output[..size] == output[..1] + output[1..size];
    }

    /** The prepared write is checked with a write of no bytes at offset 0, which changes no value. */
    method CheckWrite(i: nat) returns (access: Access)
      requires |values| == |table.attributes| && i < |values|
      modifies this`values
      ensures values == old(values)
      ensures access == WriteAccess(table.attributes[i], |values[i]|, 0, 0, NO_SECURITY)
    {
      access := Access(i, 0, [], NO_SECURITY);
      assert Spliced(old(values)[i], 0, []) == old(values)[i];
    }

    method HandlePrepareWrite(client: Owner, pdu: seq<Byte>, output: array<Byte>) returns (size: nat)
      requires Valid() && client != Nobody && pdu != []
      requires output.Length >= 23 && output != queue.buffer
      modifies queue, queue.buffer, output, this`values
      ensures Valid()
      ensures size <= output.Length
      ensures (View(), output[..size]) == Prepare(table, queue.buffer.Length, old(View()), client, pdu, output.Length)
    {
      if |pdu| < 5 {
        size := ErrorResponse(pdu[0], INVALID_PDU, 0, output);
        return;
      }
      var handle := FromBytes(pdu[1], pdu[2]);
      assert handle == HandleOf(pdu[1..]);
      if handle == 0 || handle !in table.index {
        size := ErrorResponse(pdu[0], INVALID_HANDLE, handle, output);
        return;
      }
      var access := CheckWrite(table.index[handle]);
      if access.Failure? {
        size := ErrorResponse(pdu[0], access.code, handle, output);
        return;
      }
      var ok := Enqueue(client, pdu);
      if ok {
        size := Echo(pdu, output);
      } else {
        size := ErrorResponse(pdu[0], PREPARE_QUEUE_FULL, handle, output);
      }
    }

    /** One element of the queue is written to its attribute. */
    method ReplayElement(at: nat, size: nat, s: Security, ghost e: Element) returns (access: Access, handle: Word16)
      requires table.Valid() && |values| == |table.attributes| && Preparable(table, e)
      requires at + size <= queue.buffer.Length && queue.buffer[at..at + size] == e
      modifies this`values
      ensures handle == HandleOf(e) && handle in table.index
      ensures var i := table.index[handle];
              && access == WriteAccess(table.attributes[i], |old(values[i])|, OffsetOf(e), |e| - 4, s)
              && values == Written(table, old(values), i, OffsetOf(e), e[4..], s)
    {
      assert forall j :: 0 <= j < 4 ==> queue.buffer[at + j] == e[j];
      handle := FromBytes(queue.buffer[at], queue.buffer[at + 1]);
      var offset := FromBytes(queue.buffer[at + 2], queue.buffer[at + 3]);
      assert queue.buffer[at + 4..at + size] == e[4..];
      access := Access(table.index[handle], offset, queue.buffer[at + 4..at + size], s);
    }

    static lemma ReplayFrom(t: Table, values: Values, es: seq<Element>, k: nat, s: Security)
      requires t.Valid() && |values| == |t.attributes| && AllPreparable(t, es) && k < |es|
      ensures Preparable(t, es[k])
      ensures var handle := HandleOf(es[k]);
              var i := t.index[handle];
              var access := WriteAccess(t.attributes[i], |values[i]|, OffsetOf(es[k]), |es[k]| - 4, s);
              Replay(t, values, es[k..], s)
              == if access.Failure?
                 then (values, Failed(if access.code == INVALID_LENGTH then INVALID_LENGTH else INVALID_OFFSET, handle))
                 else Replay(t, Written(t, values, i, OffsetOf(es[k]), es[k][4..], s), es[k + 1..], s)
    {
    }

    /** Replaying the elements from the k-th on ends in `total`. */
    ghost predicate Ends(es: seq<Element>, k: nat, s: Security, total: (Values, Outcome))
      reads this`values
    {
      && table.Valid() && |values| == |table.attributes|
      && AllPreparable(table, es) && k <= |es|
      && Replay(table, values, es[k..], s) == total
    }

    /** The k-th element: afterwards the replay has failed, or it goes on with the next one. */
    method ReplayAt(p: Pointer, s: Security, ghost es: seq<Element>, ghost k: nat, ghost total: (Values, Outcome))
      returns (outcome: Outcome)
      requires k < |es| && Ends(es, k, s, total)
      requires p.At? && p.at + p.size <= queue.buffer.Length && queue.buffer[p.at..p.at + p.size] == es[k]
      modifies this`values
      ensures outcome.Failed? ==> (values, outcome) == total
      ensures outcome == Done ==> Ends(es, k + 1, s, total)
    {
      ReplayFrom(table, values, es, k, s);
      var access, handle := ReplayElement(p.at, p.size, s, es[k]);
      outcome := Done;
      if access.Failure? {
        outcome := Failed(if access.code == INVALID_LENGTH then INVALID_LENGTH else INVALID_OFFSET, handle);
      }
    }

    /** From the first element to the next, until one fails or there is none left. */
    method ReplayQueue(client: Owner, s: Security) returns (outcome: Outcome)
      requires Valid() && client != Nobody
      modifies this`values
      ensures Valid()
      ensures (values, outcome) == if queue.owner == client then Replay(table, old(values), queue.elements, s)
                                   else (old(values), Done)
    {
      outcome := Done;
      var p := queue.First(client);
      if p == End {
        return;
      }
      ghost var k, es, total := 0, queue.elements, Replay(table, values, queue.elements, s);
      assert es[0..] == es;
      while p.At?
        invariant queue.PointsAt(p, k) && Ends(es, k, s, total) && outcome == Done
        decreases |es| - k
      {
        outcome := ReplayAt(p, s, es, k, total);
        if outcome.Failed? {
          assert |total.0| == |values|;
          return;
        }
        p := queue.Next(p.at, k);
        k := k + 1;
      }
    }

    method HandleExecuteWrite(client: Owner, s: Security, pdu: seq<Byte>, output: array<Byte>) returns (size: nat)
      requires Valid() && client != Nobody && pdu != []
      requires output.Length >= 23 && output != queue.buffer
      modifies queue, output, this`values
      ensures Valid()
      ensures size <= output.Length
      ensures (View(), output[..size]) == Execute(table, old(View()), client, s, pdu)
    {
      if |pdu| != 2 || (pdu[1] != 0 && pdu[1] != 1) {
        size := ErrorResponse(pdu[0], INVALID_PDU, 0, output);
        return;
      }
      var outcome := Done;
      if pdu[1] == 1 {
        outcome := ReplayQueue(client, s);
      }
      queue.Free(client);
      if outcome.Failed? {
        size := ErrorResponse(pdu[0], outcome.code, outcome.handle, output);
      } else {
        output[0] := EXECUTE_RESPONSE;
        size := 1;
        assert output[..1] == [EXECUTE_RESPONSE];
      }
    }

    method HandleWriteRequest(s: Security, pdu: seq<Byte>, output: array<Byte>) returns (size: nat)
      requires Valid() && pdu != []
      requires output.Length >= 23 && output != queue.buffer
      modifies output, this`values
      ensures Valid()
      ensures size <= output.Length
      ensures (View(), output[..size]) == Write(table, old(View()), s, pdu)
    {
      if |pdu| < 3 {
        size := ErrorResponse(pdu[0], INVALID_PDU, 0, output);
        return;
      }
      var handle := FromBytes(pdu[1], pdu[2]);
      if handle == 0 || handle !in table.index {
        size := ErrorResponse(pdu[0], INVALID_HANDLE, handle, output);
        return;
      }
      var access := Access(table.index[handle], 0, pdu[3..], s);
      if access.Failure? {
        size := ErrorResponse(pdu[0], access.code, handle, output);
      } else {
        output[0] := WRITE_RESPONSE;
        size := 1;
        assert output[..1] == [WRITE_RESPONSE];
      }
    }

    method ClientDisconnected(client: Owner)
      requires Valid() && client != Nobody
      modifies queue
      ensures Valid() && View() == Freed(old(View()), client)
    {
      queue.Free(client);
    }
  }
}
