/** What a client is answered when it writes, byte for byte, and what its writes leave in the values. */
module WriteAnswers {
  import opened AttPdu
  import opened Bytes
  import opened SharedWriteQueue
  import opened PreparedWrites

  /** An attribute that the link may not access, and the error that it is answered: authentication is asked for without
      a key, encryption with one. */
  predicate Locked(a: Attribute, s: Security) {
    a.requiresEncryption && !s.encrypted
  }

  // ---- Write Request ----

  /** A write that changes a value. */
  predicate WritesValue(t: Table, values: Values, s: Security, pdu: seq<Byte>)
    requires t.Valid() && |values| == |t.attributes|
  {
    && |pdu| >= 3
    && var handle := FromBytes(pdu[1], pdu[2]);
    && handle != 0 && handle in t.index
    && var a := t.attributes[t.index[handle]];
    && !Locked(a, s) && a.writable && |pdu| - 3 <= |values[t.index[handle]]|
  }

  lemma WriteReplaces(t: Table, st: State, s: Security, pdu: seq<Byte>)
    requires t.Valid() && |st.values| == |t.attributes| && WritesValue(t, st.values, s, pdu)
    ensures var (next, response) := Write(t, st, s, pdu);
            var i := t.index[FromBytes(pdu[1], pdu[2])];
            response == [0x13] && next == st.(values := st.values[i := pdu[3..] + st.values[i][|pdu| - 3..]])
  {
    var i := t.index[FromBytes(pdu[1], pdu[2])];
    assert Spliced(st.values[i], 0, pdu[3..]) == pdu[3..] + st.values[i][|pdu| - 3..];
  }

  /** The error of a request that cannot be carried out. */
  function WriteError(t: Table, s: Security, pdu: seq<Byte>): Byte
    requires t.Valid()
  {
    if |pdu| < 3 then 0x04
    else
      var handle := FromBytes(pdu[1], pdu[2]);
      if handle == 0 || handle !in t.index then 0x01
      else
        var a := t.attributes[t.index[handle]];
        if Locked(a, s) then (if s.hasKey then 0x0f else 0x05) else if !a.writable then 0x03 else 0x0d
  }

  lemma RefusedWriteKeeps(t: Table, st: State, s: Security, pdu: seq<Byte>)
    requires t.Valid() && |st.values| == |t.attributes| && pdu != [] && !WritesValue(t, st.values, s, pdu)
    ensures Write(t, st, s, pdu)
            == (st, Error(pdu[0], WriteError(t, s, pdu), if |pdu| < 3 then 0 else FromBytes(pdu[1], pdu[2])))
  {
  }

  /** A Write Request replaces the first bytes of the value, and nothing else; or it changes nothing and is answered with
      the error of the first condition that fails. */
  lemma WriteRequestAnswers(t: Table, st: State, s: Security, pdu: seq<Byte>)
    requires t.Valid() && |st.values| == |t.attributes| && pdu != []
    ensures var (next, response) := Write(t, st, s, pdu);
            if WritesValue(t, st.values, s, pdu) then
              var i := t.index[FromBytes(pdu[1], pdu[2])];
              response == [0x13] && next == st.(values := st.values[i := pdu[3..] + st.values[i][|pdu| - 3..]])
            else
              && next == st
              && IsError(response, pdu[0], if |pdu| < 3 then 0 else FromBytes(pdu[1], pdu[2]), WriteError(t, s, pdu))
  {
    if WritesValue(t, st.values, s, pdu) {
      WriteReplaces(t, st, s, pdu);
    } else {
      RefusedWriteKeeps(t, st, s, pdu);
      ErrorIs(pdu[0], WriteError(t, s, pdu), if |pdu| < 3 then 0 else FromBytes(pdu[1], pdu[2]));
    }
  }

  // ---- Prepare Write ----

  /** The error of a prepared write, or 0. An attribute that requires encryption always asks for authentication. */
  function PrepareError(t: Table, queueSize: Word16, st: State, client: Owner, pdu: seq<Byte>): Byte
    requires t.Valid()
  {
    if |pdu| < 5 then 0x04
    else
      var handle := FromBytes(pdu[1], pdu[2]);
      if handle == 0 || handle !in t.index then 0x01
      else
        var a := t.attributes[t.index[handle]];
        if a.requiresEncryption then 0x05
        else if !a.writable then 0x03
        else if |Encode(st.elements)| + 2 + |pdu| - 1 > queueSize || (st.owner != Nobody && st.owner != client) then 0x09
        else 0
  }

  lemma PrepareUnfolds(t: Table, queueSize: Word16, st: State, client: Owner, pdu: seq<Byte>, outSize: nat)
    requires t.Valid() && |st.values| == |t.attributes| && pdu != [] && outSize >= 23
    ensures var error := PrepareError(t, queueSize, st, client, pdu);
            Prepare(t, queueSize, st, client, pdu, outSize).1 ==
            if error != 0 then Error(pdu[0], error, if |pdu| < 5 then 0 else FromBytes(pdu[1], pdu[2]))
            else [PREPARE_RESPONSE] + pdu[1..if outSize < |pdu| then outSize else |pdu|]
  {
  }

  /** A prepared write is accepted with its own bytes, as far as there is room for them, or refused with the error of the
      first condition that fails. */
  lemma PrepareAnswers(t: Table, queueSize: Word16, st: State, client: Owner, pdu: seq<Byte>, outSize: nat)
    requires t.Valid() && |st.values| == |t.attributes| && pdu != [] && outSize >= 23
    ensures var response, error := Prepare(t, queueSize, st, client, pdu, outSize).1, PrepareError(t, queueSize, st, client, pdu);
            if error != 0 then IsError(response, pdu[0], if |pdu| < 5 then 0 else FromBytes(pdu[1], pdu[2]), error)
            else
              && response != [] && response[0] == 0x17
              && |response| == (if outSize < |pdu| then outSize else |pdu|) && response[1..] == pdu[1..|response|]
  {
    var error := PrepareError(t, queueSize, st, client, pdu);
    PrepareUnfolds(t, queueSize, st, client, pdu, outSize);
    ErrorIs(pdu[0], error, if |pdu| < 5 then 0 else FromBytes(pdu[1], pdu[2]));
  }

  // ---- Execute Write ----

  /** An element that can be written to its value, whose size no write changes. */
  predicate CanWrite(t: Table, values: Values, e: Element, s: Security)
    requires t.Valid() && |values| == |t.attributes| && Preparable(t, e)
  {
    var i := t.index[FromBytes(e[0], e[1])];
    !Locked(t.attributes[i], s) && t.attributes[i].writable && FromBytes(e[2], e[3]) + |e| - 4 <= |values[i]|
  }

  /** The error of an element that cannot: an invalid length only if nothing else is wrong with it. */
  function FailureCode(t: Table, values: Values, e: Element, s: Security): Byte
    requires t.Valid() && |values| == |t.attributes| && Preparable(t, e)
  {
    var i := t.index[FromBytes(e[0], e[1])];
    if !Locked(t.attributes[i], s) && t.attributes[i].writable && FromBytes(e[2], e[3]) <= |values[i]| then 0x0d else 0x07
  }

  ghost predicate AllWritable(t: Table, values: Values, es: seq<Element>, s: Security)
    requires t.Valid() && |values| == |t.attributes| && AllPreparable(t, es)
  {
    forall n :: 0 <= n < |es| ==> CanWriteAt(t, values, es, n, s)
  }

  ghost predicate CanWriteAt(t: Table, values: Values, es: seq<Element>, n: nat, s: Security)
    requires t.Valid() && |values| == |t.attributes| && AllPreparable(t, es) && n < |es|
  {
    assert Preparable(t, es[n]);
    CanWrite(t, values, es[n], s)
  }

  /** The first element that cannot be written. */
  ghost predicate FailsFirst(t: Table, values: Values, es: seq<Element>, n: nat, s: Security)
    requires t.Valid() && |values| == |t.attributes| && AllPreparable(t, es)
  {
    n < |es| && !CanWriteAt(t, values, es, n, s) && forall m :: 0 <= m < n ==> CanWriteAt(t, values, es, m, s)
  }

  /** Whether an element covers a byte of a value. */
  predicate WritesByte(t: Table, e: Element, i: nat, x: nat)
    requires Preparable(t, e)
  {
    t.index[FromBytes(e[0], e[1])] == i && FromBytes(e[2], e[3]) <= x < FromBytes(e[2], e[3]) + |e| - 4
  }

  /** The byte that a list of elements leaves: that of the last one that covers it. */
  function LastByte(t: Table, es: seq<Element>, i: nat, x: nat, before: Byte): Byte
    requires AllPreparable(t, es)
    decreases es
  {
    if es == [] then before
    else
      var e := es[|es| - 1];
      assert Preparable(t, e);
      if WritesByte(t, e, i, x) then e[4 + x - FromBytes(e[2], e[3])] else LastByte(t, es[..|es| - 1], i, x, before)
  }

  lemma {:induction false} LastByteFromFirst(t: Table, e: Element, es: seq<Element>, i: nat, x: nat, before: Byte)
    requires Preparable(t, e) && AllPreparable(t, es)
    ensures AllPreparable(t, [e] + es)
    ensures LastByte(t, [e] + es, i, x, before)
            == LastByte(t, es, i, x, if WritesByte(t, e, i, x) then e[4 + x - FromBytes(e[2], e[3])] else before)
    decreases es
  {
    var all := [e] + es;
    if es == [] {
      assert all[..0] == [];
    } else {
      LastByteFromFirst(t, e, es[..|es| - 1], i, x, before);
      assert all[..|all| - 1] == [e] + es[..|es| - 1] && all[|all| - 1] == es[|es| - 1];
    }
  }

  /** The values with the bytes of some elements, and nothing else changed. */
  ghost predicate AsWritten(t: Table, values: Values, es: seq<Element>, after: Values)
    requires AllPreparable(t, es)
  {
    && |after| == |values|
    && forall i :: 0 <= i < |values| ==> ValueAsWritten(t, values, es, after, i)
  }

  ghost predicate ValueAsWritten(t: Table, values: Values, es: seq<Element>, after: Values, i: nat)
    requires AllPreparable(t, es) && |after| == |values| && i < |values|
  {
    && |after[i]| == |values[i]|
    && forall x :: 0 <= x < |values[i]| ==> after[i][x] == LastByte(t, es, i, x, values[i][x])
  }

  lemma ReplayWritesFirst(t: Table, values: Values, es: seq<Element>, s: Security) returns (next: Values)
    requires t.Valid() && |values| == |t.attributes| && AllPreparable(t, es) && es != [] && CanWriteAt(t, values, es, 0, s)
    ensures AllPreparable(t, es[1..]) && |next| == |values| && forall i :: 0 <= i < |values| ==> |next[i]| == |values[i]|
    ensures Replay(t, values, es, s) == Replay(t, next, es[1..], s)
    ensures Preparable(t, es[0])
    ensures forall i, x :: 0 <= i < |values| && 0 <= x < |values[i]| ==>
              next[i][x] == if WritesByte(t, es[0], i, x) then es[0][4 + x - FromBytes(es[0][2], es[0][3])] else values[i][x]
  {
    var e := es[0];
    assert Preparable(t, e);
    next := Written(t, values, t.index[HandleOf(e)], OffsetOf(e), e[4..], s);
  }

  lemma SameSizesCanWrite(t: Table, values: Values, next: Values, es: seq<Element>, n: nat, s: Security)
    requires t.Valid() && |values| == |t.attributes| == |next| && AllPreparable(t, es) && 0 < n < |es|
    requires forall i :: 0 <= i < |values| ==> |next[i]| == |values[i]|
    ensures AllPreparable(t, es[1..])
    ensures CanWriteAt(t, next, es[1..], n - 1, s) <==> CanWriteAt(t, values, es, n, s)
  {
  }

  lemma WrittenFromFirst(t: Table, values: Values, next: Values, es: seq<Element>, after: Values)
    requires es != [] && AllPreparable(t, es) && AllPreparable(t, es[1..]) && Preparable(t, es[0])
    requires |next| == |values| && forall i :: 0 <= i < |values| ==> |next[i]| == |values[i]|
    requires forall i, x :: 0 <= i < |values| && 0 <= x < |values[i]| ==>
               next[i][x] == if WritesByte(t, es[0], i, x) then es[0][4 + x - FromBytes(es[0][2], es[0][3])] else values[i][x]
    requires AsWritten(t, next, es[1..], after)
    ensures AsWritten(t, values, es, after)
  {
    forall i | 0 <= i < |values|
      ensures ValueAsWritten(t, values, es, after, i)
    {
      assert ValueAsWritten(t, next, es[1..], after, i);
      forall x | 0 <= x < |values[i]|
        ensures after[i][x] == LastByte(t, es, i, x, values[i][x])
      {
        LastByteFromFirst(t, es[0], es[1..], i, x, values[i][x]);
        assert es == [es[0]] + es[1..];
      }
    }
  }

  /** If all elements can be written, all are, each one over the ones before it. */
  lemma {:induction false} ReplayWritesAll(t: Table, values: Values, es: seq<Element>, s: Security)
    requires t.Valid() && |values| == |t.attributes| && AllPreparable(t, es) && AllWritable(t, values, es, s)
    ensures Replay(t, values, es, s).1 == Done && AsWritten(t, values, es, Replay(t, values, es, s).0)
    decreases es
  {
    if es == [] {
    } else {
      assert CanWriteAt(t, values, es, 0, s);
      var next := ReplayWritesFirst(t, values, es, s);
      forall n | 0 <= n < |es[1..]|
        ensures CanWriteAt(t, next, es[1..], n, s)
      {
        assert CanWriteAt(t, values, es, n + 1, s);
        SameSizesCanWrite(t, values, next, es, n + 1, s);
      }
      ReplayWritesAll(t, next, es[1..], s);
      WrittenFromFirst(t, values, next, es, Replay(t, values, es, s).0);
    }
  }

  lemma FailsAtOnce(t: Table, values: Values, es: seq<Element>, s: Security)
    requires t.Valid() && |values| == |t.attributes| && AllPreparable(t, es) && FailsFirst(t, values, es, 0, s)
    ensures Preparable(t, es[0])
    ensures var e := es[0]; Replay(t, values, es, s) == (values, Failed(FailureCode(t, values, e, s), FromBytes(e[0], e[1])))
  {
    assert Preparable(t, es[0]);
  }

  /** The first element that cannot be written ends the replay; the ones in front of it are written. */
  lemma {:induction false} ReplayFailsAtFirst(t: Table, values: Values, es: seq<Element>, n: nat, s: Security)
    requires t.Valid() && |values| == |t.attributes| && AllPreparable(t, es) && FailsFirst(t, values, es, n, s)
    ensures Preparable(t, es[n]) && AllPreparable(t, es[..n])
    ensures var e := es[n]; Replay(t, values, es, s).1 == Failed(FailureCode(t, values, e, s), FromBytes(e[0], e[1]))
    ensures AsWritten(t, values, es[..n], Replay(t, values, es, s).0)
    decreases es
  {
    assert Preparable(t, es[n]);
    if n == 0 {
      FailsAtOnce(t, values, es, s);
    } else {
      assert CanWriteAt(t, values, es, 0, s);
      var next := ReplayWritesFirst(t, values, es, s);
      forall m | 0 < m <= n
        ensures CanWriteAt(t, next, es[1..], m - 1, s) <==> CanWriteAt(t, values, es, m, s)
      {
        SameSizesCanWrite(t, values, next, es, m, s);
      }
      FailsFirstInRest(t, values, next, es, n, s);
      ReplayFailsAtFirst(t, next, es[1..], n - 1, s);
      assert es[1..][..n - 1] == es[..n][1..] && es[..n][0] == es[0];
      WrittenFromFirst(t, values, next, es[..n], Replay(t, values, es, s).0);
    }
  }

  lemma FailsFirstInRest(t: Table, values: Values, next: Values, es: seq<Element>, n: nat, s: Security)
    requires t.Valid() && |values| == |t.attributes| == |next| && AllPreparable(t, es) && es != [] && AllPreparable(t, es[1..])
    requires 0 < n && FailsFirst(t, values, es, n, s)
    requires forall m :: 0 < m <= n ==> (CanWriteAt(t, next, es[1..], m - 1, s) <==> CanWriteAt(t, values, es, m, s))
    ensures FailsFirst(t, next, es[1..], n - 1, s)
  {
    forall m | 0 <= m < n - 1
      ensures CanWriteAt(t, next, es[1..], m, s)
    {
      assert CanWriteAt(t, values, es, m + 1, s);
    }
  }

  /** Executed elements are answered with success exactly if all of them were written, and otherwise with the handle of the
      first one that could not be, and why; the ones in front of it were written. */
  ghost predicate AnsweredAsWritten(t: Table, values: Values, es: seq<Element>, s: Security, opcode: Byte, after: Values,
                                    response: Response)
    requires t.Valid() && |values| == |t.attributes| && AllPreparable(t, es)
  {
    && (response == [0x19] <==> AllWritable(t, values, es, s))
    && (AllWritable(t, values, es, s) ==> AsWritten(t, values, es, after))
    && (forall n: nat :: FailsFirst(t, values, es, n, s) ==>
          && Preparable(t, es[n]) && AllPreparable(t, es[..n])
          && AsWritten(t, values, es[..n], after)
          && IsError(response, opcode, FromBytes(es[n][0], es[n][1]), FailureCode(t, values, es[n], s)))
  }

  lemma {:induction false} SomeFailsFirst(t: Table, values: Values, es: seq<Element>, s: Security, m: nat) returns (n: nat)
    requires t.Valid() && |values| == |t.attributes| && AllPreparable(t, es) && m < |es| && !CanWriteAt(t, values, es, m, s)
    ensures FailsFirst(t, values, es, n, s)
    decreases m
  {
    n := m;
    if k :| 0 <= k < m && !CanWriteAt(t, values, es, k, s) {
      n := SomeFailsFirst(t, values, es, s, k);
    }
  }

  ghost predicate FailureIsAnswered(t: Table, values: Values, es: seq<Element>, n: nat, s: Security, opcode: Byte)
    requires t.Valid() && |values| == |t.attributes| && AllPreparable(t, es)
  {
    var (after, outcome) := Replay(t, values, es, s);
    && n < |es| && Preparable(t, es[n]) && AllPreparable(t, es[..n]) && AsWritten(t, values, es[..n], after)
    && outcome == Failed(FailureCode(t, values, es[n], s), FromBytes(es[n][0], es[n][1]))
  }

  lemma FailureAnswers(t: Table, values: Values, es: seq<Element>, n: nat, s: Security, opcode: Byte)
    requires t.Valid() && |values| == |t.attributes| && AllPreparable(t, es) && FailsFirst(t, values, es, n, s)
    ensures FailureIsAnswered(t, values, es, n, s, opcode)
  {
    ReplayFailsAtFirst(t, values, es, n, s);
  }

  /** The response to a replay. */
  function ReplayResponse(outcome: Outcome, opcode: Byte): Response {
    if outcome.Failed? then Error(opcode, outcome.code, outcome.handle) else [EXECUTE_RESPONSE]
  }

  lemma ReplayAnswers(t: Table, values: Values, es: seq<Element>, s: Security, opcode: Byte)
    requires t.Valid() && |values| == |t.attributes| && AllPreparable(t, es)
    ensures var (after, outcome) := Replay(t, values, es, s);
            AnsweredAsWritten(t, values, es, s, opcode, after, ReplayResponse(outcome, opcode))
  {
    if AllWritable(t, values, es, s) {
      ReplayWritesAll(t, values, es, s);
    } else {
      var m :| 0 <= m < |es| && !CanWriteAt(t, values, es, m, s);
      var n := SomeFailsFirst(t, values, es, s, m);
      FailureAnswers(t, values, es, n, s, opcode);
    }
    forall n: nat | FailsFirst(t, values, es, n, s)
      ensures FailureIsAnswered(t, values, es, n, s, opcode)
    {
      FailureAnswers(t, values, es, n, s, opcode);
    }
  }

  lemma ExecuteUnfolds(t: Table, st: State, client: Owner, s: Security, pdu: seq<Byte>)
    requires t.Valid() && |st.values| == |t.attributes| && AllPreparable(t, st.elements) && pdu != []
    ensures Execute(t, st, client, s, pdu) ==
            if |pdu| != 2 || pdu[1] > 1 then (st, Error(pdu[0], INVALID_PDU, 0))
            else if st.owner != client then (st, [0x19])
            else if pdu[1] == 0 then (State(Nobody, [], st.values), [0x19])
            else
              var (values, outcome) := Replay(t, st.values, st.elements, s);
              (State(Nobody, [], values), ReplayResponse(outcome, pdu[0]))
  {
  }

  /** Every Execute Write: a malformed one changes nothing; flag 0, and any flag of a client that owns nothing, changes no
      value; flag 1 of the owner writes its elements. The owner's elements are dropped whatever the flag and the outcome. */
  lemma ExecuteAnswers(t: Table, st: State, client: Owner, s: Security, pdu: seq<Byte>)
    requires t.Valid() && |st.values| == |t.attributes| && AllPreparable(t, st.elements) && pdu != []
    ensures var (next, response) := Execute(t, st, client, s, pdu);
            if |pdu| != 2 || pdu[1] > 1 then next == st && IsError(response, pdu[0], 0, 0x04)
            else if st.owner != client then next == st && response == [0x19]
            else
              && next.owner == Nobody && next.elements == []
              && if pdu[1] == 0 then next.values == st.values && response == [0x19]
                 else AnsweredAsWritten(t, st.values, st.elements, s, pdu[0], next.values, response)
  {
    ExecuteUnfolds(t, st, client, s, pdu);
    if |pdu| != 2 || pdu[1] > 1 {
      ErrorIs(pdu[0], INVALID_PDU, 0);
    } else if st.owner == client && pdu[1] == 1 {
      ReplayAnswers(t, st.values, st.elements, s, pdu[0]);
    }
  }
}
