/** What prepared writes promise over whole runs, and what they amount to. */
module PreparedWriteTheorems {
  import opened AttPdu
  import opened Bytes
  import opened SharedWriteQueue
  import opened PreparedWrites
  import opened WriteAnswers

  // ---- Runs ----

  ghost predicate AllValid(events: seq<Event>) {
    forall i :: 0 <= i < |events| ==> events[i].Valid()
  }

  /** A step from a state that keeps the invariant. */
  function Stepped(t: Table, queueSize: Word16, st: State, e: Event): (r: State)
    requires Inv(t, queueSize, st) && e.Valid()
    ensures Inv(t, queueSize, r)
  {
    StepKeepsInv(t, queueSize, st, e);
    Step(t, queueSize, st, e).0
  }

  function Run(t: Table, queueSize: Word16, st: State, events: seq<Event>): (r: State)
    requires Inv(t, queueSize, st) && AllValid(events)
    ensures Inv(t, queueSize, r)
    decreases events
  {
    if events == [] then st
    else
      assert events[0].Valid();
      Run(t, queueSize, Stepped(t, queueSize, st, events[0]), events[1..])
  }

  // ---- Exclusive use ----

  /** The events that end a client's use of the queue. */
  predicate Releases(e: Event, client: Owner) {
    e.client == client && (e.Disconnected? || (e.ExecuteWrite? && |e.pdu| == 2 && e.pdu[1] <= 1))
  }

  predicate Accepted(t: Table, queueSize: Word16, st: State, e: Event)
    requires t.Valid() && |st.values| == |t.attributes| && AllPreparable(t, st.elements) && e.Valid()
  {
    e.PrepareWrite? && Step(t, queueSize, st, e).1[0] == PREPARE_RESPONSE
  }

  /** While one client owns the queue, nobody else changes the queue or has a write accepted. */
  lemma OwnerIsExclusive(t: Table, queueSize: Word16, st: State, e: Event)
    requires Inv(t, queueSize, st) && e.Valid() && st.owner != Nobody && e.client != st.owner
    ensures var next := Step(t, queueSize, st, e).0; next.owner == st.owner && next.elements == st.elements
    ensures !Accepted(t, queueSize, st, e)
    ensures !e.WriteRequest? ==> Step(t, queueSize, st, e).0.values == st.values
  {
  }

  /** Every well-formed Execute Write of the owner, and its disconnection, leave the queue empty and without
      an owner, whether or not a value could be written. */
  lemma ReleaseFrees(t: Table, queueSize: Word16, st: State, e: Event)
    requires Inv(t, queueSize, st) && e.Valid() && st.owner != Nobody
    ensures Releases(e, st.owner) <==> Step(t, queueSize, st, e).0.owner == Nobody
    ensures Releases(e, st.owner) ==> Step(t, queueSize, st, e).0.elements == []
  {
  }

  /** The writes of one client that are accepted in the course of a run, in their order. */
  function AcceptedOf(t: Table, queueSize: Word16, st: State, events: seq<Event>, client: Owner): seq<Element>
    requires Inv(t, queueSize, st) && AllValid(events)
    decreases events
  {
    if events == [] then []
    else
      assert events[0].Valid();
      PayloadIfAccepted(t, queueSize, st, events[0], client)
      + AcceptedOf(t, queueSize, Stepped(t, queueSize, st, events[0]), events[1..], client)
  }

  function PayloadIfAccepted(t: Table, queueSize: Word16, st: State, e: Event, client: Owner): seq<Element>
    requires Inv(t, queueSize, st) && e.Valid()
  {
    if e.client == client && Accepted(t, queueSize, st, e) then
      AcceptedFits(t, queueSize, st, e);
      [e.pdu[1..]]
    else []
  }

  lemma AcceptedFits(t: Table, queueSize: Word16, st: State, e: Event)
    requires Inv(t, queueSize, st) && e.Valid() && Accepted(t, queueSize, st, e)
    ensures 4 <= |e.pdu[1..]| < 0x10000
  {
  }

  lemma OwnerStep(t: Table, queueSize: Word16, st: State, e: Event, client: Owner)
    requires Inv(t, queueSize, st) && e.Valid() && client != Nobody && !Releases(e, client)
    requires st.owner == client
    ensures Stepped(t, queueSize, st, e).owner == client
    ensures Stepped(t, queueSize, st, e).elements == st.elements + PayloadIfAccepted(t, queueSize, st, e, client)
  {
  }

  predicate NeverReleases(events: seq<Event>, client: Owner) {
    forall i :: 0 <= i < |events| ==> !Releases(events[i], client)
  }

  /** Over every run in which the owner neither executes nor disconnects, whatever the others try: the queue
      holds what it held and then exactly the owner's accepted writes, in their order. */
  lemma {:induction false} QueueHoldsAcceptedWrites(t: Table, queueSize: Word16, st: State, events: seq<Event>, client: Owner)
    requires Inv(t, queueSize, st) && AllValid(events) && client != Nobody && st.owner == client
    requires NeverReleases(events, client)
    ensures Run(t, queueSize, st, events).owner == client
    ensures Run(t, queueSize, st, events).elements == st.elements + AcceptedOf(t, queueSize, st, events, client)
    decreases events
  {
    if events == [] {
    } else {
      var next := FirstStep(t, queueSize, st, events, client);
      QueueHoldsAcceptedWrites(t, queueSize, next, events[1..], client);
      AppendAssociates(st.elements, PayloadIfAccepted(t, queueSize, st, events[0], client),
                       AcceptedOf(t, queueSize, next, events[1..], client));
    }
  }

  lemma AppendAssociates(a: seq<Element>, b: seq<Element>, c: seq<Element>)
    ensures (a + b) + c == a + (b + c)
  {
  }

  lemma FirstStep(t: Table, queueSize: Word16, st: State, events: seq<Event>, client: Owner) returns (next: State)
    requires Inv(t, queueSize, st) && AllValid(events) && client != Nobody && st.owner == client
    requires NeverReleases(events, client) && events != []
    ensures events[0].Valid() && AllValid(events[1..]) && NeverReleases(events[1..], client)
    ensures next == Stepped(t, queueSize, st, events[0]) && next.owner == client
    ensures next.elements == st.elements + PayloadIfAccepted(t, queueSize, st, events[0], client)
  {
    assert events[0].Valid() && !Releases(events[0], client);
    next := Stepped(t, queueSize, st, events[0]);
    OwnerStep(t, queueSize, st, events[0], client);
  }

  /** A whole procedure: the first accepted write takes the queue, more follow, with anything in between from
      anybody else, and Execute Write ends it. Flag 1 writes exactly the accepted writes, in their order and up
      to the first that fails, and its response says which one that is; flag 0 changes no value; either way the queue is
      free again. */
  lemma ProcedureEffect(t: Table, queueSize: Word16, st: State, first: Event, events: seq<Event>, end: Event)
    requires Inv(t, queueSize, st) && st.owner == Nobody
    requires first.Valid() && Accepted(t, queueSize, st, first)
    requires AllValid(events) && NeverReleases(events, first.client)
    requires end.Valid() && end.ExecuteWrite? && end.client == first.client && |end.pdu| == 2 && end.pdu[1] <= 1
    ensures var begun := Stepped(t, queueSize, st, first);
            var last := Run(t, queueSize, begun, events);
            var (result, response) := Step(t, queueSize, last, end);
            && 4 <= |first.pdu[1..]| < 0x10000
            && last.elements == [first.pdu[1..]] + AcceptedOf(t, queueSize, begun, events, first.client)
            && result.owner == Nobody && result.elements == []
            && if end.pdu[1] == 0 then result.values == last.values && response == [0x19]
               else AnsweredAsWritten(t, last.values, last.elements, end.security, end.pdu[0], result.values, response)
  {
    var last := Run(t, queueSize, Stepped(t, queueSize, st, first), events);
    PrepareAppends(t, queueSize, st, first.client, first.pdu, first.outSize);
    QueueHoldsAcceptedWrites(t, queueSize, Stepped(t, queueSize, st, first), events, first.client);
    ExecuteAnswers(t, last, end.client, end.security, end.pdu);
  }

  // ---- Consecutive fragments ----

  /** Fragments of one value, each starting where the last one ended. */
  predicate Consecutive(es: seq<Element>, handle: Word16, from: nat)
    decreases es
  {
    if es == [] then true
    else |es[0]| >= 4 && HandleOf(es[0]) == handle && OffsetOf(es[0]) == from
         && Consecutive(es[1..], handle, from + |es[0]| - 4)
  }

  function Data(es: seq<Element>): seq<Byte> {
    if es == [] then [] else (if |es[0]| >= 4 then es[0][4..] else []) + Data(es[1..])
  }

  /** How many fragments fit into `room` bytes before the first one that does not. */
  function Fitting(es: seq<Element>, room: nat): (n: nat)
    ensures n <= |es|
    decreases es
  {
    if es == [] then 0
    else if |es[0]| >= 4 && |es[0]| - 4 <= room then 1 + Fitting(es[1..], room - (|es[0]| - 4))
    else 0
  }

  lemma {:induction false} FittingFits(es: seq<Element>, room: nat)
    ensures |Data(es[..Fitting(es, room)])| <= room
    ensures (forall i :: 0 <= i < |es| ==> |es[i]| >= 4) ==> (Fitting(es, room) == |es| <==> |Data(es)| <= room)
    decreases es
  {
    if es != [] && |es[0]| >= 4 {
      if |es[0]| - 4 <= room {
        var n := Fitting(es[1..], room - (|es[0]| - 4));
        FittingFits(es[1..], room - (|es[0]| - 4));
        assert es[..n + 1][1..] == es[1..][..n];
      }
    }
  }

  lemma SpliceTwice(v: seq<Byte>, from: nat, a: seq<Byte>, b: seq<Byte>)
    requires from + |a| + |b| <= |v|
    ensures Spliced(Spliced(v, from, a), from + |a|, b) == Spliced(v, from, a + b)
  {
  }

  lemma SpliceNothing(v: seq<Byte>, from: nat)
    requires from <= |v|
    ensures Spliced(v, from, []) == v
  {
  }

  /** Replaying consecutive fragments writes their concatenation, up to the first fragment that does not fit;
      that one ends the replay with an invalid length. */
  lemma {:induction false} ReplayConsecutive(t: Table, values: Values, es: seq<Element>, s: Security, handle: Word16, from: nat)
    requires t.Valid() && |values| == |t.attributes| && AllPreparable(t, es)
    requires handle in t.index && t.attributes[t.index[handle]] == Attribute(true, false)
    requires Consecutive(es, handle, from) && from <= |values[t.index[handle]]|
    ensures var i := t.index[handle];
            var n := Fitting(es, |values[i]| - from);
            && |Data(es[..n])| <= |values[i]| - from
            && Replay(t, values, es, s) == (values[i := Spliced(values[i], from, Data(es[..n]))],
                                            if n == |es| then Done else Failed(INVALID_LENGTH, handle))
    decreases es
  {
    var i := t.index[handle];
    var room := |values[i]| - from;
    FittingFits(es, room);
    if es == [] || |es[0]| - 4 > room {
      assert Data(es[..0]) == [];
      SpliceNothing(values[i], from);
      assert values[i := values[i]] == values;
    } else {
      ReplayNext(t, values, es, s, handle, from);
    }
  }

  lemma ReplayFirst(t: Table, values: Values, es: seq<Element>, s: Security, i: nat)
    requires t.Valid() && |values| == |t.attributes| && AllPreparable(t, es) && es != []
    requires |es[0]| >= 4 && HandleOf(es[0]) in t.index && i == t.index[HandleOf(es[0])]
    requires t.attributes[i] == Attribute(true, false) && OffsetOf(es[0]) + |es[0]| - 4 <= |values[i]|
    ensures Replay(t, values, es, s)
            == Replay(t, values[i := Spliced(values[i], OffsetOf(es[0]), es[0][4..])], es[1..], s)
  {
  }

  lemma ReplayNext(t: Table, values: Values, es: seq<Element>, s: Security, handle: Word16, from: nat)
    requires t.Valid() && |values| == |t.attributes| && AllPreparable(t, es)
    requires handle in t.index && t.attributes[t.index[handle]] == Attribute(true, false)
    requires Consecutive(es, handle, from) && from <= |values[t.index[handle]]|
    requires es != [] && |es[0]| - 4 <= |values[t.index[handle]]| - from
    ensures var i := t.index[handle];
            var n := Fitting(es, |values[i]| - from);
            && |Data(es[..n])| <= |values[i]| - from
            && Replay(t, values, es, s) == (values[i := Spliced(values[i], from, Data(es[..n]))],
                                            if n == |es| then Done else Failed(INVALID_LENGTH, handle))
    decreases es, 0
  {
    var i := t.index[handle];
    var d := es[0][4..];
    var written := values[i := Spliced(values[i], from, d)];
    ReplayFirst(t, values, es, s, i);
    ReplayConsecutive(t, written, es[1..], s, handle, from + |d|);
    var n := Fitting(es[1..], |values[i]| - from - |d|);
    var rest := Data(es[1..][..n]);
    assert |rest| <= |values[i]| - from - |d| by {
      FittingFits(es[1..], |values[i]| - from - |d|);
    }
    assert Data(es[..n + 1]) == d + rest by {
      assert es[..n + 1][1..] == es[1..][..n];
    }
    SpliceTwice(values[i], from, d, rest);
    assert written[i := Spliced(written[i], from + |d|, rest)] == values[i := Spliced(values[i], from, d + rest)];
  }

  // ---- The documented queue size ----

  /** One client prepares the fragments one after the other. */
  function PrepareEvents(client: Owner, es: seq<Element>): (r: seq<Event>)
    ensures |r| == |es| && (client != Nobody ==> AllValid(r))
    decreases es
  {
    if es == [] then [] else [PrepareWrite(client, [0x16] + es[0], 23)] + PrepareEvents(client, es[1..])
  }

  /** Fragments of attributes that can be written without encryption. */
  ghost predicate Plain(t: Table, es: seq<Element>)
    requires t.Valid()
  {
    forall i :: 0 <= i < |es| ==>
      Preparable(t, es[i]) && t.attributes[t.index[HandleOf(es[i])]] == Attribute(true, false)
  }

  lemma {:induction false} EncodedSize(es: seq<Element>)
    requires forall i :: 0 <= i < |es| ==> |es[i]| >= 4
    ensures |Encode(es)| == 6 * |es| + |Data(es)|
  {
    if es == [] {
    } else {
      EncodedSize(es[1..]);
    }
  }

  /** One fragment is accepted exactly if it fits. */
  lemma PreparePlain(t: Table, queueSize: Word16, st: State, client: Owner, e: Element)
    requires Inv(t, queueSize, st) && client != Nobody && st.owner in {Nobody, client} && Plain(t, [e])
    ensures var event := PrepareWrite(client, [0x16] + e, 23);
            if |Encode(st.elements)| + |EncodeElement(e)| <= queueSize
            then PayloadIfAccepted(t, queueSize, st, event, client) == [e]
                 && Stepped(t, queueSize, st, event).owner == client
                 && |Encode(Stepped(t, queueSize, st, event).elements)| == |Encode(st.elements)| + |EncodeElement(e)|
            else PayloadIfAccepted(t, queueSize, st, event, client) == [] && Stepped(t, queueSize, st, event) == st
  {
    assert Preparable(t, [e][0]);
    assert ([0x16] + e)[1..] == e;
    PrepareAppends(t, queueSize, st, client, [0x16] + e, 23);
  }

  lemma {:induction false} AcceptedAtMost(t: Table, queueSize: Word16, st: State, events: seq<Event>, client: Owner)
    requires Inv(t, queueSize, st) && AllValid(events)
    ensures |AcceptedOf(t, queueSize, st, events, client)| <= |events|
    decreases events
  {
    if events == [] {
    } else {
      assert events[0].Valid();
      AcceptedAtMost(t, queueSize, Stepped(t, queueSize, st, events[0]), events[1..], client);
    }
  }

  /** All fragments are accepted exactly if their stored form fits into the free part of the queue. */
  lemma {:induction false} AllAcceptedIff(t: Table, queueSize: Word16, st: State, client: Owner, es: seq<Element>)
    requires Inv(t, queueSize, st) && client != Nobody && st.owner in {Nobody, client} && Plain(t, es)
    ensures AcceptedOf(t, queueSize, st, PrepareEvents(client, es), client) == es
            <==> |Encode(st.elements)| + |Encode(es)| <= queueSize
    decreases es
  {
    if es != [] {
      var event := PrepareWrite(client, [0x16] + es[0], 23);
      var events := PrepareEvents(client, es);
      var rest := PrepareEvents(client, es[1..]);
      var next := Stepped(t, queueSize, st, event);
      assert events[0] == event && events[1..] == rest;
      assert Plain(t, [es[0]]) by {
        assert Preparable(t, es[0]);
      }
      PreparePlain(t, queueSize, st, client, es[0]);
      AllAcceptedStep(t, queueSize, st, client, es, next, PayloadIfAccepted(t, queueSize, st, event, client));
    }
  }

  lemma AllAcceptedStep(t: Table, queueSize: Word16, st: State, client: Owner, es: seq<Element>, next: State, payload: seq<Element>)
    requires Inv(t, queueSize, next) && client != Nobody && next.owner in {Nobody, client} && Plain(t, es) && es != []
    requires |Encode(st.elements)| + |EncodeElement(es[0])| <= queueSize ==>
               payload == [es[0]] && |Encode(next.elements)| == |Encode(st.elements)| + |EncodeElement(es[0])|
    requires |Encode(st.elements)| + |EncodeElement(es[0])| > queueSize ==> payload == []
    ensures payload + AcceptedOf(t, queueSize, next, PrepareEvents(client, es[1..]), client) == es
            <==> |Encode(st.elements)| + |Encode(es)| <= queueSize
    decreases es, 0
  {
    var rest := AcceptedOf(t, queueSize, next, PrepareEvents(client, es[1..]), client);
    if payload == [] {
      AcceptedAtMost(t, queueSize, next, PrepareEvents(client, es[1..]), client);
    } else {
      AllAcceptedIff(t, queueSize, next, client, es[1..]);
      assert es == [es[0]] + es[1..];
      assert ([es[0]] + rest)[1..] == rest;
    }
  }

  /** The size the documentation asks for to write a value of `n` bytes. */
  function DocumentedSize(n: nat): nat {
    (n + 17) / 18 * 7 + n
  }

  /** A queue of the documented size takes every fragmentation of `n` bytes into at most one fragment for every
      18 bytes begun. */
  lemma DocumentedSizeSuffices(t: Table, queueSize: Word16, st: State, client: Owner, es: seq<Element>, n: nat)
    requires Inv(t, queueSize, st) && client != Nobody && st.owner == Nobody && Plain(t, es)
    requires |Data(es)| == n >= 1 && |es| <= (n + 17) / 18 && DocumentedSize(n) <= queueSize
    ensures AcceptedOf(t, queueSize, st, PrepareEvents(client, es), client) == es
  {
    EncodedSize(es);
    AllAcceptedIff(t, queueSize, st, client, es);
  }

  lemma {:induction false} PreparesDoNotRelease(client: Owner, es: seq<Element>)
    ensures forall i :: 0 <= i < |es| ==> PrepareEvents(client, es)[i].PrepareWrite?
    decreases es
  {
    if es == [] {
    } else {
      PreparesDoNotRelease(client, es[1..]);
      assert forall i :: 1 <= i < |es| ==> PrepareEvents(client, es)[i] == PrepareEvents(client, es[1..])[i - 1];
    }
  }

  /** From an idle queue: the queue then holds exactly the prepared fragments. */
  lemma PreparedFromIdle(t: Table, queueSize: Word16, st: State, client: Owner, es: seq<Element>)
    requires Inv(t, queueSize, st) && client != Nobody && st.owner == Nobody && Plain(t, es) && es != []
    requires |Encode(es)| <= queueSize
    ensures var last := Run(t, queueSize, st, PrepareEvents(client, es));
            last.owner == client && last.elements == es && last.values == st.values
  {
    AllAcceptedIff(t, queueSize, st, client, es);
    var events := PrepareEvents(client, es);
    assert events[0] == PrepareWrite(client, [0x16] + es[0], 23) && events[1..] == PrepareEvents(client, es[1..]);
    assert Plain(t, [es[0]]) by {
      assert Preparable(t, es[0]);
    }
    PreparePlain(t, queueSize, st, client, es[0]);
    PreparesDoNotRelease(client, es[1..]);
    PrepareAppends(t, queueSize, st, client, events[0].pdu, 23);
    QueueHoldsAcceptedWrites(t, queueSize, Stepped(t, queueSize, st, events[0]), events[1..], client);
    PreparesKeepValues(t, queueSize, st, client, es);
  }

  lemma {:induction false} PreparesKeepValues(t: Table, queueSize: Word16, st: State, client: Owner, es: seq<Element>)
    requires Inv(t, queueSize, st) && client != Nobody
    ensures Run(t, queueSize, st, PrepareEvents(client, es)).values == st.values
    decreases es
  {
    if es == [] {
    } else {
      var events := PrepareEvents(client, es);
      assert events[0].Valid() && events[1..] == PrepareEvents(client, es[1..]);
      PreparesKeepValues(t, queueSize, Stepped(t, queueSize, st, events[0]), client, es[1..]);
    }
  }

  /** Replaying consecutive fragments that cover a value is one direct write of all their bytes. */
  lemma ReplayCovers(t: Table, values: Values, es: seq<Element>, s: Security, handle: Word16)
    requires t.Valid() && |values| == |t.attributes| && AllPreparable(t, es)
    requires handle in t.index && t.attributes[t.index[handle]] == Attribute(true, false)
    requires Consecutive(es, handle, 0) && |Data(es)| == |values[t.index[handle]]|
    ensures Replay(t, values, es, s) == (Written(t, values, t.index[handle], 0, Data(es), s), Done)
    ensures Written(t, values, t.index[handle], 0, Data(es), s)[t.index[handle]] == Data(es)
  {
    var i := t.index[handle];
    FittingFits(es, |values[i]|);
    assert es[..|es|] == es;
    ReplayConsecutive(t, values, es, s, handle, 0);
    assert Spliced(values[i], 0, Data(es)) == Data(es);
  }

  /** Executing consecutive fragments that start at 0: success is answered exactly if all their bytes fit the value;
      otherwise an invalid length for its handle, and the fragments in front of the first one that does not fit are
      written. */
  lemma FragmentsAnswer(t: Table, queueSize: Word16, st: State, client: Owner, es: seq<Element>, handle: Word16, s: Security)
    requires Inv(t, queueSize, st) && client != Nobody && st.owner == Nobody && Plain(t, es) && es != []
    requires |Encode(es)| <= queueSize
    requires handle in t.index && t.attributes[t.index[handle]] == Attribute(true, false) && Consecutive(es, handle, 0)
    ensures var last := Run(t, queueSize, st, PrepareEvents(client, es));
            var (end, response) := Step(t, queueSize, last, ExecuteWrite(client, s, [0x18, 1]));
            var value := st.values[t.index[handle]];
            var data := Data(es[..Fitting(es, |value|)]);
            && end.owner == Nobody && end.elements == [] && |data| <= |value|
            && end.values == st.values[t.index[handle] := data + value[|data|..]]
            && if |Data(es)| <= |value| then response == [0x19] && data == Data(es)
               else IsError(response, 0x18, handle, 0x0d)
  {
    assert AllPreparable(t, es);
    PreparedFromIdle(t, queueSize, st, client, es);
    ReplayFragments(t, st.values, es, s, handle);
  }

  lemma ReplayFragments(t: Table, values: Values, es: seq<Element>, s: Security, handle: Word16)
    requires t.Valid() && |values| == |t.attributes| && AllPreparable(t, es)
    requires handle in t.index && t.attributes[t.index[handle]] == Attribute(true, false) && Consecutive(es, handle, 0)
    ensures var value := values[t.index[handle]];
            var data := Data(es[..Fitting(es, |value|)]);
            && |data| <= |value|
            && (|Data(es)| <= |value| ==> data == Data(es))
            && Replay(t, values, es, s) == (values[t.index[handle] := data + value[|data|..]],
                                            if |Data(es)| <= |value| then Done else Failed(INVALID_LENGTH, handle))
  {
    var value := values[t.index[handle]];
    var n := Fitting(es, |value|);
    ReplayConsecutive(t, values, es, s, handle, 0);
    FittingFits(es, |value|);
    AllLongEnough(t, es);
    assert n == |es| ==> es[..n] == es;
    assert Spliced(value, 0, Data(es[..n])) == Data(es[..n]) + value[|Data(es[..n])|..];
  }

  lemma AllLongEnough(t: Table, es: seq<Element>)
    requires AllPreparable(t, es)
    ensures forall i :: 0 <= i < |es| ==> |es[i]| >= 4
  {
    forall i | 0 <= i < |es| ensures |es[i]| >= 4 {
      assert Preparable(t, es[i]);
    }
  }

  /** Writing a long value: with a queue of the documented size, consecutive fragments that cover the value are
      all accepted, and executing them leaves the value that one direct write of all bytes would have left. */
  lemma LongWriteIsDirectWrite(t: Table, queueSize: Word16, st: State, client: Owner, es: seq<Element>,
                               handle: Word16, s: Security)
    requires Inv(t, queueSize, st) && client != Nobody && st.owner == Nobody && Plain(t, es) && es != []
    requires handle in t.index && Consecutive(es, handle, 0)
    requires t.attributes[t.index[handle]] == Attribute(true, false)
    requires var n := |Data(es)|;
             n == |st.values[t.index[handle]]| >= 1 && |es| <= (n + 17) / 18 && DocumentedSize(n) <= queueSize
    ensures var last := Run(t, queueSize, st, PrepareEvents(client, es));
            var (end, response) := Step(t, queueSize, last, ExecuteWrite(client, s, [0x18, 1]));
            && response == [0x19]
            && end.owner == Nobody && end.elements == []
            && end.values == Written(t, st.values, t.index[handle], 0, Data(es), s)
            && end.values[t.index[handle]] == Data(es)
  {
    assert AllPreparable(t, es);
    EncodedSize(es);
    PreparedFromIdle(t, queueSize, st, client, es);
    ReplayCovers(t, st.values, es, s, handle);
  }
}
