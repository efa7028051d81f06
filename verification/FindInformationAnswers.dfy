/** What a client reads out of the responses to Find Information, and what it discovers with them. */
module FindInformationAnswers {
  import opened AttPdu
  import opened AttributeHandles
  import opened Bytes
  import opened FindInformation
  import opened FindInformationHandler

  /** An attribute as a client gets to know it: its handle, and the bytes of its UUID. */
  datatype Discovered = Discovered(handle: Word16, uuid: seq<Byte>)

  function Request(from: Word16, to: Word16): seq<Byte> {
    [0x04] + ToBytes(from) + ToBytes(to)
  }

  /** A list of tuples of a size: a handle, low byte first, and the rest. */
  function Decoded(bytes: seq<Byte>, size: nat): (r: seq<Discovered>)
    requires size > 2
    decreases |bytes|
  {
    if |bytes| < size then []
    else [Discovered(FromBytes(bytes[0], bytes[1]), bytes[2..size])] + Decoded(bytes[size..], size)
  }

  /** A response lists tuples with UUIDs of 2 bytes in format 1, and of 16 bytes in format 2. */
  function Read(response: Response): seq<Discovered> {
    if |response| < 2 || response[0] != 0x05 then []
    else if response[1] == 1 then Decoded(response[2..], 2 + 2)
    else if response[1] == 2 then Decoded(response[2..], 2 + 16)
    else []
  }

  // ---- One request ----

  function Attribute(t: Table, uuids: seq<Uuid>, i: nat): Discovered
    requires Fits(t, uuids) && i < |uuids|
  {
    Discovered(t.handles[i], match uuids[i] case Uuid16(value) => ToBytes(value) case Uuid128(bytes) => bytes)
  }

  /** The attributes with some indices. */
  function Attributes(t: Table, uuids: seq<Uuid>, indices: seq<nat>): (r: seq<Discovered>)
    requires Fits(t, uuids) && Within(indices, |uuids|)
    ensures |r| == |indices| && forall k :: 0 <= k < |r| ==> r[k] == Attribute(t, uuids, indices[k])
  {
    seq(|indices|, k requires 0 <= k < |indices| => Attribute(t, uuids, indices[k]))
  }

  ghost predicate AllOfSize(t: Table, indices: seq<nat>, short: bool) {
    Within(indices, |t.short|) && forall k :: 0 <= k < |indices| ==> t.short[indices[k]] == short
  }

  function SizeOf(short: bool): nat {
    if short then 4 else 18
  }

  lemma {:induction false} TuplesSize(t: Table, uuids: seq<Uuid>, indices: seq<nat>, short: bool)
    requires Fits(t, uuids) && AllOfSize(t, indices, short)
    ensures |Tuples(t, uuids, indices)| == |indices| * SizeOf(short)
    decreases indices
  {
    if indices == [] {
    } else {
      TuplesSize(t, uuids, indices[1..], short);
    }
  }

  lemma {:induction false} DecodedTuples(t: Table, uuids: seq<Uuid>, indices: seq<nat>, short: bool)
    requires Fits(t, uuids) && AllOfSize(t, indices, short)
    ensures Decoded(Tuples(t, uuids, indices), SizeOf(short)) == Attributes(t, uuids, indices)
    decreases indices
  {
    if indices == [] {
    } else {
      var i := indices[0];
      DecodedTuples(t, uuids, indices[1..], short);
      DecodedTuple(t, uuids, i);
      DecodedFirst(Tuple(t, uuids, i), Tuples(t, uuids, indices[1..]));
      assert Attributes(t, uuids, indices) == [Attribute(t, uuids, i)] + Attributes(t, uuids, indices[1..]);
    }
  }

  lemma DecodedFirst(tuple: seq<Byte>, rest: seq<Byte>)
    requires |tuple| > 2
    ensures Decoded(tuple + rest, |tuple|) == [Discovered(FromBytes(tuple[0], tuple[1]), tuple[2..])] + Decoded(rest, |tuple|)
  {
    assert (tuple + rest)[|tuple|..] == rest && (tuple + rest)[2..|tuple|] == tuple[2..];
  }

  lemma DecodedTuple(t: Table, uuids: seq<Uuid>, i: nat)
    requires Fits(t, uuids) && i < |uuids|
    ensures var tuple := Tuple(t, uuids, i);
            && |tuple| == SizeOf(t.short[i])
            && Discovered(FromBytes(tuple[0], tuple[1]), tuple[2..]) == Attribute(t, uuids, i)
  {
    BytesRoundTrip(t.handles[i]);
  }

  /** What a response to an answer lists: its format, its size, and what the client reads. */
  ghost predicate Lists(t: Table, uuids: seq<Uuid>, response: Response, short: bool, indices: seq<nat>)
    requires Fits(t, uuids)
  {
    && |response| == 2 + |indices| * SizeOf(short)
    && response[0] == 0x05 && response[1] == (if short then 1 else 2)
    && Within(indices, |uuids|) && Read(response) == Attributes(t, uuids, indices)
  }

  lemma ResponseLists(t: Table, uuids: seq<Uuid>, short: bool, indices: seq<nat>)
    requires Fits(t, uuids) && AllOfSize(t, indices, short)
    ensures Lists(t, uuids, Header(short) + Tuples(t, uuids, indices), short, indices)
  {
    var response := Header(short) + Tuples(t, uuids, indices);
    TuplesSize(t, uuids, indices, short);
    DecodedTuples(t, uuids, indices, short);
    assert response[2..] == Tuples(t, uuids, indices);
  }

  lemma RequestFields(from: Word16, to: Word16)
    ensures var pdu := Request(from, to);
            |pdu| == 5 && pdu[0] == 0x04 && FromBytes(pdu[1], pdu[2]) == from && FromBytes(pdu[3], pdu[4]) == to
  {
    BytesRoundTrip(from);
    BytesRoundTrip(to);
  }

  /** The bytes of the response to a well-formed request. */
  ghost predicate AnsweredAs(t: Table, uuids: seq<Uuid>, from: Word16, answer: Answer, response: Response)
    requires Fits(t, uuids)
  {
    match answer
    case NotFound => IsError(response, 0x04, from, 0x0a)
    case Found(short, indices) => Lists(t, uuids, response, short, indices)
  }

  lemma FoundHaveSize(t: Table, from: nat, to: nat, outSize: nat)
    requires |t.short| == |t.handles| && outSize >= HEADER
    ensures var answer := Find(t, from, to, outSize);
            answer.Found? ==> AllOfSize(t, answer.indices, answer.short)
  {
    var answer := Find(t, from, to, outSize);
    if answer.Found? {
      CollectBounds(t, FirstIndex(t, from), EndingIndex(t, to), answer.short, outSize - HEADER);
      forall k | 0 <= k < |answer.indices|
        ensures answer.indices[k] < |t.handles| && t.short[answer.indices[k]] == answer.short
      {
        assert answer.indices[k] in answer.indices;
      }
    }
  }

  lemma BadRangeIsRefused(t: Table, uuids: seq<Uuid>, from: Word16, to: Word16, outSize: nat)
    requires Fits(t, uuids) && outSize >= DEFAULT_MTU && (from == 0 || from > to)
    ensures IsError(Respond(t, uuids, Request(from, to), outSize), 0x04, from, 0x01)
  {
    RequestFields(from, to);
  }

  lemma RangeIsAnswered(t: Table, uuids: seq<Uuid>, from: Word16, to: Word16, outSize: nat)
    requires Fits(t, uuids) && outSize >= DEFAULT_MTU && 1 <= from <= to
    ensures AnsweredAs(t, uuids, from, Find(t, from, to, outSize), Respond(t, uuids, Request(from, to), outSize))
  {
    RequestFields(from, to);
    var answer := Find(t, from, to, outSize);
    FoundHaveSize(t, from, to, outSize);
    if answer.Found? {
      ResponseLists(t, uuids, answer.short, answer.indices);
    }
  }

  /** A request is refused for its handles exactly if they are no range; otherwise its response carries the answer. */
  lemma RequestIsAnswered(t: Table, uuids: seq<Uuid>, from: Word16, to: Word16, outSize: nat)
    requires Fits(t, uuids) && outSize >= DEFAULT_MTU
    ensures var response := Respond(t, uuids, Request(from, to), outSize);
            && (IsError(response, 0x04, from, 0x01) <==> from == 0 || from > to)
            && (1 <= from <= to ==> AnsweredAs(t, uuids, from, Find(t, from, to, outSize), response))
  {
    if 1 <= from <= to {
      RangeIsAnswered(t, uuids, from, to, outSize);
      NoAnswerIsRefusal(t, uuids, from, Find(t, from, to, outSize), Respond(t, uuids, Request(from, to), outSize));
    } else {
      BadRangeIsRefused(t, uuids, from, to, outSize);
    }
  }

  lemma NoAnswerIsRefusal(t: Table, uuids: seq<Uuid>, from: Word16, answer: Answer, response: Response)
    requires Fits(t, uuids) && AnsweredAs(t, uuids, from, answer, response)
    ensures !IsError(response, 0x04, from, 0x01)
  {
  }

  /** A request of another size is malformed. */
  lemma MalformedRequestIsRefused(t: Table, uuids: seq<Uuid>, pdu: seq<Byte>, outSize: nat)
    requires Fits(t, uuids) && outSize >= DEFAULT_MTU && pdu != [] && |pdu| != 5
    ensures IsError(Respond(t, uuids, pdu, outSize), pdu[0], 0, 0x04)
  {
    ErrorIs(pdu[0], INVALID_PDU, 0);
  }

  /** The attributes of a range with a UUID size, as many as fit into a response. */
  function Fitting(t: Table, from: nat, to: nat, short: bool, outSize: nat): seq<nat>
    requires |t.short| == |t.handles| && outSize >= 2
  {
    AtMost(InRange(t, 0, from, to, short), if short then (outSize - 2) / 4 else (outSize - 2) / 18)
  }

  lemma FittingFits(t: Table, from: nat, to: nat, short: bool, outSize: nat)
    requires |t.short| == |t.handles| && outSize >= 2
    ensures 2 + |Fitting(t, from, to, short, outSize)| * SizeOf(short) <= outSize
  {
  }

  lemma FindsFitting(t: Table, from: nat, to: nat, outSize: nat)
    requires t.Valid() && outSize >= DEFAULT_MTU && 1 <= from <= to && Inhabited(t, from, to)
    ensures var first := LowerBound(t.handles, from);
            && first < |t.handles| && from <= t.handles[first] <= to
            && var listed := Fitting(t, from, to, t.short[first], outSize);
               Find(t, from, to, outSize) == Found(t.short[first], listed) && listed != [] && listed[0] == first
  {
    RequestListsRange(t, from, to, outSize);
  }

  /** The response to a range with an attribute: what the client reads are the attributes of the range with the UUID size of
      the first of them, in ascending order, as many as fit, and at least one. */
  lemma ClientReadsRange(t: Table, uuids: seq<Uuid>, from: Word16, to: Word16, outSize: nat)
    requires t.Valid() && Fits(t, uuids) && outSize >= DEFAULT_MTU && 1 <= from <= to && Inhabited(t, from, to)
    ensures var first := LowerBound(t.handles, from); first < |t.handles| && from <= t.handles[first] <= to
    ensures var response, first := Respond(t, uuids, Request(from, to), outSize), LowerBound(t.handles, from);
            var listed := Fitting(t, from, to, t.short[first], outSize);
            Lists(t, uuids, response, t.short[first], listed) && |response| <= outSize && listed != [] && listed[0] == first
  {
    var first := LowerBound(t.handles, from);
    FindsFitting(t, from, to, outSize);
    RangeIsAnswered(t, uuids, from, to, outSize);
    FittingFits(t, from, to, t.short[first], outSize);
  }

  // ---- Discovery ----

  /** A client that starts at a handle and asks again from one behind the last handle it read, until it reads nothing. */
  function Explored(respond: seq<Byte> -> Response, from: nat): seq<Discovered>
    decreases 0x1_0000 - from
  {
    if from > 0xffff then []
    else
      var found := Read(respond(Request(from, 0xffff)));
      if found == [] || found[|found| - 1].handle < from then found
      else found + Explored(respond, found[|found| - 1].handle + 1)
  }

  function Server(t: Table, uuids: seq<Uuid>, outSize: nat): seq<Byte> -> Response
    requires Fits(t, uuids) && outSize >= DEFAULT_MTU
  {
    pdu => if pdu == [] then [] else Respond(t, uuids, pdu, outSize)
  }

  lemma AttributesConcat(t: Table, uuids: seq<Uuid>, a: seq<nat>, b: seq<nat>)
    requires Fits(t, uuids) && Within(a, |uuids|) && Within(b, |uuids|)
    ensures Within(a + b, |uuids|) && Attributes(t, uuids, a + b) == Attributes(t, uuids, a) + Attributes(t, uuids, b)
  {
  }

  lemma ReadNotFound(t: Table, uuids: seq<Uuid>, from: Word16, response: Response)
    requires Fits(t, uuids) && AnsweredAs(t, uuids, from, NotFound, response)
    ensures Read(response) == []
  {
  }

  /** One step of the client: what it reads. */
  lemma ClientReadsBatch(t: Table, uuids: seq<Uuid>, from: Word16, outSize: nat)
    requires t.Valid() && Fits(t, uuids) && outSize >= DEFAULT_MTU && from >= 1
    ensures var answer, found := Find(t, from, LAST_HANDLE, outSize), Read(Server(t, uuids, outSize)(Request(from, LAST_HANDLE)));
            match answer
            case NotFound => found == []
            case Found(_, indices) => Within(indices, |uuids|) && found == Attributes(t, uuids, indices)
  {
    var answer, client := Find(t, from, LAST_HANDLE, outSize), Server(t, uuids, outSize);
    RangeIsAnswered(t, uuids, from, LAST_HANDLE, outSize);
    if answer == NotFound {
      ReadNotFound(t, uuids, from, client(Request(from, LAST_HANDLE)));
    }
  }

  /** A client that read something goes on behind its last handle. */
  lemma ExploresOn(respond: seq<Byte> -> Response, from: Word16, found: seq<Discovered>, last: Word16)
    requires Read(respond(Request(from, 0xffff))) == found && found != [] && found[|found| - 1].handle == last >= from
    ensures Explored(respond, from) == found + Explored(respond, last + 1)
  {
  }

  lemma LastAttribute(t: Table, uuids: seq<Uuid>, indices: seq<nat>)
    requires Fits(t, uuids) && Within(indices, |uuids|) && indices != []
    ensures var found := Attributes(t, uuids, indices);
            found != [] && found[|found| - 1].handle == t.handles[indices[|indices| - 1]]
  {
    var k := |indices| - 1;
    assert Attributes(t, uuids, indices)[k] == Attribute(t, uuids, indices[k]);
  }

  /** The last handle that a request up to the last handle lists. */
  function LastListed(t: Table, from: nat, outSize: nat): (r: Word16)
    requires t.Valid() && outSize >= DEFAULT_MTU && 1 <= from <= LAST_HANDLE && Find(t, from, LAST_HANDLE, outSize).Found?
    ensures r >= from
  {
    var indices := Find(t, from, LAST_HANDLE, outSize).indices;
    BatchIs(t, from, outSize);
    t.handles[indices[|indices| - 1]]
  }

  lemma DiscoverUnfolds(t: Table, from: nat, outSize: nat)
    requires t.Valid() && outSize >= DEFAULT_MTU && 1 <= from <= LAST_HANDLE && Find(t, from, LAST_HANDLE, outSize).Found?
    ensures Discover(t, from, outSize)
            == Find(t, from, LAST_HANDLE, outSize).indices + Discover(t, LastListed(t, from, outSize) + 1, outSize)
  {
    BatchIs(t, from, outSize);
  }

  lemma ExploredUnfolds(t: Table, uuids: seq<Uuid>, from: nat, outSize: nat)
    requires t.Valid() && Fits(t, uuids) && outSize >= DEFAULT_MTU && 1 <= from <= LAST_HANDLE
    requires Find(t, from, LAST_HANDLE, outSize).Found?
    ensures var client, indices := Server(t, uuids, outSize), Find(t, from, LAST_HANDLE, outSize).indices;
            && Within(indices, |uuids|)
            && Explored(client, from) == Attributes(t, uuids, indices) + Explored(client, LastListed(t, from, outSize) + 1)
  {
    var client, indices := Server(t, uuids, outSize), Find(t, from, LAST_HANDLE, outSize).indices;
    BatchIs(t, from, outSize);
    ClientReadsBatch(t, uuids, from, outSize);
    LastAttribute(t, uuids, indices);
    ExploresOn(client, from, Attributes(t, uuids, indices), LastListed(t, from, outSize));
  }

  ghost predicate Names(t: Table, uuids: seq<Uuid>, found: seq<Discovered>, indices: seq<nat>)
    requires Fits(t, uuids)
  {
    Within(indices, |uuids|) && found == Attributes(t, uuids, indices)
  }

  ghost predicate ExploresSame(t: Table, uuids: seq<Uuid>, from: nat, outSize: nat)
    requires t.Valid() && Fits(t, uuids) && outSize >= DEFAULT_MTU && from >= 1
  {
    Names(t, uuids, Explored(Server(t, uuids, outSize), from), Discover(t, from, outSize))
  }

  lemma BatchAndRest(t: Table, uuids: seq<Uuid>, all: seq<nat>, batch: seq<nat>, rest: seq<nat>, explored: seq<Discovered>,
                     after: seq<Discovered>)
    requires Fits(t, uuids) && Within(batch, |uuids|) && Names(t, uuids, after, rest)
    requires all == batch + rest && explored == Attributes(t, uuids, batch) + after
    ensures Names(t, uuids, explored, all)
  {
    AttributesConcat(t, uuids, batch, rest);
  }

  /** One request of both: what it lists, and what is listed and explored behind it. */
  lemma BothUnfold(t: Table, uuids: seq<Uuid>, from: nat, outSize: nat)
    returns (batch: seq<nat>, rest: seq<nat>, after: seq<Discovered>)
    requires t.Valid() && Fits(t, uuids) && outSize >= DEFAULT_MTU && 1 <= from <= LAST_HANDLE
    requires Find(t, from, LAST_HANDLE, outSize).Found?
    ensures Within(batch, |uuids|)
    ensures Discover(t, from, outSize) == batch + rest
    ensures Explored(Server(t, uuids, outSize), from) == Attributes(t, uuids, batch) + after
    ensures var next := LastListed(t, from, outSize) + 1;
            rest == Discover(t, next, outSize) && after == Explored(Server(t, uuids, outSize), next)
  {
    var next := LastListed(t, from, outSize) + 1;
    batch := Find(t, from, LAST_HANDLE, outSize).indices;
    rest, after := Discover(t, next, outSize), Explored(Server(t, uuids, outSize), next);
    DiscoverUnfolds(t, from, outSize);
    ExploredUnfolds(t, uuids, from, outSize);
  }

  lemma ExploresBatch(t: Table, uuids: seq<Uuid>, from: nat, outSize: nat)
    requires t.Valid() && Fits(t, uuids) && outSize >= DEFAULT_MTU && 1 <= from <= LAST_HANDLE
    requires Find(t, from, LAST_HANDLE, outSize).Found? && ExploresSame(t, uuids, LastListed(t, from, outSize) + 1, outSize)
    ensures ExploresSame(t, uuids, from, outSize)
  {
    var batch, rest, after := BothUnfold(t, uuids, from, outSize);
    BatchAndRest(t, uuids, batch + rest, batch, rest, Attributes(t, uuids, batch) + after, after);
  }

  /** What the client explores is what the requests list. */
  lemma {:induction false} ExploresDiscovered(t: Table, uuids: seq<Uuid>, from: nat, outSize: nat)
    requires t.Valid() && Fits(t, uuids) && outSize >= DEFAULT_MTU && from >= 1
    ensures ExploresSame(t, uuids, from, outSize)
    decreases LAST_HANDLE + 1 - from
  {
    if from > LAST_HANDLE {
    } else if Find(t, from, LAST_HANDLE, outSize) == NotFound {
      ClientReadsBatch(t, uuids, from, outSize);
    } else {
      ExploresDiscovered(t, uuids, LastListed(t, from, outSize) + 1, outSize);
      ExploresBatch(t, uuids, from, outSize);
    }
  }

  function AllAttributes(t: Table, uuids: seq<Uuid>): seq<Discovered>
    requires Fits(t, uuids)
  {
    seq(|uuids|, i requires 0 <= i < |uuids| => Attribute(t, uuids, i))
  }

  lemma SameHandleSameIndex(t: Table, uuids: seq<Uuid>, i: nat, j: nat)
    requires t.Valid() && Fits(t, uuids) && i < |uuids| && j < |uuids|
    ensures Attribute(t, uuids, i) == Attribute(t, uuids, j) ==> i == j
  {
  }

  lemma AttributesOfAll(t: Table, uuids: seq<Uuid>, indices: seq<nat>)
    requires t.Valid() && Fits(t, uuids) && Within(indices, |uuids|)
    ensures Attributes(t, uuids, indices) == AllAttributes(t, uuids) <==> indices == Upto(0, |t.handles|)
  {
    if Attributes(t, uuids, indices) == AllAttributes(t, uuids) {
      forall k | 0 <= k < |indices|
        ensures indices[k] == k
      {
        assert AllAttributes(t, uuids)[k] == Attributes(t, uuids, indices)[k];
        SameHandleSameIndex(t, uuids, indices[k], k);
      }
      assert indices == Upto(0, |t.handles|);
    }
  }

  /** A client with a given response size gets to know every attribute, with its handle and UUID, each once and in ascending
      order, exactly if no request leaves a gap. */
  lemma ExploresAllIff(t: Table, uuids: seq<Uuid>, outSize: nat)
    requires t.Valid() && Fits(t, uuids) && outSize >= DEFAULT_MTU
    ensures Explored(Server(t, uuids, outSize), 1) == AllAttributes(t, uuids) <==> Gapless(t, 0, outSize)
  {
    ExploresDiscovered(t, uuids, 1, outSize);
    AttributesOfAll(t, uuids, Discover(t, 1, outSize));
    DiscoveryIsCompleteIff(t, outSize);
  }
}
