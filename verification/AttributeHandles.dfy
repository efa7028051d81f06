/**
 The mapping between attribute indices and attribute handles: services and characteristics take the next free
 handle or a fixed one of the user's choice. The reference is the plain list of all handles.
 */
module AttributeHandles {
  import opened GattServer

  const NO_HANDLE: nat := 0
  /** The largest value of the index type, which has 32 bits on the target. */
  const INVALID_INDEX: nat := 0xffff_ffff

  // ---- One characteristic ----

  function Declaration(start: nat, c: Characteristic): nat {
    match c.fixed
    case NoHandle => start
    case Declared(h) => h
    case AllThree(d, _, _) => d
  }

  function Value(start: nat, c: Characteristic): nat {
    match c.fixed
    case NoHandle => start + 1
    case Declared(h) => h + 1
    case AllThree(_, v, _) => v
  }

  function Cccd(start: nat, c: Characteristic): nat {
    match c.fixed
    case NoHandle => start + 2
    case Declared(h) => h + 2
    case AllThree(_, v, cccd) => if cccd == 0 then v + 1 else cccd
  }

  /** What the static assertions ask for; every characteristic has a declaration and a value. */
  predicate CharacteristicAccepted(start: nat, c: Characteristic) {
    && c.attributes >= 2
    && Declaration(start, c) >= start
    && (c.fixed.AllThree? ==> c.fixed.value > c.fixed.declaration && (c.fixed.cccd == 0 || c.fixed.cccd > c.fixed.value))
  }

  function CharacteristicEnd(start: nat, c: Characteristic): nat
    requires c.attributes >= 2
  {
    if c.attributes == 2 then Value(start, c) + 1 else Cccd(start, c) + (c.attributes - 2)
  }

  function CharacteristicHandle(start: nat, c: Characteristic, position: nat): nat {
    if position == 0 then Declaration(start, c)
    else if position == 1 then Value(start, c)
    else if position == 2 then Cccd(start, c)
    else position - 2 + Cccd(start, c)
  }

  function CharacteristicPosition(start: nat, c: Characteristic, handle: nat): nat {
    if handle <= Declaration(start, c) then 0
    else if handle <= Value(start, c) then 1
    else if handle <= Cccd(start, c) then 2
    else 2 + handle - Cccd(start, c)
  }

  // ---- The characteristics of a service ----

  predicate CharacteristicsAccepted(start: nat, cs: seq<Characteristic>)
    decreases cs
  {
    if cs == [] then true
    else CharacteristicAccepted(start, cs[0]) && CharacteristicsAccepted(CharacteristicEnd(start, cs[0]), cs[1..])
  }

  function CharacteristicsEnd(start: nat, cs: seq<Characteristic>): nat
    requires CharacteristicsAccepted(start, cs)
    decreases cs
  {
    if cs == [] then start else CharacteristicsEnd(CharacteristicEnd(start, cs[0]), cs[1..])
  }

  function CharacteristicsHandle(start: nat, startIndex: nat, cs: seq<Characteristic>, index: nat): nat
    requires CharacteristicsAccepted(start, cs) && startIndex <= index
    decreases cs
  {
    if cs == [] then NO_HANDLE
    else if index < startIndex + cs[0].attributes then CharacteristicHandle(start, cs[0], index - startIndex)
    else CharacteristicsHandle(CharacteristicEnd(start, cs[0]), startIndex + cs[0].attributes, cs[1..], index)
  }

  function CharacteristicsIndex(start: nat, startIndex: nat, cs: seq<Characteristic>, handle: nat): nat
    requires CharacteristicsAccepted(start, cs)
    decreases cs
  {
    if cs == [] then INVALID_INDEX
    else if handle < CharacteristicEnd(start, cs[0]) then startIndex + CharacteristicPosition(start, cs[0], handle)
    else CharacteristicsIndex(CharacteristicEnd(start, cs[0]), startIndex + cs[0].attributes, cs[1..], handle)
  }

  // ---- The services of a server ----

  function ServiceHandle(start: nat, s: Service): nat {
    if s.fixed.Declared? then s.fixed.handle else start
  }

  predicate ServiceAccepted(start: nat, s: Service) {
    ServiceHandle(start, s) >= start && CharacteristicsAccepted(ServiceHandle(start, s) + 1, s.characteristics)
  }

  function ServiceEnd(start: nat, s: Service): nat
    requires ServiceAccepted(start, s)
  {
    CharacteristicsEnd(ServiceHandle(start, s) + 1, s.characteristics)
  }

  function HandleInService(start: nat, startIndex: nat, s: Service, index: nat): nat
    requires ServiceAccepted(start, s) && startIndex <= index
  {
    if index == startIndex then ServiceHandle(start, s)
    else CharacteristicsHandle(ServiceHandle(start, s) + 1, startIndex + 1, s.characteristics, index)
  }

  function IndexInService(start: nat, startIndex: nat, s: Service, handle: nat): nat
    requires ServiceAccepted(start, s)
  {
    if handle <= ServiceHandle(start, s) then startIndex
    else CharacteristicsIndex(ServiceHandle(start, s) + 1, startIndex + 1, s.characteristics, handle)
  }

  predicate Accepted(start: nat, services: seq<Service>)
    decreases services
  {
    if services == [] then true
    else ServiceAccepted(start, services[0]) && Accepted(ServiceEnd(start, services[0]), services[1..])
  }

  function HandleFrom(start: nat, startIndex: nat, services: seq<Service>, index: nat): nat
    requires Accepted(start, services) && startIndex <= index
    decreases services
  {
    if services == [] then NO_HANDLE
    else if index < startIndex + ServiceAttributes(services[0]) then
      HandleInService(start, startIndex, services[0], index)
    else HandleFrom(ServiceEnd(start, services[0]), startIndex + ServiceAttributes(services[0]), services[1..], index)
  }

  function FirstIndexFrom(start: nat, startIndex: nat, services: seq<Service>, handle: nat): nat
    requires Accepted(start, services)
    decreases services
  {
    if services == [] then INVALID_INDEX
    else if handle < ServiceEnd(start, services[0]) then
      IndexInService(start, startIndex, services[0], handle)
    else FirstIndexFrom(ServiceEnd(start, services[0]), startIndex + ServiceAttributes(services[0]), services[1..], handle)
  }

  function HandleByIndex(services: seq<Service>, index: nat): nat
    requires Accepted(1, services)
  {
    HandleFrom(1, 0, services, index)
  }

  function FirstIndexByHandle(services: seq<Service>, handle: nat): nat
    requires Accepted(1, services)
  {
    FirstIndexFrom(1, 0, services, handle)
  }

  function IndexByHandle(services: seq<Service>, handle: nat): nat
    requires Accepted(1, services)
  {
    var result := FirstIndexByHandle(services, handle);
    if result != INVALID_INDEX && HandleByIndex(services, result) != handle then INVALID_INDEX else result
  }

  // ---- The reference: the list of all handles ----

  /** Handles that increase strictly within [low, high). */
  ghost predicate Increasing(hs: seq<nat>, low: nat, high: nat) {
    && (forall i :: 0 <= i < |hs| ==> low <= hs[i] < high)
    && (forall i, j :: 0 <= i < j < |hs| ==> hs[i] < hs[j])
  }

  /** The place of the first handle that is not below `handle`; the length of the list if there is none. */
  function LowerBound(hs: seq<nat>, handle: nat): (r: nat)
    ensures r <= |hs|
  {
    if hs == [] || handle <= hs[0] then 0 else 1 + LowerBound(hs[1..], handle)
  }

  function HandlesOfCharacteristic(start: nat, c: Characteristic): (r: seq<nat>)
    ensures |r| == c.attributes
  {
    seq(c.attributes, p requires 0 <= p < c.attributes => CharacteristicHandle(start, c, p))
  }

  function HandlesOfCharacteristics(start: nat, cs: seq<Characteristic>): (r: seq<nat>)
    requires CharacteristicsAccepted(start, cs)
    ensures |r| == AttributesOf(cs)
    decreases cs
  {
    if cs == [] then []
    else HandlesOfCharacteristic(start, cs[0]) + HandlesOfCharacteristics(CharacteristicEnd(start, cs[0]), cs[1..])
  }

  function HandlesOfService(start: nat, s: Service): seq<nat>
    requires ServiceAccepted(start, s)
  {
    [ServiceHandle(start, s)] + HandlesOfCharacteristics(ServiceHandle(start, s) + 1, s.characteristics)
  }

  function Handles(start: nat, services: seq<Service>): seq<nat>
    requires Accepted(start, services)
    decreases services
  {
    if services == [] then []
    else HandlesOfService(start, services[0]) + Handles(ServiceEnd(start, services[0]), services[1..])
  }

  // ---- Segments ----

  lemma IncreasingConcat(a: seq<nat>, b: seq<nat>, low: nat, mid: nat, high: nat)
    requires Increasing(a, low, mid) && Increasing(b, mid, high) && low <= mid <= high
    ensures Increasing(a + b, low, high)
  {
  }

  lemma {:induction false} LowerBoundSplits(hs: seq<nat>, handle: nat)
    ensures forall i :: 0 <= i < LowerBound(hs, handle) ==> hs[i] < handle
    ensures LowerBound(hs, handle) < |hs| ==> handle <= hs[LowerBound(hs, handle)]
    decreases hs
  {
    if hs != [] && handle > hs[0] {
      LowerBoundSplits(hs[1..], handle);
    }
  }

  lemma LowerBoundIs(hs: seq<nat>, handle: nat, r: nat)
    requires r <= |hs|
    requires forall i :: 0 <= i < r ==> hs[i] < handle
    requires r < |hs| ==> handle <= hs[r]
    ensures LowerBound(hs, handle) == r
  {
    LowerBoundSplits(hs, handle);
  }

  lemma LowerBoundInFirst(a: seq<nat>, b: seq<nat>, handle: nat)
    requires a != [] && handle <= a[|a| - 1]
    ensures LowerBound(a + b, handle) == LowerBound(a, handle) < |a|
  {
    LowerBoundSplits(a, handle);
    LowerBoundIs(a + b, handle, LowerBound(a, handle));
  }

  lemma LowerBoundInSecond(a: seq<nat>, b: seq<nat>, handle: nat)
    requires forall i :: 0 <= i < |a| ==> a[i] < handle
    ensures LowerBound(a + b, handle) == |a| + LowerBound(b, handle)
  {
    LowerBoundSplits(b, handle);
    LowerBoundIs(a + b, handle, |a| + LowerBound(b, handle));
  }

  lemma CharacteristicSegment(start: nat, c: Characteristic)
    requires CharacteristicAccepted(start, c)
    ensures start <= CharacteristicEnd(start, c)
    ensures Increasing(HandlesOfCharacteristic(start, c), start, CharacteristicEnd(start, c))
    ensures HandlesOfCharacteristic(start, c)[c.attributes - 1] == CharacteristicEnd(start, c) - 1
  {
  }

  lemma CharacteristicPositionIs(start: nat, c: Characteristic, handle: nat)
    requires CharacteristicAccepted(start, c) && handle < CharacteristicEnd(start, c)
    ensures CharacteristicPosition(start, c, handle) < c.attributes
    ensures LowerBound(HandlesOfCharacteristic(start, c), handle) == CharacteristicPosition(start, c, handle)
  {
    var p := CharacteristicPosition(start, c, handle);
    var hs := HandlesOfCharacteristic(start, c);
    assert p < c.attributes;
    LowerBoundIs(hs, handle, p);
  }

  lemma {:induction false} CharacteristicsSegment(start: nat, cs: seq<Characteristic>)
    requires CharacteristicsAccepted(start, cs)
    ensures start <= CharacteristicsEnd(start, cs)
    ensures var hs := HandlesOfCharacteristics(start, cs);
            && Increasing(hs, start, CharacteristicsEnd(start, cs))
            && (if cs == [] then start == CharacteristicsEnd(start, cs)
                else hs != [] && hs[|hs| - 1] == CharacteristicsEnd(start, cs) - 1)
    decreases cs
  {
    if cs == [] {
    } else {
      var mid := CharacteristicEnd(start, cs[0]);
      CharacteristicSegment(start, cs[0]);
      CharacteristicsSegment(mid, cs[1..]);
      IncreasingConcat(HandlesOfCharacteristic(start, cs[0]), HandlesOfCharacteristics(mid, cs[1..]),
                       start, mid, CharacteristicsEnd(mid, cs[1..]));
    }
  }

  lemma ServiceSegment(start: nat, s: Service)
    requires ServiceAccepted(start, s)
    ensures start < ServiceEnd(start, s)
    ensures var hs := HandlesOfService(start, s);
            Increasing(hs, start, ServiceEnd(start, s)) && hs[|hs| - 1] == ServiceEnd(start, s) - 1
  {
    var h := ServiceHandle(start, s);
    CharacteristicsSegment(h + 1, s.characteristics);
    HeadSegment(start, h, HandlesOfCharacteristics(h + 1, s.characteristics), ServiceEnd(start, s));
  }

  lemma HeadSegment(start: nat, h: nat, hs: seq<nat>, end: nat)
    requires start <= h < end && Increasing(hs, h + 1, end)
    ensures Increasing([h] + hs, start, end)
  {
  }

  /** All handles of a server increase strictly, from the start on. */
  lemma {:induction false} HandlesIncrease(start: nat, services: seq<Service>) returns (end: nat)
    requires Accepted(start, services)
    ensures start <= end && Increasing(Handles(start, services), start, end)
    decreases services
  {
    end := start;
    if services == [] {
    } else {
      var mid := ServiceEnd(start, services[0]);
      ServiceSegment(start, services[0]);
      end := HandlesIncrease(mid, services[1..]);
      IncreasingConcat(HandlesOfService(start, services[0]), Handles(mid, services[1..]), start, mid, end);
    }
  }

  // ---- The functions against the list ----

  lemma {:induction false} CharacteristicsHandleIs(start: nat, startIndex: nat, cs: seq<Characteristic>, index: nat)
    requires CharacteristicsAccepted(start, cs) && startIndex <= index
    ensures CharacteristicsHandle(start, startIndex, cs, index)
            == if index - startIndex < AttributesOf(cs) then HandlesOfCharacteristics(start, cs)[index - startIndex]
               else NO_HANDLE
    decreases cs
  {
    if cs == [] {
    } else if index < startIndex + cs[0].attributes {
    } else {
      CharacteristicsHandleIs(CharacteristicEnd(start, cs[0]), startIndex + cs[0].attributes, cs[1..], index);
      BehindFirst(HandlesOfCharacteristic(start, cs[0]), HandlesOfCharacteristics(CharacteristicEnd(start, cs[0]), cs[1..]),
                  index - startIndex);
    }
  }

  lemma BehindFirst(a: seq<nat>, b: seq<nat>, i: nat)
    requires |a| <= i
    ensures i < |a| + |b| ==> (a + b)[i] == b[i - |a|]
  {
  }

  lemma {:induction false} CharacteristicsIndexIs(start: nat, startIndex: nat, cs: seq<Characteristic>, handle: nat)
    requires CharacteristicsAccepted(start, cs)
    ensures var r := LowerBound(HandlesOfCharacteristics(start, cs), handle);
            CharacteristicsIndex(start, startIndex, cs, handle)
            == if r < AttributesOf(cs) then startIndex + r else INVALID_INDEX
    decreases cs
  {
    if cs == [] {
    } else {
      var mid := CharacteristicEnd(start, cs[0]);
      var a, b := HandlesOfCharacteristic(start, cs[0]), HandlesOfCharacteristics(mid, cs[1..]);
      CharacteristicSegment(start, cs[0]);
      if handle < mid {
        LowerBoundInFirst(a, b, handle);
        CharacteristicPositionIs(start, cs[0], handle);
      } else {
        LowerBoundInSecond(a, b, handle);
        CharacteristicsIndexIs(mid, startIndex + cs[0].attributes, cs[1..], handle);
      }
    }
  }

  lemma HandleInServiceIs(start: nat, startIndex: nat, s: Service, index: nat)
    requires ServiceAccepted(start, s) && startIndex <= index < startIndex + 1 + AttributesOf(s.characteristics)
    ensures HandleInService(start, startIndex, s, index) == HandlesOfService(start, s)[index - startIndex]
  {
    if index != startIndex {
      CharacteristicsHandleIs(ServiceHandle(start, s) + 1, startIndex + 1, s.characteristics, index);
    }
  }

  /** An element of a list, or the invalid handle behind it. */
  function HandleAt(hs: seq<nat>, i: nat): nat {
    if i < |hs| then hs[i] else NO_HANDLE
  }

  lemma HandleAtConcat(a: seq<nat>, b: seq<nat>, i: nat)
    ensures HandleAt(a + b, i) == if i < |a| then a[i] else HandleAt(b, i - |a|)
  {
  }

  lemma {:induction false} HandleFromIs(start: nat, startIndex: nat, services: seq<Service>, index: nat)
    requires Accepted(start, services) && startIndex <= index && NoIncludes(services)
    ensures HandleFrom(start, startIndex, services, index) == HandleAt(Handles(start, services), index - startIndex)
    decreases services
  {
    if services == [] {
    } else {
      var s, end := services[0], ServiceEnd(start, services[0]);
      assert s.includes == 0;
      HandleAtConcat(HandlesOfService(start, s), Handles(end, services[1..]), index - startIndex);
      if index < startIndex + ServiceAttributes(s) {
        HandleInServiceIs(start, startIndex, s, index);
      } else {
        HandleFromIs(end, startIndex + ServiceAttributes(s), services[1..], index);
      }
    }
  }

  lemma IndexInside(start: nat, startIndex: nat, cs: seq<Characteristic>, handle: nat)
    requires CharacteristicsAccepted(start, cs) && start <= handle < CharacteristicsEnd(start, cs)
    ensures LowerBound(HandlesOfCharacteristics(start, cs), handle) < AttributesOf(cs)
    ensures CharacteristicsIndex(start, startIndex, cs, handle)
            == startIndex + LowerBound(HandlesOfCharacteristics(start, cs), handle)
  {
    var hs := HandlesOfCharacteristics(start, cs);
    CharacteristicsSegment(start, cs);
    LowerBoundInFirst(hs, [], handle);
    CharacteristicsIndexIs(start, startIndex, cs, handle);
  }

  lemma LowerBoundOfHead(h: nat, rest: seq<nat>, handle: nat)
    ensures LowerBound([h] + rest, handle) == if handle <= h then 0 else 1 + LowerBound(rest, handle)
  {
  }

  lemma IndexInServiceIs(start: nat, startIndex: nat, s: Service, handle: nat)
    requires ServiceAccepted(start, s) && handle < ServiceEnd(start, s)
    ensures LowerBound(HandlesOfService(start, s), handle) < |HandlesOfService(start, s)|
    ensures IndexInService(start, startIndex, s, handle) == startIndex + LowerBound(HandlesOfService(start, s), handle)
  {
    var h := ServiceHandle(start, s);
    LowerBoundOfHead(h, HandlesOfCharacteristics(h + 1, s.characteristics), handle);
    if handle > h {
      IndexInside(h + 1, startIndex + 1, s.characteristics, handle);
    }
  }

  /** The lower bound over a service and what follows it. */
  lemma IndexInFirstService(start: nat, startIndex: nat, s: Service, b: seq<nat>, handle: nat)
    requires ServiceAccepted(start, s) && s.includes == 0
    ensures var r := LowerBound(HandlesOfService(start, s) + b, handle);
            if handle < ServiceEnd(start, s)
            then r < |HandlesOfService(start, s)| && IndexInService(start, startIndex, s, handle) == startIndex + r
            else r == |HandlesOfService(start, s)| + LowerBound(b, handle)
    ensures |HandlesOfService(start, s)| == ServiceAttributes(s)
  {
    ServiceSegment(start, s);
    if handle < ServiceEnd(start, s) {
      IndexInServiceIs(start, startIndex, s, handle);
      LowerBoundInFirst(HandlesOfService(start, s), b, handle);
    } else {
      LowerBoundInSecond(HandlesOfService(start, s), b, handle);
    }
  }

  lemma {:induction false} FirstIndexFromIs(start: nat, startIndex: nat, services: seq<Service>, handle: nat)
    requires Accepted(start, services) && NoIncludes(services)
    ensures var r := LowerBound(Handles(start, services), handle);
            FirstIndexFrom(start, startIndex, services, handle)
            == if r < |Handles(start, services)| then startIndex + r else INVALID_INDEX
    decreases services
  {
    if services == [] {
    } else {
      var s, end := services[0], ServiceEnd(start, services[0]);
      IndexInFirstService(start, startIndex, s, Handles(end, services[1..]), handle);
      if handle >= end {
        FirstIndexFromIs(end, startIndex + ServiceAttributes(s), services[1..], handle);
      }
    }
  }

  // ---- What the mapping promises ----

  /** Without includes, for every accepted choice of fixed handles: handles are never 0 on an index of the table
      and 0 behind it, and a larger index has a larger handle. */
  lemma HandlesAreValidAndIncrease(services: seq<Service>, i: nat, j: nat)
    requires Accepted(1, services) && NoIncludes(services)
    ensures HandleByIndex(services, i) == NO_HANDLE <==> i >= |Handles(1, services)|
    ensures i < j < |Handles(1, services)| ==> HandleByIndex(services, i) < HandleByIndex(services, j)
  {
    var end := HandlesIncrease(1, services);
    HandleFromIs(1, 0, services, i);
    HandleFromIs(1, 0, services, j);
  }

  /** The 16 bits of a handle suffice for the whole table exactly if they suffice for its last attribute. */
  lemma HandlesFitIff(services: seq<Service>)
    requires Accepted(1, services) && NoIncludes(services) && services != []
    ensures 0 < TableSize(services)
    ensures (forall i :: 0 <= i < TableSize(services) ==> HandleByIndex(services, i) < 0x1_0000)
            <==> HandleByIndex(services, TableSize(services) - 1) < 0x1_0000
  {
    var last := TableSize(services) - 1;
    TableIsHandles(1, services);
    forall i | 0 <= i < last ensures HandleByIndex(services, i) < HandleByIndex(services, last) {
      HandlesAreValidAndIncrease(services, i, last);
    }
  }

  /** The index by handle is the least one whose handle is not below the given one; it is invalid exactly if there
      is no such attribute. */
  lemma FirstIndexIsLeast(services: seq<Service>, handle: nat)
    requires Accepted(1, services) && NoIncludes(services) && |Handles(1, services)| < 0x10000
    ensures var r := FirstIndexByHandle(services, handle);
            if exists i: nat :: i < |Handles(1, services)| && handle <= HandleByIndex(services, i)
            then r < |Handles(1, services)| && handle <= HandleByIndex(services, r)
                 && forall i: nat :: i < r ==> HandleByIndex(services, i) < handle
            else r == INVALID_INDEX
  {
    FirstIndexFromIs(1, 0, services, handle);
    LowerBoundSplits(Handles(1, services), handle);
    forall i: nat
      ensures i < |Handles(1, services)| ==> HandleByIndex(services, i) == Handles(1, services)[i]
    {
      HandleFromIs(1, 0, services, i);
    }
  }

  lemma LowerBoundInverts(hs: seq<nat>, low: nat, high: nat, handle: nat, i: nat)
    requires Increasing(hs, low, high)
    ensures var r := LowerBound(hs, handle);
            && (handle in hs <==> r < |hs| && hs[r] == handle)
            && (i < |hs| ==> (hs[i] == handle <==> r == i && hs[r] == handle))
  {
  }

  /** The exact look-up is the partial inverse of the handles: both directions. */
  lemma IndexByHandleIsInverse(services: seq<Service>, handle: nat, i: nat)
    requires Accepted(1, services) && NoIncludes(services) && |Handles(1, services)| < 0x10000
    ensures i < |Handles(1, services)| ==>
              (IndexByHandle(services, handle) == i <==> HandleByIndex(services, i) == handle)
    ensures IndexByHandle(services, handle) == INVALID_INDEX <==> handle !in Handles(1, services)
  {
    var hs := Handles(1, services);
    var end := HandlesIncrease(1, services);
    FirstIndexFromIs(1, 0, services, handle);
    HandleFromIs(1, 0, services, i);
    HandleFromIs(1, 0, services, LowerBound(hs, handle));
    LowerBoundInverts(hs, 1, end, handle, i);
  }

  lemma {:induction false} PlainHandles(start: nat, services: seq<Service>)
    requires Accepted(start, services) && forall i :: 0 <= i < |services| ==> Plain(services[i])
    ensures forall i :: 0 <= i < |Handles(start, services)| ==> Handles(start, services)[i] == start + i
    decreases services
  {
    if services == [] {
    } else {
      var s := services[0];
      assert Plain(s);
      TrivialCharacteristics(start + 1, s.characteristics);
      PlainHandles(ServiceEnd(start, s), services[1..]);
    }
  }

  /** Without includes and without any fixed handle, every index i of the table has the handle i + 1. */
  lemma TrivialMapping(services: seq<Service>, i: nat)
    requires Accepted(1, services) && NoIncludes(services) && i < TableSize(services)
    requires forall s :: 0 <= s < |services| ==> Plain(services[s])
    ensures HandleByIndex(services, i) == i + 1
  {
    TableIsHandles(1, services);
    HandleFromIs(1, 0, services, i);
    PlainHandles(1, services);
  }

  ghost predicate Plain(s: Service) {
    s.fixed == NoHandle && forall i :: 0 <= i < |s.characteristics| ==> s.characteristics[i].fixed == NoHandle
  }

  ghost predicate HasDeclarationAndValue(cs: seq<Characteristic>) {
    forall k :: 0 <= k < |cs| ==> cs[k].attributes >= 2
  }

  lemma {:induction false} PlainCharacteristicsAccepted(start: nat, cs: seq<Characteristic>)
    requires HasDeclarationAndValue(cs) && forall k :: 0 <= k < |cs| ==> cs[k].fixed == NoHandle
    ensures CharacteristicsAccepted(start, cs)
    decreases cs
  {
    if cs == [] {
    } else {
      PlainCharacteristicsAccepted(CharacteristicEnd(start, cs[0]), cs[1..]);
    }
  }

  /** Services without fixed handles are always accepted. */
  lemma {:induction false} PlainIsAccepted(start: nat, services: seq<Service>)
    requires forall s :: 0 <= s < |services| ==> Plain(services[s]) && HasDeclarationAndValue(services[s].characteristics)
    ensures Accepted(start, services)
    decreases services
  {
    if services == [] {
    } else {
      assert Plain(services[0]) && HasDeclarationAndValue(services[0].characteristics);
      PlainCharacteristicsAccepted(ServiceHandle(start, services[0]) + 1, services[0].characteristics);
      PlainIsAccepted(ServiceEnd(start, services[0]), services[1..]);
    }
  }

  /** Fixed handles of a characteristic are accepted exactly if they are not below the next free one and increase. */
  lemma FixedIsAcceptedIff(start: nat, c: Characteristic)
    requires c.attributes >= 2
    ensures CharacteristicsAccepted(start, [c]) <==>
            match c.fixed
            case NoHandle => true
            case Declared(handle) => start <= handle
            case AllThree(declaration, value, cccd) => start <= declaration < value && (cccd == 0 || value < cccd)
  {
    assert [c][1..] == [];
  }

  lemma {:induction false} TrivialCharacteristics(start: nat, cs: seq<Characteristic>)
    requires CharacteristicsAccepted(start, cs)
    requires forall i :: 0 <= i < |cs| ==> cs[i].fixed == NoHandle
    ensures CharacteristicsEnd(start, cs) == start + AttributesOf(cs)
    ensures forall i :: 0 <= i < |HandlesOfCharacteristics(start, cs)| ==>
              HandlesOfCharacteristics(start, cs)[i] == start + i
    decreases cs
  {
    if cs == [] {
    } else {
      assert cs[0].fixed == NoHandle;
      TrivialCharacteristics(CharacteristicEnd(start, cs[0]), cs[1..]);
    }
  }

  // ---- Includes ----

  /** The table counts an attribute for every include, the mapping does not: some attribute of the table has the
      invalid handle exactly if some service includes another one. */
  lemma SomeHandleInvalidIff(services: seq<Service>)
    requires Accepted(1, services)
    ensures (exists i: nat :: i < TableSize(services) && HandleByIndex(services, i) == NO_HANDLE)
            <==> !NoIncludes(services)
  {
    if NoIncludes(services) {
      TableIsHandles(1, services);
      forall i: nat | i < TableSize(services)
        ensures HandleByIndex(services, i) != NO_HANDLE
      {
        HandlesAreValidAndIncrease(services, i, i);
      }
    } else {
      var i := InvalidOfInclude(1, 0, services);
      assert i < TableSize(services) && HandleByIndex(services, i) == NO_HANDLE;
    }
  }

  lemma {:induction false} TableIsHandles(start: nat, services: seq<Service>)
    requires Accepted(start, services) && NoIncludes(services)
    ensures TableSize(services) == |Handles(start, services)|
    decreases services
  {
    if services == [] {
    } else {
      assert services[0].includes == 0;
      TableIsHandles(ServiceEnd(start, services[0]), services[1..]);
    }
  }

  lemma {:induction false} InvalidOfInclude(start: nat, startIndex: nat, services: seq<Service>) returns (i: nat)
    requires Accepted(start, services) && !NoIncludes(services)
    ensures startIndex <= i < startIndex + TableSize(services)
    ensures HandleFrom(start, startIndex, services, i) == NO_HANDLE
    decreases services
  {
    var s := services[0];
    if s.includes > 0 {
      i := startIndex + 1 + AttributesOf(s.characteristics);
      CharacteristicsHandleIs(ServiceHandle(start, s) + 1, startIndex + 1, s.characteristics, i);
    } else {
      i := InvalidOfInclude(ServiceEnd(start, s), startIndex + ServiceAttributes(s), services[1..]);
    }
  }

  // ---- Fixed handles ----

  /** The first free handle in front of a service, and in front of a characteristic of a list. */
  function ServiceStart(start: nat, services: seq<Service>, s: nat): (r: nat)
    requires Accepted(start, services) && s < |services|
    ensures ServiceAccepted(r, services[s])
    decreases services
  {
    if s == 0 then start else ServiceStart(ServiceEnd(start, services[0]), services[1..], s - 1)
  }

  function CharacteristicStart(start: nat, cs: seq<Characteristic>, k: nat): nat
    requires CharacteristicsAccepted(start, cs) && k < |cs|
    decreases cs
  {
    if k == 0 then start else CharacteristicStart(CharacteristicEnd(start, cs[0]), cs[1..], k - 1)
  }

  /** Every attribute of a characteristic gets its handle from the characteristic's own options and start. */
  lemma {:induction false} HandleOfCharacteristic(start: nat, startIndex: nat, cs: seq<Characteristic>, k: nat, p: nat)
    requires CharacteristicsAccepted(start, cs) && k < |cs| && p < cs[k].attributes
    ensures CharacteristicsHandle(start, startIndex, cs, startIndex + CharacteristicIndex(cs, k) + p)
            == CharacteristicHandle(CharacteristicStart(start, cs, k), cs[k], p)
    decreases cs
  {
    if k == 0 {
    } else {
      HandleOfCharacteristic(CharacteristicEnd(start, cs[0]), startIndex + cs[0].attributes, cs[1..], k - 1, p);
    }
  }

  lemma {:induction false} HandleOfService(start: nat, startIndex: nat, services: seq<Service>, s: nat, offset: nat)
    requires Accepted(start, services) && s < |services| && offset < ServiceAttributes(services[s])
    ensures var own, index := ServiceStart(start, services, s), startIndex + ServiceIndex(services, s);
            HandleFrom(start, startIndex, services, index + offset) == HandleInService(own, index, services[s], index + offset)
    decreases services
  {
    if s == 0 {
    } else {
      var next := startIndex + ServiceAttributes(services[0]);
      HandleOfService(ServiceEnd(start, services[0]), next, services[1..], s - 1, offset);
    }
  }

  /** A service with a fixed handle has it. */
  lemma FixedServiceHandle(services: seq<Service>, s: nat)
    requires Accepted(1, services) && s < |services| && services[s].fixed.Declared?
    ensures HandleByIndex(services, ServiceIndex(services, s)) == services[s].fixed.handle
  {
    HandleOfService(1, 0, services, s, 0);
  }

  /** The handle of an attribute of a characteristic, from the fixed handles alone. */
  function FixedHandle(fixed: FixedHandles, p: nat): nat
    requires fixed != NoHandle
  {
    match fixed
    case Declared(h) => h + p
    case AllThree(d, v, cccd) =>
      if p == 0 then d else if p == 1 then v else (if cccd == 0 then v + 1 else cccd) + (p - 2)
  }

  /** The first free handle in front of a characteristic of a server. */
  function OwnStart(services: seq<Service>, s: nat, k: nat): nat
    requires Accepted(1, services) && s < |services| && k < |services[s].characteristics|
  {
    CharacteristicStart(ServiceHandle(ServiceStart(1, services, s), services[s]) + 1, services[s].characteristics, k)
  }

  lemma HandleInOwnService(own: nat, index: nat, s: Service, k: nat, p: nat)
    requires ServiceAccepted(own, s) && k < |s.characteristics| && p < s.characteristics[k].attributes
    ensures var cs := s.characteristics;
            HandleInService(own, index, s, index + 1 + CharacteristicIndex(cs, k) + p)
            == CharacteristicHandle(CharacteristicStart(ServiceHandle(own, s) + 1, cs, k), cs[k], p)
  {
    HandleOfCharacteristic(ServiceHandle(own, s) + 1, index + 1, s.characteristics, k, p);
  }

  /** Every attribute of a characteristic, by its index in the table, gets its handle from the characteristic's own
      options and start, if its service includes no other. */
  lemma HandleInTable(services: seq<Service>, s: nat, k: nat, p: nat)
    requires Accepted(1, services) && s < |services| && services[s].includes == 0
    requires k < |services[s].characteristics| && p < services[s].characteristics[k].attributes
    ensures HandleByIndex(services, DeclarationIndex(services, s, k) + p)
            == CharacteristicHandle(OwnStart(services, s, k), services[s].characteristics[k], p)
  {
    var svc := services[s];
    var index := ServiceIndex(services, s);
    var offset := 1 + CharacteristicIndex(svc.characteristics, k) + p;
    assert DeclarationIndex(services, s, k) + p == index + offset;
    CharacteristicInside(svc.characteristics, k, p);
    HandleOfService(1, 0, services, s, offset);
    HandleInOwnService(ServiceStart(1, services, s), index, svc, k, p);
  }

  lemma FixedHandleIs(own: nat, c: Characteristic, p: nat)
    requires c.fixed != NoHandle
    ensures CharacteristicHandle(own, c, p) == FixedHandle(c.fixed, p)
  {
  }

  /** A characteristic with fixed handles has them for its declaration and its value, and for its client configuration if
      that is given, and its further attributes follow without a gap. */
  lemma FixedHandlesAreAssigned(services: seq<Service>, s: nat, k: nat, p: nat)
    requires Accepted(1, services) && s < |services| && services[s].includes == 0
    requires k < |services[s].characteristics| && p < services[s].characteristics[k].attributes
    requires services[s].characteristics[k].fixed != NoHandle
    ensures HandleByIndex(services, DeclarationIndex(services, s, k) + p)
            == FixedHandle(services[s].characteristics[k].fixed, p)
  {
    HandleInTable(services, s, k, p);
    FixedHandleIs(OwnStart(services, s, k), services[s].characteristics[k], p);
  }

  lemma {:induction false} CharacteristicInside(cs: seq<Characteristic>, k: nat, p: nat)
    requires k < |cs| && p < cs[k].attributes
    ensures CharacteristicIndex(cs, k) + p < AttributesOf(cs)
    decreases cs
  {
    if k == 0 {
    } else {
      CharacteristicInside(cs[1..], k - 1, p);
    }
  }
}
