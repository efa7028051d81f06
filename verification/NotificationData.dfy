/**
 How a server numbers the characteristics that notify or indicate: the list pipeline from the services to
 attribute indices, queue indices sorted by priority, and the sizes of the queue's levels. Priorities are
 taken as given per characteristic.
 */
module NotificationData {
  import opened GattServer

  /** A characteristic with the service attributes in front of it. */
  datatype Placed = Placed(characteristic: Characteristic, serviceOffset: nat)

  /** A characteristic with the index of its first attribute. */
  datatype Indexed = Indexed(characteristic: Characteristic, first: nat)

  /** An indexed characteristic with its position among those with a configuration descriptor. */
  datatype Numbered = Numbered(characteristic: Characteristic, first: nat, position: nat)

  // ---- The pipeline ----

  /** Only the first characteristic of a service carries the service's attributes; a service without
      characteristics adds nothing. */
  function PlacedOf(chars: seq<Characteristic>, serviceAttributes: nat): seq<Placed>
    decreases chars
  {
    if chars == [] then [] else [Placed(chars[0], serviceAttributes)] + PlacedOf(chars[1..], 0)
  }

  function AllCharacteristics(services: seq<Service>): seq<Placed> {
    if services == [] then []
    else PlacedOf(services[0].characteristics, OwnAttributes(services[0])) + AllCharacteristics(services[1..])
  }

  /** Each characteristic starts behind the last one, or behind its service's attributes; `next` is the
      index behind the last one. */
  function WithIndices(placed: seq<Placed>, next: nat): (r: seq<Indexed>)
    ensures |r| == |placed|
    decreases placed
  {
    if placed == [] then [] else
      var first := next + placed[0].serviceOffset;
      [Indexed(placed[0].characteristic, first)]
      + WithIndices(placed[1..], first + placed[0].characteristic.attributes)
  }

  function OnlyWithCccd(xs: seq<Indexed>): seq<Indexed> {
    if xs == [] then []
    else if xs[0].characteristic.cccd then [xs[0]] + OnlyWithCccd(xs[1..])
    else OnlyWithCccd(xs[1..])
  }

  function WithPositions(xs: seq<Indexed>, from: nat): (r: seq<Numbered>)
    ensures |r| == |xs|
    ensures forall i :: 0 <= i < |r| ==> r[i] == Numbered(xs[i].characteristic, xs[i].first, from + i)
    decreases xs
  {
    if xs == [] then [] else [Numbered(xs[0].characteristic, xs[0].first, from)] + WithPositions(xs[1..], from + 1)
  }

  function StableInsert(e: Numbered, xs: seq<Numbered>): seq<Numbered> {
    if xs == [] then [e]
    else if xs[0].characteristic.priority < e.characteristic.priority then [xs[0]] + StableInsert(e, xs[1..])
    else [e] + xs
  }

  function StableSort(xs: seq<Numbered>): seq<Numbered> {
    if xs == [] then [] else StableInsert(xs[0], StableSort(xs[1..]))
  }

  function Unsorted(services: seq<Service>): seq<Numbered> {
    WithPositions(OnlyWithCccd(WithIndices(AllCharacteristics(services), 0)), 0)
  }

  /** The characteristics in the order of the queue: the index in this list is the queue index. */
  function SortedByPriority(services: seq<Service>): seq<Numbered> {
    StableSort(Unsorted(services))
  }

  // ---- The sort ----

  predicate Before(a: Numbered, b: Numbered) {
    a.characteristic.priority < b.characteristic.priority
    || (a.characteristic.priority == b.characteristic.priority && a.position < b.position)
  }

  /** Strictly ordered by priority, then by position: what a stable sort must deliver. */
  ghost predicate Ordered(xs: seq<Numbered>) {
    forall i, j :: 0 <= i < j < |xs| ==> Before(xs[i], xs[j])
  }

  ghost predicate PositionsIncrease(xs: seq<Numbered>) {
    forall i, j :: 0 <= i < j < |xs| ==> xs[i].position < xs[j].position
  }

  /** What an insertion leaves: the same elements, with the new one among them. */
  lemma {:induction false} InsertKeepsElements(e: Numbered, xs: seq<Numbered>)
    ensures multiset(StableInsert(e, xs)) == multiset{e} + multiset(xs)
    ensures |StableInsert(e, xs)| == 1 + |xs|
    ensures forall x :: x in StableInsert(e, xs) ==> x == e || x in xs
    decreases xs
  {
    if xs == [] {
    } else {
      assert xs == [xs[0]] + xs[1..];
      if xs[0].characteristic.priority < e.characteristic.priority {
        InsertKeepsElements(e, xs[1..]);
      }
    }
  }

  /** A list in order, behind an element that comes before all of them, is in order. */
  lemma OrderedCons(x: Numbered, xs: seq<Numbered>)
    requires Ordered(xs) && forall y :: y in xs ==> Before(x, y)
    ensures Ordered([x] + xs)
  {
    var zs := [x] + xs;
    forall i, j | 0 <= i < j < |zs|
      ensures Before(zs[i], zs[j])
    {
      assert zs[j] == xs[j - 1];
    }
  }

  lemma {:induction false} InsertOrders(e: Numbered, xs: seq<Numbered>)
    requires Ordered(xs) && forall x :: x in xs ==> e.position < x.position
    ensures Ordered(StableInsert(e, xs))
    decreases xs
  {
    if xs == [] {
    } else if xs[0].characteristic.priority < e.characteristic.priority {
      InsertOrders(e, xs[1..]);
      InsertKeepsElements(e, xs[1..]);
      OrderedCons(xs[0], StableInsert(e, xs[1..]));
    } else {
      forall y | y in xs
        ensures Before(e, y)
      {
        var i :| 0 <= i < |xs| && xs[i] == y;
        assert i == 0 || Before(xs[0], xs[i]);
      }
      OrderedCons(e, xs);
    }
  }

  lemma {:induction false} SortOrders(xs: seq<Numbered>)
    requires PositionsIncrease(xs)
    ensures Ordered(StableSort(xs)) && multiset(StableSort(xs)) == multiset(xs)
    decreases xs
  {
    if xs == [] {
    } else {
      SortOrders(xs[1..]);
      assert xs == [xs[0]] + xs[1..];
      forall x | x in StableSort(xs[1..])
        ensures xs[0].position < x.position
      {
        assert x in multiset(StableSort(xs[1..]));
        assert x in xs[1..];
      }
      InsertOrders(xs[0], StableSort(xs[1..]));
      InsertKeepsElements(xs[0], StableSort(xs[1..]));
    }
  }

  lemma SortedLength(xs: seq<Numbered>)
    requires PositionsIncrease(xs)
    ensures |StableSort(xs)| == |xs|
  {
    SortOrders(xs);
    assert |multiset(StableSort(xs))| == |multiset(xs)|;
  }

  // ---- cccd_indices: from queue index to declaration order and back ----

  function CccdIndices(services: seq<Service>): (r: seq<nat>) {
    var sorted := SortedByPriority(services);
    seq(|sorted|, h requires 0 <= h < |sorted| => sorted[h].position)
  }

  /** index_of: the first place of a value in a list, or the length of the list. */
  function IndexOf(k: nat, xs: seq<nat>): (r: nat)
    ensures r <= |xs| && (r < |xs| ==> xs[r] == k)
    ensures forall i :: 0 <= i < r ==> xs[i] != k
  {
    if xs == [] then 0 else if xs[0] == k then 0 else 1 + IndexOf(k, xs[1..])
  }

  /** Each entry of the sorted list is the one whose position it carries. */
  lemma SortedEntry(services: seq<Service>, h: nat)
    requires h < |SortedByPriority(services)|
    ensures var e := SortedByPriority(services)[h]; e.position < |Unsorted(services)| && Unsorted(services)[e.position] == e
  {
    SortOrders(Unsorted(services));
    assert SortedByPriority(services)[h] in multiset(SortedByPriority(services));
    assert SortedByPriority(services)[h] in Unsorted(services);
  }

  lemma CccdIndexOfPosition(services: seq<Service>, h: nat)
    requires h < |SortedByPriority(services)|
    ensures IndexOf(CccdIndices(services)[h], CccdIndices(services)) == h
  {
    var indices := CccdIndices(services);
    var i := IndexOf(indices[h], indices);
    SortOrders(Unsorted(services));
    SortedEntry(services, i);
    SortedEntry(services, h);
    assert i < h ==> Before(SortedByPriority(services)[i], SortedByPriority(services)[h]);
  }

  lemma PositionHasCccdIndex(services: seq<Service>, k: nat)
    requires k < |Unsorted(services)|
    ensures var h := IndexOf(k, CccdIndices(services));
            h < |SortedByPriority(services)| && SortedByPriority(services)[h] == Unsorted(services)[k]
  {
    var unsorted, sorted, indices := Unsorted(services), SortedByPriority(services), CccdIndices(services);
    SortOrders(unsorted);
    assert unsorted[k] in multiset(unsorted);
    assert unsorted[k] in sorted;
    var h :| 0 <= h < |sorted| && sorted[h] == unsorted[k];
    assert indices[h] == k;
    CccdIndexOfPosition(services, h);
  }

  /** Access to the flags of the k-th configuration descriptor (in the order of declaration) and the queue
      index of the same characteristic agree, in both directions. */
  lemma CccdIndicesInverse(services: seq<Service>)
    ensures var sorted, indices, unsorted := SortedByPriority(services), CccdIndices(services), Unsorted(services);
            && |indices| == |sorted| == |unsorted|
            && (forall h :: 0 <= h < |sorted| ==> indices[h] < |unsorted| && sorted[h] == unsorted[indices[h]])
            && (forall h :: 0 <= h < |sorted| ==> IndexOf(indices[h], indices) == h)
            && (forall k :: 0 <= k < |unsorted| ==>
                  IndexOf(k, indices) < |sorted| && sorted[IndexOf(k, indices)] == unsorted[k])
  {
    var sorted, indices, unsorted := SortedByPriority(services), CccdIndices(services), Unsorted(services);
    SortedLength(unsorted);
    forall h | 0 <= h < |sorted|
      ensures indices[h] < |unsorted| && sorted[h] == unsorted[indices[h]] && IndexOf(indices[h], indices) == h
    {
      SortedEntry(services, h);
      CccdIndexOfPosition(services, h);
    }
    forall k | 0 <= k < |unsorted|
      ensures IndexOf(k, indices) < |sorted| && sorted[IndexOf(k, indices)] == unsorted[k]
    {
      PositionHasCccdIndex(services, k);
    }
  }

  // ---- The levels of the queue ----

  /** One more characteristic of priority `p`: the list of counts grows as far as needed. */
  function AddPrio(counts: seq<nat>, p: nat): seq<nat>
    decreases p
  {
    if p == 0 then
      if counts == [] then [1] else [counts[0] + 1] + counts[1..]
    else
      if counts == [] then [0] + AddPrio([], p - 1) else [counts[0]] + AddPrio(counts[1..], p - 1)
  }

  function NumbersOfService(chars: seq<Characteristic>, counts: seq<nat>): seq<nat>
    decreases chars
  {
    if chars == [] then counts
    else NumbersOfService(chars[1..], if chars[0].cccd then AddPrio(counts, chars[0].priority) else counts)
  }

  /** The number of characteristics with a configuration descriptor per priority, folded over the services
      from the last to the first. */
  function Numbers(services: seq<Service>): seq<nat> {
    if services == [] then [] else NumbersOfService(services[0].characteristics, Numbers(services[1..]))
  }

  /** The level that queue index `i` ends up in when every level keeps the indices below its size and hands
      on the others, reduced by its size. */
  function Walk(counts: seq<nat>, i: nat): nat
    decreases counts
  {
    if counts == [] then 0 else if i < counts[0] then 0 else 1 + Walk(counts[1..], i - counts[0])
  }

  function Count(counts: seq<nat>, p: nat): nat {
    if p < |counts| then counts[p] else 0
  }

  function WithPriority(xs: seq<Numbered>, p: nat): nat {
    if xs == [] then 0 else (if xs[0].characteristic.priority == p then 1 else 0) + WithPriority(xs[1..], p)
  }

  lemma {:induction false} AddPrioCounts(counts: seq<nat>, p: nat, q: nat)
    ensures Count(AddPrio(counts, p), q) == Count(counts, q) + (if p == q then 1 else 0)
    decreases p
  {
    if p == 0 {
    } else if q == 0 {
    } else if counts == [] {
      AddPrioCounts([], p - 1, q - 1);
    } else {
      AddPrioCounts(counts[1..], p - 1, q - 1);
    }
  }

  function Tally(chars: seq<Characteristic>, p: nat): nat {
    if chars == [] then 0
    else (if chars[0].cccd && chars[0].priority == p then 1 else 0) + Tally(chars[1..], p)
  }

  function TallyPlaced(placed: seq<Placed>, p: nat): nat {
    if placed == [] then 0
    else (if placed[0].characteristic.cccd && placed[0].characteristic.priority == p then 1 else 0)
         + TallyPlaced(placed[1..], p)
  }

  lemma {:induction false} ServiceCounts(chars: seq<Characteristic>, counts: seq<nat>, p: nat)
    ensures Count(NumbersOfService(chars, counts), p) == Count(counts, p) + Tally(chars, p)
    decreases chars
  {
    if chars == [] {
    } else {
      var next := if chars[0].cccd then AddPrio(counts, chars[0].priority) else counts;
      AddPrioCounts(counts, chars[0].priority, p);
      ServiceCounts(chars[1..], next, p);
    }
  }

  lemma {:induction false} PlacedTally(chars: seq<Characteristic>, offset: nat, p: nat)
    ensures TallyPlaced(PlacedOf(chars, offset), p) == Tally(chars, p)
    decreases chars
  {
    if chars == [] {
    } else {
      PlacedTally(chars[1..], 0, p);
    }
  }

  lemma {:induction false} TallyPlacedConcat(a: seq<Placed>, b: seq<Placed>, p: nat)
    ensures TallyPlaced(a + b, p) == TallyPlaced(a, p) + TallyPlaced(b, p)
    decreases a
  {
    if a == [] {
      assert a + b == b;
    } else {
      assert (a + b)[1..] == a[1..] + b;
      TallyPlacedConcat(a[1..], b, p);
    }
  }

  lemma {:induction false} ServicesTally(services: seq<Service>, p: nat)
    ensures Count(Numbers(services), p) == TallyPlaced(AllCharacteristics(services), p)
  {
    if services == [] {
    } else {
      var s := services[0];
      ServicesTally(services[1..], p);
      ServiceCounts(s.characteristics, Numbers(services[1..]), p);
      PlacedTally(s.characteristics, OwnAttributes(s), p);
      TallyPlacedConcat(PlacedOf(s.characteristics, OwnAttributes(s)), AllCharacteristics(services[1..]), p);
    }
  }

  lemma {:induction false} UnsortedTally(placed: seq<Placed>, next: nat, from: nat, p: nat)
    ensures WithPriority(WithPositions(OnlyWithCccd(WithIndices(placed, next)), from), p) == TallyPlaced(placed, p)
    decreases placed
  {
    if placed == [] {
    } else {
      var c := placed[0].characteristic;
      var first := next + placed[0].serviceOffset;
      UnsortedTally(placed[1..], first + c.attributes, if c.cccd then from + 1 else from, p);
    }
  }

  lemma {:induction false} InsertCounts(e: Numbered, xs: seq<Numbered>, p: nat)
    ensures WithPriority(StableInsert(e, xs), p)
            == WithPriority(xs, p) + (if e.characteristic.priority == p then 1 else 0)
    decreases xs
  {
    if xs == [] {
    } else {
      if xs[0].characteristic.priority < e.characteristic.priority {
        InsertCounts(e, xs[1..], p);
      } else {
        assert ([e] + xs)[1..] == xs;
      }
    }
  }

  lemma {:induction false} SortCounts(xs: seq<Numbered>, p: nat)
    ensures WithPriority(StableSort(xs), p) == WithPriority(xs, p)
    decreases xs
  {
    if xs == [] {
    } else {
      SortCounts(xs[1..], p);
      InsertCounts(xs[0], StableSort(xs[1..]), p);
    }
  }

  /** The sizes of the levels: level `p` has exactly one index for every characteristic with a configuration
      descriptor and priority `p`, although the two lists are computed by different folds. */
  lemma NumbersCountPriorities(services: seq<Service>, p: nat)
    ensures Count(Numbers(services), p) == WithPriority(SortedByPriority(services), p)
  {
    ServicesTally(services, p);
    UnsortedTally(AllCharacteristics(services), 0, 0, p);
    SortCounts(Unsorted(services), p);
  }

  /** Priorities that do not decrease, from `low` on. */
  ghost predicate Ascending(xs: seq<Numbered>, low: nat) {
    && (forall i :: 0 <= i < |xs| ==> low <= xs[i].characteristic.priority)
    && (forall i, j :: 0 <= i < j < |xs| ==> xs[i].characteristic.priority <= xs[j].characteristic.priority)
  }

  lemma {:induction false} NoneOfPriority(xs: seq<Numbered>, p: nat)
    requires Ascending(xs, p + 1)
    ensures WithPriority(xs, p) == 0
    decreases xs
  {
    if xs == [] {
    } else {
      NoneOfPriority(xs[1..], p);
    }
  }

  /** The entries of the lowest priority come first. */
  lemma {:induction false} LowestComeFirst(xs: seq<Numbered>, low: nat)
    requires Ascending(xs, low)
    ensures WithPriority(xs, low) <= |xs|
    ensures forall i :: 0 <= i < |xs| ==> (i < WithPriority(xs, low) <==> xs[i].characteristic.priority == low)
    decreases xs
  {
    if xs == [] {
    } else {
      if xs[0].characteristic.priority == low {
        LowestComeFirst(xs[1..], low);
        assert forall i :: 1 <= i < |xs| ==> xs[i] == xs[1..][i - 1];
      } else {
        NoneOfPriority(xs, low);
      }
    }
  }

  /** Cutting off the entries of one priority at the front changes no other count. */
  lemma {:induction false} OthersStayCounted(xs: seq<Numbered>, n: nat, low: nat, p: nat)
    requires n <= |xs| && low != p
    requires forall i :: 0 <= i < n ==> xs[i].characteristic.priority == low
    ensures WithPriority(xs[n..], p) == WithPriority(xs, p)
    decreases n
  {
    if n == 0 {
      assert xs[0..] == xs;
    } else {
      assert xs[n..] == xs[1..][n - 1..];
      OthersStayCounted(xs[1..], n - 1, low, p);
    }
  }

  lemma {:induction false} EveryPriorityCounts(xs: seq<Numbered>, i: nat)
    requires i < |xs|
    ensures 0 < WithPriority(xs, xs[i].characteristic.priority)
    decreases xs
  {
    if i == 0 {
    } else {
      EveryPriorityCounts(xs[1..], i - 1);
    }
  }

  ghost predicate Counted(counts: seq<nat>, xs: seq<Numbered>, low: nat) {
    forall p: nat :: Count(counts, p) == WithPriority(xs, low + p)
  }

  lemma RestAscends(xs: seq<Numbered>, low: nat)
    requires Ascending(xs, low)
    ensures WithPriority(xs, low) <= |xs| && Ascending(xs[WithPriority(xs, low)..], low + 1)
  {
    LowestComeFirst(xs, low);
  }

  lemma RestCountedAt(counts: seq<nat>, xs: seq<Numbered>, low: nat, n: nat, p: nat)
    requires Counted(counts, xs, low) && counts != [] && n <= |xs|
    requires forall i :: 0 <= i < n ==> xs[i].characteristic.priority == low
    ensures Count(counts[1..], p) == WithPriority(xs[n..], low + 1 + p)
  {
    assert Count(counts, p + 1) == WithPriority(xs, low + (p + 1));
    OthersStayCounted(xs, n, low, low + 1 + p);
  }

  lemma RestCounted(counts: seq<nat>, xs: seq<Numbered>, low: nat, n: nat)
    requires Counted(counts, xs, low) && counts != [] && n <= |xs|
    requires forall i :: 0 <= i < n ==> xs[i].characteristic.priority == low
    ensures Counted(counts[1..], xs[n..], low + 1)
  {
    forall p: nat
      ensures Count(counts[1..], p) == WithPriority(xs[n..], low + 1 + p)
    {
      RestCountedAt(counts, xs, low, n, p);
    }
  }

  lemma FirstCount(counts: seq<nat>, xs: seq<Numbered>, low: nat)
    requires Counted(counts, xs, low) && counts != []
    ensures counts[0] == WithPriority(xs, low)
  {
    assert Count(counts, 0) == WithPriority(xs, low + 0);
  }

  lemma {:induction false} WalkReachesPriority(xs: seq<Numbered>, low: nat, counts: seq<nat>, i: nat)
    requires Ascending(xs, low) && Counted(counts, xs, low) && i < |xs|
    ensures low + Walk(counts, i) == xs[i].characteristic.priority
    decreases counts
  {
    EveryPriorityCounts(xs, i);
    assert 0 < WithPriority(xs, low + (xs[i].characteristic.priority - low))
             == Count(counts, xs[i].characteristic.priority - low);
    if counts == [] {
    } else {
      FirstCount(counts, xs, low);
      LowestComeFirst(xs, low);
      if counts[0] <= i {
        RestCounted(counts, xs, low, counts[0]);
        RestAscends(xs, low);
        WalkReachesPriority(xs[counts[0]..], low + 1, counts[1..], i - counts[0]);
      }
    }
  }

  lemma SortedAscends(services: seq<Service>)
    ensures Ascending(SortedByPriority(services), 0)
  {
    SortOrders(Unsorted(services));
    var xs := SortedByPriority(services);
    forall i, j | 0 <= i < j < |xs|
      ensures xs[i].characteristic.priority <= xs[j].characteristic.priority
    {
      assert Before(xs[i], xs[j]);
    }
  }

  /** For every assignment of priorities: walking the levels' sizes, queue index `i` ends up in the level
      whose number is the priority of the i-th characteristic of the sorted list. */
  lemma QueueLevelIsPriority(services: seq<Service>, i: nat)
    requires i < |SortedByPriority(services)|
    ensures Walk(Numbers(services), i) == SortedByPriority(services)[i].characteristic.priority
  {
    SortedAscends(services);
    forall p: nat
      ensures Count(Numbers(services), p) == WithPriority(SortedByPriority(services), 0 + p)
    {
      NumbersCountPriorities(services, p);
    }
    WalkReachesPriority(SortedByPriority(services), 0, Numbers(services), i);
  }

  // ---- Looking up a characteristic ----

  /** The index of a characteristic's value in the attribute table, and of the characteristic in the queue. */
  datatype NotificationData = NotificationData(valueIndex: nat, index: nat)

  /** The visitor over the sorted list: the index counts down, and the element at which it is zero gives
      the index of the first attribute. A queue index that no characteristic has ends with attribute 1. */
  method FindByIndex(services: seq<Service>, index: nat) returns (r: NotificationData)
    ensures r.index == index
    ensures r.valueIndex == if index < |SortedByPriority(services)| then SortedByPriority(services)[index].first + 1 else 1
  {
    var sorted := SortedByPriority(services);
    var result, countdown := 0, index as int;
    for k := 0 to |sorted|
      invariant countdown == index - k
      invariant result == if index < k then sorted[index].first else 0
    {
      if countdown == 0 {
        result := sorted[k].first;
      }
      countdown := countdown - 1;
    }
    r := NotificationData(result + 1, index);
  }

  /** The first characteristic of that type in the sorted list. */
  function FindType(xs: seq<Numbered>, c: Characteristic): (r: nat)
    ensures r <= |xs| && (r < |xs| ==> xs[r].characteristic == c)
    ensures forall i :: 0 <= i < r ==> xs[i].characteristic != c
  {
    if xs == [] || xs[0].characteristic == c then 0 else 1 + FindType(xs[1..], c)
  }

  /** Look-up by UUID. Only a characteristic that notifies or indicates has an entry. */
  function ByUuid(services: seq<Service>, c: Characteristic): NotificationData
    requires FindType(SortedByPriority(services), c) < |SortedByPriority(services)|
  {
    var h := FindType(SortedByPriority(services), c);
    NotificationData(SortedByPriority(services)[h].first + 1, h)
  }

  /** Queueing by UUID and looking the queue's index up again when the PDU is built meet at the same
      attribute, and it is an attribute of the characteristic asked for. */
  method UuidThenIndex(services: seq<Service>, c: Characteristic) returns (r: NotificationData)
    requires FindType(SortedByPriority(services), c) < |SortedByPriority(services)|
    ensures r == ByUuid(services, c)
    ensures exists k :: 0 <= k < |Unsorted(services)|
              && Unsorted(services)[k].characteristic == c && Unsorted(services)[k].first + 1 == r.valueIndex
              && IndexOf(k, CccdIndices(services)) == r.index
  {
    var data := ByUuid(services, c);
    r := FindByIndex(services, data.index);
    CccdIndicesInverse(services);
    assert Unsorted(services)[CccdIndices(services)[data.index]].characteristic == c;
  }

  // ---- Is the attribute index the true one? ----

  /** Where the characteristics' first attributes are in the server's attribute table: every service,
      with or without characteristics, has its own attributes there. */
  function TrueOfService(chars: seq<Characteristic>, next: nat): (r: seq<Indexed>)
    decreases chars
  {
    if chars == [] then [] else [Indexed(chars[0], next)] + TrueOfService(chars[1..], next + chars[0].attributes)
  }

  function TrueIndices(services: seq<Service>, next: nat): seq<Indexed>
    decreases services
  {
    if services == [] then []
    else
      var first := next + OwnAttributes(services[0]);
      TrueOfService(services[0].characteristics, first)
      + TrueIndices(services[1..], first + AttributesOf(services[0].characteristics))
  }

  /** No service without characteristics stands in front of a characteristic. */
  predicate EmptyServicesLast(services: seq<Service>) {
    if services == [] then true
    else if services[0].characteristics == [] then AllCharacteristics(services) == []
    else EmptyServicesLast(services[1..])
  }

  lemma {:induction false} IndicesConcat(a: seq<Characteristic>, offset: nat, b: seq<Placed>, next: nat)
    requires a != []
    ensures WithIndices(PlacedOf(a, offset) + b, next)
            == TrueOfService(a, next + offset) + WithIndices(b, next + offset + AttributesOf(a))
    decreases a
  {
    var after := next + offset + a[0].attributes;
    var head := [Indexed(a[0], next + offset)];
    var placed := PlacedOf(a, offset) + b;
    assert placed[0] == Placed(a[0], offset) && placed[1..] == PlacedOf(a[1..], 0) + b;
    assert WithIndices(placed, next) == head + WithIndices(PlacedOf(a[1..], 0) + b, after);
    if |a| > 1 {
      IndicesConcat(a[1..], 0, b, after);
      assert head + (TrueOfService(a[1..], after) + WithIndices(b, next + offset + AttributesOf(a)))
             == (head + TrueOfService(a[1..], after)) + WithIndices(b, next + offset + AttributesOf(a));
    } else {
      assert PlacedOf(a[1..], 0) + b == b;
      assert AttributesOf(a) == a[0].attributes && TrueOfService(a, next + offset) == head;
    }
  }

  lemma {:induction false} TrueIndicesLength(chars: seq<Characteristic>, next: nat, offset: nat)
    ensures |TrueOfService(chars, next)| == |PlacedOf(chars, offset)| == |chars|
    decreases chars
  {
    if chars == [] {
    } else {
      TrueIndicesLength(chars[1..], next + chars[0].attributes, 0);
    }
  }

  /** The true indices number the same characteristics. */
  lemma {:induction false} TrueIndicesNumberAll(services: seq<Service>, next: nat)
    ensures |TrueIndices(services, next)| == |AllCharacteristics(services)|
    decreases services
  {
    if services == [] {
    } else {
      var chars := services[0].characteristics;
      var first := next + OwnAttributes(services[0]);
      TrueIndicesLength(chars, first, OwnAttributes(services[0]));
      TrueIndicesNumberAll(services[1..], first + AttributesOf(chars));
    }
  }

  /** The first characteristic of a list of services lies behind its service's own attributes. */
  ghost predicate FirstBehindService(services: seq<Service>, next: nat) {
    AllCharacteristics(services) != [] ==>
      && TrueIndices(services, next) != []
      && next + AllCharacteristics(services)[0].serviceOffset <= TrueIndices(services, next)[0].first
  }

  lemma FirstOfService(services: seq<Service>, next: nat)
    requires services != [] && services[0].characteristics != []
    ensures FirstBehindService(services, next)
  {
  }

  lemma FirstOfRest(services: seq<Service>, next: nat)
    requires services != [] && services[0].characteristics == []
    requires FirstBehindService(services[1..], next + OwnAttributes(services[0]))
    ensures FirstBehindService(services, next)
  {
    assert AllCharacteristics(services) == AllCharacteristics(services[1..]);
    assert TrueIndices(services, next) == TrueIndices(services[1..], next + OwnAttributes(services[0]));
  }

  lemma {:induction false} FirstTrueIndex(services: seq<Service>, next: nat)
    ensures FirstBehindService(services, next)
    decreases services
  {
    if services == [] {
    } else if services[0].characteristics != [] {
      FirstOfService(services, next);
    } else {
      FirstTrueIndex(services[1..], next + OwnAttributes(services[0]));
      FirstOfRest(services, next);
    }
  }

  lemma SamePrefix<T>(a: seq<T>, b: seq<T>, c: seq<T>)
    ensures a + b == a + c <==> b == c
  {
    assert (a + b)[|a|..] == b && (a + c)[|a|..] == c;
  }

  /** A service with characteristics contributes the same indices on both sides. */
  lemma SameServiceIndices(s: Service, rest: seq<Service>, next: nat)
    requires s.characteristics != []
    ensures var behind := next + OwnAttributes(s) + AttributesOf(s.characteristics);
            WithIndices(AllCharacteristics([s] + rest), next) == TrueIndices([s] + rest, next)
            <==> WithIndices(AllCharacteristics(rest), behind) == TrueIndices(rest, behind)
  {
    var first := next + OwnAttributes(s);
    var behind := first + AttributesOf(s.characteristics);
    assert ([s] + rest)[1..] == rest;
    IndicesConcat(s.characteristics, OwnAttributes(s), AllCharacteristics(rest), next);
    SamePrefix(TrueOfService(s.characteristics, first),
               WithIndices(AllCharacteristics(rest), behind), TrueIndices(rest, behind));
  }

  lemma FirstComputedIndex(placed: seq<Placed>, next: nat)
    ensures placed != [] ==> WithIndices(placed, next)[0].first == next + placed[0].serviceOffset
  {
  }

  lemma EmptyServiceAdds(s: Service, rest: seq<Service>, next: nat)
    requires s.characteristics == []
    ensures AllCharacteristics([s] + rest) == AllCharacteristics(rest)
    ensures TrueIndices([s] + rest, next) == TrueIndices(rest, next + OwnAttributes(s))
  {
    assert ([s] + rest)[1..] == rest;
  }

  /** A service without characteristics shifts the true indices of everything behind it, and only those. */
  lemma EmptyServiceIndices(s: Service, rest: seq<Service>, next: nat)
    requires s.characteristics == []
    ensures WithIndices(AllCharacteristics(rest), next) == TrueIndices(rest, next + OwnAttributes(s))
            <==> AllCharacteristics(rest) == []
  {
    var placed := AllCharacteristics(rest);
    TrueIndicesNumberAll(rest, next + OwnAttributes(s));
    if placed != [] {
      FirstTrueIndex(rest, next + OwnAttributes(s));
      FirstComputedIndex(placed, next);
      assert WithIndices(placed, next)[0].first < TrueIndices(rest, next + OwnAttributes(s))[0].first;
    }
  }

  /** The indices computed for all characteristics are those of the attribute table exactly if no
      service without characteristics stands in front of a characteristic. */
  lemma {:induction false} IndicesAreTrueIff(services: seq<Service>, next: nat)
    ensures WithIndices(AllCharacteristics(services), next) == TrueIndices(services, next)
            <==> EmptyServicesLast(services)
    decreases services
  {
    if services == [] {
    } else {
      var s, rest := services[0], services[1..];
      assert services == [s] + rest;
      if s.characteristics != [] {
        SameServiceIndices(s, rest, next);
        IndicesAreTrueIff(rest, next + OwnAttributes(s) + AttributesOf(s.characteristics));
      } else {
        EmptyServiceAdds(s, rest, next);
        EmptyServiceIndices(s, rest, next);
      }
    }
  }

  // ---- The index found is that of the attribute table ----

  lemma {:induction false} TrueOfServiceAt(chars: seq<Characteristic>, next: nat, j: nat)
    requires j < |chars|
    ensures |TrueOfService(chars, next)| == |chars|
    ensures TrueOfService(chars, next)[j] == Indexed(chars[j], next + CharacteristicIndex(chars, j))
    decreases chars
  {
    TrueIndicesLength(chars, next, 0);
    if j == 0 {
    } else {
      TrueOfServiceAt(chars[1..], next + chars[0].attributes, j - 1);
    }
  }

  /** Every true index is that of a characteristic's declaration in the table. */
  lemma {:induction false} TrueIndexIsTable(services: seq<Service>, next: nat, x: Indexed) returns (s: nat, k: nat)
    requires x in TrueIndices(services, next)
    ensures IsCharacteristic(services, s, k)
    ensures x == Indexed(services[s].characteristics[k], next + DeclarationIndex(services, s, k))
    decreases services
  {
    var chars := services[0].characteristics;
    var first := next + OwnAttributes(services[0]);
    if x in TrueOfService(chars, first) {
      var j :| 0 <= j < |TrueOfService(chars, first)| && TrueOfService(chars, first)[j] == x;
      TrueIndicesLength(chars, first, 0);
      TrueOfServiceAt(chars, first, j);
      s, k := 0, j;
    } else {
      s, k := TrueIndexIsTable(services[1..], first + AttributesOf(chars), x);
      s := s + 1;
    }
  }

  lemma {:induction false} OnlyWithCccdMembers(xs: seq<Indexed>, x: Indexed)
    requires x in OnlyWithCccd(xs)
    ensures x in xs
    decreases xs
  {
    if xs == [] || (xs[0].characteristic.cccd && x == xs[0]) {
    } else {
      OnlyWithCccdMembers(xs[1..], x);
    }
  }

  /** With the empty services last, what the queue knows of a characteristic is its place in the attribute table. */
  lemma SortedIsTable(services: seq<Service>, h: nat) returns (s: nat, k: nat)
    requires EmptyServicesLast(services) && h < |SortedByPriority(services)|
    ensures IsCharacteristic(services, s, k)
    ensures SortedByPriority(services)[h].characteristic == services[s].characteristics[k]
    ensures SortedByPriority(services)[h].first == DeclarationIndex(services, s, k)
  {
    var e := SortedByPriority(services)[h];
    var all := WithIndices(AllCharacteristics(services), 0);
    SortedEntry(services, h);
    OnlyWithCccdMembers(all, OnlyWithCccd(all)[e.position]);
    IndicesAreTrueIff(services, 0);
    s, k := TrueIndexIsTable(services, 0, Indexed(e.characteristic, e.first));
  }

  /** The characteristic at a place of the server, with its value at an index of the attribute table. */
  ghost predicate ValueAt(services: seq<Service>, s: nat, k: nat, c: Characteristic, index: nat) {
    && IsCharacteristic(services, s, k) && services[s].characteristics[k] == c
    && DeclarationIndex(services, s, k) + 1 == index
  }

  /** A characteristic that is found by its UUID is found with the index of its value in the attribute table, if no service
      without characteristics stands in front of a characteristic. */
  lemma UuidFindsValue(services: seq<Service>, c: Characteristic)
    requires EmptyServicesLast(services)
    requires FindType(SortedByPriority(services), c) < |SortedByPriority(services)|
    ensures exists s, k :: ValueAt(services, s, k, c, ByUuid(services, c).valueIndex)
  {
    var s, k := SortedIsTable(services, FindType(SortedByPriority(services), c));
    assert ValueAt(services, s, k, c, ByUuid(services, c).valueIndex);
  }

  // ---- Look-up by value ----

  /** Look-up by the address of the bound value numbers the characteristics in the order of declaration: the
      k-th has index k there. */
  method FindByValue(services: seq<Service>, bound: seq<bool>) returns (found: bool, r: NotificationData)
    requires |bound| == |Unsorted(services)|
    ensures found <==> true in bound
    ensures found ==> r.index < |bound| && bound[r.index] && r.valueIndex == Unsorted(services)[r.index].first + 1
    ensures found ==> forall i :: r.index < i < |bound| ==> !bound[i]
  {
    found, r := false, NotificationData(0, 0);
    for k := 0 to |bound|
      invariant found <==> true in bound[..k]
      invariant found ==> r.index < k && bound[r.index] && r.valueIndex == Unsorted(services)[r.index].first + 1
      invariant found ==> forall i :: r.index < i < k ==> !bound[i]
    {
      assert bound[..k + 1] == bound[..k] + [bound[k]];
      if bound[k] {
        found, r := true, NotificationData(Unsorted(services)[k].first + 1, k);
      }
    }
    assert bound[..|bound|] == bound;
  }

  ghost predicate DeclaredByPriority(xs: seq<Numbered>) {
    forall i, j :: 0 <= i < j < |xs| ==> xs[i].characteristic.priority <= xs[j].characteristic.priority
  }

  lemma OrderedIsDeclared(xs: seq<Numbered>)
    requires Ordered(xs)
    ensures DeclaredByPriority(xs)
  {
    forall i, j | 0 <= i < j < |xs|
      ensures xs[i].characteristic.priority <= xs[j].characteristic.priority
    {
      assert Before(xs[i], xs[j]);
    }
  }

  /** Sorting changes nothing exactly if the priorities are already in the order of declaration. */
  lemma {:induction false} SortIsIdentityIff(xs: seq<Numbered>)
    requires PositionsIncrease(xs)
    ensures StableSort(xs) == xs <==> DeclaredByPriority(xs)
    decreases xs
  {
    if xs == [] {
    } else {
      SortOrders(xs);
      OrderedIsDeclared(StableSort(xs));
      if DeclaredByPriority(xs) {
        SortIsIdentityIff(xs[1..]);
        assert xs == [xs[0]] + xs[1..];
      }
    }
  }

  /** The index found by value is the queue index of the same characteristic, for all of them, exactly if the
      characteristics were declared in the order of their priorities. */
  lemma ValueIndexIsQueueIndexIff(services: seq<Service>)
    ensures (forall k :: 0 <= k < |Unsorted(services)| ==> IndexOf(k, CccdIndices(services)) == k)
            <==> DeclaredByPriority(Unsorted(services))
  {
    SortIsIdentityIff(Unsorted(services));
    SameIndexIff(services);
  }

  lemma SameIndexAt(services: seq<Service>, k: nat)
    requires k < |Unsorted(services)|
    ensures |SortedByPriority(services)| == |Unsorted(services)|
    ensures IndexOf(k, CccdIndices(services)) == k <==> SortedByPriority(services)[k] == Unsorted(services)[k]
  {
    CccdIndicesInverse(services);
    assert Unsorted(services)[k].position == k;
    assert IndexOf(CccdIndices(services)[k], CccdIndices(services)) == k;
  }

  lemma SameIndexIff(services: seq<Service>)
    ensures (forall k :: 0 <= k < |Unsorted(services)| ==> IndexOf(k, CccdIndices(services)) == k)
            <==> SortedByPriority(services) == Unsorted(services)
  {
    SortedLength(Unsorted(services));
    if SortedByPriority(services) == Unsorted(services) {
      forall k | 0 <= k < |Unsorted(services)|
        ensures IndexOf(k, CccdIndices(services)) == k
      {
        SameIndexAt(services, k);
      }
    } else {
      var k :| 0 <= k < |Unsorted(services)| && SortedByPriority(services)[k] != Unsorted(services)[k];
      SameIndexAt(services, k);
    }
  }
}
