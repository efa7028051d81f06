/**
 Find Information: which attributes one request lists, and what a client discovers that repeats it. The
 table is the list of handles, which increase strictly, with the size of every attribute's UUID.
 */
module FindInformation {
  import opened AttPdu
  import opened AttributeHandles
  import opened Bytes

  const HEADER := 2
  const LAST_HANDLE := 0xffff

  /** Whether each attribute's UUID has 16 bits; otherwise it has 128. */
  datatype Table = Table(handles: seq<nat>, short: seq<bool>) {
    ghost predicate Valid() {
      && |handles| == |short| < 0x10000
      && Increasing(handles, 1, LAST_HANDLE + 1)
    }
  }

  function TupleSize(short: bool): nat {
    if short then 2 + 2 else 2 + 16
  }

  function FirstIndex(t: Table, handle: nat): nat {
    var r := LowerBound(t.handles, handle);
    if r < |t.handles| then r else INVALID_INDEX
  }

  /** The index type wraps: one below 0 is the invalid index. */
  function Decremented(index: nat): nat {
    if index == 0 then INVALID_INDEX else index - 1
  }

  /** The last index to look at. The invalid index means that there is no bound. */
  function EndingIndex(t: Table, to: nat): nat {
    var end := FirstIndex(t, to);
    if end != INVALID_INDEX && end < |t.handles| && t.handles[end] != to then Decremented(end) else end
  }

  /** The loop: attributes of one UUID size, as long as a tuple fits. */
  function Collect(t: Table, start: nat, end: nat, short: bool, room: nat): seq<nat>
    requires |t.short| == |t.handles|
    decreases |t.handles| - start
  {
    if (start <= end || end == INVALID_INDEX) && start < |t.handles| && room >= TupleSize(short) then
      if t.short[start] == short then [start] + Collect(t, start + 1, end, short, room - TupleSize(short))
      else Collect(t, start + 1, end, short, room)
    else []
  }

  datatype Answer = NotFound | Found(short: bool, indices: seq<nat>)

  /** The answer to a well-formed request, in at most `outSize` bytes. */
  function Find(t: Table, from: nat, to: nat, outSize: nat): Answer
    requires |t.short| == |t.handles| && outSize >= HEADER
  {
    var start := FirstIndex(t, from);
    if start == INVALID_INDEX || start >= |t.handles| then NotFound
    else Found(t.short[start], Collect(t, start, EndingIndex(t, to), t.short[start], outSize - HEADER))
  }

  // ---- What a request should list ----

  /** The attributes from index `i` on with a handle in the range and a UUID of that size, in ascending order. */
  function InRange(t: Table, i: nat, from: nat, to: nat, short: bool): seq<nat>
    requires |t.short| == |t.handles|
    decreases |t.handles| - i
  {
    if i >= |t.handles| then []
    else (if from <= t.handles[i] <= to && t.short[i] == short then [i] else []) + InRange(t, i + 1, from, to, short)
  }

  function AtMost(xs: seq<nat>, n: nat): seq<nat> {
    if |xs| <= n then xs else xs[..n]
  }

  /** How many tuples fit. */
  function Capacity(room: nat, short: bool): nat {
    if short then room / 4 else room / 18
  }

  lemma AtMostCons(x: nat, xs: seq<nat>, n: nat)
    ensures AtMost([x] + xs, n + 1) == [x] + AtMost(xs, n)
  {
  }

  lemma CapacityStep(room: nat, short: bool)
    ensures Capacity(room, short) == 0 <==> room < TupleSize(short)
    ensures room >= TupleSize(short) ==> Capacity(room, short) == Capacity(room - TupleSize(short), short) + 1
  {
  }

  /** The bound of the loop is that of the range. */
  ghost predicate BoundIsRange(t: Table, start: nat, end: nat, from: nat, to: nat) {
    forall i :: start <= i < |t.handles| ==> (i <= end || end == INVALID_INDEX <==> from <= t.handles[i] <= to)
  }

  lemma CollectOne(t: Table, start: nat, end: nat, from: nat, to: nat, short: bool, room: nat)
    requires t.Valid() && start < |t.handles| && from <= t.handles[start] <= to && room >= TupleSize(short)
    requires start <= end || end == INVALID_INDEX
    requires var rest := if t.short[start] == short then room - TupleSize(short) else room;
             Collect(t, start + 1, end, short, rest) == AtMost(InRange(t, start + 1, from, to, short), Capacity(rest, short))
    ensures Collect(t, start, end, short, room) == AtMost(InRange(t, start, from, to, short), Capacity(room, short))
  {
    CapacityStep(room, short);
    if t.short[start] == short {
      AtMostCons(start, InRange(t, start + 1, from, to, short), Capacity(room - TupleSize(short), short));
    }
  }

  /** The loop lists the longest fitting prefix of the attributes of that size, as far as the bound is that of
      the range. */
  lemma {:induction false} CollectIs(t: Table, start: nat, end: nat, from: nat, to: nat, short: bool, room: nat)
    requires t.Valid() && BoundIsRange(t, start, end, from, to)
    ensures Collect(t, start, end, short, room) == AtMost(InRange(t, start, from, to, short), Capacity(room, short))
    decreases |t.handles| - start
  {
    if start >= |t.handles| {
    } else if !(from <= t.handles[start] <= to) {
      NoneInRange(t, start, from, to, short);
    } else if room < TupleSize(short) {
      CapacityStep(room, short);
    } else {
      CollectIs(t, start + 1, end, from, to, short, if t.short[start] == short then room - TupleSize(short) else room);
      CollectOne(t, start, end, from, to, short, room);
    }
  }

  lemma {:induction false} NoneInRange(t: Table, start: nat, from: nat, to: nat, short: bool)
    requires t.Valid()
    requires forall i :: start <= i < |t.handles| ==> !(from <= t.handles[i] <= to)
    ensures InRange(t, start, from, to, short) == []
    decreases |t.handles| - start
  {
    if start >= |t.handles| {
    } else {
      NoneInRange(t, start + 1, from, to, short);
    }
  }

  /** Attributes in front of the range do not count. */
  lemma {:induction false} SkipBefore(t: Table, i: nat, start: nat, from: nat, to: nat, short: bool)
    requires t.Valid() && i <= start <= |t.handles|
    requires forall k :: i <= k < start ==> t.handles[k] < from
    ensures InRange(t, i, from, to, short) == InRange(t, start, from, to, short)
    decreases start - i
  {
    if i >= start {
    } else {
      SkipBefore(t, i + 1, start, from, to, short);
    }
  }

  /** Some attribute has a handle in the range. */
  ghost predicate Inhabited(t: Table, from: nat, to: nat) {
    exists i :: 0 <= i < |t.handles| && from <= t.handles[i] <= to
  }

  /** The bound found for the end of the range is that of the range, as long as the table does not start behind
      it; then the index wraps and there is no bound at all. */
  lemma EndingIndexIs(t: Table, to: nat)
    requires t.Valid() && t.handles != []
    ensures if t.handles[0] <= to
            then forall i :: 0 <= i < |t.handles| ==>
                   (i <= EndingIndex(t, to) || EndingIndex(t, to) == INVALID_INDEX <==> t.handles[i] <= to)
            else EndingIndex(t, to) == INVALID_INDEX
  {
    LowerBoundSplits(t.handles, to);
  }

  lemma FirstIndexIs(t: Table, from: nat)
    requires t.Valid()
    ensures var start := LowerBound(t.handles, from);
            && (forall k :: 0 <= k < start ==> t.handles[k] < from)
            && (forall k :: start <= k < |t.handles| ==> from <= t.handles[k])
  {
    LowerBoundSplits(t.handles, from);
  }

  lemma FirstInRange(t: Table, from: nat, to: nat)
    requires t.Valid() && Inhabited(t, from, to)
    ensures var first := LowerBound(t.handles, from); first < |t.handles| && from <= t.handles[first] <= to
    ensures t.handles[0] <= to
  {
    FirstIndexIs(t, from);
    var i :| 0 <= i < |t.handles| && from <= t.handles[i] <= to;
    assert t.handles[0] <= t.handles[i];
  }

  lemma BoundOfRange(t: Table, from: nat, to: nat)
    requires t.Valid() && t.handles != [] && t.handles[0] <= to
    ensures BoundIsRange(t, LowerBound(t.handles, from), EndingIndex(t, to), from, to)
  {
    FirstIndexIs(t, from);
    EndingIndexIs(t, to);
  }

  lemma StartsWithFirst(t: Table, first: nat, from: nat, to: nat, n: nat)
    requires |t.short| == |t.handles| && first < |t.handles| && from <= t.handles[first] <= to && n > 0
    ensures var xs := AtMost(InRange(t, first, from, to, t.short[first]), n); xs != [] && xs[0] == first
  {
  }

  lemma FindFromFirst(t: Table, from: nat, to: nat, outSize: nat)
    requires t.Valid() && outSize >= HEADER && t.handles != [] && t.handles[0] <= to
    requires LowerBound(t.handles, from) < |t.handles|
    ensures var first := LowerBound(t.handles, from);
            var short := t.short[first];
            Find(t, from, to, outSize) ==
            Found(short, AtMost(InRange(t, first, from, to, short), Capacity(outSize - HEADER, short)))
  {
    var first := LowerBound(t.handles, from);
    BoundOfRange(t, from, to);
    CollectIs(t, first, EndingIndex(t, to), from, to, t.short[first], outSize - HEADER);
  }

  /** One request whose range holds an attribute lists exactly the attributes of the range that have the UUID size
      of the first of them, cut to the longest prefix that fits, and that is not empty. */
  lemma RequestListsRange(t: Table, from: nat, to: nat, outSize: nat)
    requires t.Valid() && 1 <= from <= to && outSize >= DEFAULT_MTU
    requires Inhabited(t, from, to)
    ensures var first := LowerBound(t.handles, from);
            && first < |t.handles| && from <= t.handles[first] <= to
            && var short := t.short[first];
               var listed := AtMost(InRange(t, 0, from, to, short), Capacity(outSize - HEADER, short));
               Find(t, from, to, outSize) == Found(short, listed) && listed != [] && listed[0] == first
  {
    var first := LowerBound(t.handles, from);
    FirstInRange(t, from, to);
    FindFromFirst(t, from, to, outSize);
    StartsWithFirst(t, first, from, to, Capacity(outSize - HEADER, t.short[first]));
    FirstIndexIs(t, from);
    SkipBefore(t, 0, first, from, to, t.short[first]);
  }

  /** Without an attribute in the range: the error only if none follows either. If the table starts behind the
      range, everything of the first attribute's UUID size is listed; otherwise the response lists nothing. */
  lemma RequestOfEmptyRange(t: Table, from: nat, to: nat, outSize: nat)
    requires t.Valid() && 1 <= from <= to <= LAST_HANDLE && outSize >= DEFAULT_MTU
    requires !Inhabited(t, from, to)
    ensures var first := LowerBound(t.handles, from);
            Find(t, from, to, outSize)
            == if first == |t.handles| then NotFound
               else if to < t.handles[0] then
                 Found(t.short[0], AtMost(InRange(t, 0, 1, LAST_HANDLE, t.short[0]), Capacity(outSize - HEADER, t.short[0])))
               else Found(t.short[first], [])
  {
    var first := LowerBound(t.handles, from);
    FirstIndexIs(t, from);
    if first < |t.handles| {
      EndingIndexIs(t, to);
      if to < t.handles[0] {
        CollectIs(t, 0, EndingIndex(t, to), 1, LAST_HANDLE, t.short[0], outSize - HEADER);
      } else {
        assert !(from <= t.handles[first] <= to);
      }
    }
  }

  lemma {:induction false} CollectBounds(t: Table, start: nat, end: nat, short: bool, room: nat)
    requires |t.short| == |t.handles|
    ensures forall i :: i in Collect(t, start, end, short, room) ==>
              start <= i < |t.handles| && (i <= end || end == INVALID_INDEX) && t.short[i] == short
    decreases |t.handles| - start
  {
    if (start <= end || end == INVALID_INDEX) && start < |t.handles| && room >= TupleSize(short) {
      if t.short[start] == short {
        CollectBounds(t, start + 1, end, short, room - TupleSize(short));
      } else {
        CollectBounds(t, start + 1, end, short, room);
      }
    }
  }

  /** Attributes outside of the range are listed exactly if the whole table lies behind the range. */
  lemma ListsOutOfRangeIff(t: Table, from: nat, to: nat, outSize: nat)
    requires t.Valid() && 1 <= from <= to && outSize >= DEFAULT_MTU
    ensures (Find(t, from, to, outSize).Found?
             && exists i :: i in Find(t, from, to, outSize).indices && !(i < |t.handles| && from <= t.handles[i] <= to))
            <==> t.handles != [] && to < t.handles[0]
  {
    var start := LowerBound(t.handles, from);
    FirstIndexIs(t, from);
    if start < |t.handles| {
      EndingIndexIs(t, to);
      CollectBounds(t, start, EndingIndex(t, to), t.short[start], outSize - HEADER);
      if to < t.handles[0] {
        assert start == 0;
        assert 0 in Collect(t, 0, EndingIndex(t, to), t.short[0], outSize - HEADER);
      }
    }
  }

  // ---- Discovery ----

  /** The indices of all attributes from `i` on that have that UUID size. */
  function OfSize(t: Table, i: nat, short: bool): seq<nat>
    requires |t.short| == |t.handles|
  {
    InRange(t, i, 1, LAST_HANDLE, short)
  }

  /** What one request up to the last handle lists when the first attribute is the one at `i`. */
  function Batch(t: Table, i: nat, outSize: nat): seq<nat>
    requires |t.short| == |t.handles| && i < |t.handles| && outSize >= DEFAULT_MTU
  {
    AtMost(OfSize(t, i, t.short[i]), Capacity(outSize - HEADER, t.short[i]))
  }

  lemma {:induction false} OfSizeMembers(t: Table, i: nat, short: bool)
    requires t.Valid() && i <= |t.handles|
    ensures forall k :: k in OfSize(t, i, short) <==> i <= k < |t.handles| && t.short[k] == short
    ensures |OfSize(t, i, short)| <= |t.handles| - i
    decreases |t.handles| - i
  {
    if i >= |t.handles| {
    } else {
      OfSizeMembers(t, i + 1, short);
    }
  }

  lemma BatchMembers(t: Table, i: nat, outSize: nat)
    requires t.Valid() && i < |t.handles| && outSize >= DEFAULT_MTU
    ensures var batch := Batch(t, i, outSize);
            && batch != []
            && (forall k :: k in batch ==> i <= k < |t.handles|)
            && i <= batch[|batch| - 1] < |t.handles|
  {
    var all, batch := OfSize(t, i, t.short[i]), Batch(t, i, outSize);
    OfSizeMembers(t, i, t.short[i]);
    assert i in all;
    forall x | 0 <= x < |batch|
      ensures i <= batch[x] < |t.handles|
    {
      assert batch[x] == all[x] && all[x] in all;
    }
  }

  lemma BatchBounds(t: Table, i: nat, outSize: nat)
    requires t.Valid() && i < |t.handles| && outSize >= DEFAULT_MTU
    ensures var batch := Batch(t, i, outSize); batch != [] && i <= batch[|batch| - 1] < |t.handles|
  {
    BatchMembers(t, i, outSize);
  }

  /** A client that starts at handle `from` and asks again from one behind the last handle it was given, until
      it is told that there is nothing more. */
  function Discover(t: Table, from: nat, outSize: nat): seq<nat>
    requires t.Valid() && outSize >= DEFAULT_MTU && from >= 1
    decreases LAST_HANDLE + 1 - from
  {
    if from > LAST_HANDLE then []
    else match Find(t, from, LAST_HANDLE, outSize)
      case NotFound => []
      case Found(_, indices) =>
        BatchIs(t, from, outSize);
        indices + Discover(t, t.handles[indices[|indices| - 1]] + 1, outSize)
  }

  lemma BatchIs(t: Table, from: nat, outSize: nat)
    requires t.Valid() && outSize >= DEFAULT_MTU && 1 <= from <= LAST_HANDLE
    ensures var first := LowerBound(t.handles, from);
            if first < |t.handles|
            then var batch := Batch(t, first, outSize);
                 && Find(t, from, LAST_HANDLE, outSize) == Found(t.short[first], batch)
                 && batch != []
                 && first <= batch[|batch| - 1] < |t.handles|
                 && t.handles[batch[|batch| - 1]] >= from
            else Find(t, from, LAST_HANDLE, outSize) == NotFound
  {
    var first := LowerBound(t.handles, from);
    FirstIndexIs(t, from);
    if first < |t.handles| {
      EndingIndexIs(t, LAST_HANDLE);
      CollectIs(t, first, EndingIndex(t, LAST_HANDLE), 1, LAST_HANDLE, t.short[first], outSize - HEADER);
      BatchBounds(t, first, outSize);
    }
  }

  /** Where the request behind the one that starts at `i` starts. */
  function NextStart(t: Table, i: nat, outSize: nat): (r: nat)
    requires t.Valid() && i < |t.handles| && outSize >= DEFAULT_MTU
    ensures i < r <= |t.handles|
  {
    BatchBounds(t, i, outSize);
    Batch(t, i, outSize)[|Batch(t, i, outSize)| - 1] + 1
  }

  /** The same in terms of indices. */
  function DiscoverAt(t: Table, i: nat, outSize: nat): seq<nat>
    requires t.Valid() && outSize >= DEFAULT_MTU
    decreases |t.handles| - i
  {
    if i >= |t.handles| then [] else Batch(t, i, outSize) + DiscoverAt(t, NextStart(t, i, outSize), outSize)
  }

  lemma NextLowerBound(t: Table, last: nat)
    requires t.Valid() && last < |t.handles|
    ensures LowerBound(t.handles, t.handles[last] + 1) == last + 1
  {
    LowerBoundIs(t.handles, t.handles[last] + 1, last + 1);
  }

  lemma DiscoverStep(t: Table, from: nat, outSize: nat) returns (next: nat)
    requires t.Valid() && outSize >= DEFAULT_MTU && 1 <= from <= LAST_HANDLE
    requires LowerBound(t.handles, from) < |t.handles|
    ensures from < next
    ensures var batch := Batch(t, LowerBound(t.handles, from), outSize);
            && batch != []
            && batch[|batch| - 1] + 1 == LowerBound(t.handles, next)
            && Discover(t, from, outSize) == batch + Discover(t, next, outSize)
  {
    var first := LowerBound(t.handles, from);
    BatchIs(t, from, outSize);
    var batch := Batch(t, first, outSize);
    next := t.handles[batch[|batch| - 1]] + 1;
    NextLowerBound(t, batch[|batch| - 1]);
  }

  lemma {:induction false} DiscoverIs(t: Table, from: nat, outSize: nat)
    requires t.Valid() && outSize >= DEFAULT_MTU && from >= 1
    ensures Discover(t, from, outSize) == DiscoverAt(t, LowerBound(t.handles, from), outSize)
    decreases LAST_HANDLE + 1 - from
  {
    FirstIndexIs(t, from);
    if from > LAST_HANDLE {
    } else {
      if LowerBound(t.handles, from) < |t.handles| {
        var next := DiscoverStep(t, from, outSize);
        DiscoverIs(t, next, outSize);
      } else {
        BatchIs(t, from, outSize);
      }
    }
  }

  // ---- When discovery is complete ----

  function Upto(i: nat, n: nat): (r: seq<nat>)
    ensures |r| == if i <= n then n - i else 0
    ensures forall k :: 0 <= k < |r| ==> r[k] == i + k
    decreases n - i
  {
    if i >= n then [] else [i] + Upto(i + 1, n)
  }

  lemma UptoConcat(i: nat, m: nat, n: nat)
    requires i <= m <= n
    ensures Upto(i, m) + Upto(m, n) == Upto(i, n)
  {
  }

  /** How many attributes with the same UUID size follow each other from `i` on, up to before `n`. */
  function RunTo(t: Table, i: nat, n: nat): (r: nat)
    requires |t.short| == |t.handles| && i < n <= |t.handles|
    requires forall k :: i <= k < n ==> t.short[k] == t.short[i]
    ensures n <= r <= |t.handles|
    ensures forall k :: i <= k < r ==> t.short[k] == t.short[i]
    ensures r < |t.handles| ==> t.short[r] != t.short[i]
    decreases |t.handles| - n
  {
    if n < |t.handles| && t.short[n] == t.short[i] then RunTo(t, i, n + 1) else n
  }

  function RunEnd(t: Table, i: nat): (r: nat)
    requires |t.short| == |t.handles| && i < |t.handles|
    ensures i < r <= |t.handles|
    ensures forall k :: i <= k < r ==> t.short[k] == t.short[i]
    ensures r < |t.handles| ==> t.short[r] != t.short[i]
  {
    RunTo(t, i, i + 1)
  }

  ghost predicate NoneBehind(t: Table, i: nat, short: bool)
    requires |t.short| == |t.handles|
  {
    forall k :: i <= k < |t.handles| ==> t.short[k] != short
  }

  /** A request that starts at `i` lists a stretch without a gap: the response is full before the UUID size changes, or
      that size does not come back. */
  ghost predicate NoGapAt(t: Table, i: nat, outSize: nat)
    requires |t.short| == |t.handles| && i < |t.handles| && outSize >= DEFAULT_MTU
  {
    Capacity(outSize - HEADER, t.short[i]) <= RunEnd(t, i) - i || NoneBehind(t, RunEnd(t, i), t.short[i])
  }

  /** Where the stretch ends. */
  function StretchEnd(t: Table, i: nat, outSize: nat): (r: nat)
    requires |t.short| == |t.handles| && i < |t.handles| && outSize >= DEFAULT_MTU
    ensures i < r <= |t.handles|
  {
    var c := Capacity(outSize - HEADER, t.short[i]);
    if RunEnd(t, i) - i <= c then RunEnd(t, i) else i + c
  }

  /** No request of the discovery from `i` on leaves a gap. */
  ghost predicate Gapless(t: Table, i: nat, outSize: nat)
    requires |t.short| == |t.handles| && outSize >= DEFAULT_MTU
    decreases |t.handles| - i
  {
    i >= |t.handles| || (NoGapAt(t, i, outSize) && Gapless(t, StretchEnd(t, i, outSize), outSize))
  }

  lemma {:induction false} NoneOfSize(t: Table, i: nat, short: bool)
    requires t.Valid() && i <= |t.handles| && NoneBehind(t, i, short)
    ensures OfSize(t, i, short) == []
    decreases |t.handles| - i
  {
    if i == |t.handles| {
    } else {
      NoneOfSize(t, i + 1, short);
    }
  }

  /** The attributes of one size start with those that follow without a gap. */
  lemma {:induction false} RunComesFirst(t: Table, i: nat, n: nat, short: bool)
    requires t.Valid() && i <= n <= |t.handles|
    requires forall k :: i <= k < n ==> t.short[k] == short
    ensures OfSize(t, i, short) == Upto(i, n) + OfSize(t, n, short)
    decreases n - i
  {
    if i == n {
    } else {
      RunComesFirst(t, i + 1, n, short);
      assert Upto(i, n) == [i] + Upto(i + 1, n);
    }
  }

  lemma AtMostOfConcat(a: seq<nat>, b: seq<nat>, n: nat)
    ensures n <= |a| ==> AtMost(a + b, n) == a[..n]
    ensures |a| < n && b == [] ==> AtMost(a + b, n) == a
    ensures |a| < n && b != [] ==> |AtMost(a + b, n)| > |a| && AtMost(a + b, n)[|a|] == b[0]
  {
  }

  lemma UptoPrefix(i: nat, n: nat, c: nat)
    requires i + c <= n
    ensures Upto(i, n)[..c] == Upto(i, i + c)
  {
  }

  /** Without a gap, a batch is the stretch; with one, it skips the attribute behind the run. */
  lemma BatchIsStretch(t: Table, i: nat, outSize: nat)
    requires t.Valid() && i < |t.handles| && outSize >= DEFAULT_MTU && NoGapAt(t, i, outSize)
    ensures Batch(t, i, outSize) == Upto(i, StretchEnd(t, i, outSize))
  {
    var short, n := t.short[i], RunEnd(t, i);
    var c := Capacity(outSize - HEADER, short);
    RunComesFirst(t, i, n, short);
    AtMostOfConcat(Upto(i, n), OfSize(t, n, short), c);
    if c <= n - i {
      UptoPrefix(i, n, c);
    } else {
      NoneOfSize(t, n, short);
    }
  }

  lemma BatchSkips(t: Table, i: nat, outSize: nat)
    requires t.Valid() && i < |t.handles| && outSize >= DEFAULT_MTU && !NoGapAt(t, i, outSize)
    ensures var r := RunEnd(t, i) - i; |Batch(t, i, outSize)| > r && Batch(t, i, outSize)[r] != i + r
  {
    var short, n := t.short[i], RunEnd(t, i);
    var rest := OfSize(t, n, short);
    RunComesFirst(t, i, n, short);
    OfSizeMembers(t, n, short);
    var k :| n <= k < |t.handles| && t.short[k] == short;
    assert k in rest && rest[0] in rest;
    AtMostOfConcat(Upto(i, n), rest, Capacity(outSize - HEADER, short));
  }

  lemma SameTail(i: nat, m: nat, n: nat, rest: seq<nat>)
    requires i <= m <= n
    ensures Upto(i, m) + rest == Upto(i, n) <==> rest == Upto(m, n)
  {
    UptoConcat(i, m, n);
    assert (Upto(i, m) + rest)[m - i..] == rest && (Upto(i, m) + Upto(m, n))[m - i..] == Upto(m, n);
  }

  lemma StretchIff(t: Table, i: nat, outSize: nat)
    requires t.Valid() && outSize >= DEFAULT_MTU && i < |t.handles| && NoGapAt(t, i, outSize)
    ensures DiscoverAt(t, i, outSize) == Upto(i, |t.handles|)
            <==> DiscoverAt(t, StretchEnd(t, i, outSize), outSize) == Upto(StretchEnd(t, i, outSize), |t.handles|)
  {
    var m := StretchEnd(t, i, outSize);
    BatchIsStretch(t, i, outSize);
    assert NextStart(t, i, outSize) == m;
    SameTail(i, m, |t.handles|, DiscoverAt(t, m, outSize));
  }

  lemma GapIsMissed(t: Table, i: nat, outSize: nat)
    requires t.Valid() && outSize >= DEFAULT_MTU && i < |t.handles| && !NoGapAt(t, i, outSize)
    ensures DiscoverAt(t, i, outSize) != Upto(i, |t.handles|)
  {
    var next := NextStart(t, i, outSize);
    BatchSkips(t, i, outSize);
    SkipIsMissed(Batch(t, i, outSize), DiscoverAt(t, next, outSize), i, |t.handles|, RunEnd(t, i) - i);
  }

  lemma {:induction false} GaplessIff(t: Table, i: nat, outSize: nat)
    requires t.Valid() && outSize >= DEFAULT_MTU && i <= |t.handles|
    ensures DiscoverAt(t, i, outSize) == Upto(i, |t.handles|) <==> Gapless(t, i, outSize)
    decreases |t.handles| - i
  {
    if i == |t.handles| {
    } else if NoGapAt(t, i, outSize) {
      StretchIff(t, i, outSize);
      GaplessIff(t, StretchEnd(t, i, outSize), outSize);
    } else {
      GapIsMissed(t, i, outSize);
    }
  }

  lemma SkipIsMissed(batch: seq<nat>, rest: seq<nat>, i: nat, n: nat, r: nat)
    requires r < |batch| && batch[r] != i + r
    ensures batch + rest != Upto(i, n)
  {
    assert (batch + rest)[r] == batch[r];
  }

  /** Discovery with responses of a given size lists every attribute once and in ascending order exactly if every request
      of it lists a stretch without a gap: the response is full before the UUID size changes, or the size does not come
      back. */
  lemma DiscoveryIsCompleteIff(t: Table, outSize: nat)
    requires t.Valid() && outSize >= DEFAULT_MTU
    ensures Discover(t, 1, outSize) == Upto(0, |t.handles|) <==> Gapless(t, 0, outSize)
  {
    LowerBoundIs(t.handles, 1, 0);
    DiscoverIs(t, 1, outSize);
    GaplessIff(t, 0, outSize);
  }

  // ---- ... for every response size ----

  /** The UUID size changes at most once along the table. */
  ghost predicate OneChange(t: Table) {
    forall i, j, k :: 0 <= i < j < k < |t.short| ==> t.short[i] == t.short[j] || t.short[j] == t.short[k]
  }

  lemma {:induction false} OneChangeIsGapless(t: Table, i: nat, outSize: nat)
    requires t.Valid() && OneChange(t) && outSize >= DEFAULT_MTU && i <= |t.handles|
    ensures Gapless(t, i, outSize)
    decreases |t.handles| - i
  {
    if i == |t.handles| {
    } else {
      var n := RunEnd(t, i);
      forall k | n <= k < |t.handles| ensures t.short[k] != t.short[i] {
        assert k > n ==> t.short[i] == t.short[n] || t.short[n] == t.short[k];
      }
      OneChangeIsGapless(t, StretchEnd(t, i, outSize), outSize);
    }
  }

  /** A response that holds the whole table leaves a gap if the size changes twice. */
  lemma LargeResponseHasGap(t: Table, outSize: nat)
    requires t.Valid() && !OneChange(t) && outSize >= HEADER + 18 * |t.handles| + DEFAULT_MTU
    ensures !Gapless(t, 0, outSize)
  {
    var i, j, k :| 0 <= i < j < k < |t.short| && t.short[i] != t.short[j] && t.short[j] != t.short[k];
    var first, n := t.short[0], RunEnd(t, 0);
    var later := if t.short[j] == first then j else k;
    assert t.short[later] == first && later >= n;
    assert Capacity(outSize - HEADER, first) > |t.handles|;
  }

  /** Discovery is complete for every response size exactly if the UUID size changes at most once along the table. */
  lemma DiscoveryIsAlwaysCompleteIff(t: Table)
    requires t.Valid()
    ensures (forall outSize :: outSize >= DEFAULT_MTU ==> Discover(t, 1, outSize) == Upto(0, |t.handles|))
            <==> OneChange(t)
  {
    forall outSize | outSize >= DEFAULT_MTU
      ensures Discover(t, 1, outSize) == Upto(0, |t.handles|) <==> Gapless(t, 0, outSize)
    {
      DiscoveryIsCompleteIff(t, outSize);
    }
    if OneChange(t) {
      forall outSize | outSize >= DEFAULT_MTU ensures Gapless(t, 0, outSize) {
        OneChangeIsGapless(t, 0, outSize);
      }
    } else {
      var outSize := HEADER + 18 * |t.handles| + DEFAULT_MTU;
      LargeResponseHasGap(t, outSize);
      assert Discover(t, 1, outSize) != Upto(0, |t.handles|);
    }
  }

  // ---- A table that is not discovered ----

  function MixedTable(): Table {
    Table([1, 2, 3], [true, false, true])
  }

  /** With the default MTU, a client never sees an attribute with a UUID of 128 bits between two of 16 bits. */
  lemma MixedTableIsNotDiscovered()
    ensures MixedTable().Valid()
    ensures Discover(MixedTable(), 1, DEFAULT_MTU) == [0, 2]
  {
    var t := MixedTable();
    LowerBoundIs(t.handles, 1, 0);
    DiscoverIs(t, 1, DEFAULT_MTU);
    assert OfSize(t, 3, true) == [];
    assert OfSize(t, 2, true) == [2] + OfSize(t, 3, true);
    assert OfSize(t, 1, true) == OfSize(t, 2, true);
    assert OfSize(t, 0, true) == [0] + OfSize(t, 1, true);
    assert Batch(t, 0, DEFAULT_MTU) == [0, 2];
    assert NextStart(t, 0, DEFAULT_MTU) == 3;
  }
}
