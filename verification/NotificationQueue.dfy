/**
 The notification queue as the source stores it: two bits a characteristic packed into bytes, a level of one
 characteristic as a single state, and the levels one behind the other. Every method is proved against the
 functions of `NotificationModel`.
 */
module NotificationQueue {
  import opened NotificationModel

  const BITS_PER_CHARACTERISTIC := 2
  const NOTIFICATION_BIT: bv8 := 0x01
  const INDICATION_BIT: bv8 := 0x02

  // ---- Bits ----

  predicate IsBitOffset(offset: nat) {
    offset in {0, 2, 4, 6}
  }

  function BitsOf(kind: Kind): bv8 {
    match kind
    case Notification => NOTIFICATION_BIT
    case Indication => INDICATION_BIT
  }

  function BitOffset(index: nat): (r: nat)
    ensures IsBitOffset(r)
  {
    assert index == 4 * (index / 4) + index % 4;
    (index * BITS_PER_CHARACTERISTIC) % 8
  }

  function ByteOffset(index: nat): nat {
    index * BITS_PER_CHARACTERISTIC / 8
  }

  function Mask(kind: Kind, offset: nat): bv8
    requires IsBitOffset(offset)
  {
    match kind
    case Notification => if offset == 0 then 0x01 else if offset == 2 then 0x04 else if offset == 4 then 0x10 else 0x40
    case Indication => if offset == 0 then 0x02 else if offset == 2 then 0x08 else if offset == 4 then 0x20 else 0x80
  }

  lemma MaskIsShift(kind: Kind, offset: nat)
    requires IsBitOffset(offset)
    ensures BitsOf(kind) << offset == Mask(kind, offset)
  {
  }

  /** The entry stored in two bits of a byte. */
  function Slot(b: bv8, offset: nat): Entry
    requires IsBitOffset(offset)
  {
    Entry(b & Mask(Notification, offset) != 0, b & Mask(Indication, offset) != 0)
  }

  lemma ShiftedDown(b: bv8, offset: nat, kind: Kind)
    requires IsBitOffset(offset)
    ensures ((b >> offset) & 0x03) & BitsOf(kind) != 0 <==> b & Mask(kind, offset) != 0
  {
  }

  lemma MasksDisjoint(kind: Kind, offset: nat, k: Kind, o: nat)
    requires IsBitOffset(offset) && IsBitOffset(o)
    ensures Mask(kind, offset) != 0
    ensures (kind, offset) != (k, o) ==> Mask(kind, offset) & Mask(k, o) == 0
  {
  }

  lemma ChangeMask(b: bv8, m: bv8, t: bv8)
    requires m != 0 && (t == m || m & t == 0)
    ensures (b | m) & t != 0 <==> t == m || b & t != 0
    ensures (b & !m) & t != 0 <==> t != m && b & t != 0
  {
  }

  lemma MaskIsOwn(offset: nat, other: nat, kind: Kind, k: Kind)
    requires IsBitOffset(offset) && IsBitOffset(other)
    ensures Mask(kind, offset) != 0
    ensures Mask(k, other) == Mask(kind, offset) <==> k == kind && other == offset
    ensures Mask(k, other) != Mask(kind, offset) ==> Mask(kind, offset) & Mask(k, other) == 0
  {
    MasksDisjoint(kind, offset, k, other);
  }

  lemma SetBits(b: bv8, offset: nat, other: nat, kind: Kind)
    requires IsBitOffset(offset) && IsBitOffset(other)
    ensures Slot(b | Mask(kind, offset), other)
            == if other == offset then With(Slot(b, offset), kind, true) else Slot(b, other)
    ensures Slot(b & !Mask(kind, offset), other)
            == if other == offset then With(Slot(b, offset), kind, false) else Slot(b, other)
  {
    MaskIsOwn(offset, other, kind, Notification);
    MaskIsOwn(offset, other, kind, Indication);
    ChangeMask(b, Mask(kind, offset), Mask(Notification, other));
    ChangeMask(b, Mask(kind, offset), Mask(Indication, other));
  }

  function BytesFor(size: nat): nat {
    (size * BITS_PER_CHARACTERISTIC + 7) / 8
  }

  /** The entry of a characteristic in the packed bytes. */
  function EntryIn(bytes: seq<bv8>, index: nat): Entry
    requires ByteOffset(index) < |bytes|
  {
    Slot(bytes[ByteOffset(index)], BitOffset(index))
  }

  function Unpacked(bytes: seq<bv8>, size: nat): (r: seq<Entry>)
    requires |bytes| == BytesFor(size)
    ensures |r| == size
  {
    seq(size, i requires 0 <= i < size => EntryIn(bytes, i))
  }

  /** A byte in which one slot is another one. */
  ghost predicate OneSlot(was: bv8, b: bv8, offset: nat, e: Entry)
    requires IsBitOffset(offset)
  {
    forall o :: IsBitOffset(o) ==> Slot(b, o) == if o == offset then e else Slot(was, o)
  }

  lemma BitIsOneSlot(was: bv8, offset: nat, kind: Kind, value: bool)
    requires IsBitOffset(offset)
    ensures OneSlot(was, WithBit(was, Mask(kind, offset), value), offset, With(Slot(was, offset), kind, value))
  {
    forall o | IsBitOffset(o)
      ensures Slot(WithBit(was, Mask(kind, offset), value), o)
              == if o == offset then With(Slot(was, offset), kind, value) else Slot(was, o)
    {
      BitInSlot(was, offset, o, kind, value);
    }
  }

  lemma BitInSlot(was: bv8, offset: nat, o: nat, kind: Kind, value: bool)
    requires IsBitOffset(offset) && IsBitOffset(o)
    ensures Slot(WithBit(was, Mask(kind, offset), value), o)
            == if o == offset then With(Slot(was, offset), kind, value) else Slot(was, o)
  {
    SetBits(was, offset, o, kind);
  }

  /** Changing one slot changes one entry. */
  lemma SlotIsEntry(bytes: seq<bv8>, after: seq<bv8>, size: nat, index: nat, e: Entry)
    requires |bytes| == |after| == BytesFor(size) && index < size
    requires forall k :: 0 <= k < |bytes| && k != ByteOffset(index) ==> after[k] == bytes[k]
    requires OneSlot(bytes[ByteOffset(index)], after[ByteOffset(index)], BitOffset(index), e)
    ensures Unpacked(after, size) == Unpacked(bytes, size)[index := e]
  {
    forall i | 0 <= i < size && i != index
      ensures EntryIn(after, i) == EntryIn(bytes, i)
    {
      if ByteOffset(i) == ByteOffset(index) {
        assert BitOffset(i) != BitOffset(index);
      }
    }
  }

  /** A byte with one bit set or cleared. */
  function WithBit(b: bv8, mask: bv8, value: bool): bv8 {
    if value then b | mask else b & !mask
  }

  lemma StoredByte(bytes: seq<bv8>, size: nat, index: nat, kind: Kind, b: bv8, value: bool)
    requires |bytes| == BytesFor(size) && index < size
    requires b == WithBit(bytes[ByteOffset(index)], Mask(kind, BitOffset(index)), value)
    ensures Unpacked(bytes[ByteOffset(index) := b], size)
            == Unpacked(bytes, size)[index := With(Unpacked(bytes, size)[index], kind, value)]
  {
    var was := bytes[ByteOffset(index)];
    BitIsOneSlot(was, BitOffset(index), kind, value);
    SlotIsEntry(bytes, bytes[ByteOffset(index) := b], size, index, With(Slot(was, BitOffset(index)), kind, value));
  }

  class PackedLevel {
    const size: nat
    const queue: array<bv8>
    var next: nat

    ghost predicate Valid()
      reads this
    {
      queue.Length == BytesFor(size) && next < size
    }

    function View(): (r: Level)
      requires Valid()
      reads this, queue
      ensures ValidLevel(r) && Size(r) == size
    {
      Ring(Unpacked(queue[..], size), next)
    }

    constructor (size: nat)
      requires size > 0
      ensures Valid() && this.size == size && fresh(queue)
      ensures View() == Ring(seq(size, _ => Entry(false, false)), 0)
    {
      this.size := size;
      queue := new bv8[BytesFor(size)];
      next := 0;
      new;
      Clear();
    }

    method At(index: nat) returns (e: bv8)
      requires Valid() && index < size
      ensures Entry(e & NOTIFICATION_BIT != 0, e & INDICATION_BIT != 0) == View().entries[index]
    {
      e := (queue[ByteOffset(index)] >> BitOffset(index)) & 0x03;
      ShiftedDown(queue[ByteOffset(index)], BitOffset(index), Notification);
      ShiftedDown(queue[ByteOffset(index)], BitOffset(index), Indication);
    }

    method Add(index: nat, kind: Kind) returns (added: bool)
      requires Valid() && index < size
      modifies queue
      ensures Valid() && (View(), added) == old(LevelAdd(View(), index, kind))
    {
      added := IsClear(index, kind);
      MaskIsShift(kind, BitOffset(index));
      Store(index, kind, queue[ByteOffset(index)] | (BitsOf(kind) << BitOffset(index)), true);
    }

    method IsClear(index: nat, kind: Kind) returns (clear: bool)
      requires Valid() && index < size
      ensures clear == !Has(View().entries[index], kind)
    {
      MaskIsShift(kind, BitOffset(index));
      clear := queue[ByteOffset(index)] & (BitsOf(kind) << BitOffset(index)) == 0;
    }

    method Remove(index: nat, kind: Kind)
      requires Valid() && index < size
      modifies queue
      ensures Valid() && next == old(next)
      ensures View().entries == old(View().entries[index := With(View().entries[index], kind, false)])
    {
      MaskIsShift(kind, BitOffset(index));
      Store(index, kind, queue[ByteOffset(index)] & !(BitsOf(kind) << BitOffset(index)), false);
    }

    /** Writes the byte of a characteristic back, with one bit set or cleared. */
    method Store(index: nat, kind: Kind, b: bv8, ghost value: bool)
      requires Valid() && index < size
      requires b == WithBit(queue[ByteOffset(index)], Mask(kind, BitOffset(index)), value)
      modifies queue
      ensures Valid()
      ensures View() == old(Ring(View().entries[index := With(View().entries[index], kind, value)], next))
    {
      ghost var before := queue[..];
      queue[ByteOffset(index)] := b;
      assert queue[..] == before[ByteOffset(index) := b];
      StoredByte(before, size, index, kind, b, value);
    }

    method Clear()
      requires queue.Length == BytesFor(size) && size > 0
      modifies this, queue
      ensures Valid() && View() == Ring(seq(size, _ => Entry(false, false)), 0)
    {
      next := 0;
      var i := 0;
      while i < queue.Length
        invariant 0 <= i <= queue.Length
        invariant next == 0
        invariant forall k :: 0 <= k < i ==> queue[k] == 0
      {
        queue[i] := 0;
        i := i + 1;
      }
      assert forall o :: IsBitOffset(o) ==> Slot(0, o) == Entry(false, false);
    }

    /** The scan in a circle; `outstanding` is the reference shared by all levels. */
    method Dequeue(offset: nat, outstanding: Outstanding) returns (d: Delivery, o: Outstanding)
      requires Valid()
      modifies this, queue
      ensures Valid() && (View(), d, o) == old(LevelDequeue(View(), offset, outstanding))
    {
      ghost var entries, visited := View().entries, 0;
      var i, ignoreFirst := next, true;
      while ignoreFirst || i != next
        invariant Valid() && View() == old(View())
        invariant visited <= size && (ignoreFirst <==> visited == 0)
        invariant Visited(entries, next, visited, i, outstanding)
        decreases size - visited
      {
        ignoreFirst := false;
        d, o := Serve(i, offset, outstanding);
        if d.Delivered? {
          ScanStops(entries, old(next), visited, i, outstanding);
          ScanDelivers(Ring(entries, old(next)), offset, outstanding, i);
          return;
        }
        VisitNext(entries, next, visited, i, outstanding);
        i := Successor(i);
        visited := visited + 1;
      }
      ScanEnds(entries, next, visited, i, outstanding);
      return Nothing, outstanding;
    }

    /** The scan is at place i after so many places, and none of them delivered anything. */
    static ghost predicate Visited(entries: seq<Entry>, next: nat, visited: nat, i: nat, outstanding: Outstanding) {
      && next < |entries| && i < |entries| && visited <= |entries|
      && i == (if next + visited < |entries| then next + visited else next + visited - |entries|)
      && Scan(entries, next, |entries|, outstanding) == Scan(entries, i, |entries| - visited, outstanding)
    }

    static lemma VisitNext(entries: seq<Entry>, next: nat, visited: nat, i: nat, outstanding: Outstanding)
      requires Visited(entries, next, visited, i, outstanding) && visited < |entries|
      requires Offer(entries[i], outstanding) == Empty
      ensures Visited(entries, next, visited + 1, Wrap(i, |entries|), outstanding)
    {
    }

    static lemma ScanStops(entries: seq<Entry>, next: nat, visited: nat, i: nat, outstanding: Outstanding)
      requires Visited(entries, next, visited, i, outstanding) && visited < |entries|
      requires Offer(entries[i], outstanding) != Empty
      ensures Scan(entries, next, |entries|, outstanding) == i
    {
    }

    static lemma ScanEnds(entries: seq<Entry>, next: nat, visited: nat, i: nat, outstanding: Outstanding)
      requires Visited(entries, next, visited, i, outstanding) && visited > 0 && i == next
      ensures visited == |entries| && Scan(entries, next, |entries|, outstanding) == |entries|
    {
    }

    static lemma ScanDelivers(l: Level, offset: nat, outstanding: Outstanding, i: nat)
      requires l.Ring? && ValidLevel(l) && i < |l.entries|
      requires Scan(l.entries, l.next, |l.entries|, outstanding) == i
      ensures Offer(l.entries[i], outstanding).Queued?
      ensures var kind := Offer(l.entries[i], outstanding).kind;
              LevelDequeue(l, offset, outstanding)
              == (Ring(l.entries[i := With(l.entries[i], kind, false)], Wrap(i, |l.entries|)), Delivered(kind, offset + i),
                  if kind == Indication then Awaiting(offset + i) else outstanding)
    {
    }

    /** One step of the scan. */
    method Serve(i: nat, offset: nat, outstanding: Outstanding) returns (d: Delivery, o: Outstanding)
      requires Valid() && i < size
      modifies this, queue
      ensures Valid()
      ensures var offer := Offer(old(View()).entries[i], outstanding);
              match offer
              case Empty => d == Nothing && o == outstanding && View() == old(View())
              case Queued(kind) =>
                && d == Delivered(kind, i + offset)
                && o == (if kind == Indication then Awaiting(i + offset) else outstanding)
                && View() == old(Ring(View().entries[i := With(View().entries[i], kind, false)], Wrap(i, size)))
    {
      var entry := At(i);
      if entry & INDICATION_BIT != 0 && outstanding == NoIndication {
        Take(i, Indication);
        return Delivered(Indication, i + offset), Awaiting(i + offset);
      } else if entry & NOTIFICATION_BIT != 0 {
        Take(i, Notification);
        return Delivered(Notification, i + offset), outstanding;
      }
      return Nothing, outstanding;
    }

    method Take(i: nat, kind: Kind)
      requires Valid() && i < size
      modifies this, queue
      ensures Valid()
      ensures View() == old(Ring(View().entries[i := With(View().entries[i], kind, false)], Wrap(i, size)))
    {
      Remove(i, kind);
      next := Successor(i);
    }

    function Successor(i: nat): (r: nat)
      requires i < size
      ensures r == Wrap(i, size)
    {
      WrapIsModulo(i, size);
      (i + 1) % size
    }
  }

  lemma WrapIsModulo(i: nat, n: nat)
    requires i < n
    ensures (i + 1) % n == Wrap(i, n)
  {
    if i + 1 < n {
      assert (i + 1) / n == 0;
    }
  }

  class SingleLevel {
    var state: SlotState

    function View(): Level
      reads this
    {
      Single(state)
    }

    constructor ()
      ensures state == Empty
    {
      state := Empty;
    }

    method Add(kind: Kind) returns (added: bool)
      modifies this
      ensures (View(), added) == old(LevelAdd(View(), 0, kind))
    {
      added := state == Empty;
      if added {
        state := Queued(kind);
      }
    }

    method Dequeue(offset: nat, outstanding: Outstanding) returns (d: Delivery, o: Outstanding)
      modifies this
      ensures (View(), d, o) == old(LevelDequeue(View(), offset, outstanding))
    {
      d := if state == Queued(Notification) || (state == Queued(Indication) && outstanding == NoIndication)
           then Delivered(state.kind, offset) else Nothing;
      o := if d.Delivered? && d.kind == Indication then Awaiting(offset) else outstanding;
      if d.Delivered? {
        state := Empty;
      }
    }

    method Clear()
      modifies this
      ensures View() == LevelClear(old(View()))
    {
      state := Empty;
    }
  }

  // ---- The levels one behind the other ----

  datatype LevelObject = Packed(ring: PackedLevel) | One(single: SingleLevel)
  {
    ghost function Repr(): set<object> {
      match this
      case Packed(ring) => {ring, ring.queue}
      case One(single) => {single}
    }

    ghost predicate Valid()
      reads Repr()
    {
      Packed? ==> ring.Valid()
    }

    ghost function View(): (r: Level)
      requires Valid()
      reads Repr()
      ensures ValidLevel(r)
    {
      match this
      case Packed(ring) => ring.View()
      case One(single) => single.View()
    }
  }

  ghost function ReprOf(ls: seq<LevelObject>): (r: set<object>)
    ensures forall i :: 0 <= i < |ls| ==> ls[i].Repr() <= r
  {
    if ls == [] then {} else
      assert forall i :: 1 <= i < |ls| ==> ls[i] == ls[1..][i - 1];
      ls[0].Repr() + ReprOf(ls[1..])
  }

  lemma {:induction false} DisjointFromAll(r: set<object>, ls: seq<LevelObject>)
    requires forall i :: 0 <= i < |ls| ==> r !! ls[i].Repr()
    ensures r !! ReprOf(ls)
    decreases |ls|
  {
    if ls == [] {
    } else {
      forall i | 0 <= i < |ls[1..]|
        ensures r !! ls[1..][i].Repr()
      {
        assert ls[1..][i] == ls[i + 1];
      }
      DisjointFromAll(r, ls[1..]);
    }
  }

  /** Levels are separate objects. */
  ghost predicate ValidLevels(ls: seq<LevelObject>)
    reads ReprOf(ls)
  {
    && (forall i :: 0 <= i < |ls| ==> ls[i].Valid())
    && (forall i, j :: 0 <= i < j < |ls| ==> ls[i].Repr() !! ls[j].Repr())
  }

  ghost function ViewOf(ls: seq<LevelObject>): (r: seq<Level>)
    requires ValidLevels(ls)
    reads ReprOf(ls)
    ensures |r| == |ls| && forall l :: 0 <= l < |r| ==> r[l] == ls[l].View() && ValidLevel(r[l])
  {
    seq(|ls|, i requires 0 <= i < |ls| && ls[i].Valid() reads if 0 <= i < |ls| then ls[i].Repr() else {} => ls[i].View())
  }

  method AddToLevel(l: LevelObject, index: nat, kind: Kind) returns (added: bool)
    requires l.Valid() && index < Size(l.View())
    modifies l.Repr()
    ensures l.Valid() && (l.View(), added) == old(LevelAdd(l.View(), index, kind))
  {
    match l
    case Packed(ring) => added := ring.Add(index, kind);
    case One(single) => added := single.Add(kind);
  }

  method DequeueFromLevel(l: LevelObject, offset: nat, outstanding: Outstanding) returns (d: Delivery, o: Outstanding)
    requires l.Valid()
    modifies l.Repr()
    ensures l.Valid() && (l.View(), d, o) == old(LevelDequeue(l.View(), offset, outstanding))
  {
    match l
    case Packed(ring) => d, o := ring.Dequeue(offset, outstanding);
    case One(single) => d, o := single.Dequeue(offset, outstanding);
  }

  function SizeOf(l: LevelObject): nat {
    match l
    case Packed(ring) => ring.size
    case One(_) => 1
  }

  lemma SplitLevels(ls: seq<LevelObject>)
    requires ValidLevels(ls) && ls != []
    ensures ls[0].Valid() && ValidLevels(ls[1..]) && ls[0].Repr() !! ReprOf(ls[1..])
    ensures ViewOf(ls)[0] == ls[0].View() && ViewOf(ls)[1..] == ViewOf(ls[1..])
    ensures ReprOf(ls) == ls[0].Repr() + ReprOf(ls[1..])
  {
    forall i | 0 <= i < |ls[1..]|
      ensures ls[1..][i] == ls[i + 1]
    {
    }
    DisjointFromAll(ls[0].Repr(), ls[1..]);
  }

  lemma JoinLevels(ls: seq<LevelObject>)
    requires ls != [] && ls[0].Valid() && ValidLevels(ls[1..]) && ls[0].Repr() !! ReprOf(ls[1..])
    ensures ValidLevels(ls) && ViewOf(ls)[0] == ls[0].View() && ViewOf(ls)[1..] == ViewOf(ls[1..])
  {
    forall i, j | 0 <= i < j < |ls|
      ensures ls[i].Repr() !! ls[j].Repr()
    {
      assert ls[j] == ls[1..][j - 1];
      if i > 0 {
        assert ls[i] == ls[1..][i - 1];
      }
    }
    forall i | 0 <= i < |ls|
      ensures ls[i].Valid()
    {
      assert i > 0 ==> ls[i] == ls[1..][i - 1];
    }
  }

  lemma AddedToFirst(before: seq<Level>, after: seq<Level>, index: nat, kind: Kind, added: bool)
    requires before != [] && |after| == |before| && index < Size(before[0])
    requires (after[0], added) == LevelAdd(before[0], index, kind) && after[1..] == before[1..]
    ensures (after, added) == LevelsAdd(before, index, kind)
  {
    assert after == [after[0]] + after[1..];
  }

  lemma AddedToRest(before: seq<Level>, after: seq<Level>, index: nat, kind: Kind, added: bool)
    requires before != [] && |after| == |before| && index >= Size(before[0])
    requires (after[1..], added) == LevelsAdd(before[1..], index - Size(before[0]), kind) && after[0] == before[0]
    ensures (after, added) == LevelsAdd(before, index, kind)
  {
    assert after == [after[0]] + after[1..];
  }

  /** A change of the first level leaves the views of the others alone. */
  twostate lemma OthersUnchanged(ls: seq<LevelObject>)
    requires ls != [] && old(ValidLevels(ls)) && ls[0].Valid()
    requires forall i :: 1 <= i < |ls| ==> forall o :: o in ls[i].Repr() ==> unchanged(o)
    ensures ValidLevels(ls) && ViewOf(ls)[1..] == old(ViewOf(ls)[1..])
  {
    forall i | 1 <= i < |ls|
      ensures ls[i].Valid() && ls[i].View() == old(ls[i].View())
    {
    }
  }

  twostate lemma FirstUnchanged(l: LevelObject)
    requires old(l.Valid()) && forall o :: o in l.Repr() ==> unchanged(o)
    ensures l.Valid() && l.View() == old(l.View())
  {
  }

  /** queue_notification and queue_indication of the levels from one on. */
  method AddToLevels(ls: seq<LevelObject>, index: nat, kind: Kind) returns (added: bool)
    requires ValidLevels(ls)
    modifies ReprOf(ls)
    ensures ValidLevels(ls) && (ViewOf(ls), added) == old(LevelsAdd(ViewOf(ls), index, kind))
    decreases |ls|, 1
  {
    if ls == [] {
      return false;
    }
    ghost var before := ViewOf(ls);
    if index < SizeOf(ls[0]) {
      added := AddToFirst(ls, index, kind);
      AddedToFirst(before, ViewOf(ls), index, kind, added);
    } else {
      added := AddToRest(ls, index - SizeOf(ls[0]), kind);
      AddedToRest(before, ViewOf(ls), index, kind, added);
    }
  }

  method AddToFirst(ls: seq<LevelObject>, index: nat, kind: Kind) returns (added: bool)
    requires ValidLevels(ls) && ls != [] && index < SizeOf(ls[0])
    modifies ls[0].Repr()
    ensures ValidLevels(ls) && ViewOf(ls)[1..] == old(ViewOf(ls))[1..]
    ensures (ViewOf(ls)[0], added) == old(LevelAdd(ViewOf(ls)[0], index, kind))
  {
    SplitLevels(ls);
    label Start:
    added := AddToLevel(ls[0], index, kind);
    OthersUnchanged@Start(ls);
  }

  method AddToRest(ls: seq<LevelObject>, index: nat, kind: Kind) returns (added: bool)
    requires ValidLevels(ls) && ls != []
    modifies ReprOf(ls)
    ensures ValidLevels(ls) && ViewOf(ls)[0] == old(ViewOf(ls))[0]
    ensures (ViewOf(ls)[1..], added) == old(LevelsAdd(ViewOf(ls)[1..], index, kind))
    decreases |ls|, 0
  {
    SplitLevels(ls);
    label Start:
    added := AddToLevels(ls[1..], index, kind);
    FirstUnchanged@Start(ls[0]);
    JoinLevels(ls);
  }

  lemma DequeuedFromFirst(before: seq<Level>, after: seq<Level>, offset: nat, outstanding: Outstanding,
                          d: Delivery, o: Outstanding)
    requires before != [] && |after| == |before| && forall l :: 0 <= l < |before| ==> ValidLevel(before[l])
    requires (after[0], d, o) == LevelDequeue(before[0], offset, outstanding) && d != Nothing && after[1..] == before[1..]
    ensures (after, d, o) == LevelsDequeue(before, offset, outstanding)
  {
    assert after == [after[0]] + after[1..];
  }

  lemma DequeuedFromRest(before: seq<Level>, after: seq<Level>, offset: nat, outstanding: Outstanding,
                         d: Delivery, o: Outstanding)
    requires before != [] && |after| == |before| && forall l :: 0 <= l < |before| ==> ValidLevel(before[l])
    requires LevelDequeue(before[0], offset, outstanding).1 == Nothing && after[0] == before[0]
    requires (after[1..], d, o) == LevelsDequeue(before[1..], offset + Size(before[0]), outstanding)
    ensures (after, d, o) == LevelsDequeue(before, offset, outstanding)
  {
    assert after == [after[0]] + after[1..];
  }

  lemma NothingChanges(l: Level, offset: nat, outstanding: Outstanding)
    requires ValidLevel(l) && LevelDequeue(l, offset, outstanding).1 == Nothing
    ensures LevelDequeue(l, offset, outstanding) == (l, Nothing, outstanding)
  {
  }

  method DequeueFromLevels(ls: seq<LevelObject>, offset: nat, outstanding: Outstanding) returns (d: Delivery, o: Outstanding)
    requires ValidLevels(ls)
    modifies ReprOf(ls)
    ensures ValidLevels(ls) && (ViewOf(ls), d, o) == old(LevelsDequeue(ViewOf(ls), offset, outstanding))
    decreases |ls|, 1
  {
    if ls == [] {
      return Nothing, outstanding;
    }
    ghost var before := ViewOf(ls);
    var behind := offset + SizeOf(ls[0]);
    assert behind == offset + Size(before[0]);
    d, o := DequeueFromFirst(ls, offset, outstanding);
    if d != Nothing {
      DequeuedFromFirst(before, ViewOf(ls), offset, outstanding, d, o);
      return;
    }
    NothingChanges(before[0], offset, outstanding);
    assert ViewOf(ls)[0] == before[0] && ViewOf(ls)[1..] == before[1..];
    d, o := DequeueFromRest(ls, behind, outstanding);
    DequeuedFromRest(before, ViewOf(ls), offset, outstanding, d, o);
  }

  method DequeueFromRest(ls: seq<LevelObject>, offset: nat, outstanding: Outstanding) returns (d: Delivery, o: Outstanding)
    requires ValidLevels(ls) && ls != []
    modifies ReprOf(ls)
    ensures ValidLevels(ls) && ViewOf(ls)[0] == old(ViewOf(ls))[0]
    ensures (ViewOf(ls)[1..], d, o) == old(LevelsDequeue(ViewOf(ls)[1..], offset, outstanding))
    decreases |ls|, 0
  {
    SplitLevels(ls);
    label Start:
    d, o := DequeueFromLevels(ls[1..], offset, outstanding);
    FirstUnchanged@Start(ls[0]);
    JoinLevels(ls);
  }

  method DequeueFromFirst(ls: seq<LevelObject>, offset: nat, outstanding: Outstanding) returns (d: Delivery, o: Outstanding)
    requires ValidLevels(ls) && ls != []
    modifies ls[0].Repr()
    ensures ValidLevels(ls) && ViewOf(ls)[1..] == old(ViewOf(ls))[1..]
    ensures (ViewOf(ls)[0], d, o) == old(LevelDequeue(ViewOf(ls)[0], offset, outstanding))
  {
    SplitLevels(ls);
    label Start:
    d, o := DequeueFromLevel(ls[0], offset, outstanding);
    OthersUnchanged@Start(ls);
  }

  method ClearLevel(l: LevelObject)
    requires l.Valid()
    modifies l.Repr()
    ensures l.Valid() && l.View() == old(LevelClear(l.View()))
  {
    match l
    case Packed(ring) => ring.Clear();
    case One(single) => single.Clear();
  }

  method ClearFirst(ls: seq<LevelObject>)
    requires ValidLevels(ls) && ls != []
    modifies ls[0].Repr()
    ensures ValidLevels(ls) && ViewOf(ls)[0] == old(LevelClear(ViewOf(ls)[0])) && ViewOf(ls)[1..] == old(ViewOf(ls))[1..]
  {
    SplitLevels(ls);
    label Start:
    ClearLevel(ls[0]);
    OthersUnchanged@Start(ls);
  }

  method ClearRest(ls: seq<LevelObject>)
    requires ValidLevels(ls) && ls != []
    modifies ReprOf(ls)
    ensures ValidLevels(ls) && ViewOf(ls)[0] == old(ViewOf(ls))[0] && ViewOf(ls)[1..] == old(LevelsClear(ViewOf(ls)[1..]))
    decreases |ls|, 0
  {
    SplitLevels(ls);
    label Start:
    ClearLevels(ls[1..]);
    FirstUnchanged@Start(ls[0]);
    JoinLevels(ls);
  }

  method ClearLevels(ls: seq<LevelObject>)
    requires ValidLevels(ls)
    modifies ReprOf(ls)
    ensures ValidLevels(ls) && ViewOf(ls) == old(LevelsClear(ViewOf(ls)))
    decreases |ls|, 1
  {
    if ls != [] {
      ghost var before := ViewOf(ls);
      ClearFirst(ls);
      ClearRest(ls);
      ClearedLevels(before, ViewOf(ls));
    }
  }

  lemma ClearedLevels(before: seq<Level>, after: seq<Level>)
    requires before != [] && |after| == |before|
    requires after[0] == LevelClear(before[0]) && after[1..] == LevelsClear(before[1..])
    ensures after == LevelsClear(before)
  {
    assert after == [after[0]] + after[1..];
    assert LevelsClear(before) == [LevelClear(before[0])] + LevelsClear(before[1..]);
  }

  lemma {:induction false} QueueIsNoLevel(q: OutgoingQueue, ls: seq<LevelObject>)
    ensures q !in ReprOf(ls)
    decreases |ls|
  {
    if ls == [] {
    } else {
      QueueIsNoLevel(q, ls[1..]);
    }
  }

  class OutgoingQueue {
    const levels: seq<LevelObject>
    var outstandingConfirmation: Outstanding

    ghost predicate Valid()
      reads ReprOf(levels)
    {
      ValidLevels(levels)
    }

    ghost function View(): (q: Queue)
      requires Valid()
      reads this, ReprOf(levels)
      ensures NotificationModel.Valid(q)
    {
      Queue(ViewOf(levels), outstandingConfirmation)
    }

    constructor (levels: seq<LevelObject>)
      requires ValidLevels(levels)
      ensures Valid() && this.levels == levels && View() == Queue(ViewOf(levels), NoIndication)
    {
      this.levels := levels;
      outstandingConfirmation := NoIndication;
    }

    method QueueOutgoing(index: nat, kind: Kind) returns (added: bool)
      requires Valid()
      modifies ReprOf(levels)
      ensures Valid() && (View(), added) == old(NotificationModel.Add(View(), index, kind))
    {
      QueueIsNoLevel(this, levels);
      added := AddToLevels(levels, index, kind);
    }

    method IndicationConfirmed()
      requires Valid()
      modifies this
      ensures Valid() && View() == old(Confirm(View()))
      ensures outstandingConfirmation == NoIndication && View().levels == old(View().levels)
    {
      QueueIsNoLevel(this, levels);
      outstandingConfirmation := NoIndication;
    }

    method Dequeue() returns (d: Delivery)
      requires Valid()
      modifies this, ReprOf(levels)
      ensures Valid() && (View(), d) == old(NotificationModel.Dequeue(View()))
    {
      QueueIsNoLevel(this, levels);
      d, outstandingConfirmation := DequeueFromLevels(levels, 0, outstandingConfirmation);
    }

    method ClearIndicationsAndConfirmations()
      requires Valid()
      modifies this, ReprOf(levels)
      ensures Valid() && View() == old(Clear(View()))
    {
      QueueIsNoLevel(this, levels);
      outstandingConfirmation := NoIndication;
      ClearLevels(levels);
    }
  }
}
