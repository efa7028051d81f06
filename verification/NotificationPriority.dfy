/** The priorities of characteristics and the order in which the queue delivers them, brought together. */
module NotificationPriority {
  import M = NotificationModel
  import T = NotificationTheorems
  import opened GattServer
  import opened NotificationData

  /** The queue has the levels that the server computes from its services. */
  ghost predicate BuiltFor(levels: seq<M.Level>, counts: seq<nat>) {
    |levels| == |counts| && forall l :: 0 <= l < |levels| ==> M.Size(levels[l]) == counts[l]
  }

  lemma {:induction false} LevelOfIsWalk(levels: seq<M.Level>, counts: seq<nat>, i: nat)
    requires BuiltFor(levels, counts)
    ensures T.LevelOf(levels, i) == Walk(counts, i)
    decreases levels
  {
    if levels == [] {
    } else {
      assert M.Size(levels[0]) == counts[0];
      if i >= counts[0] {
        LevelOfIsWalk(levels[1..], counts[1..], i - counts[0]);
      }
    }
  }

  lemma {:induction false} PendingIsInALevel(levels: seq<M.Level>, i: nat, kind: M.Kind)
    requires M.PendingAt(levels, i, kind)
    ensures T.LevelOf(levels, i) < |levels|
    decreases levels
  {
    if i < M.Size(levels[0]) {
    } else {
      PendingIsInALevel(levels[1..], i - M.Size(levels[0]), kind);
    }
  }

  /** An index behind the last characteristic falls through all levels. */
  lemma {:induction false} WalkBeyond(xs: seq<Numbered>, low: nat, counts: seq<nat>, i: nat)
    requires Ascending(xs, low) && Counted(counts, xs, low) && i >= |xs|
    ensures Walk(counts, i) == |counts|
    decreases counts
  {
    if counts == [] {
    } else {
      FirstCount(counts, xs, low);
      LowestComeFirst(xs, low);
      RestCounted(counts, xs, low, counts[0]);
      RestAscends(xs, low);
      WalkBeyond(xs[counts[0]..], low + 1, counts[1..], i - counts[0]);
    }
  }

  /** Something pending in a queue that was built for the services has an index of one of their characteristics, and
      lies in the level of its priority. */
  lemma PendingHasPriority(services: seq<Service>, levels: seq<M.Level>, i: nat, kind: M.Kind)
    requires BuiltFor(levels, Numbers(services)) && M.PendingAt(levels, i, kind)
    ensures i < |SortedByPriority(services)|
    ensures T.LevelOf(levels, i) == SortedByPriority(services)[i].characteristic.priority
  {
    var counts := Numbers(services);
    LevelOfIsWalk(levels, counts, i);
    PendingIsInALevel(levels, i, kind);
    SortedAscends(services);
    forall p: nat
      ensures Count(counts, p) == WithPriority(SortedByPriority(services), 0 + p)
    {
      NumbersCountPriorities(services, p);
    }
    if i < |SortedByPriority(services)| {
      WalkReachesPriority(SortedByPriority(services), 0, counts, i);
    } else {
      WalkBeyond(SortedByPriority(services), 0, counts, i);
    }
  }

  /** What the priorities are for: a dequeue delivers nothing of a characteristic while something of a characteristic
      with a higher priority (a smaller number) could be delivered. */
  lemma HigherPriorityIsServedFirst(services: seq<Service>, q: M.Queue, i: nat, kind: M.Kind)
    requires M.Valid(q) && BuiltFor(q.levels, Numbers(services))
    requires T.EligibleAt(q.levels, i, kind, q.outstanding)
    ensures var d := M.Dequeue(q).1;
            && d.Delivered?
            && i < |SortedByPriority(services)| && d.index < |SortedByPriority(services)|
            && SortedByPriority(services)[d.index].characteristic.priority
               <= SortedByPriority(services)[i].characteristic.priority
  {
    var d := M.Dequeue(q).1;
    T.DequeueEffect(q.levels, 0, q.outstanding, i, kind);
    T.HigherPriorityFirst(q.levels, 0, q.outstanding, i, kind);
    PendingHasPriority(services, q.levels, i, kind);
    DeliveredWasPending(q);
    PendingHasPriority(services, q.levels, d.index, d.kind);
  }

  lemma DeliveredWasPending(q: M.Queue)
    requires M.Valid(q) && M.Dequeue(q).1.Delivered?
    ensures M.PendingAt(q.levels, M.Dequeue(q).1.index, M.Dequeue(q).1.kind)
  {
    var d := M.Dequeue(q).1;
    T.DequeueEffect(q.levels, 0, q.outstanding, d.index, d.kind);
  }

  // ---- When there is a queue at all ----

  ghost predicate Occupied(services: seq<Service>, p: nat) {
    exists h :: 0 <= h < |SortedByPriority(services)| && SortedByPriority(services)[h].characteristic.priority == p
  }

  /** The level of so many characteristics. */
  function EmptyLevel(n: nat): (l: M.Level)
    ensures M.Size(l) == n && (n > 0 ==> M.ValidLevel(l))
  {
    if n == 1 then M.Single(M.Empty) else M.Ring(seq(n, _ => M.Entry(false, false)), 0)
  }

  /** Levels of those sizes, with nothing queued. */
  function EmptyLevels(counts: seq<nat>): (r: seq<M.Level>)
    ensures |r| == |counts| && forall l :: 0 <= l < |r| ==> r[l] == EmptyLevel(counts[l])
  {
    seq(|counts|, l requires 0 <= l < |counts| => EmptyLevel(counts[l]))
  }

  ghost predicate AllPositive(counts: seq<nat>) {
    forall p :: 0 <= p < |counts| ==> counts[p] > 0
  }

  lemma EmptyQueueIsBuilt(counts: seq<nat>)
    requires AllPositive(counts)
    ensures M.Valid(M.Queue(EmptyLevels(counts), M.NoIndication)) && BuiltFor(EmptyLevels(counts), counts)
  {
  }

  lemma {:induction false} SomeOfPriority(xs: seq<Numbered>, p: nat)
    ensures WithPriority(xs, p) > 0 <==> exists h :: 0 <= h < |xs| && xs[h].characteristic.priority == p
    decreases xs
  {
    if xs == [] {
    } else {
      SomeOfPriority(xs[1..], p);
      if h :| 0 <= h < |xs[1..]| && xs[1..][h].characteristic.priority == p {
        assert xs[h + 1].characteristic.priority == p;
      }
      if h :| 0 <= h < |xs| && xs[h].characteristic.priority == p {
        assert h > 0 ==> xs[1..][h - 1].characteristic.priority == p;
      }
    }
  }

  lemma OccupiedIff(services: seq<Service>, p: nat)
    requires p < |Numbers(services)|
    ensures Numbers(services)[p] > 0 <==> Occupied(services, p)
  {
    NumbersCountPriorities(services, p);
    SomeOfPriority(SortedByPriority(services), p);
  }

  /** The last count is not 0: the list of counts only grows as far as needed. */
  ghost predicate EndsOccupied(counts: seq<nat>) {
    counts != [] ==> counts[|counts| - 1] > 0
  }

  lemma {:induction false} AddPrioEndsOccupied(counts: seq<nat>, p: nat)
    requires EndsOccupied(counts)
    ensures EndsOccupied(AddPrio(counts, p)) && AddPrio(counts, p) != []
    decreases p
  {
    if p == 0 {
    } else if counts == [] {
      AddPrioEndsOccupied([], p - 1);
    } else {
      AddPrioEndsOccupied(counts[1..], p - 1);
    }
  }

  lemma {:induction false} ServiceEndsOccupied(chars: seq<Characteristic>, counts: seq<nat>)
    requires EndsOccupied(counts)
    ensures EndsOccupied(NumbersOfService(chars, counts))
    decreases chars
  {
    if chars == [] {
    } else {
      if chars[0].cccd {
        AddPrioEndsOccupied(counts, chars[0].priority);
      }
      ServiceEndsOccupied(chars[1..], if chars[0].cccd then AddPrio(counts, chars[0].priority) else counts);
    }
  }

  lemma {:induction false} NumbersEndOccupied(services: seq<Service>)
    ensures EndsOccupied(Numbers(services))
  {
    if services == [] {
    } else {
      NumbersEndOccupied(services[1..]);
      ServiceEndsOccupied(services[0].characteristics, Numbers(services[1..]));
    }
  }

  /** Every priority below one that is occupied is occupied too. */
  ghost predicate NoPriorityLeftOut(services: seq<Service>) {
    forall p: nat, h :: 0 <= h < |SortedByPriority(services)| && p <= SortedByPriority(services)[h].characteristic.priority ==>
      Occupied(services, p)
  }

  lemma PriorityIsALevel(services: seq<Service>, h: nat)
    requires h < |SortedByPriority(services)|
    ensures SortedByPriority(services)[h].characteristic.priority < |Numbers(services)|
  {
    var p := SortedByPriority(services)[h].characteristic.priority;
    NumbersCountPriorities(services, p);
    SomeOfPriority(SortedByPriority(services), p);
  }

  lemma AllLevelsOccupiedIff(services: seq<Service>)
    ensures AllPositive(Numbers(services)) <==> NoPriorityLeftOut(services)
  {
    var counts := Numbers(services);
    if AllPositive(counts) {
      forall p: nat, h | 0 <= h < |SortedByPriority(services)| && p <= SortedByPriority(services)[h].characteristic.priority
        ensures Occupied(services, p)
      {
        PriorityIsALevel(services, h);
        OccupiedIff(services, p);
      }
    }
    if NoPriorityLeftOut(services) && counts != [] {
      NumbersEndOccupied(services);
      OccupiedIff(services, |counts| - 1);
      var h :| 0 <= h < |SortedByPriority(services)| && SortedByPriority(services)[h].characteristic.priority == |counts| - 1;
      forall p | 0 <= p < |counts| ensures counts[p] > 0 {
        OccupiedIff(services, p);
      }
    }
  }

  lemma BuiltQueueHasNoGap(counts: seq<nat>, q: M.Queue)
    requires M.Valid(q) && BuiltFor(q.levels, counts)
    ensures AllPositive(counts)
  {
    forall p | 0 <= p < |counts| ensures counts[p] > 0 {
      assert M.ValidLevel(q.levels[p]) && M.Size(q.levels[p]) == counts[p];
    }
  }

  /** A queue for the services of a server exists if and only if no priority number is left out below the largest one in
      use: a level without a characteristic is none that the code can have. */
  lemma QueueExistsIff(services: seq<Service>)
    ensures (exists q: M.Queue :: M.Valid(q) && BuiltFor(q.levels, Numbers(services))) <==> NoPriorityLeftOut(services)
  {
    var counts := Numbers(services);
    AllLevelsOccupiedIff(services);
    if q: M.Queue :| M.Valid(q) && BuiltFor(q.levels, counts) {
      BuiltQueueHasNoGap(counts, q);
    }
    if NoPriorityLeftOut(services) {
      EmptyQueueIsBuilt(counts);
      var q := M.Queue(EmptyLevels(counts), M.NoIndication);
      assert M.Valid(q) && BuiltFor(q.levels, counts);
    }
  }
}
