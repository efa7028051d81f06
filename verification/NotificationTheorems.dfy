/** What every run of the notification queue does. */
module NotificationTheorems {
  import opened NotificationModel

  // ---- What adding and dequeueing change ----

  /** Adding changes exactly what is pending for one characteristic and kind, and says whether it did. */
  lemma {:induction false} AddEffect(ls: seq<Level>, index: nat, kind: Kind, j: nat, k: Kind)
    ensures var (after, added) := LevelsAdd(ls, index, kind);
            && (added ==> !PendingAt(ls, index, kind))
            && PendingAt(after, j, k) == (PendingAt(ls, j, k) || (added && j == index && k == kind))
    decreases |ls|
  {
    if ls == [] {
    } else {
      var (after, added) := LevelsAdd(ls, index, kind);
      if index >= Size(ls[0]) {
        AddEffect(ls[1..], index - Size(ls[0]), kind, if j < Size(ls[0]) then 0 else j - Size(ls[0]), k);
        assert after[1..] == LevelsAdd(ls[1..], index - Size(ls[0]), kind).0;
      } else {
        assert after[1..] == ls[1..];
      }
    }
  }

  function Distance(i: nat, j: nat, n: nat): int {
    if j >= i then j - i else j - i + n
  }

  /** The scan passes no entry that would deliver. */
  lemma {:induction false} ScanFindsFirst(entries: seq<Entry>, i: nat, left: nat, outstanding: Outstanding, j: nat)
    requires i < |entries| && left <= |entries| && j < |entries|
    ensures var r := Scan(entries, i, left, outstanding);
            && (Distance(i, j, |entries|) < left && Offer(entries[j], outstanding).Queued? ==>
                  r < |entries| && Distance(i, r, |entries|) <= Distance(i, j, |entries|))
    decreases left
  {
    if left > 0 && Offer(entries[i], outstanding) == Empty {
      ScanFindsFirst(entries, Wrap(i, |entries|), left - 1, outstanding, j);
    }
  }

  /** An entry that a dequeue may return now. */
  predicate Eligible(l: Level, i: nat, kind: Kind, outstanding: Outstanding) {
    Pending(l, i, kind) && (kind == Indication ==> outstanding == NoIndication)
  }

  predicate EligibleAt(ls: seq<Level>, index: nat, kind: Kind, outstanding: Outstanding) {
    PendingAt(ls, index, kind) && (kind == Indication ==> outstanding == NoIndication)
  }

  /** A dequeue on a level returns an eligible entry if there is one, removes exactly it, and marks an
      indication as outstanding. */
  lemma LevelDequeueEffect(l: Level, offset: nat, outstanding: Outstanding, j: nat, k: Kind)
    requires ValidLevel(l)
    ensures var (after, d, o) := LevelDequeue(l, offset, outstanding);
            && (d == Nothing ==> after == l && o == outstanding && !Eligible(l, j, k, outstanding))
            && (d.Delivered? ==>
                  && offset <= d.index < offset + Size(l)
                  && Eligible(l, d.index - offset, d.kind, outstanding)
                  && Pending(after, j, k) == (Pending(l, j, k) && !(offset + j == d.index && k == d.kind))
                  && o == if d.kind == Indication then Awaiting(d.index) else outstanding)
  {
    if l.Ring? && j < |l.entries| {
      ScanFindsFirst(l.entries, l.next, |l.entries|, outstanding, j);
    }
  }

  /** The effect of a dequeue on what is pending for one characteristic. */
  ghost predicate DequeueIsExact(ls: seq<Level>, offset: nat, outstanding: Outstanding, j: nat, k: Kind,
                                 after: seq<Level>, d: Delivery, o: Outstanding) {
    && (d == Nothing ==> after == ls && o == outstanding && !EligibleAt(ls, j, k, outstanding))
    && (d.Delivered? ==>
          && d.index >= offset
          && EligibleAt(ls, d.index - offset, d.kind, outstanding)
          && PendingAt(after, j, k) == (PendingAt(ls, j, k) && !(offset + j == d.index && k == d.kind))
          && o == if d.kind == Indication then Awaiting(d.index) else outstanding)
  }

  lemma PendingAtCons(l: Level, rest: seq<Level>, j: nat, k: Kind)
    ensures PendingAt([l] + rest, j, k) == if j < Size(l) then Pending(l, j, k) else PendingAt(rest, j - Size(l), k)
  {
    assert ([l] + rest)[1..] == rest;
  }

  lemma DequeueInLaterLevel(l: Level, ls: seq<Level>, offset: nat, outstanding: Outstanding, j: nat, k: Kind,
                            after: seq<Level>, d: Delivery, o: Outstanding)
    requires !Eligible(l, j, k, outstanding)
    requires var m := if j < Size(l) then 0 else j - Size(l);
             DequeueIsExact(ls, offset + Size(l), outstanding, m, k, after, d, o)
    ensures DequeueIsExact([l] + ls, offset, outstanding, j, k, [l] + after, d, o)
  {
    PendingAtCons(l, ls, j, k);
    PendingAtCons(l, after, j, k);
    if d.Delivered? {
      PendingAtCons(l, ls, d.index - offset, d.kind);
    }
  }

  lemma DequeueInFirstLevel(l: Level, ls: seq<Level>, offset: nat, outstanding: Outstanding, j: nat, k: Kind)
    requires ValidLevel(l)
    ensures var (after, d, o) := LevelDequeue(l, offset, outstanding);
            d != Nothing ==> DequeueIsExact([l] + ls, offset, outstanding, j, k, [after] + ls, d, o)
  {
    LevelDequeueEffect(l, offset, outstanding, j, k);
    var (after, d, _) := LevelDequeue(l, offset, outstanding);
    if d != Nothing {
      PendingAtCons(l, ls, j, k);
      PendingAtCons(after, ls, j, k);
      PendingAtCons(l, ls, d.index - offset, d.kind);
    }
  }

  /** Level by level: the first one that delivers decides. */
  lemma DequeueFromHead(ls: seq<Level>, offset: nat, outstanding: Outstanding)
    requires ls != [] && forall l :: 0 <= l < |ls| ==> ValidLevel(ls[l])
    ensures ls == [ls[0]] + ls[1..]
    ensures var (l, d, o) := LevelDequeue(ls[0], offset, outstanding);
            var (rest, e, p) := LevelsDequeue(ls[1..], offset + Size(ls[0]), outstanding);
            LevelsDequeue(ls, offset, outstanding) == if d != Nothing then ([l] + ls[1..], d, o) else ([ls[0]] + rest, e, p)
  {
  }

  /** A dequeue of all levels has exactly that effect. */
  ghost predicate DequeuesExactly(ls: seq<Level>, offset: nat, outstanding: Outstanding, j: nat, k: Kind)
    requires forall l :: 0 <= l < |ls| ==> ValidLevel(ls[l])
  {
    var (after, d, o) := LevelsDequeue(ls, offset, outstanding);
    DequeueIsExact(ls, offset, outstanding, j, k, after, d, o)
  }

  lemma HeadDequeuesExactly(ls: seq<Level>, offset: nat, outstanding: Outstanding, j: nat, k: Kind)
    requires ls != [] && forall l :: 0 <= l < |ls| ==> ValidLevel(ls[l])
    requires LevelDequeue(ls[0], offset, outstanding).1 != Nothing
    ensures DequeuesExactly(ls, offset, outstanding, j, k)
  {
    DequeueFromHead(ls, offset, outstanding);
    DequeueInFirstLevel(ls[0], ls[1..], offset, outstanding, j, k);
  }

  lemma RestDequeuesExactly(ls: seq<Level>, offset: nat, outstanding: Outstanding, j: nat, k: Kind)
    requires ls != [] && forall l :: 0 <= l < |ls| ==> ValidLevel(ls[l])
    requires LevelDequeue(ls[0], offset, outstanding).1 == Nothing
    requires DequeuesExactly(ls[1..], offset + Size(ls[0]), outstanding, if j < Size(ls[0]) then 0 else j - Size(ls[0]), k)
    ensures DequeuesExactly(ls, offset, outstanding, j, k)
  {
    var (rest, d, o) := LevelsDequeue(ls[1..], offset + Size(ls[0]), outstanding);
    DequeueFromHead(ls, offset, outstanding);
    LevelDequeueEffect(ls[0], offset, outstanding, j, k);
    DequeueInLaterLevel(ls[0], ls[1..], offset, outstanding, j, k, rest, d, o);
  }

  lemma {:induction false} DequeueEffect(ls: seq<Level>, offset: nat, outstanding: Outstanding, j: nat, k: Kind)
    requires forall l :: 0 <= l < |ls| ==> ValidLevel(ls[l])
    ensures DequeuesExactly(ls, offset, outstanding, j, k)
    decreases |ls|
  {
    if ls == [] {
    } else if LevelDequeue(ls[0], offset, outstanding).1 != Nothing {
      HeadDequeuesExactly(ls, offset, outstanding, j, k);
    } else {
      DequeueEffect(ls[1..], offset + Size(ls[0]), outstanding, if j < Size(ls[0]) then 0 else j - Size(ls[0]), k);
      RestDequeuesExactly(ls, offset, outstanding, j, k);
    }
  }

  /** A dequeue returns nothing exactly if nothing is eligible. */
  lemma DequeueEmptyIff(q: Queue)
    requires Valid(q)
    ensures Dequeue(q).1 == Nothing <==> forall j, k :: !EligibleAt(q.levels, j, k, q.outstanding)
  {
    forall j, k
      ensures Dequeue(q).1 == Nothing ==> !EligibleAt(q.levels, j, k, q.outstanding)
    {
      DequeueEffect(q.levels, 0, q.outstanding, j, k);
    }
    DequeueEffect(q.levels, 0, q.outstanding, 0, Notification);
  }

  /** The index of the level a characteristic lies in. */
  function LevelOf(ls: seq<Level>, index: nat): nat {
    if ls == [] || index < Size(ls[0]) then 0 else 1 + LevelOf(ls[1..], index - Size(ls[0]))
  }

  lemma LaterLevelDelivers(ls: seq<Level>, offset: nat, outstanding: Outstanding)
    requires ls != [] && forall l :: 0 <= l < |ls| ==> ValidLevel(ls[l])
    requires LevelDequeue(ls[0], offset, outstanding).1 == Nothing
    ensures var d := LevelsDequeue(ls, offset, outstanding).1;
            && d == LevelsDequeue(ls[1..], offset + Size(ls[0]), outstanding).1
            && (d.Delivered? ==> d.index >= offset + Size(ls[0]))
  {
    DequeueEffect(ls[1..], offset + Size(ls[0]), outstanding, 0, Notification);
  }

  /** No level before the delivering one had anything eligible. */
  lemma {:induction false} HigherPriorityFirst(ls: seq<Level>, offset: nat, outstanding: Outstanding, j: nat, k: Kind)
    requires forall l :: 0 <= l < |ls| ==> ValidLevel(ls[l])
    ensures var d := LevelsDequeue(ls, offset, outstanding).1;
            d.Delivered? && d.index >= offset && EligibleAt(ls, j, k, outstanding) ==>
              LevelOf(ls, d.index - offset) <= LevelOf(ls, j)
    decreases |ls|
  {
    if ls == [] {
    } else if LevelDequeue(ls[0], offset, outstanding).1 != Nothing {
      LevelDequeueEffect(ls[0], offset, outstanding, j, k);
    } else {
      LevelDequeueEffect(ls[0], offset, outstanding, j, k);
      LaterLevelDelivers(ls, offset, outstanding);
      if j >= Size(ls[0]) {
        HigherPriorityFirst(ls[1..], offset + Size(ls[0]), outstanding, j - Size(ls[0]), k);
      }
    }
  }

  // ---- Runs ----

  datatype Event =
    | Add(index: nat, kind: Kind)
    | Take
    | ConfirmationReceived
    | ClearAll

  /** A queue with its books: which additions were accepted and what was delivered since the last clear. */
  datatype Ledger = Ledger(queue: Queue, accepted: multiset<(nat, Kind)>, delivered: multiset<(nat, Kind)>)

  function Outcome(q: Queue, e: Event): (Queue, Delivery)
    requires Valid(q)
  {
    match e
    case Add(index, kind) => (NotificationModel.Add(q, index, kind).0, Nothing)
    case Take => Dequeue(q)
    case ConfirmationReceived => (Confirm(q), Nothing)
    case ClearAll => (Clear(q), Nothing)
  }

  function Record(b: Ledger, e: Event): Ledger
    requires Valid(b.queue)
  {
    var (after, d) := Outcome(b.queue, e);
    match e
    case Add(index, kind) =>
      var added := NotificationModel.Add(b.queue, index, kind).1;
      b.(queue := after, accepted := b.accepted + if added then multiset{(index, kind)} else multiset{})
    case Take =>
      b.(queue := after, delivered := b.delivered + if d.Delivered? then multiset{(d.index, d.kind)} else multiset{})
    case ConfirmationReceived => b.(queue := after)
    case ClearAll => Ledger(after, multiset{}, multiset{})
  }

  lemma {:induction false} LevelsStayValid(ls: seq<Level>, index: nat, kind: Kind, offset: nat, outstanding: Outstanding)
    requires forall l :: 0 <= l < |ls| ==> ValidLevel(ls[l])
    ensures forall l :: 0 <= l < |ls| ==> ValidLevel(LevelsAdd(ls, index, kind).0[l])
    ensures forall l :: 0 <= l < |ls| ==> ValidLevel(LevelsDequeue(ls, offset, outstanding).0[l])
    decreases |ls|
  {
    if ls == [] {
    } else {
      LevelsStayValid(ls[1..], if index < Size(ls[0]) then 0 else index - Size(ls[0]), kind, offset + Size(ls[0]), outstanding);
    }
  }

  lemma StaysValid(q: Queue, e: Event)
    requires Valid(q)
    ensures Valid(Outcome(q, e).0)
  {
    LevelsStayValid(q.levels, if e.Add? then e.index else 0, if e.Add? then e.kind else Notification, 0, q.outstanding);
  }

  function RunBooks(b: Ledger, events: seq<Event>): Ledger
    requires Valid(b.queue)
    decreases events
  {
    if events == [] then b else
      StaysValid(b.queue, events[0]);
      RunBooks(Record(b, events[0]), events[1..])
  }

  /** Every accepted addition was delivered once or is still pending. */
  ghost predicate Balanced(b: Ledger) {
    forall i: nat, k :: BalancedAt(b, i, k)
  }

  ghost predicate BalancedAt(b: Ledger, i: nat, k: Kind) {
    b.accepted[(i, k)] == b.delivered[(i, k)] + if PendingAt(b.queue.levels, i, k) then 1 else 0
  }

  lemma {:induction false} ClearedLevelsPending(ls: seq<Level>, j: nat, k: Kind)
    ensures !PendingAt(LevelsClear(ls), j, k)
    decreases |ls|
  {
    if ls == [] {
    } else {
      assert LevelsClear(ls)[1..] == LevelsClear(ls[1..]);
      if j >= Size(ls[0]) {
        ClearedLevelsPending(ls[1..], j - Size(ls[0]), k);
      }
    }
  }

  lemma AdditionIsRecorded(b: Ledger, index: nat, kind: Kind, i: nat, k: Kind)
    requires Valid(b.queue) && BalancedAt(b, i, k)
    ensures BalancedAt(Record(b, Add(index, kind)), i, k)
  {
    AddEffect(b.queue.levels, index, kind, i, k);
  }

  lemma DeliveryIsRecorded(b: Ledger, i: nat, k: Kind)
    requires Valid(b.queue) && BalancedAt(b, i, k)
    ensures BalancedAt(Record(b, Take), i, k)
  {
    DequeueEffect(b.queue.levels, 0, b.queue.outstanding, i, k);
  }

  lemma RecordKeepsBalance(b: Ledger, e: Event)
    requires Valid(b.queue) && Balanced(b)
    ensures Balanced(Record(b, e))
  {
    forall i: nat, k
      ensures BalancedAt(Record(b, e), i, k)
    {
      assert BalancedAt(b, i, k);
      match e
      case Add(index, kind) => AdditionIsRecorded(b, index, kind, i, k);
      case Take => DeliveryIsRecorded(b, i, k);
      case ConfirmationReceived =>
      case ClearAll => ClearedLevelsPending(b.queue.levels, i, k);
    }
  }

  /** Over every run, since the last clear: for each characteristic and kind, accepted additions are the
      deliveries plus one if it is still pending. */
  lemma {:induction false} NothingLostNothingInvented(b: Ledger, events: seq<Event>)
    requires Valid(b.queue) && Balanced(b)
    ensures Balanced(RunBooks(b, events))
    decreases events
  {
    if events == [] {
    } else {
      StaysValid(b.queue, events[0]);
      RecordKeepsBalance(b, events[0]);
      NothingLostNothingInvented(Record(b, events[0]), events[1..]);
    }
  }

  lemma EmptyQueueIsBalanced(q: Queue)
    ensures Balanced(Ledger(Clear(q), multiset{}, multiset{}))
  {
    forall i: nat, k
      ensures BalancedAt(Ledger(Clear(q), multiset{}, multiset{}), i, k)
    {
      ClearedLevelsPending(q.levels, i, k);
    }
  }

  // ---- One outstanding indication ----

  function RunQueue(q: Queue, events: seq<Event>): Queue
    requires Valid(q)
    ensures Valid(RunQueue(q, events))
    decreases events
  {
    if events == [] then q else
      StaysValid(q, events[0]);
      RunQueue(Outcome(q, events[0]).0, events[1..])
  }

  /** What the i-th event of a run delivers. */
  function DeliveryAt(q: Queue, events: seq<Event>, i: nat): Delivery
    requires Valid(q) && i < |events|
    decreases i
  {
    StaysValid(q, events[0]);
    if i == 0 then Outcome(q, events[0]).1 else DeliveryAt(Outcome(q, events[0]).0, events[1..], i - 1)
  }

  predicate Releases(e: Event) {
    e.ConfirmationReceived? || e.ClearAll?
  }

  lemma OutstandingStays(q: Queue, e: Event)
    requires Valid(q) && q.outstanding.Awaiting? && !Releases(e)
    ensures Outcome(q, e).0.outstanding == q.outstanding
    ensures Outcome(q, e).1.Delivered? ==> Outcome(q, e).1.kind == Notification
  {
    DequeueEffect(q.levels, 0, q.outstanding, 0, Notification);
  }

  /** A confirmation or a clear lies between two events of a run. */
  ghost predicate ReleasedBetween(events: seq<Event>, i: int, j: int) {
    exists k :: i < k < j && 0 <= k < |events| && Releases(events[k])
  }

  lemma ReleasedLater(events: seq<Event>, i: int, j: int)
    requires events != [] && i >= 0 - 1 && ReleasedBetween(events[1..], i, j)
    ensures ReleasedBetween(events, i + 1, j + 1) && ReleasedBetween(events, i, j + 1)
  {
    var k :| i < k < j && 0 <= k < |events[1..]| && Releases(events[1..][k]);
    assert Releases(events[k + 1]);
  }

  predicate DeliversIndication(q: Queue, events: seq<Event>, i: nat)
    requires Valid(q) && i < |events|
  {
    DeliveryAt(q, events, i).Delivered? && DeliveryAt(q, events, i).kind == Indication
  }

  lemma {:induction false} NoIndicationWhileOutstanding(q: Queue, events: seq<Event>, j: nat)
    requires Valid(q) && q.outstanding.Awaiting? && j < |events| && DeliversIndication(q, events, j)
    ensures ReleasedBetween(events, -1, j)
    decreases j
  {
    StaysValid(q, events[0]);
    if Releases(events[0]) {
      ReleasesLater(q, events, j);
    } else {
      OutstandingStays(q, events[0]);
      if j > 0 {
        NoIndicationWhileOutstanding(Outcome(q, events[0]).0, events[1..], j - 1);
        ReleasedLater(events, -1, j - 1);
      }
    }
  }

  /** A release delivers nothing itself. */
  lemma ReleasesLater(q: Queue, events: seq<Event>, j: nat)
    requires Valid(q) && j < |events| && DeliversIndication(q, events, j) && Releases(events[0])
    ensures ReleasedBetween(events, -1, j)
  {
    assert j > 0;
  }

  lemma AwaitsBehindIndication(q: Queue, events: seq<Event>)
    requires Valid(q) && events != [] && DeliversIndication(q, events, 0)
    ensures Valid(Outcome(q, events[0]).0) && Outcome(q, events[0]).0.outstanding.Awaiting?
  {
    StaysValid(q, events[0]);
    DequeueEffect(q.levels, 0, q.outstanding, 0, Notification);
  }

  lemma NextDelivery(q: Queue, events: seq<Event>, i: nat)
    requires Valid(q) && 0 < i < |events|
    ensures Valid(Outcome(q, events[0]).0)
    ensures DeliversIndication(q, events, i) == DeliversIndication(Outcome(q, events[0]).0, events[1..], i - 1)
  {
    StaysValid(q, events[0]);
  }

  /** Between two delivered indications lies a confirmation or a clear. */
  lemma {:induction false} OneIndicationAtATime(q: Queue, events: seq<Event>, i: nat, j: nat)
    requires Valid(q) && i < j < |events| && DeliversIndication(q, events, i) && DeliversIndication(q, events, j)
    ensures ReleasedBetween(events, i, j)
    decreases i
  {
    NextDelivery(q, events, j);
    if i == 0 {
      AwaitsBehindIndication(q, events);
      NoIndicationWhileOutstanding(Outcome(q, events[0]).0, events[1..], j - 1);
    } else {
      NextDelivery(q, events, i);
      OneIndicationAtATime(Outcome(q, events[0]).0, events[1..], i - 1, j - 1);
    }
    ReleasedLater(events, i - 1, j - 1);
  }

  /** An output whose value is not sent has used up the indication: it stays outstanding although the client
      cannot confirm it, and no indication is delivered until the queue is confirmed or cleared all the same. */
  lemma DroppedIndicationBlocks(q: Queue, link: Link, events: seq<Event>, j: nat)
    requires Valid(q) && Dequeue(q).1.Delivered? && Dequeue(q).1.kind == Indication
    requires L2capOutput(q, link).1 == Silence
    requires j < |events| && (forall k :: 0 <= k < |events| ==> !Releases(events[k]))
    ensures var after := L2capOutput(q, link).0;
            && Valid(after) && after.outstanding.Awaiting?
            && (DeliveryAt(after, events, j).Delivered? ==> DeliveryAt(after, events, j).kind == Notification)
  {
    var after := L2capOutput(q, link).0;
    StaysValid(q, Take);
    DequeueEffect(q.levels, 0, q.outstanding, 0, Notification);
    if DeliversIndication(after, events, j) {
      NoIndicationWhileOutstanding(after, events, j);
    }
  }

  /** A PDU that is sent carries a kind and an index that were eligible, exactly that is taken out of the queue, and an
      indication is then the outstanding one; whatever is dequeued is sent exactly if it is subscribed, fits, and is
      readable. */
  lemma OutputSendsDelivery(q: Queue, link: Link, j: nat, k: Kind)
    requires Valid(q)
    ensures var (after, out) := L2capOutput(q, link);
            out.Pdu? ==>
              && EligibleAt(q.levels, out.index, out.kind, q.outstanding)
              && PendingAt(after.levels, j, k) == (PendingAt(q.levels, j, k) && !(j == out.index && k == out.kind))
              && after.outstanding == if out.kind == Indication then Awaiting(out.index) else q.outstanding
    ensures var d, out := Dequeue(q).1, L2capOutput(q, link).1;
            && (out.Pdu? ==> d == Delivered(out.kind, out.index))
            && (out == Silence <==>
                  d == Nothing || !link.subscribed(d.index, d.kind) || link.outSize < 3 || !link.readable(d.index))
  {
    DequeueEffect(q.levels, 0, q.outstanding, j, k);
  }

  /** What the i-th event of a run sends, over links that may change in between. */
  function OutputAt(q: Queue, events: seq<Event>, links: seq<Link>, i: nat): Output
    requires Valid(q) && i < |events| == |links|
    decreases i
  {
    StaysValid(q, events[0]);
    if i > 0 then OutputAt(Outcome(q, events[0]).0, events[1..], links[1..], i - 1)
    else if events[0].Take? then L2capOutput(q, links[0]).1
    else Silence
  }

  lemma {:induction false} OutputWasDelivered(q: Queue, events: seq<Event>, links: seq<Link>, i: nat)
    requires Valid(q) && i < |events| == |links|
    ensures var out := OutputAt(q, events, links, i);
            out.Pdu? ==> DeliveryAt(q, events, i) == Delivered(out.kind, out.index)
    decreases i
  {
    if i == 0 {
    } else {
      StaysValid(q, events[0]);
      OutputWasDelivered(Outcome(q, events[0]).0, events[1..], links[1..], i - 1);
    }
  }

  /** Between two indications that are sent lies a confirmation or a clear, whatever the links allow in between. */
  lemma OneIndicationPduAtATime(q: Queue, events: seq<Event>, links: seq<Link>, i: nat, j: nat)
    requires Valid(q) && i < j < |events| == |links|
    requires OutputAt(q, events, links, i).Pdu? && OutputAt(q, events, links, i).kind == Indication
    requires OutputAt(q, events, links, j).Pdu? && OutputAt(q, events, links, j).kind == Indication
    ensures ReleasedBetween(events, i, j)
  {
    OutputWasDelivered(q, events, links, i);
    OutputWasDelivered(q, events, links, j);
    OneIndicationAtATime(q, events, i, j);
  }

  // ---- What additions promise ----

  function Other(kind: Kind): Kind {
    if kind == Notification then Indication else Notification
  }

  /** The number of characteristics of all levels. */
  function TotalSize(ls: seq<Level>): nat {
    if ls == [] then 0 else Size(ls[0]) + TotalSize(ls[1..])
  }

  /** The characteristic has a level of its own that already holds the other kind. */
  predicate TakenByOther(ls: seq<Level>, index: nat, kind: Kind) {
    if ls == [] then false
    else if index < Size(ls[0]) then ls[0].Single? && Pending(ls[0], index, Other(kind))
    else TakenByOther(ls[1..], index - Size(ls[0]), kind)
  }

  lemma LevelAcceptedIff(l: Level, i: nat, kind: Kind)
    requires i < Size(l)
    ensures var (after, added) := LevelAdd(l, i, kind);
            && (added <==> !Pending(l, i, kind) && !(l.Single? && Pending(l, i, Other(kind))))
            && (Pending(after, i, kind) <==> !(l.Single? && Pending(l, i, Other(kind))))
            && Size(after) == Size(l)
  {
  }

  lemma AddInFirstLevel(ls: seq<Level>, index: nat, kind: Kind)
    requires ls != [] && index < Size(ls[0])
    ensures PendingAt(LevelsAdd(ls, index, kind).0, index, kind) == Pending(LevelAdd(ls[0], index, kind).0, index, kind)
  {
    LevelAcceptedIff(ls[0], index, kind);
    PendingAtCons(LevelAdd(ls[0], index, kind).0, ls[1..], index, kind);
  }

  lemma {:induction false} LevelsAcceptedIff(ls: seq<Level>, index: nat, kind: Kind)
    ensures var (after, added) := LevelsAdd(ls, index, kind);
            && (added <==> index < TotalSize(ls) && !PendingAt(ls, index, kind) && !TakenByOther(ls, index, kind))
            && (PendingAt(after, index, kind) <==> index < TotalSize(ls) && !TakenByOther(ls, index, kind))
    decreases |ls|
  {
    if ls == [] {
    } else if index < Size(ls[0]) {
      LevelAcceptedIff(ls[0], index, kind);
      AddInFirstLevel(ls, index, kind);
    } else {
      LevelsAcceptedIff(ls[1..], index - Size(ls[0]), kind);
      PendingAtCons(ls[0], LevelsAdd(ls[1..], index - Size(ls[0]), kind).0, index, kind);
    }
  }

  /** An addition for a characteristic of the queue is accepted exactly if the same kind was not queued before, as
      documented, except on a level of one characteristic that holds the other kind: there it is refused, and not
      queued. */
  lemma AcceptedIff(q: Queue, index: nat, kind: Kind)
    ensures var (after, added) := NotificationModel.Add(q, index, kind);
            && (added <==> index < TotalSize(q.levels) && !PendingAt(q.levels, index, kind) && !TakenByOther(q.levels, index, kind))
            && (PendingAt(after.levels, index, kind) <==> index < TotalSize(q.levels) && !TakenByOther(q.levels, index, kind))
  {
    LevelsAcceptedIff(q.levels, index, kind);
  }

  // ---- Waiting in a ring ----

  /** A notification waits at place j of a ring. */
  ghost predicate Waits(l: Level, j: nat) {
    l.Ring? && ValidLevel(l) && j < |l.entries| && l.entries[j].notify
  }

  /** How many other places the ring may serve before place j. */
  function WaitMeasure(l: Level, j: nat): int
    requires l.Ring?
  {
    Distance(l.next, j, |l.entries|)
  }

  /** A delivery of another place brings the scan nearer to the waiting one. */
  lemma DeliveryBringsNearer(l: Level, offset: nat, outstanding: Outstanding, j: nat)
    requires Waits(l, j)
    ensures var (after, d, _) := LevelDequeue(l, offset, outstanding);
            && d.Delivered? && offset <= d.index < offset + Size(l)
            && (d.index != offset + j ==> Waits(after, j) && WaitMeasure(after, j) < WaitMeasure(l, j))
            && 0 <= WaitMeasure(after, j)
  {
    ScanFindsFirst(l.entries, l.next, |l.entries|, outstanding, j);
  }

  function Offset(ls: seq<Level>, level: nat): nat
    requires level <= |ls|
  {
    if level == 0 then 0 else Size(ls[0]) + Offset(ls[1..], level - 1)
  }

  /** A delivery of one level. */
  predicate FromLevel(ls: seq<Level>, level: nat, d: Delivery)
    requires level < |ls|
  {
    d.Delivered? && Offset(ls, level) <= d.index < Offset(ls, level) + Size(ls[level])
  }

  lemma {:induction false} AddTouchesBits(ls: seq<Level>, index: nat, kind: Kind, level: nat, j: nat)
    requires level < |ls| && Waits(ls[level], j)
    ensures var after := LevelsAdd(ls, index, kind).0;
            && Offset(after, level) == Offset(ls, level) && Size(after[level]) == Size(ls[level])
            && Waits(after[level], j) && WaitMeasure(after[level], j) == WaitMeasure(ls[level], j)
    decreases |ls|
  {
    var after := LevelsAdd(ls, index, kind).0;
    if index < Size(ls[0]) {
      assert after[1..] == ls[1..];
    } else {
      assert after[1..] == LevelsAdd(ls[1..], index - Size(ls[0]), kind).0;
      if level > 0 {
        AddTouchesBits(ls[1..], index - Size(ls[0]), kind, level - 1, j);
      }
    }
  }

  ghost predicate ServedFairly(ls: seq<Level>, after: seq<Level>, level: nat, j: nat, d: Delivery, offset: nat)
    requires level < |ls| == |after| && Waits(ls[level], j)
  {
    var first := offset + Offset(ls, level);
    var here := d.Delivered? && first <= d.index < first + Size(ls[level]);
    && Offset(after, level) == Offset(ls, level) && Size(after[level]) == Size(ls[level])
    && after[level].Ring?
    && (d == Nothing || !(here && d.index == first + j) ==>
          Waits(after[level], j) && WaitMeasure(after[level], j) + (if here then 1 else 0) <= WaitMeasure(ls[level], j))
    && 0 <= WaitMeasure(after[level], j)
  }

  lemma FirstLevelIsFair(l: Level, ls: seq<Level>, offset: nat, outstanding: Outstanding, j: nat)
    requires ValidLevel(l) && Waits(l, j)
    ensures var (after, d, _) := LevelDequeue(l, offset, outstanding);
            d.Delivered? && ServedFairly([l] + ls, [after] + ls, 0, j, d, offset)
  {
    DeliveryBringsNearer(l, offset, outstanding, j);
  }

  lemma LaterLevelIsFair(l: Level, after: Level, ls: seq<Level>, rest: seq<Level>, offset: nat, level: nat, j: nat, d: Delivery)
    requires 0 < level <= |ls| == |rest| && Waits(ls[level - 1], j) && Size(after) == Size(l)
    requires ServedFairly(ls, rest, level - 1, j, d, offset + Size(l))
    ensures ServedFairly([l] + ls, [after] + rest, level, j, d, offset)
  {
    assert ([l] + ls)[1..] == ls && ([after] + rest)[1..] == rest;
  }

  /** A delivery of the first level leaves the others alone. */
  lemma OtherLevelIsFair(l: Level, ls: seq<Level>, offset: nat, outstanding: Outstanding, level: nat, j: nat)
    requires ValidLevel(l) && 0 < level <= |ls| && Waits(ls[level - 1], j)
    requires LevelDequeue(l, offset, outstanding).1 != Nothing
    ensures var (after, d, _) := LevelDequeue(l, offset, outstanding);
            ServedFairly([l] + ls, [after] + ls, level, j, d, offset)
  {
    var (after, d, _) := LevelDequeue(l, offset, outstanding);
    LevelDequeueEffect(l, offset, outstanding, 0, Notification);
    OffsetBehind(l, ls, level);
    OffsetBehind(after, ls, level);
  }

  lemma OffsetBehind(l: Level, ls: seq<Level>, level: nat)
    requires 0 < level <= |ls|
    ensures Offset([l] + ls, level) == Size(l) + Offset(ls, level - 1) && ([l] + ls)[level] == ls[level - 1]
  {
    assert ([l] + ls)[1..] == ls;
  }

  /** What a dequeue of all levels does is fair to a place of one of them. */
  ghost predicate DequeueServesFairly(ls: seq<Level>, offset: nat, outstanding: Outstanding, level: nat, j: nat)
    requires level < |ls| && Waits(ls[level], j)
    requires forall l :: 0 <= l < |ls| ==> ValidLevel(ls[l])
  {
    var (after, d, _) := LevelsDequeue(ls, offset, outstanding);
    ServedFairly(ls, after, level, j, d, offset)
  }

  lemma FairInRest(ls: seq<Level>, offset: nat, outstanding: Outstanding, level: nat, j: nat)
    requires 0 < level < |ls| && Waits(ls[level], j)
    requires forall l :: 0 <= l < |ls| ==> ValidLevel(ls[l])
    requires LevelDequeue(ls[0], offset, outstanding).1 == Nothing
    requires DequeueServesFairly(ls[1..], offset + Size(ls[0]), outstanding, level - 1, j)
    ensures DequeueServesFairly(ls, offset, outstanding, level, j)
  {
    var (rest, d, _) := LevelsDequeue(ls[1..], offset + Size(ls[0]), outstanding);
    DequeueFromHead(ls, offset, outstanding);
    LaterLevelIsFair(ls[0], ls[0], ls[1..], rest, offset, level, j, d);
  }

  lemma FairInHead(ls: seq<Level>, offset: nat, outstanding: Outstanding, level: nat, j: nat)
    requires level < |ls| && Waits(ls[level], j)
    requires forall l :: 0 <= l < |ls| ==> ValidLevel(ls[l])
    requires level > 0 ==> LevelDequeue(ls[0], offset, outstanding).1 != Nothing
    ensures DequeueServesFairly(ls, offset, outstanding, level, j)
  {
    DequeueFromHead(ls, offset, outstanding);
    if level == 0 {
      FirstLevelIsFair(ls[0], ls[1..], offset, outstanding, j);
    } else {
      OtherLevelIsFair(ls[0], ls[1..], offset, outstanding, level, j);
    }
  }

  lemma {:induction false} DequeueIsFair(ls: seq<Level>, offset: nat, outstanding: Outstanding, level: nat, j: nat)
    requires level < |ls| && Waits(ls[level], j)
    requires forall l :: 0 <= l < |ls| ==> ValidLevel(ls[l])
    ensures DequeueServesFairly(ls, offset, outstanding, level, j)
    decreases |ls|
  {
    if level == 0 || LevelDequeue(ls[0], offset, outstanding).1 != Nothing {
      FairInHead(ls, offset, outstanding, level, j);
    } else {
      DequeueIsFair(ls[1..], offset + Size(ls[0]), outstanding, level - 1, j);
      FairInRest(ls, offset, outstanding, level, j);
    }
  }

  /** How many deliveries of a run come from one level. */
  function DeliveriesFrom(q: Queue, events: seq<Event>, level: nat): nat
    requires Valid(q) && level < |q.levels|
    decreases events
  {
    if events == [] then 0 else
      StaysValid(q, events[0]);
      var (after, d) := Outcome(q, events[0]);
      (if FromLevel(q.levels, level, d) then 1 else 0) +
      if level < |after.levels| then DeliveriesFrom(after, events[1..], level) else 0
  }

  /** Place j of a level is not served by a run, and the run does not clear the queue. */
  ghost predicate KeepsWaiting(q: Queue, events: seq<Event>, level: nat, j: nat)
    requires Valid(q) && level < |q.levels|
  {
    forall i :: 0 <= i < |events| ==>
      !events[i].ClearAll? &&
      (DeliveryAt(q, events, i).Delivered? ==> DeliveryAt(q, events, i).index != Offset(q.levels, level) + j)
  }

  lemma StepIsFair(q: Queue, e: Event, level: nat, j: nat)
    requires Valid(q) && level < |q.levels| && Waits(q.levels[level], j) && !e.ClearAll?
    ensures var (after, d) := Outcome(q, e);
            |after.levels| == |q.levels| && ServedFairly(q.levels, after.levels, level, j, d, 0)
  {
    match e
    case Add(index, kind) => AddTouchesBits(q.levels, index, kind, level, j);
    case Take => DequeueIsFair(q.levels, 0, q.outstanding, level, j);
    case ConfirmationReceived =>
    case ClearAll =>
  }

  lemma RestKeepsWaiting(q: Queue, events: seq<Event>, level: nat, j: nat)
    requires Valid(q) && level < |q.levels| && events != [] && KeepsWaiting(q, events, level, j)
    requires Valid(Outcome(q, events[0]).0) && |Outcome(q, events[0]).0.levels| == |q.levels|
    requires Offset(Outcome(q, events[0]).0.levels, level) == Offset(q.levels, level)
    ensures KeepsWaiting(Outcome(q, events[0]).0, events[1..], level, j)
  {
    forall i | 0 <= i < |events[1..]|
      ensures DeliveryAt(Outcome(q, events[0]).0, events[1..], i) == DeliveryAt(q, events, i + 1)
      ensures events[1..][i] == events[i + 1]
    {
    }
  }

  /** While a notification waits at place j of a ring of n, the ring serves at most n - 1 other places, whatever
      is queued, confirmed and served elsewhere meanwhile. */
  lemma {:induction false} BoundedWaiting(q: Queue, events: seq<Event>, level: nat, j: nat)
    requires Valid(q) && level < |q.levels| && Waits(q.levels[level], j)
    requires KeepsWaiting(q, events, level, j)
    ensures DeliveriesFrom(q, events, level) <= WaitMeasure(q.levels[level], j) <= Size(q.levels[level]) - 1
    decreases events
  {
    if events == [] {
    } else {
      var (after, d) := Outcome(q, events[0]);
      StaysValid(q, events[0]);
      StepIsFair(q, events[0], level, j);
      assert DeliveryAt(q, events, 0) == d;
      RestKeepsWaiting(q, events, level, j);
      BoundedWaiting(after, events[1..], level, j);
    }
  }

  // ---- What ends the wait of an indication ----

  /** A confirmation changes nothing that is pending, and all of it can be delivered then. */
  lemma ConfirmationReleases(q: Queue, j: nat, k: Kind)
    requires Valid(q)
    ensures var after := Outcome(q, ConfirmationReceived).0;
            && Outcome(q, ConfirmationReceived).1 == Nothing
            && PendingAt(after.levels, j, k) == PendingAt(q.levels, j, k)
            && (EligibleAt(after.levels, j, k, after.outstanding) <==> PendingAt(q.levels, j, k))
  {
  }

  /** Behind a confirmation, the next dequeue delivers something exactly if anything was pending. */
  lemma DeliversBehindConfirmation(q: Queue)
    requires Valid(q)
    ensures Valid(Outcome(q, ConfirmationReceived).0)
    ensures Outcome(Outcome(q, ConfirmationReceived).0, Take).1.Delivered? <==> exists j, k :: PendingAt(q.levels, j, k)
  {
    var after := Outcome(q, ConfirmationReceived).0;
    StaysValid(q, ConfirmationReceived);
    var d := Dequeue(after).1;
    if d.Delivered? {
      DequeueEffect(after.levels, 0, after.outstanding, d.index, d.kind);
      ConfirmationReleases(q, d.index, d.kind);
      assert PendingAt(q.levels, d.index, d.kind);
    } else {
      DequeueEmptyIff(after);
      forall j, k
        ensures !PendingAt(q.levels, j, k)
      {
        ConfirmationReleases(q, j, k);
        assert !EligibleAt(after.levels, j, k, after.outstanding);
      }
    }
  }

  lemma {:induction false} ClearedRoom(ls: seq<Level>, j: nat, k: Kind)
    ensures TotalSize(LevelsClear(ls)) == TotalSize(ls) && !TakenByOther(LevelsClear(ls), j, k)
    decreases ls
  {
    if ls == [] {
    } else {
      assert LevelsClear(ls)[1..] == LevelsClear(ls[1..]);
      ClearedRoom(ls[1..], if j < Size(ls[0]) then 0 else j - Size(ls[0]), k);
    }
  }

  /** Behind a clear nothing is pending and every characteristic still has its place; whatever is added then, an
      indication too, can be delivered at once. */
  lemma ClearReleases(q: Queue, index: nat, kind: Kind, j: nat, k: Kind)
    requires Valid(q)
    ensures Valid(Outcome(q, ClearAll).0)
    ensures var after := Outcome(q, ClearAll).0;
            var added := Outcome(after, Add(index, kind)).0;
            && TotalSize(after.levels) == TotalSize(q.levels) && !PendingAt(after.levels, j, k)
            && (EligibleAt(added.levels, index, kind, added.outstanding) <==> index < TotalSize(q.levels))
  {
    var after := Outcome(q, ClearAll).0;
    StaysValid(q, ClearAll);
    ClearedLevelsPending(q.levels, j, k);
    ClearedLevelsPending(q.levels, index, kind);
    ClearedRoom(q.levels, index, kind);
    AcceptedIff(after, index, kind);
  }

  // ---- Which of two kinds comes first ----

  lemma LevelKindFirst(l: Level, offset: nat, outstanding: Outstanding)
    requires ValidLevel(l)
    ensures var d := LevelDequeue(l, offset, outstanding).1;
            d.Delivered? ==>
              d.index >= offset &&
              d.kind == if outstanding == NoIndication && Pending(l, d.index - offset, Indication) then Indication else Notification
  {
  }

  lemma {:induction false} LevelsKindFirst(ls: seq<Level>, offset: nat, outstanding: Outstanding)
    requires forall l :: 0 <= l < |ls| ==> ValidLevel(ls[l])
    ensures var d := LevelsDequeue(ls, offset, outstanding).1;
            d.Delivered? ==>
              d.index >= offset &&
              d.kind == if outstanding == NoIndication && PendingAt(ls, d.index - offset, Indication) then Indication else Notification
    decreases |ls|
  {
    if ls == [] {
    } else {
      DequeueFromHead(ls, offset, outstanding);
      LevelKindFirst(ls[0], offset, outstanding);
      LevelDequeueEffect(ls[0], offset, outstanding, 0, Notification);
      LevelsKindFirst(ls[1..], offset + Size(ls[0]), outstanding);
    }
  }

  /** If both kinds are pending for the characteristic that is served, its indication comes first, unless one is
      outstanding. */
  lemma IndicationComesFirst(q: Queue)
    requires Valid(q)
    ensures var d := Dequeue(q).1;
            d.Delivered? ==>
              d.kind == if q.outstanding == NoIndication && PendingAt(q.levels, d.index, Indication) then Indication else Notification
  {
    LevelsKindFirst(q.levels, 0, q.outstanding);
  }
}
