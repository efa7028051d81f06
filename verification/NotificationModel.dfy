/**
 The queue of outgoing notifications and indications as a transition system on values: levels in order of
 priority, one outstanding indication for all of them. `NotificationQueue` proves the packed bytes against
 these functions, `NotificationTheorems` proves what every run of them does.
 */
module NotificationModel {
  datatype Kind = Notification | Indication

  /** What is queued for one characteristic. */
  datatype Entry = Entry(notify: bool, indicate: bool)

  datatype SlotState = Empty | Queued(kind: Kind)

  /** A level of one characteristic stores one state, any other level two bits a characteristic and where to
      look first. */
  datatype Level = Single(state: SlotState) | Ring(entries: seq<Entry>, next: nat)

  datatype Outstanding = NoIndication | Awaiting(index: nat)

  datatype Delivery = Nothing | Delivered(kind: Kind, index: nat)

  datatype Queue = Queue(levels: seq<Level>, outstanding: Outstanding)

  function Size(l: Level): nat {
    match l
    case Single(_) => 1
    case Ring(entries, _) => |entries|
  }

  /** Every level holds a characteristic, and the one of a ring to look at first exists. */
  ghost predicate ValidLevel(l: Level) {
    l.Ring? ==> l.next < |l.entries|
  }

  ghost predicate Valid(q: Queue) {
    forall l :: 0 <= l < |q.levels| ==> ValidLevel(q.levels[l])
  }

  function Has(e: Entry, kind: Kind): bool {
    match kind
    case Notification => e.notify
    case Indication => e.indicate
  }

  function With(e: Entry, kind: Kind, value: bool): Entry {
    match kind
    case Notification => e.(notify := value)
    case Indication => e.(indicate := value)
  }

  function Pending(l: Level, i: nat, kind: Kind): bool {
    match l
    case Single(state) => i == 0 && state == Queued(kind)
    case Ring(entries, _) => i < |entries| && Has(entries[i], kind)
  }

  // ---- One level ----

  function LevelAdd(l: Level, i: nat, kind: Kind): (Level, bool)
    requires i < Size(l)
  {
    match l
    case Single(state) => if state == Empty then (Single(Queued(kind)), true) else (l, false)
    case Ring(entries, next) => (Ring(entries[i := With(entries[i], kind, true)], next), !Has(entries[i], kind))
  }

  /** What an entry would deliver: its indication if none is outstanding, otherwise its notification. */
  function Offer(e: Entry, outstanding: Outstanding): SlotState {
    if e.indicate && outstanding == NoIndication then Queued(Indication)
    else if e.notify then Queued(Notification)
    else Empty
  }

  function Wrap(i: nat, n: nat): nat {
    if i + 1 == n then 0 else i + 1
  }

  /** The scan of `left` entries from i on, in a circle: the index that delivers, or the size of the ring. */
  function Scan(entries: seq<Entry>, i: nat, left: nat, outstanding: Outstanding): (r: nat)
    requires i < |entries|
    ensures r <= |entries|
    ensures r < |entries| ==> Offer(entries[r], outstanding).Queued?
    decreases left
  {
    if left == 0 then |entries|
    else if Offer(entries[i], outstanding).Queued? then i
    else Scan(entries, Wrap(i, |entries|), left - 1, outstanding)
  }

  function Delivering(l: Level, outstanding: Outstanding): (i: nat)
    requires ValidLevel(l)
    ensures i <= Size(l)
  {
    match l
    case Single(state) => if state == Queued(Notification) || (state == Queued(Indication) && outstanding == NoIndication) then 0 else 1
    case Ring(entries, next) => Scan(entries, next, |entries|, outstanding)
  }

  /** The outcome of a dequeue on one level; `offset` is the index of its first characteristic. */
  function LevelDequeue(l: Level, offset: nat, outstanding: Outstanding): (r: (Level, Delivery, Outstanding))
    requires ValidLevel(l)
    ensures ValidLevel(r.0) && Size(r.0) == Size(l)
  {
    var i := Delivering(l, outstanding);
    if i == Size(l) then (l, Nothing, outstanding) else
      var kind := match l
        case Single(state) => state.kind
        case Ring(entries, _) => Offer(entries[i], outstanding).kind;
      var left := match l
        case Single(_) => Single(Empty)
        case Ring(entries, _) => Ring(entries[i := With(entries[i], kind, false)], Wrap(i, |entries|));
      (left, Delivered(kind, offset + i), if kind == Indication then Awaiting(offset + i) else outstanding)
  }

  function LevelClear(l: Level): Level {
    match l
    case Single(_) => Single(Empty)
    case Ring(entries, _) => Ring(seq(|entries|, _ => Entry(false, false)), 0)
  }

  // ---- All levels, from one level on ----

  function LevelsAdd(ls: seq<Level>, index: nat, kind: Kind): (r: (seq<Level>, bool))
    ensures |r.0| == |ls|
  {
    if ls == [] then (ls, false)
    else if index < Size(ls[0]) then
      var (l, added) := LevelAdd(ls[0], index, kind);
      ([l] + ls[1..], added)
    else
      var (rest, added) := LevelsAdd(ls[1..], index - Size(ls[0]), kind);
      ([ls[0]] + rest, added)
  }

  function LevelsDequeue(ls: seq<Level>, offset: nat, outstanding: Outstanding): (r: (seq<Level>, Delivery, Outstanding))
    requires forall l :: 0 <= l < |ls| ==> ValidLevel(ls[l])
    ensures |r.0| == |ls|
    decreases |ls|
  {
    if ls == [] then (ls, Nothing, outstanding) else
      var (l, d, o) := LevelDequeue(ls[0], offset, outstanding);
      if d != Nothing then ([l] + ls[1..], d, o) else
        var (rest, d', o') := LevelsDequeue(ls[1..], offset + Size(ls[0]), outstanding);
        ([ls[0]] + rest, d', o')
  }

  function LevelsClear(ls: seq<Level>): seq<Level> {
    seq(|ls|, l requires 0 <= l < |ls| => LevelClear(ls[l]))
  }

  // ---- The queue ----

  function Add(q: Queue, index: nat, kind: Kind): (Queue, bool) {
    var (levels, added) := LevelsAdd(q.levels, index, kind);
    (q.(levels := levels), added)
  }

  function Dequeue(q: Queue): (Queue, Delivery)
    requires Valid(q)
  {
    var (levels, d, o) := LevelsDequeue(q.levels, 0, q.outstanding);
    (Queue(levels, o), d)
  }

  function Confirm(q: Queue): Queue {
    q.(outstanding := NoIndication)
  }

  function Clear(q: Queue): Queue {
    Queue(LevelsClear(q.levels), NoIndication)
  }

  /** What is queued for the characteristic with an index over all levels. */
  function PendingAt(ls: seq<Level>, index: nat, kind: Kind): bool {
    if ls == [] then false
    else if index < Size(ls[0]) then Pending(ls[0], index, kind)
    else PendingAt(ls[1..], index - Size(ls[0]), kind)
  }

  // ---- server::l2cap_output ----

  datatype Output = Silence | Pdu(kind: Kind, index: nat)

  /** What the output needs besides the queue: subscriptions by index, room in the buffer, and whether the
      value can be read. */
  datatype Link = Link(subscribed: (nat, Kind) -> bool, outSize: nat, readable: nat -> bool)

  function L2capOutput(q: Queue, link: Link): (Queue, Output)
    requires Valid(q)
  {
    var (after, d) := Dequeue(q);
    match d
    case Nothing => (after, Silence)
    case Delivered(kind, index) =>
      if link.subscribed(index, kind) && link.outSize >= 3 && link.readable(index) then (after, Pdu(kind, index))
      else (after, Silence)
  }
}
