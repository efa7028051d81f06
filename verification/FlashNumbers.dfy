/** The numbers that the progress reads of a session report. */
module FlashNumbers {
  import opened Bytes
  import opened Crc32
  import opened FlashModel
  import opened FlashSession
  import opened FlashSteps
  import opened FlashWrites
  import opened FlashTheorems

  const NUMBERS := 0x1_0000

  /** How many buffers are filling or flashing. */
  function InUse(s: System): nat
    requires WellFormed(s)
  {
    (if s.buffers[0].state == Idle then 0 else 1) + (if s.buffers[1].state == Idle then 0 else 1)
  }

  /** After so many progress reads: the buffer in use has the last number, the other one, if it is in use, the number
      before it, and the numbers not reported yet are those of the buffers in use. */
  ghost predicate Numbered(s: System, count: nat) {
    && WellFormed(s)
    && s.consecutive < NUMBERS
    && s.buffers[s.next].consecutive == s.consecutive
    && (s.buffers[OtherBuffer(s.next)].state != Idle ==>
          s.buffers[OtherBuffer(s.next)].consecutive == (s.consecutive + NUMBERS - 1) % NUMBERS)
    && (s.consecutive + 1) % NUMBERS == (count + InUse(s)) % NUMBERS
  }

  /** Nothing changes that the numbers depend on. */
  ghost predicate SameNumbers(s: System, t: System) {
    && |s.buffers| == |t.buffers| == CONCURRENT_FLASHS
    && t.consecutive == s.consecutive && t.next == s.next
    && forall i :: 0 <= i < CONCURRENT_FLASHS ==>
         t.buffers[i].consecutive == s.buffers[i].consecutive && (t.buffers[i].state == Idle <==> s.buffers[i].state == Idle)
  }

  lemma SameNumbersKeep(s: System, t: System, count: nat)
    requires Numbered(s, count) && WellFormed(t) && SameNumbers(s, t)
    ensures Numbered(t, count)
  {
  }

  lemma WriteBufferKeepsNumbers(s: System, value: seq<Byte>)
    requires WellFormed(s) && HasRoom(s) && s.buffers[s.next].state == Filling
    ensures SameNumbers(s, WriteBuffer(s, value).0)
  {
  }

  lemma NextNumber(consecutive: nat, count: nat, inUse: nat)
    requires consecutive < NUMBERS && (consecutive + 1) % NUMBERS == (count + inUse) % NUMBERS
    ensures ((consecutive + 1) % NUMBERS + 1) % NUMBERS == (count + (inUse + 1)) % NUMBERS
    ensures consecutive == ((consecutive + 1) % NUMBERS + NUMBERS - 1) % NUMBERS
  {
  }

  lemma OneMoreInUse(s: System)
    requires WellFormed(s) && s.buffers[OtherBuffer(s.next)].state == Idle
    requires WellFormed(OpenNext(s))
    ensures InUse(OpenNext(s)) == InUse(s) + 1
  {
  }

  lemma OpenKeepsNumbers(s: System, count: nat)
    requires Numbered(s, count) && s.buffers[OtherBuffer(s.next)].state == Idle
    ensures Numbered(OpenNext(s), count)
  {
    NextNumber(s.consecutive, count, InUse(s));
    OneMoreInUse(s);
  }

  lemma {:induction false} WriteLoopKeepsNumbers(s: System, value: seq<Byte>, count: nat)
    requires Numbered(s, count) && HasRoom(s) && s.buffers[s.next].state == Filling
    ensures Numbered(WriteLoop(s, value).0, count)
    decreases |value|
  {
    if value == [] {
    } else {
      var (after, n) := WriteBuffer(s, value);
      WriteBufferKeepsNumbers(s, value);
      SameNumbersKeep(s, after, count);
      LoopUnfolds(s, value);
      if LoopContinues(s, value) {
        NextPass(s, value);
        OpenKeepsNumbers(after, count);
        WriteLoopKeepsNumbers(OpenNext(after), value[n..], count);
      }
    }
  }

  lemma WriteKeepsNumbers(s: System, value: seq<Byte>, count: nat)
    requires Numbered(s, count) && HasRoom(s)
    ensures Numbered(WriteData(s, value).0, count)
  {
    if s.inFlashMode && value != [] {
      if s.buffers[s.next].state == Filling {
        WriteLoopKeepsNumbers(s, value, count);
      } else if s.buffers[OtherBuffer(s.next)].state == Idle {
        OpenKeepsNumbers(s, count);
        WriteLoopKeepsNumbers(OpenNext(s), value, count);
      }
    }
  }

  lemma FlushKeepsNumbers(s: System, count: nat)
    requires Numbered(s, count)
    ensures WellFormed(Flush(s).0) && SameNumbers(s, Flush(s).0)
  {
  }

  lemma ProgressCounts(s: System, count: nat)
    requires Numbered(s, count) && s.buffers[s.used].state != Idle
    ensures Numbered(Progress(s), count + 1)
  {
  }

  function ProgressReads(events: seq<Event>): nat {
    if events == [] then 0 else (if events[0] == ProgressRead then 1 else 0) + ProgressReads(events[1..])
  }

  lemma StepKeepsNumbers(ses: Session, e: Event, count: nat)
    requires Numbered(ses.sys, count) && HasRoom(ses.sys)
    requires e == ProgressRead ==> ses.sys.buffers[ses.sys.used].state != Idle
    ensures Numbered(Step(ses, e).sys, Counted(e, count))
  {
    match e
    case Write(value) => WriteKeepsNumbers(ses.sys, value, count);
    case FlushRequest =>
      FlushKeepsNumbers(ses.sys, count);
      SameNumbersKeep(ses.sys, Flush(ses.sys).0, count);
    case PageProgrammed => SameNumbersKeep(ses.sys, ConnectionEvent(ses.sys), count);
    case ProgressRead => ProgressCounts(ses.sys, count);
  }

  function Counted(e: Event, count: nat): nat {
    if e == ProgressRead then count + 1 else count
  }

  /** Progress is only read of a buffer in use. */
  lemma ReadsBufferInUse(ses: Session, e: Event)
    requires Ordered(ses) && Enabled(ses, e)
    ensures e == ProgressRead ==> ses.sys.buffers[ses.sys.used].state != Idle
  {
  }

  ghost predicate InvNumbered(ses: Session, count: nat) {
    Inv(ses) && Numbered(ses.sys, count)
  }

  lemma StepCounts(ses: Session, e: Event, count: nat)
    requires InvNumbered(ses, count) && Enabled(ses, e)
    ensures InvNumbered(Step(ses, e), Counted(e, count))
  {
    ReadsBufferInUse(ses, e);
    StepKeepsInv(ses, e);
    StepKeepsNumbers(ses, e, count);
  }

  lemma {:induction false} RunCounts(ses: Session, events: seq<Event>, count: nat) returns (final: Session, total: nat)
    requires InvNumbered(ses, count) && EnabledRun(ses, events)
    ensures final == Run(ses, events) && total == count + ProgressReads(events)
    ensures InvNumbered(final, total)
    decreases events
  {
    if events == [] {
      final, total := ses, count;
    } else {
      StepCounts(ses, events[0], count);
      final, total := RunCounts(Step(ses, events[0]), events[1..], Counted(events[0], count));
    }
  }

  lemma StartedNumbers(s: System, address: nat, seed: Word)
    requires WellFormed(s)
    ensures Numbered(Started(s, address, seed).sys, 0)
  {
  }

  lemma FinalNumbers(s: System, address: nat, seed: Word, events: seq<Event>) returns (final: Session, total: nat)
    requires IsRun(s, address, seed, events)
    ensures final == Final(s, address, seed, events) && total == ProgressReads(events)
    ensures InvNumbered(final, total)
  {
    StartedInv(s, address, seed);
    StartedNumbers(s, address, seed);
    final, total := RunCounts(Started(s, address, seed), events, 0);
  }

  /** The oldest buffer of a session with an unreported page has the number of progress reads so far. */
  lemma OldestNumber(ses: Session, count: nat)
    requires Numbered(ses.sys, count) && InOrder(ses) && ses.unreported > 0
    ensures ses.sys.buffers[ses.sys.used].consecutive == count % NUMBERS
  {
    var s := ses.sys;
    assert s.used == s.next || s.used == OtherBuffer(s.next);
    if s.used == s.next {
      assert s.buffers[OtherBuffer(s.next)].state == Idle;
    }
  }

  /** The progress reads of a session report 0, 1, 2 and so on, modulo 2^16, whatever happens in between. */
  lemma ProgressReadsCountUp(s: System, address: nat, seed: Word, events: seq<Event>)
    requires IsRun(s, address, seed, events) && Final(s, address, seed, events).unreported > 0
    ensures var sys := Final(s, address, seed, events).sys;
            sys.buffers[sys.used].consecutive == ProgressReads(events) % 0x1_0000
  {
    var final, total := FinalNumbers(s, address, seed, events);
    OldestNumber(final, total);
  }
}
