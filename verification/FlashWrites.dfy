/** A data write is a sequence of steps: bytes into the open page, full pages handed over, next buffers opened. So
    every event keeps the invariant. */
module FlashWrites {
  import opened Bytes
  import opened Crc32
  import opened EditLog
  import opened FlashModel
  import opened FlashSession
  import opened FlashSteps

  // ---- One pass of the loop ----

  ghost predicate InLoop(ses: Session) {
    Inv(ses) && ses.sys.buffers[ses.sys.next].state == Filling
  }

  /** What the loop of a write needs and keeps of the order of buffers and queue. */
  ghost predicate OrderedLoop(ses: Session) {
    Ordered(ses) && HasRoom(ses.sys) && ses.sys.buffers[ses.sys.next].state == Filling
  }

  /** How many bytes the open buffer takes of a value. */
  function Fits(s: System, value: seq<Byte>): nat
    requires WellFormed(s)
  {
    var free := s.pageSize - s.buffers[s.next].ptr;
    if 0 <= free < |value| then free else |value|
  }

  ghost predicate Fills(s: System, value: seq<Byte>)
    requires WellFormed(s)
  {
    s.buffers[s.next].ptr + Fits(s, value) == s.pageSize
  }

  /** The session after one write_data on the open buffer. */
  function PassStep(ses: Session, value: seq<Byte>): Session
    requires WellFormed(ses.sys) && HasRoom(ses.sys) && ses.sys.buffers[ses.sys.next].state == Filling
  {
    var (after, n) := WriteBuffer(ses.sys, value);
    ses.(sys := after, sent := ses.sent + value[..n])
  }

  lemma FillingPass(ses: Session, value: seq<Byte>)
    requires WellFormed(ses.sys) && HasRoom(ses.sys) && ses.sys.buffers[ses.sys.next].state == Filling
    requires Fills(ses.sys, value)
    ensures PassStep(ses, value) == IssueStep(AppendStep(ses, value[..Fits(ses.sys, value)]))
  {
  }

  lemma PartialPass(ses: Session, value: seq<Byte>)
    requires WellFormed(ses.sys) && HasRoom(ses.sys) && ses.sys.buffers[ses.sys.next].state == Filling
    requires !Fills(ses.sys, value)
    ensures PassStep(ses, value) == AppendStep(ses, value) && WriteBuffer(ses.sys, value).1 == |value|
  {
    assert value[..|value|] == value;
  }

  lemma PassKeepsOrder(ses: Session, value: seq<Byte>)
    requires OrderedLoop(ses) && value != []
    ensures Ordered(PassStep(ses, value))
  {
    if Fills(ses.sys, value) {
      var taken := value[..Fits(ses.sys, value)];
      AppendKeepsOrder(ses, taken);
      IssueKeepsOrder(AppendStep(ses, taken));
      FillingPass(ses, value);
    } else {
      AppendKeepsOrder(ses, value);
      PartialPass(ses, value);
    }
  }

  lemma PassKeepsInv(ses: Session, value: seq<Byte>)
    requires InLoop(ses) && value != []
    ensures Inv(PassStep(ses, value))
  {
    if Fills(ses.sys, value) {
      var taken := value[..Fits(ses.sys, value)];
      AppendKeepsCore(ses, taken);
      IssueKeepsInv(AppendStep(ses, taken));
      FillingPass(ses, value);
    } else {
      AppendKeepsCore(ses, value);
      PartialPass(ses, value);
    }
  }

  /** A pass that leaves bytes of the value filled the page: the next page starts behind it. */
  lemma PassEndsPage(ses: Session, value: seq<Byte>)
    requires OrderedLoop(ses) && WriteBuffer(ses.sys, value).1 < |value|
    ensures var after := WriteBuffer(ses.sys, value).0;
            after.buffers[after.next].state == Flashing && !MidPage(after)
  {
    var s := ses.sys;
    var b := s.buffers[s.next];
    NextPage(b.addr, s.pageSize);
    OnPageIsMultiple(b.addr + s.pageSize, s.pageSize);
  }

  /** The loop goes on: a page was filled and the other buffer is open. */
  ghost predicate LoopContinues(s: System, value: seq<Byte>)
    requires WellFormed(s) && HasRoom(s) && s.buffers[s.next].state == Filling
  {
    var (after, n) := WriteBuffer(s, value);
    n < |value| && FindNextBuffer(after).1
  }

  lemma NextPass(s: System, value: seq<Byte>)
    requires WellFormed(s) && HasRoom(s) && s.buffers[s.next].state == Filling && value != [] && LoopContinues(s, value)
    ensures var (after, n) := WriteBuffer(s, value);
            && 0 < n < |value|
            && WellFormed(OpenNext(after)) && HasRoom(OpenNext(after))
            && OpenNext(after).buffers[OpenNext(after).next].state == Filling
  {
  }

  /** The session after a pass and the opening of the next buffer. */
  function AfterPass(ses: Session, value: seq<Byte>): Session
    requires WellFormed(ses.sys) && HasRoom(ses.sys) && ses.sys.buffers[ses.sys.next].state == Filling
  {
    PassStep(ses, value).(sys := OpenNext(WriteBuffer(ses.sys, value).0))
  }

  /** Within a write, no page is reopened. */
  lemma LoopOpensAhead(ses: Session, value: seq<Byte>)
    requires OrderedLoop(ses) && value != [] && LoopContinues(ses.sys, value)
    ensures CanOpen(PassStep(ses, value)) && AfterPass(ses, value) == OpenStep(PassStep(ses, value))
  {
    PassEndsPage(ses, value);
    PassKeepsOrder(ses, value);
    PageAheadNotQueued(PassStep(ses, value));
  }

  lemma LoopStaysOrdered(ses: Session, value: seq<Byte>)
    requires OrderedLoop(ses) && value != [] && LoopContinues(ses.sys, value)
    ensures OrderedLoop(AfterPass(ses, value))
  {
    LoopOpensAhead(ses, value);
    OpenKeepsOrder(PassStep(ses, value));
  }

  lemma PassStaysInLoop(ses: Session, value: seq<Byte>)
    requires InLoop(ses) && value != [] && LoopContinues(ses.sys, value)
    ensures InLoop(AfterPass(ses, value))
  {
    LoopOpensAhead(ses, value);
    PassKeepsInv(ses, value);
    OpenKeepsInv(PassStep(ses, value));
  }

  // ---- The loop ----

  lemma LoopUnfolds(s: System, value: seq<Byte>)
    requires WellFormed(s) && HasRoom(s) && s.buffers[s.next].state == Filling && value != []
    ensures var (after, n) := WriteBuffer(s, value);
            if LoopContinues(s, value) then WriteLoop(s, value) == WriteLoop(OpenNext(after), value[n..])
            else WriteLoop(s, value) == (after, n == |value|)
  {
  }

  lemma TakeTwice(sent: seq<Byte>, value: seq<Byte>, n: nat, m: nat)
    requires n + m <= |value|
    ensures (sent + value[..n]) + value[n..][..m] == sent + value[..n + m]
  {
  }

  /** The session after bytes of a value were taken up to a state. */
  function After(ses: Session, value: seq<Byte>, end: System): Session
    requires ses.sys.startAddress <= end.startAddress <= ses.sys.startAddress + |value|
  {
    ses.(sys := end, sent := ses.sent + value[..end.startAddress - ses.sys.startAddress])
  }

  lemma AfterTwice(ses: Session, value: seq<Byte>, n: nat, middle: System, end: System)
    requires n <= |value| && middle.startAddress == ses.sys.startAddress + n
    requires middle.startAddress <= end.startAddress <= ses.sys.startAddress + |value|
    ensures After(ses.(sys := middle, sent := ses.sent + value[..n]), value[n..], end) == After(ses, value, end)
  {
    TakeTwice(ses.sent, value, n, end.startAddress - middle.startAddress);
  }

  /** The session after the write loop. */
  function LoopEnd(ses: Session, value: seq<Byte>): Session
    requires WellFormed(ses.sys) && HasRoom(ses.sys) && ses.sys.buffers[ses.sys.next].state == Filling
  {
    After(ses, value, WriteLoop(ses.sys, value).0)
  }

  lemma LoopEndsAtOnce(ses: Session, value: seq<Byte>)
    requires WellFormed(ses.sys) && HasRoom(ses.sys) && ses.sys.buffers[ses.sys.next].state == Filling
    requires value != [] && !LoopContinues(ses.sys, value)
    ensures LoopEnd(ses, value) == PassStep(ses, value)
  {
    LoopUnfolds(ses.sys, value);
  }

  lemma LoopGoesOn(ses: Session, value: seq<Byte>)
    requires WellFormed(ses.sys) && HasRoom(ses.sys) && ses.sys.buffers[ses.sys.next].state == Filling
    requires value != [] && LoopContinues(ses.sys, value)
    ensures LoopEnd(ses, value) == LoopEnd(AfterPass(ses, value), value[WriteBuffer(ses.sys, value).1..])
  {
    var (middle, n) := WriteBuffer(ses.sys, value);
    LoopUnfolds(ses.sys, value);
    AfterTwice(ses, value, n, OpenNext(middle), WriteLoop(ses.sys, value).0);
  }

  lemma {:induction false} WriteLoopKeepsInv(ses: Session, value: seq<Byte>)
    requires InLoop(ses)
    ensures Inv(LoopEnd(ses, value))
    decreases |value|
  {
    if value == [] {
      assert ses.sent + value[..0] == ses.sent;
    } else if LoopContinues(ses.sys, value) {
      LoopGoesOn(ses, value);
      PassStaysInLoop(ses, value);
      WriteLoopKeepsInv(AfterPass(ses, value), value[WriteBuffer(ses.sys, value).1..]);
    } else {
      LoopEndsAtOnce(ses, value);
      PassKeepsInv(ses, value);
    }
  }

  // ---- Every event keeps the invariant ----

  lemma WriteNothing(ses: Session, value: seq<Byte>)
    requires WellFormed(ses.sys) && HasRoom(ses.sys) && WriteData(ses.sys, value).0 == ses.sys
    requires !WriteOpens(ses.sys, value)
    ensures Step(ses, Write(value)) == ses
  {
    assert ses.sent + value[..0] == ses.sent;
  }

  /** A write that finds no buffer, or nothing to do, changes nothing. */
  lemma RefusedWrite(ses: Session, value: seq<Byte>)
    requires WellFormed(ses.sys) && HasRoom(ses.sys) && !WriteOpens(ses.sys, value)
    requires !ses.sys.inFlashMode || value == [] || ses.sys.buffers[ses.sys.next].state != Filling
    ensures Step(ses, Write(value)) == ses
    ensures WriteData(ses.sys, value).1 == Success ==> value == []
  {
    WriteNothing(ses, value);
  }

  lemma OpenWriteData(s: System, value: seq<Byte>)
    requires WellFormed(s) && HasRoom(s) && s.buffers[s.next].state == Filling && s.inFlashMode && value != []
    ensures var (after, ok) := WriteLoop(s, value);
            WriteData(s, value) == (after, if ok then Success else BufferOverrunAttempt)
  {
  }

  /** Where the loop of a write starts. */
  function LoopStart(ses: Session, value: seq<Byte>): Session
    requires WellFormed(ses.sys)
  {
    if WriteOpens(ses.sys, value) then OpenStep(ses) else ses
  }

  lemma AfterStart(ses: Session, value: seq<Byte>, end: System)
    requires WellFormed(ses.sys) && ses.sys.startAddress <= end.startAddress <= ses.sys.startAddress + |value|
    ensures var start := LoopStart(ses, value);
            After(start, value, end) == After(ses, value, end).(reopened := start.reopened, early := start.early)
  {
  }

  lemma WriteStep(ses: Session, value: seq<Byte>)
    requires WellFormed(ses.sys) && HasRoom(ses.sys)
    ensures var start := LoopStart(ses, value);
            Step(ses, Write(value)) ==
            After(ses, value, WriteData(ses.sys, value).0).(reopened := start.reopened, early := start.early)
  {
  }

  /** A write that goes on with a loop leaves the session that the loop leaves. */
  lemma StepFromLoop(ses: Session, start: Session, value: seq<Byte>)
    requires WellFormed(ses.sys) && HasRoom(ses.sys) && WellFormed(start.sys) && HasRoom(start.sys)
    requires start.sys.buffers[start.sys.next].state == Filling && start == LoopStart(ses, value)
    requires WriteData(ses.sys, value).0 == WriteLoop(start.sys, value).0
    ensures Step(ses, Write(value)) == LoopEnd(start, value)
  {
    WriteStep(ses, value);
    AfterStart(ses, value, WriteLoop(start.sys, value).0);
  }

  lemma WriteStepIsLoop(ses: Session, value: seq<Byte>)
    requires WellFormed(ses.sys) && HasRoom(ses.sys) && ses.sys.buffers[ses.sys.next].state == Filling
    requires ses.sys.inFlashMode && value != []
    ensures Step(ses, Write(value)) == LoopEnd(ses, value)
    ensures WriteData(ses.sys, value).1 == Success <==> WriteLoop(ses.sys, value).1
  {
    OpenWriteData(ses.sys, value);
    StepFromLoop(ses, ses, value);
  }

  lemma OpenedWriteData(s: System, value: seq<Byte>)
    requires WellFormed(s) && HasRoom(s) && WriteOpens(s, value)
    requires HasRoom(OpenNext(s))
    ensures var (after, ok) := WriteLoop(OpenNext(s), value);
            WriteData(s, value) == (after, if ok then Success else BufferOverrunAttempt)
  {
  }

  /** A write that needs the next buffer opens it and goes on as the loop. */
  lemma OpenedWriteIsLoop(ses: Session, value: seq<Byte>)
    requires WellFormed(ses.sys) && HasRoom(ses.sys) && WriteOpens(ses.sys, value)
    requires HasRoom(OpenStep(ses).sys)
    ensures Step(ses, Write(value)) == LoopEnd(OpenStep(ses), value)
    ensures WriteData(ses.sys, value).1 == Success <==> WriteLoop(OpenStep(ses).sys, value).1
  {
    OpenedWriteData(ses.sys, value);
    StepFromLoop(ses, OpenStep(ses), value);
  }

  /** The write gets as far as the loop. */
  predicate TakesBytes(s: System, value: seq<Byte>)
    requires WellFormed(s)
  {
    WriteOpens(s, value) || (s.inFlashMode && value != [] && s.buffers[s.next].state == Filling)
  }

  lemma LoopStartInLoop(ses: Session, value: seq<Byte>)
    requires Inv(ses) && TakesBytes(ses.sys, value)
    ensures InLoop(LoopStart(ses, value))
  {
    if WriteOpens(ses.sys, value) {
      OpenKeepsInv(ses);
    }
  }

  lemma WriteIsLoop(ses: Session, value: seq<Byte>)
    requires WellFormed(ses.sys) && HasRoom(ses.sys) && TakesBytes(ses.sys, value)
    requires HasRoom(LoopStart(ses, value).sys)
    ensures Step(ses, Write(value)) == LoopEnd(LoopStart(ses, value), value)
    ensures WriteData(ses.sys, value).1 == Success <==> WriteLoop(LoopStart(ses, value).sys, value).1
  {
    if WriteOpens(ses.sys, value) {
      OpenedWriteIsLoop(ses, value);
    } else {
      WriteStepIsLoop(ses, value);
    }
  }

  lemma WriteKeepsInv(ses: Session, value: seq<Byte>)
    requires Inv(ses)
    ensures Inv(Step(ses, Write(value)))
  {
    if TakesBytes(ses.sys, value) {
      LoopStartInLoop(ses, value);
      WriteIsLoop(ses, value);
      WriteLoopKeepsInv(LoopStart(ses, value), value);
    } else {
      RefusedWrite(ses, value);
    }
  }

  lemma RefusedFlush(ses: Session)
    requires WellFormed(ses.sys) && HasRoom(ses.sys) && ses.sys.inFlashMode && !FlushBuffer(ses.sys).1
    ensures OnlyFlagsDiffer(ses, Step(ses, FlushRequest))
  {
  }

  lemma AcceptedFlush(ses: Session)
    requires Ordered(ses) && HasRoom(ses.sys) && ses.sys.inFlashMode && FlushBuffer(ses.sys).1
    ensures CanIssue(ses) && Step(ses, FlushRequest) == IssueStep(ses)
  {
  }

  lemma FlushKeepsInv(ses: Session)
    requires Inv(ses)
    ensures Inv(Step(ses, FlushRequest))
  {
    if !ses.sys.inFlashMode {
      assert Step(ses, FlushRequest) == ses;
    } else if FlushBuffer(ses.sys).1 {
      AcceptedFlush(ses);
      IssueKeepsInv(ses);
    } else {
      RefusedFlush(ses);
      FlagsKeepInv(ses, Step(ses, FlushRequest));
    }
  }

  lemma StepKeepsInv(ses: Session, e: Event)
    requires Inv(ses) && Enabled(ses, e)
    ensures Inv(Step(ses, e))
  {
    match e
    case Write(value) => WriteKeepsInv(ses, value);
    case FlushRequest => FlushKeepsInv(ses);
    case PageProgrammed => ProgrammedKeepsInv(ses);
    case ProgressRead => ProgressKeepsInv(ses);
  }

  // ---- The start of a session ----

  /** A session may start when no page is queued. */
  ghost predicate CanStart(s: System) {
    WellFormed(s) && s.queue == [] && Chains(s.checksum)
  }

  function FirstEdit(s: System, address: nat): Edit
    requires WellFormed(s)
  {
    Kept(Page(address, s.pageSize), StartOfPage(Freed(s.buffers[0]), address, s.memory, s.reader, s.pageSize))
  }

  lemma StartedPending(s: System, address: nat, seed: Word)
    requires WellFormed(s) && s.queue == []
    ensures var t := StartFlash(s, address, seed);
            WellFormed(t) && HasRoom(t) && Pending(t) == t.log == [FirstEdit(s, address)]
  {
    var t := StartFlash(s, address, seed);
    assert OpenPart(t).bytes == FirstEdit(s, address).bytes;
  }

  lemma StartedOrder(s: System, address: nat, seed: Word)
    requires CanStart(s)
    ensures Ordered(Started(s, address, seed))
  {
    PageIsOnPage(address, s.pageSize);
  }

  lemma FirstEditIsMemory(s: System, address: nat, x: nat)
    requires WellFormed(s) && ReadsMemory(s.reader)
    ensures Agree([FirstEdit(s, address)], x, s.memory(x))
    ensures Applied(s.memory, [FirstEdit(s, address)], x) == s.memory(x)
  {
    StartOfPageIsMemory(Freed(s.buffers[0]), address, s.memory, s.reader, s.pageSize, x);
    AgreeApplied(s.memory, FirstEdit(s, address), x);
  }

  lemma StartedUntouched(s: System, address: nat, seed: Word)
    requires CanStart(s)
    ensures var ses := Started(s, address, seed); UnsentUntouched(ses) && OnlyEarlyLost(ses)
  {
    var ses := Started(s, address, seed);
    StartedPending(s, address, seed);
    if ReadsMemory(s.reader) {
      forall x: nat
        ensures Untouched(ses, x) && Applied(ses.original, ses.sys.log, x) == Applied(Expected(ses), ses.early, x)
      {
        FirstEditIsMemory(s, address, x);
      }
    }
  }

  lemma StartedContents(s: System, address: nat, seed: Word)
    requires CanStart(s)
    ensures Contents(Started(s, address, seed))
  {
    StartedPending(s, address, seed);
    StartedUntouched(s, address, seed);
  }

  lemma StartedReports(s: System, address: nat, seed: Word)
    requires CanStart(s)
    ensures Reports(Started(s, address, seed))
  {
    PageIsOnPage(address, s.pageSize);
    assert Started(s, address, seed).sent[..0] == [];
  }

  lemma StartedInv(s: System, address: nat, seed: Word)
    requires CanStart(s)
    ensures Inv(Started(s, address, seed))
  {
    StartedOrder(s, address, seed);
    StartedContents(s, address, seed);
    StartedReports(s, address, seed);
  }
}
