/** Writing on in a page that was flushed in its middle, while it is still queued; and sessions that end up wrong. */
module FlashReopening {
  import opened Bytes
  import opened Crc32
  import opened EditLog
  import opened FlashModel
  import opened FlashSession
  import opened FlashSteps
  import opened FlashWrites
  import opened FlashTheorems

  // ---- Exactly when a byte is lost ----

  function FlushIfOpen(ses: Session): Session
    requires WellFormed(ses.sys) && HasRoom(ses.sys)
    ensures WellFormed(FlushIfOpen(ses).sys)
  {
    if ses.sys.buffers[ses.sys.next].state == Filling then Step(ses, FlushRequest) else ses
  }

  /** A write, a flush of the page it leaves open, and all queued pages programmed. */
  function WrittenOut(ses: Session, value: seq<Byte>): Session
    requires WellFormed(ses.sys) && HasRoom(ses.sys)
  {
    Drained(FlushIfOpen(Step(ses, Write(value))))
  }

  /** The first bytes of a queued page are what the memory holds there. */
  ghost predicate EntryAgrees(s: System, e: QueuedPage, n: nat)
    requires WellFormed(s)
  {
    e.source < CONCURRENT_FLASHS && n <= s.pageSize &&
    forall j :: 0 <= j < n ==> s.buffers[e.source].data[j] == s.memory(e.address + j)
  }

  /** A page is about to be reopened while it is still queued. */
  ghost predicate ReopensEarly(ses: Session, value: seq<Byte>) {
    Inv(ses) && WriteOpens(ses.sys, value) && StillQueued(ses.sys)
  }

  lemma OneQueued(ses: Session, value: seq<Byte>)
    requires Ordered(ses) && WriteOpens(ses.sys, value) && StillQueued(ses.sys)
    ensures |ses.sys.queue| == 1 && ses.sys.queue[0].address == Page(ses.sys.startAddress, ses.sys.pageSize)
    ensures ses.sys.queue[0].source < CONCURRENT_FLASHS
  {
  }

  lemma OnePending(s: System, x: nat)
    requires WellFormed(s) && |s.queue| == 1 && s.buffers[s.next].state != Filling
    requires Covers(WaitingPage(s, s.queue[0]), x)
    ensures Applied(s.memory, Pending(s), x) == s.buffers[s.queue[0].source].data[x - s.queue[0].address]
  {
    AppliedNext(s.memory, [], WaitingPage(s, s.queue[0]), x);
    assert Pending(s) == [] + [WaitingPage(s, s.queue[0])];
  }

  /** The queued page holds what should be in its place. */
  lemma QueuedIsExpected(ses: Session, x: nat)
    requires WellFormed(ses.sys) && ContentIsLog(ses) && OnlyEarlyLost(ses) && ReadsMemory(ses.sys.reader) && ses.early == []
    requires |ses.sys.queue| == 1 && ses.sys.buffers[ses.sys.next].state != Filling
    requires Covers(WaitingPage(ses.sys, ses.sys.queue[0]), x)
    ensures ses.sys.buffers[ses.sys.queue[0].source].data[x - ses.sys.queue[0].address] ==
            Overwritten(ses.original, ses.start, ses.sent, x)
  {
    OnePending(ses.sys, x);
    assert Applied(ses.sys.memory, Pending(ses.sys), x) == Applied(ses.original, ses.sys.log, x);
    assert Applied(ses.original, ses.sys.log, x) == Applied(Expected(ses), ses.early, x);
  }

  /** The session between the write and the programming of its pages. */
  function Closing(ses: Session, value: seq<Byte>): Session
    requires WellFormed(ses.sys) && HasRoom(ses.sys)
    ensures WellFormed(Closing(ses, value).sys)
  {
    FlushIfOpen(Step(ses, Write(value)))
  }

  lemma ClosingKeepsInv(ses: Session, value: seq<Byte>)
    requires Inv(ses)
    ensures Inv(Closing(ses, value))
  {
    WriteKeepsInv(ses, value);
    FlushKeepsInv(Step(ses, Write(value)));
  }

  lemma FlushHoldsNothingBack(ses: Session, x: nat)
    requires Ordered(ses) && HasRoom(ses.sys) && ses.sys.inFlashMode
    ensures !HeldBack(FlushIfOpen(ses).sys, x)
  {
  }

  lemma ClosingHistory(ses: Session, value: seq<Byte>)
    requires WellFormed(ses.sys) && HasRoom(ses.sys)
    ensures var end := Closing(ses, value);
            && SameSession(ses, end) && ses.sent <= end.sent
            && end.early == Step(ses, Write(value)).early && end.sent == Step(ses, Write(value)).sent
  {
    StepKeepsSession(ses, Write(value));
    StepKeepsSession(Step(ses, Write(value)), FlushRequest);
  }

  lemma ExpectedSurvives(m: Memory, address: nat, sent: seq<Byte>, more: seq<Byte>, x: nat)
    requires sent <= more && x < address + |sent|
    ensures Overwritten(m, address, sent, x) == Overwritten(m, address, more, x)
  {
  }

  lemma OneEarlyEdit(ses: Session, value: seq<Byte>)
    requires WellFormed(ses.sys) && HasRoom(ses.sys) && WriteOpens(ses.sys, value) && StillQueued(ses.sys) && ses.early == []
    ensures Step(ses, Write(value)).early == [ReadInFront(ses.sys)]
  {
  }

  /** What an early reopening leads to: a session that read back what the memory held in front of the new bytes. */
  ghost predicate ReopenedTo(ses: Session, closed: Session) {
    && WellFormed(ses.sys) && WellFormed(closed.sys)
    && closed.original == ses.original && closed.start == ses.start && ses.sent <= closed.sent
    && closed.sys.reader == ses.sys.reader && closed.early == [ReadInFront(ses.sys)]
    && InPlace(closed) && ContentIsLog(closed) && OnlyEarlyLost(closed)
    && forall x: nat :: !HeldBack(closed.sys, x)
  }

  lemma ClosingIsReopened(ses: Session, value: seq<Byte>)
    requires ReopensEarly(ses, value) && ses.early == []
    ensures ReopenedTo(ses, Closing(ses, value))
  {
    ClosingKeepsInv(ses, value);
    ClosingHistory(ses, value);
    WriteKeepsInv(ses, value);
    OneEarlyEdit(ses, value);
    forall x: nat ensures !HeldBack(Closing(ses, value).sys, x) {
      FlushHoldsNothingBack(Step(ses, Write(value)), x);
    }
  }

  lemma AppliedOne(m: Memory, e: Edit, x: nat)
    ensures Applied(m, [e], x) == if Covers(e, x) then e.bytes[x - e.address] else m(x)
  {
    AppliedNext(m, [], e, x);
    assert [] + [e] == [e];
  }

  lemma EarlyMemory(closed: Session, e: Edit, x: nat, byte: Byte)
    requires WellFormed(closed.sys) && InPlace(closed) && ContentIsLog(closed) && OnlyEarlyLost(closed)
    requires ReadsMemory(closed.sys.reader) && !HeldBack(closed.sys, x) && closed.early == [e] && Agree([e], x, byte)
    ensures Drained(closed).sys.memory(x) == if Covers(e, x) then byte else Expected(closed)(x)
  {
    DrainedEarly(closed, x);
    AgreedOnly(Expected(closed), e, x, byte);
  }

  /** After an early reopening, the bytes in front of it are what the memory held when the page was opened, and all
      other bytes are right. */
  lemma ReopenedMemory(ses: Session, closed: Session, x: nat)
    requires ReopenedTo(ses, closed) && ReadsMemory(ses.sys.reader)
    ensures Drained(closed).sys.memory(x) ==
            if Covers(ReadInFront(ses.sys), x) then ses.sys.memory(x) else Overwritten(ses.original, ses.start, closed.sent, x)
  {
    ReadInFrontIsMemory(ses.sys, x);
    EarlyMemory(closed, ReadInFront(ses.sys), x, ses.sys.memory(x));
  }

  /** The queued page does not change a byte in front of the place where writing goes on. */
  ghost predicate AgreesAt(s: System, x: nat)
    requires WellFormed(s) && s.queue != [] && s.queue[0].address == Page(s.startAddress, s.pageSize)
  {
    Covers(ReadInFront(s), x) ==> s.buffers[s.queue[0].source].data[x - s.queue[0].address] == s.memory(x)
  }

  lemma AgreesEverywhere(s: System)
    requires WellFormed(s) && s.queue != [] && s.queue[0].address == Page(s.startAddress, s.pageSize)
    ensures (forall x: nat :: AgreesAt(s, x)) <==> EntryAgrees(s, s.queue[0], s.startAddress % s.pageSize)
  {
    var e := s.queue[0];
    if forall x: nat :: AgreesAt(s, x) {
      forall j | 0 <= j < s.startAddress % s.pageSize
        ensures s.buffers[e.source].data[j] == s.memory(e.address + j)
      {
        assert AgreesAt(s, e.address + j);
      }
    }
    if EntryAgrees(s, e, s.startAddress % s.pageSize) {
      forall x: nat | Covers(ReadInFront(s), x)
        ensures s.buffers[e.source].data[x - e.address] == s.memory(x)
      {
        assert s.buffers[e.source].data[x - e.address] == s.memory(e.address + (x - e.address));
      }
    }
  }

  lemma ReadInFrontQueued(s: System, x: nat)
    requires WellFormed(s) && s.queue != [] && s.queue[0].address == Page(s.startAddress, s.pageSize)
    requires Covers(ReadInFront(s), x)
    ensures Covers(WaitingPage(s, s.queue[0]), x) && x < s.startAddress
  {
  }

  /** One page is queued, the one that is to be reopened, and it holds what should be in its place. */
  ghost predicate QueuedRight(ses: Session) {
    && WellFormed(ses.sys) && |ses.sys.queue| == 1
    && ses.sys.queue[0].address == Page(ses.sys.startAddress, ses.sys.pageSize)
    && forall x: nat :: Covers(ReadInFront(ses.sys), x) ==> QueuedRightAt(ses, x)
  }

  ghost predicate QueuedRightAt(ses: Session, x: nat)
    requires WellFormed(ses.sys) && |ses.sys.queue| == 1
    requires ses.sys.queue[0].address == Page(ses.sys.startAddress, ses.sys.pageSize) && Covers(ReadInFront(ses.sys), x)
  {
    && x < ses.start + |ses.sent|
    && ses.sys.buffers[ses.sys.queue[0].source].data[x - ses.sys.queue[0].address] ==
       Overwritten(ses.original, ses.start, ses.sent, x)
  }

  lemma ReopensRight(ses: Session, value: seq<Byte>)
    requires ReopensEarly(ses, value) && ReadsMemory(ses.sys.reader) && ses.early == []
    ensures QueuedRight(ses)
  {
    OneQueued(ses, value);
    forall x: nat | Covers(ReadInFront(ses.sys), x) ensures QueuedRightAt(ses, x) {
      ReadInFrontQueued(ses.sys, x);
      QueuedIsExpected(ses, x);
    }
  }

  lemma ReopenedByteIff(ses: Session, closed: Session, x: nat)
    requires ReopenedTo(ses, closed) && ReadsMemory(ses.sys.reader) && QueuedRight(ses)
    ensures (Drained(closed).sys.memory(x) == Overwritten(ses.original, ses.start, closed.sent, x)) <==> AgreesAt(ses.sys, x)
  {
    ReopenedMemory(ses, closed, x);
    if Covers(ReadInFront(ses.sys), x) {
      assert QueuedRightAt(ses, x);
      ExpectedSurvives(ses.original, ses.start, ses.sent, closed.sent, x);
    }
  }

  /** What the session should have left behind. */
  ghost predicate WrittenAsSent(ses: Session, end: Session) {
    forall x: nat :: end.sys.memory(x) == Overwritten(ses.original, ses.start, end.sent, x)
  }

  lemma ReopenedIff(ses: Session, closed: Session)
    requires ReopenedTo(ses, closed) && ReadsMemory(ses.sys.reader) && QueuedRight(ses)
    ensures WrittenAsSent(ses, Drained(closed)) <==>
            EntryAgrees(ses.sys, ses.sys.queue[0], ses.sys.startAddress % ses.sys.pageSize)
  {
    DrainedOnlyPrograms(closed);
    forall x: nat
      ensures (Drained(closed).sys.memory(x) == Overwritten(ses.original, ses.start, closed.sent, x)) <==> AgreesAt(ses.sys, x)
    {
      ReopenedByteIff(ses, closed, x);
    }
    AgreesEverywhere(ses.sys);
  }

  /** A page reopened while it is queued: once everything is written out, the memory holds exactly what was sent if and
      only if the queued page does not change the bytes in front of the place where writing goes on. */
  lemma EarlyReopeningIff(ses: Session, value: seq<Byte>)
    requires ReopensEarly(ses, value) && ReadsMemory(ses.sys.reader) && ses.early == []
    ensures ses.sys.queue != []
    ensures WrittenAsSent(ses, WrittenOut(ses, value)) <==>
            EntryAgrees(ses.sys, ses.sys.queue[0], ses.sys.startAddress % ses.sys.pageSize)
  {
    ClosingIsReopened(ses, value);
    ReopensRight(ses, value);
    ReopenedIff(ses, Closing(ses, value));
  }

  // ---- A session that loses a byte ----

  function FlushedByte(s: System, seed: Word): Session
    requires WellFormed(s)
  {
    var started := Started(s, 0, seed);
    Step(Step(started, Write([1])), FlushRequest)
  }

  lemma ByteIsBuffered(s: System, seed: Word)
    requires CanStart(s) && s.pageSize == 2
    ensures var ses := Step(Started(s, 0, seed), Write([1]));
            var sys := ses.sys;
            && ses.sent == [1] && sys.queue == [] && sys.startAddress == 1 && sys.next == 0 && sys.inFlashMode
            && sys.buffers[0].state == Filling && sys.buffers[0].ptr == 1 && sys.buffers[0].addr == 0
            && sys.buffers[1].state == Idle && sys.memory == s.memory && sys.pageSize == 2 && sys.reader == s.reader
            && ses.early == []
  {
    var started := Started(s, 0, seed);
    assert WriteData(started.sys, [1]).0 == WriteBuffer(started.sys, [1]).0;
  }

  lemma ByteIsQueued(s: System, seed: Word)
    requires CanStart(s) && s.pageSize == 2
    ensures var sys := FlushedByte(s, seed).sys;
            && sys.queue == [QueuedPage(0, 0)] && sys.startAddress == 1 && sys.next == 0 && sys.inFlashMode
            && sys.buffers[0].state == Flashing && sys.buffers[1].state == Idle && sys.memory == s.memory
            && sys.pageSize == 2 && sys.reader == s.reader
            && FlushedByte(s, seed).sent == [1] && FlushedByte(s, seed).early == []
  {
    ByteIsBuffered(s, seed);
    var ses := Step(Started(s, 0, seed), Write([1]));
    assert Step(ses, FlushRequest).sys == Issue(ses.sys);
  }

  lemma SecondByteIsSent(ses: Session)
    requires WellFormed(ses.sys) && HasRoom(ses.sys) && WriteOpens(ses.sys, [2])
    requires ses.sys.pageSize == 2 && ses.sys.startAddress == 1
    ensures Step(ses, Write([2])).sent == ses.sent + [2]
  {
    var ahead := OpenNext(ses.sys);
    assert ahead.buffers[ahead.next].ptr == 1;
    assert WriteBuffer(ahead, [2]).1 == 1;
  }

  lemma FlushedByteOpensEarly(ses: Session)
    requires var s := ses.sys;
             && WellFormed(s) && s.queue == [QueuedPage(0, 0)] && s.startAddress == 1 && s.next == 0 && s.inFlashMode
             && s.buffers[0].state == Flashing && s.buffers[1].state == Idle && s.pageSize == 2
    ensures WriteOpens(ses.sys, [2]) && StillQueued(ses.sys)
  {
    assert ses.sys.queue[0].address == Page(1, 2);
  }

  lemma FlushedByteInv(s: System, seed: Word)
    requires CanStart(s) && s.pageSize == 2
    ensures ReopensEarly(FlushedByte(s, seed), [2])
  {
    var started := Started(s, 0, seed);
    StartedInv(s, 0, seed);
    StepKeepsInv(started, Write([1]));
    StepKeepsInv(Step(started, Write([1])), FlushRequest);
    ByteIsQueued(s, seed);
    FlushedByteOpensEarly(FlushedByte(s, seed));
  }

  lemma BothBytesSent(ses: Session)
    requires WellFormed(ses.sys) && HasRoom(ses.sys) && WriteOpens(ses.sys, [2])
    requires ses.sys.pageSize == 2 && ses.sys.startAddress == 1 && ses.sent == [1]
    ensures WrittenOut(ses, [2]).sent == [1, 2]
  {
    SecondByteIsSent(ses);
    ClosingHistory(ses, [2]);
    DrainedOnlyPrograms(Closing(ses, [2]));
  }

  lemma FirstByteIsLost(ses: Session, closed: Session)
    requires ReopenedTo(ses, closed) && ReadsMemory(ses.sys.reader)
    requires ses.sys.pageSize == 2 && ses.sys.startAddress == 1
    ensures Drained(closed).sys.memory(0) == ses.sys.memory(0)
  {
    ReopenedMemory(ses, closed, 0);
    assert Covers(ReadInFront(ses.sys), 0);
  }

  /** The smallest session that loses a byte: one byte, a flush, and a second byte of the same page before
      the flushed page was programmed. The first byte is gone from the memory although it was sent. */
  lemma EarlyReopeningLosesAByte(s: System, seed: Word)
    requires CanStart(s) && s.pageSize == 2 && s.memory(0) == 0 && ReadsMemory(s.reader)
    ensures var end := WrittenOut(FlushedByte(s, seed), [2]);
            end.sent == [1, 2] && end.sys.memory(0) == 0
  {
    var flushed := FlushedByte(s, seed);
    FlushedByteInv(s, seed);
    ByteIsQueued(s, seed);
    BothBytesSent(flushed);
    ClosingIsReopened(flushed, [2]);
    FirstByteIsLost(flushed, Closing(flushed, [2]));
  }

  // ---- A session with a handler that does not read the memory ----

  lemma OddByteStart(s: System, seed: Word)
    requires CanStart(s) && s.pageSize == 2 && s.reader == EmptyReader()
    ensures var t := Started(s, 1, seed).sys;
            && WellFormed(t) && HasRoom(t) && t.inFlashMode && t.buffers[t.next].state == Filling
            && t.buffers[t.next].ptr == 1 && t.buffers[t.next].addr == 0 && t.pageSize == 2
            && t.log == [Kept(0, [s.buffers[0].data[0]])]
  {
    assert FirstEdit(s, 1).bytes == [s.buffers[0].data[0]];
  }

  lemma OddByteWritten(ses: Session)
    requires var t := ses.sys;
             && WellFormed(t) && HasRoom(t) && t.inFlashMode && t.buffers[t.next].state == Filling
             && t.buffers[t.next].ptr == 1 && t.buffers[t.next].addr == 0 && t.pageSize == 2
    ensures var after := Step(ses, Write([5]));
            && after.sent == ses.sent + [5] && after.sys.buffers[after.sys.next].state != Filling
            && after.sys.log == ses.sys.log + [Sent(1, [5])] + [Kept(2, [])]
  {
    assert [5][..1] == [5];
    assert WriteData(ses.sys, [5]).0 == WriteBuffer(ses.sys, [5]).0;
  }

  /** The handler of the example, whose read_mem does nothing: a session that starts in the middle of a page puts what
      the page buffer happened to hold in front of the sent byte. */
  lemma EmptyReaderOverwritesNeighbour(s: System, seed: Word)
    requires CanStart(s) && s.pageSize == 2 && s.reader == EmptyReader()
    ensures var end := Drained(Step(Started(s, 1, seed), Write([5])));
            end.sent == [5] && end.sys.memory(1) == 5 && end.sys.memory(0) == s.buffers[0].data[0]
  {
    var started := Started(s, 1, seed);
    var ses := Step(started, Write([5]));
    StartedInv(s, 1, seed);
    StepKeepsInv(started, Write([5]));
    OddByteStart(s, seed);
    OddByteWritten(started);
    StepKeepsSession(started, Write([5]));
    DrainedOnlyPrograms(ses);
    DrainedMemory(ses, 0);
    DrainedMemory(ses, 1);
    AppliedThree(s.memory, s.buffers[0].data[0]);
  }

  lemma AppliedThree(m: Memory, byte: Byte)
    ensures var log := [Kept(0, [byte])] + [Sent(1, [5])] + [Kept(2, [])];
            Applied(m, log, 0) == byte && Applied(m, log, 1) == 5
  {
    var first, second, third := Kept(0, [byte]), Sent(1, [5]), Kept(2, []);
    forall x: nat | x < 2 ensures Applied(m, [first] + [second] + [third], x) == if x == 0 then byte else 5 {
      AppliedNext(m, [first] + [second], third, x);
      AppliedNext(m, [first], second, x);
      AppliedOne(m, first, x);
    }
  }
}
