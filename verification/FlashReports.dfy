/** What a client of a flash session sees: which writes succeed, what they send, the pages issued, flushes, and the
    checksums reported. */
module FlashReports {
  import opened Bytes
  import opened Crc32
  import opened FlashModel
  import opened FlashSession
  import opened FlashSteps
  import opened FlashWrites
  import opened FlashTheorems

  // ---- What is sent ----

  function Written(e: Event): seq<Byte> {
    match e
    case Write(value) => value
    case _ => []
  }

  /** The bytes the client asked to write. */
  function Payload(events: seq<Event>): seq<Byte> {
    if events == [] then [] else Written(events[0]) + Payload(events[1..])
  }

  ghost predicate WritesSucceed(ses: Session, events: seq<Event>)
    requires EnabledRun(ses, events)
    decreases events
  {
    events != [] ==>
      && (events[0].Write? ==> WriteData(ses.sys, events[0].value).1 == Success)
      && WritesSucceed(Step(ses, events[0]), events[1..])
  }

  lemma ConcatIsAssociative(a: seq<Byte>, b: seq<Byte>, c: seq<Byte>)
    ensures (a + b) + c == a + (b + c)
  {
  }

  lemma WriteSends(ses: Session, value: seq<Byte>)
    requires WellFormed(ses.sys) && HasRoom(ses.sys) && WriteData(ses.sys, value).1 == Success
    ensures Step(ses, Write(value)).sent == ses.sent + value
  {
    assert value[..|value|] == value;
  }

  lemma StepSends(ses: Session, e: Event)
    requires WellFormed(ses.sys) && HasRoom(ses.sys)
    requires e.Write? ==> WriteData(ses.sys, e.value).1 == Success
    ensures Step(ses, e).sent == ses.sent + Written(e)
  {
    match e
    case Write(value) => WriteSends(ses, value);
    case _ => assert ses.sent + [] == ses.sent;
  }

  /** What a session sent is what the client wrote, in order, if every write succeeded. */
  lemma {:induction false} SuccessfulWritesSendAll(ses: Session, events: seq<Event>)
    requires EnabledRun(ses, events) && WritesSucceed(ses, events)
    ensures Run(ses, events).sent == ses.sent + Payload(events)
    decreases events
  {
    if events == [] {
      assert ses.sent + [] == ses.sent;
    } else {
      StepSends(ses, events[0]);
      SuccessfulWritesSendAll(Step(ses, events[0]), events[1..]);
      ConcatIsAssociative(ses.sent, Written(events[0]), Payload(events[1..]));
    }
  }

  // ---- Issued pages ----

  /** Whole pages at page addresses; without a page written on behind a flush, consecutive pages from the first on. */
  ghost predicate PagesInOrder(final: Session, first: nat)
    requires WellFormed(final.sys)
  {
    var issued, pageSize := final.sys.issued, final.sys.pageSize;
    && (forall i :: 0 <= i < |issued| ==> issued[i] % pageSize == 0)
    && (!final.reopened ==> forall i :: 0 <= i < |issued| ==> issued[i] == first + Pages(i, pageSize))
  }

  lemma SequenceInOrder(ses: Session)
    requires WellFormed(ses.sys) && PagesInSequence(ses)
    ensures PagesInOrder(ses, ses.firstPage)
  {
    var issued := ses.sys.issued;
    forall i | 0 <= i < |issued|
      ensures issued[i] % ses.sys.pageSize == 0
    {
      OnPageIsMultiple(issued[i], ses.sys.pageSize);
    }
    if !ses.reopened {
      forall i | 0 <= i < |issued|
        ensures issued[i] == ses.firstPage + Pages(i, ses.sys.pageSize)
      {
        SteadyPages(issued, ses.firstPage, ses.sys.pageSize, i);
      }
    }
  }

  /** Flashed pages: always whole pages at page addresses; without a page written on behind a flush they are
      the consecutive pages from the one of the start address, each flashed once. */
  lemma PagesFlashedOnce(s: System, address: nat, seed: Word, events: seq<Event>)
    requires IsRun(s, address, seed, events)
    ensures PagesInOrder(Final(s, address, seed, events), Page(address, s.pageSize))
  {
    var started := Started(s, address, seed);
    StartedInv(s, address, seed);
    RunKeepsInv(started, events);
    RunKeepsSession(started, events);
    SequenceInOrder(Final(s, address, seed, events));
  }

  lemma {:induction false} SteadyPages(issued: seq<nat>, first: nat, pageSize: nat, i: nat)
    requires i < |issued| && issued[0] == first
    requires forall j :: 0 <= j < |issued| - 1 ==> issued[j + 1] == issued[j] + pageSize
    ensures issued[i] == first + Pages(i, pageSize)
  {
    if i == 0 {
    } else {
      SteadyPages(issued, first, pageSize, i - 1);
      assert issued[(i - 1) + 1] == issued[i - 1] + pageSize;
    }
  }

  // ---- What one step may touch ----

  lemma ProgressFreesProgrammed(ses: Session)
    requires Ordered(ses) && ses.unreported > 0
    ensures forall k :: 0 <= k < |ses.sys.queue| ==> ses.sys.queue[k].source != ses.sys.used
  {
  }

  /** A flashing buffer is neither written nor refilled by any step until its progress is read, and that
      happens only after its page was programmed. */
  lemma FlashingBufferUntouched(ses: Session, e: Event, i: nat)
    requires Ordered(ses) && HasRoom(ses.sys) && Enabled(ses, e) && i < CONCURRENT_FLASHS && ses.sys.buffers[i].state == Flashing
    ensures var after := Step(ses, e).sys.buffers[i];
            after == ses.sys.buffers[i] ||
            (e == ProgressRead && i == ses.sys.used && forall k :: 0 <= k < |ses.sys.queue| ==> ses.sys.queue[k].source != i)
  {
    match e
    case Write(value) => WriteLeavesFlashing(ses.sys, value, i);
    case FlushRequest =>
    case PageProgrammed =>
    case ProgressRead => ProgressFreesProgrammed(ses);
  }

  lemma PassLeavesFlashing(s: System, value: seq<Byte>, i: nat)
    requires WellFormed(s) && HasRoom(s) && s.buffers[s.next].state == Filling
    requires i < CONCURRENT_FLASHS && s.buffers[i].state == Flashing
    ensures var after := WriteBuffer(s, value).0;
            && after.buffers[i] == s.buffers[i]
            && (LoopContinues(s, value) ==> OpenNext(after).buffers[i] == s.buffers[i])
  {
  }

  lemma {:induction false} LoopLeavesFlashing(s: System, value: seq<Byte>, i: nat)
    requires WellFormed(s) && HasRoom(s) && s.buffers[s.next].state == Filling
    requires i < CONCURRENT_FLASHS && s.buffers[i].state == Flashing
    ensures WriteLoop(s, value).0.buffers[i] == s.buffers[i]
    decreases |value|
  {
    if value == [] {
    } else {
      LoopUnfolds(s, value);
      PassLeavesFlashing(s, value, i);
      if LoopContinues(s, value) {
        NextPass(s, value);
        LoopLeavesFlashing(OpenNext(WriteBuffer(s, value).0), value[WriteBuffer(s, value).1..], i);
      }
    }
  }

  lemma WriteLeavesFlashing(s: System, value: seq<Byte>, i: nat)
    requires WellFormed(s) && HasRoom(s) && i < CONCURRENT_FLASHS && s.buffers[i].state == Flashing
    ensures WriteData(s, value).0.buffers[i] == s.buffers[i]
  {
    if s.inFlashMode && value != [] {
      if s.buffers[s.next].state == Filling {
        LoopLeavesFlashing(s, value, i);
      } else if FindNextBuffer(s).1 {
        LoopLeavesFlashing(FindNextBuffer(s).0, value, i);
      }
    }
  }

  // ---- When a write succeeds ----

  /** The bytes the page buffers can still take. */
  function Room(s: System): int
    requires WellFormed(s)
  {
    var other := s.buffers[OtherBuffer(s.next)];
    var afterNext := if s.buffers[s.next].state == Idle then s.pageSize else 0;
    if s.buffers[s.next].state == Filling then
      s.pageSize - s.buffers[s.next].ptr + if other.state == Idle then s.pageSize else 0
    else if other.state == Idle then s.pageSize - s.startAddress % s.pageSize + afterNext
    else 0
  }

  ghost predicate OpenAtStartAddress(s: System) {
    && WellFormed(s) && HasRoom(s) && s.buffers[s.next].state == Filling
    && s.buffers[s.next].addr + s.buffers[s.next].ptr == s.startAddress
    && OnPage(s.buffers[s.next].addr, s.pageSize)
  }

  lemma RoomAfterPass(s: System, value: seq<Byte>)
    requires OpenAtStartAddress(s) && value != [] && LoopContinues(s, value)
    ensures var (after, n) := WriteBuffer(s, value);
            OpenAtStartAddress(OpenNext(after)) && Room(OpenNext(after)) == Room(s) - n
  {
    var (after, n) := WriteBuffer(s, value);
    NextPage(s.buffers[s.next].addr, s.pageSize);
    OnPageIsMultiple(after.startAddress, s.pageSize);
  }

  lemma RoomAtTheEnd(s: System, value: seq<Byte>)
    requires OpenAtStartAddress(s) && value != [] && !LoopContinues(s, value)
    ensures WriteBuffer(s, value).1 == |value| <==> |value| <= Room(s)
  {
  }

  lemma {:induction false} LoopSucceedsIffRoom(s: System, value: seq<Byte>)
    requires OpenAtStartAddress(s)
    ensures WriteLoop(s, value).1 <==> |value| <= Room(s)
    decreases |value|
  {
    if value == [] {
    } else {
      LoopUnfolds(s, value);
      if LoopContinues(s, value) {
        var (after, n) := WriteBuffer(s, value);
        RoomAfterPass(s, value);
        LoopSucceedsIffRoom(OpenNext(after), value[n..]);
      } else {
        RoomAtTheEnd(s, value);
      }
    }
  }

  lemma RoomOfNextBuffer(s: System)
    requires WellFormed(s) && HasRoom(s) && s.buffers[s.next].state != Filling && FindNextBuffer(s).1
    ensures OpenAtStartAddress(OpenNext(s)) && Room(OpenNext(s)) == Room(s)
  {
    PageIsOnPage(s.startAddress, s.pageSize);
  }

  /** A write in flash mode succeeds exactly if the value fits into the free parts of the page buffers; otherwise it is an
      attempt to overrun them. */
  lemma WriteSucceedsIffRoom(ses: Session, value: seq<Byte>)
    requires Ordered(ses) && HasRoom(ses.sys) && ses.sys.inFlashMode && value != []
    ensures WriteData(ses.sys, value).1 == if |value| <= Room(ses.sys) then Success else BufferOverrunAttempt
  {
    var s := ses.sys;
    if s.buffers[s.next].state == Filling {
      OpenWriteData(s, value);
      LoopSucceedsIffRoom(s, value);
    } else if WriteOpens(s, value) {
      RoomOfNextBuffer(s);
      OpenedWriteData(s, value);
      LoopSucceedsIffRoom(OpenNext(s), value);
    }
  }

  // ---- Outside of the flash mode ----

  /** Without a started session nothing is written or flushed, and a write does not succeed, not even one of no bytes. */
  lemma NothingWithoutSession(s: System, value: seq<Byte>)
    requires WellFormed(s) && HasRoom(s) && !s.inFlashMode
    ensures WriteData(s, value) == (s, NoOperationInProgress) && Flush(s) == (s, false)
  {
  }

  /** Behind a refused start, the next write is refused too, and leaves buffers, queue and memory as they were. */
  lemma RefusedStartWritesNothing(s: System, address: nat, value: seq<Byte>)
    requires WellFormed(s) && HasRoom(s)
    ensures var (after, result) := WriteData(RefuseStart(s, address), value);
            && result == NoOperationInProgress && !after.inFlashMode
            && after.buffers == s.buffers && after.queue == s.queue && after.memory == s.memory
  {
    NothingWithoutSession(RefuseStart(s, address), value);
  }

  // ---- Flushes ----

  lemma FlushKeepsOrder(ses: Session)
    requires Ordered(ses) && HasRoom(ses.sys)
    ensures Ordered(Step(ses, FlushRequest)) && HasRoom(Step(ses, FlushRequest).sys)
  {
    if ses.sys.inFlashMode {
      if FlushBuffer(ses.sys).1 {
        AcceptedFlush(ses);
        IssueKeepsOrder(ses);
      } else {
        RefusedFlush(ses);
        FlagsKeepOrder(ses, Step(ses, FlushRequest));
      }
    }
  }

  /** A flush is accepted exactly in flash mode with an open page that is neither empty nor full; then that page is queued
      and nothing is programmed yet. A refused one only ends the flash mode. */
  lemma FlushAcceptedIff(ses: Session)
    requires Ordered(ses) && HasRoom(ses.sys)
    ensures var s, (after, ok) := ses.sys, Flush(ses.sys);
            && (ok <==> s.inFlashMode && s.buffers[s.next].state == Filling && s.startAddress % s.pageSize != 0)
            && (ok ==> after.inFlashMode && after.memory == s.memory && after.startAddress == s.startAddress
                       && after.queue == s.queue + [QueuedPage(Page(s.startAddress, s.pageSize), s.next)])
            && (!ok ==> after == s.(inFlashMode := false))
  {
    var s := ses.sys;
    if s.buffers[s.next].state == Filling {
      var b := s.buffers[s.next];
      PageIsOnPage(s.startAddress, s.pageSize);
      InOnePage(s.startAddress, b.addr, Page(s.startAddress, s.pageSize), s.pageSize);
    }
  }

  /** A flush ends the flash mode if and only if it is refused; behind an accepted one, writing goes on as room allows. */
  lemma FlushKeepsFlashMode(ses: Session, value: seq<Byte>)
    requires Ordered(ses) && HasRoom(ses.sys) && value != []
    ensures WellFormed(Flush(ses.sys).0)
    ensures Flush(ses.sys).0.inFlashMode <==> Flush(ses.sys).1
    ensures var after := Step(ses, FlushRequest).sys;
            Flush(ses.sys).1 ==> (WriteData(after, value).1 == Success <==> |value| <= Room(after))
  {
    FlushKeepsOrder(ses);
    if Flush(ses.sys).1 {
      WriteSucceedsIffRoom(Step(ses, FlushRequest), value);
    }
  }

  // ---- Checksums ----

  /** The checksums a client sees: a progress read and a flush report the checksum of everything sent up to
      the end of the buffer's part, whatever the sizes of the writes were. */
  lemma ReportedChecksums(ses: Session)
    requires Inv(ses)
    ensures ses.sys.buffers[ses.sys.next].crc == ses.sys.checksum(ses.sent, ses.seed)
    ensures ses.unreported > 0 ==>
              var b := Progress(ses.sys).buffers[ses.sys.used];
              var freed := ses.sys.buffers[ses.sys.used];
              var end := freed.addr + freed.ptr - ses.start;
              0 <= end <= |ses.sent| && b.crc == ses.sys.checksum(ses.sent[..end], ses.seed)
  {
    assert ses.sent[..|ses.sent|] == ses.sent;
  }

  /** The checksum of the example handler; an address is checksummed as its bytes, lowest first. */
  function HandlerChecksum(): ChecksumFunction {
    (data, crc) => Checksum(Polynomial(), data, crc)
  }

  lemma HandlerChecksumChains()
    ensures Chains(HandlerChecksum())
  {
    forall c ensures Checksum(Polynomial(), [], c) == c {
      assert Not(Not(c)) == c;
    }
    forall a, b, c ensures Checksum(Polynomial(), a + b, c) == Checksum(Polynomial(), b, Checksum(Polynomial(), a, c)) {
      ChecksumConcat(Polynomial(), a, b, c);
    }
  }

  function AddressBytes(address: nat, pointerSize: nat): seq<Byte> {
    if pointerSize == 0 then [] else [address % 256] + AddressBytes(address / 256, pointerSize - 1)
  }

  /** With the example handler the checksum in use is the bit-serial CRC of start address and sent bytes. */
  lemma SessionChecksumIsBitSerial(ses: Session, pointerSize: nat, zero: Word)
    requires Inv(ses) && ses.sys.checksum == HandlerChecksum()
    requires ses.seed == Checksum(Polynomial(), AddressBytes(ses.start, pointerSize), zero)
    ensures ses.sys.buffers[ses.sys.next].crc == Reference(Polynomial(), AddressBytes(ses.start, pointerSize) + ses.sent, zero)
  {
    var bytes := AddressBytes(ses.start, pointerSize);
    ReportedChecksums(ses);
    ChecksumConcat(Polynomial(), bytes, ses.sent, zero);
    ChecksumIsBitSerial(Polynomial(), bytes + ses.sent, zero);
  }
}
