/** What whole sessions make of the flash memory. */
module FlashTheorems {
  import opened Bytes
  import opened Crc32
  import opened EditLog
  import opened FlashModel
  import opened FlashSession
  import opened FlashSteps
  import opened FlashWrites

  // ---- Runs ----

  ghost predicate EnabledRun(ses: Session, events: seq<Event>)
    decreases events
  {
    events == [] ||
    (WellFormed(ses.sys) && HasRoom(ses.sys) && Enabled(ses, events[0]) && EnabledRun(Step(ses, events[0]), events[1..]))
  }

  ghost function Run(ses: Session, events: seq<Event>): Session
    requires EnabledRun(ses, events)
    ensures WellFormed(ses.sys) ==> WellFormed(Run(ses, events).sys)
    decreases events
  {
    if events == [] then ses else Run(Step(ses, events[0]), events[1..])
  }

  lemma {:induction false} RunKeepsInv(ses: Session, events: seq<Event>)
    requires Inv(ses) && EnabledRun(ses, events)
    ensures Inv(Run(ses, events))
    decreases events
  {
    if events == [] {
    } else {
      StepKeepsInv(ses, events[0]);
      RunKeepsInv(Step(ses, events[0]), events[1..]);
    }
  }

  ghost predicate SameSession(ses: Session, after: Session) {
    && after.start == ses.start && after.original == ses.original && after.seed == ses.seed
    && after.firstPage == ses.firstPage
    && SameHandler(ses.sys, after.sys)
  }

  ghost predicate SameHandler(s: System, t: System) {
    t.pageSize == s.pageSize && t.checksum == s.checksum && t.reader == s.reader
  }

  lemma PassKeepsHandler(s: System, value: seq<Byte>)
    requires WellFormed(s) && HasRoom(s) && s.buffers[s.next].state == Filling
    ensures var after := WriteBuffer(s, value).0; SameHandler(s, after) && SameHandler(s, OpenNext(after))
  {
  }

  lemma {:induction false} WriteLoopKeepsHandler(s: System, value: seq<Byte>)
    requires WellFormed(s) && HasRoom(s) && s.buffers[s.next].state == Filling
    ensures SameHandler(s, WriteLoop(s, value).0)
    decreases |value|
  {
    if value == [] {
    } else {
      LoopUnfolds(s, value);
      PassKeepsHandler(s, value);
      if LoopContinues(s, value) {
        NextPass(s, value);
        WriteLoopKeepsHandler(OpenNext(WriteBuffer(s, value).0), value[WriteBuffer(s, value).1..]);
      }
    }
  }

  lemma WriteKeepsHandler(s: System, value: seq<Byte>)
    requires WellFormed(s) && HasRoom(s)
    ensures SameHandler(s, WriteData(s, value).0)
  {
    if s.inFlashMode && value != [] {
      if s.buffers[s.next].state == Filling {
        WriteLoopKeepsHandler(s, value);
      } else if FindNextBuffer(s).1 {
        WriteLoopKeepsHandler(FindNextBuffer(s).0, value);
      }
    }
  }

  lemma StepKeepsSession(ses: Session, e: Event)
    requires WellFormed(ses.sys) && HasRoom(ses.sys)
    ensures SameSession(ses, Step(ses, e))
  {
    if e.Write? {
      WriteKeepsHandler(ses.sys, e.value);
    }
  }

  lemma {:induction false} RunKeepsSession(ses: Session, events: seq<Event>)
    requires EnabledRun(ses, events)
    ensures SameSession(ses, Run(ses, events))
    decreases events
  {
    if events == [] {
    } else {
      StepKeepsSession(ses, events[0]);
      RunKeepsSession(Step(ses, events[0]), events[1..]);
    }
  }

  /** A run of a session from its start. */
  ghost predicate IsRun(s: System, address: nat, seed: Word, events: seq<Event>) {
    CanStart(s) && EnabledRun(Started(s, address, seed), events)
  }

  ghost function Final(s: System, address: nat, seed: Word, events: seq<Event>): (final: Session)
    requires IsRun(s, address, seed, events)
    ensures WellFormed(final.sys)
  {
    Run(Started(s, address, seed), events)
  }

  lemma FinalInv(s: System, address: nat, seed: Word, events: seq<Event>)
    requires IsRun(s, address, seed, events)
    ensures var final := Final(s, address, seed, events);
            && Inv(final) && final.original == s.memory && final.start == address
            && final.sys.reader == s.reader && final.sys.pageSize == s.pageSize
  {
    var started := Started(s, address, seed);
    StartedInv(s, address, seed);
    RunKeepsInv(started, events);
    RunKeepsSession(started, events);
  }

  // ---- The memory once the queue is worked off ----

  /** The session once the flash handler worked off its queue. */
  function Drained(ses: Session): Session
    requires WellFormed(ses.sys)
    decreases |ses.sys.queue|
  {
    if ses.sys.queue == [] then ses else Drained(ProgrammedStep(ses))
  }

  /** Draining changes only what programming does. */
  ghost predicate OnlyProgrammed(ses: Session, after: Session)
    requires WellFormed(ses.sys)
  {
    && after.start == ses.start && after.original == ses.original && after.sent == ses.sent && after.early == ses.early
    && after.sys.(memory := ses.sys.memory, queue := ses.sys.queue) == ses.sys
  }

  lemma {:induction false} DrainedOnlyPrograms(ses: Session)
    requires WellFormed(ses.sys)
    ensures OnlyProgrammed(ses, Drained(ses)) && Drained(ses).sys.queue == [] && WellFormed(Drained(ses).sys)
    decreases |ses.sys.queue|
  {
    if ses.sys.queue == [] {
    } else {
      DrainedOnlyPrograms(ProgrammedStep(ses));
    }
  }

  lemma {:induction false} DrainedKeepsContent(ses: Session)
    requires WellFormed(ses.sys) && ContentIsLog(ses)
    ensures WellFormed(Drained(ses).sys) && ContentIsLog(Drained(ses))
    decreases |ses.sys.queue|
  {
    if ses.sys.queue == [] {
    } else {
      ProgrammedKeepsContent(ses);
      DrainedKeepsContent(ProgrammedStep(ses));
    }
  }

  /** A byte that waits in the open page for more bytes or a flush. */
  predicate HeldBack(s: System, x: nat)
    requires WellFormed(s)
  {
    var b := s.buffers[s.next];
    b.state == Filling && b.addr <= x < s.startAddress
  }

  lemma NothingPending(s: System, startAddress: nat, x: nat)
    requires WellFormed(s) && s.queue == [] && s.startAddress == startAddress
    requires s.buffers[s.next].state == Filling ==> s.buffers[s.next].addr + s.buffers[s.next].ptr == startAddress
    requires !HeldBack(s, x)
    ensures Applied(s.memory, Pending(s), x) == s.memory(x)
  {
    AppliedUncovered(s.memory, Pending(s), x);
  }

  /** Every byte that no open page holds back is what the edits of the session make of the memory it found. */
  lemma DrainedMemory(ses: Session, x: nat)
    requires WellFormed(ses.sys) && InPlace(ses) && ContentIsLog(ses) && !HeldBack(ses.sys, x)
    ensures Drained(ses).sys.memory(x) == Applied(ses.original, ses.sys.log, x)
  {
    var end := Drained(ses);
    DrainedOnlyPrograms(ses);
    DrainedKeepsContent(ses);
    NothingPending(end.sys, ses.sys.startAddress, x);
    assert Applied(end.sys.memory, Pending(end.sys), x) == Applied(ses.original, ses.sys.log, x);
  }

  /** The promise of a session: the old memory with exactly the sent bytes at the start address, where no open page
      holds them back. */
  ghost predicate FlashedAsSent(ses: Session)
    requires WellFormed(ses.sys)
  {
    forall x: nat :: !HeldBack(ses.sys, x) ==> FlashedAt(ses, x)
  }

  ghost predicate FlashedAt(ses: Session, x: nat)
    requires WellFormed(ses.sys)
  {
    Drained(ses).sys.memory(x) == Overwritten(ses.original, ses.start, ses.sent, x)
  }

  // ---- With any handler ----

  /** A byte that was read back is the one that the memory should hold. */
  ghost predicate KeptRight(ses: Session, i: nat, x: nat)
    requires i < |ses.sys.log| && Covers(ses.sys.log[i], x)
  {
    ses.sys.log[i].bytes[x - ses.sys.log[i].address] == Overwritten(ses.original, ses.start, ses.sent, x)
  }

  lemma UncoveredIsUnsent(ses: Session, x: nat)
    requires LogIsSent(ses)
    ensures Uncovered(ses.sys.log, x) ==> Unsent(ses, x)
  {
    if !Unsent(ses, x) {
      assert WasSent(ses.sys.log, x);
    }
  }

  lemma UncoveredByte(ses: Session, x: nat)
    requires LogIsSent(ses) && Uncovered(ses.sys.log, x)
    ensures Applied(ses.original, ses.sys.log, x) == Overwritten(ses.original, ses.start, ses.sent, x)
  {
    AppliedUncovered(ses.original, ses.sys.log, x);
    UncoveredIsUnsent(ses, x);
  }

  lemma SentByte(ses: Session, i: nat, x: nat)
    requires LogIsSent(ses) && IsLast(ses.sys.log, i, x) && ses.sys.log[i].Sent?
    ensures Applied(ses.original, ses.sys.log, x) == Overwritten(ses.original, ses.start, ses.sent, x)
  {
    AppliedLast(ses.original, ses.sys.log, i, x);
    assert SentPart(ses, ses.sys.log[i]);
  }

  lemma LastByteRightIff(ses: Session, i: nat, x: nat)
    requires LogIsSent(ses) && IsLast(ses.sys.log, i, x)
    ensures (Applied(ses.original, ses.sys.log, x) == Overwritten(ses.original, ses.start, ses.sent, x)) <==>
            (ses.sys.log[i].Kept? ==> KeptRight(ses, i, x))
  {
    AppliedLast(ses.original, ses.sys.log, i, x);
    if ses.sys.log[i].Sent? {
      SentByte(ses, i, x);
    }
  }

  /** The edits amount to what was sent at a place exactly if nothing was read back there, or the last that was is
      right. */
  lemma ByteRightIff(ses: Session, x: nat)
    requires LogIsSent(ses)
    ensures (Applied(ses.original, ses.sys.log, x) == Overwritten(ses.original, ses.start, ses.sent, x)) <==>
            forall i :: 0 <= i < |ses.sys.log| && ses.sys.log[i].Kept? && IsLast(ses.sys.log, i, x) ==> KeptRight(ses, i, x)
  {
    var log := ses.sys.log;
    if Uncovered(log, x) {
      UncoveredByte(ses, x);
    } else {
      var i := HasLast(log, x);
      LastByteRightIff(ses, i, x);
      forall j | 0 <= j < |log| && IsLast(log, j, x) ensures j == i {
        LastIsUnique(log, i, j, x);
      }
    }
  }

  lemma FlashedAtIff(ses: Session, x: nat)
    requires WellFormed(ses.sys) && InPlace(ses) && Contents(ses) && !HeldBack(ses.sys, x)
    ensures FlashedAt(ses, x) <==>
            forall i :: 0 <= i < |ses.sys.log| && ses.sys.log[i].Kept? && IsLast(ses.sys.log, i, x) ==> KeptRight(ses, i, x)
  {
    DrainedMemory(ses, x);
    ByteRightIff(ses, x);
  }

  /** Everything that was read back last is right, but for what is held back. */
  ghost predicate AllKeptRight(ses: Session)
    requires WellFormed(ses.sys)
  {
    forall i, x: nat :: 0 <= i < |ses.sys.log| && ses.sys.log[i].Kept? && IsLast(ses.sys.log, i, x) && !HeldBack(ses.sys, x) ==>
      KeptRight(ses, i, x)
  }

  lemma FlashedIffKeptRight(ses: Session)
    requires WellFormed(ses.sys) && InPlace(ses) && Contents(ses)
    ensures FlashedAsSent(ses) <==> AllKeptRight(ses)
  {
    forall x: nat | !HeldBack(ses.sys, x)
      ensures FlashedAt(ses, x) <==>
              forall i :: 0 <= i < |ses.sys.log| && ses.sys.log[i].Kept? && IsLast(ses.sys.log, i, x) ==> KeptRight(ses, i, x)
    {
      FlashedAtIff(ses, x);
    }
    if FlashedAsSent(ses) {
      forall i, x: nat | 0 <= i < |ses.sys.log| && ses.sys.log[i].Kept? && IsLast(ses.sys.log, i, x) && !HeldBack(ses.sys, x)
        ensures KeptRight(ses, i, x)
      {
        assert FlashedAt(ses, x);
      }
    }
  }

  /** Every run, any handler: the memory ends up with exactly what was sent if and only if every byte that was read
      back, and not written again later, is the right one. */
  lemma SessionIsRightIff(s: System, address: nat, seed: Word, events: seq<Event>)
    requires IsRun(s, address, seed, events)
    ensures var final := Final(s, address, seed, events); FlashedAsSent(final) <==> AllKeptRight(final)
  {
    FinalInv(s, address, seed, events);
    FlashedIffKeptRight(Final(s, address, seed, events));
  }

  // ---- ... without a reopened page ----

  /** Nothing that was read back lies where bytes were sent, nor where something was read back before. */
  lemma KeptIsLast(ses: Session, i: nat, x: nat)
    requires WellFormed(ses.sys) && InPlace(ses) && LogIsSent(ses) && KeptAside(ses) && !ses.reopened
    requires i < |ses.sys.log| && ses.sys.log[i].Kept? && Covers(ses.sys.log[i], x)
    ensures IsLast(ses.sys.log, i, x) && Unsent(ses, x)
  {
    var log := ses.sys.log;
    assert KeptInFront(ses, i) || KeptBehind(ses, i);
    forall j | i < j < |log| ensures !Covers(log[j], x) {
      if log[j].Sent? {
        assert SentPart(ses, log[j]);
      } else if log[j].bytes != [] {
        assert KeptInFront(ses, j) || KeptBehind(ses, j);
      }
    }
    LastIfUncovered(log, i, x);
  }

  lemma NothingKeptWhereSent(ses: Session, x: nat)
    requires WellFormed(ses.sys) && InPlace(ses) && LogIsSent(ses) && KeptAside(ses) && !ses.reopened && !Unsent(ses, x)
    ensures forall i :: 0 <= i < |ses.sys.log| && ses.sys.log[i].Kept? ==> !Covers(ses.sys.log[i], x)
  {
    forall i | 0 <= i < |ses.sys.log| && ses.sys.log[i].Kept? ensures !Covers(ses.sys.log[i], x) {
      if Covers(ses.sys.log[i], x) {
        KeptIsLast(ses, i, x);
        assert false;
      }
    }
  }

  lemma SentByteIsFlashed(ses: Session, x: nat)
    requires WellFormed(ses.sys) && InPlace(ses) && Contents(ses) && !ses.reopened
    requires !Unsent(ses, x) && !HeldBack(ses.sys, x)
    ensures FlashedAt(ses, x)
  {
    FlashedAtIff(ses, x);
    NothingKeptWhereSent(ses, x);
  }

  lemma OverwrittenByte(m: Memory, address: nat, bytes: seq<Byte>, x: nat)
    requires address <= x < address + |bytes|
    ensures Overwritten(m, address, bytes, x) == bytes[x - address]
  {
  }

  /** With any handler and without a reopened page, every byte that was sent and is not held back is flashed. */
  lemma SentBytesAreFlashed(s: System, address: nat, seed: Word, events: seq<Event>, x: nat)
    requires IsRun(s, address, seed, events) && !Final(s, address, seed, events).reopened
    requires var final := Final(s, address, seed, events);
             address <= x < address + |final.sent| && !HeldBack(final.sys, x)
    ensures var final := Final(s, address, seed, events); Drained(final).sys.memory(x) == final.sent[x - address]
  {
    var final := Final(s, address, seed, events);
    FinalInv(s, address, seed, events);
    SentByteIsFlashed(final, x);
    OverwrittenByte(final.original, address, final.sent, x);
  }

  /** Every byte that was read back equals what the memory held there when the session started. */
  ghost predicate ReadBackRight(ses: Session)
    requires WellFormed(ses.sys)
  {
    forall i, x: nat :: 0 <= i < |ses.sys.log| && ses.sys.log[i].Kept? && Covers(ses.sys.log[i], x) && !HeldBack(ses.sys, x) ==>
      ses.sys.log[i].bytes[x - ses.sys.log[i].address] == ses.original(x)
  }

  lemma SteadyKeptRightIff(ses: Session)
    requires WellFormed(ses.sys) && InPlace(ses) && LogIsSent(ses) && KeptAside(ses) && !ses.reopened
    ensures AllKeptRight(ses) <==> ReadBackRight(ses)
  {
    forall i, x: nat | 0 <= i < |ses.sys.log| && ses.sys.log[i].Kept? && Covers(ses.sys.log[i], x)
      ensures IsLast(ses.sys.log, i, x)
      ensures KeptRight(ses, i, x) <==> ses.sys.log[i].bytes[x - ses.sys.log[i].address] == ses.original(x)
    {
      KeptIsLast(ses, i, x);
    }
  }

  /** With any handler and without a reopened page: the memory ends up with exactly what was sent if and only if the
      handler's read_mem left in the page buffers what the memory held. */
  lemma SteadySessionIsRightIff(s: System, address: nat, seed: Word, events: seq<Event>)
    requires IsRun(s, address, seed, events) && !Final(s, address, seed, events).reopened
    ensures var final := Final(s, address, seed, events); FlashedAsSent(final) <==> ReadBackRight(final)
  {
    var final := Final(s, address, seed, events);
    FinalInv(s, address, seed, events);
    FlashedIffKeptRight(final);
    SteadyKeptRightIff(final);
  }

  // ---- With a handler that reads the memory ----

  lemma DrainedEarly(ses: Session, x: nat)
    requires WellFormed(ses.sys) && InPlace(ses) && ContentIsLog(ses) && OnlyEarlyLost(ses) && ReadsMemory(ses.sys.reader)
    requires !HeldBack(ses.sys, x)
    ensures Drained(ses).sys.memory(x) == Applied(Expected(ses), ses.early, x)
  {
    DrainedMemory(ses, x);
  }

  /** Every run with a handler that reads the memory: the memory is what was sent, overwritten by what was read back
      in front of pages that were reopened while they were still queued. */
  lemma SessionLosesOnlyEarly(s: System, address: nat, seed: Word, events: seq<Event>, x: nat)
    requires IsRun(s, address, seed, events) && ReadsMemory(s.reader)
    ensures var final := Final(s, address, seed, events);
            !HeldBack(final.sys, x) ==>
              Drained(final).sys.memory(x) == Applied(Program(s.memory, address, final.sent), final.early, x)
  {
    var final := Final(s, address, seed, events);
    FinalInv(s, address, seed, events);
    if !HeldBack(final.sys, x) {
      DrainedEarly(final, x);
    }
  }

  /** The bytes a session flashes: with a handler that reads the memory, and as long as no page is reopened while it
      is still queued, the memory is the old memory with exactly the sent bytes at the start address. */
  lemma SessionFlashesWhatWasSent(s: System, address: nat, seed: Word, events: seq<Event>, x: nat)
    requires IsRun(s, address, seed, events) && ReadsMemory(s.reader)
    ensures var final := Final(s, address, seed, events);
            final.early == [] && !HeldBack(final.sys, x) ==>
              Drained(final).sys.memory(x) == Overwritten(s.memory, address, final.sent, x)
  {
    SessionLosesOnlyEarly(s, address, seed, events, x);
  }

  /** What early reopenings read back last is right, but for what is held back. */
  ghost predicate AllEarlyRight(ses: Session)
    requires WellFormed(ses.sys)
  {
    forall i, x: nat :: 0 <= i < |ses.early| && IsLast(ses.early, i, x) && !HeldBack(ses.sys, x) ==> EarlyRight(ses, i, x)
  }

  ghost predicate EarlyRight(ses: Session, i: nat, x: nat)
    requires i < |ses.early| && Covers(ses.early[i], x)
  {
    ses.early[i].bytes[x - ses.early[i].address] == Overwritten(ses.original, ses.start, ses.sent, x)
  }

  lemma EarlyAppliedIff(ses: Session, x: nat)
    ensures (Applied(Expected(ses), ses.early, x) == Overwritten(ses.original, ses.start, ses.sent, x)) <==>
            forall i :: 0 <= i < |ses.early| && IsLast(ses.early, i, x) ==> EarlyRight(ses, i, x)
  {
    if Uncovered(ses.early, x) {
      AppliedUncovered(Expected(ses), ses.early, x);
    } else {
      var i := HasLast(ses.early, x);
      AppliedLast(Expected(ses), ses.early, i, x);
      forall j | 0 <= j < |ses.early| && IsLast(ses.early, j, x) ensures j == i {
        LastIsUnique(ses.early, i, j, x);
      }
    }
  }

  lemma EarlyByteIff(ses: Session, x: nat)
    requires WellFormed(ses.sys) && InPlace(ses) && ContentIsLog(ses) && OnlyEarlyLost(ses) && ReadsMemory(ses.sys.reader)
    requires !HeldBack(ses.sys, x)
    ensures FlashedAt(ses, x) <==> forall i :: 0 <= i < |ses.early| && IsLast(ses.early, i, x) ==> EarlyRight(ses, i, x)
  {
    DrainedEarly(ses, x);
    EarlyAppliedIff(ses, x);
  }

  lemma FlashedIffEarlyRight(ses: Session)
    requires WellFormed(ses.sys) && InPlace(ses) && ContentIsLog(ses) && OnlyEarlyLost(ses) && ReadsMemory(ses.sys.reader)
    ensures FlashedAsSent(ses) <==> AllEarlyRight(ses)
  {
    forall x: nat | !HeldBack(ses.sys, x)
      ensures FlashedAt(ses, x) <==> forall i :: 0 <= i < |ses.early| && IsLast(ses.early, i, x) ==> EarlyRight(ses, i, x)
    {
      EarlyByteIff(ses, x);
    }
    if FlashedAsSent(ses) {
      forall i, x: nat | 0 <= i < |ses.early| && IsLast(ses.early, i, x) && !HeldBack(ses.sys, x)
        ensures EarlyRight(ses, i, x)
      {
        assert FlashedAt(ses, x);
      }
    }
  }

  /** Every run with a handler that reads the memory: what was sent is flashed if and only if every byte read back in
      front of a page reopened while it was queued, and not read back again, is the right one. */
  lemma EarlySessionIsRightIff(s: System, address: nat, seed: Word, events: seq<Event>)
    requires IsRun(s, address, seed, events) && ReadsMemory(s.reader)
    ensures var final := Final(s, address, seed, events); FlashedAsSent(final) <==> AllEarlyRight(final)
  {
    FinalInv(s, address, seed, events);
    FlashedIffEarlyRight(Final(s, address, seed, events));
  }
}
