/** Each step of a session keeps the invariant: bytes copied into the open page, the page handed over, the next
    buffer opened, a queued page programmed, a progress read. */
module FlashSteps {
  import opened Bytes
  import opened Crc32
  import opened EditLog
  import opened FlashModel
  import opened FlashSession

  // ---- Steps that put bytes into a buffer: one more edit ----

  lemma SentPartSurvives(ses: Session, after: Session, e: Edit)
    requires SentPart(ses, e) && after.start == ses.start && ses.sent <= after.sent
    ensures SentPart(after, e)
  {
  }

  lemma WasSentSurvives(log: seq<Edit>, e: Edit, x: nat)
    requires WasSent(log, x)
    ensures WasSent(log + [e], x)
  {
    var i :| 0 <= i < |log| && log[i].Sent? && Covers(log[i], x);
    assert (log + [e])[i] == log[i];
  }

  /** One more edit, of bytes that now also end what is pending. */
  ghost predicate OneMoreEdit(ses: Session, after: Session, e: Edit)
    requires WellFormed(ses.sys) && WellFormed(after.sys)
  {
    && after.sys.log == ses.sys.log + [e]
    && after.sys.memory == ses.sys.memory && after.sys.reader == ses.sys.reader
    && after.original == ses.original && after.start == ses.start
    && forall x: nat :: Applied(ses.sys.memory, Pending(after.sys), x) ==
                        Applied(ses.sys.memory, Pending(ses.sys) + [Kept(e.address, e.bytes)], x)
  }

  lemma OneMoreKeepsContent(ses: Session, after: Session, e: Edit)
    requires WellFormed(ses.sys) && WellFormed(after.sys)
    requires OneMoreEdit(ses, after, e) && ContentIsLog(ses)
    ensures ContentIsLog(after)
  {
    forall x: nat ensures Applied(after.sys.memory, Pending(after.sys), x) == Applied(after.original, after.sys.log, x) {
      AppliedNext(ses.sys.memory, Pending(ses.sys), Kept(e.address, e.bytes), x);
      AppliedNext(ses.original, ses.sys.log, e, x);
    }
  }

  lemma OneMoreKeptIsSent(ses: Session, after: Session, e: Edit)
    requires LogIsSent(ses) && e.Kept?
    requires after.start == ses.start && after.sent == ses.sent && after.sys.log == ses.sys.log + [e]
    ensures LogIsSent(after)
  {
    forall x: nat | after.start <= x < after.start + |after.sent| ensures WasSent(after.sys.log, x) {
      WasSentSurvives(ses.sys.log, e, x);
    }
  }

  /** Steps that touch neither memory nor contents. */
  ghost predicate SameContents(ses: Session, after: Session)
    requires WellFormed(ses.sys) && WellFormed(after.sys)
  {
    var s, t := ses.sys, after.sys;
    && t.memory == s.memory && t.log == s.log && t.reader == s.reader && Pending(t) == Pending(s)
    && t.startAddress == s.startAddress && t.pageSize == s.pageSize
    && (s.buffers[s.next].state == Filling <==> t.buffers[t.next].state == Filling)
    && after.original == ses.original && after.start == ses.start && after.sent == ses.sent
    && after.early == ses.early && (ses.reopened ==> after.reopened)
  }

  lemma SameContentsKeepLog(ses: Session, after: Session)
    requires WellFormed(ses.sys) && WellFormed(after.sys) && SameContents(ses, after)
    requires ContentIsLog(ses) && OnlyEarlyLost(ses)
    ensures ContentIsLog(after) && OnlyEarlyLost(after)
  {
  }

  lemma SameContentsKeepSent(ses: Session, after: Session)
    requires WellFormed(ses.sys) && WellFormed(after.sys) && SameContents(ses, after)
    requires LogIsSent(ses) && KeptAside(ses)
    ensures LogIsSent(after) && KeptAside(after)
  {
    if !after.reopened {
      forall i | 0 <= i < |after.sys.log| && after.sys.log[i].Kept? && after.sys.log[i].bytes != []
        ensures KeptInFront(after, i) || KeptBehind(after, i)
      {
        assert KeptInFront(ses, i) || KeptBehind(ses, i);
      }
    }
  }

  lemma SameContentsKeepUnsent(ses: Session, after: Session)
    requires WellFormed(ses.sys) && WellFormed(after.sys) && SameContents(ses, after)
    requires UnsentUntouched(ses)
    ensures UnsentUntouched(after)
  {
    if ReadsMemory(after.sys.reader) {
      forall x: nat | Unsent(after, x) ensures Untouched(after, x) {
        assert Untouched(ses, x);
      }
    }
  }

  lemma SameContentsKeep(ses: Session, after: Session)
    requires WellFormed(ses.sys) && WellFormed(after.sys) && SameContents(ses, after)
    requires Contents(ses)
    ensures Contents(after)
  {
    SameContentsKeepLog(ses, after);
    SameContentsKeepSent(ses, after);
    SameContentsKeepUnsent(ses, after);
  }

  /** Steps that send nothing and let no other buffer flash. */
  ghost predicate SameChecksums(ses: Session, after: Session)
    requires WellFormed(ses.sys) && WellFormed(after.sys)
  {
    var s, t := ses.sys, after.sys;
    && after.start == ses.start && after.seed == ses.seed && after.sent == ses.sent
    && t.checksum == s.checksum && t.startAddress == s.startAddress
    && t.buffers[t.next].crc == s.buffers[s.next].crc
    && forall i :: 0 <= i < CONCURRENT_FLASHS && t.buffers[i].state == Flashing ==> t.buffers[i] == s.buffers[i]
  }

  lemma ChecksumsCarryOver(ses: Session, after: Session)
    requires WellFormed(ses.sys) && WellFormed(after.sys) && SameChecksums(ses, after) && ChecksumsChain(ses)
    ensures ChecksumsChain(after)
  {
  }

  lemma QueuedBuffersFlash(ses: Session, k: nat)
    requires WellFormed(ses.sys) && InOrder(ses) && k < |ses.sys.queue|
    ensures ses.sys.buffers[ses.sys.queue[k].source].state == Flashing
  {
  }

  /** The queued pages as long as their buffers hold the same bytes. */
  lemma WaitingStays(s: System, t: System)
    requires WellFormed(s) && WellFormed(t) && t.queue == s.queue
    requires forall k :: 0 <= k < |s.queue| ==> t.buffers[s.queue[k].source].data == s.buffers[s.queue[k].source].data
    ensures Waiting(t) == Waiting(s)
  {
  }

  // ---- Bytes written into the open page ----

  function AppendStep(ses: Session, bytes: seq<Byte>): Session
    requires WellFormed(ses.sys) && ses.sys.buffers[ses.sys.next].ptr + |bytes| <= ses.sys.pageSize
  {
    ses.(sys := Append(ses.sys, bytes), sent := ses.sent + bytes)
  }

  ghost predicate CanAppend(ses: Session, n: nat) {
    && Ordered(ses)
    && ses.sys.buffers[ses.sys.next].state == Filling
    && ses.sys.buffers[ses.sys.next].ptr + n <= ses.sys.pageSize
  }

  lemma AppendKeepsOrder(ses: Session, bytes: seq<Byte>)
    requires CanAppend(ses, |bytes|)
    ensures Ordered(AppendStep(ses, bytes))
  {
  }

  function Received(ses: Session, bytes: seq<Byte>): Edit {
    Sent(ses.sys.startAddress, bytes)
  }

  lemma AppendLeavesWaiting(ses: Session, bytes: seq<Byte>)
    requires CanAppend(ses, |bytes|)
    requires WellFormed(AppendStep(ses, bytes).sys)
    ensures Waiting(AppendStep(ses, bytes).sys) == Waiting(ses.sys)
  {
    forall k | 0 <= k < |ses.sys.queue|
      ensures ses.sys.queue[k].source != ses.sys.next
    {
      QueuedBuffersFlash(ses, k);
    }
    WaitingStays(ses.sys, AppendStep(ses, bytes).sys);
  }

  lemma AppendGrowsPending(ses: Session, bytes: seq<Byte>)
    requires CanAppend(ses, |bytes|)
    requires WellFormed(AppendStep(ses, bytes).sys)
    ensures Pending(AppendStep(ses, bytes).sys) ==
            Waiting(ses.sys) + [OpenPart(ses.sys).(bytes := OpenPart(ses.sys).bytes + bytes)]
  {
    var s, t := ses.sys, AppendStep(ses, bytes).sys;
    AppendLeavesWaiting(ses, bytes);
    assert OpenPart(t).bytes == OpenPart(s).bytes + bytes;
  }

  lemma AppendIsOneMoreEdit(ses: Session, bytes: seq<Byte>)
    requires CanAppend(ses, |bytes|)
    requires WellFormed(AppendStep(ses, bytes).sys)
    ensures OneMoreEdit(ses, AppendStep(ses, bytes), Received(ses, bytes))
  {
    var s := ses.sys;
    AppendGrowsPending(ses, bytes);
    forall x: nat
      ensures Applied(s.memory, Pending(AppendStep(ses, bytes).sys), x) ==
              Applied(s.memory, Pending(s) + [Kept(s.startAddress, bytes)], x)
    {
      GrownEdit(s.memory, Waiting(s), OpenPart(s), bytes, x);
    }
  }

  lemma AppendKeepsSent(ses: Session, bytes: seq<Byte>)
    requires CanAppend(ses, |bytes|) && LogIsSent(ses)
    ensures LogIsSent(AppendStep(ses, bytes))
  {
    var after := AppendStep(ses, bytes);
    var log, e := ses.sys.log, Received(ses, bytes);
    assert after.sys.log == log + [e];
    forall i | 0 <= i < |log| && log[i].Sent? ensures SentPart(after, log[i]) {
      SentPartSurvives(ses, after, log[i]);
    }
    assert SentPart(after, e);
    forall x: nat | after.start <= x < after.start + |after.sent| ensures WasSent(log + [e], x) {
      if x < ses.sys.startAddress {
        WasSentSurvives(log, e, x);
      } else {
        assert (log + [e])[|log|] == e;
      }
    }
  }

  lemma AppendKeepsAside(ses: Session, bytes: seq<Byte>)
    requires CanAppend(ses, |bytes|) && KeptAside(ses)
    requires WellFormed(AppendStep(ses, bytes).sys)
    ensures KeptAside(AppendStep(ses, bytes))
  {
    var after := AppendStep(ses, bytes);
    forall i | !after.reopened && 0 <= i < |after.sys.log| && after.sys.log[i].Kept? && after.sys.log[i].bytes != []
      ensures KeptInFront(after, i)
    {
      assert after.sys.log[i] == ses.sys.log[i];
      assert KeptInFront(ses, i) || KeptBehind(ses, i);
    }
  }

  lemma AppendLeavesUntouched(ses: Session, bytes: seq<Byte>, x: nat)
    requires CanAppend(ses, |bytes|) && Untouched(ses, x) && Unsent(AppendStep(ses, bytes), x)
    requires WellFormed(AppendStep(ses, bytes).sys)
    ensures Untouched(AppendStep(ses, bytes), x)
  {
    AppendGrowsPending(ses, bytes);
    GrownAgrees(Waiting(ses.sys), OpenPart(ses.sys), bytes, x, ses.original(x));
  }

  lemma AppendKeepsUnsent(ses: Session, bytes: seq<Byte>)
    requires CanAppend(ses, |bytes|) && UnsentUntouched(ses)
    requires WellFormed(AppendStep(ses, bytes).sys)
    ensures UnsentUntouched(AppendStep(ses, bytes))
  {
    if ReadsMemory(ses.sys.reader) {
      forall x: nat | Unsent(AppendStep(ses, bytes), x) ensures Untouched(AppendStep(ses, bytes), x) {
        assert Unsent(ses, x);
        AppendLeavesUntouched(ses, bytes, x);
      }
    }
  }

  ghost predicate EarlyInFront(ses: Session) {
    forall i :: 0 <= i < |ses.early| ==> ses.early[i].address + |ses.early[i].bytes| <= ses.start + |ses.sent|
  }

  lemma EarlyLeavesNew(ses: Session, m: Memory, x: nat)
    requires EarlyInFront(ses) && ses.start + |ses.sent| <= x
    ensures Applied(m, ses.early, x) == m(x)
  {
    AppliedUncovered(m, ses.early, x);
  }

  lemma AppendedByte(ses: Session, bytes: seq<Byte>, x: nat)
    requires CanAppend(ses, |bytes|) && EarlyInFront(ses)
    requires Applied(ses.original, ses.sys.log, x) == Applied(Expected(ses), ses.early, x)
    ensures Applied(ses.original, AppendStep(ses, bytes).sys.log, x) == Applied(Expected(AppendStep(ses, bytes)), ses.early, x)
  {
    var e, after := Received(ses, bytes), AppendStep(ses, bytes);
    AppliedNext(ses.original, ses.sys.log, e, x);
    if Covers(e, x) {
      EarlyLeavesNew(ses, Expected(after), x);
    } else {
      AppliedTo(Expected(ses), Expected(after), ses.early, x);
    }
  }

  lemma AppendKeepsEarly(ses: Session, bytes: seq<Byte>)
    requires CanAppend(ses, |bytes|) && OnlyEarlyLost(ses)
    ensures OnlyEarlyLost(AppendStep(ses, bytes))
  {
    if ReadsMemory(ses.sys.reader) {
      forall x: nat
        ensures Applied(ses.original, AppendStep(ses, bytes).sys.log, x) == Applied(Expected(AppendStep(ses, bytes)), ses.early, x)
      {
        AppendedByte(ses, bytes, x);
      }
    }
  }

  lemma AppendKeepsContents(ses: Session, bytes: seq<Byte>)
    requires CanAppend(ses, |bytes|) && Contents(ses)
    requires WellFormed(AppendStep(ses, bytes).sys)
    ensures Contents(AppendStep(ses, bytes))
  {
    AppendIsOneMoreEdit(ses, bytes);
    OneMoreKeepsContent(ses, AppendStep(ses, bytes), Received(ses, bytes));
    AppendKeepsSent(ses, bytes);
    AppendKeepsAside(ses, bytes);
    AppendKeepsUnsent(ses, bytes);
    AppendKeepsEarly(ses, bytes);
  }

  /** A checksum over a part of the sent bytes stays one when more bytes are sent. */
  lemma CoverSurvives(ses: Session, after: Session, b: Buffer, end: int)
    requires ChecksumCovers(ses, b, end)
    requires after.start == ses.start && after.seed == ses.seed && after.sys.checksum == ses.sys.checksum
    requires ses.sent <= after.sent
    ensures ChecksumCovers(after, b, end)
  {
    assert after.sent[..end - ses.start] == ses.sent[..end - ses.start];
  }

  lemma AppendedChecksum(ses: Session, bytes: seq<Byte>, b: Buffer)
    requires Chains(ses.sys.checksum) && ChecksumCovers(ses, b, ses.start + |ses.sent|)
    requires b.ptr + |bytes| <= |b.data|
    requires WellFormed(ses.sys) && ses.sys.buffers[ses.sys.next].ptr + |bytes| <= ses.sys.pageSize
    ensures ChecksumCovers(AppendStep(ses, bytes), Appended(b, bytes, ses.sys.checksum), ses.start + |ses.sent| + |bytes|)
  {
    var f, sent := ses.sys.checksum, ses.sent + bytes;
    assert f(ses.sent + bytes, ses.seed) == f(bytes, f(ses.sent, ses.seed));
    assert ses.sent[..|ses.sent|] == ses.sent && sent[..|sent|] == sent;
  }

  lemma AppendedNextChecksum(ses: Session, bytes: seq<Byte>)
    requires WellFormed(ses.sys) && ses.sys.buffers[ses.sys.next].ptr + |bytes| <= ses.sys.pageSize
    requires ses.sys.startAddress == ses.start + |ses.sent|
    requires ChecksumCovers(ses, ses.sys.buffers[ses.sys.next], ses.sys.startAddress) && Chains(ses.sys.checksum)
    ensures var after := AppendStep(ses, bytes);
            ChecksumCovers(after, after.sys.buffers[ses.sys.next], after.sys.startAddress)
  {
    AppendedChecksum(ses, bytes, ses.sys.buffers[ses.sys.next]);
  }

  lemma AppendKeepsChecksums(ses: Session, bytes: seq<Byte>)
    requires WellFormed(ses.sys) && ses.sys.buffers[ses.sys.next].ptr + |bytes| <= ses.sys.pageSize
    requires ses.sys.startAddress == ses.start + |ses.sent| && ses.sys.buffers[ses.sys.next].state == Filling
    requires ChecksumsChain(ses) && Chains(ses.sys.checksum)
    requires WellFormed(AppendStep(ses, bytes).sys)
    ensures ChecksumsChain(AppendStep(ses, bytes))
  {
    var s, after := ses.sys, AppendStep(ses, bytes);
    AppendedNextChecksum(ses, bytes);
    forall i | 0 <= i < CONCURRENT_FLASHS && after.sys.buffers[i].state == Flashing
      ensures ChecksumCovers(after, after.sys.buffers[i], after.sys.buffers[i].addr + after.sys.buffers[i].ptr)
    {
      CoverSurvives(ses, after, s.buffers[i], s.buffers[i].addr + s.buffers[i].ptr);
    }
  }

  lemma AppendKeepsSequence(ses: Session, bytes: seq<Byte>)
    requires CanAppend(ses, |bytes|) && PagesInSequence(ses)
    requires WellFormed(AppendStep(ses, bytes).sys)
    ensures PagesInSequence(AppendStep(ses, bytes))
  {
  }

  lemma AppendKeepsCore(ses: Session, bytes: seq<Byte>)
    requires CanAppend(ses, |bytes|) && Core(ses)
    ensures Core(AppendStep(ses, bytes))
  {
    AppendKeepsOrder(ses, bytes);
    AppendKeepsContents(ses, bytes);
    AppendKeepsChecksums(ses, bytes);
    AppendKeepsSequence(ses, bytes);
  }

  // ---- The open page handed to the flash handler ----

  function IssueStep(ses: Session): Session
    requires WellFormed(ses.sys) && ses.sys.buffers[ses.sys.next].ptr <= ses.sys.pageSize
  {
    ses.(sys := Issue(ses.sys))
  }

  ghost predicate CanIssue(ses: Session) {
    && Ordered(ses)
    && ses.sys.buffers[ses.sys.next].state == Filling
    && 0 < ses.sys.buffers[ses.sys.next].ptr <= ses.sys.pageSize
  }

  /** The queue of the flash handler never overflows: its assertion holds at every start_flash. */
  lemma IssueFindsRoom(ses: Session)
    requires WellFormed(ses.sys) && InOrder(ses) && ses.sys.buffers[ses.sys.next].state == Filling
    ensures |ses.sys.queue| < CONCURRENT_FLASHS
  {
  }

  lemma IssueKeepsPlaces(ses: Session)
    requires WellFormed(ses.sys) && InPlace(ses) && ses.sys.buffers[ses.sys.next].state == Filling
    requires 0 < ses.sys.buffers[ses.sys.next].ptr <= ses.sys.pageSize
    requires WellFormed(IssueStep(ses).sys)
    ensures InPlace(IssueStep(ses))
  {
    var s, after := ses.sys, Issue(ses.sys);
    forall k | 0 <= k < |after.queue|
      ensures OnPage(after.queue[k].address, s.pageSize) && after.queue[k].address < s.startAddress
    {
      assert k < |s.queue| ==> after.queue[k] == s.queue[k];
    }
  }

  lemma IssueStaysWellFormed(ses: Session)
    requires CanIssue(ses)
    ensures WellFormed(IssueStep(ses).sys) && HasRoom(IssueStep(ses).sys)
  {
  }

  lemma IssueKeepsQueueOrder(ses: Session)
    requires WellFormed(ses.sys) && InOrder(ses) && ses.sys.buffers[ses.sys.next].state == Filling
    requires ses.sys.buffers[ses.sys.next].ptr <= ses.sys.pageSize
    requires WellFormed(IssueStep(ses).sys)
    ensures InOrder(IssueStep(ses))
  {
    var s, after := ses.sys, Issue(ses.sys);
    IssueFindsRoom(ses);
    assert after.queue[..|s.queue|] == s.queue;
  }

  lemma IssueKeepsOrder(ses: Session)
    requires CanIssue(ses)
    ensures Ordered(IssueStep(ses)) && HasRoom(IssueStep(ses).sys)
  {
    IssueStaysWellFormed(ses);
    IssueKeepsQueueOrder(ses);
    IssueKeepsPlaces(ses);
  }

  /** What is read back behind the filled part of the page. */
  function ReadBehind(s: System): Edit
    requires WellFormed(s) && s.buffers[s.next].ptr <= s.pageSize
  {
    var b := s.buffers[s.next];
    Kept(b.addr + b.ptr, EndOfPage(b, s.memory, s.reader))
  }

  lemma IssueGrowsWaiting(ses: Session)
    requires CanIssue(ses)
    requires WellFormed(IssueStep(ses).sys)
    ensures Waiting(IssueStep(ses).sys) ==
            Waiting(ses.sys) + [OpenPart(ses.sys).(bytes := OpenPart(ses.sys).bytes + ReadBehind(ses.sys).bytes)]
  {
    var s, t := ses.sys, IssueStep(ses).sys;
    forall k | 0 <= k < |s.queue|
      ensures s.queue[k].source != s.next
    {
      QueuedBuffersFlash(ses, k);
    }
  }

  lemma IssueGrowsPending(ses: Session)
    requires CanIssue(ses)
    requires WellFormed(IssueStep(ses).sys)
    ensures Pending(IssueStep(ses).sys) ==
            Waiting(ses.sys) + [OpenPart(ses.sys).(bytes := OpenPart(ses.sys).bytes + ReadBehind(ses.sys).bytes)]
  {
    IssueGrowsWaiting(ses);
  }

  lemma IssueIsOneMoreEdit(ses: Session)
    requires CanIssue(ses)
    requires WellFormed(IssueStep(ses).sys)
    ensures OneMoreEdit(ses, IssueStep(ses), ReadBehind(ses.sys))
  {
    var s := ses.sys;
    var e := ReadBehind(s);
    IssueGrowsPending(ses);
    forall x: nat
      ensures Applied(s.memory, Pending(IssueStep(ses).sys), x) == Applied(s.memory, Pending(s) + [Kept(e.address, e.bytes)], x)
    {
      GrownEdit(s.memory, Waiting(s), OpenPart(s), e.bytes, x);
    }
  }

  lemma FlushedMidPage(ses: Session)
    requires CanIssue(ses) && ses.sys.buffers[ses.sys.next].ptr < ses.sys.pageSize
    ensures MidPage(ses.sys)
  {
    var s := ses.sys;
    OnPageIsMultiple(s.startAddress, s.pageSize);
    if OnPage(s.startAddress, s.pageSize) {
      PagesApart(s.buffers[s.next].addr, s.startAddress, s.pageSize);
    }
  }

  lemma IssueKeepsAside(ses: Session)
    requires CanIssue(ses) && KeptAside(ses)
    requires WellFormed(IssueStep(ses).sys)
    ensures KeptAside(IssueStep(ses))
  {
    var after := IssueStep(ses);
    forall i | !after.reopened && 0 <= i < |after.sys.log| && after.sys.log[i].Kept? && after.sys.log[i].bytes != []
      ensures KeptInFront(after, i) || KeptBehind(after, i)
    {
      if i < |ses.sys.log| {
        assert after.sys.log[i] == ses.sys.log[i];
        assert KeptInFront(ses, i) || KeptBehind(ses, i);
      } else {
        FlushedMidPage(ses);
      }
    }
  }

  lemma ReadBehindIsMemory(s: System, x: nat)
    requires WellFormed(s) && s.buffers[s.next].ptr <= s.pageSize && ReadsMemory(s.reader)
    ensures Agree([ReadBehind(s)], x, s.memory(x))
  {
  }

  lemma IssueLeavesUntouched(ses: Session, x: nat)
    requires CanIssue(ses) && Untouched(ses, x) && ReadsMemory(ses.sys.reader)
    requires WellFormed(IssueStep(ses).sys)
    ensures Untouched(IssueStep(ses), x)
  {
    IssueGrowsPending(ses);
    ReadBehindIsMemory(ses.sys, x);
    GrownAgrees(Waiting(ses.sys), OpenPart(ses.sys), ReadBehind(ses.sys).bytes, x, ses.original(x));
  }

  lemma IssueKeepsUnsent(ses: Session)
    requires CanIssue(ses) && UnsentUntouched(ses)
    requires WellFormed(IssueStep(ses).sys)
    ensures UnsentUntouched(IssueStep(ses))
  {
    if ReadsMemory(ses.sys.reader) {
      forall x: nat | Unsent(IssueStep(ses), x) ensures Untouched(IssueStep(ses), x) {
        assert Unsent(ses, x);
        IssueLeavesUntouched(ses, x);
      }
    }
  }

  /** What is read back behind the bytes sent is what the memory should hold there. */
  lemma ByteReadBehind(ses: Session, x: nat)
    requires CanIssue(ses) && EarlyInFront(ses) && ReadsMemory(ses.sys.reader)
    requires Unsent(ses, x) ==> Untouched(ses, x)
    requires Applied(ses.original, ses.sys.log, x) == Applied(Expected(ses), ses.early, x)
    ensures Applied(ses.original, IssueStep(ses).sys.log, x) == Applied(Expected(ses), ses.early, x)
  {
    var e := ReadBehind(ses.sys);
    AppliedNext(ses.original, ses.sys.log, e, x);
    if Covers(e, x) {
      EarlyLeavesNew(ses, Expected(ses), x);
      ReadBehindIsMemory(ses.sys, x);
      assert [e][0] == e;
    }
  }

  lemma IssueKeepsEarly(ses: Session)
    requires CanIssue(ses) && UnsentUntouched(ses) && OnlyEarlyLost(ses)
    ensures OnlyEarlyLost(IssueStep(ses))
  {
    if ReadsMemory(ses.sys.reader) {
      forall x: nat
        ensures Applied(ses.original, IssueStep(ses).sys.log, x) == Applied(Expected(ses), ses.early, x)
      {
        ByteReadBehind(ses, x);
      }
    }
  }

  lemma IssueKeepsContents(ses: Session)
    requires CanIssue(ses) && Contents(ses)
    requires WellFormed(IssueStep(ses).sys)
    ensures Contents(IssueStep(ses))
  {
    IssueIsOneMoreEdit(ses);
    OneMoreKeepsContent(ses, IssueStep(ses), ReadBehind(ses.sys));
    OneMoreKeptIsSent(ses, IssueStep(ses), ReadBehind(ses.sys));
    IssueKeepsAside(ses);
    IssueKeepsUnsent(ses);
    IssueKeepsEarly(ses);
  }

  lemma IssueKeepsChecksums(ses: Session)
    requires WellFormed(ses.sys) && ses.sys.buffers[ses.sys.next].ptr <= ses.sys.pageSize
    requires ses.sys.buffers[ses.sys.next].addr + ses.sys.buffers[ses.sys.next].ptr == ses.sys.startAddress
    requires ChecksumsChain(ses)
    requires WellFormed(IssueStep(ses).sys)
    ensures ChecksumsChain(IssueStep(ses))
  {
    var s, after := ses.sys, IssueStep(ses);
    CoverSurvives(ses, after, s.buffers[s.next], s.startAddress);
    forall i | 0 <= i < CONCURRENT_FLASHS && after.sys.buffers[i].state == Flashing
      ensures ChecksumCovers(after, after.sys.buffers[i], after.sys.buffers[i].addr + after.sys.buffers[i].ptr)
    {
      if i != s.next {
        CoverSurvives(ses, after, s.buffers[i], s.buffers[i].addr + s.buffers[i].ptr);
      }
    }
  }

  lemma IssueKeepsSequence(ses: Session)
    requires CanIssue(ses) && PagesInSequence(ses)
    requires WellFormed(IssueStep(ses).sys)
    ensures PagesInSequence(IssueStep(ses))
  {
    var s := ses.sys;
    var b := s.buffers[s.next];
    if OnPage(s.startAddress, s.pageSize) {
      PagesApart(b.addr, s.startAddress, s.pageSize);
    }
  }

  lemma IssueKeepsInv(ses: Session)
    requires CanIssue(ses) && Core(ses)
    ensures Inv(IssueStep(ses))
  {
    IssueKeepsOrder(ses);
    IssueKeepsContents(ses);
    IssueKeepsChecksums(ses);
    IssueKeepsSequence(ses);
  }

  // ---- The other buffer opened ----

  function OpenStep(ses: Session): Session
    requires WellFormed(ses.sys)
  {
    ses.(sys := OpenNext(ses.sys),
         reopened := ses.reopened || MidPage(ses.sys),
         early := if StillQueued(ses.sys) then ses.early + [ReadInFront(ses.sys)] else ses.early)
  }

  ghost predicate CanOpen(ses: Session) {
    && Ordered(ses)
    && ses.sys.buffers[ses.sys.next].state != Filling
    && ses.sys.buffers[OtherBuffer(ses.sys.next)].state == Idle
  }

  lemma OpenKeepsPlaces(ses: Session)
    requires WellFormed(ses.sys) && InPlace(ses)
    requires WellFormed(OpenStep(ses).sys)
    ensures InPlace(OpenStep(ses))
  {
    PageIsOnPage(ses.sys.startAddress, ses.sys.pageSize);
  }

  lemma OpenKeepsQueueOrder(ses: Session)
    requires WellFormed(ses.sys) && InOrder(ses) && ses.sys.buffers[ses.sys.next].state != Filling
    requires ses.sys.buffers[OtherBuffer(ses.sys.next)].state == Idle
    ensures WellFormed(OpenStep(ses).sys) && HasRoom(OpenStep(ses).sys) && InOrder(OpenStep(ses))
  {
  }

  lemma OpenKeepsOrder(ses: Session)
    requires CanOpen(ses)
    ensures Ordered(OpenStep(ses)) && HasRoom(OpenStep(ses).sys)
  {
    OpenKeepsQueueOrder(ses);
    OpenKeepsPlaces(ses);
  }

  lemma OpenLeavesWaiting(ses: Session)
    requires CanOpen(ses)
    requires WellFormed(OpenStep(ses).sys)
    ensures Waiting(OpenStep(ses).sys) == Waiting(ses.sys)
  {
    forall k | 0 <= k < |ses.sys.queue|
      ensures ses.sys.queue[k].source != OtherBuffer(ses.sys.next)
    {
      QueuedBuffersFlash(ses, k);
    }
    WaitingStays(ses.sys, OpenStep(ses).sys);
  }

  lemma OpenedPart(s: System)
    requires WellFormed(s)
    requires WellFormed(OpenNext(s))
    ensures OpenPart(OpenNext(s)) == ReadInFront(s)
  {
    assert OpenPart(OpenNext(s)).bytes == ReadInFront(s).bytes;
  }

  lemma OpenGrowsPending(ses: Session)
    requires CanOpen(ses)
    requires WellFormed(OpenStep(ses).sys)
    ensures Pending(OpenStep(ses).sys) == Pending(ses.sys) + [ReadInFront(ses.sys)]
  {
    OpenLeavesWaiting(ses);
    OpenedPart(ses.sys);
  }

  lemma OpenIsOneMoreEdit(ses: Session)
    requires CanOpen(ses)
    requires WellFormed(OpenStep(ses).sys)
    ensures OneMoreEdit(ses, OpenStep(ses), ReadInFront(ses.sys))
  {
    OpenGrowsPending(ses);
  }

  lemma OpenKeepsAside(ses: Session)
    requires CanOpen(ses) && KeptAside(ses)
    requires WellFormed(OpenStep(ses).sys)
    ensures KeptAside(OpenStep(ses))
  {
    var after := OpenStep(ses);
    forall i | !after.reopened && 0 <= i < |after.sys.log| && after.sys.log[i].Kept? && after.sys.log[i].bytes != []
      ensures KeptInFront(after, i)
    {
      assert i < |ses.sys.log| && after.sys.log[i] == ses.sys.log[i];
      assert KeptInFront(ses, i) || KeptBehind(ses, i);
    }
  }

  lemma StartOfPageIsMemory(b: Buffer, address: nat, m: Memory, reader: Reader, pageSize: nat, x: nat)
    requires 0 < pageSize == |b.data| && ReadsMemory(reader)
    ensures Agree([Kept(Page(address, pageSize), StartOfPage(b, address, m, reader, pageSize))], x, m(x))
  {
  }

  lemma ReadInFrontIsMemory(s: System, x: nat)
    requires WellFormed(s) && ReadsMemory(s.reader)
    ensures Agree([ReadInFront(s)], x, s.memory(x))
  {
    StartOfPageIsMemory(s.buffers[OtherBuffer(s.next)], s.startAddress, s.memory, s.reader, s.pageSize, x);
  }

  lemma OpenLeavesUntouched(ses: Session, x: nat)
    requires CanOpen(ses) && Untouched(ses, x) && ReadsMemory(ses.sys.reader)
    requires WellFormed(OpenStep(ses).sys)
    ensures Untouched(OpenStep(ses), x)
  {
    OpenGrowsPending(ses);
    ReadInFrontIsMemory(ses.sys, x);
    AgreeNext(Pending(ses.sys), ReadInFront(ses.sys), x, ses.original(x));
  }

  lemma OpenKeepsUnsent(ses: Session)
    requires CanOpen(ses) && UnsentUntouched(ses)
    requires WellFormed(OpenStep(ses).sys)
    ensures UnsentUntouched(OpenStep(ses))
  {
    if ReadsMemory(ses.sys.reader) {
      forall x: nat | Unsent(OpenStep(ses), x) ensures Untouched(OpenStep(ses), x) {
        assert Unsent(ses, x);
        OpenLeavesUntouched(ses, x);
      }
    }
  }

  /** A page that is not queued is not covered by anything pending. */
  lemma InFrontNotPending(ses: Session, x: nat)
    requires CanOpen(ses) && !StillQueued(ses.sys)
    requires Covers(ReadInFront(ses.sys), x)
    ensures Uncovered(Pending(ses.sys), x)
  {
    var s := ses.sys;
    var page := Page(s.startAddress, s.pageSize);
    PageIsOnPage(s.startAddress, s.pageSize);
    forall k | 0 <= k < |s.queue|
      ensures !Covers(Waiting(s)[k], x)
    {
      if Covers(Waiting(s)[k], x) {
        InOnePage(x, s.queue[k].address, page, s.pageSize);
        assert false;
      }
    }
  }

  lemma MemoryInFront(ses: Session, x: nat)
    requires CanOpen(ses) && !StillQueued(ses.sys) && ContentIsLog(ses)
    requires Covers(ReadInFront(ses.sys), x)
    ensures ses.sys.memory(x) == Applied(ses.original, ses.sys.log, x)
  {
    InFrontNotPending(ses, x);
    AppliedUncovered(ses.sys.memory, Pending(ses.sys), x);
    assert Applied(ses.sys.memory, Pending(ses.sys), x) == Applied(ses.original, ses.sys.log, x);
  }

  lemma OpenedByte(m: Memory, log: seq<Edit>, s: System, x: nat)
    requires WellFormed(s) && ReadsMemory(s.reader)
    ensures Applied(m, log + [ReadInFront(s)], x) == if Covers(ReadInFront(s), x) then s.memory(x) else Applied(m, log, x)
  {
    ReadInFrontIsMemory(s, x);
    AgreedNext(m, log, ReadInFront(s), x, s.memory(x));
  }

  lemma OpenLogs(s: System)
    requires WellFormed(s)
    ensures OpenNext(s).log == s.log + [ReadInFront(s)]
  {
  }

  /** What is read back in front of a page that is not queued any more is what the edits amount to. */
  lemma ByteReadInFront(ses: Session, x: nat)
    requires CanOpen(ses) && !StillQueued(ses.sys) && ReadsMemory(ses.sys.reader) && ContentIsLog(ses)
    ensures Applied(ses.original, OpenStep(ses).sys.log, x) == Applied(ses.original, ses.sys.log, x)
  {
    OpenLogs(ses.sys);
    OpenedByte(ses.original, ses.sys.log, ses.sys, x);
    if Covers(ReadInFront(ses.sys), x) {
      MemoryInFront(ses, x);
    }
  }

  lemma EarlyByte(ses: Session, x: nat)
    requires CanOpen(ses) && StillQueued(ses.sys)
    requires Applied(ses.original, ses.sys.log, x) == Applied(Expected(ses), ses.early, x)
    ensures Applied(ses.original, OpenStep(ses).sys.log, x) == Applied(Expected(ses), OpenStep(ses).early, x)
  {
    AppliedNext(ses.original, ses.sys.log, ReadInFront(ses.sys), x);
    AppliedNext(Expected(ses), ses.early, ReadInFront(ses.sys), x);
  }

  lemma OpenKeepsEarly(ses: Session)
    requires CanOpen(ses) && ContentIsLog(ses) && OnlyEarlyLost(ses)
    ensures OnlyEarlyLost(OpenStep(ses))
  {
    if ReadsMemory(ses.sys.reader) {
      forall x: nat
        ensures Applied(ses.original, OpenStep(ses).sys.log, x) == Applied(Expected(ses), OpenStep(ses).early, x)
      {
        if StillQueued(ses.sys) {
          EarlyByte(ses, x);
        } else {
          ByteReadInFront(ses, x);
        }
      }
    }
  }

  lemma OpenKeepsContents(ses: Session)
    requires CanOpen(ses) && Contents(ses)
    requires WellFormed(OpenStep(ses).sys)
    ensures Contents(OpenStep(ses))
  {
    OpenIsOneMoreEdit(ses);
    OneMoreKeepsContent(ses, OpenStep(ses), ReadInFront(ses.sys));
    OneMoreKeptIsSent(ses, OpenStep(ses), ReadInFront(ses.sys));
    OpenKeepsAside(ses);
    OpenKeepsUnsent(ses);
    OpenKeepsEarly(ses);
  }

  lemma OpenKeepsChecksums(ses: Session)
    requires WellFormed(ses.sys) && ses.sys.buffers[OtherBuffer(ses.sys.next)].state == Idle && ChecksumsChain(ses)
    requires WellFormed(OpenStep(ses).sys)
    ensures ChecksumsChain(OpenStep(ses))
  {
    ChecksumsCarryOver(ses, OpenStep(ses));
  }

  lemma OpenKeepsSequence(ses: Session)
    requires CanOpen(ses) && PagesInSequence(ses)
    requires WellFormed(OpenStep(ses).sys)
    ensures PagesInSequence(OpenStep(ses))
  {
    OnPageIsMultiple(ses.sys.startAddress, ses.sys.pageSize);
  }

  lemma OpenKeepsInv(ses: Session)
    requires CanOpen(ses) && Core(ses)
    ensures Inv(OpenStep(ses))
  {
    OpenKeepsOrder(ses);
    OpenKeepsContents(ses);
    OpenKeepsChecksums(ses);
    OpenKeepsSequence(ses);
  }

  /** Behind a full page the next page is opened at its start, and is not queued. */
  lemma PageAheadNotQueued(ses: Session)
    requires Ordered(ses) && !MidPage(ses.sys)
    ensures !StillQueued(ses.sys)
  {
  }

  // ---- A queued page programmed ----

  function ProgrammedStep(ses: Session): Session
    requires WellFormed(ses.sys)
  {
    ses.(sys := ConnectionEvent(ses.sys), unreported := ses.unreported + if ses.sys.queue == [] then 0 else 1)
  }

  lemma ProgrammedKeepsOrder(ses: Session)
    requires Ordered(ses)
    ensures Ordered(ProgrammedStep(ses)) && (HasRoom(ses.sys) ==> HasRoom(ProgrammedStep(ses).sys))
  {
  }

  lemma ProgrammedWasPending(ses: Session)
    requires WellFormed(ses.sys) && ses.sys.queue != []
    requires WellFormed(ProgrammedStep(ses).sys)
    ensures Pending(ses.sys) == [WaitingPage(ses.sys, ses.sys.queue[0])] + Pending(ProgrammedStep(ses).sys)
  {
    var s, t := ses.sys, ProgrammedStep(ses).sys;
    assert Waiting(s) == [WaitingPage(s, s.queue[0])] + Waiting(t);
  }

  lemma ProgrammedKeepsContent(ses: Session)
    requires WellFormed(ses.sys) && ses.sys.queue != [] && ContentIsLog(ses)
    requires WellFormed(ProgrammedStep(ses).sys)
    ensures ContentIsLog(ProgrammedStep(ses))
  {
    var s, after := ses.sys, ProgrammedStep(ses);
    ProgrammedWasPending(ses);
    forall x: nat ensures Applied(after.sys.memory, Pending(after.sys), x) == Applied(ses.original, s.log, x) {
      ProgramFirst(s.memory, WaitingPage(s, s.queue[0]), Pending(after.sys), x);
    }
  }

  lemma ProgrammedLeavesUntouched(ses: Session, x: nat)
    requires WellFormed(ses.sys) && ses.sys.queue != [] && Untouched(ses, x)
    requires WellFormed(ProgrammedStep(ses).sys)
    ensures Untouched(ProgrammedStep(ses), x)
  {
    var first := WaitingPage(ses.sys, ses.sys.queue[0]);
    ProgrammedWasPending(ses);
    AgreeFirst(first, Pending(ProgrammedStep(ses).sys), x, ses.original(x));
    assert [first][0] == first;
  }

  lemma ProgrammedKeepsUnsent(ses: Session)
    requires WellFormed(ses.sys) && ses.sys.queue != [] && UnsentUntouched(ses)
    requires WellFormed(ProgrammedStep(ses).sys)
    ensures UnsentUntouched(ProgrammedStep(ses))
  {
    if ReadsMemory(ses.sys.reader) {
      forall x: nat | Unsent(ProgrammedStep(ses), x) ensures Untouched(ProgrammedStep(ses), x) {
        assert Unsent(ses, x);
        ProgrammedLeavesUntouched(ses, x);
      }
    }
  }

  lemma ProgrammedKeepsSent(ses: Session)
    requires WellFormed(ses.sys) && LogIsSent(ses) && KeptAside(ses)
    requires WellFormed(ProgrammedStep(ses).sys)
    ensures LogIsSent(ProgrammedStep(ses)) && KeptAside(ProgrammedStep(ses))
  {
    var after := ProgrammedStep(ses);
    forall i | !after.reopened && 0 <= i < |after.sys.log| && after.sys.log[i].Kept? && after.sys.log[i].bytes != []
      ensures KeptInFront(after, i) || KeptBehind(after, i)
    {
      assert KeptInFront(ses, i) || KeptBehind(ses, i);
    }
  }

  lemma ProgrammedKeepsEarly(ses: Session)
    requires WellFormed(ses.sys) && OnlyEarlyLost(ses)
    ensures OnlyEarlyLost(ProgrammedStep(ses))
  {
  }

  lemma ProgrammedKeepsChecksums(ses: Session)
    requires WellFormed(ses.sys) && ChecksumsChain(ses)
    requires WellFormed(ProgrammedStep(ses).sys)
    ensures ChecksumsChain(ProgrammedStep(ses))
  {
    ChecksumsCarryOver(ses, ProgrammedStep(ses));
  }

  lemma ProgrammedKeepsSequence(ses: Session)
    requires WellFormed(ses.sys) && PagesInSequence(ses)
    requires WellFormed(ProgrammedStep(ses).sys)
    ensures PagesInSequence(ProgrammedStep(ses))
  {
  }

  lemma ProgrammedKeepsReports(ses: Session)
    requires WellFormed(ses.sys) && Reports(ses)
    requires WellFormed(ProgrammedStep(ses).sys)
    ensures Reports(ProgrammedStep(ses))
  {
    ProgrammedKeepsChecksums(ses);
    ProgrammedKeepsSequence(ses);
  }

  lemma ProgrammedKeepsInv(ses: Session)
    requires Inv(ses)
    ensures Inv(ProgrammedStep(ses))
  {
    ProgrammedKeepsOrder(ses);
    ProgrammedKeepsReports(ses);
    if ses.sys.queue != [] {
      ProgrammedKeepsContent(ses);
      ProgrammedKeepsUnsent(ses);
      ProgrammedKeepsSent(ses);
      ProgrammedKeepsEarly(ses);
    } else {
      assert ProgrammedStep(ses) == ses;
    }
  }

  // ---- A progress read ----

  function ProgressStep(ses: Session): Session
    requires WellFormed(ses.sys) && ses.unreported > 0
  {
    ses.(sys := Progress(ses.sys), unreported := ses.unreported - 1)
  }

  lemma ProgressKeepsOrder(ses: Session)
    requires Ordered(ses) && ses.unreported > 0
    ensures Ordered(ProgressStep(ses)) && (HasRoom(ses.sys) ==> HasRoom(ProgressStep(ses).sys))
  {
  }

  lemma ProgressLeavesContents(ses: Session)
    requires Ordered(ses) && ses.unreported > 0
    requires WellFormed(ProgressStep(ses).sys)
    ensures SameContents(ses, ProgressStep(ses))
  {
    WaitingStays(ses.sys, ProgressStep(ses).sys);
  }

  lemma ProgressKeepsChecksums(ses: Session)
    requires WellFormed(ses.sys) && ChecksumsChain(ses) && ses.unreported > 0
    requires WellFormed(ProgressStep(ses).sys)
    ensures ChecksumsChain(ProgressStep(ses))
  {
    ChecksumsCarryOver(ses, ProgressStep(ses));
  }

  lemma ProgressKeepsSequence(ses: Session)
    requires Ordered(ses) && PagesInSequence(ses) && ses.unreported > 0
    requires WellFormed(ProgressStep(ses).sys)
    ensures PagesInSequence(ProgressStep(ses))
  {
  }

  lemma ProgressKeepsInv(ses: Session)
    requires Inv(ses) && ses.unreported > 0
    ensures Inv(ProgressStep(ses))
  {
    ProgressKeepsOrder(ses);
    ProgressLeavesContents(ses);
    SameContentsKeep(ses, ProgressStep(ses));
    ProgressKeepsChecksums(ses);
    ProgressKeepsSequence(ses);
  }

  // ---- Nothing but flags changed ----

  ghost predicate OnlyFlagsDiffer(ses: Session, after: Session) {
    && (ses.reopened ==> after.reopened)
    && after.(sys := ses.sys, reopened := ses.reopened) == ses
    && after.sys.(inFlashMode := ses.sys.inFlashMode) == ses.sys
  }

  lemma FlagsLeaveContents(ses: Session, after: Session)
    requires WellFormed(ses.sys) && OnlyFlagsDiffer(ses, after)
    ensures WellFormed(after.sys) && SameContents(ses, after)
  {
    WaitingStays(ses.sys, after.sys);
  }

  lemma FlagsKeepOrder(ses: Session, after: Session)
    requires Ordered(ses) && OnlyFlagsDiffer(ses, after)
    ensures Ordered(after) && (HasRoom(ses.sys) ==> HasRoom(after.sys))
  {
  }

  lemma FlagsKeepReports(ses: Session, after: Session)
    requires WellFormed(ses.sys) && Reports(ses) && OnlyFlagsDiffer(ses, after)
    ensures WellFormed(after.sys) && Reports(after)
  {
  }

  lemma FlagsKeepInv(ses: Session, after: Session)
    requires Inv(ses) && OnlyFlagsDiffer(ses, after)
    ensures Inv(after)
  {
    FlagsKeepOrder(ses, after);
    FlagsKeepReports(ses, after);
    FlagsLeaveContents(ses, after);
    SameContentsKeep(ses, after);
  }
}
