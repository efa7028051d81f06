/**
 Whole sessions of the bootloader: one start of the flash procedure, then data writes of any size, flush
 requests, programmed pages and progress reads, interleaved in any order; and what every session keeps.
 */
module FlashSession {
  import opened Arithmetic
  import opened Bytes
  import opened Crc32
  import opened EditLog
  import opened FlashModel

  datatype Event =
    | Write(value: seq<Byte>)
    | FlushRequest
    | PageProgrammed
    | ProgressRead

  /** A session with its history: where it started, on which memory, and the bytes it took so far. */
  datatype Session = Session(
    sys: System,
    start: nat,
    firstPage: nat,
    seed: Word,
    original: Memory,
    sent: seq<Byte>,
    unreported: nat,   // programmed pages whose progress was not read yet
    reopened: bool,    // a page was opened a second time, behind a flush in its middle
    early: seq<Edit>)  // what was read back in front of pages reopened while they were still queued

  predicate PageQueued(s: System, page: nat) {
    exists k :: 0 <= k < |s.queue| && s.queue[k].address == page
  }

  /** A write that opens the next buffer before it takes its first byte. */
  predicate WriteOpens(s: System, value: seq<Byte>)
    requires WellFormed(s)
  {
    s.inFlashMode && value != [] && s.buffers[s.next].state != Filling && s.buffers[OtherBuffer(s.next)].state == Idle
  }

  /** The next page to be opened is opened in its middle (which only happens behind a flush). */
  predicate MidPage(s: System)
    requires WellFormed(s)
  {
    s.startAddress % s.pageSize != 0
  }

  /** The next page to be opened is one that a flush queued and that is not programmed yet. */
  predicate StillQueued(s: System)
    requires WellFormed(s)
  {
    PageQueued(s, Page(s.startAddress, s.pageSize))
  }

  /** What the next page to be opened gets in front of the start address. */
  function ReadInFront(s: System): Edit
    requires WellFormed(s)
  {
    Kept(Page(s.startAddress, s.pageSize),
         StartOfPage(s.buffers[OtherBuffer(s.next)], s.startAddress, s.memory, s.reader, s.pageSize))
  }

  /** Progress is read only after a programmed page: that is when the server notifies it. */
  predicate Enabled(ses: Session, e: Event) {
    e == ProgressRead ==> ses.unreported > 0
  }

  /** The bytes of a write that the controller took, whether it succeeded or not. */
  function Taken(s: System, value: seq<Byte>): seq<Byte>
    requires WellFormed(s) && HasRoom(s)
  {
    value[..WriteData(s, value).0.startAddress - s.startAddress]
  }

  function Step(ses: Session, e: Event): Session
    requires WellFormed(ses.sys) && HasRoom(ses.sys)
    ensures WellFormed(Step(ses, e).sys) && HasRoom(Step(ses, e).sys)
  {
    var s := ses.sys;
    match e
    case Write(value) =>
      ses.(sys := WriteData(s, value).0, sent := ses.sent + Taken(s, value),
           reopened := ses.reopened || (WriteOpens(s, value) && MidPage(s)),
           early := if WriteOpens(s, value) && StillQueued(s) then ses.early + [ReadInFront(s)] else ses.early)
    case FlushRequest => ses.(sys := Flush(s).0)
    case PageProgrammed =>
      ses.(sys := ConnectionEvent(s), unreported := ses.unreported + if s.queue == [] then 0 else 1)
    case ProgressRead =>
      ses.(sys := Progress(s), unreported := if ses.unreported == 0 then 0 else ses.unreported - 1)
  }

  /** A started session: no page is queued or unreported, the first buffer is open at the start address. */
  function Started(s: System, address: nat, seed: Word): Session
    requires WellFormed(s)
  {
    Session(StartFlash(s, address, seed), address, Page(address, s.pageSize), seed, s.memory, [], 0, false, [])
  }

  /** A memory with some bytes replaced. */
  function Overwritten(m: Memory, address: nat, bytes: seq<Byte>, x: nat): Byte {
    if address <= x < address + |bytes| then bytes[x - address] else m(x)
  }

  /** What the memory should hold once everything sent is flashed. */
  function Expected(ses: Session): Memory {
    Program(ses.original, ses.start, ses.sent)
  }

  // ---- Pages ----

  /** The address of the page an address lies in. */
  function Page(address: nat, pageSize: nat): (page: nat)
    requires pageSize > 0
    ensures page <= address < page + pageSize
  {
    address - address % pageSize
  }

  function Pages(n: nat, pageSize: nat): nat {
    if n == 0 then 0 else Pages(n - 1, pageSize) + pageSize
  }

  /** An address is that of a page. */
  ghost predicate OnPage(address: nat, pageSize: nat) {
    exists n: nat :: Pages(n, pageSize) == address
  }

  lemma {:induction false} PagesIsProduct(n: nat, pageSize: nat)
    ensures Pages(n, pageSize) == n * pageSize
  {
    if n == 0 {
    } else {
      PagesIsProduct(n - 1, pageSize);
    }
  }

  lemma PageIsOnPage(address: nat, pageSize: nat)
    requires pageSize > 0
    ensures OnPage(Page(address, pageSize), pageSize)
  {
    PagesIsProduct(address / pageSize, pageSize);
    assert Pages(address / pageSize, pageSize) == Page(address, pageSize);
  }

  lemma OnPageIsMultiple(address: nat, pageSize: nat)
    requires pageSize > 0
    ensures OnPage(address, pageSize) <==> address % pageSize == 0
  {
    if address % pageSize == 0 {
      PageIsOnPage(address, pageSize);
    }
    if OnPage(address, pageSize) {
      var n: nat :| Pages(n, pageSize) == address;
      PagesIsProduct(n, pageSize);
      RemainderIs(n * pageSize, pageSize, n, 0);
    }
  }

  lemma {:induction false} PagesGrow(i: nat, j: nat, pageSize: nat)
    requires i < j
    ensures Pages(i, pageSize) + pageSize <= Pages(j, pageSize)
    decreases j
  {
    if i == j - 1 {
    } else {
      PagesGrow(i, j - 1, pageSize);
    }
  }

  lemma PagesApart(a: nat, b: nat, pageSize: nat)
    requires OnPage(a, pageSize) && OnPage(b, pageSize) && a < b
    ensures a + pageSize <= b
  {
    var i: nat, j: nat :| Pages(i, pageSize) == a && Pages(j, pageSize) == b;
    if j < i {
      PagesGrow(j, i, pageSize);
    } else if i < j {
      PagesGrow(i, j, pageSize);
    }
  }

  lemma NextPage(a: nat, pageSize: nat)
    requires OnPage(a, pageSize)
    ensures OnPage(a + pageSize, pageSize)
  {
    var i: nat :| Pages(i, pageSize) == a;
    assert Pages(i + 1, pageSize) == a + pageSize;
  }

  /** No address lies in two pages. */
  lemma InOnePage(x: nat, a: nat, b: nat, pageSize: nat)
    requires OnPage(a, pageSize) && OnPage(b, pageSize)
    requires a <= x < a + pageSize && b <= x < b + pageSize
    ensures a == b
  {
    if a < b {
      PagesApart(a, b, pageSize);
    } else if b < a {
      PagesApart(b, a, pageSize);
    }
  }

  // ---- What every session keeps: the order of buffers and queue ----

  /** The buffer k places behind the one whose progress is read next, for k up to 3. */
  function Nth(s: System, k: nat): nat {
    if k == 1 || k == 3 then OtherBuffer(s.used) else s.used
  }

  /** Buffers and queue agree: from `used` on come the programmed but unreported buffers, then the queued
      ones in queue order, then the buffer in use. Nothing else is flashing. */
  ghost predicate InOrder(ses: Session)
    requires WellFormed(ses.sys)
  {
    var s := ses.sys;
    var flashing := ses.unreported + |s.queue|;
    && flashing <= CONCURRENT_FLASHS
    && (s.buffers[s.used].state == Flashing <==> flashing >= 1)
    && (s.buffers[OtherBuffer(s.used)].state == Flashing <==> flashing == 2)
    && (|s.queue| >= 1 ==> s.queue[0] == PageOf(s, Nth(s, ses.unreported)))
    && (|s.queue| == 2 ==> s.queue[1] == PageOf(s, OtherBuffer(s.used)))
    && s.buffers[OtherBuffer(s.next)].state != Filling
    && s.next == Nth(s, if s.buffers[s.next].state == Filling then flashing else flashing + 1)
  }

  function PageOf(s: System, i: nat): QueuedPage
    requires i < |s.buffers|
  {
    QueuedPage(s.buffers[i].addr, i)
  }

  /** Addresses fit: the next byte of the client goes behind the bytes sent so far, and that is where the open page
      ends; everything queued lies in front of it, in whole pages. */
  ghost predicate InPlace(ses: Session)
    requires WellFormed(ses.sys)
  {
    var s, b := ses.sys, ses.sys.buffers[ses.sys.next];
    && s.startAddress == ses.start + |ses.sent|
    && (b.state == Filling ==> OnPage(b.addr, s.pageSize) && b.addr + b.ptr == s.startAddress)
    && (forall k :: 0 <= k < |s.queue| ==> OnPage(s.queue[k].address, s.pageSize) && s.queue[k].address < s.startAddress)
  }

  // ---- ... what is on its way into the memory ----

  function WaitingPage(s: System, e: QueuedPage): Edit
    requires WellFormed(s) && e.source < CONCURRENT_FLASHS
  {
    Kept(e.address, s.buffers[e.source].data)
  }

  /** The queued pages, with the bytes that their buffers hold now. */
  function Waiting(s: System): seq<Edit>
    requires WellFormed(s)
  {
    seq(|s.queue|, k requires 0 <= k < |s.queue| => WaitingPage(s, s.queue[k]))
  }

  /** The filled part of the open page. */
  function OpenPart(s: System): Edit
    requires WellFormed(s) && s.buffers[s.next].state == Filling
  {
    Kept(s.buffers[s.next].addr, s.buffers[s.next].data[..s.buffers[s.next].ptr])
  }

  function Pending(s: System): seq<Edit>
    requires WellFormed(s)
  {
    Waiting(s) + if s.buffers[s.next].state == Filling then [OpenPart(s)] else []
  }

  /** What is pending will make of the memory what all edits make of the memory of the start. */
  ghost predicate ContentIsLog(ses: Session)
    requires WellFormed(ses.sys)
  {
    forall x: nat :: Applied(ses.sys.memory, Pending(ses.sys), x) == Applied(ses.original, ses.sys.log, x)
  }

  // ---- ... what the edits were ----

  /** An edit that is a part of the bytes sent, where it belongs. */
  ghost predicate SentPart(ses: Session, e: Edit) {
    && ses.start <= e.address && e.address + |e.bytes| <= ses.start + |ses.sent|
    && e.bytes == ses.sent[e.address - ses.start..e.address - ses.start + |e.bytes|]
  }

  ghost predicate WasSent(log: seq<Edit>, x: nat) {
    exists i :: 0 <= i < |log| && log[i].Sent? && Covers(log[i], x)
  }

  /** The client's edits are its bytes in their places, and all of them. */
  ghost predicate LogIsSent(ses: Session) {
    && (forall i :: 0 <= i < |ses.sys.log| && ses.sys.log[i].Sent? ==> SentPart(ses, ses.sys.log[i]))
    && (forall x: nat :: ses.start <= x < ses.start + |ses.sent| ==> WasSent(ses.sys.log, x))
  }

  /** Bytes read back in front of the start of the session, and behind the end of a page flushed in its middle. */
  ghost predicate KeptInFront(ses: Session, i: nat)
    requires i < |ses.sys.log|
  {
    i == 0 && ses.sys.log[i].address + |ses.sys.log[i].bytes| <= ses.start
  }

  ghost predicate KeptBehind(ses: Session, i: nat)
    requires WellFormed(ses.sys) && i < |ses.sys.log|
  {
    && i == |ses.sys.log| - 1 && ses.sys.startAddress <= ses.sys.log[i].address
    && ses.sys.buffers[ses.sys.next].state != Filling && MidPage(ses.sys)
  }

  /** Without a reopened page, nothing read back lies in the bytes sent. */
  ghost predicate KeptAside(ses: Session)
    requires WellFormed(ses.sys)
  {
    !ses.reopened ==>
      forall i :: 0 <= i < |ses.sys.log| && ses.sys.log[i].Kept? && ses.sys.log[i].bytes != [] ==>
        KeptInFront(ses, i) || KeptBehind(ses, i)
  }

  // ---- ... what a handler that reads the memory adds ----

  /** A byte that the client did not send stays what it was. */
  ghost predicate Untouched(ses: Session, x: nat)
    requires WellFormed(ses.sys)
  {
    ses.sys.memory(x) == ses.original(x) && Agree(Pending(ses.sys), x, ses.original(x))
  }

  predicate Unsent(ses: Session, x: nat) {
    x < ses.start || ses.start + |ses.sent| <= x
  }

  ghost predicate UnsentUntouched(ses: Session)
    requires WellFormed(ses.sys)
  {
    ReadsMemory(ses.sys.reader) ==> forall x: nat :: Unsent(ses, x) ==> Untouched(ses, x)
  }

  /** The edits amount to the bytes sent, overwritten by what was read back in front of pages still queued. */
  ghost predicate OnlyEarlyLost(ses: Session) {
    && (forall i :: 0 <= i < |ses.early| ==> ses.early[i].address + |ses.early[i].bytes| <= ses.start + |ses.sent|)
    && (ReadsMemory(ses.sys.reader) ==>
          forall x: nat :: Applied(ses.original, ses.sys.log, x) == Applied(Expected(ses), ses.early, x))
  }

  // ---- ... checksums and issued pages ----

  /** The bytes of the session a buffer's checksum covers: everything sent up to its write position. */
  ghost predicate ChecksumCovers(ses: Session, b: Buffer, end: int) {
    && ses.start <= end <= ses.start + |ses.sent|
    && b.crc == ses.sys.checksum(ses.sent[..end - ses.start], ses.seed)
  }

  ghost predicate ChecksumsChain(ses: Session)
    requires WellFormed(ses.sys)
  {
    var s := ses.sys;
    && ChecksumCovers(ses, s.buffers[s.next], s.startAddress)
    && (forall i :: 0 <= i < CONCURRENT_FLASHS && s.buffers[i].state == Flashing ==>
          ChecksumCovers(ses, s.buffers[i], s.buffers[i].addr + s.buffers[i].ptr))
  }

  /** Without a reopened page the issued pages are the consecutive pages from the first one on. */
  ghost predicate PagesInSequence(ses: Session)
    requires WellFormed(ses.sys)
  {
    var s := ses.sys;
    var following := if s.issued == [] then ses.firstPage else s.issued[|s.issued| - 1] + s.pageSize;
    && (forall i :: 0 <= i < |s.issued| ==> OnPage(s.issued[i], s.pageSize))
    && (!ses.reopened ==>
          && (s.issued != [] ==> s.issued[0] == ses.firstPage)
          && (forall i :: 0 <= i < |s.issued| - 1 ==> s.issued[i + 1] == s.issued[i] + s.pageSize)
          && s.startAddress <= following + s.pageSize
          && (if s.buffers[s.next].state == Filling then s.buffers[s.next].addr == following
              else s.startAddress <= following && (OnPage(s.startAddress, s.pageSize) ==> s.startAddress == following)))
  }

  // ---- The invariant ----

  /** Order and places: the part of the invariant that the controller's own assertions rest on. */
  ghost predicate Ordered(ses: Session) {
    WellFormed(ses.sys) && InOrder(ses) && InPlace(ses)
  }

  ghost predicate Contents(ses: Session)
    requires WellFormed(ses.sys)
  {
    ContentIsLog(ses) && LogIsSent(ses) && KeptAside(ses) && UnsentUntouched(ses) && OnlyEarlyLost(ses)
  }

  ghost predicate Reports(ses: Session)
    requires WellFormed(ses.sys)
  {
    Chains(ses.sys.checksum) && ChecksumsChain(ses) && PagesInSequence(ses)
  }

  /** The part of the invariant that also holds between filling a page and handing it over. */
  ghost predicate Core(ses: Session) {
    Ordered(ses) && Contents(ses) && Reports(ses)
  }

  ghost predicate Inv(ses: Session) {
    Core(ses) && HasRoom(ses.sys)
  }
}
