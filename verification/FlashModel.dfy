/**
 The bootloader's page-flash controller coupled with the flash handler's queue, as a transition system on
 values. `FlashController` proves the classes against these functions, `FlashSession` proves what every
 session of them does.

 The handler's queue keeps a pointer to the page buffer, not a copy: an entry names the buffer, and the
 bytes are read when the page is programmed.
 */
module FlashModel {
  import opened Bytes
  import opened Crc32
  import opened EditLog

  const CONCURRENT_FLASHS := 2

  // ---- What the flash handler offers ----

  /** What read_mem of a handler leaves at the i-th place of a buffer: it depends on the memory, the address and
      the bytes that the buffer held before. */
  type Reader = (Memory, nat, seq<Byte>, nat) -> Byte

  function ReadBack(reader: Reader, m: Memory, address: nat, before: seq<Byte>): (r: seq<Byte>)
    ensures |r| == |before| && forall i :: 0 <= i < |r| ==> r[i] == reader(m, address, before, i)
  {
    seq(|before|, i requires 0 <= i < |before| => reader(m, address, before, i))
  }

  /** The handler's read_mem copies the memory. */
  ghost predicate ReadsMemory(reader: Reader) {
    forall m: Memory, address: nat, before: seq<Byte>, i: nat :: reader(m, address, before, i) == m(address + i)
  }

  /** The read_mem of the example's handler is empty. */
  function EmptyReader(): Reader {
    (m: Memory, address: nat, before: seq<Byte>, i: nat) => if i < |before| then before[i] else 0
  }

  /** The checksum a flash handler offers: the checksum of data continued from an older checksum. */
  type ChecksumFunction = (seq<Byte>, Word) -> Word

  /** Checksums of consecutive pieces chain to the checksum of the whole. */
  ghost predicate Chains(f: ChecksumFunction) {
    && (forall c :: f([], c) == c)
    && (forall a, b, c :: f(a + b, c) == f(b, f(a, c)))
  }

  function OtherBuffer(i: nat): (r: nat)
    ensures r < CONCURRENT_FLASHS
  {
    (i + 1) % CONCURRENT_FLASHS
  }

  // ---- Entities ----

  datatype BufferState = Idle | Filling | Flashing

  datatype Buffer = Buffer(state: BufferState, addr: nat, ptr: nat, crc: Word, data: seq<Byte>, consecutive: nat)

  /** A queued page: where it goes, and which buffer its bytes will be read from. */
  datatype QueuedPage = QueuedPage(address: nat, source: nat)

  datatype System = System(
    pageSize: nat,
    buffers: seq<Buffer>,
    next: nat,
    used: nat,
    consecutive: nat,
    startAddress: nat,
    inFlashMode: bool,
    queue: seq<QueuedPage>,
    memory: Memory,
    checksum: ChecksumFunction,
    reader: Reader,
    issued: seq<nat>,   // the addresses of all start_flash calls since the session started
    log: seq<Edit>)     // what was put into the page buffers since the session started

  ghost predicate WellFormed(s: System) {
    && s.pageSize > 0
    && |s.buffers| == CONCURRENT_FLASHS
    && s.next < CONCURRENT_FLASHS
    && s.used < CONCURRENT_FLASHS
    && (forall i :: 0 <= i < CONCURRENT_FLASHS ==> |s.buffers[i].data| == s.pageSize)
    && (forall i :: 0 <= i < CONCURRENT_FLASHS && s.buffers[i].state == Filling ==> s.buffers[i].ptr <= s.pageSize)
    && (forall k :: 0 <= k < |s.queue| ==> s.queue[k].source < CONCURRENT_FLASHS)
  }

  /** A buffer that takes bytes has room for at least one. */
  ghost predicate HasRoom(s: System)
    requires WellFormed(s)
  {
    forall i :: 0 <= i < CONCURRENT_FLASHS && s.buffers[i].state == Filling ==> s.buffers[i].ptr < s.pageSize
  }

  // ---- flash_buffer ----

  function FreeSize(b: Buffer, pageSize: nat): int {
    if b.state == Filling then pageSize - b.ptr else 0
  }

  /** The start of a page that is read back when the buffer is opened in the page's middle. */
  function StartOfPage(b: Buffer, address: nat, m: Memory, reader: Reader, pageSize: nat): (r: seq<Byte>)
    requires 0 < pageSize == |b.data|
    ensures |r| == address % pageSize
  {
    ReadBack(reader, m, address - address % pageSize, b.data[..address % pageSize])
  }

  function Opened(b: Buffer, address: nat, m: Memory, reader: Reader, crc: Word, consecutive: nat, pageSize: nat): Buffer
    requires 0 < pageSize == |b.data|
  {
    var ptr := address % pageSize;
    Buffer(Filling, address - ptr, ptr, crc, StartOfPage(b, address, m, reader, pageSize) + b.data[ptr..], consecutive)
  }

  function Appended(b: Buffer, bytes: seq<Byte>, checksum: ChecksumFunction): Buffer
    requires b.ptr + |bytes| <= |b.data|
  {
    b.(data := b.data[..b.ptr] + bytes + b.data[b.ptr + |bytes|..],
       ptr := b.ptr + |bytes|,
       crc := checksum(bytes, b.crc))
  }

  /** The end of a page that is read back when the page is handed over before it is full. */
  function EndOfPage(b: Buffer, m: Memory, reader: Reader): (r: seq<Byte>)
    requires b.ptr <= |b.data|
    ensures |r| == |b.data| - b.ptr
  {
    ReadBack(reader, m, b.addr + b.ptr, b.data[b.ptr..])
  }

  /** The page handed to the flash handler: what was written, completed with what was read back. */
  function Closed(b: Buffer, m: Memory, reader: Reader): Buffer
    requires b.ptr <= |b.data|
  {
    b.(state := Flashing, data := b.data[..b.ptr] + EndOfPage(b, m, reader))
  }

  function Freed(b: Buffer): Buffer {
    b.(state := Idle, ptr := 0)
  }

  // ---- controller ----

  /** The page of the buffer in use is handed to the flash handler. */
  function Issue(s: System): System
    requires s.next < |s.buffers| && s.buffers[s.next].ptr <= |s.buffers[s.next].data|
  {
    var b := s.buffers[s.next];
    s.(buffers := s.buffers[s.next := Closed(b, s.memory, s.reader)],
       queue := s.queue + [QueuedPage(b.addr, s.next)],
       issued := s.issued + [b.addr],
       log := s.log + [Kept(b.addr + b.ptr, EndOfPage(b, s.memory, s.reader))])
  }

  /** flash_buffer::flush on the buffer in use. */
  function FlushBuffer(s: System): (System, bool)
    requires WellFormed(s)
  {
    var b := s.buffers[s.next];
    if b.state != Filling || b.ptr == 0 then (s, false) else (Issue(s), true)
  }

  /** flash_buffer::write_data on the buffer in use: returns how many bytes it took. */
  function WriteBuffer(s: System, value: seq<Byte>): (r: (System, nat))
    requires WellFormed(s) && HasRoom(s) && s.buffers[s.next].state == Filling
    ensures r.1 <= |value| && (value != [] ==> r.1 > 0)
    ensures WellFormed(r.0) && HasRoom(r.0) && r.0.startAddress == s.startAddress + r.1 && r.0.inFlashMode == s.inFlashMode
  {
    var b := s.buffers[s.next];
    var size := if s.pageSize - b.ptr < |value| then s.pageSize - b.ptr else |value|;
    var written := Append(s, value[..size]);
    (if b.ptr + size == s.pageSize then Issue(written) else written, size)
  }

  function Append(s: System, bytes: seq<Byte>): System
    requires WellFormed(s) && s.buffers[s.next].ptr + |bytes| <= s.pageSize
  {
    s.(buffers := s.buffers[s.next := Appended(s.buffers[s.next], bytes, s.checksum)],
       startAddress := s.startAddress + |bytes|,
       log := s.log + [Sent(s.buffers[s.next].addr + s.buffers[s.next].ptr, bytes)])
  }

  function FindNextBuffer(s: System): (r: (System, bool))
    requires WellFormed(s)
    ensures WellFormed(r.0) && (HasRoom(s) ==> HasRoom(r.0)) && (!r.1 ==> r.0 == s)
    ensures r.1 ==> r.0.buffers[r.0.next].state == Filling && r.0.startAddress == s.startAddress
    ensures r.0.inFlashMode == s.inFlashMode
  {
    if s.buffers[OtherBuffer(s.next)].state != Idle then (s, false) else (OpenNext(s), true)
  }

  function OpenNext(s: System): System
    requires WellFormed(s)
  {
    var other, consecutive := OtherBuffer(s.next), (s.consecutive + 1) % 0x1_0000;
    var b := s.buffers[other];
    s.(consecutive := consecutive,
       buffers := s.buffers[other := Opened(b, s.startAddress, s.memory, s.reader, s.buffers[s.next].crc, consecutive, s.pageSize)],
       next := other,
       log := s.log + [Kept(s.startAddress - s.startAddress % s.pageSize,
                            StartOfPage(b, s.startAddress, s.memory, s.reader, s.pageSize))])
  }

  /** The loop of bootloader_write_data; false stands for buffer_overrun_attempt. */
  function WriteLoop(s: System, value: seq<Byte>): (r: (System, bool))
    requires WellFormed(s) && HasRoom(s) && s.buffers[s.next].state == Filling
    ensures WellFormed(r.0) && HasRoom(r.0) && r.0.inFlashMode == s.inFlashMode
    ensures s.startAddress <= r.0.startAddress <= s.startAddress + |value|
    ensures r.1 ==> r.0.startAddress == s.startAddress + |value|
    decreases |value|
  {
    if value == [] then (s, true) else
      var (written, size) := WriteBuffer(s, value);
      if size == |value| then (written, true) else
        var (found, ok) := FindNextBuffer(written);
        if !ok then (written, false) else WriteLoop(found, value[size..])
  }

  datatype WriteResult = Success | NoOperationInProgress | BufferOverrunAttempt

  function WriteData(s: System, value: seq<Byte>): (r: (System, WriteResult))
    requires WellFormed(s) && HasRoom(s)
    ensures WellFormed(r.0) && HasRoom(r.0) && r.0.inFlashMode == s.inFlashMode
    ensures s.startAddress <= r.0.startAddress <= s.startAddress + |value|
    ensures r.1 == Success ==> r.0.startAddress == s.startAddress + |value|
  {
    if !s.inFlashMode then (s, NoOperationInProgress)
    else if value == [] then (s, Success)
    else
      var (ready, ok) := if FreeSize(s.buffers[s.next], s.pageSize) == 0 then FindNextBuffer(s) else (s, true);
      if !ok then (s, BufferOverrunAttempt) else
        var (written, complete) := WriteLoop(ready, value);
        (written, if complete then Success else BufferOverrunAttempt)
  }

  /** The flush procedure of the control point; a refused flush leaves the flash mode. */
  function Flush(s: System): (System, bool)
    requires WellFormed(s)
  {
    if !s.inFlashMode then (s, false) else
      var (flushed, ok) := FlushBuffer(s);
      if ok then (flushed, true) else (s.(inFlashMode := false), false)
  }

  /** The start-flash procedure at an acceptable address. */
  function StartFlash(s: System, address: nat, seed: Word): System
    requires WellFormed(s)
  {
    var freed := [Freed(s.buffers[0]), Freed(s.buffers[1])];
    s.(startAddress := address, consecutive := 0, next := 0, used := 0, inFlashMode := true, issued := [],
       buffers := freed[0 := Opened(freed[0], address, s.memory, s.reader, seed, 0, s.pageSize)],
       log := [Kept(address - address % s.pageSize, StartOfPage(freed[0], address, s.memory, s.reader, s.pageSize))])
  }

  /** The start-flash procedure at any other address: the buffers stay as they are. */
  function RefuseStart(s: System, address: nat): System {
    s.(startAddress := address, consecutive := 0, next := 0, used := 0, inFlashMode := false)
  }

  /** bootloader_progress_data: the oldest buffer becomes free again. */
  function Progress(s: System): System
    requires WellFormed(s)
  {
    s.(buffers := s.buffers[s.used := Freed(s.buffers[s.used])], used := OtherBuffer(s.used))
  }

  /** A connection event that finds the flash hardware ready: the first queued page is programmed. */
  function ConnectionEvent(s: System): System
    requires WellFormed(s)
  {
    if s.queue == [] then s else
      s.(memory := Program(s.memory, s.queue[0].address, s.buffers[s.queue[0].source].data),
         queue := s.queue[1..])
  }
}
