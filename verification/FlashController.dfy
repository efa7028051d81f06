/**
 The bootloader's classes as the source has them: page buffers, the controller and the flash handler it
 inherits from, updated in place. Each method is proved against the transition system of `FlashModel`; the
 assertions of the source are preconditions and are proved at every call.
 */
module FlashController {
  import opened Bytes
  import opened Crc32
  import opened EditLog
  import opened FlashModel
  import opened FlashSession
  import opened FlashSteps
  import opened FlashWrites

  /** A queued page: the values stay in the buffer they were handed over in. */
  datatype QueueEntry = QueueEntry(address: nat, values: array<Byte>)

  datatype Region = Region(start: nat, end: nat)

  /** white_list::acceptable: a range of addresses is acceptable if one region holds all of it. */
  predicate Acceptable(regions: seq<Region>, start: nat, end: nat) {
    regions != [] &&
    ((start >= regions[0].start && end <= regions[0].end) || Acceptable(regions[1..], start, end))
  }

  /** One region of the white list holds both ends of the range. */
  lemma {:induction false} AcceptableIff(regions: seq<Region>, start: nat, end: nat)
    ensures Acceptable(regions, start, end) <==>
            exists i :: 0 <= i < |regions| && regions[i].start <= start && end <= regions[i].end
    decreases regions
  {
    if regions == [] {
    } else {
      AcceptableIff(regions[1..], start, end);
      assert forall i :: 0 < i < |regions| ==> regions[i] == regions[1..][i - 1];
    }
  }

  /** What write_data makes of a buffer, handing it over if that fills it. */
  ghost function FilledBuffer(b: Buffer, bytes: seq<Byte>, f: ChecksumFunction, m: Memory, reader: Reader): Buffer
    requires b.ptr + |bytes| <= |b.data|
  {
    var filled := Appended(b, bytes, f);
    if filled.ptr == |b.data| then Closed(filled, m, reader) else filled
  }

  class FlashHandler {
    const pageSize: nat
    const checksum: ChecksumFunction
    const addressChecksum: nat -> Word
    const reader: Reader
    const entries: array<QueueEntry>
    var nextEntry: nat
    var numEntries: nat
    var memory: Memory

    ghost predicate Valid()
      reads this, entries
    {
      && entries.Length == CONCURRENT_FLASHS
      && nextEntry < CONCURRENT_FLASHS && numEntries <= CONCURRENT_FLASHS
      && forall k :: 0 <= k < CONCURRENT_FLASHS ==> entries[k].values.Length == pageSize
    }

    function Pending(): (r: seq<QueueEntry>)
      requires Valid()
      reads this, entries
      ensures |r| == numEntries
    {
      if numEntries == 0 then []
      else if numEntries == 1 then [entries[nextEntry]]
      else [entries[nextEntry], entries[OtherBuffer(nextEntry)]]
    }

    constructor (pageSize: nat, checksum: ChecksumFunction, addressChecksum: nat -> Word, reader: Reader, memory: Memory)
      ensures Valid() && Pending() == [] && fresh(entries)
      ensures this.pageSize == pageSize && this.checksum == checksum && this.addressChecksum == addressChecksum
      ensures this.reader == reader && this.memory == memory
    {
      var unused := new Byte[pageSize](_ => 0);
      this.pageSize := pageSize;
      this.checksum := checksum;
      this.addressChecksum := addressChecksum;
      this.reader := reader;
      this.memory := memory;
      entries := new QueueEntry[CONCURRENT_FLASHS](_ => QueueEntry(0, unused));
      nextEntry, numEntries := 0, 0;
    }

    method StartFlash(address: nat, values: array<Byte>)
      requires Valid() && values.Length == pageSize
      requires numEntries < CONCURRENT_FLASHS
      modifies this, entries
      ensures Valid() && memory == old(memory)
      ensures Pending() == old(Pending()) + [QueueEntry(address, values)]
    {
      var entry := (numEntries + nextEntry) % CONCURRENT_FLASHS;
      entries[entry] := QueueEntry(address, values);
      numEntries := numEntries + 1;
    }

    /** Returns whether a page was programmed, which is when end_flash() notifies the progress. */
    method ConnectionEventHappend(ready: bool) returns (programmed: bool)
      requires Valid()
      modifies this
      ensures Valid() && programmed == (old(numEntries) > 0 && ready)
      ensures programmed ==>
                && memory == Program(old(memory), old(Pending())[0].address, old(Pending())[0].values[..])
                && Pending() == old(Pending())[1..]
      ensures !programmed ==> memory == old(memory) && Pending() == old(Pending())
    {
      programmed := numEntries > 0 && ready;
      if programmed {
        var entry := entries[nextEntry];
        memory := Program(memory, entry.address, entry.values[..]);
        numEntries := numEntries - 1;
        nextEntry := (nextEntry + 1) % CONCURRENT_FLASHS;
      }
    }

    /** The handler's read_mem on a part of a page buffer; what it leaves there is up to the handler. */
    method ReadMem(address: nat, size: nat, destination: array<Byte>, at: nat)
      requires at + size <= destination.Length
      modifies destination
      ensures destination[..at] == old(destination[..at])
      ensures destination[at..at + size] == ReadBack(reader, memory, address, old(destination[at..at + size]))
      ensures destination[at + size..] == old(destination[at + size..])
    {
      var before := destination[at..at + size];
      for i := 0 to size
        invariant destination[..at] == old(destination[..at])
        invariant forall k :: at <= k < at + i ==> destination[k] == reader(memory, address, before, k - at)
        invariant destination[at + size..] == old(destination[at + size..])
      {
        destination[at + i] := reader(memory, address, before, i);
      }
    }
  }

  class FlashBuffer {
    const pageSize: nat
    const buffer: array<Byte>
    var state: BufferState
    var addr: nat
    var ptr: nat
    var crc: Word
    var consecutive: nat

    ghost predicate Valid()
      reads this
    {
      0 < pageSize == buffer.Length && ptr <= pageSize && (state == Filling ==> ptr < pageSize)
    }

    function View(): Buffer
      reads this, buffer
    {
      Buffer(state, addr, ptr, crc, buffer[..], consecutive)
    }

    constructor (pageSize: nat)
      requires pageSize > 0
      ensures Valid() && fresh(buffer) && this.pageSize == pageSize && state == Idle
    {
      this.pageSize := pageSize;
      buffer := new Byte[pageSize](_ => 0);
      state, addr, ptr, crc, consecutive := Idle, 0, 0, Zeros(WIDTH), 0;
    }

    function FreeBytes(): int
      reads this
    {
      if state == Filling then pageSize - ptr else 0
    }

    method SetStartAddress(address: nat, h: FlashHandler, checksum: Word, cons: nat)
      requires Valid() && state == Idle && h.Valid()
      modifies this, buffer
      ensures Valid()
      ensures View() == Opened(old(View()), address, h.memory, h.reader, checksum, cons, pageSize)
    {
      state := Filling;
      ptr := address % pageSize;
      addr := address - ptr;
      crc := checksum;
      consecutive := cons;
      h.ReadMem(addr, ptr, buffer, 0);
      assert buffer[..] == buffer[0..ptr] + buffer[ptr..];
    }

    method CopyIn(value: seq<Byte>)
      requires ptr + |value| <= buffer.Length
      modifies buffer
      ensures buffer[..] == old(buffer[..ptr]) + value + old(buffer[ptr + |value|..])
    {
      for i := 0 to |value|
        invariant buffer[..ptr] == old(buffer[..ptr])
        invariant forall k :: ptr <= k < ptr + i ==> buffer[k] == value[k - ptr]
        invariant buffer[ptr + |value|..] == old(buffer[ptr + |value|..])
      {
        buffer[ptr + i] := value[i];
      }
      assert buffer[..] == buffer[..ptr] + buffer[ptr..ptr + |value|] + buffer[ptr + |value|..];
    }

    /** Takes what fits of the value and hands a full page to the handler. */
    method WriteData(value: seq<Byte>, h: FlashHandler) returns (size: nat)
      requires Valid() && state == Filling && h.Valid() && h.pageSize == pageSize
      requires h.numEntries < CONCURRENT_FLASHS
      modifies this, buffer, h, h.entries
      ensures Valid() && h.Valid() && h.memory == old(h.memory)
      ensures size == if pageSize - old(ptr) < |value| then pageSize - old(ptr) else |value|
      ensures View() == FilledBuffer(old(View()), value[..size], h.checksum, h.memory, h.reader)
      ensures h.Pending() == if old(ptr) + size == pageSize then old(h.Pending()) + [QueueEntry(addr, buffer)] else old(h.Pending())
    {
      size := if pageSize - ptr < |value| then pageSize - ptr else |value|;
      CopyIn(value[..size]);
      crc := h.checksum(value[..size], crc);
      ptr := ptr + size;
      if ptr == pageSize {
        HandOver(h);
      }
    }

    /** The part of flush() behind its guard. */
    method HandOver(h: FlashHandler)
      requires 0 < pageSize == buffer.Length && ptr <= pageSize && h.Valid() && h.pageSize == pageSize
      requires h.numEntries < CONCURRENT_FLASHS
      modifies this, buffer, h, h.entries
      ensures Valid() && h.Valid() && h.memory == old(h.memory)
      ensures View() == Closed(old(View()), h.memory, h.reader)
      ensures h.Pending() == old(h.Pending()) + [QueueEntry(addr, buffer)]
    {
      ghost var before := View();
      state := Flashing;
      ReadRest(h);
      assert View() == Closed(before, h.memory, h.reader);
      h.StartFlash(addr, buffer);
    }

    method ReadRest(h: FlashHandler)
      requires pageSize == buffer.Length && ptr <= pageSize
      modifies buffer
      ensures View() == old(View().(data := View().data[..ptr] + EndOfPage(View(), h.memory, h.reader)))
    {
      if ptr != pageSize {
        h.ReadMem(addr + ptr, pageSize - ptr, buffer, ptr);
      }
      assert old(buffer[ptr..pageSize]) == old(buffer[..])[ptr..] && buffer[..] == buffer[..ptr] + buffer[ptr..pageSize];
    }

    method Flush(h: FlashHandler) returns (ok: bool)
      requires Valid() && h.Valid() && h.pageSize == pageSize
      requires state == Filling ==> h.numEntries < CONCURRENT_FLASHS
      modifies this, buffer, h, h.entries
      ensures Valid() && h.Valid() && h.memory == old(h.memory)
      ensures ok == (old(state) == Filling && old(ptr) != 0)
      ensures !ok ==> View() == old(View()) && h.Pending() == old(h.Pending())
      ensures ok ==> View() == Closed(old(View()), h.memory, h.reader) && h.Pending() == old(h.Pending()) + [QueueEntry(addr, buffer)]
    {
      if state != Filling || ptr == 0 {
        return false;
      }
      HandOver(h);
      return true;
    }

    method Free()
      modifies this
      ensures View() == Freed(old(View()))
    {
      state := Idle;
      ptr := 0;
    }
  }

  class Controller {
    const pageSize: nat
    const handler: FlashHandler
    const buffers: seq<FlashBuffer>
    var startAddress: nat
    var inFlashMode: bool
    var nextBuffer: nat
    var usedBuffer: nat
    var consecutive: nat

    /** How the objects are put together, which never changes. */
    ghost predicate Shape() {
      && |buffers| == CONCURRENT_FLASHS
      && buffers[0] != buffers[1] && buffers[0].buffer != buffers[1].buffer
      && handler.pageSize == buffers[0].pageSize == buffers[1].pageSize == pageSize
    }

    ghost function Repr(): set<object>
      requires Shape()
    {
      {this, handler, handler.entries, buffers[0], buffers[0].buffer, buffers[1], buffers[1].buffer}
    }

    /** Which page buffer an entry of the handler's queue points to. */
    function EntryView(e: QueueEntry): QueuedPage
      requires Shape()
    {
      QueuedPage(e.address, if e.values == buffers[0].buffer then 0 else 1)
    }

    /** The handler has this queue, of pages in the page buffers, and this memory. */
    ghost predicate HandlerShows(queue: seq<QueuedPage>, m: Memory)
      requires Shape()
      reads handler, handler.entries
    {
      && handler.Valid() && handler.memory == m
      && (forall e :: e in handler.Pending() ==> e.values == buffers[0].buffer || e.values == buffers[1].buffer)
      && queue == QueueView(handler.Pending())
    }

    ghost function QueueView(pending: seq<QueueEntry>): seq<QueuedPage>
      requires Shape()
    {
      seq(|pending|, k requires 0 <= k < |pending| => EntryView(pending[k]))
    }

    ghost predicate BufferShows(i: nat, b: Buffer)
      requires Shape() && i < CONCURRENT_FLASHS
      reads buffers[i], buffers[i].buffer
    {
      buffers[i].Valid() && buffers[i].View() == b
    }

    ghost predicate FieldsShow(s: System)
      reads this
    {
      && s.next == nextBuffer && s.used == usedBuffer && s.consecutive == consecutive
      && s.startAddress == startAddress && s.inFlashMode == inFlashMode
    }

    /** The objects are in a state of the model, whatever the history of that state. */
    ghost predicate Shows(s: System)
      requires Shape()
      reads Repr()
      ensures Shows(s) ==> WellFormed(s) && HasRoom(s)
    {
      && s.pageSize == pageSize && s.checksum == handler.checksum && s.reader == handler.reader
      && s.next < CONCURRENT_FLASHS && s.used < CONCURRENT_FLASHS && |s.buffers| == CONCURRENT_FLASHS
      && FieldsShow(s)
      && HandlerShows(s.queue, s.memory)
      && BufferShows(0, s.buffers[0]) && BufferShows(1, s.buffers[1])
    }

    constructor (pageSize: nat, handler: FlashHandler)
      requires pageSize > 0 && handler.pageSize == pageSize && handler.Valid() && handler.Pending() == []
      ensures Shape() && this.handler == handler && this.pageSize == pageSize
      ensures HandlerShows([], handler.memory) && !inFlashMode
      ensures nextBuffer == usedBuffer == 0 && buffers[0].state == Idle && buffers[1].state == Idle
    {
      var first := new FlashBuffer(pageSize);
      var second := new FlashBuffer(pageSize);
      this.pageSize := pageSize;
      this.handler := handler;
      buffers := [first, second];
      startAddress, inFlashMode, nextBuffer, usedBuffer, consecutive := 0, false, 0, 0, 0;
    }

    lemma QueueGrew(pending: seq<QueueEntry>, e: QueueEntry)
      requires Shape()
      ensures QueueView(pending + [e]) == QueueView(pending) + [EntryView(e)]
    {
    }

    // ---- The next buffer ----

    /** set_start_address on one of the page buffers. */
    method OpenBuffer(i: nat, seed: Word, cons: nat, ghost b: Buffer)
      requires Shape() && i < CONCURRENT_FLASHS && BufferShows(i, b) && b.state == Idle && handler.Valid()
      modifies buffers[i], buffers[i].buffer
      ensures |b.data| == pageSize > 0
      ensures BufferShows(i, Opened(b, startAddress, handler.memory, handler.reader, seed, cons, pageSize))
    {
      buffers[i].SetStartAddress(startAddress, handler, seed, cons);
    }

    method TakeNextBuffer(ghost s: System) returns (found: bool)
      requires Shape() && Shows(s)
      modifies this, buffers[0], buffers[1], buffers[0].buffer, buffers[1].buffer
      ensures Shows(FindNextBuffer(s).0) && found == FindNextBuffer(s).1
    {
      var next := (nextBuffer + 1) % CONCURRENT_FLASHS;
      if buffers[next].state != Idle {
        return false;
      }
      OpenNextBuffer(next, s);
      OpenNextOpens(s);
      HistoryIsNotShown(OpenedNext(s), OpenNext(s));
      return true;
    }

    /** What opening the next buffer makes of a state, but for its history. */
    static ghost function OpenedNext(s: System): System
      requires WellFormed(s)
    {
      var next, cons := OtherBuffer(s.next), (s.consecutive + 1) % 0x1_0000;
      s.(consecutive := cons, next := next,
         buffers := s.buffers[next :=
           Opened(s.buffers[next], s.startAddress, s.memory, s.reader, s.buffers[s.next].crc, cons, s.pageSize)])
    }

    static lemma OpenNextOpens(s: System)
      requires WellFormed(s)
      ensures OpenNext(s) == OpenedNext(s).(issued := OpenNext(s).issued, log := OpenNext(s).log)
    {
    }

    lemma HistoryIsNotShown(s: System, t: System)
      requires Shape() && Shows(s) && s.(issued := t.issued, log := t.log) == t
      ensures Shows(t)
    {
    }

    method OpenNextBuffer(next: nat, ghost s: System)
      requires Shape() && Shows(s) && next == OtherBuffer(nextBuffer) && buffers[next].state == Idle
      modifies this, buffers[next], buffers[next].buffer
      ensures Shows(OpenedNext(s))
    {
      consecutive := (consecutive + 1) % 0x1_0000;
      OpenBuffer(next, buffers[nextBuffer].crc, consecutive, s.buffers[next]);
      nextBuffer := next;
    }

    // ---- Writing ----

    /** write_data on one of the page buffers. */
    method WriteToBuffer(i: nat, value: seq<Byte>, ghost b: Buffer, ghost queue: seq<QueuedPage>)
      returns (moved: nat, ghost c: Buffer)
      requires Shape() && i < CONCURRENT_FLASHS && BufferShows(i, b) && b.state == Filling
      requires HandlerShows(queue, handler.memory) && handler.numEntries < CONCURRENT_FLASHS
      modifies buffers[i], buffers[i].buffer, handler, handler.entries
      ensures handler.memory == old(handler.memory)
      ensures b.ptr + moved <= |b.data| == pageSize
      ensures moved == if pageSize - b.ptr < |value| then pageSize - b.ptr else |value|
      ensures c == FilledBuffer(b, value[..moved], handler.checksum, handler.memory, handler.reader) && BufferShows(i, c)
      ensures HandlerShows(if b.ptr + moved == pageSize then queue + [QueuedPage(b.addr, i)] else queue, handler.memory)
    {
      ghost var pending := handler.Pending();
      moved := buffers[i].WriteData(value, handler);
      c := buffers[i].View();
      QueueGrew(pending, QueueEntry(buffers[i].addr, buffers[i].buffer));
    }

    /** A state with another buffer in use, after some bytes were moved, but for its history. */
    static function Moved(s: System, c: Buffer, moved: nat): System
      requires WellFormed(s)
    {
      var b := s.buffers[s.next];
      s.(buffers := s.buffers[s.next := c],
         queue := if b.ptr + moved == s.pageSize then s.queue + [QueuedPage(b.addr, s.next)] else s.queue,
         startAddress := s.startAddress + moved)
    }

    /** What write_data makes of a state, but for its history. */
    static ghost function FilledSystem(s: System, bytes: seq<Byte>): System
      requires WellFormed(s) && s.buffers[s.next].ptr + |bytes| <= s.pageSize
    {
      Moved(s, FilledBuffer(s.buffers[s.next], bytes, s.checksum, s.memory, s.reader), |bytes|)
    }

    /** One call of write_data on the buffer in use. */
    method FillBuffer(value: seq<Byte>, ghost s: System) returns (moved: nat)
      requires Shape() && Shows(s) && buffers[nextBuffer].state == Filling
      requires handler.numEntries < CONCURRENT_FLASHS
      modifies Repr()
      ensures moved == Fits(s, value) && s.buffers[s.next].ptr + moved <= s.pageSize
      ensures Shows(FilledSystem(s, value[..moved]))
    {
      ghost var c;
      moved, c := MoveBytes(value, s);
    }

    method MoveBytes(value: seq<Byte>, ghost s: System) returns (moved: nat, ghost c: Buffer)
      requires Shape() && Shows(s) && buffers[nextBuffer].state == Filling
      requires handler.numEntries < CONCURRENT_FLASHS
      modifies Repr()
      ensures moved == Fits(s, value) && s.buffers[s.next].ptr + moved <= s.pageSize
      ensures c == FilledBuffer(s.buffers[s.next], value[..moved], s.checksum, s.memory, s.reader)
      ensures Shows(Moved(s, c, moved))
    {
      moved, c := WriteInUse(value, s);
      startAddress := startAddress + moved;
    }

    method WriteInUse(value: seq<Byte>, ghost s: System) returns (moved: nat, ghost c: Buffer)
      requires Shape() && Shows(s) && buffers[nextBuffer].state == Filling
      requires handler.numEntries < CONCURRENT_FLASHS
      modifies Repr() - {this}
      ensures moved == Fits(s, value) && s.buffers[s.next].ptr + moved <= s.pageSize
      ensures c == FilledBuffer(s.buffers[s.next], value[..moved], s.checksum, s.memory, s.reader)
      ensures Shows(Moved(s, c, moved).(startAddress := s.startAddress))
    {
      moved, c := WriteToBuffer(nextBuffer, value, s.buffers[nextBuffer], s.queue);
    }

    static lemma WriteBufferFills(s: System, value: seq<Byte>)
      requires WellFormed(s) && HasRoom(s) && s.buffers[s.next].state == Filling
      requires s.buffers[s.next].ptr + Fits(s, value) <= s.pageSize
      ensures var (after, moved) := WriteBuffer(s, value);
              && moved == Fits(s, value)
              && after == FilledSystem(s, value[..moved]).(issued := after.issued, log := after.log)
    {
      assert WriteBuffer(s, value).0.buffers == FilledSystem(s, value[..Fits(s, value)]).buffers;
    }

    /** One pass of the loop of bootloader_write_data: write_data, and the next buffer if there is more. */
    method WritePass(value: seq<Byte>, ghost s: System) returns (moved: nat, more: bool)
      requires Shape() && Shows(s) && value != [] && buffers[nextBuffer].state == Filling
      requires handler.numEntries < CONCURRENT_FLASHS
      modifies Repr()
      ensures s.buffers[s.next].state == Filling
      ensures 0 < moved <= |value| && moved == WriteBuffer(s, value).1
      ensures more <==> LoopContinues(s, value)
      ensures Shows(if more then OpenNext(WriteBuffer(s, value).0) else WriteBuffer(s, value).0)
    {
      moved := FillBuffer(value, s);
      WriteBufferFills(s, value);
      HistoryIsNotShown(FilledSystem(s, value[..moved]), WriteBuffer(s, value).0);
      more := false;
      if moved < |value| {
        more := TakeNextBuffer(WriteBuffer(s, value).0);
      }
    }

    /** The loop. The order of buffers and queue in the session so far, `ses`, shows that the handler's queue has room
        at each start_flash. */
    method WriteAll(value: seq<Byte>, ghost ses: Session) returns (ok: bool)
      requires Shape() && Shows(ses.sys) && OrderedLoop(ses)
      modifies Repr()
      ensures Shows(WriteLoop(ses.sys, value).0) && ok == WriteLoop(ses.sys, value).1
    {
      var rest := value;
      ghost var cur := ses;
      while rest != []
        invariant rest != [] ==> Shows(cur.sys) && OrderedLoop(cur) && WriteLoop(cur.sys, rest) == WriteLoop(ses.sys, value)
        invariant rest == [] ==> Shows(WriteLoop(ses.sys, value).0) && WriteLoop(ses.sys, value).1
        decreases |rest|
      {
        QueueHasRoom(cur);
        LoopUnfolds(cur.sys, rest);
        ghost var next := AfterPass(cur, rest);
        if LoopContinues(cur.sys, rest) {
          LoopStaysOrdered(cur, rest);
        }
        var moved, more := WritePass(rest, cur.sys);
        rest := rest[moved..];
        if rest != [] && !more {
          return false;
        }
        cur := next;
      }
      return true;
    }

    lemma QueueHasRoom(ses: Session)
      requires Shape() && Shows(ses.sys) && OrderedLoop(ses)
      ensures handler.numEntries < CONCURRENT_FLASHS && buffers[nextBuffer].state == Filling
    {
      IssueFindsRoom(ses);
    }

    // ---- The handlers of the service. `ses` is the session so far; in flash mode its buffers and queue are in order,
    //      and FlashWrites.StepKeepsInv carries that over each of these steps. ----

    method BootloaderWriteData(value: seq<Byte>, ghost ses: Session) returns (result: WriteResult)
      requires Shape() && Shows(ses.sys) && (inFlashMode ==> Ordered(ses))
      modifies Repr()
      ensures Shows(WriteData(ses.sys, value).0) && result == WriteData(ses.sys, value).1
      ensures !old(inFlashMode) ==> Shows(ses.sys) && result == NoOperationInProgress
    {
      if !inFlashMode {
        return NoOperationInProgress;
      }
      if value == [] {
        return Success;
      }
      result := WriteInFlashMode(value, ses);
    }

    method WriteInFlashMode(value: seq<Byte>, ghost ses: Session) returns (result: WriteResult)
      requires Shape() && Shows(ses.sys) && Ordered(ses) && inFlashMode && value != []
      modifies Repr()
      ensures Shows(WriteData(ses.sys, value).0) && result == WriteData(ses.sys, value).1
    {
      if buffers[nextBuffer].FreeBytes() == 0 {
        var found := TakeNextBuffer(ses.sys);
        if !found {
          return BufferOverrunAttempt;
        }
        OpenKeepsOrder(ses);
        OpenedWriteData(ses.sys, value);
        result := TakeData(value, OpenStep(ses));
      } else {
        OpenWriteData(ses.sys, value);
        result := TakeData(value, ses);
      }
    }

    method TakeData(value: seq<Byte>, ghost ses: Session) returns (result: WriteResult)
      requires Shape() && Shows(ses.sys) && OrderedLoop(ses)
      modifies Repr()
      ensures Shows(WriteLoop(ses.sys, value).0)
      ensures result == if WriteLoop(ses.sys, value).1 then Success else BufferOverrunAttempt
    {
      var ok := WriteAll(value, ses);
      return if ok then Success else BufferOverrunAttempt;
    }

    // ---- Flushing ----

    /** flush on one of the page buffers. */
    method FlushOne(i: nat, ghost b: Buffer, ghost queue: seq<QueuedPage>) returns (ok: bool)
      requires Shape() && i < CONCURRENT_FLASHS && BufferShows(i, b) && HandlerShows(queue, handler.memory)
      requires b.state == Filling ==> handler.numEntries < CONCURRENT_FLASHS
      modifies buffers[i], buffers[i].buffer, handler, handler.entries
      ensures handler.memory == old(handler.memory) && b.ptr <= |b.data|
      ensures ok == (b.state == Filling && b.ptr != 0)
      ensures BufferShows(i, if ok then Closed(b, handler.memory, handler.reader) else b)
      ensures HandlerShows(if ok then queue + [QueuedPage(b.addr, i)] else queue, handler.memory)
    {
      ghost var pending := handler.Pending();
      ok := buffers[i].Flush(handler);
      QueueGrew(pending, QueueEntry(buffers[i].addr, buffers[i].buffer));
    }

    method FlushInUse(ghost s: System) returns (ok: bool)
      requires Shape() && Shows(s)
      requires buffers[nextBuffer].state == Filling ==> handler.numEntries < CONCURRENT_FLASHS
      modifies Repr() - {this}
      ensures Shows(FlushBuffer(s).0) && ok == FlushBuffer(s).1
    {
      ok := FlushOne(nextBuffer, s.buffers[nextBuffer], s.queue);
    }

    /** The flush procedure of the control point. */
    method FlushProcedure(ghost ses: Session) returns (ok: bool)
      requires Shape() && Shows(ses.sys) && (inFlashMode ==> Ordered(ses))
      modifies Repr()
      ensures Shows(Flush(ses.sys).0) && ok == Flush(ses.sys).1
      ensures !old(inFlashMode) ==> Shows(ses.sys) && !ok
    {
      if !inFlashMode {
        return false;
      }
      if buffers[nextBuffer].state == Filling {
        QueueHasRoom(ses);
      }
      ok := FlushInUse(ses.sys);
      if !ok {
        LeaveFlashMode(ses.sys);
      }
    }

    method LeaveFlashMode(ghost s: System)
      requires Shape() && Shows(s)
      modifies this`inFlashMode
      ensures Shows(s.(inFlashMode := false))
    {
      inFlashMode := false;
    }

    // ---- Progress, programming and the start ----

    /** Frees the oldest buffer and reports its checksum and number. */
    method BootloaderProgressData(ghost s: System) returns (crc: Word, number: nat)
      requires Shape() && Shows(s)
      modifies this, buffers[0], buffers[1]
      ensures Shows(Progress(s))
      ensures crc == s.buffers[s.used].crc && number == s.buffers[s.used].consecutive
    {
      FreeBuffer(usedBuffer, s.buffers[usedBuffer]);
      crc, number := buffers[usedBuffer].crc, buffers[usedBuffer].consecutive;
      usedBuffer := (usedBuffer + 1) % CONCURRENT_FLASHS;
    }

    method FreeBuffer(i: nat, ghost b: Buffer)
      requires Shape() && i < CONCURRENT_FLASHS && BufferShows(i, b)
      modifies buffers[i]
      ensures BufferShows(i, Freed(b))
    {
      buffers[i].Free();
    }

    /** The flash handler's connection event with the flash hardware ready. */
    method ProgramPage(ghost s: System)
      requires Shape() && Shows(s)
      modifies handler
      ensures Shows(ConnectionEvent(s))
    {
      ghost var pending := handler.Pending();
      var programmed := handler.ConnectionEventHappend(true);
      if programmed {
        assert s.queue == [EntryView(pending[0])] + QueueView(pending[1..]);
      }
    }

    /** The start-flash procedure: starts a session with the checksum of its start address; an address outside the white
        list leaves the flash mode and the buffers as they are. */
    method StartFlashProcedure(address: nat, regions: seq<Region>, ghost s: System) returns (ok: bool)
      requires Shape() && Shows(s)
      modifies this, buffers[0], buffers[1], buffers[0].buffer, buffers[1].buffer
      ensures ok <==> exists i :: 0 <= i < |regions| && regions[i].start <= address <= regions[i].end
      ensures ok == inFlashMode
      ensures !ok ==> BufferShows(0, s.buffers[0]) && BufferShows(1, s.buffers[1]) && HandlerShows(s.queue, s.memory)
      ensures Shows(if ok then StartFlash(s, address, handler.addressChecksum(address)) else RefuseStart(s, address))
    {
      var seed := handler.addressChecksum(address);
      ghost var t := RefuseStart(s, address).(inFlashMode := true);
      Restart(address, s);
      ok := Acceptable(regions, address, address);
      AcceptableIff(regions, address, address);
      if ok {
        OpenFirst(seed, t);
        StartOpensFirst(s, address, seed);
        HistoryIsNotShown(OpenedFirst(t, seed), StartFlash(s, address, seed));
      } else {
        LeaveFlashMode(t);
      }
    }

    method Restart(address: nat, ghost s: System)
      requires Shape() && Shows(s)
      modifies this
      ensures Shows(RefuseStart(s, address).(inFlashMode := true))
    {
      startAddress := address;
      consecutive, nextBuffer, usedBuffer := 0, 0, 0;
      inFlashMode := true;
    }

    static lemma StartOpensFirst(s: System, address: nat, seed: Word)
      requires WellFormed(s)
      ensures var started := StartFlash(s, address, seed);
              OpenedFirst(RefuseStart(s, address).(inFlashMode := true), seed).(issued := started.issued, log := started.log) == started
    {
    }

    /** The first buffer opened at the start address, both buffers freed before. */
    static ghost function OpenedFirst(s: System, seed: Word): System
      requires WellFormed(s)
    {
      var first := Opened(Freed(s.buffers[0]), s.startAddress, s.memory, s.reader, seed, s.consecutive, s.pageSize);
      s.(buffers := [first, Freed(s.buffers[1])])
    }

    method OpenFirst(seed: Word, ghost s: System)
      requires Shape() && Shows(s) && nextBuffer == 0
      modifies buffers[0], buffers[1], buffers[0].buffer, buffers[1].buffer
      ensures Shows(OpenedFirst(s, seed))
    {
      FreeBuffer(0, s.buffers[0]);
      FreeBuffer(1, s.buffers[1]);
      OpenBuffer(nextBuffer, seed, consecutive, Freed(s.buffers[0]));
    }
  }
}
