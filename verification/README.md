# Bluetoe: verified models of its protocol core

This project models the parts of Bluetoe, a Bluetooth Low Energy GATT server and link layer, in which state, branching
and arithmetic meet, and proves what they promise. `dafny verify dfyconfig.toml` checks all of it.

| files | what they model |
|---|---|
| `EditLog`, `FlashModel`, `FlashSession`, `FlashSteps`, `FlashWrites`, `FlashTheorems`, `FlashReopening`, `FlashReports`, `FlashNumbers`, `FlashController`, `Crc32` | The bootloader's two page buffers coupled with a flash handler's queue, over whole sessions, as a log of edits of the memory; the classes that refine them; the table-driven checksum. |
| `NotificationModel`, `NotificationTheorems`, `NotificationQueue`, `NotificationData`, `NotificationPriority`, `NotificationHandles` | The queue of outgoing notifications and indications, from packed bits to fairness and priorities, and the numbering of characteristics that it relies on, down to the handles in the PDUs. |
| `SharedWriteQueue`, `PreparedWrites`, `WriteAnswers`, `PreparedWriteTheorems`, `WriteServer` | Prepare Write, Execute Write and Write Request over an allocator in a byte array, with their responses. |
| `GattServer`, `AttributeHandles`, `FindInformation`, `FindInformationHandler`, `FindInformationAnswers` | The services of a server, the mapping between attribute indices and handles, and discovery on top of it. |
| `ChannelMap` | The hop sequence of a connection. |
| `Cmac`, `PairingCmac`, `PairingFunctions` | f4, f5, f6 and g2 of pairing, as AES-CMAC. |
| `LongRead` | Scattered reads and Read Blob. |
| `TwoClock` | Times split over a tick counter and a microsecond timer. |
| `Bytes`, `LittleEndian`, `Arithmetic`, `AttPdu` | Bytes, byte order, remainders and bits, error responses. |

Code that changes state in place is a class or a method here too, proved against functions on values; the theorems
over whole runs are about those functions. Template parameters (page size, queue sizes, lists of services and
characteristics) are ordinary parameters. Integers are unbounded unless a width matters: 16-bit sizes and handles of
PDUs, the carry of the checksum and of the left shift, the 32-bit arithmetic of the timers, and the 24 bits of the
slow clock's counter and compare registers are written out. Indices of attributes have 32 bits, so that the invalid
index is what one below 0 wraps around to. The flash memory is a function from addresses to bytes, what a flash
handler reads back an arbitrary function of memory, address and buffer, AES an arbitrary function from key and block
to block, the priorities of characteristics arbitrary numbers. Attribute values are bound variables of fixed size,
each behind its own handle.

## Where the code and its documentation differ

The models follow the code. These are the differences that the theorems make precise.

- Writing on in a page that a flush has queued, before the page is programmed, reads the page's start from the old
  memory: a byte can be lost (`FlashReopening.EarlyReopeningLosesAByte`). No session is excluded for that. One such
  reopening is harmless if and only if the queued page agrees with the memory in front of the place where writing goes on
  (`FlashReopening.EarlyReopeningIff`); over a whole session, `FlashTheorems.EarlySessionIsRightIff` gives the exact
  condition for any number of them, and `FlashTheorems.SessionLosesOnlyEarly` says that nothing else is ever lost.
- The example handler's `read_mem` is empty. What a handler reads back is a parameter of the model. With any handler, and
  without a page reopened behind a flush, all sent bytes are flashed (`FlashTheorems.SentBytesAreFlashed`); the bytes
  around them are right if and only if the handler read back what the memory held
  (`FlashTheorems.SteadySessionIsRightIff`). `FlashReopening.EmptyReaderOverwritesNeighbour` is a session of the example
  handler that is wrong; `FlashTheorems.SessionIsRightIff` covers every run with every handler.
- `bluetoe/services/bootloader.md` lets a flush end the flash mode; in the code exactly a refused one does, and behind an
  accepted one writing goes on (`FlashReports.FlushKeepsFlashMode`).
- A level of one characteristic refuses a notification while an indication is pending and the other way round
  (`NotificationTheorems.AcceptedIff`); the queue's description promises both kinds independently.
- An indication that the output drops stays outstanding and blocks all indications
  (`NotificationTheorems.DroppedIndicationBlocks`).
- A service without characteristics shifts the attribute table but not the indices used for notifications
  (`NotificationData.IndicesAreTrueIff`), and look-up by value numbers the list before it is sorted
  (`NotificationData.ValueIndexIsQueueIndexIff`).
- A priority number that no characteristic has, below the largest one in use, would be a level of no places, which the
  queue cannot have: `NotificationPriority.QueueExistsIff` says for which services a queue exists.
- An attribute that requires encryption can never be written with prepared writes, because the check uses no security
  attributes (`PreparedWrites.PrepareAppends`).
- Find Information answers a range without attributes with an empty response, or with attributes outside of the range
  if the table starts behind it, instead of an error (`FindInformation.RequestOfEmptyRange`,
  `FindInformation.ListsOutOfRangeIff`); and it skips attributes whose UUID has another size, so that a client may
  never see them (`FindInformation.MixedTableIsNotDiscovered`). `FindInformation.DiscoveryIsCompleteIff` gives the exact
  condition for each response size, `FindInformation.DiscoveryIsAlwaysCompleteIff` the one for all of them.
- Included services break the handle mapping (`AttributeHandles.SomeHandleInvalidIff`).

## Model

| member | source | states |
|---|---|---|
| `FlashTheorems.SessionFlashesWhatWasSent` | bluetoe/services/bootloader.hpp:491-515 | For every session from any start address, with writes of any sizes, flushes, programmed pages and progress reads in any order, with a handler that reads memory: if no page was reopened while it was still queued, then, once the queued pages are programmed, every byte that no open page holds back is the old memory with exactly the sent bytes at the start address. |
| `FlashTheorems.SessionIsRightIff` | bluetoe/services/bootloader.hpp:173-221 | For every run and every handler, whatever its read_mem leaves in the page buffers and whichever pages are reopened: the memory ends up with exactly what was sent if and only if every byte that was read back, and not written again later, is the right one. |
| `FlashTheorems.SentBytesAreFlashed` | bluetoe/services/bootloader.hpp:186-221 | For every run without a page reopened behind a flush and every handler, even one that reads nothing: every sent byte that no open page holds back is in the drained memory, at its address. |
| `FlashTheorems.SteadySessionIsRightIff` | bluetoe/services/bootloader.hpp:173-221 | For every such run and every handler, the memory is the old one with exactly the sent bytes if and only if what read_mem left in the page buffers is what the memory held there when the session started. |
| `FlashTheorems.SessionLosesOnlyEarly` | bluetoe/services/bootloader.hpp:173-184 | For every run with a handler that reads memory: the drained memory is what was sent, overwritten only by what was read back in front of the pages that were reopened while they were still queued. |
| `FlashTheorems.EarlySessionIsRightIff` | bluetoe/services/bootloader.hpp:173-184 | For every run with a handler that reads memory, with any number of such reopenings: the memory is as sent if and only if every byte read back in front of one, and not read back again by a later one, is the right one. |
| `FlashReports.SuccessfulWritesSendAll` | bluetoe/services/bootloader.hpp:502-512 | If every write of a run succeeds, the bytes that the session sent are the concatenation of the written values, in order. |
| `FlashReports.PagesFlashedOnce` | bluetoe/services/bootloader.hpp:206-221 | Every issued page is at a page address; without a page written on behind a flush, the issued pages are the consecutive pages from the one of the start address, so none is flashed twice. |
| `FlashTheorems.RunKeepsInv` | bluetoe/services/bootloader.hpp:595-609 | The invariant of controller and flash handler together holds after every run: buffers in order, `used_buffer_` the oldest flashing one, queued plus unreported pages equal to the flashing buffers; what is pending amounts to all edits of the page buffers so far; checksums as expected. |
| `FlashWrites.StepKeepsInv` | bluetoe/services/bootloader.hpp:548-564 | Every enabled event keeps that invariant. |
| `FlashWrites.StartedInv` | bluetoe/services/bootloader.hpp:342-361 | Starting the flash procedure with no page queued establishes the invariant. |
| `FlashSteps.IssueFindsRoom` | examples/bootloader.cpp:113-120 | Whenever a page is handed over, the handler's queue has a free entry: its assertion never fails. |
| `FlashSteps.AppendKeepsCore` | bluetoe/services/bootloader.hpp:192-196 | Copying bytes into the open page keeps the order of the buffers, what is on its way into the memory, and the checksums. |
| `FlashSteps.IssueKeepsInv` | bluetoe/services/bootloader.hpp:206-221 | Handing a page over, completed by whatever the handler reads back, keeps the whole invariant. |
| `FlashSteps.OpenKeepsInv` | bluetoe/services/bootloader.hpp:173-184 | Opening the next buffer, with whatever the handler reads back as the start of its page, keeps the whole invariant, also if that page is still queued. |
| `FlashSteps.ProgrammedKeepsInv` | examples/bootloader.cpp:261-274 | Programming the oldest queued page keeps the whole invariant. |
| `FlashSteps.ProgressKeepsInv` | bluetoe/services/bootloader.hpp:548-564 | Reading the progress of a programmed page frees the oldest flashing buffer and keeps the whole invariant. |
| `FlashWrites.WriteLoopKeepsInv` | bluetoe/services/bootloader.hpp:502-512 | The loop of a data write keeps the invariant, whatever the size of the value and however it crosses pages. |
| `FlashReports.FlashingBufferUntouched` | bluetoe/services/bootloader.hpp:187-221 | No event writes, refills or frees a flashing buffer before its progress is read, and that only happens once its page has been programmed. |
| `FlashReports.ReportedChecksums` | bluetoe/services/bootloader.hpp:174-204 | The checksum in use is that of all bytes sent, seeded with the start address' checksum; a progress read reports the checksum of everything up to the end of its buffer's part, whatever the write and page boundaries. |
| `FlashNumbers.ProgressReadsCountUp` | bluetoe/services/bootloader.hpp:548-561 | In every session the progress reads report the numbers 0, 1, 2 and so on, modulo 2^16, whatever happens in between. |
| `FlashReports.HandlerChecksumChains` | examples/bootloader.cpp:161-169 | The example handler's checksum of a concatenation is the checksum of the second part continued from the first. |
| `FlashReports.SessionChecksumIsBitSerial` | examples/bootloader.cpp:176-184 | With the example handler, a session's checksum is the bit-serial CRC of the address bytes followed by all bytes sent. |
| `FlashReports.WriteSucceedsIffRoom` | bluetoe/services/bootloader.hpp:491-515 | A write in flash mode succeeds if and only if the value fits into the free part of the open buffer and the idle buffers; otherwise it answers an attempt to overrun them. |
| `FlashReopening.EarlyReopeningIff` | bluetoe/services/bootloader.hpp:595-609 | With a handler that reads memory, in every reachable state: after the first write of a session that reopens a page while it is still queued, a flush of the page left open, and the queue worked off, the memory is the old one with exactly the sent bytes if and only if the queued page agrees with the memory on the bytes in front of the place where writing goes on. |
| `FlashReports.FlushAcceptedIff` | bluetoe/services/bootloader.hpp:206-221 | A flush is accepted if and only if the controller is in flash mode with an open page that is neither empty nor full; then exactly that page is queued, and nothing is programmed yet; a refused one changes nothing but the flash mode. |
| `FlashReports.FlushKeepsFlashMode` | bluetoe/services/bootloader.hpp:363-373 | A flush leaves the flash mode set if and only if it was accepted, and behind an accepted one a write succeeds if and only if the value fits into the free room. |
| `FlashReopening.EmptyReaderOverwritesNeighbour` | examples/bootloader.cpp:152-154 | A concrete session of the example handler, whose read_mem is empty: one byte at an odd address with pages of two bytes puts what the page buffer held before into the neighbouring byte. |
| `FlashReopening.EarlyReopeningLosesAByte` | bluetoe/services/bootloader.hpp:174-221 | A concrete session (one byte, flush, one byte of the same page while the first page is still queued) in which a byte that was sent is not in memory at the end. |
| `FlashModel.WriteBuffer` | bluetoe/services/bootloader.hpp:187-204 | A buffer with room takes at least one byte of a value that is not empty and never more than the value; afterwards no open buffer is full. |
| `FlashModel.WriteLoop` | bluetoe/services/bootloader.hpp:502-512 | The loop keeps every buffer well formed and takes at most the value. |
| `FlashController.FlashHandler.StartFlash` | examples/bootloader.cpp:113-133 | The ring of entries holds the old queue and then the new page; the page's bytes stay in the caller's buffer. |
| `FlashController.FlashHandler.ConnectionEventHappend` | examples/bootloader.cpp:261-274 | With a queued page and ready hardware exactly the oldest page is programmed and removed; otherwise nothing changes. |
| `FlashController.FlashHandler.ReadMem` | examples/bootloader.cpp:152-154 | Whatever the handler leaves, it leaves in the asked part of the buffer, and nothing else changes. |
| `FlashController.FlashBuffer.SetStartAddress` | bluetoe/services/bootloader.hpp:173-184 | The buffer becomes the page of the address, its bytes up to the address as the handler reads them back and the others as they were. |
| `FlashController.FlashBuffer.WriteData` | bluetoe/services/bootloader.hpp:186-204 | Copies what fits, continues the checksum, and hands a full page to the handler. |
| `FlashController.FlashBuffer.Flush` | bluetoe/services/bootloader.hpp:206-221 | A flush of an open page with data completes it with what the handler reads back and queues it; any other flush is refused without an effect. |
| `FlashController.Controller.TakeNextBuffer` | bluetoe/services/bootloader.hpp:595-609 | Refines the model's search for the next buffer. |
| `FlashController.Controller.BootloaderWriteData` | bluetoe/services/bootloader.hpp:491-515 | In every state with buffers and queue in order, also when it writes on in a queued page, the method has the effect and the result of the model's write, and the handler's assertion cannot fail on the way; in every state outside of the flash mode it changes nothing and says that no operation is in progress. |
| `FlashController.Controller.FlushProcedure` | bluetoe/services/bootloader.hpp:363-373 | In every state with buffers and queue in order, the flush procedure has the effect and the result of the model's flush; outside of the flash mode it is refused and changes nothing. |
| `FlashController.Controller.BootloaderProgressData` | bluetoe/services/bootloader.hpp:548-564 | Frees the buffer in `used_buffer_`, advances it, and reports that buffer's checksum and number. |
| `FlashController.Controller.StartFlashProcedure` | bluetoe/services/bootloader.hpp:342-362 | Accepted if and only if one region of the white list holds the address; then a session starts with the handler's checksum of the address as its seed; otherwise the flash mode is left, and buffers, queue and memory are as they were. |
| `FlashController.AcceptableIff` | bluetoe/services/bootloader.hpp:60-64 | A range of addresses is acceptable if and only if one region starts at or before it and ends at or behind it. |
| `FlashReports.RefusedStartWritesNothing` | bluetoe/services/bootloader.hpp:354-355 | Behind a refused start the next data write answers that no operation is in progress, and buffers, queue and memory are as before the start. |
| `FlashReports.NothingWithoutSession` | bluetoe/services/bootloader.hpp:491-497 | Outside of the flash mode a write, even one of no bytes, and a flush change nothing and do not succeed. |
| `FlashController.Controller.ProgramPage` | examples/bootloader.cpp:261-274 | A connection event of the handler has the effect of the model's. |
| `Crc32.BuildTable` | examples/bootloader.cpp:209-219 | Entry n of the table is n shifted through eight steps of the register. |
| `Crc32.ComputeChecksum` | examples/bootloader.cpp:161-169 | With that table the loop computes the bit-serial reference, for every string and every start value. |
| `Crc32.FeedByteIsBitSerial` | examples/bootloader.cpp:165-166 | One table look-up is eight steps of the bit-serial register fed with the byte's bits, lowest first. |
| `Crc32.ChecksumIsBitSerial` | examples/bootloader.cpp:161-169 | The table-driven checksum is the bit-serial one on every string. |
| `Crc32.PolynomialIs` | examples/bootloader.cpp:214-216 | The constant is the reflected polynomial of CRC-32: bit 31 - k is the coefficient of x^k in x^32 + x^26 + x^23 + x^22 + x^16 + x^12 + x^11 + x^10 + x^8 + x^7 + x^5 + x^4 + x^2 + x + 1. |
| `Crc32.ChecksumConcat` | examples/bootloader.cpp:161-169 | The checksum of a concatenation is the checksum of the second part from the checksum of the first. |
| `NotificationTheorems.NothingLostNothingInvented` | bluetoe/notification_queue.hpp:189-255 | Over every run since the last clear, for every characteristic and kind: accepted additions equal deliveries, plus one if it is still pending; levels of one characteristic included. |
| `NotificationTheorems.EmptyQueueIsBalanced` | bluetoe/notification_queue.hpp:157-162 | A cleared queue starts with balanced books. |
| `NotificationTheorems.AddEffect` | bluetoe/notification_queue.hpp:352-364 | An addition changes exactly what is pending for its characteristic and kind and says whether it did. |
| `NotificationTheorems.LevelDequeueEffect` | bluetoe/notification_queue.hpp:189-216 | A dequeue of a level returns an eligible entry if there is one, removes exactly it, and marks an indication as outstanding. |
| `NotificationTheorems.DequeueEffect` | bluetoe/notification_queue.hpp:366-378 | The same over all levels: what is delivered was eligible, only it is removed, and with nothing delivered nothing changes. |
| `NotificationTheorems.DequeueEmptyIff` | bluetoe/notification_queue.hpp:366-378 | A dequeue returns nothing if and only if no level holds an eligible entry. |
| `NotificationTheorems.HigherPriorityFirst` | bluetoe/notification_queue.hpp:366-378 | Something is delivered from the first level that holds an eligible entry. |
| `NotificationTheorems.ScanFindsFirst` | bluetoe/notification_queue.hpp:193-213 | The circular scan passes no entry that could be delivered, and covers every entry. |
| `NotificationTheorems.NoIndicationWhileOutstanding` | bluetoe/notification_queue.hpp:199-205 | While an indication is outstanding, no run delivers another one before a confirmation or a clear. |
| `NotificationTheorems.OneIndicationAtATime` | bluetoe/server.hpp:564-597 | In every run, a confirmation or a clear lies between two delivered indications (section 3.3.2 of Core Spec Vol 3 Part F). |
| `NotificationTheorems.DroppedIndicationBlocks` | bluetoe/server.hpp:564-597 | An indication that the output drops (not subscribed, no room, not readable) stays outstanding: no indication is delivered until a confirmation or a clear, though nothing was sent. |
| `NotificationTheorems.ConfirmationReleases` | bluetoe/notification_queue.hpp:143-147 | A confirmation changes nothing that is pending, and behind it everything pending, indications too, can be delivered. |
| `NotificationTheorems.DeliversBehindConfirmation` | bluetoe/notification_queue.hpp:199-213 | A dequeue behind a confirmation delivers something if and only if anything was pending. |
| `NotificationTheorems.ClearReleases` | bluetoe/notification_queue.hpp:157-162 | Behind a clear nothing is pending and every characteristic has its place; whatever is added then, an indication too, can be delivered. |
| `NotificationTheorems.IndicationComesFirst` | bluetoe/notification_queue.hpp:199-213 | If both kinds are pending for the characteristic that is served, its indication is delivered first, unless one is outstanding. |
| `NotificationTheorems.OutputSendsDelivery` | bluetoe/server.hpp:564-597 | A PDU carries a kind and an index that were eligible, exactly that is taken out of the queue, and an indication is then the outstanding one; what is dequeued is kept silent exactly if it is not subscribed, has no room or cannot be read. |
| `NotificationTheorems.OneIndicationPduAtATime` | bluetoe/server.hpp:564-597 | In every run over links that may change at every step, a confirmation or a clear lies between two indications that are sent. |
| `NotificationTheorems.AcceptedIff` | bluetoe/notification_queue.hpp:280-303 | For an index of the whole queue: an addition is accepted if and only if the index has a place, the same kind is not pending there, and the characteristic does not have a level of its own that holds the other kind; afterwards it is pending unless refused for the other kind. |
| `NotificationTheorems.DequeueIsFair` | bluetoe/notification_queue.hpp:189-216 | A dequeue either serves the waiting place, or serves another place of its ring and comes nearer to it, or leaves the ring alone. |
| `NotificationTheorems.BoundedWaiting` | bluetoe/notification_queue.hpp:189-216 | In a ring of n, at most n-1 other places are served before a waiting notification, whatever is queued, confirmed and served elsewhere meanwhile. |
| `NotificationQueue.SetBits` | bluetoe/notification_queue.hpp:234-255 | Setting or clearing one mask changes that bit of that entry and no other entry in the byte, for all four positions and both kinds. |
| `NotificationQueue.SlotIsEntry` | bluetoe/notification_queue.hpp:225-255 | Changing one slot of one byte changes one entry of the unpacked queue, for every number of characteristics. |
| `NotificationQueue.PackedLevel.At` | bluetoe/notification_queue.hpp:225-232 | Reads the two bits of an entry out of the packed bytes. |
| `NotificationQueue.PackedLevel.Add` | bluetoe/notification_queue.hpp:234-245 | On the packed bytes: refines adding to a set of entries, all other entries unchanged. |
| `NotificationQueue.PackedLevel.Remove` | bluetoe/notification_queue.hpp:247-255 | On the packed bytes: removes one kind of one entry, all others unchanged. |
| `NotificationQueue.PackedLevel.Dequeue` | bluetoe/notification_queue.hpp:189-216 | The circular loop over the packed bytes delivers what the model's scan finds. |
| `NotificationQueue.SingleLevel.Add` | bluetoe/notification_queue.hpp:280-303 | The single state takes a kind only if it is empty. |
| `NotificationQueue.SingleLevel.Dequeue` | bluetoe/notification_queue.hpp:305-318 | The single state delivers like a level of the model. |
| `NotificationQueue.AddToLevels` | bluetoe/notification_queue.hpp:352-364 | The index walks the levels; exactly one level changes. |
| `NotificationQueue.DequeueFromLevels` | bluetoe/notification_queue.hpp:366-378 | The first level that delivers ends the walk; the levels behind it are untouched. |
| `NotificationQueue.ClearLevels` | bluetoe/notification_queue.hpp:380-384 | All levels are emptied. |
| `NotificationQueue.OutgoingQueue.Dequeue` | bluetoe/notification_queue.hpp:149-155 | The queue object refines the model's dequeue with its outstanding index. |
| `NotificationQueue.OutgoingQueue.QueueOutgoing` | bluetoe/notification_queue.hpp:131-141 | The queue object refines the model's addition. |
| `NotificationQueue.OutgoingQueue.IndicationConfirmed` | bluetoe/notification_queue.hpp:143-147 | Behind a confirmation no indication is outstanding, and the levels are as they were. |
| `NotificationQueue.OutgoingQueue.ClearIndicationsAndConfirmations` | bluetoe/notification_queue.hpp:157-162 | Clears all levels and the outstanding indication. |
| `NotificationData.SortOrders` | bluetoe/utility/include/bluetoe/meta_tools.hpp:801-832 | The insertion sort delivers a permutation that is ordered by priority and, within one priority, by position: it is stable. |
| `NotificationData.CccdIndicesInverse` | bluetoe/characteristic.hpp:437-441 | The list of configuration positions is a permutation, and the search in it is its inverse: the k-th descriptor's flags and the queue index belong to the same characteristic, in both directions. |
| `NotificationData.AddPrioCounts` | bluetoe/outgoing_priority.hpp:50-79 | Adding a priority raises exactly the count of that priority, growing the list as needed. |
| `NotificationData.NumbersCountPriorities` | bluetoe/outgoing_priority.hpp:240-259 | Level p gets exactly as many places as there are characteristics with a descriptor and priority p, although the counts and the sorted list are computed by different folds. |
| `NotificationData.QueueLevelIsPriority` | bluetoe/notification_queue.hpp:352-364 | For every priority assignment, walking the level sizes takes queue index i to the level numbered with the priority of the i-th sorted characteristic. |
| `NotificationPriority.HigherPriorityIsServedFirst` | bluetoe/outgoing_priority.hpp:83-157 | In a queue with the levels computed from the services, a dequeue never delivers a characteristic while one with a higher priority could be delivered. |
| `NotificationPriority.PendingHasPriority` | bluetoe/find_notification_data.hpp:151-157 | Whatever is pending has an index of a sorted characteristic and lies in the level of its priority. |
| `NotificationPriority.QueueExistsIff` | bluetoe/outgoing_priority.hpp:240-259 | A queue with the computed level sizes exists, with every level of at least one place, if and only if every priority number below the largest one in use is that of some characteristic. |
| `NotificationData.FindByIndex` | bluetoe/find_notification_data.hpp:54-74 | The count-down visitor gives the index of the value of the index-th sorted characteristic in the attribute table, and attribute 1 for an index that none has. |
| `NotificationData.UuidThenIndex` | bluetoe/find_notification_data.hpp:159-223 | Looking up by UUID and then, when the PDU is built, by that index gives the same attribute of the characteristic asked for, with the index that its descriptor uses. |
| `NotificationData.IndicesAreTrueIff` | bluetoe/find_notification_data.hpp:138-153 | The first-attribute indices are those of the attribute table for all characteristics if and only if no service without characteristics stands in front of a characteristic. |
| `NotificationData.UuidFindsValue` | bluetoe/find_notification_data.hpp:197-223 | With the empty services last, looking up a characteristic by its UUID gives the index of its own value in the server's attribute table. |
| `NotificationHandles.UuidFindsValueHandle` | bluetoe/server.hpp:576-592 | A notification queued by UUID is sent with the handle of the characteristic's own value, fixed or behind its declaration's, in a server without includes and with its empty services last. |
| `NotificationData.FindByValue` | bluetoe/find_notification_data.hpp:167-195 | Look-up by value returns the last bound characteristic, with its place in the order of declaration. |
| `NotificationData.ValueIndexIsQueueIndexIff` | bluetoe/find_notification_data.hpp:189-195 | The index found by value is the queue index for all characteristics if and only if they are declared in the order of their priorities. |
| `SharedWriteQueue.ParseEncode` | bluetoe/write_queue.hpp:203-207 | The stored form of a list of elements parses as that list. |
| `SharedWriteQueue.EncodeParse` | bluetoe/write_queue.hpp:203-207 | Whatever parses is the stored form of the list it parses as. |
| `SharedWriteQueue.WriteQueue.Allocate` | bluetoe/write_queue.hpp:142-158 | Succeeds exactly if size and prefix fit and nobody else owns the queue; then the elements are the old ones and the new place; otherwise nothing changes. |
| `SharedWriteQueue.WriteQueue.Store` | bluetoe/server.hpp:1468 | Copying into the allocated place makes those bytes the last element; the used prefix still parses. |
| `SharedWriteQueue.WriteQueue.Free` | bluetoe/write_queue.hpp:160-169 | Only the owner frees the queue, and then it is empty and without an owner. |
| `SharedWriteQueue.WriteQueue.ReadSize` | bluetoe/write_queue.hpp:203-207 | The two bytes in front of an element are its size. |
| `SharedWriteQueue.WriteQueue.First` | bluetoe/write_queue.hpp:171-181 | Points at the first element and its bytes for the owner, at nothing for anybody else. |
| `SharedWriteQueue.WriteQueue.Next` | bluetoe/write_queue.hpp:183-201 | From the k-th element to the one behind it and its bytes, or to the end behind the last one. |
| `PreparedWrites.PrepareAppends` | bluetoe/server.hpp:1445-1474 | A prepared write is accepted if and only if the PDU has five bytes, the handle is known, the attribute is writable and requires no encryption (whatever the connection's security), it fits and nobody else owns the queue; then it is the last element. |
| `PreparedWrites.StepKeepsInv` | bluetoe/write_queue.hpp:142-169 | Every event keeps the queue's invariant: an owner exactly while there are elements, all of which fit and name an attribute. |
| `PreparedWriteTheorems.OwnerIsExclusive` | bluetoe/write_queue.hpp:148-149 | While one client owns the queue, no event of another one changes owner or elements or is accepted. |
| `PreparedWriteTheorems.ReleaseFrees` | bluetoe/server.hpp:1490-1520 | Exactly the owner's well-formed Execute Write and its disconnection leave the queue empty and without an owner, whether or not the writes succeed. |
| `PreparedWriteTheorems.QueueHoldsAcceptedWrites` | bluetoe/server.hpp:1463-1468 | Over every run in which the owner does not end its writes, whatever others try, the queue holds its elements and then exactly the owner's accepted writes, in order. |
| `PreparedWriteTheorems.ProcedureEffect` | bluetoe/server.hpp:1485-1524 | From an idle queue to Execute Write: flag 1 writes exactly the accepted writes in their order up to the first that cannot be written, and answers success if and only if all were written, else the handle of that first one and whether its length or something else was wrong; flag 0 changes no value (section 3.4.6 of Core Spec Vol 3 Part F); the queue is free afterwards. |
| `PreparedWriteTheorems.FragmentsAnswer` | bluetoe/server.hpp:1497-1517 | Executing consecutive fragments from 0 answers success if and only if all their bytes fit the value, otherwise an invalid length for its handle; the fragments in front of the first that does not fit are written. |
| `PreparedWriteTheorems.ReplayConsecutive` | bluetoe/server.hpp:1497-1517 | Replaying consecutive fragments writes their concatenation up to the first fragment that does not fit, which ends with an invalid length; all fit if and only if the concatenation does. |
| `PreparedWriteTheorems.AllAcceptedIff` | bluetoe/write_queue.hpp:148-149 | All fragments of a client are accepted if and only if their stored form fits into the free part of the queue. |
| `PreparedWriteTheorems.DocumentedSizeSuffices` | bluetoe/write_queue.hpp:23-24 | A queue of the documented size ((N + 17) / 18 * 7) + N takes every fragmentation of N bytes into at most one fragment for every 18 bytes begun. |
| `PreparedWriteTheorems.LongWriteIsDirectWrite` | bluetoe/characteristic_value.hpp:309-323 | With a queue of the documented size, consecutive fragments that cover a value are all accepted, and executing them answers success and leaves what one direct write of all bytes would leave. |
| `WriteAnswers.ReplayWritesAll` | bluetoe/server.hpp:1497-1517 | If every element can be written, every byte of every value is afterwards that of the last element that covers it, and otherwise what it was. |
| `WriteAnswers.ReplayFailsAtFirst` | bluetoe/server.hpp:1508-1516 | The first element that cannot be written ends the replay with its handle: an invalid length only if access, permission and offset are right, an invalid offset for everything else; exactly the elements in front of it were written. |
| `WriteAnswers.ExecuteAnswers` | bluetoe/server.hpp:1485-1524 | Every Execute Write, on the bytes of the PDU and the response: malformed, flag 0, a client that owns nothing, and flag 1 of the owner; the owner's elements are dropped in all but the first. |
| `WriteAnswers.PrepareAnswers` | bluetoe/server.hpp:1445-1474 | The bytes of the response to every Prepare Write: its own bytes as far as there is room, or the error of the first condition that fails. |
| `WriteAnswers.WriteRequestAnswers` | bluetoe/server.hpp:1400-1423 | A Write Request replaces exactly the first bytes of the value if the handle is known, the link may access it, it is writable and the bytes fit; otherwise nothing changes and the response is the error of the first of these that fails. |
| `WriteServer.Server.Access` | bluetoe/characteristic_value.hpp:309-323 | The byte-wise copy into the bound value: offset checked before length, and a failing write changes nothing. |
| `WriteServer.Server.HandlePrepareWrite` | bluetoe/server.hpp:1445-1474 | On the byte array: new state and response bytes are those of the model, with every error response. |
| `WriteServer.Server.ReplayQueue` | bluetoe/server.hpp:1497-1517 | The loop over the stored elements has the effect of replaying the list of elements. |
| `WriteServer.Server.HandleExecuteWrite` | bluetoe/server.hpp:1485-1524 | New state and response bytes are those of the model, which WriteAnswers.ExecuteAnswers pins byte for byte; the queue is freed on every path behind the PDU check. |
| `WriteServer.Server.HandleWriteRequest` | bluetoe/server.hpp:1400-1423 | New state and response bytes of a direct write are those of the model; the queue is untouched. |
| `WriteServer.Server.ClientDisconnected` | bluetoe/server.hpp:861-864 | A disconnection frees the queue of its owner only. |
| `AttributeHandles.HandlesAreValidAndIncrease` | bluetoe/attribute_handle.hpp:207-223 | For services without includes and every accepted choice of fixed handles: handles are never 0 on an index of the table, 0 behind it, and strictly increasing. |
| `AttributeHandles.HandlesFitIff` | bluetoe/attribute_handle.hpp:312-318 | All handles of the table fit their 16 bits if and only if that of its last attribute does. |
| `AttributeHandles.PlainIsAccepted` | bluetoe/attribute_handle.hpp:207-223 | A server without fixed handles meets the static assertions, whatever its services and characteristics. |
| `AttributeHandles.FixedIsAcceptedIff` | bluetoe/attribute_handle.hpp:64-66 | The fixed handles of a characteristic are accepted if and only if the first is not below the next free handle and they increase. |
| `AttributeHandles.FirstIndexIsLeast` | bluetoe/attribute_handle.hpp:353-362 | The result is the least index whose handle is not below the given one, and invalid if and only if there is none. |
| `AttributeHandles.IndexByHandleIsInverse` | bluetoe/attribute_handle.hpp:364-371 | The exact look-up is the partial inverse of the handles, and invalid if and only if no attribute has the handle. |
| `AttributeHandles.TrivialMapping` | bluetoe/attribute_handle.hpp:329-335 | Without includes and fixed handles, the look-up of any index i of the table gives handle i + 1. |
| `AttributeHandles.HandleInTable` | bluetoe/attribute_handle.hpp:91-136 | In a server with fixed handles anywhere, the look-up of the table index of a characteristic's attribute gives the handle that the characteristic's own options and start determine, if its service includes no other. |
| `AttributeHandles.FixedServiceHandle` | bluetoe/attribute_handle.hpp:19-31 | A service with a fixed handle has that handle. |
| `AttributeHandles.FixedHandlesAreAssigned` | bluetoe/attribute_handle.hpp:19-72 | A characteristic with fixed handles has them, at its indices of the attribute table, for declaration, value and, if given, client configuration, with its further attributes directly behind, wherever its service stands in the server and if that includes no other. |
| `AttributeHandles.SomeHandleInvalidIff` | bluetoe/attribute_handle.hpp:242-261 | Some attribute of the table has the invalid handle if and only if some service includes another one. |
| `AttributeHandles.CharacteristicSegment` | bluetoe/attribute_handle.hpp:91-136 | The handles of one characteristic increase within its range and end directly before the next one's start, for every kind of fixed handles. |
| `AttributeHandles.CharacteristicPositionIs` | bluetoe/attribute_handle.hpp:166-178 | The position by handle is the first one whose handle is not below it. |
| `AttributeHandles.CharacteristicsIndexIs` | bluetoe/attribute_handle.hpp:225-231 | The recursion over characteristics finds the lower bound in the list of all their handles. |
| `AttributeHandles.FirstIndexFromIs` | bluetoe/attribute_handle.hpp:320-326 | The recursion over services finds the lower bound in the list of all handles. |
| `AttributeHandles.HandleFromIs` | bluetoe/attribute_handle.hpp:312-318 | The recursion over services reads the list of all handles, and the invalid handle behind it. |
| `FindInformation.RequestListsRange` | bluetoe/server.hpp:993-1029 | A request whose range holds an attribute lists exactly the attributes of the range with the UUID size of the first of them, cut to the longest prefix that fits, which is not empty. |
| `FindInformation.RequestOfEmptyRange` | bluetoe/server.hpp:1003-1007 | A request whose range holds none: the error only if no attribute follows; a table that starts behind the range is listed from its start; otherwise the response lists nothing. |
| `FindInformation.ListsOutOfRangeIff` | bluetoe/server.hpp:1003-1007 | Attributes outside the requested range are listed if and only if the whole table lies behind the range. |
| `FindInformation.DiscoveryIsCompleteIff` | bluetoe/server.hpp:1616-1646 | For every table and every response size of at least 23: repeating the request behind the last handle lists every attribute once in ascending order if and only if at every request the response is full before the UUID size changes, or that size does not come back. |
| `FindInformation.DiscoveryIsAlwaysCompleteIff` | bluetoe/server.hpp:1616-1646 | Discovery is complete for every response size if and only if the UUID size changes at most once along the table; so it is for 16-bit UUIDs only. |
| `FindInformation.MixedTableIsNotDiscovered` | bluetoe/server.hpp:993-1029 | A table of three attributes with UUIDs of 16, 128 and 16 bits: with the default MTU the second one is never listed. |
| `FindInformationAnswers.RequestIsAnswered` | bluetoe/server.hpp:909-936 | On the bytes of request and response: the handles are refused if and only if the first is 0 or above the second; otherwise the response is the error, or the opcode, the format and the tuples, that the answer asks for. |
| `FindInformationAnswers.ClientReadsRange` | bluetoe/server.hpp:993-1029 | What a client decodes from the response to a range with an attribute: opcode 5, format 1 or 2, and tuple for tuple the handles and UUIDs of the attributes of the range with the UUID size of the first, in ascending order, as many as fit, at least one. |
| `FindInformationAnswers.MalformedRequestIsRefused` | bluetoe/server.hpp:909-918 | A request of any size but five bytes is answered with the error for a malformed PDU. |
| `FindInformationAnswers.ExploresAllIff` | bluetoe/server.hpp:1616-1646 | A client that decodes the responses and asks again behind the last handle gets to know every attribute's handle and UUID, each once and in ascending order, if and only if no request leaves a gap. |
| `FindInformation.CollectIs` | bluetoe/server.hpp:1616-1646 | The loop lists the longest fitting prefix of the attributes of one UUID size in the range. |
| `FindInformationHandler.TableOfServices` | bluetoe/attribute_handle.hpp:348-371 | The table used here is the mapping of a server without includes: same first index, same handles. |
| `FindInformationHandler.CollectTuples` | bluetoe/server.hpp:1616-1646 | The moving output pointer writes exactly the tuples of the collected attributes. |
| `FindInformationHandler.HandleFindInformation` | bluetoe/server.hpp:993-1029 | The output bytes are those of the response that FindInformationAnswers.RequestIsAnswered and MalformedRequestIsRefused describe. |
| `ChannelMap.UnmappedIsPermutation` | bluetoe/link_layer/channel_map.cpp:48-60 | For every valid hop increment the 37 unmapped channels are a permutation of all channels. |
| `ChannelMap.ChannelOccurrences` | bluetoe/link_layer/channel_map.cpp:48-60 | In the 37 slots the k-th used channel comes up once, and once more for every unused channel whose remainder modulo the number of used channels is k. |
| `ChannelMap.ChosenIsUsed` | bluetoe/link_layer/channel_map.cpp:50-57 | Only used channels are chosen. |
| `ChannelMap.UsedIs` | bluetoe/link_layer/channel_map.cpp:17-31 | The list holds exactly the channels of the map, in ascending order. |
| `ChannelMap.InMapIs` | bluetoe/link_layer/channel_map.cpp:12-15 | Channel c is used if and only if bit c of the number that the five bytes stand for, lowest byte first, is set. |
| `ChannelMap.ChannelMap.BuildUsedChannelMap` | bluetoe/link_layer/channel_map.cpp:17-31 | The loop fills the array with the list of used channels. |
| `ChannelMap.ChannelMap.Reset` | bluetoe/link_layer/channel_map.cpp:33-63 | Accepted exactly for an increment from 5 to 16 and at least two channels; then slot i is channel selection algorithm #1 for unmapped channel hop * (i + 1) mod 37 (section 4.5.8.2 of Core Spec Vol 6 Part B). A refused map leaves the sequence of the last accepted one, but not the increment. |
| `ChannelMap.ChannelMap.ResetMap` | bluetoe/link_layer/channel_map.cpp:65-68 | A new map with the increment in use; before an increment was accepted every map is refused. |
| `ChannelMap.ChannelMap.DataChannel` | bluetoe/link_layer/channel_map.cpp:70-74 | After any sequence of resets, accepted or refused, the channel of a slot is the one that channel selection algorithm #1 chooses for the last accepted map and increment, and that map uses it. |
| `PairingCmac.LeftShift` | bluetoe/bindings/nordic/nrf52/security_tool_box.cpp:214-228 | The loop with its carry is doubling modulo 2^128. |
| `PairingCmac.SubkeysAre` | bluetoe/bindings/nordic/nrf52/security_tool_box.cpp:230-254 | K1 and K2 are the subkeys of section 2.3 of RFC 4493, for every key and every block cipher, under byte reversal. |
| `Cmac.XorByteIs` | bluetoe/bindings/nordic/nrf52/security_tool_box.cpp:91-104 | Each bit of the result is set if and only if the two bits differ. |
| `PairingFunctions.F4IsCmac` | bluetoe/bindings/nordic/nrf52/security_tool_box.cpp:256-271 | f4 is AES-CMAC of section 2.4 of RFC 4493 over the concatenation of U, V and Z, for all inputs and every block cipher, under byte reversal. |
| `PairingFunctions.F5KeyIs` | bluetoe/bindings/nordic/nrf52/security_tool_box.cpp:289-299 | The key of f5 is AES-CMAC of the shared secret under the salt. |
| `PairingFunctions.F5CmacIs` | bluetoe/bindings/nordic/nrf52/security_tool_box.cpp:273-287 | The four blocks of the buffer are chained as AES-CMAC of the text of 53 bytes. |
| `PairingFunctions.F5` | bluetoe/bindings/nordic/nrf52/security_tool_box.cpp:301-338 | MAC key and long term key are AES-CMAC over the concatenation of counter, "btle", N1, N2, A1, A2 and 256, for the counters 0 and 1, although the fields overlap the blocks of one reused buffer. |
| `PairingFunctions.F6` | bluetoe/bindings/nordic/nrf52/security_tool_box.cpp:340-367 | f6 is AES-CMAC over the concatenation of N1, N2, R, IOcap, A1 and A2. |
| `PairingFunctions.G2IsCmac` | bluetoe/bindings/nordic/nrf52/security_tool_box.cpp:369-382 | g2 is AES-CMAC over the concatenation of U, V and Y, modulo 2^32. |
| `PairingCmac.AesInScratch` | bluetoe/bindings/nordic/nrf52/security_tool_box.cpp:58-84 | Through the scratch memory of 48 bytes, filled with reversed copies of key and data, the result is that of the block cipher under byte reversal, and the key does not stay behind. |
| `LongRead.Copy` | bluetoe/scattered_access.hpp:10-20 | For every signed offset: what is left of the piece behind the offset is copied as far as there is room. |
| `LongRead.ScatteredReadAccess` | bluetoe/scattered_access.hpp:22-34 | The three pieces are read as a slice of their concatenation, for every offset and buffer size. |
| `LongRead.ReadDeclaration` | bluetoe/characteristic.hpp:298-338 | A declaration with a UUID of its own is read as a slice of properties, handle and UUID; an offset behind it is refused without output. |
| `LongRead.ReadValue` | bluetoe/characteristic_value.hpp:443-466 | A constant string is read as a slice; an offset behind it is refused without output. User descriptions and descriptors share this access. |
| `LongRead.ReadFixedValue` | bluetoe/characteristic_value.hpp:361-381 | A fixed number of any sign is read as a slice of its bytes, each computed by shifting; an offset behind it is refused without output. |
| `LongRead.FixedValueStandsForNumber` | bluetoe/characteristic_value.hpp:339-345 | The bytes of a fixed number, lowest first, stand for that number, if it fits the size of its type, and for a negative one in two's complement. |
| `LongRead.HandleReadBlob` | bluetoe/server.hpp:1139-1161 | The output bytes are those of the response that LongRead.ReadBlobAnswers describes. |
| `LongRead.ReadBlobAnswers` | bluetoe/server.hpp:1139-1161 | For every request, table and link: the bytes of the value from the offset on, as far as they fit, if and only if the handle is known, the link is encrypted where the attribute requires it, the attribute can be read, and the offset is not behind its value; otherwise the five bytes of the error of the first of these that fails, and no byte of the value. |
| `LongRead.ReadLongIsValue` | bluetoe/server.hpp:1139-1161 | For every attribute that the link may read and every MTU of at least 23, reading at offsets advanced by MTU-1 until a short response ends and concatenates to exactly the value (section 4.8.3 of Core Spec Vol 3 Part G). |
| `TwoClock.SplitIsExact` | bluetoe/bindings/nordic/nrf52/nrf52.cpp:742-750 | For every time and tick rate, ticks and microseconds together are the time, less than one microsecond late and never early, and the microseconds are not more than one tick rounded up. |
| `TwoClock.SetupLongDistanceTimer` | bluetoe/bindings/nordic/nrf52/nrf52.cpp:610-634 | The compare values are those of ticks and microseconds that enable the radio at the intended time or less than a microsecond later, as long as that does not wrap around; the slow clock's ones in their 24 bits, the start register of the fast timer never 0. |
| `TwoClock.ComparedAt` | bluetoe/bindings/nordic/nrf52/nrf52.cpp:628-629 | Within one round of the counter behind the anchor, it meets the compare value exactly at the planned tick. |
| `TwoClock.NowIsClose` | bluetoe/bindings/nordic/nrf52/nrf52.cpp:536-550 | Across one wrap of the 24-bit counter the result is within one microsecond of the time since the anchor, unless it is clamped to 0. |
| `TwoClock.DistanceIsExact` | bluetoe/bindings/nordic/nrf52/nrf52.cpp:557-563 | The wrapped distance is exact for a plan 1 to 2^24 ticks ahead. |
| `TwoClock.CanStopIff` | bluetoe/bindings/nordic/nrf52/nrf52.cpp:552-578 | For a plan less than half the counter's range away, ahead or in the past, the event can be stopped if and only if it is ahead and at least a microsecond more than the margin away. |
| `TwoClock.StopTimeIsClose` | bluetoe/bindings/nordic/nrf52/nrf52.cpp:572-575 | The time answered for an event that can be stopped is the margin behind the time since the anchor, less than one microsecond away, across a wrap of the counter. |

## Left out

- Hardware registers, interrupts, PPI wiring, random numbers and elliptic curves; the AES engine is a parameter.
- Interleaving of queue operations with interrupts: every operation is one step.
- Bootloader restarts and the version, sizes, stop, CRC and read commands while pages are queued, and the delivery of progress notifications.
- Widths of addresses and of the bootloader's counters, except the 16-bit number of a buffer.
- The computation of priorities from UUID lists (`bluetoe/outgoing_priority.hpp:159-273`): every assignment of priorities is covered instead.
- FlashTheorems.SessionFlashesWhatWasSent: speaks of runs with a handler that reads memory and without a page reopened while queued, because it is false of others; FlashTheorems.SessionIsRightIff and FlashTheorems.EarlySessionIsRightIff give the exact conditions for those.
- FlashWrites.StartedInv: a session starts with no page queued; a start while pages of an earlier session are queued is not modelled.
- AttributeHandles.HandlesAreValidAndIncrease: handles are unbounded numbers, so that what the code does with a table whose handles do not fit 16 bits (AttributeHandles.HandlesFitIff) is not modelled; services with includes are excluded, because the code's mapping fails there.
- NotificationHandles.UuidFindsValueHandle: like the mapping itself, only for services without includes.
- FindInformationHandler.HandleFindInformation: takes the UUIDs from a list; the code reads a 128-bit UUID out of the declaration in front of the value.
- LongRead.ReadDeclaration: only UUIDs of the characteristic's own; generated UUIDs are not modelled.
- WriteServer.Server.Access: configuration descriptors, value handlers and mixed-in writers are not modelled, nor two handles bound to one variable.
- NotificationTheorems.OutputSendsDelivery: the value's bytes in the PDU are not modelled, only which kind and index is sent and when.
- NotificationPriority.HigherPriorityIsServedFirst: speaks of servers that can have a queue at all, which are those of NotificationPriority.QueueExistsIff.
- LongRead.HandleReadBlob: attributes whose value is read by copying; read handlers of the user and configuration descriptors are not modelled.
- Read By Type, Read By Group Type, Find By Type Value, Read Multiple, exchange of the MTU, and access checks of the client's subscriptions.
- The legacy pairing functions c1 and s1, key generation, and the decision logic of pairing.
- Advertising, the link layer's scheduling, ring buffers, connection parameter updates, and the other services and examples.
