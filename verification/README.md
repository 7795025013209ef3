# MDRS: a verified model of the market-data receiver

MDRS receives exchange market data on one thread and parses it on another. The IO thread takes
checksummed frames off a byte stream and pushes them into a lock-free ring; the business thread pops them,
decodes packed big-endian structs and updates a ten-million-slot table in shared memory; the main thread may
dump or clear that table meanwhile. The model follows that code, part by part:

* `SpscRing`, `SpscRingTheorems`, `RingDrain`: the ring as two threads of atomic steps under release/acquire
  views. Every index keeps its modification order and a load may return any message not older than what its
  thread has seen; a slot keeps every write and a read may return any write not hidden by happens-before.
  `RingQueue` is the same code as an object used by one thread at a time, `MutexQueue` the queue it replaces,
  `Modular` the wrapping indices.
* `ShmImage`, `ShmStorage`: the sparse table with its dense index, as memory and as an insertion-ordered map.
  `ParserSpec`, `ParserFields`, `MdParser`: what parsing does to that map. `StoreInterleaving`: the same parse one unlocked
  field write at a time, against clears and dumps by another thread, on memory an earlier process left.
  `StoreClears` and `StoreRuns`: what a clear leaves of the messages, and runs that reach the failing cases.
  `StoreRestart`: the stores of a set one by one, a kill anywhere, and what the next process finds.
* `XsheTypes`, `ByteOrder`, `Codec`, `CodecRoundTrip`, `CodecLayout`, `Deserialize`: packed layouts, byte swaps,
  decoders, and where each field lies on the wire.
* `Checksum`, `Framing`, `Session`, `Login`: checksum, frames on a stream, chunked receives, logon and logout.
* `Business`, `Pipeline`, `PipelineTheorems`: routing, and the whole receiver over every interleaving.
* `IniText`, `IniStore`, `IniReader`: the configuration reader over its in-place line buffer.
* `IoThread`: the connect, logon and receive loops against an arbitrary environment.

## What the proofs found

* The comment at MDRS/myPub/myFIFOQueueNL.h:20 says one slot more is allocated; the code allocates none. The
  usable capacity is `capacity_ - 1`, and the model follows the code.
* The done flag of the queue tests must be ordered. Every run that leaves the consumer's loop has popped every
  item exactly when the flag has release/acquire semantics, or nothing is produced, or the ring has a single slot
  and accepts nothing (`RingDrain.DrainsIff`); a plain `volatile int` orders nothing.
* `SendLogon` and `SendLogout` hand `appendTail` the end of the body as its buffer, so the checksum lands behind
  the bytes that are sent and the sent tail is zero. A receiver with this program's own checks accepts such a
  frame exactly when type, length and body bytes add up to a multiple of 256 (`Login.SentAcceptedIff`), and
  never accepts the logout frame (`Login.SentLogoutRejected`).
* The Hong Kong decoder does not zero the entries beyond its count; it does exactly when there are none or the
  message carries no window (`Deserialize.UnusedEntriesZeroIff`).
* `checkBufferLength` adds in 32 bits, so it also passes the twelve largest lengths
  (`Checksum.CheckBufferLengthExact`), and it runs after the body has been received. Receiving stays inside its
  buffer exactly when no more than the buffer's size is pending or the announced length is at most 4084
  (`Session.RecvFrame` with `Framing.Fits`); a longer frame is never delivered (`Framing.LongFrameNotDelivered`), and
  where receiving stays inside, the length test never fails.
* The Hong Kong struct has room for one window, but the length test accepts any count. The copy stays inside the
  struct exactly when 20 bytes for each entry and 16 for each window come to at most 616
  (`CodecRoundTrip.HkFitsIff`; `HkTooLong` for the messages that do not); then the first window is decoded however many there are.
* The restart check mistakes key 0: it keeps a consistent store exactly when slot 0 is free or the table is full
  (`ShmImage.AttachExact`). Keys of the two markets are never 0, so what the parser adds survives. The check is no
  full one either: what it leaves is consistent exactly when it refuses the memory, or the size word is in range,
  no slot is listed twice and no valid slot is unlisted, none of which it tests (`ShmImage.AttachConsistentIff`).
* The line the restart check prints about a refused entry reads the record that entry names, whatever it is. The
  check stays inside the table exactly when it refuses nothing or the first entry it refuses is in range
  (`ShmStorage.ShmStorage.constructor` with `ShmImage.ScanInBounds`); memory any process of this program left,
  killed or not, never leads it out.
* A process killed in a clear, once the first slot is cleared, leaves the next one valid records that no index
  entry lists, and such a kill is possible from every state with a record above slot 0
  (`StoreRestart.ClearMayBeKilled`); nothing short of a clear lists them again (`ShmImage.UnlistedStaysUnlisted`).
  One killed between the valid flag and the record of a new key leaves a listed record without its codes
  (`StoreRestart.SetMayBeKilled`); one killed behind the index entry of a key other than 0, or behind the size word,
  loses the whole table. `StoreRestart.RestartAfterKill` gives the exact conditions for every state.
* A message cut by a clear can leave a record without its time (`StoreRuns.TimeLost`). After a clear a record's time,
  like each of its prices, is what its messages say last exactly when a save call that sets it reached the table
  after the clear, or when that is 0 (`StoreClears.AfterClear`).
* A market status with a sub id the dictionary does not know ends the business thread, and none that it knows does
  (`Business.BusinessThread.Route`).
* A name asked for that holds '=' may meet another section's entry; a lookup stands for its own section and name
  alone exactly when the name holds none (`IniStore.LookupExactIff`).
* `savePx` narrows a 64-bit price to `int`; the model wraps it. `loadPx` never writes its reference parameter.
* `try_pop_v_np` clears the caller's vector on an empty wake-up, the other batch pop does not.

## Model

| member | source | states |
|---|---|---|
| SpscRing.StepInv | MDRS/myPub/myFIFOQueueNL.h:35-157 | every atomic step of either thread, with arbitrarily stale acquire loads, keeps the invariant that ties indices, views, slots and call histories together |
| SpscRing.FullTestExact | MDRS/myPub/myFIFOQueueNL.h:70-77 | comparing wrapped indices decides the true distance: equal exactly when cap-1 items separate the counters |
| SpscRing.EmptyTestExact | MDRS/myPub/myFIFOQueueNL.h:105-111 | wrapped indices are equal exactly when the counters are |
| SpscRing.PushLoadReadInv | MDRS/myPub/myFIFOQueueNL.h:72-77 | the full test under a stale read index keeps the invariant and refuses exactly when the observed counter is cap-1 behind |
| SpscRing.PushWriteSlotInv | MDRS/myPub/myFIFOQueueNL.h:79-80 | the slot write keeps every unpopped item in its slot |
| SpscRing.PushStoreInv | MDRS/myPub/myFIFOQueueNL.h:82-83 | the release store publishes exactly the written value |
| SpscRing.PopLoadWriteInv | MDRS/myPub/myFIFOQueueNL.h:106-111 | the empty test under a stale write index keeps the invariant and fails exactly when the observed counter is the reader's own |
| SpscRing.ReadIsExact | MDRS/myPub/myFIFOQueueNL.h:113-114 | of all writes ever made to the slot, the read can only return the oldest unpopped item |
| SpscRing.PopStoreInv | MDRS/myPub/myFIFOQueueNL.h:116-118 | releasing the slot hands the reads made from it to the next producer |
| SpscRing.FullLoadWriteInv | MDRS/myPub/myFIFOQueueNL.h:42-48 | full() keeps the invariant and returns false exactly when there is room below what it observed |
| SpscRing.EmptyLoadWriteInv | MDRS/myPub/myFIFOQueueNL.h:35-39 | empty() keeps the invariant and returns false exactly when an item is visible |
| SpscRing.FrontReadSlotInv | MDRS/myPub/myFIFOQueueNL.h:147-157 | front() keeps the invariant and what it returns is the oldest item |
| SpscRingTheorems.RingSafety | MDRS/myPub/myFIFOQueueNL.h:69-120 | in every reachable state at most cap-1 items are in flight, each in its own slot; popped then in-flight items are the accepted ones in order; no unread slot is overwritten and no slot access races |
| SpscRingTheorems.InvRaceFree | MDRS/myPub/myFIFOQueueNL.h:80-83 | a pending slot write happens after every read of that slot and never meets a pending read of it |
| SpscRingTheorems.RefinesFifo | MDRS/myPub/myFIFOQueueNL.h:69-120 | every step is one operation of a plain FIFO queue or none, and a pop returns what that queue hands out |
| SpscRingTheorems.RefusalExact | MDRS/myPub/myFIFOQueueNL.h:70-77 | when a push is refused: always if full, and only if full when its load is fresh |
| SpscRingTheorems.EmptyPopExact | MDRS/myPub/myFIFOQueueNL.h:105-111 | when a pop fails: exactly when the queue is empty if its load is fresh |
| SpscRingTheorems.RoomPromiseKept | MDRS/myPub/myFIFOQueueNL.h:42-48 | after full() == false the producer's next push is not refused, whatever it loads |
| SpscRingTheorems.ItemPromiseKept | MDRS/myPub/myFIFOQueueNL.h:35-39 | after empty() == false or a successful front() the consumer's next pop succeeds |
| SpscRingTheorems.PromisesStable | MDRS/myPub/myFIFOQueueNL.h:35-48 | no step of the other thread takes these promises back |
| SpscRingTheorems.FrontIsNextPop | MDRS/myPub/myFIFOQueueNL.h:147-157 | the value front() returned is the one the next pop returns |
| SpscRingTheorems.NeverRefusesIff | MDRS/myPub/myFIFOQueueNL.h:70-77 | the first k pushes are accepted on every schedule exactly when k is at most capacity-1; for more there is a run that refuses one |
| SpscRingTheorems.SizeExact | MDRS/myPub/myFIFOQueueNL.h:51-60 | the wrapped difference is the distance of two counters less than the capacity apart, however often they wrapped |
| SpscRingTheorems.SizeByProducer | MDRS/myPub/myFIFOQueueNL.h:51-60 | size() called by the producer, whatever the consumer does between its two loads and however stale the second: never below the number of items queued, always below the capacity |
| SpscRingTheorems.SizeByConsumer | MDRS/myPub/myFIFOQueueNL.h:51-60 | size() called by the consumer, whatever the producer does between its two loads: never above the number of items queued, and counts every item it has been shown |
| SpscRingTheorems.SoloPush | MDRS/myPub/myFIFOQueueNL.h:69-85 | a producer running alone with fresh loads does what the sequential queue's push does |
| SpscRingTheorems.SoloPop | MDRS/myPub/myFIFOQueueNL.h:104-120 | a consumer running alone with fresh loads does what the sequential queue's pop does |
| RingDrain.DrainComplete | MDRS/ut/queueNLTest.cpp:25-36 | with an ordered done flag, over every run the popped items are a prefix of the produced ones, and all of them once the consumer has left its loop |
| RingDrain.DrainsIff | MDRS/ut/queueNLTest.cpp:65-78 | for every capacity and list: every run that leaves the loop has popped every item exactly when the flag is ordered, the list is empty or there is one slot only |
| RingDrain.LosingRun | MDRS/ut/queueNLTest.cpp:25-36 | otherwise there is such a run: all items but the last are pushed and popped in turn and the last is lost |
| RingDrain.LastPushMayBeLost | MDRS/ut/queueNLTest.cpp:34 | wherever the last push is about to write and the consumer has popped all it has seen, the push can complete, raise the flag and leave its item behind |
| RingDrain.StaleConsumerMayLeave | MDRS/ut/queueNLTest.cpp:69 | without ordering a raised flag lets a consumer that sees an old write index leave at once |
| RingQueue.MyFifoQueueNL.constructor | MDRS/myPub/myFIFOQueueNL.h:19-25 | an empty queue over capacity slots, no extra one |
| RingQueue.MyFifoQueueNL.Push | MDRS/myPub/myFIFOQueueNL.h:69-100 | accepts exactly below capacity-1 items and appends; otherwise changes nothing |
| RingQueue.MyFifoQueueNL.Pop | MDRS/myPub/myFIFOQueueNL.h:104-120 | succeeds exactly on a non-empty queue, returns and removes the oldest item |
| RingQueue.MyFifoQueueNL.TryPop | MDRS/myPub/myFIFOQueueNL.h:123-144 | the timed loop ends with what was queued or, if nothing was, with what first arrives before the clock reaches the timeout: the oldest item is returned and removed |
| RingQueue.AtEndEmpty | MDRS/myPub/myFIFOQueueNL.h:127-143 | it fails exactly when nothing was queued and nothing arrived in time, or had room |
| RingQueue.AtEndFirst | MDRS/myPub/myFIFOQueueNL.h:127-143 | it ends with what was queued, or else with what first arrives in time, as much of it as there is room for |
| RingQueue.MyFifoQueueNL.Front | MDRS/myPub/myFIFOQueueNL.h:147-157 | the oldest item, which stays |
| RingQueue.MyFifoQueueNL.Full | MDRS/myPub/myFIFOQueueNL.h:42-48 | true exactly with capacity-1 items |
| RingQueue.MyFifoQueueNL.Empty | MDRS/myPub/myFIFOQueueNL.h:35-39 | true exactly with no item |
| RingQueue.MyFifoQueueNL.Size | MDRS/myPub/myFIFOQueueNL.h:51-60 | the number of items |
| RingQueue.MyFifoQueueNL.Clear | MDRS/myPub/myFIFOQueueNL.h:63-66 | no item is left |
| MutexQueue.MyFifoQueue.Pop | MDRS/myPub/myFIFOQueue.cpp:19-27 | over the queue's whole life the k-th pop that succeeds returns the k-th item pushed, and a pop fails only when every pushed item has been popped |
| MutexQueue.MyFifoQueue.ConsumerThreadFuncPop | MDRS/ut/queueNLTest.cpp:50-63 | the loop on done flag and empty(), with pushes between its iterations until the flag goes up, handles every item in order and leaves none |
| MutexQueue.MyFifoQueue.TryPop | MDRS/myPub/myFIFOQueue.cpp:30-71 | the same with what arrives during the wait: the next item never popped before, or a timeout only if there is none |
| MutexQueue.MyFifoQueue.TryPopNp | MDRS/myPub/myFIFOQueue.cpp:74-99 | the same for a wait without predicate, timed out or woken for nothing |
| MutexQueue.MyFifoQueue.TryPopBatch | MDRS/myPub/myFIFOQueue.cpp:102-121 | gets what popping one by one would, the vector untouched on a timeout |
| MutexQueue.MyFifoQueue.TryPopBatchNp | MDRS/myPub/myFIFOQueue.cpp:124-151 | the same, but the vector is cleared by an empty wake-up |
| ShmImage.SetRefines | MDRS/myPub/shmStorage.h:100-109 | set always has room in the index, keeps the representation invariant and is insertion into an insertion-ordered map |
| ShmImage.RoomForNewKey | MDRS/myPub/shmStorage.h:103-106 | by the pigeonhole principle the index never overflows |
| ShmImage.WriteRefines | MDRS/XSHEMdParser.cpp:47 | a write through a record pointer reaches the map only while the key is present |
| ShmImage.VisitsInOrder | MDRS/myPub/shmStorage.h:146-153 | forEach visits each key's value exactly once, in first-insertion order |
| ShmImage.RunRefines | MDRS/myPub/shmStorage.h:67-153 | over every run of set, pointer write, clear and re-attach the memory is that map and stays consistent |
| ShmImage.AttachExact | MDRS/myPub/shmStorage.h:67-91 | the restart check keeps consistent memory exactly when slot 0 is free or every slot is used; otherwise it empties it, consistently |
| ShmImage.AttachIdempotent | MDRS/myPub/shmStorage.h:67-91 | behind a check that stayed inside the table a second attach does too and changes nothing |
| ShmImage.ConsistentInBounds | MDRS/myPub/shmStorage.h:71-87 | on consistent memory the check stays inside the table |
| ShmImage.FirstEntryOutOfBounds | MDRS/myPub/shmStorage.h:74-82 | on memory whose first entry names a record beyond the table it does not, whatever else is there |
| ShmImage.AttachConsistentIff | MDRS/myPub/shmStorage.h:67-91 | on any memory on which the check stays inside the table: what it leaves is consistent exactly when it refuses it, or the size word is in range, no slot is listed twice and every valid slot is listed; memory it keeps never leads it out |
| ShmImage.ScanMissesEach | MDRS/myPub/shmStorage.h:71-87 | each of these three can fail alone without the check noticing |
| ShmImage.UnlistedStaysUnlisted | MDRS/myPub/shmStorage.h:100-109 | a valid slot that is not listed is never listed by a later set or write, of that key or another |
| ShmImage.KeyZeroLostOnRestart | MDRS/myPub/shmStorage.h:80 | a store holding only key 0 is emptied by a restart |
| ShmStorage.ShmStorage.constructor | MDRS/myPub/shmStorage.h:53-92 | says whether the scan stays inside the table, its printed lines included: exactly if no position is refused or the first refused entry is in range; then it keeps the memory if every position passes and zeroes it otherwise |
| ShmStorage.ShmStorage.Set | MDRS/myPub/shmStorage.h:100-109 | insertion into the ordered map, the other records untouched |
| ShmStorage.ShmStorage.Get | MDRS/myPub/shmStorage.h:112-120 | lookup in the map |
| ShmStorage.ShmStorage.GetPtr | MDRS/myPub/shmStorage.h:122-131 | a pointer to the key's own slot, null exactly for absent keys |
| ShmStorage.ShmStorage.Clear | MDRS/myPub/shmStorage.h:133-138 | the empty map, consistently represented |
| ShmStorage.ShmStorage.Size | MDRS/myPub/shmStorage.h:140-143 | the number of keys, at most the number of slots |
| ShmStorage.ShmStorage.ForEach | MDRS/myPub/shmStorage.h:146-153 | the records passed on are the map's values in first-insertion order |
| ParserSpec.KeysDistinct | MDRS/XSHEMdParser.cpp:17-21 | two stocks share a key exactly when market and code are equal, so the two markets never collide |
| ParserSpec.StockCodeFitsInt | MDRS/myPub/utility.cpp:83-95 | the code read from an eight-character field fits the int accumulator |
| ParserSpec.StockCodeOfRender | MDRS/myPub/utility.cpp:83-95 | a code written with leading zeros is read back |
| ParserSpec.StockCodeDigits | MDRS/myPub/utility.cpp:83-95 | each further digit counts the code before it ten times, and the first character that is no digit ends it |
| ParserSpec.ParseIntoEffect | MDRS/XSHEMdParser.cpp:101-153 | one message changes only its own key: it stamps codes and times and sets exactly the prices it quotes |
| ParserSpec.LastPriceMeaning | MDRS/XSHEMdParser.cpp:111-124 | the recursive last price is the narrowed price of the latest matching entry, the earlier price if there is none |
| ParserSpec.ParseAllLastValue | MDRS/XSHEMdParser.cpp:101-153 | whatever the table held, after any message sequence every stock holds the last price of each entry type and the time of its last message, stocks without one are as before, and no other key is added |
| ParserSpec.ParseAllKeys | MDRS/XSHEMdParser.cpp:17-21 | every key added is the key of some message |
| ParserSpec.ParsedSurvivesRestart | MDRS/myPub/shmStorage.h:80 | what messages of non-zero markets make of any consistent memory a restart has kept or emptied is kept by the next restart |
| ParserSpec.ParseIntoKeepsCodes | MDRS/XSHEMdParser.cpp:83-99 | every record carries the codes of its key, before and after a message |
| ParserFields.SzParsedIff | MDRS/XSHEMdParser.cpp:101-126 | a table is the one parsing a 300111 makes exactly if its fields are right: only the record of 2000000 + code written, with codes and times, and each price that of the last entry of its type digit at level 0 or 1, or what it was |
| ParserFields.HkParsedIff | MDRS/XSHEMdParser.cpp:128-153 | the same for 306311 and 9000000 + code |
| MdParser.FixedCharToInt | MDRS/myPub/utility.cpp:83-95 | the accumulator loop gives the decimal value of the leading digits |
| MdParser.MDParser.constructor | MDRS/XSHEMdParser.cpp:14-15 | attaches to whatever memory is there; consistent memory stays consistent |
| MdParser.MDParser.GetElement | MDRS/XSHEMdParser.cpp:28-34 | the slot of a stock, null for absent stocks and codes out of range |
| MdParser.MDParser.SavePx | MDRS/XSHEMdParser.cpp:37-51 | sets one price, making the record if absent; -2 and no change for a code out of range |
| MdParser.MDParser.SaveOrigTime | MDRS/XSHEMdParser.cpp:65-81 | sets both times likewise |
| MdParser.MDParser.SaveMktStkCode | MDRS/XSHEMdParser.cpp:83-99 | sets both codes likewise |
| MdParser.MDParser.Parse | MDRS/XSHEMdParser.cpp:101-126 | the calls and the entry loop have the effect whose last-value meaning is proved; 1 and no change for a code out of range |
| MdParser.MDParser.ParseQuotes | MDRS/XSHEMdParser.cpp:111-124 | the entry loop saves exactly the entries with a digit type and level at most 1, in order, each narrowed to int |
| MdParser.MDParser.ParseSz | MDRS/XSHEMdParser.cpp:101-126 | over the fields of the message: below 1000000 only the record of 2000000 + code changes, to market 2, the code, the message's OrigTime and the clock; each price is the narrowed MDEntryPx of the last entry of its type digit at level 0 or 1, what it was if there is none, 0 in a new record; otherwise 1 and no change |
| MdParser.MDParser.ParseHk | MDRS/XSHEMdParser.cpp:128-153 | the same over the fields of a 306311, market 9 and key 9000000 + code |
| MdParser.MDParser.LoadPx | MDRS/XSHEMdParser.cpp:53-63 | the price is the return value, and the reference parameter keeps its value |
| MdParser.MDParser.Dump | MDRS/XSHEMdParser.cpp:163-200 | one record after another in first-insertion order, with codes, times and the six printed prices; the key lines are the keys themselves when the records carry their codes |
| StoreInterleaving.StepInv | MDRS/XSHEMdParser.cpp:28-99 | every step of a parse, clear or dump, field by field, keeps the index consistent |
| StoreInterleaving.StepCodes | MDRS/XSHEMdParser.cpp:28-99 | and the codes of every record those of its key |
| StoreInterleaving.ReachableConsistent | MDRS/myPub/shmStorage.h:100-153 | from any consistent memory, in every reachable state outside a clear the index is consistent, and every valid slot carries the codes of its own key if those found did |
| StoreInterleaving.DumpExact | MDRS/XSHEMdParser.cpp:177-182 | a dump, interrupted by field writes anywhere, writes exactly the keys present, each once, in order |
| StoreInterleaving.ClearEmpties | MDRS/myPub/shmStorage.h:133-138 | a clear ends with the empty map whatever was written into it meanwhile |
| StoreInterleaving.StoreNeverBlocked | MDRS/XSHEMdParser.cpp:41-45 | a set after a null pointer always finds room, even when a clear came between |
| StoreInterleaving.FinishConstant | MDRS/XSHEMdParser.cpp:37-99 | no step but a clear or a new message changes the map the parse in progress is heading for; that of the save in progress changes only when a save begins, by that save |
| StoreInterleaving.SavesAreParse | MDRS/XSHEMdParser.cpp:101-126 | the separate save calls of a message add up to its parse |
| StoreInterleaving.InterleavedParseIsSequential | MDRS/XSHEMdParser.cpp:101-153 | without a clear the table between parses is the sequential fold of the messages from the memory attached to, however steps interleave |
| StoreInterleaving.TableSinceClear | MDRS/myPub/shmStorage.h:133-138 | with clears it is, between saves, the fold of the save calls since the last clear ended: from the empty map if one has ended, otherwise from the memory attached to |
| StoreClears.SavedField | MDRS/XSHEMdParser.cpp:37-99 | after any save calls a stock has a record exactly if it had one or a call is for it, and time and prices are what the last call that sets them says, or what they were |
| StoreClears.CallsOfMessages | MDRS/XSHEMdParser.cpp:101-153 | the save calls of any messages set a field last to what the messages say of it last |
| StoreClears.AfterClear | MDRS/myPub/shmStorage.h:133-138 | between parses after a clear: the calls that reached the table are the last of all calls of all messages, a stock has a record exactly if one is for it, and a field is what its messages say last exactly when one of these calls set it or that is 0 |
| StoreRuns.TimeLost | MDRS/XSHEMdParser.cpp:101-126 | on any memory and for every message with a usable price: a clear between its time and its prices leaves a record with time 0 |
| StoreRuns.FullClear | MDRS/myPub/shmStorage.h:133-138 | a clear can run through whenever the lock is free |
| StoreRestart.StepRefines | MDRS/myPub/shmStorage.h:103-108 | the stores of set, the record's fields among them, are one step of the coarser machine |
| StoreRestart.RunRefines | MDRS/myPub/shmStorage.h:100-109 | every run with single stores, its set completed, is a run of the coarser machine |
| StoreRestart.KeptExact | MDRS/myPub/shmStorage.h:67-91 | killed in any state, the next process keeps the memory exactly under a condition on slot 0, the index and how far set or clear had come |
| StoreRestart.ConsistentExact | MDRS/myPub/shmStorage.h:67-91 | and works on a consistent store unless the kill fell into a clear, the memory is kept and a record is left in it |
| StoreRestart.CodesExact | MDRS/myPub/shmStorage.h:107-108 | and, outside clears, on records with their own codes unless the kill fell between the valid flag and the end of the copy of a new key's record and what lay there did not fit |
| StoreRestart.RestartAfterKill | MDRS/myPub/shmStorage.h:67-138 | the three together for every run from sound memory, killed after any step; the next check stays inside the table |
| StoreRestart.KeptContent | MDRS/XSHEMdParser.cpp:101-153 | without a clear, killed after any step and kept: every stock but the one in progress has what parsing the messages begun makes of the memory found |
| StoreRestart.KilledInClear | MDRS/myPub/shmStorage.h:133-138 | behind the first slot of a clear every kill with a record left leaves an inconsistent store that is kept |
| StoreRestart.ClearMayBeKilled | MDRS/myPub/shmStorage.h:133-138 | from every state with the lock free and a record above slot 0 there is a run to such a kill, that record still there and not listed |
| StoreRestart.KilledInSet | MDRS/myPub/shmStorage.h:107-108 | a kill behind the valid flag of a new key leaves a listed record of zeros that is kept |
| StoreRestart.SetMayBeKilled | MDRS/myPub/shmStorage.h:103-108 | from every idle state there is such a run for every message about a stock whose slot was never written |
| ByteOrder.BswapInvolutions | MDRS/myPub/utility.h:11-17 | the three swap macros undo themselves |
| ByteOrder.HtnReverses | MDRS/myPub/utility.h:19-47 | loading, swapping and storing a word reverses its bytes, for 2, 4 and 8 bytes |
| ByteOrder.LeOfReverse | MDRS/myPub/utility.h:19-47 | so a little-endian host reads the big-endian value |
| ByteOrder.Weights | MDRS/myPub/utility.h:19-47 | one byte reads as itself; of two runs of bytes the first weighs more on the wire and the second on the host, by 256 for every byte of the other |
| ByteOrder.BeOfToBe | MDRS/myPub/utility.h:24-27 | big-endian writing is undone by reading |
| ByteOrder.ToBeOfBe | MDRS/myPub/utility.h:24-27 | and reading by writing |
| CodecRoundTrip.MDRoundTrip | MDRS/XSHEBusiness.cpp:84-114 | the packed encoding of any 300111 message passes the length test and reads back as the message, each field from its own place (with CodecLayout.MDEntryAt) |
| CodecRoundTrip.HkRoundTrip | MDRS/XSHEBusiness.cpp:117-159 | a 306311 message with any number of windows that its buffer holds passes the length test and reads back, all of it from the wire and its count and first window as the struct keeps them |
| CodecRoundTrip.StatRoundTrip | MDRS/XSHEBusiness.cpp:180-202 | the same for the channel statistics |
| CodecRoundTrip.MDBack | MDRS/XSHEBusiness.cpp:84-114 | every accepted 300111 body is the encoding of what is read from it, so nothing else is accepted (with CodecLayout.MDAccepted) |
| CodecRoundTrip.HkBack | MDRS/XSHEBusiness.cpp:117-159 | every accepted 306311 body that its buffer holds, with any number of windows, is the encoding of what is read from it |
| CodecRoundTrip.KeptIsHost | MDRS/XSHEBusiness.cpp:154-158 | what the decoder keeps of it is the message's prefix, entries, window count and first window |
| CodecRoundTrip.StatBack | MDRS/XSHEBusiness.cpp:180-202 | every accepted body of channel statistics likewise |
| CodecLayout.PrefixAt | MDRS/XSHETypes.h:86-98 | the fields messages 300111 and 306311 begin with, each from its own bytes of the body, and the count of entries from bytes 65 to 69 |
| CodecLayout.MDEntryAt | MDRS/XSHETypes.h:71-79 | entry i of a 300111 lies at 69 + 32 i: type, MDEntryPx, MDEntrySize, MDPriceLevel, NumberOfOrders and NoOrders, each a big-endian word of its own bytes, signed where declared |
| CodecLayout.HkEntryAt | MDRS/XSHETypes.h:100-105 | entry i of a 306311 lies at 69 + 20 i: type, MDEntryPx, MDEntrySize, MDPriceLevel |
| CodecLayout.WindowAt | MDRS/XSHETypes.h:107-111 | behind the entries a count and 16 bytes for each window: start, then end |
| CodecLayout.KeptVcmAt | MDRS/XSHEBusiness.cpp:137-158 | the host keeps the count and the first window, zeros if there is none |
| CodecLayout.StatEntryAt | MDRS/XSHETypes.h:148-159 | channel statistics: OrigTime, ChannelNo and count, then 15 bytes an entry, its StockNum at 3 to 7 |
| CodecLayout.StatusFields | MDRS/XSHETypes.h:133-146 | the twelve fields of a market status, each from its own bytes |
| CodecLayout.StatusCodes | MDRS/XSHEBusiness.cpp:84-202 | the return codes of the decoders from the counts on the wire: -1 above 30 entries, -2 for any other length than the counts make |
| CodecLayout.MDAccepted | MDRS/XSHEBusiness.cpp:84-114 | a 300111 body is accepted exactly when it is the encoding of a message, and decodes to that one |
| CodecLayout.HkAccepted | MDRS/XSHEBusiness.cpp:117-159 | the same for 306311, with what the struct keeps of the message |
| CodecLayout.StatAccepted | MDRS/XSHEBusiness.cpp:180-202 | the same for the channel statistics |
| Deserialize.DeserializeMD | MDRS/XSHEBusiness.cpp:84-114 | the struct filled by copy and in-place swaps holds, in host order, the message on the wire, whose fields CodecLayout places byte by byte; unused entries are zero; a rejected body leaves it untouched |
| Deserialize.DeserializeHk | MDRS/XSHEBusiness.cpp:117-159 | the same for 306311, the moved block included and the overlap with the copied block exact, whenever the copy stays inside the struct; it says whether it does |
| CodecRoundTrip.HkFitsIff | MDRS/XSHEBusiness.cpp:126-138 | an accepted body fits the struct exactly when its entries and windows come to at most 616 bytes |
| CodecRoundTrip.HkTooLong | MDRS/XSHEBusiness.cpp:126-138 | every message with more has an encoding that is accepted and does not fit |
| Deserialize.DeserializeStat | MDRS/XSHEBusiness.cpp:180-202 | the same for the channel statistics |
| Deserialize.DeserializeStatus | MDRS/XSHEBusiness.cpp:161-178 | the same for the market status, whose only test is its length |
| Deserialize.UnusedEntriesZeroIff | MDRS/XSHEBusiness.cpp:137-157 | exactly when the Hong Kong decoder leaves zeros behind its last entry |
| Checksum.SumStep | MDRS/myPub/utility.h:62 | neither sign extension nor 32-bit wrap changes the sum modulo 256 |
| Checksum.GenerateCheckSum | MDRS/myPub/utility.h:59-64 | the loop gives the sum of the unsigned bytes modulo 256 |
| Checksum.SumOfPermutation | MDRS/session.cpp:122-139 | the sum does not depend on byte order, so swapping the header first is harmless |
| Checksum.OneByteChange | MDRS/myPub/utility.h:59-64 | changing one byte always changes the checksum |
| Checksum.TailUnique | MDRS/myPub/utility.cpp:66-74 | exactly one tail is accepted |
| Checksum.CmpCheckSum | MDRS/myPub/utility.cpp:66-74 | 0 exactly when the four bytes of the tail, read big-endian, are the byte sum modulo 256, which is when appendTail would store them |
| Checksum.AppendTail | MDRS/myPub/utility.cpp:76-80 | stores four bytes right behind the given ones that read big-endian as their sum modulo 256, and touches nothing else |
| Checksum.CheckBufferLengthExact | MDRS/myPub/utility.cpp:58-64 | passes exactly body lengths up to 4084 and the twelve largest 32-bit ones |
| Framing.ReceiveSealed | MDRS/session.cpp:115-144 | one receive takes exactly one sealed frame of 12 + BodyLength bytes off the stream and gives it back |
| Framing.ReceivedIsSealed | MDRS/session.cpp:115-144 | and only a sealed frame is delivered |
| Framing.StreamDelivers | MDRS/session.cpp:115-163 | repeated receives over sealed frames yield exactly those frames |
| Framing.DeliversIsStream | MDRS/session.cpp:115-163 | and nothing else yields them |
| Framing.CorruptionDetected | MDRS/session.cpp:139-144 | one changed byte outside the length field is rejected, and the stream goes on behind the frame |
| Framing.LongFrameNotDelivered | MDRS/session.cpp:127-138 | a frame announcing more than 4084 bytes is never delivered: either the receive leaves its buffer or it fails for want of bytes |
| Framing.LongFrameExists | MDRS/session.cpp:129 | for every such length there are streams that lead the receive out of its buffer |
| Framing.ReceiveExact | MDRS/session.cpp:115-144 | a receive in numbers: type and length are the first two big-endian words, the expected tail is the byte sum of head and body modulo 256, return codes -1, -2, -4 and 0, and what is left of the stream |
| Framing.SealedLayout | MDRS/session.cpp:115-144 | the bytes of a sealed frame, one field after the other |
| Framing.ItemsSnoc | MDRS/session.cpp:147-163 | types 3 and 390095 give no item, every other frame one |
| Session.Socket.Recv | MDRS/myPub/utility.cpp:44 | recv hands over a non-empty part of what is pending, however the stream is cut |
| Session.MyRecv | MDRS/myPub/utility.cpp:40-56 | exactly the next len bytes whatever the cut, or a negative code when fewer come; it stays inside the buffer exactly when what it asks for, or what comes, fits |
| Session.SwapHeader | MDRS/session.cpp:123-124 | both header words reversed in place |
| Session.SwappedHeaderSameTail | MDRS/session.cpp:122-139 | the tail right for the swapped frame is the one right for the frame as received |
| Session.RecvFrame | MDRS/session.cpp:115-144 | stays inside the buffer exactly for the streams that fit, and there return code, frame and remaining stream are those of the framing specification |
| Session.RecvMsg | MDRS/session.cpp:115-178 | a received frame of a type other than 3 and 390095 is appended to the ring if there is room, and counted; heartbeats are only counted; a full ring and a failed receive leave the ring as it was |
| Session.ReceiveFrames | MDRS/XSHEThreadFuncs.cpp:36 | from bytes to the ring: n receives on the bytes of n sealed frames, however they are cut and whatever follows, leave exactly their items queued, in order, if there is room for all |
| Session.Dispatch | MDRS/session.cpp:147-163 | heartbeats are dropped and a refused push is ignored |
| Session.FuncStats.Count | MDRS/session.cpp:164-176 | the success count of one type goes up by one |
| Login.SendLogon | MDRS/session.cpp:12-32 | the bytes sent: head, body and a zero tail |
| Login.SendLogout | MDRS/session.cpp:65-81 | the same for the fixed logout body |
| Login.RecvLogin | MDRS/session.cpp:34-62 | -1 for a wrong type, length or checksum, -2 for a stream that ends early, otherwise 0 and the body, however the stream is cut |
| Login.LogonRoundTrip | MDRS/session.cpp:221-226 | the serialized logon body reads back, its integer in host order |
| Login.LogoutRoundTrip | MDRS/session.cpp:228-233 | the serialized logout body likewise |
| Login.LogonLayout | MDRS/XSHETypes.h:45-51 | sender, target, heartbeat interval, password and version, each at its own bytes |
| Login.LogoutLayout | MDRS/XSHETypes.h:60-63 | the status word, then the text |
| Login.SentLayout | MDRS/session.cpp:12-32 | type, length, body and four zero bytes where the checksum belongs |
| Login.AcceptExact | MDRS/session.cpp:34-62 | the three tests of a received logon or logout in numbers, with their return codes |
| Login.SealedLogonGivesBack | MDRS/session.cpp:207-226 | a correctly sealed logon frame is accepted and gives the same body back |
| Login.SealedLogoutGivesBack | MDRS/session.cpp:214-233 | a correctly sealed logout frame likewise |
| Login.OneByteRejected | MDRS/session.cpp:83-111 | changing any single byte of a sealed frame makes the receiver reject it |
| Login.SentAcceptedIff | MDRS/session.cpp:20-24 | a frame as actually sent is accepted exactly when type, length and body bytes sum to a multiple of 256 |
| Login.SentLogoutRejected | MDRS/session.cpp:65-74 | the logout frame as actually sent is never accepted |
| Business.MsgRouter.InitializeMsgHandlers | MDRS/XSHEBusiness.h:92-104 | the four message types, added to what was registered |
| Business.BusinessThread.HandleMDItem | MDRS/XSHEBusiness.h:42-52 | a 300111 item that carries the encoding of a message puts that message's record into the table; any other leaves it alone and fails |
| Business.BusinessThread.HandleHkItem | MDRS/XSHEBusiness.h:42-52 | the same for 306311 whenever the body fits its struct; it says whether it does |
| Business.BusinessThread.HandleStatusItem | MDRS/XSHEBusiness.cpp:69-77 | a decoded status sets the session sub id, or throws exactly for one the dictionary does not know |
| Business.BusinessThread.Route | MDRS/XSHEBusiness.h:74-77 | for every item how handling it ends: out of its struct, with an exception, or with success exactly for registered types whose body decodes; only market data changes the table |
| Business.BusinessThread.PopAndParse | MDRS/XSHEBusiness.cpp:12-59 | nothing if nothing is queued or arrives in time; otherwise the oldest item is taken: for one that carries the encoding of a 300111 or 306311 the stock's record has the codes, times and prices of that message and every other key is as it was; every other item leaves the table alone; it is counted whether or not it decoded, unless it leaves its struct or its exception ends the thread |
| Business.HandledIff | MDRS/XSHEBusiness.cpp:12-63 | that effect leaves nothing open: the table is what parsing the data decoded from the item makes of the one before |
| Business.SafeExact | MDRS/XSHEBusiness.cpp:126-138 | decoding an item stays inside its struct exactly when no 306311 it carries has entries and windows of more than 616 bytes |
| Business.DecodesExact | MDRS/XSHEBusiness.cpp:84-202 | an item decodes exactly when it carries the encoding of a 300111, 306311 or 390090 message, or is a 390019 of 69 bytes |
| Business.HandledFold | MDRS/XSHEBusiness.cpp:12-63 | handling items one by one is parsing, in order, the market data they carry |
| Business.BusinessThread.HandleQueued | MDRS/XSHEThreadFuncs.cpp:47-55 | the thread's calls on what is queued pop all of it and make that fold of the table |
| Pipeline.StepInv | MDRS/session.cpp:115-178 | every step of either thread keeps: offered items are those of the received frames, and the parse is on track with the popped items |
| PipelineTheorems.PipelineRefinement | MDRS/XSHEThreadFuncs.cpp:51-54 | for every interleaving and every consistent memory at the start, wherever the business thread stops between two items: the table is the sequential fold of decode-then-parse over the items popped, and the next restart keeps it; popped and queued items are the accepted ones, all items of the received frames if no push was refused or there are fewer than slots |
| PipelineTheorems.DrainedTable | MDRS/XSHEBusiness.cpp:12-59 | once drained it is the fold over all accepted items |
| PipelineTheorems.FeedReachesParser | MDRS/XSHEBusiness.cpp:84-159 | sealing, framing, queueing and decoding a message give the parser its own security code and OrigTime and, entry by entry, its type, MDEntryPx and level; other frames give it nothing |
| PipelineTheorems.EndToEnd | MDRS/XSHEThreadFuncs.cpp:47-55 | whatever was sent, market data mixed with any other frames, and whatever memory was found: drained, with no refusal or fewer frames than slots, each price of each stock is the narrowed MDEntryPx of the last entry sent for it at level 0 or 1, its OrigTime that of the last message about it, and what no message gives is as it was found |
| PipelineTheorems.OtherFramesDoNotMatter | MDRS/session.cpp:147-163 | heartbeats, status, statistics, unknown types and bodies that do not decode give the parser nothing, wherever they stand |
| PipelineTheorems.SessionsCompose | MDRS/XSHEMdParser.cpp:14-15 | after two sessions, the second on the memory the first left wherever it stopped, the table is the fold over the items popped in the second from the fold over those popped in the first; what was queued when the first stopped is what is lost |
| IniText.EmittedTrimmed | MDRS/myPub/myInih.cpp:91-103 | names and values reach the handler trimmed on both sides, and a name holds no separator |
| IniText.AllEmittedTrimmed | MDRS/myPub/myInih.cpp:71-115 | so does everything emitted from a file, and no value holds a newline |
| IniText.BadExactly | MDRS/myPub/myInih.cpp:79-110 | a line is bad exactly when it is no comment and lacks its bracket or separator |
| IniText.StripExact | MDRS/myPub/myInih.cpp:73-78 | what is looked at of a line: everything before the first NUL without the white space at its ends |
| IniText.SpaceExact | MDRS/myPub/myInih.cpp:13-24 | which six characters are white space |
| IniText.HeaderExactly | MDRS/myPub/myInih.cpp:83-90 | a header names what stands between the bracket and the first closing one, up to 49 characters |
| IniText.PairExactly | MDRS/myPub/myInih.cpp:91-103 | a pair is split at the first '=' or ':', and both halves lose exactly the white space around them |
| IniText.PiecesCover | MDRS/myPub/myInih.cpp:71 | the pieces fgets returns add up to the text |
| IniText.PieceEnds | MDRS/myPub/myInih.cpp:71 | and each but the last ends in a newline or is 199 characters long |
| IniText.ErrorIsFirstBad | MDRS/myPub/myInih.cpp:87-116 | the returned error is the number of the first bad line, 0 exactly if there is none |
| IniText.RenderParse | MDRS/myPub/myInih.cpp:51-117 | rendered sections and pairs parse back to exactly those pairs in order |
| IniStore.KeysDistinct | MDRS/myPub/myInih.cpp:258-264 | two keys are equal exactly when sections and names are equal up to case, if names hold no '=' |
| IniStore.SeparatorShifts | MDRS/myPub/myInih.cpp:259 | for every section and every name with '=', the part before it may as well stand in the section: same key, another section |
| IniStore.LookupExactIff | MDRS/myPub/myInih.cpp:258-264 | among names without '=', a key stands for the asked section and name alone, up to case, exactly when the asked name holds no '=' |
| IniStore.StoredValue | MDRS/myPub/myInih.cpp:284-298 | a key is present exactly if an entry carries it, with the newline-join of its non-empty values in file order |
| IniStore.FileValuesRecovered | MDRS/myPub/myInih.cpp:289-294 | for any file, splitting a stored text at newlines gives those values back |
| IniStore.LookupMeets | MDRS/myPub/myInih.cpp:207-212 | for any file, section and name: the key is present exactly when an entry meets the lookup, with '=' in the name resolved, and holds the newline-join of the non-empty values that do |
| IniStore.LowerExact | MDRS/myPub/myInih.cpp:258-264 | the 26 capitals are folded, nothing else |
| IniStore.CollectedExactly | MDRS/myPub/myInih.cpp:207-212 | a name without '=' collects an entry exactly when section and name are equal up to case |
| IniStore.CollectedInOrder | MDRS/myPub/myInih.cpp:207-212 | entries are collected in file order |
| IniStore.JoinedExactly | MDRS/myPub/myInih.cpp:284-298 | empty values are dropped and the others joined by newlines |
| IniReader.IniRStrip | MDRS/myPub/myInih.cpp:13-17 | trailing white space overwritten in place leaves the stripped string; an end before the start changes nothing |
| IniReader.IniLSkip | MDRS/myPub/myInih.cpp:20-24 | the address of the string without leading white space |
| IniReader.IniFindChars | MDRS/myPub/myInih.cpp:26-31 | the first occurrence of a stop character, else the terminator |
| IniReader.IniStrncpy0 | MDRS/myPub/myInih.cpp:35-42 | a terminated copy of at most 49 characters |
| IniReader.ValueText | MDRS/myPub/myInih.cpp:97-100 | the second right strip of the value does nothing |
| IniReader.INIReader.HandleLine | MDRS/myPub/myInih.cpp:72-110 | one pass of the loop body over the line buffer does what the line means |
| IniReader.INIReader.IniParseStream | MDRS/myPub/myInih.cpp:51-117 | error and values are those of the pieces of the text |
| IniReader.INIReader.ValueHandler | MDRS/myPub/myInih.cpp:266-301 | appends to a known key, a newline only between two non-empty texts, and inserts a new one |
| IniReader.INIReader.constructor | MDRS/myPub/myInih.cpp:139-147 | -1 and no values for a missing file, otherwise its first bad line and the store of its entries |
| IniReader.INIReader.Get | MDRS/myPub/myInih.cpp:207-212 | the newline-join of the non-empty values the parsed file gives for section and name up to case, or the default if it has no such entry |
| IniReader.INIReader.GetString | MDRS/myPub/myInih.cpp:214-218 | the same, the default also when all those values are empty |
| IoThread.LoggedOnExact | MDRS/XSHEThreadFuncs.cpp:14-35 | such a connection is one whose connect, logon and answer succeeded in this order, with only flag reads and successful receives since |
| IoThread.SzIoThreadFunc | MDRS/XSHEThreadFuncs.cpp:9-47 | answers and flag determine the run: messages are received on a connection whose logon was completed and on which every receive has succeeded, right behind the logon and then behind every look at the flag that finds it down; no new connection is made while there is one; only the last receive may be made without, when the flag goes up inside the inner loop; the run ends with logout and close |

## Left out

- Sockets, shm_open, mmap, file writes, console commands and printing: a socket is any cut of a byte stream, shared memory is a pair of arrays, a file is a text.
- Logging, LogMdData and the application manager's display: no effect on the modelled state.
- Record lines of a dump under concurrent field writes: they show unlocked reads; the key lines are modelled there.
- stockName: never written by the code.
- What atoi makes of a sub id: any function of the decoded status.
- GetInteger and its relatives, and copying configuration strings: library number parsing and strcpy.
- Time costs in the statistics and the clock: only success counts are kept, and the clock is a parameter.
- Heartbeat counters: they only feed a log line.
- MyFifoQueueNL::clear while the other thread runs: two separate index stores that the application never calls; only sequential use is modelled.
- Observers called from a third thread, and empty() or full() called from the opposite side.
- Moving instead of copying an item into or out of the ring: the element type is a plain struct.
- Copying a slot is one step; a torn copy is excluded because no access races.
- What happens once a receive or a copy has left its buffer: the model says exactly when it does and promises nothing from there on. The whole-receiver machine takes no step there, nor does it stop at a status that ends the thread.
- Big-endian hosts: the swap macros always swap, and the model assumes a little-endian host.
- makeKey for market codes so large that the int product overflows: the two callers use 2 and 9.
- Condition-variable timing: a wait may end with any arrivals, timed out or not.
- Retry delays and the socket handle in the IO thread.
- A failed receive in the whole-receiver machine: the step then is a new connection, as the IO thread makes one.
