# Slipstream: a verified model

Slipstream receives market data over TCP, keeps a rolling volume-weighted average price (VWAP), follows or
rejects each trade it sees, and sends the resulting orders back over TCP. This project models that pipeline,

    bytes -> frames -> messages -> queue -> VWAP window -> engine -> orders -> queue -> bytes

and the reader of the recorded sessions that feed it, and proves what each part keeps over every run. Code that
changes state in place is modelled by classes and arrays, whose methods are proved against specification
functions; the theorems are about those functions and hold for every input, run or interleaving.

| part | modules |
|---|---|
| absent values, bytes, machine integers, arithmetic | Options, Bytes, Layout, Arithmetic |
| stream reassembly | Framing, Reconstruction |
| market-data codec, receive loop, end-to-end wire theorem | Gcmd, Receiver, Wire |
| lock-free queues | Ring, RingQueue (run by one thread), QueueProtocol and SpscProtocol (every interleaving, with and without the lock) |
| queue consumers | Demultiplexer, OrderPipeline |
| order codec | Oe |
| rolling average | Vwap, VwapTheory, VwapQuantities |
| engine and session | Engine, Session, EngineRuns, EngineWitnesses |
| a trade's whole way | TradeFlow, FlowWitnesses |
| the whole program | Slipstream, and that it never gets stuck: OrderProgress, Progress |
| CSV sessions | CsvPrice, CsvRows, CsvRoundTrip |

`dafny verify dfyconfig.toml` checks everything.

## How the model reads the code

* Machine integers are mathematical ones, wrapped explicitly where the source's type wraps (`Wrap64`, `Wrap128`,
  `% 2^32`). Nothing is assumed not to overflow unless a theorem says so.
* The queue protocol has one step per atomic access or slot access. A load may return any value of the index from
  the last one the loading thread knows of to the current one (coherence); acquire loads and the mutex hand over
  knowledge (release and acquire), as in [intro.races] and [atomics.order] of ISO/IEC 14882. The moved-from slot
  keeps an arbitrary value.
* Clock readings and socket chunks are parameters, so the theorems hold for all of them.
* `timestampNs` is filled with milliseconds by the clients (src/market_client/MarketClient.cpp:61, 52-56), and is
  compared with milliseconds (src/slipstream/orders/VWAPService.cpp:29); the model has one clock unit.

## Where the code and its description differ

The model follows the code. Where a promise fails, a lemma says exactly when it holds.

* The two session-state tables disagree about 1 and 2 (src/libs/networking/gcmd/types/GCMDTypes.cpp:45-61), against
  test/libs/networking/gcmd/GCMDCodecTests.cpp:143-148: a message survives the wire exactly unless it is a HALT or
  CLOSE, and those two come out swapped (`RoundTripExactlyWhen`).
* Eviction does nothing while the VWAP ring is full (src/slipstream/orders/VWAPService.cpp:27): with positive
  quantities and one clock every answer until the next trade is the window average if and only if the window has never
  held 1024 trades at an add (`ExactIffNeverFull`); once it has, answers are over the last 1024 trades however old.
  1024 trades at one time get there (`FullHappens`). With any quantities, zero included, the answers are the window
  average as long as the ring has not been full (`VwapWhileNotFull`).
* A frame shorter than its type's struct is decoded together with the bytes behind it
  (src/libs/networking/gcmd/deserialisation/GCMDDeserialiser.cpp:6-21), so a four-byte heartbeat frame makes a message
  of stale bytes (`ShortFrameReadsOn`): unless it reads past the end of its buffer, a receiving thread pushes the
  decoding of the bytes it took if and only if that decoding reaches no such frame (`OneShotExactlyWhen`).
* Accepted sells add to `tradedQuantity` (src/slipstream/engine/ExecutionEngine.cpp:88), so it can exceed
  `maxQuantity`: over a run it stays within if and only if no sell is handled that the tests let through and that
  takes it past (`MaximumKeptExactlyWhen`, `MaximumPassedExactlyWhen`). It at most doubles with each sell since the
  last buy (`Budget`), and that bound is reached (`TradedQuantityCanExceedMaximum`).
* CLOSE does not itself halt the engine: afterwards, and for ever, the engine is halted if and only if the session
  was halted before (`ClosedHaltedExactlyWhen`); a trade may still be bought (`CloseDoesNotHalt`).
* 64-bit and 32-bit counters wrap. Buys keep to the cap up to a volume of 2^64 and no further
  (`CapHoldsExactlyBelow`), order ids increase up to 2^64 trades and no further (`IdsIncreaseExactlyUpTo`), and
  readiness is ten quotes and the window up to 2^32 quotes and no further (`ReadyMeansWarmExactlyBelow`; an engine
  that is ready is warm however many there were, `WarmUp`).
* A band above 10000 wraps the buying factor round: the price test means "strictly below the average" if and only if
  0 < bandBps <= 10000 (`BandSaneExactlyWhen`). For sells it means "strictly above the average" if and only if the
  band is worth a unit of price (`SellBandExactlyWhen`).
* A receive of the full 2048 bytes throws when even one byte is held (`FullReceiveCanThrow`): chunks of at most n
  bytes never stop a receiver of written streams if and only if n <= 2001 (`SafeChunkSizeIs2001`).

Two more differences are of settings and not of behaviour. The participation cap is described as a ratio
(src/slipstream/main.cpp:32), but the engine compares an absolute quantity
(src/slipstream/engine/ExecutionEngine.cpp:43), which src/slipstream/main.cpp:77 sets to the given number times 10000;
`Budget`, `NoBuyPastCap` and `CapHoldsExactlyBelow` are about that quantity. The same line multiplies `bandBps` by 100
before the engine divides by 10000, so one basis point acts as one per cent; the model's `bandBps` is the engine's.

## Model

| member | source | states |
|---|---|---|
| Bytes.Widths | src/slipstream/orders/VWAPService.hpp:18-20 | 64-bit and 128-bit values wrap exactly past their largest value, and below zero from it |
| Bytes.LERoundTrip | src/libs/networking/gcmd/types/GCMDTypes.h:19-44 | a field of the packed structs, written as little-endian bytes, reads back as itself |
| Bytes.FromLEInverse | src/libs/networking/gcmd/types/GCMDTypes.h:19-44 | any bytes read as a field write back as the same bytes |
| Bytes.CopyInto | src/libs/networking/gcmd/serialisation/GCMDSerialiser.cpp:17-18 | memcpy: the bytes land at the offset and every other byte of the buffer stays |
| Framing.ParseReassembles | src/libs/networking/libslipstream_codec/MessageReconstructor.cpp:25-41 | frames plus rest are the stream, every frame is whole, and the rest holds no whole frame |
| Framing.ParseUnique | src/libs/networking/framing/FrameHeader.h:10-14 | that decomposition is the only one: frames are self-delimiting |
| Framing.ParseAppend | src/libs/networking/libslipstream_codec/MessageReconstructor.cpp:9-23 | a parse may be stopped anywhere and resumed on the unparsed rest |
| Framing.RestOfPrefix | src/libs/networking/libslipstream_codec/MessageReconstructor.cpp:25-41 | a cut stream of frames of at most max bytes parses into its first frames and leaves less than one frame |
| Reconstruction.MessageReconstructor.constructor | src/libs/networking/libslipstream_codec/MessageReconstructor.h:12-23 | starts with nothing held |
| Reconstruction.MessageReconstructor.MoveToFront | src/libs/networking/libslipstream_codec/MessageReconstructor.cpp:14-17 | the overlapping move, as an ascending byte copy, delivers the old bytes and leaves those behind them alone |
| Reconstruction.MessageReconstructor.Compact | src/libs/networking/libslipstream_codec/MessageReconstructor.cpp:14-17 | the bytes still held move to the front of the buffer unchanged, and nothing behind them changes |
| Reconstruction.MessageReconstructor.Receive | src/libs/networking/libslipstream_codec/MessageReconstructor.cpp:9-23 | throws exactly when held plus new bytes exceed 2048, and then changes nothing; otherwise the buffer starts with held ++ new and is unchanged behind them, exactly their frames are handed out, back to back from the start, and exactly the rest is held |
| Reconstruction.MessageReconstructor.GetMessages | src/libs/networking/libslipstream_codec/MessageReconstructor.cpp:25-41 | the recursive scan finds exactly the frames of its range; size drops by their bytes and dirtyStart ends behind the last of them |
| Reconstruction.ChunkingIndependence | src/libs/networking/libslipstream_codec/MessageReconstructor.cpp:9-41 | over any chunks, throwing calls included: frames out are the one-shot parse of the bytes accepted, and frames out ++ bytes held are those bytes |
| Reconstruction.CuttingsAgree | src/libs/networking/libslipstream_codec/MessageReconstructor.cpp:9-41 | two cuttings of the same accepted bytes end in the same frames and the same held bytes |
| Reconstruction.SmallChunksNeverThrow | src/libs/networking/libslipstream_codec/MessageReconstructor.cpp:11-12 | on frames of at most max bytes fewer than max are ever held, and no chunk of at most 2048 - max + 1 bytes throws |
| Reconstruction.FullReceiveCanThrow | src/libs/networking/libslipstream_codec/MessageReconstructor.cpp:11-12 | a full-size receive behind one held byte throws and changes nothing |
| Reconstruction.SafeChunkSize | src/libs/networking/libslipstream_codec/MessageReconstructor.cpp:11-12 | for every frame bound max: on streams of frames within it, chunks of at most n bytes are always taken if and only if n <= 2048 - max + 1 |
| Reconstruction.OversizedFrameBlocks | src/libs/networking/libslipstream_codec/MessageReconstructor.cpp:25-39 | a header announcing more than 2048 bytes stays at the front for ever and nothing is emitted again |
| Gcmd.EncodeIsFrame | src/libs/networking/gcmd/serialisation/GCMDSerialiser.cpp:7-34 | what is serialised is exactly one frame of its type, at most 48 bytes long |
| Gcmd.HeartbeatLaidOut | src/libs/networking/gcmd/types/GCMDTypes.h:37-39 | the frame, byte by byte: 8, 0, 3, 1, then the time in eight bytes |
| Gcmd.QuoteLaidOut | src/libs/networking/gcmd/types/GCMDTypes.h:19-26 | the frame, byte by byte: 44, 0, 1, 1, then each field at its own offset |
| Gcmd.TradeLaidOut | src/libs/networking/gcmd/types/GCMDTypes.h:28-35 | the frame, byte by byte: 41, 0, 2, 1, then each field at its own offset, the aggressor 66, 83 or 63 |
| Gcmd.SessionLaidOut | src/libs/networking/gcmd/types/GCMDTypes.h:41-44 | the frame, byte by byte: 9, 0, 4, 1, the time, then 0 for OPEN, 1 for CLOSE, 2 for HALT |
| Gcmd.DecodeRejects | src/libs/networking/gcmd/types/GCMDTypes.cpp:7-52 | exactly which type, aggressor and state bytes are refused, and as what |
| Gcmd.SerialiseHeartbeat | src/libs/networking/gcmd/serialisation/GCMDSerialiser.cpp:7-13 | the buffer starts with the heartbeat's frame, laid out as above, is unchanged behind it, and the frame's length is returned |
| Gcmd.SerialiseQuote | src/libs/networking/gcmd/serialisation/GCMDSerialiser.cpp:14-20 | likewise for a quote |
| Gcmd.SerialiseTrade | src/libs/networking/gcmd/serialisation/GCMDSerialiser.cpp:21-27 | likewise for a trade |
| Gcmd.SerialiseSessionControl | src/libs/networking/gcmd/serialisation/GCMDSerialiser.cpp:28-34 | likewise for a session message |
| Gcmd.DecodeIsLocal | src/libs/networking/gcmd/deserialisation/GCMDDeserialiser.cpp:6-35 | decoding a frame as long as its struct depends on nothing behind it |
| Gcmd.QuoteRoundTrip | src/libs/networking/gcmd/types/GCMDTypes.cpp:63-72 | a quote's body decodes to the quote, field by field |
| Gcmd.TradeRoundTrip | src/libs/networking/gcmd/types/GCMDTypes.cpp:74-83 | a trade's body decodes to the trade, aggressor included |
| Gcmd.RoundTrip | src/libs/networking/gcmd/deserialisation/GCMDDeserialiser.cpp:23-35 | decode after encode, whatever bytes follow, gives the message with HALT and CLOSE exchanged |
| Gcmd.RoundTripExactlyWhen | src/libs/networking/gcmd/types/GCMDTypes.cpp:45-61 | a message survives the wire if and only if it is not a HALT or CLOSE session message |
| Gcmd.EncodeAfterDecode | src/libs/networking/gcmd/serialisation/GCMDSerialiser.cpp:36-64 | re-encoding a decoded canonical frame gives back every byte of it |
| Receiver.LatestHeartbeatIsMax | src/slipstream/network/NetworkMessageReceiver.cpp:30-32 | the value kept is the maximum of the start time and the heartbeats pushed |
| Receiver.FramesInBuffer | src/slipstream/network/NetworkMessageReceiver.cpp:28-39 | walking the buffer by header lengths meets exactly the frames of the parse, and decodes each as if it were alone, unless it reaches one shorter than its struct |
| Receiver.ReceiveIsOneShotDecode | src/slipstream/network/NetworkMessageReceiver.cpp:19-41 | when each frame is decoded by itself, which is what the thread does where no short frame is reached (OneShotExactlyWhen): over any chunks the messages pushed, heartbeat kept and bytes held are those of decoding the bytes taken in one go; the thread stops exactly at an undecodable frame or a chunk that does not fit |
| Receiver.TurnIsReceiveStep | src/slipstream/network/NetworkMessageReceiver.cpp:19-41 | where no short frame is reached, a turn of the loop, which decodes out of the whole buffer, is the step that decodes each frame by itself |
| Receiver.TurnsAreReceives | src/slipstream/network/NetworkMessageReceiver.cpp:59-92 | so is every run of turns over bytes that reach none, whatever the buffer held before |
| Receiver.OneShotExactlyWhen | src/slipstream/network/NetworkMessageReceiver.cpp:26-40 | for any bytes and chunks: the thread pushes the one-shot decoding of the bytes it took if that reaches no frame shorter than its struct; and, unless the thread read past its buffer, only if |
| Receiver.ShortFrameReadsOn | src/libs/networking/gcmd/deserialisation/GCMDDeserialiser.cpp:6-9 | a heartbeat frame without a body is pushed with the eight bytes behind it as its time |
| Receiver.StoppedStaysStopped | src/slipstream/network/NetworkMessageReceiver.cpp:74-90 | once an exception has ended the thread later chunks change nothing |
| Receiver.NetworkMessageReceiver.constructor | src/slipstream/network/NetworkMessageReceiver.cpp:8-17 | starts with nothing held or pushed and the heartbeat at the current time |
| Receiver.NetworkMessageReceiver.TryReceive | src/slipstream/network/NetworkMessageReceiver.cpp:19-41 | one turn, for any bytes: an empty chunk changes nothing held or pushed, one too large stops with nothing changed, any other pushes the decoded frames in order and holds the rest; the whole buffer's new contents are given |
| Receiver.NetworkMessageReceiver.PushBatch | src/slipstream/network/NetworkMessageReceiver.cpp:28-40 | the frame loop pushes the decodings in order up to the first that throws and keeps the latest heartbeat |
| Receiver.NetworkMessageReceiver.Run | src/slipstream/network/NetworkMessageReceiver.cpp:59-92 | over any chunks of any bytes the thread ends in the state, buffer included, that taking the turns one by one gives, up to the first that throws |
| Wire.PrefixParses | src/libs/networking/libslipstream_codec/MessageReconstructor.cpp:25-41 | a prefix of a written stream parses into the frames of exactly its complete messages |
| Wire.EndToEnd | src/slipstream/network/NetworkMessageReceiver.cpp:26-40 | messages serialised, concatenated and cut anywhere: at every moment exactly those whose frames are complete have been pushed, in order and equal to the originals up to the HALT/CLOSE exchange; the bytes held are those of the incomplete one; only a chunk that does not fit stops it |
| Wire.SmallChunksAllArrive | src/libs/networking/libslipstream_codec/MessageReconstructor.cpp:11-12 | with chunks of at most 2001 bytes nothing throws and every complete message arrives |
| Wire.WholeStreamArrives | src/slipstream/network/NetworkMessageReceiver.cpp:26-40 | once the stream is in, all of it has been pushed and nothing is held |
| Wire.StreamIsWellSized | src/libs/networking/gcmd/serialisation/GCMDSerialiser.cpp:7-34 | every frame of a written stream is as long as its struct |
| Wire.ThreadIsReceive | src/slipstream/network/NetworkMessageReceiver.cpp:59-92 | so on written streams the thread, whatever its buffer held, does what EndToEnd is about |
| Wire.Chunk2002Stops | src/libs/networking/libslipstream_codec/MessageReconstructor.cpp:11-12 | every written stream longer than the buffer and starting with a 48-byte frame, cut after 47 bytes, stops the receiver at a chunk of 2002 bytes |
| Wire.SafeChunkSizeIs2001 | src/libs/networking/libslipstream_codec/MessageReconstructor.cpp:11-12 | over all written streams and cuttings, chunks of at most n bytes never stop the receiver if and only if n <= 2001 |
| Ring.Next | src/libs/concurrency/SPSCQueue.hpp:21-23 | the remainder is a single wrap-around |
| RingQueue.RingQueue.Contents | src/libs/concurrency/MPSCQueue.hpp:17-26 | head and tail determine the values queued, at most `capacity` of them, without ambiguity |
| RingQueue.RingQueue.constructor | src/libs/concurrency/MPSCQueue.hpp:19-21 | a new queue is empty |
| RingQueue.RingQueue.Emplace | src/libs/concurrency/MPSCQueue.hpp:61-73 | refuses exactly when the capacity is reached and then changes nothing; appends at the back otherwise |
| RingQueue.RingQueue.Pop | src/libs/concurrency/MPSCQueue.hpp:45-53 | returns nothing exactly when empty; removes and returns the front otherwise, whatever moving leaves in its slot |
| RingQueue.RingQueue.Empty | src/libs/concurrency/SPSCQueue.hpp:51-53 | true exactly when nothing is queued |
| QueueProtocol.SlotsDiffer | src/libs/concurrency/SPSCQueue.hpp:21-23 | within one turn of the ring, equal indices mean equal counts |
| QueueProtocol.SlotsMeet | src/libs/concurrency/SPSCQueue.hpp:16-23 | a full turn apart they meet: why there is a spare slot |
| QueueProtocol.StepInv | src/libs/concurrency/MPSCQueue.hpp:45-73 | every atomic step of any thread keeps the invariant over indices, bounds, slots, histories, views and lock |
| QueueProtocol.RunInv | src/libs/concurrency/MPSCQueue.hpp:45-73 | so the invariant holds in every state of every interleaving |
| QueueProtocol.FifoAlways | src/libs/concurrency/SPSCQueue.hpp:41-66 | pushed == popped ++ contents, at most `capacity` values, each sitting in its slot: nothing lost, duplicated or reordered |
| QueueProtocol.RefinesBoundedFifo | src/libs/concurrency/SPSCQueue.hpp:41-66 | every step is a step of a bounded FIFO: append within capacity, remove the front, or nothing |
| QueueProtocol.SlotAccessesOrdered | src/libs/concurrency/SPSCQueue.hpp:44-64 | producer and consumer never use the same slot at once, and each access is ordered behind the other thread's last use of the slot by what was acquired |
| QueueProtocol.HeadLoadIsExact | src/libs/concurrency/MPSCQueue.hpp:64 | the relaxed load of head under the lock can only return the current value: knowledge passes with the lock |
| QueueProtocol.PushVerdict | src/libs/concurrency/MPSCQueue.hpp:64-67 | push reports full exactly when the tail it loaded leaves no room; it never goes ahead without room |
| QueueProtocol.PopVerdict | src/libs/concurrency/MPSCQueue.hpp:45-58 | pop and empty report nothing exactly when the head they loaded is the number removed; with a current head, exactly when the queue is empty |
| QueueProtocol.SeenItemIsPopped | src/slipstream/network/MessageDeMultiplexer.cpp:15-24 | after empty() said no, no producer step can undo it and the next pop gets a value |
| QueueProtocol.TakenIsFront | src/libs/concurrency/MPSCQueue.hpp:50 | the value moved out is the front of the queue |
| QueueProtocol.ProducerOrderKept | src/libs/concurrency/MPSCQueue.hpp:61-73 | each producer's values are published in its own order, once per push that returned true; the popped values are a prefix of the published ones |
| QueueProtocol.SingleProducerNeedsNoLock | src/libs/concurrency/SPSCQueue.hpp:57-66 | with one producer, taking the lock never blocks and hands over nothing new |
| SpscProtocol.IsInstance | src/libs/concurrency/SPSCQueue.hpp:41-66 | every run of the queue without a lock reaches, lock aside, a state some run with the lock reaches |
| SpscProtocol.StepGood | src/libs/concurrency/SPSCQueue.hpp:41-66 | every atomic step without a lock keeps the invariant |
| SpscProtocol.LockFreeFifo | src/libs/concurrency/SPSCQueue.hpp:41-66 | without a lock: pushed == popped ++ contents, at most `capacity` values, each in its slot |
| SpscProtocol.LockFreeRefinesFifo | src/libs/concurrency/SPSCQueue.hpp:41-66 | every step without a lock is a step of a bounded FIFO |
| SpscProtocol.LockFreeAccesses | src/libs/concurrency/SPSCQueue.hpp:44-64 | the producer's load of head returns the current value, the threads never use a slot at once, and each access is ordered behind the other thread's last use of the slot by what was acquired |
| SpscProtocol.LockFreeVerdicts | src/libs/concurrency/SPSCQueue.hpp:41-62 | full is reported exactly when the tail loaded leaves no room, nothing exactly when the head loaded is the number removed |
| Demultiplexer.RunInv | src/slipstream/network/MessageDeMultiplexer.cpp:15-24 | in every interleaving the loop and the queue stay in step: it pops only what it has seen |
| Demultiplexer.EveryMessageHandledInOrder | src/slipstream/network/MessageDeMultiplexer.cpp:15-24 | no pop ever comes back with nothing, and published == handled ++ in hand ++ queued, under any number of producers |
| Demultiplexer.MessageDeMultiplexer.Run | src/slipstream/network/MessageDeMultiplexer.cpp:15-24 | the loop hands over what the queue holds, in order, and leaves it empty |
| Oe.OrderRoundTrip | src/libs/networking/oe/types/OETypes.cpp:102-118 | an order's frame decodes to the order, field by field |
| Oe.OrderLaidOut | src/libs/networking/oe/types/OETypes.h:19-28 | the frame, byte by byte: 50, 0, 10, 1, each field at its own offset, status 65 or 82, side 66 or 83 |
| Oe.DecodeOrderRejects | src/libs/networking/oe/types/OETypes.cpp:23-45 | exactly which status and side bytes are refused, and as what |
| Oe.SerialiseNewOrder | src/libs/networking/oe/serialisation/OESerialiser.cpp:6-11 | the buffer starts with the order's 54-byte frame, laid out so, and is unchanged behind it |
| Oe.OrdersParseBack | src/libs/networking/oe/deserialisation/OEDeserialiser.cpp:5-21 | the bytes of any list of orders parse, frame by frame, back to those orders |
| OrderPipeline.NoOrderLost | src/slipstream/network/OrderMessageSender.cpp:10-46 | in every interleaving: orders passed to send == written ++ in flight ++ queued ++ still being pushed, and the bytes written parse back to the orders written |
| OrderPipeline.OrderMessageSender.SendNewOrder | src/slipstream/network/OrderMessageSender.cpp:40-46 | exactly the order's frame, byte by byte as laid out, is appended to the wire |
| OrderPipeline.OrderMessageSender.Run | src/slipstream/network/OrderMessageSender.cpp:22-39 | the loop writes the frames of what the queue holds, in order, and leaves it empty |
| Vwap.VWAPService.constructor | src/slipstream/orders/VWAPService.hpp:26 | starts with no live trade and matching sums |
| Vwap.VWAPService.AddTrade | src/slipstream/orders/VWAPService.cpp:16-23 | the trade becomes the newest live one and the sums keep matching (a ring that fills without quantity reads as empty) |
| Vwap.VWAPService.RemoveOldestTrade | src/slipstream/orders/VWAPService.cpp:41-51 | exactly the oldest live trade goes and both sums keep matching, so no subtraction underflows |
| Vwap.VWAPService.RemoveOldTrades | src/slipstream/orders/VWAPService.cpp:25-39 | the eviction loop drops stale trades from the old end until a fresh one, and does nothing to a full ring |
| Vwap.VWAPService.HandleTrade | src/slipstream/orders/VWAPService.hpp:39-52 | evicts; below capacity adds and never throws; on a full ring drops the trade, overwrites the oldest, or throws exactly under THROW, as the policy says |
| Vwap.VWAPService.GetVWAP | src/slipstream/orders/VWAPService.cpp:5-13 | the mean of the live trades after eviction, 0 when they have no quantity |
| Vwap.SumsAfterAdd | src/slipstream/orders/VWAPService.cpp:20-21 | the sums match after an add; the quantity sum never wraps |
| Vwap.SumsAfterRemove | src/slipstream/orders/VWAPService.cpp:33-34 | the sums match after a removal |
| Vwap.SumQBound | src/slipstream/orders/VWAPService.hpp:16-19 | 1024 slots keep the quantity sum inside 64 bits |
| VwapTheory.MeanWithinPrices | src/slipstream/orders/VWAPService.cpp:5-13 | the answer is the exact quotient of the exact sum, which does not wrap in 128 bits, and lies between any bounds on the prices that have quantity |
| VwapTheory.NotionalFits | src/slipstream/orders/VWAPService.cpp:20-21 | for non-negative prices 1024 slots keep the sum of quantity times price inside 128 bits |
| VwapTheory.MeanIsStraddled | src/slipstream/orders/VWAPService.cpp:5-13 | some live trade with quantity is priced at or above the answer and some at or below it |
| VwapTheory.LiveIsLatest | src/slipstream/orders/VWAPService.hpp:39-52 | for any clocks and quantities the live trades are the latest ones of the history, without gaps, in order, at most 1024 |
| VwapTheory.FullStaysFull | src/slipstream/orders/VWAPService.cpp:25-51 | with positive quantities a full ring stays full over every later run and holds exactly the last 1024 trades |
| VwapTheory.FullFreezes | src/slipstream/orders/VWAPService.hpp:42-50 | under the other two policies a full ring never changes over any later run, and only THROW throws |
| VwapTheory.EvictIsWindow | src/slipstream/orders/VWAPService.cpp:25-39 | below capacity eviction leaves exactly the trades in the window |
| VwapTheory.LiveIsWindowUntilFull | src/slipstream/orders/VWAPService.cpp:25-39 | positive quantities, one clock: exactly the window until it first holds 1024 trades, exactly the last 1024 trades from then on |
| VwapTheory.VwapIsNaive | src/slipstream/orders/VWAPService.cpp:5-39 | with positive quantities, until the window first holds 1024 trades every answer is floor(sum q*p / sum q) over the history's trades in the window, or 0 |
| VwapTheory.FullAnswersStale | src/slipstream/orders/VWAPService.cpp:27 | after that a query past the window of every trade still gets a positive price where the definition gives 0 |
| VwapTheory.ExactIffNeverFull | src/slipstream/orders/VWAPService.cpp:5-39 | every later answer equals the definition if and only if the window never held 1024 trades at an add |
| VwapTheory.FullHappens | src/slipstream/orders/VWAPService.cpp:27 | 1024 equal trades fill the ring and 1023 do not; a query after the window then gets a price where the definition gives 0 |
| VwapQuantities.HistorySplits | src/slipstream/orders/VWAPService.cpp:25-39 | for any quantities, as long as the ring has not been full, it has let go only of trades out of the window or without quantity |
| VwapQuantities.VwapWhileNotFull | src/slipstream/orders/VWAPService.cpp:5-39 | for any quantities, as long as the ring has not been full, every answer is the exact average of the history's trades in the window |
| VwapQuantities.NotEverFull | src/slipstream/orders/VWAPService.hpp:39-52 | with positive quantities, a window that never held 1024 trades at an add means a ring never full |
| Engine.ExecutionEngine.constructor | src/slipstream/engine/ExecutionEngine.cpp:6-8 | a fresh engine, with timestampStarted not assigned |
| Engine.ExecutionEngine.OnQuoteReceived | src/slipstream/engine/ExecutionEngine.cpp:11-16 | counts the quote in 32 bits and keeps the time of the first |
| Engine.ExecutionEngine.IsReadyToTrade | src/slipstream/engine/ExecutionEngine.cpp:19-32 | true from the latch, or else exactly from ten quotes and a window's length on; latches; never reads timestampStarted unassigned |
| Engine.ExecutionEngine.ShouldBuyNow | src/slipstream/engine/ExecutionEngine.cpp:38-46 | evicts, then tests price, cap and maximum in 64-bit arithmetic, changing no engine field |
| Engine.ExecutionEngine.ShouldSellNow | src/slipstream/engine/ExecutionEngine.cpp:48-56 | evicts, then tests price and traded quantity, changing no engine field |
| Engine.ExecutionEngine.HandleTrade | src/slipstream/engine/ExecutionEngine.cpp:58-78 | the decision, the order, the new counters and what is evicted, on every branch |
| Engine.ExecutionEngine.HandleAccepted | src/slipstream/engine/ExecutionEngine.cpp:80-92 | adds the quantity to both counters, uses up an id and returns the accepted order on its side |
| Engine.ExecutionEngine.HandleReject | src/slipstream/engine/ExecutionEngine.cpp:94-99 | adds to the cumulative quantity only, uses up an id and returns the rejection |
| Session.SessionInvariant | src/slipstream/SessionControlHandler.cpp:37-68 | over any commands: halted while HALT, not halted while OPEN, stopped exactly at CLOSE, receivers and shutdown signalled exactly once, in order and only then, nothing changes after CLOSE |
| Session.EachLine | src/slipstream/SessionControlHandler.cpp:19-68 | what each literal line does in each state, and that every other line does nothing |
| Session.SessionControlHandler.RunSession | src/slipstream/SessionControlHandler.cpp:19-34 | the command loop ends in the state the commands up to the stop flag give |
| Session.SessionControlHandler.HandleHalt | src/slipstream/SessionControlHandler.cpp:37-45 | an open session halts, and the engine with it; any other state is left as it is |
| Session.SessionControlHandler.HandleOpen | src/slipstream/SessionControlHandler.cpp:47-55 | a halted session reopens, and the engine resumes; any other state is left as it is |
| Session.SessionControlHandler.HandleClose | src/slipstream/SessionControlHandler.cpp:57-68 | closes once: raises the stop flag, tells both receivers to stop and then triggers the shutdown, leaves the engine's halt flag alone |
| EngineRuns.Run | src/slipstream/engine/ExecutionEngine.cpp:11-32 | in every reachable state the readiness test finds timestampStarted assigned whenever it would read it |
| EngineRuns.RunSound | src/slipstream/engine/ExecutionEngine.cpp:58-99 | in every reachable state the counters agree with the log and every record was decided by the rules |
| EngineRuns.Conservation | src/slipstream/engine/ExecutionEngine.cpp:58-99 | cumulative quantity is the sum over all trades, traded quantity over accepted orders, the k-th trade has id k, each order repeats its trade and time, and one is missing exactly for trades handled ready and halted |
| EngineRuns.EmittedIdsIncrease | src/slipstream/engine/ExecutionEngine.cpp:84-98 | the ids that go out strictly increase |
| EngineRuns.Budget | src/slipstream/engine/ExecutionEngine.cpp:38-98 | accepted buys never sum above the maximum nor the cap; traded quantity is at most the maximum times 2 to the sells since the last buy |
| EngineRuns.NoBuyPastCap | src/slipstream/engine/ExecutionEngine.cpp:43 | once the volume passes the cap no buy is ever accepted again |
| EngineRuns.BoughtExactlyWhen | src/slipstream/engine/ExecutionEngine.cpp:38-46 | a trade is bought if and only if the engine is ready and not halted, the aggressor is a buyer, price * 10000 <= average * (10000 - bandBps), and volume and accepted volume of the whole run stay within cap and maximum |
| EngineRuns.SoldExactlyWhen | src/slipstream/engine/ExecutionEngine.cpp:48-56 | a trade is sold if and only if the engine is ready and not halted, the aggressor is a seller, the price is less than one unit short of average * (10000 + bandBps) / 10000 or above, and the run's accepted volume covers the quantity |
| EngineRuns.MaximumKeptExactlyWhen | src/slipstream/engine/ExecutionEngine.cpp:48-92 | over every run, wraps included: traded quantity stays within the maximum if and only if no trade handled is a sell that the tests let through and that takes it past |
| EngineRuns.MaximumPassedExactlyWhen | src/slipstream/engine/ExecutionEngine.cpp:48-92 | in terms of the run: the next trade takes it past the maximum if and only if it is a seller's, found ready and not halted, dear enough, covered by the accepted volume, and more than the maximum together with it |
| EngineRuns.WarmUpInvariant | src/slipstream/engine/ExecutionEngine.cpp:11-32 | the warm-up fields against the real quote count and first quote, past 2^32 quotes too |
| EngineRuns.WarmUp | src/slipstream/engine/ExecutionEngine.cpp:19-26 | no acceptance before ten quotes and the window since the first; below 2^32 quotes a trade finds the engine ready if and only if both are past |
| EngineRuns.LatchedByReadyTrade | src/slipstream/engine/ExecutionEngine.cpp:19-26 | the latch is set exactly by a trade found ready |
| EngineRuns.ReadinessLatches | src/slipstream/engine/ExecutionEngine.cpp:19-26 | once ready, always ready |
| EngineRuns.EachCommand | src/slipstream/SessionControlHandler.cpp:37-68 | in every reachable state: HALT halts an open session and the engine, OPEN reopens a halted one, CLOSE closes and leaves the engine alone, all else changes nothing |
| EngineRuns.HaltFollowsSession | src/slipstream/SessionControlHandler.cpp:37-55 | over any mix of quotes, trades and commands the engine is halted while the session is, and not while it is open |
| EngineRuns.NothingAcceptedWhileHalted | src/slipstream/engine/ExecutionEngine.cpp:63-66 | while HALT no trade is followed, and one that finds the engine ready gets no order at all |
| EngineRuns.CloseIsFinal | src/slipstream/SessionControlHandler.cpp:57-68 | CLOSE is absorbing and freezes the halt flag |
| EngineRuns.ClosedHaltedExactlyWhen | src/slipstream/SessionControlHandler.cpp:57-68 | after CLOSE and any later inputs the engine is halted if and only if the session was halted when CLOSE came |
| EngineWitnesses.TradedQuantityCanExceedMaximum | src/slipstream/engine/ExecutionEngine.cpp:87-92 | a run that ends with traded quantity at twice the maximum |
| EngineWitnesses.CloseDoesNotHalt | src/slipstream/SessionControlHandler.cpp:57-68 | a run in which a trade is bought after CLOSE |
| EngineWitnesses.WrappedVolumeDefeatsCap | src/slipstream/engine/ExecutionEngine.cpp:43 | a run whose next unit of volume is the 2^64th, and which buys it over a cap of 0 |
| EngineWitnesses.CapHoldsExactlyBelow | src/slipstream/engine/ExecutionEngine.cpp:43 | over all settings and runs: every trade bought with volume below a bound is within the cap, if and only if the bound is at most 2^64 |
| EngineWitnesses.WrappedIdRepeats | src/slipstream/engine/ExecutionEngine.cpp:98 | the trade after 2^64 others gets the id of the first |
| EngineWitnesses.IdsIncreaseExactlyUpTo | src/slipstream/engine/ExecutionEngine.cpp:84-98 | emitted ids strictly increase over all runs of at most so many trades if and only if so many is at most 2^64 |
| EngineWitnesses.WrappedCountUnready | src/slipstream/engine/ExecutionEngine.cpp:12-22 | after 2^32 quotes a warm engine is found not ready |
| EngineWitnesses.ReadyMeansWarmExactlyBelow | src/slipstream/engine/ExecutionEngine.cpp:11-26 | over all runs on a steady clock with fewer quotes than a bound, ready means ten quotes and the window, if and only if the bound is at most 2^32 |
| EngineWitnesses.NineAndTen | src/slipstream/engine/ExecutionEngine.h:55 | at a window of length zero nine quotes are not enough and ten are |
| EngineWitnesses.TenQuotesExactly | src/slipstream/engine/ExecutionEngine.cpp:19-26 | over all runs below 2^32 quotes a trade found ready comes after at least n quotes if and only if n <= 10 |
| TradeFlow.TradeMessageHandler.OnMessage | src/slipstream/orders/TradeMessageHandler.cpp:5-16 | throws exactly on what is not a trade, and then changes nothing; otherwise the trade enters the window first, the decision is over the window that includes it, and the order, if any, goes to the sender |
| TradeFlow.CheapIsBelowAverage | src/slipstream/engine/ExecutionEngine.cpp:39-42 | with a band of 1 to 10000 and no wrap, a price that passes the test is strictly below the average |
| TradeFlow.BandSaneExactlyWhen | src/slipstream/engine/ExecutionEngine.cpp:41-42 | the test means strictly below the average if and only if 0 < bandBps <= 10000 |
| TradeFlow.SellBandExactlyWhen | src/slipstream/engine/ExecutionEngine.cpp:51-52 | where nothing wraps, the selling test means strictly above the average if and only if average * bandBps >= 10000 |
| TradeFlow.AcceptedBuyBelowMarket | src/slipstream/engine/ExecutionEngine.cpp:38-46 | an accepted buy has a live trade with quantity priced strictly above it |
| TradeFlow.AcceptedSellAboveMarket | src/slipstream/engine/ExecutionEngine.cpp:48-56 | an accepted sell has a live trade with quantity priced strictly below it |
| TradeFlow.EachQuote | src/slipstream/engine/ExecutionEngine.cpp:11-16 | in every joint run a quote is counted at its own time and touches nothing else |
| TradeFlow.EachTrade | src/slipstream/orders/TradeMessageHandler.cpp:11-14 | a trade enters the window, is decided by the average after it at its own clock readings, and its order is stamped and sent |
| TradeFlow.EachCommandInFlow | src/slipstream/SessionControlHandler.cpp:37-68 | a command does to session and halt flag what it says, and touches nothing else |
| TradeFlow.FollowedOnlyWhenWarm | src/slipstream/engine/ExecutionEngine.cpp:19-32 | over every joint run on a steady clock: a trade is followed only after ten quotes and the window since the first, and only while not halted |
| TradeFlow.FlowIsEngineRun | src/slipstream/orders/TradeMessageHandler.cpp:11-14 | the engine's half of a joint run is a run of EngineRuns |
| TradeFlow.FlowIsServiceRun | src/slipstream/orders/TradeMessageHandler.cpp:11-14 | the service's half is a run of VwapTheory |
| TradeFlow.ServiceHistory | src/slipstream/orders/TradeMessageHandler.cpp:11 | the service's history is exactly the trades that arrived, in order |
| TradeFlow.SentIsLog | src/slipstream/orders/TradeMessageHandler.cpp:12-14 | the orders passed to the sender are exactly those of the engine's log, in order |
| TradeFlow.EveryBuyIsBelowMarket | src/slipstream/engine/ExecutionEngine.cpp:38-56 | over every joint run: a trade bought is strictly below some trade that arrived and is still live |
| TradeFlow.EverySellIsAboveMarket | src/slipstream/engine/ExecutionEngine.cpp:48-56 | over every joint run: a trade sold is strictly above some trade that arrived and is still live |
| TradeFlow.JudgedByWindowAverage | src/slipstream/orders/TradeMessageHandler.cpp:11-12 | over every joint run on one clock, for any quantities, as long as the ring has not been full: the average a trade is judged by is the exact average of all trades that arrived within the window, itself included |
| TradeFlow.EveryBuyIsBelowWindowAverage | src/slipstream/engine/ExecutionEngine.cpp:38-46 | so every trade bought is priced strictly below that exact average |
| TradeFlow.EverySellIsAboveWindowAverage | src/slipstream/engine/ExecutionEngine.cpp:48-56 | and every trade sold strictly above it |
| FlowWitnesses.BuyingHappens | src/slipstream/engine/ExecutionEngine.cpp:68-71 | a joint run in which a trade is bought, so the statements about bought trades are not empty |
| FlowWitnesses.SellingHappens | src/slipstream/engine/ExecutionEngine.cpp:72-75 | a joint run in which, after that, one is sold |
| Slipstream.StartIsInit | src/slipstream/main.cpp:79-98 | the program as started, with two connections and empty queues, is one of the states runs begin in |
| Slipstream.RunInv | src/slipstream/main.cpp:79-98 | the invariant of the whole program: receivers, both queues, engine and sender stay in step in every interleaving |
| Slipstream.OrdersComeFromBytes | src/slipstream/main.cpp:79-98 | in every interleaving of all threads, for any bytes: the bytes written parse to a prefix of the orders the engine gives out over its inputs; those inputs are the messages handled, the first of the published ones; of these each connection's are the first of what its thread's turns gave, and, where no frame shorter than its struct is reached, of the one-shot decoding of the bytes it took |
| Slipstream.InputsAreHandedOver | src/slipstream/main.cpp:79-98 | over every interleaving the engine's inputs are the operator's commands and the handled quotes and trades, merged in the order of the actions, each with its clock readings |
| Slipstream.CommandsArrive | src/slipstream/SessionControlHandler.cpp:19-34 | so the commands among them are exactly those given, in order |
| Slipstream.NoAcceptedOrderWhileHalted | src/slipstream/SessionControlHandler.cpp:37-55 | over every interleaving: from a HALT of an open session until the next OPEN the engine is halted and every order asked for is a rejection |
| Slipstream.FromAllClients | src/slipstream/main.cpp:86-95 | for any number of connections whose bytes clients wrote: the messages handled are an interleaving of the first ones each client sent, in its order, up to the HALT/CLOSE exchange |
| Slipstream.BudgetOnWire | src/slipstream/engine/ExecutionEngine.cpp:38-46 | at every moment of every interleaving the accepted buys in the bytes written sum to at most the maximum and the cap, while the volume fits 64 bits |
| OrderProgress.NextStep | src/slipstream/network/OrderMessageSender.cpp:10-46 | as long as an order passed to send is not written, a step of one of the two threads is possible that leaves less to do |
| OrderProgress.DoneExactlyWhen | src/slipstream/network/OrderMessageSender.cpp:10-46 | nothing is left to do only when everything passed to send is written |
| Progress.SomeThreadMoves | src/slipstream/main.cpp:79-98 | in every reachable state with anything outstanding some thread can take a step that leaves less to do: no deadlock |
| Progress.EverythingGetsOut | src/slipstream/main.cpp:79-98 | from every reachable state the threads have a finite way on, without further chunks or commands, after which all messages received are handled and all their orders are written |
| CsvPrice.ParsePrice | src/libs/csvparser/CSVParser.cpp:134-156 | the digit loop, its early exit and the padding loop compute the integer part and the first four decimals, modulo 2^64, of any text |
| CsvPrice.DigitValues | src/libs/csvparser/CSVParser.cpp:147 | each digit by its value, any other character by its distance from '0' |
| CsvPrice.SomePrices | src/libs/csvparser/CSVParser.cpp:134-156 | 12.5 is 125000, 12 is 120000 and 12.34567 is 123456 |
| CsvPrice.SecondPointIgnored | src/libs/csvparser/CSVParser.cpp:139-142 | a second point is as if it were not there |
| CsvPrice.PriceIsFloor | src/libs/csvparser/CSVParser.cpp:134-156 | for every digit string with or without decimals: floor of ten thousand times the number |
| CsvPrice.OrderPreserved | src/libs/csvparser/CSVParser.cpp:134-156 | of two decimal numbers, however many decimals each has, the larger never parses to the smaller price, as long as its price fits 64 bits |
| CsvPrice.TrailingZeroIgnored | src/libs/csvparser/CSVParser.cpp:134-156 | a trailing zero changes nothing |
| CsvPrice.ParseInvertsPrint | src/libs/csvparser/CSVParser.cpp:134-156 | parsing undoes a four-decimal printer for every 64-bit price |
| CsvRows.TimestampExact | src/libs/csvparser/CSVParser.cpp:123-132 | a well-formed time is its milliseconds since midnight, without wrapping |
| CsvRows.CSVParser.constructor | src/libs/csvparser/CSVParser.cpp:108-121 | skips comments, blank lines and one header line |
| CsvRows.CSVParser.ReadQuote | src/libs/csvparser/CSVParser.cpp:19-61 | the next Q row left in the file; if there is none, the end, or the first line whose first field is too short for a time |
| CsvRows.CSVParser.ReadTrade | src/libs/csvparser/CSVParser.cpp:63-102 | the next T row left in the file; if there is none, the end, or the first line whose first field is too short for a time |
| CsvRows.ReadAllQuotes | src/market_client/MarketClient.cpp:8-32 | repeated reading gives exactly the Q rows, in order, up to the first bad symbol or line without a time |
| CsvRows.ReadAllTrades | src/order_client/TradeClient.cpp:8-32 | repeated reading gives exactly the T rows, in order, up to the first bad symbol or line without a time |
| CsvRoundTrip.FieldsOfJoin | src/libs/csvparser/CSVParser.cpp:28-56 | splitting a line at its commas undoes joining comma-free fields |
| CsvRoundTrip.QuoteReadsBack | src/libs/csvparser/CSVParser.cpp:28-56 | a written quote row reads back as the quote |
| CsvRoundTrip.TradeReadsBack | src/libs/csvparser/CSVParser.cpp:72-97 | a written trade row reads back as the trade, however many columns are left empty |
| CsvRoundTrip.QuantityEdges | src/libs/csvparser/CSVParser.cpp:158-162 | what follows the digits does not matter; a number past 64 bits, or none, reads as 0 |
| CsvRoundTrip.ShortQuote | src/libs/csvparser/CSVParser.cpp:41-56 | the missing columns of a quote row read as its last one |
| CsvRoundTrip.ShortTrade | src/libs/csvparser/CSVParser.cpp:85-97 | a trade row without a quantity reads its price again |
| CsvRoundTrip.BareTrade | src/libs/csvparser/CSVParser.cpp:85-97 | a trade row with neither reads its symbol again |
| CsvRoundTrip.BadSymbols | src/libs/csvparser/CSVParser.cpp:164-168 | a symbol that is not twelve characters is refused by both readers |
| CsvRoundTrip.SessionReadsBack | src/libs/csvparser/CSVParser.cpp:19-102 | a written session of quotes and trades reads back: each reader gets its own kind, complete, exact and in order |
| CsvRoundTrip.HeaderSkipped | src/libs/csvparser/CSVParser.cpp:108-121 | comments, blank lines and the header in front of a session are skipped, and nothing else |
| CsvRoundTrip.QuotesOfFile | src/market_client/MarketClient.cpp:8-32 | opening a written file, preamble and header included, and reading it as the market client does gives exactly its quotes |
| CsvRoundTrip.TradesOfFile | src/order_client/TradeClient.cpp:8-32 | reading it as the order client does gives exactly its trades |

## Left out

- Sockets, partial sends and closing: what the socket delivers is a list of chunks, `sendBuffer` an append.
- Clocks, sleeps and the heartbeat timeout: clock readings are parameters, and a run may stop anywhere.
- Command-line parsing and the printed report: plumbing and floating point.
- `InboundMessageQueue.h` is not part of this model: the queue between receivers and demultiplexer is taken to be the
  multi-producer queue with some positive capacity.
- ExecReport is never sent by the program, and OrderBookService keeps the latest quote, which nothing reads back;
  QuoteMessageHandler and MasterMessageHandler only dispatch, as `Slipstream.InputFor` does.
- Receiver.NetworkMessageReceiver.TryReceive: a frame shorter than its struct is decoded with the bytes behind it, as in the source; where that would run past the end of the buffer, undefined in the source, it ends with OutOfBounds.
- Receiver.NetworkMessageReceiver.PushBatch: pushing is recorded as a history; the retries on a full queue are steps of QueueProtocol, in Slipstream's interleavings, and `EverythingGetsOut` is about them.
- OrderPipeline.OrderMessageSender.Run: run by one thread on what the queue holds; the interleavings with `send` are in `NoOrderLost`.
- Demultiplexer.MessageDeMultiplexer.Run: run by one thread on what the queue holds; the interleavings with the producers are in `EveryMessageHandledInOrder`.
- RingQueue.RingQueue.Emplace: run by one thread at a time; the interleavings are in QueueProtocol and SpscProtocol. The single-producer and the multi-producer class share this one, as they differ only in the mutex.
- Progress.EverythingGetsOut: says what the threads can do, not that the operating system lets them run.
- Engine.ExecutionEngine.HandleTrade: one atomic step; `isHalted` is written by another thread without synchronisation in the source.
- Engine.ExecutionEngine.HandleAccepted: the source has one such method for each side, which differ only in the side.
- Session.SessionControlHandler.HandleClose: the calls on the receivers and the signal are recorded in order; what they close is a socket.
- EngineRuns.BoughtExactlyWhen: where no 64-bit value wraps and prices are not negative; `SoldExactlyWhen` and `MaximumPassedExactlyWhen` likewise. What the wraps do is in `MaximumKeptExactlyWhen`, `BandSaneExactlyWhen` and `CapHoldsExactlyBelow`.
- VwapTheory.MeanWithinPrices: non-negative prices; negative ones are modelled, modulo 2^128, but their mean is not described.
- TradeFlow.AcceptedBuyBelowMarket: positive prices, as a negative one turns into a huge unsigned number in the test.
- CsvRows.CSVParser.ReadQuote: characters are ASCII, and opening the file always succeeds; a line whose first field is shorter than a time, which the source reads past the end of, ends the reading with OutOfBounds.
- Gcmd.EncodeIsFrame: the host is little-endian, as the packed structs are written as they lie in memory.
