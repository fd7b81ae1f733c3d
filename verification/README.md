# Verification of the low-latency core

A Dafny model of the self-contained algorithms of the systems stack: the lock-free
single-producer single-consumer ring, the log2 latency histogram, the arena and the object pool,
and the SBE tick codec with the stub receive mailbox. `dafny verify dfyconfig.toml` checks it.

## What is modelled

**The ring (`SpscMachine`, `SpscSafety`, `SpscRefinement`, `SpscSchedules`, `SpscThirdThread`,
`SpscStress`, `SpscQueues`).** `SpscMachine` is a step machine: every atomic load, atomic store and slot access
of `try_push`, `try_pop` and `empty` is one step, and the two threads interleave freely. The memory
model is the release/acquire fragment of ISO/IEC 14882:2020, sections 6.9.2 and 31.4: an index is
the list of the values stored to it, a load of the other thread's index may return any value not
older than the last one seen, vector clocks carried by release stores and merged by acquire loads
give happens-before, and an unordered pair of slot accesses is a data race. The four memory orders
are parameters. A run is a list of events that resolve all nondeterminism, so a statement about
every list of events is a statement about every run; the value left in a moved-from slot is one of
these choices. Plain interleaving is the special case in which every load is `Newest`.
The invariant speaks of unbounded tickets (the k-th push and the k-th pop); that masked indices
never confuse two tickets is proved from the bitwise definition of `&` and the template's
`(Capacity & (Capacity - 1)) == 0`.
`SpscQueues.SpscQueue` is the class itself, in its own imperative form. Its methods are verified
with arbitrary interference by the other thread between any two of their memory accesses. An index
is the sequence of the values stored to it, and a load of the other thread's index may return any
of them that coherence allows, so the contracts hold for stale loads too. The ghost log makes every
state of the class a state of the step machine, and each contract names the logged step of its call
that decided the answer.

**The histogram (`Samples`, `Histograms`).** The class is verified against the list of samples
recorded since the last reset; counters and the sum are 64-bit and wrap. The percentile scan is
proved to answer for the k-th element of the sorted list.

**Arena and object pool (`Arenas`, `ObjectPools`).** Addresses and sizes are 64-bit words, sums of
them wrap, and the mask expressions are bitwise. The pool's free stack is followed over whole runs of its clients.

**SBE (`Bytes`, `SbeWire`, `SbeCodec`, `SbeStyle`, `StubRx`).** Integers are laid out in memory in
the host's byte order, the endian macros are byte swaps or identities accordingly, and the
flyweights write into the caller's array in place. A decode has three outcomes: true, false and a
thrown exception. What a decode reads of the buffer behind the bytes it was given is part of the
model. The format is that of FIX Simple Binary Encoding 1.0, sections 3 and 5.

**Scenarios (`Scenarios`).** The inputs of the repository's unit tests, with literal results proved
of the model.

Module `Bits` holds the bitwise operators and what they compute for powers of two; `Options` holds
the usual optional value.

## Where the code does not do what it says or seems to

- `include/ll/sbe_codec.hpp:43` says a short buffer makes `decode_tick` return false. It does so
  only below 8 bytes; between the header and the claimed end of the block the flyweight throws.
  `SbeWire.DecodeTruncated` states which.
- `include/ll/hdr_histogram.hpp:86` calls the representative a geometric mid. It is the arithmetic
  midpoint lo + lo/2, and for bucket 1 it is lo.
- `include/ll/arena.hpp:31` throws `std::bad_alloc` when the block would end behind the storage, but
  the end it compares is a sum that may have wrapped. `Arenas.ServedRightly` states exactly when the answer is right,
  `Arenas.WrappingRequest` is a request for which it is not.
- `include/ll/spsc_queue.hpp:68` lets any thread call `empty()`. On a thread that is neither
  endpoint a true answer can be wrong at every instant of the call;
  `SpscThirdThread.EmptyOnThirdThread` states for which capacities.
- `docs/blueprint/04-concurrency.md` describes a ring without saying that a ring of `Capacity`
  slots holds at most `Capacity - 1` items. The model follows the code.

## Results worth reading first

- `SpscSafety.FifoSafety`: with arbitrarily stale loads nothing is lost, duplicated or reordered,
  and no slot access races. `SpscSchedules.OrdersAreNecessary`: the four acquire and release orders
  are exactly what race freedom needs.
- `SpscRefinement.RunRefines`: every run is a run of an atomic FIFO of capacity `Capacity - 1`.
- `SpscSchedules.WaitFree`, `SpscStress.FairRunFinishes`, `SpscStress.FinishedRun`: progress,
  termination under fair scheduling, and the result of the stress test.
- `SpscThirdThread.EmptyOnThirdThread`, `SpscThirdThread.NotEmptyOnThirdThread`: what `empty()` is
  worth on a third thread.
- `Histograms.HdrLatencyHistogram.ValueAtPercentile` and `Histograms.PercentileError`: what the
  scan returns, and exactly when it is within 50% of the true percentile.
- `Arenas.Arena.Allocate`: least address, and failure exactly when nothing fits, for every 64-bit
  request whose end does not wrap into the storage, and for no other.
- `ObjectPools.ObjectPool.Release`: conservation is kept exactly when the caller held the slot.
- `SbeWire.EncodeDecode`, `SbeWire.DecodeExtended`, `SbeWire.DecodeStaysInSpan`, `StubRx.TickThroughRx`.

## Model

| member | source | states |
|---|---|---|
| Bits.PowerOfTwoTest | include/ll/spsc_queue.hpp:21 | the template's test `(Capacity & (Capacity - 1)) == 0` accepts exactly the powers of two |
| Bits.AndMask | include/ll/spsc_queue.hpp:25 | masking with Capacity - 1 is reduction modulo a power-of-two Capacity, for every number |
| Bits.AndHighMask | include/ll/arena.hpp:29 | masking with the complement of align - 1 rounds down to a multiple of the alignment |
| Bits.BitLengthBracket | include/ll/hdr_histogram.hpp:75-77 | 63 minus the leading zeros of v is floor(log2 v): it brackets v between two powers of two |
| Bits.WrapIsModulo | include/ll/hdr_histogram.hpp:27-32 | a 64-bit counter holds the number of increments modulo 2^64 |
| SpscSafety.IndexIsModulo | include/ll/spsc_queue.hpp:25 | the index of an unbounded ticket is the ticket modulo Capacity |
| SpscSafety.ValidCapacity | include/ll/spsc_queue.hpp:20-21 | the template accepts exactly the powers of two from 2 on |
| SpscSafety.DistinctSlots | include/ll/spsc_queue.hpp:39 | tickets less than one lap apart never share an index, so wrapping never confuses two items |
| SpscSafety.NextTicket | include/ll/spsc_queue.hpp:35 | `(t + 1) & mask` of a ticket's index is the next ticket's index, for unbounded tickets |
| SpscSafety.FullVerdict | include/ll/spsc_queue.hpp:35-38 | `next == head` holds exactly when the pushes are Capacity - 1 ahead of the head value that was loaded, stale or not |
| SpscSafety.EmptyVerdict | include/ll/spsc_queue.hpp:59-62 | `h == tail` holds exactly when the tail value that was loaded, stale or not, equals the number of pops |
| SpscSafety.RingStep | include/ll/spsc_queue.hpp:32-71 | every step of either thread keeps the ring invariant: index values, bounds between the tickets, each thread's locals, FIFO order of the popped items, and every live item intact in its slot |
| SpscSafety.WriteIsOrdered | include/ll/spsc_queue.hpp:36-39 | when the producer is about to overwrite a slot, the consumer's last access to it happens before |
| SpscSafety.TakeIsOrdered | include/ll/spsc_queue.hpp:60-63 | when the consumer is about to move an item out, the producer's write of that slot happens before |
| SpscSafety.SafeStep | include/ll/spsc_queue.hpp:16-19 | with the orders in the code, every step keeps the happens-before invariant of both indices, and none races |
| SpscSafety.SlotItemsAreTickets | include/ll/spsc_queue.hpp:74-76 | the items read off the masked indices and the slots are exactly the pushed items not yet moved out, in order |
| SpscSafety.Conservation | include/ll/spsc_queue.hpp:59-65 | in every ring state, with the consumer possibly holding an item, popped plus in hand plus slot contents equals pushed |
| SpscSafety.FifoSafety | include/ll/spsc_queue.hpp:32-66 | in every run, with arbitrarily stale loads: no race, popped plus in hand plus slot contents equals pushed, at most Capacity - 1 items |
| SpscSafety.SlotsApart | include/ll/spsc_queue.hpp:34-40 | in every run, while the producer is past its full check and the consumer past its empty check, they use different slots |
| SpscRefinement.StepRefines | include/ll/spsc_queue.hpp:40 | a step is a stutter, or one enqueue (the tail store) or one dequeue (the head store) that the atomic bounded FIFO permits |
| SpscRefinement.RunRefines | include/ll/spsc_queue.hpp:32-66 | every run is a run of the atomic FIFO of capacity Capacity - 1, with the same contents |
| SpscRefinement.FullIsExact | include/ll/spsc_queue.hpp:36-38 | "not full" is true of the queue at the load; "full" is true of it exactly when the load was not stale |
| SpscRefinement.EmptyIsExact | include/ll/spsc_queue.hpp:60-62 | "not empty" is true of the queue at the load; "empty" is true of it exactly when the load was not stale |
| SpscRefinement.EmptyOnProducer | include/ll/spsc_queue.hpp:68-71 | on the producer's thread, `empty()` is true exactly if the queue was empty at its first load and that load was not stale, for all consumer steps in between |
| SpscRefinement.EmptyOnConsumer | include/ll/spsc_queue.hpp:68-71 | on the consumer's thread, a false `empty()` is true of the queue at the second load, and a true one exactly when that load was not stale, for all producer steps in between |
| SpscSchedules.CompletePush | include/ll/spsc_queue.hpp:32-42 | if the queue is not full, the producer alone, from any point of its code, completes exactly the pending push |
| SpscSchedules.CompletePop | include/ll/spsc_queue.hpp:57-66 | if the queue is not empty, the consumer alone, from any point of its code, pops exactly the oldest item |
| SpscSchedules.NeverBlocked | include/ll/spsc_queue.hpp:13-14 | wherever both threads are in their code, each has an enabled next step |
| SpscSchedules.WaitFree | include/ll/spsc_queue.hpp:13-14 | a call returns within four steps of its own thread, whatever the other thread does and however stale the loads are |
| SpscSchedules.StaleRefusal | include/ll/spsc_queue.hpp:36-38 | for every Capacity, a run in which a push finds the queue full although it holds only Capacity - 2 items |
| SpscSchedules.StaleNothing | include/ll/spsc_queue.hpp:60-62 | for every Capacity, a run in which a pop finds the queue empty although it holds an item |
| SpscSchedules.UnorderedStep | include/ll/spsc_queue.hpp:16-19 | without a release/acquire pair on the tail every pop races, and without one on the head every write of a second lap does |
| SpscSchedules.OrdersAreNecessary | include/ll/spsc_queue.hpp:16-19 | all runs are race free if and only if both index loads acquire and both index stores release |
| SpscThirdThread.EmptyOnThirdThread | include/ll/spsc_queue.hpp:68-71 | with newest loads in either order, a true answer on a third thread means in all runs that the queue was empty at some instant between its two loads, if and only if Capacity is 2 |
| SpscThirdThread.NotEmptyOnThirdThread | include/ll/spsc_queue.hpp:68-71 | for every Capacity, a false answer on a third thread means in all runs that the queue held an item at some instant between its two loads |
| SpscThirdThread.ToldEmptyAtTwo | include/ll/spsc_queue.hpp:68-71 | at Capacity 2 no run of the endpoints between the two loads makes a true answer wrong |
| SpscThirdThread.MisledHeadFirst | include/ll/spsc_queue.hpp:68-71 | above Capacity 2, a run in which `head` is loaded, one pop and one push go by, and `tail` compares equal although the queue never was empty |
| SpscThirdThread.MisledTailFirst | include/ll/spsc_queue.hpp:68-71 | the same with `tail` loaded first, and one push and one pop going by |
| SpscThirdThread.StaleEmpty | include/ll/spsc_queue.hpp:68-71 | with stale loads on a third thread, for every Capacity, a true answer about a queue that holds an item and does not change |
| SpscThirdThread.StaleNotEmpty | include/ll/spsc_queue.hpp:68-71 | with stale loads on a third thread, for every Capacity, a false answer about an empty queue that does not change |
| SpscStress.GoodStep | tests/test_ll_modules.cpp:38-54 | every step of the stress program keeps: the pushes are 1, 2, 3, ..., and the loop variables and the partial sum agree with the queue |
| SpscStress.FinishedRun | tests/test_ll_modules.cpp:34-56 | no run of the program races, and every finished run received 1..N in order with sum N(N+1)/2 |
| SpscStress.Progress | tests/test_ll_modules.cpp:38-54 | in every reachable unfinished state one thread, run alone, completes a successful operation, leaving one fewer to come |
| SpscStress.ConsumerMustPop | tests/test_ll_modules.cpp:45-53 | while the queue holds an item, enough consumer steps bring a success, whatever producer steps come between them |
| SpscStress.ProducerMustPush | tests/test_ll_modules.cpp:38-43 | while the queue is empty, enough producer steps bring a success, whatever consumer steps come between them |
| SpscStress.WindowProgress | tests/test_ll_modules.cpp:38-54 | in any interleaving in which each unfinished thread takes as many steps as one success needs, with newest loads, the successes to come drop |
| SpscStress.FairWindowExists | tests/test_ll_modules.cpp:38-54 | from every reachable state such an interleaving is possible |
| SpscStress.FairRunFinishes | tests/test_ll_modules.cpp:34-56 | every run made of 2N such windows has finished both loops, with 1..N received in order and the tested sum |
| SpscQueues.SpscQueue.constructor | include/ll/spsc_queue.hpp:27 | a new queue is the machine's initial state, for every allowed capacity |
| SpscQueues.SpscQueue.ModelIsRing | include/ll/spsc_queue.hpp:32-66 | whatever steps the two threads have taken, the queue satisfies the ring invariant and has not raced |
| SpscQueues.SpscQueue.LoadOwnTail | include/ll/spsc_queue.hpp:34 | the producer starts its call with the index of its next slot, pushing nothing yet |
| SpscQueues.SpscQueue.LoadHead | include/ll/spsc_queue.hpp:35-38 | any coherent value of `head` may be loaded, in a logged step of this call; "not full" is true of the queue at that step, "full" exactly if the load was not stale |
| SpscQueues.SpscQueue.WriteSlot | include/ll/spsc_queue.hpp:39 | the item is in the slot, pushed to nobody yet |
| SpscQueues.SpscQueue.StoreTail | include/ll/spsc_queue.hpp:40 | the pending item becomes the last one pushed |
| SpscQueues.SpscQueue.LoadOwnHead | include/ll/spsc_queue.hpp:59 | the consumer starts its call with the index of the oldest item, popping nothing yet |
| SpscQueues.SpscQueue.LoadTail | include/ll/spsc_queue.hpp:60-62 | any coherent value of `tail` may be loaded, in a logged step of this call; "not empty" is true of the queue at that step, "empty" exactly if the load was not stale |
| SpscQueues.SpscQueue.TakeSlot | include/ll/spsc_queue.hpp:63 | what is moved out of the slot is the oldest item not yet popped, and what stays behind is arbitrary |
| SpscQueues.SpscQueue.StoreHead | include/ll/spsc_queue.hpp:64 | the item moved out becomes the last one popped |
| SpscQueues.SpscQueue.TryPush | include/ll/spsc_queue.hpp:32-54 | under any interference and stale loads: pushes its item or nothing; a success only if the queue was not full at the step of this call that loads `head`; after a failure the queue was full there exactly if that load was not stale |
| SpscQueues.SpscQueue.TryPop | include/ll/spsc_queue.hpp:57-66 | under any interference and stale loads: removes the oldest item of the queue at the step of this call that loads `tail`, or nothing; after a failure the queue was empty there exactly if that load was not stale |
| SpscQueues.SpscQueue.EmptyFromProducer | include/ll/spsc_queue.hpp:68-71 | on the producer's thread the answer is true exactly if the queue was empty at the step of this call that loads `head` and that load was not stale |
| SpscQueues.SpscQueue.EmptyFromConsumer | include/ll/spsc_queue.hpp:68-71 | on the consumer's thread a false answer is true of the queue at the step of this call that loads `tail`, and a true one exactly if that load was not stale |
| Samples.BucketIsRange | include/ll/hdr_histogram.hpp:71-80 | a sample is counted in bucket i exactly when it lies in [2^(i-1), 2^i), the last bucket taking the rest, bucket 0 only zero |
| Samples.BucketMonotone | include/ll/hdr_histogram.hpp:71-80 | a larger sample is never counted in a lower bucket |
| Samples.RepresentativeExact | include/ll/hdr_histogram.hpp:82-89 | for every bucket a 64-bit sample can reach, the shift stays below 64 and nothing overflows |
| Samples.RepresentativeError | include/ll/hdr_histogram.hpp:71-89 | the representative of a sample's bucket is within half of the sample exactly if the sample is at most 3 * 2^(Buckets-2), and never above it by more than half |
| Samples.CountAdds | include/ll/hdr_histogram.hpp:52-55 | adding bucket i to the samples counted below i gives those counted below i + 1 |
| Samples.CountInIsInRange | include/ll/hdr_histogram.hpp:31-32 | a bucket's count is the number of samples in its range |
| Samples.RankInSorted | include/ll/hdr_histogram.hpp:52-58 | in the sorted list the samples of the buckets below i are exactly the first ones, as many as are counted |
| Samples.FirstBucketHoldsRank | include/ll/hdr_histogram.hpp:52-58 | the first bucket at which the running count reaches k holds the k-th smallest sample |
| Samples.DigestOfPermutation | include/ll/hdr_histogram.hpp:26-33 | count, sum, extremes and bucket counts do not depend on the order of the samples |
| Samples.ExtremesAttained | include/ll/hdr_histogram.hpp:28-29 | the least and the greatest sample are samples, and bound all of them |
| Samples.TotalAdds | include/ll/hdr_histogram.hpp:30 | the total of one sample is the sample, and the total of two lists together is the sum of theirs |
| Samples.BelowInSorted | include/ll/hdr_histogram.hpp:52-58 | in a sorted list the samples less than a bound are the first ones, as many as are counted |
| Samples.RankedBySorting | include/ll/hdr_histogram.hpp:49-58 | the k-th entry of the sorted list is the one sample with fewer than k samples below it and at least k not above it |
| Histograms.RankBounds | include/ll/hdr_histogram.hpp:49-51 | the target is between 1 and the count, and is the exact ceiling of pct * count / 100 |
| Histograms.RankOfAll | include/ll/hdr_histogram.hpp:49-51 | from 100 on the target is the count |
| Histograms.PercentileIsRanked | include/ll/hdr_histogram.hpp:45-60 | the percentile of the samples is the value x among them with fewer than k samples below and at least k not above it, k the target rank, and no other value |
| Histograms.PercentileError | include/ll/hdr_histogram.hpp:45-60 | the answer is within half of the true percentile x exactly if x is at most 3 * 2^(Buckets-2), and never exceeds max + max/2 |
| Histograms.PercentileMonotone | include/ll/hdr_histogram.hpp:45-60 | a higher percentile never gets a lower answer |
| Histograms.HdrLatencyHistogram.constructor | include/ll/hdr_histogram.hpp:91-95 | a new histogram is that of the empty sample list: counters and max are 0, min is 2^64 - 1 |
| Histograms.HdrLatencyHistogram.Record | include/ll/hdr_histogram.hpp:26-33 | the state after it is that of the sample list extended by the value, with 64-bit counters |
| Histograms.HdrLatencyHistogram.Reset | include/ll/hdr_histogram.hpp:62-68 | the state after it is that of the empty sample list: counters and max are 0, min is 2^64 - 1 |
| Histograms.HdrLatencyHistogram.Scan | include/ll/hdr_histogram.hpp:52-59 | the scan ends inside the loop, in the bucket of the target-th smallest sample |
| Histograms.HdrLatencyHistogram.ValueAtPercentile | include/ll/hdr_histogram.hpp:45-60 | no answer exactly without samples or with pct <= 0; else the representative of the bucket of a sample with fewer than k samples below it and at least k not above it, k = ceil(pct/100 * count) |
| Histograms.HdrLatencyHistogram.Mean | include/ll/hdr_histogram.hpp:40-42 | the mean is the exact quotient and lies between min and max, unless a counter wrapped |
| Histograms.HdrLatencyHistogram.MinValue | include/ll/hdr_histogram.hpp:36-38 | 0 without samples, else the sample that no other is below |
| Histograms.HdrLatencyHistogram.MaxValue | include/ll/hdr_histogram.hpp:39 | 0 without samples, else the sample that no other is above |
| Histograms.HdrLatencyHistogram.ExtremesAreSamples | include/ll/hdr_histogram.hpp:26-33 | min and max are recorded samples, and bound all the others |
| Histograms.HdrLatencyHistogram.CountsConserved | include/ll/hdr_histogram.hpp:26-33 | each bucket counts exactly the samples in its range, and the buckets add up to the count |
| Histograms.OrderIndependent | include/ll/hdr_histogram.hpp:91-95 | two histograms that recorded the same multiset of samples are equal field by field |
| Arenas.MaskRoundsUp | include/ll/arena.hpp:28-30 | for every 64-bit cursor the mask expression is the least multiple of a power-of-two alignment at or above it, and 0 if that multiple is 2^64 |
| Arenas.ServedRightly | include/ll/arena.hpp:27-36 | for every 64-bit size and alignment: the least aligned address is returned, or the call throws because no aligned block fits, if and only if `offset_ + delta + n` stays below 2^64 or wraps beyond the storage |
| Arenas.ModestIsServedRightly | include/ll/arena.hpp:27-36 | the answer is right whenever capacity plus alignment plus size is at most 2^64 |
| Arenas.WrappingRequest | include/ll/arena.hpp:31 | 2^64 - 16 bytes asked of a 64-byte arena with 32 in use do not throw, and leave used() at 16 |
| Arenas.ServedAllRightly | include/ll/arena.hpp:27-36 | in a list of requests each one that cannot wrap is answered rightly from where the one before it ended |
| Arenas.AnswersAreBlocks | include/ll/arena.hpp:27-36 | every address answered is the address of a block of the size and alignment asked for, behind the blocks there were |
| Arenas.Arena.constructor | include/ll/arena.hpp:20-21 | a new arena has handed out nothing |
| Arenas.Arena.Allocate | include/ll/arena.hpp:27-36 | for every 64-bit size: the least aligned address at or above the cursor, or a throw that changes nothing exactly when no aligned block fits, if and only if the end does not wrap into the storage; then all blocks since the reset stay aligned, inside the storage, in order and disjoint, and used() is at most the sum of n + align - 1 |
| Arenas.Arena.Reset | include/ll/arena.hpp:44 | nothing is handed out any more |
| Arenas.Arena.Remaining | include/ll/arena.hpp:48-50 | the remaining bytes start at base + used(), reach to the end of the storage, and overlap no block |
| Arenas.Arena.AllocateAll | include/ll/arena.hpp:27-36 | a whole list of requests of any size is answered one by one from where the previous one ended; if none can wrap, exactly the blocks answered, with those before, are aligned, inside the storage, in order and disjoint |
| Arenas.Arena.Replay | include/ll/arena.hpp:44 | after a reset a list of requests is served from the start of the storage, and the same list after another reset gets the same addresses and failures |
| ObjectPools.ObjectPool.constructor | include/ll/arena.hpp:61-66 | a new pool has every slot free exactly once |
| ObjectPools.ObjectPool.Acquire | include/ll/arena.hpp:68-73 | pops one pointer off the free stack and holds that slot alone in addition; keeps the partition into free and held slots, returns null exactly when all N are held, never a held slot |
| ObjectPools.ObjectPool.Release | include/ll/arena.hpp:75-80 | pushes the pointer unless null or full, and that slot alone is no longer held; the partition is kept exactly if the caller held it or the call is a no-op, and for a held slot the guard does not fire |
| ObjectPools.ObjectPool.Available | include/ll/arena.hpp:82 | the number of free slots, N less those held |
| ObjectPools.FreeAndHeldAddUp | include/ll/arena.hpp:82 | available() plus the slots held is N |
| ObjectPools.ReleaseKeeps | include/ll/arena.hpp:79 | pushing a slot keeps the partition exactly if the slot was held |
| ObjectPools.CallMoves | include/ll/arena.hpp:68-80 | a call moves exactly the slot it hands out or takes back between the free stack and the held slots, or nothing |
| ObjectPools.DisciplinedRun | include/ll/arena.hpp:68-80 | in every run whose clients release only what they hold: partition, null exactly when all are out, no held slot handed out, exactly one slot changing sides per successful call, guard never fires |
| ObjectPools.LastReleasedFirstOut | include/ll/arena.hpp:72-79 | once everything acquired since a release has been matched, the next acquire returns the released pointer |
| Bytes.StoreIsLittleEndian | generated/sbe/market_sbe/Tick.h:52-65 | encode then memcpy leaves little-endian bytes in memory, on hosts of either byte order |
| Bytes.LoadIsLittleEndian | generated/sbe/market_sbe/Tick.h:52-65 | memcpy then decode reads little-endian bytes, on hosts of either byte order |
| Bytes.ToFromLe | generated/sbe/market_sbe/Tick.h:362-374 | the bytes of a field are determined by its value |
| Bytes.ToLeDigit | generated/sbe/market_sbe/Tick.h:52-65 | the k-th little-endian byte is the k-th digit of the value in base 256 |
| Bytes.DigitIsQuotient | generated/sbe/market_sbe/Tick.h:52-65 | the k-th digit is the value divided by 256^k, modulo 256 |
| Bytes.MemoryDigit | generated/sbe/market_sbe/Tick.h:52-65 | in memory the digits ascend on a little-endian host and descend on a big-endian one |
| Bytes.TwosComplement | generated/sbe/market_sbe/Tick.h:425-437 | the bits of an int32_t are its value modulo 2^32, and give it back |
| SbeWire.HeaderFields | generated/sbe/market_sbe/MessageHeader.h:263-464 | the four header getters read what the four setters wrote |
| SbeWire.BodyFields | generated/sbe/market_sbe/Tick.h:362-626 | the five getters read what the five setters wrote, negative prices included, wherever the body lies |
| SbeWire.BodyOfFields | generated/sbe/market_sbe/Tick.h:362-626 | setting the five values that were read writes the same 24 bytes |
| SbeWire.DecodeExtended | include/ll/sbe_codec.hpp:55-63 | any version, and any claimed block length, decodes to the five fields once the whole claimed block is there, and throws before |
| SbeWire.DecodeEncode | include/ll/sbe_codec.hpp:29-64 | decoding an encoding, followed by anything, returns the same values |
| SbeWire.EncodeDecode | include/ll/sbe_codec.hpp:29-64 | a message with header (24, 1, 77, 0) decodes to v exactly if its first 32 bytes are the encoding of v |
| SbeWire.DecodeTruncated | include/ll/sbe_codec.hpp:44-57 | an encoding cut to n bytes: false below 8, throw below 32, the values at 32 |
| SbeWire.DecodeMismatch | include/ll/sbe_codec.hpp:51-54 | with a complete header, false is returned exactly unless the schema is 77 and the template 1 |
| SbeWire.WireHeader | generated/sbe/market_sbe/Tick.h:170-193 | every encoding starts with the bytes 24 0 1 0 77 0 0 0 |
| SbeWire.WireDigits | generated/sbe/market_sbe/Tick.h:362-626 | the bytes of the five fields at 8, 12, 16, 20 and 24 are their digits in base 256, the price modulo 2^32 |
| SbeWire.PeerMessage | include/ll/sbe_codec.hpp:44-64 | the header bytes 24 0 1 0 77 0 0 0 and a body, followed by anything, decode to the body's fields |
| SbeWire.DecodeStaysInSpan | include/ll/sbe_codec.hpp:44-64 | the outcome depends on the bytes of the span alone, exactly unless the claimed block ends within the span and the five fields end behind it |
| SbeCodec.MessageHeader.SetBlockLength | generated/sbe/market_sbe/MessageHeader.h:270-275 | writes the two little-endian bytes at offset 0 of the header, on either host, and nothing else |
| SbeCodec.MessageHeader.SetTemplateId | generated/sbe/market_sbe/MessageHeader.h:333-338 | writes the two little-endian bytes at offset 2 of the header, on either host, and nothing else |
| SbeCodec.MessageHeader.SetSchemaId | generated/sbe/market_sbe/MessageHeader.h:396-401 | writes the two little-endian bytes at offset 4 of the header, on either host, and nothing else |
| SbeCodec.MessageHeader.SetVersion | generated/sbe/market_sbe/MessageHeader.h:459-464 | writes the two little-endian bytes at offset 6 of the header, on either host, and nothing else |
| SbeCodec.TickFlyweight.WrapAndApplyHeader | generated/sbe/market_sbe/Tick.h:221-238 | throws exactly when header and body do not fit; the header bytes and the fields are set if the header fits, even when it throws; the position ends behind the body |
| SbeCodec.TickFlyweight.WrapForDecode | generated/sbe/market_sbe/Tick.h:240-274 | throws exactly when the claimed block exceeds the buffer; the fields are set in any case, the position unless it throws |
| SbeCodec.TickFlyweight.SetInstrumentId | generated/sbe/market_sbe/Tick.h:369-374 | writes the four little-endian bytes at offset 0 of the body, on either host, and nothing else |
| SbeCodec.TickFlyweight.SetPriceTicks | generated/sbe/market_sbe/Tick.h:432-437 | writes the four two's complement little-endian bytes at offset 4 of the body, on either host, and nothing else |
| SbeCodec.TickFlyweight.SetQty | generated/sbe/market_sbe/Tick.h:495-500 | writes the four little-endian bytes at offset 8 of the body, on either host, and nothing else |
| SbeCodec.TickFlyweight.SetSeq | generated/sbe/market_sbe/Tick.h:558-563 | writes the four little-endian bytes at offset 12 of the body, on either host, and nothing else |
| SbeCodec.TickFlyweight.SetTsNs | generated/sbe/market_sbe/Tick.h:621-626 | writes the eight little-endian bytes at offset 16 of the body, on either host, and nothing else |
| SbeCodec.TickFlyweight.SetAll | include/ll/sbe_codec.hpp:35-39 | the chained setters write the 24 body bytes in place and nothing else |
| SbeCodec.TickFlyweight.GetAll | include/ll/sbe_codec.hpp:58-62 | the getters read the five fields at the flyweight's offset |
| SbeCodec.EncodeTick | include/ll/sbe_codec.hpp:29-41 | the same 32 bytes on every host, bytes behind them untouched, a short buffer left alone |
| SbeCodec.DecodeTick | include/ll/sbe_codec.hpp:44-64 | the same outcome on every host: false, throw, or the five fields; a function of the span's bytes unless the fields end behind the span |
| SbeStyle.Encode | include/ll/sbe_style.hpp:32-38 | writes the struct's memory image, or nothing if the buffer is short |
| SbeStyle.DecodeCopy | include/ll/sbe_style.hpp:49-55 | returns the struct whose memory image is the first 16 bytes |
| SbeStyle.LayoutAgrees | include/ll/sbe_style.hpp:18-26 | the struct's image equals bytes 8..24 of the generated encoding exactly on a little-endian host or for byte-palindromic fields |
| SbeStyle.ImageInjective | include/ll/sbe_style.hpp:19-26 | two structs with the same image are equal |
| StubRx.StubPollModeRx.Open | include/ll/kernel_bypass.hpp:67-72 | sets port and queue, succeeds, and leaves what is pending alone |
| StubRx.StubPollModeRx.Close | include/ll/kernel_bypass.hpp:74 | closes, and leaves what is pending alone |
| StubRx.StubPollModeRx.InjectForTest | include/ll/kernel_bypass.hpp:77-84 | accepts every payload of at most 2048 bytes, open or not, in place of the previous one |
| StubRx.StubPollModeRx.Poll | include/ll/kernel_bypass.hpp:86-99 | delivers the latest accepted payload exactly if open, asked for, and not delivered before, with the port and queue of the last open; deliveries are strictly increasing, so none is repeated |
| StubRx.TickThroughRx | examples/kernel_bypass/main.cpp:12-37 | a tick encoded, injected, polled and decoded is the tick, for hosts of any byte order at either end, and a second poll is empty |
| Scenarios.PushPushPopPop | tests/test_ll_modules.cpp:20-32 | two pushes and two pops from a queue of capacity 8 give 1 and 2, and a third pop finds nothing |
| Scenarios.HistogramTracks | tests/test_industry_stack.cpp:63-78 | 1 to 1000 and 100000: count 1001, min 1, max 100000, the 50th percentile 384 and the 99th 768 |
| Scenarios.ArenaResets | tests/test_ll_modules.cpp:58-69 | an int and a double lie apart and aligned; after a reset nothing is used and an int gets the first address again |
| Scenarios.PoolCheckout | tests/test_ll_modules.cpp:71-80 | 4 available, 3 while one of the four slots is out, 4 after its release |
| Scenarios.WireOfSmallFields | examples/kernel_bypass/main.cpp:18-24 | the 32 bytes of every tick whose fields are below 256, byte for byte |
| Scenarios.ImageOfSmallFields | include/ll/sbe_style.hpp:18-26 | the 16 bytes of every packed struct whose fields are below 256, for both byte orders |
| Scenarios.SbeRoundTrip | tests/test_roadmap_stack.cpp:22-41 | 32 bytes are written, and decode to the five values, for hosts of any byte order at either end |
| Scenarios.SbeWrongSchema | tests/test_roadmap_stack.cpp:43-52 | with bytes 4 and 5 cleared the decode returns false |
| Scenarios.PodRoundTrip | tests/test_industry_stack.cpp:84-97 | every packed struct, not only the test's, is copied out as it was copied in, on either host |
| Scenarios.StubDrains | tests/test_roadmap_stack.cpp:148-170 | one poll delivers the four bytes with the port and queue of the open, the next delivers nothing |

## Left out

- Bits.AndMask: `Capacity` and the indices are unbounded numbers; a power-of-two `size_t` capacity is at most 2^63, so `t + 1` does not wrap.
- SpscQueues.SpscQueue.TryPush: both overloads assign the same item; what the move overload leaves in its argument is not modelled.
- SpscQueues.SpscQueue.ConsumerRuns: the body does nothing, which is one of the behaviours its contract allows; callers rely on the contract alone. The same holds for `ProducerRuns`, and for `CoherentLoad`, whose body loads the newest value.
- SpscThirdThread.EmptyOnThirdThread: the third thread's loads are the newest values; with stale loads either answer can be wrong of a queue that does not change during the call (`StaleEmpty`, `StaleNotEmpty`). C++ leaves the order of the two operands of `==` in `empty()` open: both orders are covered here, and on an endpoint's own thread the step machine loads `head` first. Several producers or several consumers are outside the queue's contract.
- SpscStress.FairRunFinishes: loads in a fair run are the newest values; a load that stays stale for ever keeps its thread retrying for ever, and that it does not is a matter of the implementation (ISO/IEC 14882:2020, section 31.4).
- Exceptions thrown by the item type's assignment, cache-line alignment and performance.
- Histograms.HdrLatencyHistogram.ValueAtPercentile: the percentile is an exact real, so floating-point rounding and NaN are not modelled; the result is stated while fewer than 2^64 samples were recorded, since the counters wrap.
- Histograms.HdrLatencyHistogram.MinValue: stated while fewer than 2^64 samples were recorded, since a count that wraps to 0 reads as no samples.
- Histograms.HdrLatencyHistogram.Mean: exact real division, stated while neither counter has wrapped.
- Arenas.Arena.Allocate: no size is excluded; after a request whose end wraps into the storage the returned block is outside it and nothing is promised of the blocks until the next reset. The storage itself ends below 2^64; `create` and the bytes are not modelled.
- SbeCodec.DecodeTick: the getters do not consult the acting block length, so a message whose header claims fewer than 24 bytes, all of them in the span, must lie in a buffer that holds the 24-byte body; nothing is said of reads behind the buffer.
- SbeCodec.TickFlyweight.WrapAndApplyHeader: offsets so large that the position wraps 2^64 are excluded; so they are for `WrapForDecode` and `CheckBounds`.
- SbeCodec.MessageHeader.CheckBounds: the bounds check at the end of the C++ constructor, as a method of its own because a Dafny constructor cannot report an exception.
- `decode_view`, which reads through a pointer into the buffer, is covered by `DecodeCopy` as far as the bytes go.
- Metadata accessors, stream operators, the acting version (no field depends on it) and build-time bounds-check switches.
- `LatencyBuffer`, clocks, affinity, NUMA, io_uring, the pmr, jemalloc and struct_pack wrappers, and the other backends of the receive interface: foreign calls or one-branch facts.
