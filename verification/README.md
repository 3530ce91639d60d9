# Verification of the byte stream, the timers and the fiber runtime

This project models three connected cores of the server framework and proves their properties in
Dafny. `dafny verify dfyconfig.toml` checks all of it.

**Byte stream.** `ByteArray` is a class over a linked list of fixed-size nodes with a cursor, a size, a
capacity and a cached node. It refines `FlatStream.Flat`, a flat sequence of bytes with a cursor:
every method's postcondition is a relation between the flat states before and after. On the flat state
the typed values (fixed width in either byte order, varints, zigzag varints, length-prefixed strings)
are proved to be read back as they were written. `SocketStream` and the four fixed-size loops of
`Stream` run over a socket whose partial results are arbitrary.

**Timers.** `TimerManager` keeps an ordered set of timers keyed on deadlines that change. The comparator
alone finds elements, as in `std::set`.

**Fibers.** `Scheduler` is a transition system: its methods are the steps of the workers' run loops and of
the running fibers, and any interleaving of steps is a run. `IOManager` adds event registrations,
`FiberSemaphore` adds permits, and `DoIo` is the wait, timeout and retry protocol of a hooked call.
A wake-up that has been issued but is not yet queued is in the hands of one owner, an I/O manager or a
semaphore; each owner's invariant is about its own share. `Runtime` puts one scheduler, its I/O manager and
timers, any number of semaphores and any number of hooked calls together: every step of every part keeps
the invariants of all parts, so they hold in every reachable state of every interleaving. `Alarm` adds to the
scheduler who is told of a new task, and states exactly when nobody is.

| file | module | source |
|---|---|---|
| Bits.dfy, Blocks.dfy, Prelude.dfy | Bits, Blocks, Prelude | machine integers, blocks of a flat memory, shared types |
| Endian.dfy | Endian | endian.h |
| Varint.dfy | Varint | the varint and zigzag parts of bytearray.cpp |
| Flat.dfy | FlatStream | the specification of bytearray.cpp |
| ByteArray.dfy | ByteArrays | bytearray.h, bytearray.cpp |
| SocketStream.dfy | SocketStreams | stream.cpp, socket_stream.cpp |
| Timers.dfy | Timers | timer.h, timer.cpp |
| Fiber.dfy, Scheduler.dfy | Fibers, Schedulers | fiber.cpp, scheduler.h, scheduler.cpp |
| IOManager.dfy | IOManagers | iomanager.h, iomanager.cpp |
| FiberSemaphore.dfy | FiberSemaphores | FiberSemaphore in mutex.cpp |
| DoIo.dfy | HookedIo | do_io in hook.cpp |
| Wakeups.dfy | Wakeups | tickle in iomanager.cpp and its calls |
| Runtime.dfy | Runtimes | the parts together |
| TimeoutRuns.dfy | TimeoutRuns | runs of do_io with late timeout functions |

## Where the code does less than it promises

Each of these is stated for all inputs, with the exact condition, and most with one concrete case.

- Reading zero bytes with the cursor at the capacity follows a null node
  (`FlatStream.TakeFaultIff`). Hence a typed stream is read back as written unless its last item is an
  empty string that ends exactly at the capacity (`FlatStream.StreamRoundTrip`,
  `ByteArrays.ByteArray.WriteThenRead`; concretely `ByteArrays.EmptyStringAtEnd`).
- The guard of the positional read subtracts unsigned values, so an address beyond the size passes it
  unless the wrapped difference is too small (`FlatStream.PeekGuardIff`, concretely `FlatStream.PeekStale`).
- A string that is longer than its prefix can say comes back cut (`FlatStream.StringFIff`, concretely
  `FlatStream.StringVanishes`).
- `getReadBuffers` with a position clamps the length by the cursor, not by the position. The slices have
  the right length exactly if the position is the cursor or the request ends within the data both ways, and
  stay within the data exactly if the position is not after the cursor or the request ends within the data
  (`ByteArrays.ByteArray.GetReadBuffersAt`, concretely `ByteArrays.SlicesPastData`).
- `writeToFile` writes the data exactly if the cursor stands at a block boundary, or nothing is left, or at
  least a whole block is left. In every other case it walks off the end of the node list
  (`ByteArrays.ByteArray.WriteToFile`, concretely `ByteArrays.MisalignedFile`).
- The fixed-size loops convert the length to `int64_t` and return it as `int`. The result tells success from
  a short transfer exactly below 2^31; from 2^63 on nothing is moved and the result can be positive
  (`SocketStreams.FixSizeVerdict`, concretely `SocketStreams.CompleteLooksFailed`).
- `refresh` and the re-arming of recurring timers do not call the wake-up hook, all other operations keep the
  wake-up condition. A refresh loses it exactly if the waiter has not been told and its new deadline is
  before the earliest one the waiter saw (or the waiter saw none); a delivery loses it exactly if some
  re-armed deadline is (`Timers.Timer.Refresh`, `Timers.TimerManager.ListExpired`, concretely
  `Timers.RefreshDuringWait`, `Timers.RearmAfterRollover`). Nothing is lost as long as deadlines fit in 64 bits,
  no rollover is detected, and no reading that is taken under the lock is older than one that has been used
  before, as with a clock that never goes back; a reading that is taken before the lock may be used late
  (`Timers.TimerManager.WakeupNotLost`).
- `listExpiredCb` looks at the set under one lock and takes `*begin()` under another. It is taken of an empty
  set exactly if the set has been emptied in between and no rollover is detected
  (`Timers.TimerManager.Collect`, concretely `Timers.EmptiedMeanwhile`).
- A deadline that passes 2^64 lies in the past (`Timers.DeadlineIff`, concretely `Timers.DueAtOnce`).
- A varint that is read with fewer bits than its value has comes back cut, and the rest of a longer one is left
  in the stream (`Varint.ReaderCuts`).
- A step back within the first hour after the epoch counts as a clock rollover, however small
  (`Timers.RolledOverIff`, concretely `Timers.RolledOverAtOnce`).
- `reset` with nothing to change returns true for a timer that is gone (`Timers.Timer.Reset`).
- `delEvent`, `cancelEvent` and `cancelAll` return false in every case.
- Two threads that find the table of descriptors too small can call `contextResize` with a smaller size
  after a larger one. The bookkeeping survives a smaller size exactly if nothing of what it forgets is armed
  (`IOManagers.IOManager.Resize`, concretely `IOManagers.GrowThenShrink`).
- `addEvent` stores the scheduler of the calling thread. The invariant that an armed context names the manager
  survives a registration exactly if that is the manager itself; on a thread without a scheduler the wake-up
  would follow a null pointer (`IOManagers.IOManager.AddEvent`, concretely `IOManagers.NoScheduler`).
- The idle loop widens an error or a hang-up to both directions without masking by what is armed:
  the assertion in `triggerEvent` fails exactly if the event is armed in part, not refused by
  `epoll_ctl`, and something else of it is not armed (`IOManagers.IOManager.HandleReady`, concretely
  `IOManagers.HangUp`).
- The wait of the idle loop is unbounded exactly if bit 31 of the remaining milliseconds is set
  (`IOManagers.IOManager.IdleCheck`, concretely `IOManagers.WaitUnbounded`). It ends before three seconds
  without a deadline exactly if the remaining time is 2^32 or more and its low 32 bits are below three seconds
  (`IOManagers.EpollTimeoutExact`, concretely `IOManagers.NoWait`).
- The stopping test does not see the functions of expired timers that another worker has collected and not
  queued yet, so a worker can leave while a function is still to run. It is not lost: the worker that has it
  is still in its idle loop, and queues and takes it (`IOManagers.StopsWhileCollected`).
- `tickle` writes nothing while no worker is counted as idle, and `schedule` does not call it when the queue is
  not empty. A queued task is left to the timeout of sleeping workers exactly if the last call finds every
  worker between a vain scan and the count (`Wakeups.Alarm.Tell`, concretely `Wakeups.Stranded`), or if it is
  queued behind tasks that no worker may run (`Wakeups.Alarm.Post`, concretely `Wakeups.Overtaken`). No other
  step leaves a task so.
- The mark that a timeout function sets in `do_io` outlives the retry. A function ends a wait exactly if no
  function has marked the call before and `epoll_ctl` does not refuse (`HookedIo.DoIo.FireTimeout`). So the
  function of an earlier round's timer that runs late, during a wait, ends that wait early
  (`TimeoutRuns.EndsEarly`; exactly if the call is marked and the round's own timer has not been delivered,
  `HookedIo.DoIo.Resume`); and one that runs between two rounds, or the round's own function if it runs
  between `addConditionTimer` and `addEvent`, leaves a wait that no timeout can end
  (`TimeoutRuns.WaitsForever`, `TimeoutRuns.MissesOwnTimeout`). The `cancelEvent` that follows the mark can
  come after the return and then ends the wait of the next call on the descriptor, exactly if it is armed and
  not refused (`HookedIo.DoIo.CancelMarked`, `TimeoutRuns.CancelsAnother`). A function that has locked the
  shared state before the return even marks after it, so this can follow a call that has ended well
  (`HookedIo.DoIo.Mark`, `TimeoutRuns.MarksReturned`).

## Assumptions

- The block size is at least one, and memory is never exhausted.
- A yield, the classification of the fiber's state, the decrement of the active count and the requeueing
  are one step (fiber.cpp:197-209, scheduler.cpp:217-262). So are the check of the stopping conditions,
  the size check of `addEvent` together with the growth of the table, and in `do_io` the cancellation of the
  round's timer together with the reading of the mark that follows it. `addTimer` is one step at its lock,
  with a clock reading from before. The steps of an idle turn are the look at the timers, the collection, the
  queueing, each report, and the yield; a report may be older than other workers' steps.
- A segment of a fiber issues at most one wake-up of that fiber, and none if it ends ready, finished or
  by an exception: the precondition `MayWake` of scheduling and the condition `Silent` of `EndSegment`.
- There is one scheduler; a thread that is not one of its own has none or another. Timers that are allocated
  at the same time have distinct addresses. Clock readings, addresses, the results of `epoll_ctl`, readiness
  reports and socket results are arbitrary parameters.
- A byte in the pipe that no worker has been told of makes the next `epoll_wait` return, and reading the pipe
  empties it. The calls of `tickle` that are owed happen in any order.
- Closing a descriptor does not change the kernel's interest list behind the I/O manager's back.
- A string's length is below 2^64, a buffer that is sent is shorter than 2^63. `float` and `double` travel
  as their bit patterns, that is as unsigned values of 4 and 8 bytes. The largest size of a `std::string` is
  a parameter. A stream write of a negative length writes nothing.

## Model

| member | source | states |
|---|---|---|
| Endian.ByteswapReverses | sylar_server/endian.h:21-46 | byteswap at any width gives the value of the reversed memory image |
| Endian.ByteswapInvolution | sylar_server/endian.h:21-46 | byteswap stays within the width and undoes itself |
| Endian.WireImage | sylar_server/bytearray.cpp:72-80 | a fixed-width write leaves the same bytes on every host: the image in wire order |
| Endian.WireValue | sylar_server/bytearray.cpp:262-273 | a fixed-width read gives the value in wire order on every host |
| Endian.ImageRoundTrip | sylar_server/bytearray.cpp:81-88 | an integer that fits its width is recovered from its image in either order |
| Endian.ImageByte | sylar_server/endian.h:21-46 | byte k of a little-endian image is the k-th lowest of the value, of a big-endian one the k-th highest |
| Bits.TwosComplement | sylar_server/bytearray.cpp:62-124 | a negative number is written as its two's complement |
| Varint.LengthBound | sylar_server/bytearray.cpp:167-178 | an encoding has at most n bytes if and only if the value has at most 7n bits |
| Varint.BufferBound | sylar_server/bytearray.cpp:169-195 | the 5-byte and 10-byte buffers of the writers never overflow |
| Varint.ReaderBound | sylar_server/bytearray.cpp:314-355 | on arbitrary input the readers consume at most 5 and 10 bytes |
| Varint.RoundTrip | sylar_server/bytearray.cpp:167-355 | reading a written varint gives its value and consumes exactly its bytes, whatever follows |
| Varint.EncodeByte | sylar_server/bytearray.cpp:167-196 | byte k carries the k-th seven bits, and all but the last have the high bit set |
| Varint.ReaderValue | sylar_server/bytearray.cpp:314-355 | on any bytes the reader returns what their groups spell, cut to the width of the result |
| Varint.ReaderCuts | sylar_server/bytearray.cpp:314-355 | reading any written value with any width gives its low bits, and consumes its bytes up to the number of groups of the width |
| Varint.PrefixFree | sylar_server/bytearray.cpp:167-196 | no encoding is a proper prefix of another |
| Varint.ZigzagClosedForm | sylar_server/bytearray.cpp:128-150 | the wrapping computation has the closed form of the specification for every value, the minimum included |
| Varint.ZigzagRoundTrip | sylar_server/bytearray.cpp:128-160 | decoding inverts encoding on every signed value of every width |
| Varint.ZigzagOnto | sylar_server/bytearray.cpp:128-160 | encoding inverts decoding on every unsigned value of every width |
| Varint.ZigzagShort | sylar_server/bytearray.cpp:162-183 | a value of magnitude below 2^(7n-1) takes at most n bytes |
| FlatStream.GrownLeast | sylar_server/bytearray.cpp:796-833 | the new capacity is the least extension by whole blocks that holds the address |
| FlatStream.GrownTwice | sylar_server/bytearray.cpp:796-833 | growing in two steps ends with the capacity of growing at once |
| FlatStream.StoredUnique | sylar_server/bytearray.cpp:428-469 | the storing relation determines cursor, size and all data |
| FlatStream.WroteTwice | sylar_server/bytearray.cpp:428-469 | two writes in a row are one write of the concatenation, capacity included |
| FlatStream.TakeFaultIff | sylar_server/bytearray.cpp:471-505 | a read follows a null node if and only if it asks for nothing with the cursor at the capacity |
| FlatStream.PeekGuardIff | sylar_server/bytearray.cpp:507-512 | a positional read past the data is refused if and only if its address is within the size or the wrapped difference is too small |
| FlatStream.PeekInside | sylar_server/bytearray.cpp:507-552 | a positional read within the data gives that slice, with the null node at the capacity as the only fault |
| FlatStream.PeekStale | sylar_server/bytearray.cpp:509-512 | a concrete read beyond the size that returns memory never written |
| FlatStream.TakeEncoded | sylar_server/bytearray.cpp:248-409 | reading any one encoded item gives its value and consumes exactly its bytes, unless it is an empty string ending at the capacity |
| FlatStream.TakeAllEncoded | sylar_server/bytearray.cpp:248-409 | the same for a list of items with anything behind it |
| FlatStream.StreamRoundTrip | sylar_server/bytearray.cpp:62-409 | writing any items, moving the cursor back and reading the same types gives the same values and cursor if and only if the last item is not an empty string ending at the capacity |
| FlatStream.StringFIff | sylar_server/bytearray.cpp:214-230 | a prefixed string comes back cut to what its prefix can say; whole if and only if its length fits |
| FlatStream.StringVanishes | sylar_server/bytearray.cpp:214-218 | 65536 bytes behind a prefix of two come back as the empty string |
| ByteArrays.ByteArray.AddCapacity | sylar_server/bytearray.cpp:796-833 | refines growth: old contents, size and cursor kept, new capacity the least, cached node right even when the cursor stood at the old capacity |
| ByteArrays.ByteArray.Write | sylar_server/bytearray.cpp:428-469 | refines storing at the cursor across node boundaries, with the exact new capacity |
| ByteArrays.ByteArray.Read | sylar_server/bytearray.cpp:471-505 | refines the flat read with its three outcomes: data, out of range, null node |
| ByteArrays.ByteArray.ReadAt | sylar_server/bytearray.cpp:507-552 | refines the flat positional read, wrapped guard included; the state does not change |
| ByteArrays.ByteArray.WriteToFile | sylar_server/bytearray.cpp:580-606 | the data from the cursor to the size are written if and only if the cursor is block-aligned, nothing is left or at least a block is left; otherwise the loop ends at the null node |
| ByteArrays.MisalignedFile | sylar_server/bytearray.cpp:596-603 | the failure at two of three bytes in a block of four |
| ByteArrays.ByteArray.SetPosition | sylar_server/bytearray.cpp:554-578 | the cursor moves anywhere up to the capacity, the size follows if passed, the cached node is the one of the new cursor; beyond it nothing changes |
| ByteArrays.ByteArray.Clear | sylar_server/bytearray.cpp:413-426 | one block remains, cursor and size are zero |
| ByteArrays.ByteArray.GetReadBuffers | sylar_server/bytearray.cpp:675-712 | non-empty slices that cover exactly the readable bytes asked for; cursor unchanged |
| ByteArrays.ByteArray.GetReadBuffersAt | sylar_server/bytearray.cpp:714-757 | slices from the given address, clamped by the bytes behind the cursor; exactly when their length is the one asked for within the data, when they stay within the data, and when the capacity is passed |
| ByteArrays.SlicesPastData | sylar_server/bytearray.cpp:714-719 | with three bytes of data, a request at address 2 gets the memory from 2 to 5, two bytes of which were never written |
| ByteArrays.ByteArray.GetWriteBuffers | sylar_server/bytearray.cpp:759-794 | slices that cover exactly the next len bytes of the grown capacity; data, cursor and size unchanged |
| ByteArrays.ByteArray.SlicesDisjoint | sylar_server/bytearray.cpp:675-794 | no two slices of one call overlap in memory |
| ByteArrays.ByteArray.GatherCovered | sylar_server/bytearray.cpp:675-712 | the slices' concatenation is the flat memory between their ends |
| ByteArrays.ByteArray.Scatter | streams/socket_stream.cpp:35-36 | filling the slices from the front puts the bytes at the cursor's flat address and changes nothing else |
| ByteArrays.SplicedIsStored | streams/socket_stream.cpp:35-40 | filling the slices and then moving the cursor is the same as a write of those bytes |
| ByteArrays.ByteArray.WriteFuint | sylar_server/bytearray.cpp:67-124 | writes the wire-order image, on any host |
| ByteArrays.ByteArray.WriteUint | sylar_server/bytearray.cpp:167-196 | writes the varint encoding; the buffer is never overrun |
| ByteArrays.ByteArray.WriteInt | sylar_server/bytearray.cpp:162-183 | writes the varint of the zigzag code |
| ByteArrays.ByteArray.WriteStringF | sylar_server/bytearray.cpp:214-230 | writes the truncated length and all the bytes |
| ByteArrays.ByteArray.ReadUint | sylar_server/bytearray.cpp:314-355 | the loop refines the flat varint read, also when the data ends inside the varint |
| ByteArrays.ByteArray.ReadFint | sylar_server/bytearray.cpp:248-299 | refines the flat signed fixed-width read |
| ByteArrays.ByteArray.ReadStringVint | sylar_server/bytearray.cpp:402-409 | refines the flat read of a length and a body, with every fault: out of data, a length no string can have, the null node |
| ByteArrays.ByteArray.WriteAll | sylar_server/bytearray.cpp:62-241 | a run of typed writes is one write of the concatenated encodings |
| ByteArrays.ByteArray.ReadAll | sylar_server/bytearray.cpp:248-409 | a run of typed reads is the flat run of reads |
| ByteArrays.ByteArray.WriteThenRead | sylar_server/bytearray.cpp:62-578 | for every block size and host, writing items, going back and reading returns the same values, or the null-node fault under a condition on the state before, wherever node boundaries fall |
| ByteArrays.EmptyStringAtEnd | sylar_server/bytearray.cpp:375-382 | the fault at an empty string whose prefix fills the only block |
| SocketStreams.SocketStream.Read | streams/socket_stream.cpp:28-42 | a receive into write buffers stores exactly the bytes taken from the stream at the cursor |
| SocketStreams.SocketStream.Write | streams/socket_stream.cpp:53-67 | what was accepted is exactly the data from the cursor on, and the cursor moves over it |
| SocketStreams.SocketStream.ReadFixSize | sylar_server/stream.cpp:23-36 | the next bytes of the stream are stored; however the kernel cuts the stream, exactly what is wanted, there and let through by its results before the first one at or below zero is moved; a short call returns -1 without a connection, else that result, else 0 as results or bytes have run out |
| SocketStreams.SocketStream.WriteFixSize | sylar_server/stream.cpp:56-69 | the next readable bytes are sent; however the kernel cuts the stream, exactly what is wanted, there and let through by its results before the first one at or below zero is moved; a short call returns -1 without a connection, else that result, else 0 as results or bytes have run out |
| SocketStreams.SocketStream.ReadFixSizeBytes | sylar_server/stream.cpp:6-21 | the same as for a byte array, into a plain buffer |
| SocketStreams.SocketStream.WriteFixSizeBytes | sylar_server/stream.cpp:38-54 | the same as for a byte array, out of a plain buffer |
| SocketStreams.FixSizeVerdict | sylar_server/stream.cpp:6-69 | for every size_t: `ret == length` tells success from a short transfer exactly below 2^31; from 2^63 on nothing is moved, and when the result is positive all the same |
| SocketStreams.FixSizeComplete | sylar_server/stream.cpp:6-69 | below 2^31 the length comes back if and only if nothing is wanted, or there is a connection, the bytes are there and the results let them through; in particular in whatever pieces |
| SocketStreams.TwoPieces | sylar_server/stream.cpp:6-21 | eight bytes that come as three and five are read as eight |
| SocketStreams.CompleteLooksFailed | sylar_server/stream.cpp:6-21 | a complete transfer of 2^31 bytes returns a negative number |
| Timers.BeforeStrictOrder | sylar_server/timer.cpp:7-30 | the comparator is a strict total order, null pointers first, then by deadline, then by address |
| Timers.Timer.Cancel | sylar_server/timer.cpp:44-55 | true if and only if the callback was still to come, and then exactly this timer leaves the set; find never misses |
| Timers.Timer.Refresh | sylar_server/timer.cpp:57-74 | the deadline is one period from now, nothing else changes, the set stays ordered; exactly when the wake-up condition survives |
| Timers.Timer.Reset | sylar_server/timer.cpp:76-107 | the new deadline in wrapped arithmetic for both modes, and the exact result, true for a dead timer when nothing is asked; the hook's flag and the wake-up condition exactly as addTimer leaves them |
| Timers.TimerManager.Find | sylar_server/timer.cpp:50-51 | lookup by the comparator hits exactly the members of the set |
| Timers.TimerManager.AddTimer | sylar_server/timer.cpp:119-231 | one timer joins the set in order, at an address that no allocated timer has, with a reading that may be older than others already used; the hook is called at most once until the next wait; the wake-up condition survives |
| Timers.TimerManager.GetNextTimer | sylar_server/timer.cpp:143-162 | the wait never passes a deadline; the exact case in which `~0ull` is a real wait |
| Timers.TimerManager.DueCount | sylar_server/timer.cpp:185-192 | the cut is exactly the timers with deadline at most now, whatever address the probe has, or all after a rollover |
| Timers.TimerManager.Deliver | sylar_server/timer.cpp:193-209 | every due timer is delivered once, in set order; recurring ones are re-armed, the others lose their callback |
| Timers.TimerManager.Collect | sylar_server/timer.cpp:177-209 | with a reading from before the lock: exactly the timers that are due are delivered, what remains is due later, but for recurring timers re-armed now with period zero; exactly when the wake-up condition survives; and exactly when the first element of an empty set is taken |
| Timers.TimerManager.ListExpired | sylar_server/timer.cpp:164-210 | the same without interruption between the two locks, where the set cannot be empty |
| Timers.TimerManager.FiringBounds | sylar_server/timer.cpp:32-55 | a one-shot timer fires at most once and never after a true cancel; an untouched recurring one at most once a period up to the latest reading, also when readings taken before the lock come late |
| Timers.TimerManager.HandleIff | sylar_server/timer.cpp:44-107 | the callback is set if and only if the timer is in the set |
| Timers.TimerManager.WakeupNotLost | sylar_server/timer.cpp:57-231 | in every reachable state the waiter was told, or no deadline precedes the one it saw, also when readings taken before the lock come late; the hook ran at most once |
| Timers.RolledOverIff | sylar_server/timer.cpp:233-242 | the exact condition for a rollover in unsigned arithmetic |
| Timers.RolledOverAtOnce | sylar_server/timer.cpp:233-242 | one millisecond back right after the epoch is a rollover |
| Timers.DeadlineIff | sylar_server/timer.cpp:32-39 | a deadline lies before the time it is counted from if and only if it passes 2^64 |
| Timers.DueAtOnce | sylar_server/timer.cpp:32-39 | a run in which a period of 2^64 - 1 ms is over at once |
| Timers.RefreshDuringWait | sylar_server/timer.cpp:57-74 | the concrete case of one timer: a refresh during a wait loses the wake-up if and only if it moves the deadline forward in time |
| Timers.RearmAfterRollover | sylar_server/timer.cpp:193-209 | a run in which re-arming after a rollover loses the wake-up |
| Timers.EmptiedMeanwhile | sylar_server/timer.cpp:169-180 | a run in which the second of two collecting threads takes the first element of an empty set |
| Schedulers.Scheduler.SingleExecution | sylar_server/scheduler.cpp:186-231 | no fiber is in two workers' hands |
| Schedulers.Scheduler.StartFiber | sylar_server/scheduler.cpp:217-220 | the assertion of swapIn that the fiber is not executing holds; the new segment has no wake-up outstanding |
| Schedulers.Scheduler.StartCallback | sylar_server/scheduler.cpp:233-245 | a function runs on the worker's own reset fiber if it has one, else on a new one; the assertions hold |
| Schedulers.Scheduler.EndSegment | sylar_server/scheduler.cpp:220-262 | the ticket is consumed once, the count goes down by one; for each way of leaving the fiber's state and function, what is requeued, and whether the worker keeps its spare |
| Schedulers.SpareUsedAgain | sylar_server/scheduler.cpp:233-262 | a worker whose function has ended, normally or by an exception, runs its next one on the same fiber |
| Schedulers.Scheduler.Dequeue | sylar_server/scheduler.cpp:186-211 | the first runnable task is taken and the others keep their order, tasks of other threads and executing fibers are passed over, and the tickle flag is exact |
| Schedulers.Scheduler.Schedule | sylar_server/scheduler.h:66-143 | one task is appended and one ticket issued; tickle exactly if the queue was empty |
| Schedulers.Scheduler.ScheduleBatch | sylar_server/scheduler.h:86-102 | the functions are appended front to back, empty ones dropped; of non-empty ones the i-th new task is the i-th function |
| Schedulers.CallbackTasksAppend | sylar_server/scheduler.h:92-96 | the tasks of two batches in a row are those of the first and then those of the second |
| Schedulers.CallbackTasksOne | sylar_server/scheduler.h:136-142 | one function is one task for any thread, an empty one none |
| Schedulers.Scheduler.DrainedWhenStopping | sylar_server/scheduler.cpp:330-335 | the active count is zero if and only if nobody holds a task; stopping says yes if and only if it is asked to and every ticket has been consumed |
| Schedulers.Scheduler.EnterIdle | sylar_server/scheduler.cpp:263-277 | the worker leaves its loop exactly if its idle fiber has ended; otherwise the assertion of swapIn holds for the idle fiber and the idle count goes up |
| Schedulers.Scheduler.LeaveIdle | sylar_server/scheduler.cpp:277-282 | the idle fiber comes back ended or on hold and the idle count goes down |
| Schedulers.ShareOfOther | sylar_server/mutex.cpp:61-89 | what one owner of wake-ups does leaves the shares of all other owners alone |
| Schedulers.QueueTicketsErase | sylar_server/scheduler.cpp:186-211 | taking a task off the queue loses no ticket |
| Schedulers.HeldUpdate | sylar_server/scheduler.cpp:166-285 | how one worker's step changes the tickets in all workers' hands |
| IOManagers.IOManager.Resize | sylar_server/iomanager.cpp:109-121 | new contexts are empty with the right descriptors, those beyond a smaller size are forgotten; the bookkeeping survives if and only if nothing forgotten is armed |
| IOManagers.GrowThenShrink | sylar_server/iomanager.cpp:131-148 | a run in which a smaller size after a larger one forgets an armed event that stays counted |
| IOManagers.IOManager.AddEvent | sylar_server/iomanager.cpp:131-195 | aborts exactly if the direction is armed; otherwise one registration for the calling thread's scheduler that asks for the given function, or without one for the calling fiber; one pending event, interest equal to the mask; the emptiness assertion always holds; the invariant survives if and only if the calling thread's scheduler is the manager or nothing is added |
| IOManagers.NoScheduler | sylar_server/iomanager.cpp:183 | a registration from a thread without a scheduler leaves a null pointer in an armed context |
| IOManagers.AddedThenCancelled | sylar_server/iomanager.cpp:131-279 | a registration and its cancellation queue exactly the given function, or the calling fiber |
| IOManagers.AddedThenReported | sylar_server/iomanager.cpp:131-464 | so do a registration and a report of its direction |
| IOManagers.IOManager.DelEvent | sylar_server/iomanager.cpp:197-238 | the registration ends without a wake-up and exactly the waiting fiber is dropped; its kernel operation is the legal one, the result is false |
| IOManagers.IOManager.CancelEvent | sylar_server/iomanager.cpp:240-279 | the registration ends with exactly what it asked for on the queue |
| IOManagers.IOManager.CancelAll | sylar_server/iomanager.cpp:281-330 | both directions end with what their registrations asked for on the queue, reading first, and the assertion that nothing is armed holds |
| IOManagers.IOManager.Trigger | sylar_server/iomanager.cpp:44-59 | the context is emptied and its ticket moved to the queue, once |
| IOManagers.IOManager.HandleReady | sylar_server/iomanager.cpp:411-464 | each armed direction that is reported, or covered by an error or hang-up, ends and what its registration asked for is queued, reading first; every other direction stays; and exactly when the assertion fails |
| IOManagers.HangUp | sylar_server/iomanager.cpp:416-419 | the failure at a hang-up where only reading is armed |
| IOManagers.IOManager.Dispatch | sylar_server/iomanager.cpp:404-464 | over any list of reports: the assertions hold if and only if each report is sound where it is met; then a registration is woken, with what it asked for queued, if and only if some report that is not refused covers it; contexts and queue are those of the reports applied in order, and as many tasks are queued as pending events go |
| IOManagers.IOManager.HolderWaits | sylar_server/iomanager.cpp:183-192 | an armed registration of a fiber is an outstanding wake-up of it |
| IOManagers.IOManager.Resolved | sylar_server/iomanager.cpp:131-330 | every registration is in exactly one of armed, woken and deleted |
| IOManagers.ArmedUpdate | sylar_server/iomanager.cpp:131-330 | how the sum of armed directions changes with one descriptor |
| IOManagers.WaitingUpdate | sylar_server/iomanager.cpp:44-59 | how the parked fibers change with one descriptor |
| IOManagers.IOManager.Stopping | sylar_server/iomanager.cpp:123-129 | stopping needs no timer, no armed event and a drained scheduler |
| IOManagers.IOManager.Drained | sylar_server/iomanager.cpp:123-129 | then no ticket, no armed event and no unresolved registration is left |
| IOManagers.IOManager.IdleCheck | sylar_server/iomanager.cpp:358-381 | the idle fiber ends exactly if nothing is timed, armed, queued or held; otherwise the wait is three seconds without a timer; it passes no deadline if positive, is unbounded exactly with bit 31, and is the longest such wait up to three seconds if and only if the low 32 bits of the remaining time are not below three seconds by themselves |
| IOManagers.StopsWhileCollected | sylar_server/iomanager.cpp:353-402 | a run in which one worker's stopping test succeeds while another still holds an expired function, and that one takes it |
| IOManagers.IOManager.QueueExpired | sylar_server/iomanager.cpp:396-402 | the functions of exactly the due timers are queued, in the order of the set |
| IOManagers.IOManager.IdleTurn | sylar_server/iomanager.cpp:396-470 | the queue grows by the functions of the due timers and then by the wake-ups of the reports, nothing else, and the worker returns to its loop |
| IOManagers.EpollTimeoutIff | sylar_server/iomanager.cpp:371-381 | the wait is bounded by three seconds exactly without bit 31; a bounded wait never passes the next deadline |
| IOManagers.EpollTimeoutExact | sylar_server/iomanager.cpp:371-381 | the wait is the remaining time or three seconds, whichever is less, exactly for remaining times below three seconds or with low 32 bits from there to 2^31 |
| IOManagers.WaitUnbounded | sylar_server/iomanager.cpp:371-381 | 2^31 milliseconds give a negative timeout |
| IOManagers.NoWait | sylar_server/iomanager.cpp:371-381 | 2^32 milliseconds give no wait at all |
| FiberSemaphores.FiberSemaphore.Wait | sylar_server/mutex.cpp:61-74 | takes a permit exactly if there is one, otherwise the fiber is the last in line |
| FiberSemaphores.FiberSemaphore.TryWait | sylar_server/mutex.cpp:47-59 | takes a permit exactly if there is one |
| FiberSemaphores.FiberSemaphore.Notify | sylar_server/mutex.cpp:76-89 | the permit goes to the first waiter by way of the queue, or back to the count; permits are conserved and no other owner of wake-ups is touched |
| FiberSemaphores.FiberSemaphore.WaitsOnce | sylar_server/mutex.cpp:61-89 | no fiber is twice in line, so each wait is handed exactly one permit |
| HookedIo.DoIo.Try | sylar_server/hook.cpp:141-165 | the system call, and when it would block the conditional timer with the call's period and function |
| HookedIo.DoIo.Enlist | sylar_server/hook.cpp:167-180 | addEvent as a step of its own: what it leaves on every path, and the exact case in which its assertion fails |
| HookedIo.DoIo.Resume | sylar_server/hook.cpp:180-194 | after the wake-up no registration is armed and exactly the round's timer is gone; ETIMEDOUT exactly if marked, and early exactly if marked while the round's own timer is undelivered |
| HookedIo.DoIo.Enter | sylar_server/timer.cpp:127-134 | the timeout function gets hold of the shared state exactly if the call has not returned |
| HookedIo.DoIo.Mark | sylar_server/hook.cpp:157-162 | a function that holds the shared state goes on exactly if the call is not marked, whether or not the call has returned |
| HookedIo.DoIo.CancelMarked | sylar_server/hook.cpp:163 | the cancellation that follows, whatever the call has done in between; it ends the call's wait exactly if not refused |
| HookedIo.DoIo.FireTimeout | sylar_server/hook.cpp:155-164 | the whole function ends a wait if and only if the call was not marked before and epoll_ctl does not refuse; after the return it does nothing |
| HookedIo.DoIo.OthersKeep | sylar_server/hook.cpp:141-194 | the call's invariant survives anything the rest of the program does in between |
| HookedIo.DoIo.NoResidue | sylar_server/hook.cpp:137-194 | after the return no timer of the call is in the set, no registration is armed, and ETIMEDOUT means that one of its timers was delivered |
| TimeoutRuns.EndsEarly | sylar_server/hook.cpp:139-192 | a run from the constructors in which a late function of the first round ends the second one early |
| TimeoutRuns.WaitsForever | sylar_server/hook.cpp:139-192 | a run in which it runs between the rounds and the second wait is deaf to its own timeout |
| TimeoutRuns.MissesOwnTimeout | sylar_server/hook.cpp:153-180 | a run in which a round's own function comes before addEvent and the wait is deaf to it |
| TimeoutRuns.CancelsAnother | sylar_server/hook.cpp:155-164 | a run in which the cancellation comes after the return and ends the next call's wait |
| TimeoutRuns.MarksReturned | sylar_server/hook.cpp:155-164 | a run in which the mark comes after a call has returned a value, and the next call's wait is ended |
| Wakeups.Alarm.StuckIff | sylar_server/iomanager.cpp:337-345 | a task is left to the timeout of sleeping workers if and only if a worker in its loop may run it, nobody works, every worker has scanned in vain or waits, and neither a byte nor a call of tickle is on its way |
| Wakeups.Alarm.Post | sylar_server/scheduler.h:66-78 | queueing leaves a task so if and only if all sleep over tasks that none of them may run; otherwise it was so before |
| Wakeups.Alarm.PostCallback | sylar_server/scheduler.h:66-78 | the same for a function, empty ones included |
| Wakeups.Alarm.Release | sylar_server/iomanager.cpp:44-59 | the same for the wake-up of an armed event or of a semaphore |
| Wakeups.Alarm.PostBatch | sylar_server/scheduler.h:86-102 | the same for the functions of expired timers |
| Wakeups.Alarm.Tell | sylar_server/iomanager.cpp:337-345 | a call of tickle leaves a task so if and only if it is the last that is owed, the pipe is empty and every worker in its loop stands between a vain scan and the count |
| Wakeups.Alarm.Scan | sylar_server/scheduler.cpp:186-215 | after a scan no task is left so: it was taken, or announced, or its fiber executes in a worker; a call of tickle is owed exactly if a task of another thread stands before the first runnable one |
| Wakeups.Alarm.Act | sylar_server/scheduler.cpp:217-268 | a picked fiber runs unless it has ended, and is then given up; a picked function runs on a fiber that has it; no task is left so |
| Wakeups.Alarm.Finish | sylar_server/scheduler.cpp:217-262 | nor after a segment |
| Wakeups.Alarm.GoIdle | sylar_server/scheduler.cpp:263-277 | going to wait leaves no task so that was not so before |
| Wakeups.Alarm.Stop | sylar_server/scheduler.cpp:130-139 | the calls in stop() end such a state |
| Wakeups.Stranded | sylar_server/scheduler.cpp:263-277 | a run in which a worker goes to wait with a task in the queue that nobody has announced |
| Wakeups.Overtaken | sylar_server/scheduler.h:134-143 | a run in which a task behind one for an absent thread is not announced to a waiting worker |
| Runtimes.Runtime.SchedulerMoves | sylar_server/scheduler.cpp:166-285 | every step of the run loops, the return of an idle fiber included, keeps the invariants of scheduler, I/O manager, timers, all semaphores and all calls; and what each step does to queue and workers |
| Runtimes.Runtime.TimersMove | sylar_server/timer.cpp:44-162 | so does every operation on the timers outside the idle loop; and what each does to the set and to its timer |
| Runtimes.Runtime.EventsMove | sylar_server/iomanager.cpp:131-330 | so does every operation on the events, exactly while its own assertions hold and the calling thread is the manager's; and what each does to registrations and queue |
| Runtimes.Runtime.IdleCheck | sylar_server/iomanager.cpp:353-369 | so does the top of the idle loop; the worker leaves only if nothing is armed and every ticket consumed |
| Runtimes.Runtime.IdleLook | sylar_server/timer.cpp:166-176 | so does the look at the timers in the idle loop |
| Runtimes.Runtime.IdleCollect | sylar_server/timer.cpp:177-209 | so does the collection, whatever others have done since the look; the worker then holds exactly the functions of the due timers |
| Runtimes.Runtime.IdleQueue | sylar_server/iomanager.cpp:398-402 | so does their queueing, which appends exactly what the worker holds |
| Runtimes.Runtime.IdleReport | sylar_server/iomanager.cpp:404-464 | so does one report, whatever others have done since the wait, exactly while it is sound; the queue grows by exactly its wake-ups |
| Runtimes.Runtime.SemaphoreMoves | sylar_server/mutex.cpp:47-89 | so does every operation on any of the semaphores; and what each does to count, waiters and queue |
| Runtimes.Runtime.CallMoves | sylar_server/hook.cpp:141-194 | so does every step of any of the hooked calls, exactly while addEvent's assertion holds; and what each does to the call, its timer and the queue |

## Left out

- `writeFloat`, `writeDouble` and their readers: bit copies around the unsigned 4- and 8-byte values.
- `readFromFile`, `toString`, `toHexString`: loops around `write` and the positional read, and formatting.
- The destructor's walk over the node list and the freeing in `clear`: memory is not deallocated.
- SocketStreams.SocketStream.Read: for length zero, and likewise for an empty write, the code takes the address of the first element of an empty vector; the model passes no slices.
- Schedulers.Scheduler.EndSegment: the moment between setting the state and leaving the stack, and the one between the decrement and the requeueing, are inside one step.
- Schedulers.Scheduler.DrainedWhenStopping: fibers that wait for a semaphore, or hold nothing but a promise to be scheduled by hand, are not counted by the program either, so a drained scheduler may leave them waiting.
- IOManagers.IOManager.AddEvent: the size check and the growth of the table are one step; what a smaller size from another thread does is stated by `Resize`.
- IOManagers.IOManager.Drained: `~0ull` as a wait is taken for "no timer", as in the code; the one real deadline that gives the same value is named in `Stopping`.
- `FiberSemaphore::reset` and waiters of several schedulers: reset drops the count that conservation is about.
- `Scheduler::start`, `stop` and `switchTo`, thread creation and joining, the calling thread's own fiber: only the effect of the stop request and of the start flag is modelled.
- `ucontext` switching, stacks, mutexes, epoll itself, sockets and `dlsym`: atomic or arbitrary steps.
- Fairness and liveness: that a queued task is eventually taken is not stated, only when its wake-up goes missing.
- An idle fiber that ends by an exception: the idle loops throw nothing of their own.
- `do_io` before its first system call, and `sleep`, `connect` and the other hooks: pass-through branches on the descriptor's flags.
- Semaphore, mutex and read-write lock wrappers, logging, configuration, environment, daemon, addresses, and the URI and HTTP layers.
