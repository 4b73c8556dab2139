# Single-producer/single-consumer bounded ring buffers, modelled in Dafny

This project models the bounded lock-free ring buffers of the Queues repository. One producer and
one consumer exchange values through a fixed array of power-of-two size. Each side owns a cursor
that counts its operations; slot `cursor & mask` is the physical slot, with `mask == capacity - 1`.
The cached variants also keep a per-side count of slots they may use (`avail`) and re-read the
opposite cursor only when that count reaches zero. The blind variant re-reads it on every call.

The model is sequential. The atomic cursors are plain fields, and one caller interleaves the
producer's and the consumer's calls. Every class keeps a ghost sequence `contents` of the pushed,
not yet popped items, oldest first. Its `Valid()` predicate ties `contents` to the slots
(`Ring.Mirrors`) and states the cursor and cache invariants.

Modules:

- `Bits`: bitwise AND on naturals and powers of two. Masking with `n - 1` is reduction modulo
  `n` (`MaskIsMod`). `c & (c - 1) == 0` holds exactly when `c` is a power of two (`PowerOfTwoTest`).
- `Word`: `int64_t` and `uint64_t` ranges and wrapping `uint64_t` arithmetic. A wrapped cursor is
  its true count modulo 2^64. `WrappingDistance` shows that wrapped subtraction still gives the
  true distance. `WrappedSlot` shows that wrap-around never shifts the slot sequence.
- `Capacity`: the validating constructors' two checks, in order (`Validate`).
- `Ring`: where the logical contents sit in the slots, and how a write or a read keeps that.
- `Fifo`: a reference bounded FIFO, driven by a sequence of push and pop calls. `FifoOrder` proves,
  for every interleaving, that popped values followed by held values are exactly the accepted
  pushes, in order, and that the capacity bound holds.
- `LockFree` (lock_free_queue.h): `LockFreeQueue`, `LockFreeQueueUnsignedIndex`,
  `LockFreeQueueBlind` and `PointerQueue`.
- `Bounded` (bounded_queue.h): `BoundedQueue`, whose constructor does not validate. This module
  also holds main.cc's single-threaded fill-then-drain run.
- `PipeResearch` (pipe_research/bounded_queue.h): `BoundedQueue` with a validating constructor and
  `WriteVal`/`ReadVal`.

How source constructs are modelled:

- A throwing constructor is a static `Create` that returns `Failure(TooSmall)` or
  `Failure(NotPowerOfTwo)`. Otherwise it returns a fresh, valid queue.
- A `T &` output parameter is an input `data` plus a result `data'`. When the pop fails,
  `data' == data`.
- In `LockFreeQueue` and `LockFreeQueueUnsignedIndex`, `PushObserving` and `PopObserving` take the
  value that the refresh's acquire load returned. That value may be any one from the last value
  read up to the current one. Ghost fields `readerSeen` and `writerSeen` record the last value
  read. The cached count is then exact with respect to that value, so it is a lower bound on the
  true count. A stale value can only make a call fail spuriously; a successful call always had a
  free slot or a held item. `TryPush` and `TryPop` pass the current cursor.
- Each `Replay*` method runs any sequence of calls on a fresh queue and returns exactly the
  outcomes of `Fifo.Run`. All five variants therefore behave the same in a sequential run,
  cached or blind, signed or unsigned.

## Model

| member | source | states |
|---|---|---|
| `Capacity.Validate` | lock_free_queue.h:17-21 | rejects with `TooSmall` exactly when capacity < 2, with `NotPowerOfTwo` exactly when capacity >= 2 is not a power of two, accepts exactly the powers of two >= 2 |
| `Bits.PowerOfTwoTest` | lock_free_queue.h:20 | for positive `n`, `n & (n - 1) == 0` holds exactly when `n` is a power of two |
| `Bits.MaskIsMod` | lock_free_queue.h:39 | for a power-of-two capacity, `cur & (capacity - 1) == cur % capacity` |
| `Word.WrappingDistance` | lock_free_queue.h:105 | `uint64_t` subtraction of two wrapped counts equals their true distance whenever that distance is below 2^64 |
| `Word.WrappedIncrement` | lock_free_queue.h:111 | incrementing a wrapped cursor yields the wrapped incremented count |
| `Word.WrappedSlot` | lock_free_queue.h:110 | the slot a wrapped `uint64_t` cursor masks to is the true count modulo the capacity |
| `Fifo.FifoOrder` | lock_free_queue.h:28-61 | for any interleaving of calls, popped values followed by held values equal the accepted pushed values in push order, popped values are a prefix of pushed values, and at most `capacity` are held |
| `LockFree.LockFreeQueue.Valid` | lock_free_queue.h:64-74 | 0 <= w - r <= capacity; writer avail <= capacity - (w - r); reader avail <= w - r |
| `LockFree.LockFreeQueue.constructor` | lock_free_queue.h:15-25 | storage has length capacity, mask is capacity - 1, both cursors 0, writer avail capacity, reader avail 0, contents empty |
| `LockFree.LockFreeQueue.Create` | lock_free_queue.h:15-25 | fails exactly when capacity < 2 or not a power of two, with the error of the first failing check; otherwise the initial state above |
| `LockFree.LockFreeQueue.PushObserving` | lock_free_queue.h:28-43 | with a possibly stale reader cursor: a success only when a slot was free; on success only slot `w % capacity` changes, w grows by 1, the value is appended; on failure nothing but the cache changes |
| `LockFree.LockFreeQueue.TryPush` | lock_free_queue.h:28-43 | fails exactly when `capacity` items are held, leaving storage, cursors and contents unchanged; on success writes only slot `w % capacity`, advances w by 1, appends the value; reader side unchanged |
| `LockFree.LockFreeQueue.PopObserving` | lock_free_queue.h:46-61 | with a possibly stale writer cursor: a success only when an item was held, and it returns the oldest; on failure the output is untouched |
| `LockFree.LockFreeQueue.TryPop` | lock_free_queue.h:46-61 | fails exactly when no item is held, leaving the output untouched; on success returns the oldest item, drops it from the contents, advances r by 1; writer side unchanged |
| `LockFree.ReplayLockFreeQueue` | lock_free_queue.h:28-61 | every sequence of calls on a fresh queue returns exactly the reference FIFO's outcomes |
| `LockFree.LockFreeQueueUnsignedIndex.Valid` | lock_free_queue.h:135-145 | the true distance w - r is at most capacity; each cached count is a lower bound on the true free or filled count |
| `LockFree.LockFreeQueueUnsignedIndex.constructor` | lock_free_queue.h:86-96 | storage of length capacity, cursors 0, writer avail capacity, reader avail 0, contents empty |
| `LockFree.LockFreeQueueUnsignedIndex.Create` | lock_free_queue.h:86-96 | fails exactly when capacity < 2 or not a power of two, with the error of the first failing check |
| `LockFree.LockFreeQueueUnsignedIndex.RefreshWriter` | lock_free_queue.h:105 | the `uint64_t` refresh yields capacity minus the true distance to the observed reader count |
| `LockFree.LockFreeQueueUnsignedIndex.RefreshReader` | lock_free_queue.h:123 | the `uint64_t` refresh yields the true distance from the reader count to the observed writer count |
| `LockFree.LockFreeQueueUnsignedIndex.PushObserving` | lock_free_queue.h:99-114 | with a possibly stale reader cursor: a success only when a slot was free; on success writes slot `count % capacity`, wraps w forward by 1 and appends |
| `LockFree.LockFreeQueueUnsignedIndex.TryPush` | lock_free_queue.h:99-114 | fails exactly when full, changing nothing visible; on success writes only the next slot, wraps w forward by 1, appends |
| `LockFree.LockFreeQueueUnsignedIndex.PopObserving` | lock_free_queue.h:117-132 | with a possibly stale writer cursor: a success only when an item was held, and it returns the oldest |
| `LockFree.LockFreeQueueUnsignedIndex.TryPop` | lock_free_queue.h:117-132 | fails exactly when empty, output untouched; on success returns the oldest item and wraps r forward by 1 |
| `LockFree.ReplayUnsignedIndex` | lock_free_queue.h:99-132 | every sequence of calls returns the reference FIFO's outcomes, however often the cursors wrap |
| `LockFree.LockFreeQueueBlind.Valid` | lock_free_queue.h:197-201 | the true distance w - r is at most capacity and the contents mirror the slots |
| `LockFree.LockFreeQueueBlind.constructor` | lock_free_queue.h:157-166 | storage of length capacity, cursors 0, contents empty |
| `LockFree.LockFreeQueueBlind.Create` | lock_free_queue.h:157-166 | fails exactly when capacity < 2 or not a power of two |
| `LockFree.LockFreeQueueBlind.TryPush` | lock_free_queue.h:169-180 | the wrapped difference equals capacity exactly when full; then nothing changes; on success writes only the next slot, wraps w forward by 1, appends |
| `LockFree.LockFreeQueueBlind.TryPop` | lock_free_queue.h:183-194 | the cursors are equal exactly when empty; then the output is untouched; on success returns the oldest item and wraps r forward by 1 |
| `LockFree.ReplayBlind` | lock_free_queue.h:169-194 | every sequence of calls returns the reference FIFO's outcomes, the same as the cached variants |
| `LockFree.Addresses` | lock_free_queue.h:217 | a pointer enters the `void *` queue as its address only |
| `LockFree.PointerQueue.constructor` | lock_free_queue.h:211 | the inherited constructor: an empty valid `void *` queue of the given capacity |
| `LockFree.PointerQueue.Create` | lock_free_queue.h:211 | fails exactly when capacity < 2 or not a power of two |
| `LockFree.PointerQueue.TryPush` | lock_free_queue.h:213-218 | fails exactly when full; on success the pointer is appended |
| `LockFree.PointerQueue.TryPop` | lock_free_queue.h:220-232 | writes the output only on success; then it is the oldest address cast to the requested type, which equals the pushed pointer when the requested type is the pushed one |
| `Bounded.BoundedQueue.Valid` | bounded_queue.h:17-20 | at most capacity items held; writer avail <= free slots, reader avail <= held items |
| `Bounded.BoundedQueue.constructor` | bounded_queue.h:23-27 | no checks: the caller supplies a power-of-two capacity >= 2; storage of length capacity, mask capacity - 1, writer avail capacity |
| `Bounded.BoundedQueue.TryPush` | bounded_queue.h:29-44 | fails exactly when full after the refresh, touching no slot; on success stores into slot `w % capacity`, bumps w by 1, decrements writer avail |
| `Bounded.BoundedQueue.TryPop` | bounded_queue.h:46-61 | fails exactly when empty, `t` unchanged; on success moves out slot `r % capacity` (the oldest item), bumps r by 1, decrements reader avail |
| `Bounded.ReplayBoundedQueue` | bounded_queue.h:29-61 | every sequence of calls returns the reference FIFO's outcomes |
| `Bounded.Drain` | main.cc:22-25 | popping until failure yields the held items in order, in one more attempt than there are items |
| `Bounded.FillThenDrain` | main.cc:8-28 | `capacity` pushes into a fresh queue all succeed; draining yields exactly the inputs in order, and the next pop fails |
| `PipeResearch.BoundedQueue.Valid` | pipe_research/bounded_queue.h:19-22 | at most capacity items held; writer avail <= free slots, reader avail <= held items |
| `PipeResearch.BoundedQueue.constructor` | pipe_research/bounded_queue.h:25-35 | after the checks pass: storage of length capacity, cursors 0, writer avail capacity |
| `PipeResearch.BoundedQueue.Create` | pipe_research/bounded_queue.h:25-35 | throws on capacity < 2 and on a non-power-of-two capacity, and otherwise sets writer avail to capacity |
| `PipeResearch.BoundedQueue.WriteVal` | pipe_research/bounded_queue.h:38-53 | false with no visible change exactly when full after the refresh; on success writes slot `w % capacity` and advances w by 1 |
| `PipeResearch.BoundedQueue.ReadVal` | pipe_research/bounded_queue.h:56-71 | false with `data` untouched exactly when empty; on success yields the oldest unread value and advances r by 1 |
| `PipeResearch.ReplayBoundedQueue` | pipe_research/bounded_queue.h:38-71 | every sequence of calls returns the reference FIFO's outcomes |

## Left out

- Memory ordering and the atomics themselves (acquire, release, relaxed). The model is sequential,
  with cursors as plain fields, and it does not capture the cross-thread happens-before argument.
  Staleness of the opposite cursor is modelled, through `PushObserving` and `PopObserving`.
- `alignas(64)` cache-line padding, because it is layout only.
- `std::move`. A slot assignment or read is a copy, so a popped slot keeps its value.
- Threads, timers, `rand()`, argument parsing and console output in test.cc, pipe_research/test.cc
  and main.cc. From main.cc only the single-threaded fill-then-drain run is modelled.
- gcl_queue.h is not part of this model. It adapts a third-party queue that is not available.
- The pipe transport used as a comparison baseline is not part of this model.
- `LockFree.LockFreeQueue.TryPush`, `LockFree.LockFreeQueue.PushObserving`,
  `LockFree.PointerQueue.TryPush`, `Bounded.BoundedQueue.TryPush` and
  `PipeResearch.BoundedQueue.WriteVal` require the signed writer cursor to be below 2^63 - 1.
  The overflow of a signed `int64_t` cursor after 2^63 - 1 pushes is not modelled.
- `LockFree.ReplayLockFreeQueue`, `Bounded.ReplayBoundedQueue` and
  `PipeResearch.ReplayBoundedQueue` require fewer than 2^63 - 1 calls for the same reason.
- In the signed variants, the refresh mixes `size_t` and `int64_t`. The model computes it exactly,
  because every intermediate value lies in `[0, capacity]`.
- The unsigned constructors take a `uint64_t`. A negative argument converted by the caller is
  outside the model.
- `static_cast` in `PointerQueue` is unchecked. The model records the requested type on the
  popped pointer and does not model the runtime meaning of a mismatched cast.
- In `LockFreeQueueUnsignedIndex`, the two refresh steps are separate methods, `RefreshWriter` and
  `RefreshReader`. In the source they are inline at lock_free_queue.h:105 and :123. The behaviour
  is the same.
- The stale-read form (`PushObserving`/`PopObserving`) is given only for the two cached classes
  of lock_free_queue.h. The `BoundedQueue` copies read the current opposite cursor.
- Unsigned cursors: wrap-around correctness is proved whenever the true cursor distance is below
  2^64. That covers every reachable state, because the distance never exceeds the capacity.
