/**
 * The single-producer/single-consumer ring buffers of lock_free_queue.h, read sequentially: the
 * atomic cursors are plain fields and one caller interleaves the producer's and the consumer's
 * calls.
 */
module LockFree {
  import opened Wrappers
  import opened Bits
  import opened Word
  import opened Capacity
  import Ring
  import Fifo

  /**
   * `LockFreeQueue<T>`: `int64_t` cursors, each side caching how many slots it may still use
   * before it must read the opposite cursor again.
   */
  class LockFreeQueue<T(0)> {
    const storage: array<T>
    const mask: int
    var writerCur: int
    var writerAvail: int
    var readerCur: int
    var readerAvail: int

    /** The pushed and not yet popped items, oldest first. */
    ghost var contents: seq<T>
    /** The reader cursor as the writer last read it. */
    ghost var readerSeen: int
    /** The writer cursor as the reader last read it. */
    ghost var writerSeen: int

    /**
     * Each cached count is exact with respect to the opposite cursor as last read, and since a
     * cursor only grows, it is a lower bound on the true free (writer) or filled (reader) count.
     */
    ghost predicate Valid()
      reads this, storage
      ensures Valid() ==> 0 <= writerCur - readerCur <= storage.Length
      ensures Valid() ==> 0 <= writerAvail <= storage.Length - (writerCur - readerCur)
      ensures Valid() ==> 0 <= readerAvail <= writerCur - readerCur
    {
      var n := storage.Length;
      2 <= n <= I64_MAX && IsPow2(n) && mask == n - 1 &&
      0 <= readerSeen <= readerCur <= writerSeen <= writerCur <= I64_MAX &&
      writerCur - readerSeen <= n &&
      writerAvail == n - (writerCur - readerSeen) &&
      readerAvail == writerSeen - readerCur &&
      |contents| == writerCur - readerCur &&
      Ring.Mirrors(contents, storage[..], readerCur)
    }

    /** The constructor once its checks have passed. */
    constructor (capacity: I64)
      requires Validate(capacity) == None
      ensures Valid() && fresh(storage) && storage.Length == capacity && mask == capacity - 1
      ensures writerCur == 0 && readerCur == 0 && writerAvail == capacity && readerAvail == 0
      ensures contents == []
    {
      mask := capacity - 1;
      storage := new T[capacity];
      writerCur, writerAvail := 0, capacity;
      readerCur, readerAvail := 0, 0;
      contents := [];
      readerSeen, writerSeen := 0, 0;
    }

    /** The constructor: throws on a capacity below 2 or not a power of two. */
    static method Create(capacity: I64) returns (r: Result<LockFreeQueue<T>, CapacityError>)
      ensures r.Failure? <==> !(capacity >= 2 && IsPow2(capacity))
      ensures r.Failure? ==> Validate(capacity) == Some(r.error)
      ensures r.Success? ==> fresh(r.value) && fresh(r.value.storage) && r.value.Valid()
      ensures r.Success? ==> r.value.storage.Length == capacity && r.value.contents == []
      ensures r.Success? ==> r.value.writerCur == 0 && r.value.readerCur == 0
      ensures r.Success? ==> r.value.writerAvail == capacity && r.value.readerAvail == 0
    {
      match Validate(capacity)
      case Some(e) =>
        r := Failure(e);
      case None =>
        var q := new LockFreeQueue<T>(capacity);
        r := Success(q);
    }

    /**
     * `try_push` where the acquire load of the reader cursor (made only when the cache is empty)
     * returned `seen`: any value from the one last read up to the current one. A stale value can
     * only make the push fail spuriously; a push that succeeds always had a free slot.
     */
    method PushObserving(x: T, seen: int) returns (ok: bool)
      requires Valid() && writerCur < I64_MAX
      requires readerSeen <= seen <= readerCur
      modifies this, storage
      ensures Valid()
      ensures ok ==> |old(contents)| < storage.Length
      ensures ok <==> old(writerAvail) > 0 || storage.Length - (old(writerCur) - seen) > 0
      ensures contents == if ok then old(contents) + [x] else old(contents)
      ensures storage[..] == if ok then old(storage[..])[old(writerCur) % storage.Length := x]
                             else old(storage[..])
      ensures writerCur == old(writerCur) + (if ok then 1 else 0)
      ensures writerAvail == (if old(writerAvail) > 0 then old(writerAvail)
                              else storage.Length - (old(writerCur) - seen))
                             - (if ok then 1 else 0)
      ensures readerSeen == if old(writerAvail) == 0 then seen else old(readerSeen)
      ensures readerCur == old(readerCur) && readerAvail == old(readerAvail)
      ensures writerSeen == old(writerSeen)
    {
      var cur := writerCur;
      if writerAvail == 0 {
        writerAvail := storage.Length - (cur - seen);
        readerSeen := seen;
        if writerAvail == 0 {
          return false;
        }
      }
      var slot := BitAnd(cur, mask);
      MaskIsMod(cur, storage.Length);
      Ring.MirrorsAfterWrite(contents, storage[..], readerCur, x);
      storage[slot] := x;
      writerCur := cur + 1;
      writerAvail := writerAvail - 1;
      contents := contents + [x];
      ok := true;
    }

    /** `try_push`: fails, changing nothing visible, exactly when `capacity` items are held. */
    method TryPush(x: T) returns (ok: bool)
      requires Valid() && writerCur < I64_MAX
      modifies this, storage
      ensures Valid()
      ensures ok <==> |old(contents)| < storage.Length
      ensures contents == if ok then old(contents) + [x] else old(contents)
      ensures storage[..] == if ok then old(storage[..])[old(writerCur) % storage.Length := x]
                             else old(storage[..])
      ensures writerCur == old(writerCur) + (if ok then 1 else 0)
      ensures writerAvail == (if old(writerAvail) > 0 then old(writerAvail)
                              else storage.Length - (old(writerCur) - old(readerCur)))
                             - (if ok then 1 else 0)
      ensures readerCur == old(readerCur) && readerAvail == old(readerAvail)
    {
      ok := PushObserving(x, readerCur);
    }

    /**
     * `try_pop` where the acquire load of the writer cursor (made only when the cache is empty)
     * returned `seen`: any value from the one last read up to the current one. `data` is the
     * caller's variable before the call and `data'` after it.
     */
    method PopObserving(data: T, seen: int) returns (ok: bool, data': T)
      requires Valid()
      requires writerSeen <= seen <= writerCur
      modifies this
      ensures Valid()
      ensures ok ==> |old(contents)| > 0 && data' == old(contents)[0]
      ensures ok ==> data' == storage[old(readerCur) % storage.Length]
      ensures !ok ==> data' == data
      ensures ok <==> old(readerAvail) > 0 || seen - old(readerCur) > 0
      ensures contents == if ok then old(contents)[1..] else old(contents)
      ensures readerCur == old(readerCur) + (if ok then 1 else 0)
      ensures readerAvail == (if old(readerAvail) > 0 then old(readerAvail) else seen - old(readerCur))
                             - (if ok then 1 else 0)
      ensures writerSeen == if old(readerAvail) == 0 then seen else old(writerSeen)
      ensures writerCur == old(writerCur) && writerAvail == old(writerAvail)
      ensures readerSeen == old(readerSeen)
    {
      var cur := readerCur;
      if readerAvail == 0 {
        readerAvail := seen - cur;
        writerSeen := seen;
        if readerAvail == 0 {
          return false, data;
        }
      }
      var slot := BitAnd(cur, mask);
      MaskIsMod(cur, storage.Length);
      Ring.MirrorsAfterRead(contents, storage[..], readerCur);
      data' := storage[slot];
      readerCur := cur + 1;
      readerAvail := readerAvail - 1;
      contents := contents[1..];
      ok := true;
    }

    /** `try_pop`: fails, leaving `data` as it was, exactly when no item is held; otherwise yields the oldest. */
    method TryPop(data: T) returns (ok: bool, data': T)
      requires Valid()
      modifies this
      ensures Valid()
      ensures ok <==> |old(contents)| > 0
      ensures ok ==> data' == old(contents)[0]
      ensures !ok ==> data' == data
      ensures contents == if ok then old(contents)[1..] else old(contents)
      ensures readerCur == old(readerCur) + (if ok then 1 else 0)
      ensures readerAvail == (if old(readerAvail) > 0 then old(readerAvail)
                              else old(writerCur) - old(readerCur))
                             - (if ok then 1 else 0)
      ensures writerCur == old(writerCur) && writerAvail == old(writerAvail)
    {
      ok, data' := PopObserving(data, writerCur);
    }
  }

  /**
   * Any sequence of calls on a fresh `LockFreeQueue` returns what the reference FIFO returns;
   * `|ops| < I64_MAX` keeps the signed writer cursor from overflowing.
   */
  method ReplayLockFreeQueue<T(0)>(capacity: I64, ops: seq<Fifo.Op<T>>) returns (outcomes: seq<Fifo.Outcome<T>>)
    requires capacity >= 2 && IsPow2(capacity) && |ops| < I64_MAX
    ensures outcomes == Fifo.Run(capacity, ops).outcomes
  {
    var r := LockFreeQueue<T>.Create(capacity);
    var q := r.value;
    outcomes := [];
    var i := 0;
    while i < |ops|
      invariant 0 <= i <= |ops|
      invariant q.Valid() && q.storage.Length == capacity && q.writerCur <= i
      invariant q.contents == Fifo.Run(capacity, ops[..i]).contents
      invariant outcomes == Fifo.Run(capacity, ops[..i]).outcomes
    {
      assert ops[..i + 1][..i] == ops[..i];
      match ops[i] {
        case Push(x) =>
          var ok := q.TryPush(x);
          outcomes := outcomes + [Fifo.Pushed(ok)];
        case Pop =>
          var data: T := *;
          var ok, data' := q.TryPop(data);
          outcomes := outcomes + [Fifo.Popped(if ok then Some(data') else None)];
      }
      i := i + 1;
    }
    assert ops[..i] == ops;
  }

  /**
   * `LockFreeQueueUnsignedIndex<T>`: the cached algorithm on `uint64_t` cursors, which wrap
   * modulo 2^64. The ghost counts are the cursors' true, unbounded values.
   */
  class LockFreeQueueUnsignedIndex<T(0)> {
    const storage: array<T>
    const mask: U64
    var writerCur: U64
    var writerAvail: U64
    var readerCur: U64
    var readerAvail: U64

    /** The pushed and not yet popped items, oldest first. */
    ghost var contents: seq<T>
    /** The number of successful pushes; the writer cursor is this modulo 2^64. */
    ghost var writeCount: nat
    /** The number of successful pops; the reader cursor is this modulo 2^64. */
    ghost var readCount: nat
    /** The reader's count when the writer last read the reader cursor. */
    ghost var readerSeen: nat
    /** The writer's count when the reader last read the writer cursor. */
    ghost var writerSeen: nat

    ghost predicate Valid()
      reads this, storage
      ensures Valid() ==> |contents| <= storage.Length
      ensures Valid() ==> writerAvail <= storage.Length - |contents| && readerAvail <= |contents|
    {
      var n := storage.Length;
      2 <= n < WORD && IsPow2(n) && mask == n - 1 &&
      writerCur == writeCount % WORD && readerCur == readCount % WORD &&
      readerSeen <= readCount <= writerSeen <= writeCount &&
      writeCount - readerSeen <= n &&
      writerAvail == n - (writeCount - readerSeen) &&
      readerAvail == writerSeen - readCount &&
      |contents| == writeCount - readCount &&
      Ring.Mirrors(contents, storage[..], readCount)
    }

    /** The constructor once its checks have passed. */
    constructor (capacity: U64)
      requires Validate(capacity) == None
      ensures Valid() && fresh(storage) && storage.Length == capacity && mask == capacity - 1
      ensures writerCur == 0 && readerCur == 0 && writerAvail == capacity && readerAvail == 0
      ensures contents == [] && writeCount == 0 && readCount == 0
    {
      mask := capacity - 1;
      storage := new T[capacity];
      writerCur, writerAvail := 0, capacity;
      readerCur, readerAvail := 0, 0;
      contents := [];
      writeCount, readCount := 0, 0;
      readerSeen, writerSeen := 0, 0;
    }

    /** The constructor: throws on a capacity below 2 or not a power of two. */
    static method Create(capacity: U64) returns (r: Result<LockFreeQueueUnsignedIndex<T>, CapacityError>)
      ensures r.Failure? <==> !(capacity >= 2 && IsPow2(capacity))
      ensures r.Failure? ==> Validate(capacity) == Some(r.error)
      ensures r.Success? ==> fresh(r.value) && fresh(r.value.storage) && r.value.Valid()
      ensures r.Success? ==> r.value.storage.Length == capacity && r.value.contents == []
      ensures r.Success? ==> r.value.writerCur == 0 && r.value.readerCur == 0
      ensures r.Success? ==> r.value.writerAvail == capacity && r.value.readerAvail == 0
    {
      match Validate(capacity)
      case Some(e) =>
        r := Failure(e);
      case None =>
        var q := new LockFreeQueueUnsignedIndex<T>(capacity);
        r := Success(q);
    }

    /**
     * `try_push` where the acquire load of the reader cursor returned `seen`, the wrapped value of
     * some reader count `seenCount` from the one last read up to the current one.
     */
    /**
     * The refresh of the writer's cached count: `capacity - (cur - seen)` in `uint64_t`
     * arithmetic, which is the true number of free slots as of the reader count `seenCount`.
     */
    method RefreshWriter(seen: U64, ghost seenCount: nat)
      requires Valid()
      requires readerSeen <= seenCount <= readCount && seen == seenCount % WORD
      modifies this`writerAvail, this`readerSeen
      ensures Valid()
      ensures writerAvail == storage.Length - (writeCount - seenCount)
      ensures readerSeen == seenCount
    {
      var distance := WrapSub(writerCur, seen);
      WrappingDistance(writeCount, seenCount);
      writerAvail := WrapSub(storage.Length, distance);
      readerSeen := seenCount;
    }

    method PushObserving(x: T, seen: U64, ghost seenCount: nat) returns (ok: bool)
      requires Valid()
      requires readerSeen <= seenCount <= readCount && seen == seenCount % WORD
      modifies this, storage
      ensures Valid()
      ensures ok ==> |old(contents)| < storage.Length
      ensures ok <==> old(writerAvail) > 0 || old(writeCount) - seenCount < storage.Length
      ensures contents == if ok then old(contents) + [x] else old(contents)
      ensures storage[..] == if ok then old(storage[..])[old(writeCount) % storage.Length := x]
                             else old(storage[..])
      ensures writerCur == if ok then WrapAdd(old(writerCur), 1) else old(writerCur)
      ensures writeCount == old(writeCount) + (if ok then 1 else 0)
      ensures writerAvail == (if old(writerAvail) > 0 then old(writerAvail)
                              else storage.Length - (old(writeCount) - seenCount))
                             - (if ok then 1 else 0)
      ensures readerSeen == if old(writerAvail) == 0 then seenCount else old(readerSeen)
      ensures readerCur == old(readerCur) && readerAvail == old(readerAvail)
      ensures readCount == old(readCount) && writerSeen == old(writerSeen)
    {
      var cur := writerCur;
      WrappedSlot(writeCount, storage.Length);
      WrappedIncrement(writeCount);
      if writerAvail == 0 {
        RefreshWriter(seen, seenCount);
        if writerAvail == 0 {
          return false;
        }
      }
      var slot := BitAnd(cur, mask);
      Ring.MirrorsAfterWrite(contents, storage[..], readCount, x);
      storage[slot] := x;
      writerCur := WrapAdd(cur, 1);
      writeCount := writeCount + 1;
      writerAvail := writerAvail - 1;
      contents := contents + [x];
      ok := true;
    }

    /** `try_push`: fails, changing nothing visible, exactly when `capacity` items are held. */
    method TryPush(x: T) returns (ok: bool)
      requires Valid()
      modifies this, storage
      ensures Valid()
      ensures ok <==> |old(contents)| < storage.Length
      ensures contents == if ok then old(contents) + [x] else old(contents)
      ensures storage[..] == if ok then old(storage[..])[old(writeCount) % storage.Length := x]
                             else old(storage[..])
      ensures writerCur == if ok then WrapAdd(old(writerCur), 1) else old(writerCur)
      ensures writeCount == old(writeCount) + (if ok then 1 else 0)
      ensures writerAvail == (if old(writerAvail) > 0 then old(writerAvail)
                              else storage.Length - |old(contents)|)
                             - (if ok then 1 else 0)
      ensures readerCur == old(readerCur) && readerAvail == old(readerAvail)
      ensures readCount == old(readCount)
    {
      ok := PushObserving(x, readerCur, readCount);
    }

    /**
     * `try_pop` where the acquire load of the writer cursor returned `seen`, the wrapped value of
     * some writer count `seenCount` from the one last read up to the current one.
     */
    /**
     * The refresh of the reader's cached count: `seen - cur` in `uint64_t` arithmetic, which is
     * the true number of held items as of the writer count `seenCount`.
     */
    method RefreshReader(seen: U64, ghost seenCount: nat)
      requires Valid()
      requires writerSeen <= seenCount <= writeCount && seen == seenCount % WORD
      modifies this`readerAvail, this`writerSeen
      ensures Valid()
      ensures readerAvail == seenCount - readCount
      ensures writerSeen == seenCount
    {
      WrappingDistance(seenCount, readCount);
      readerAvail := WrapSub(seen, readerCur);
      writerSeen := seenCount;
    }

    method PopObserving(data: T, seen: U64, ghost seenCount: nat) returns (ok: bool, data': T)
      requires Valid()
      requires writerSeen <= seenCount <= writeCount && seen == seenCount % WORD
      modifies this
      ensures Valid()
      ensures ok ==> |old(contents)| > 0 && data' == old(contents)[0]
      ensures ok ==> data' == storage[old(readCount) % storage.Length]
      ensures !ok ==> data' == data
      ensures ok <==> old(readerAvail) > 0 || seenCount > old(readCount)
      ensures contents == if ok then old(contents)[1..] else old(contents)
      ensures readerCur == if ok then WrapAdd(old(readerCur), 1) else old(readerCur)
      ensures readCount == old(readCount) + (if ok then 1 else 0)
      ensures readerAvail == (if old(readerAvail) > 0 then old(readerAvail) else seenCount - old(readCount))
                             - (if ok then 1 else 0)
      ensures writerSeen == if old(readerAvail) == 0 then seenCount else old(writerSeen)
      ensures writerCur == old(writerCur) && writerAvail == old(writerAvail)
      ensures writeCount == old(writeCount) && readerSeen == old(readerSeen)
    {
      var cur := readerCur;
      if readerAvail == 0 {
        RefreshReader(seen, seenCount);
        if readerAvail == 0 {
          return false, data;
        }
      }
      WrappedSlot(readCount, storage.Length);
      var slot := BitAnd(cur, mask);
      Ring.MirrorsAfterRead(contents, storage[..], readCount);
      data' := storage[slot];
      WrappedIncrement(readCount);
      readerCur := WrapAdd(cur, 1);
      readCount := readCount + 1;
      readerAvail := readerAvail - 1;
      contents := contents[1..];
      ok := true;
    }

    /** `try_pop`: fails, leaving `data` as it was, exactly when no item is held; otherwise yields the oldest. */
    method TryPop(data: T) returns (ok: bool, data': T)
      requires Valid()
      modifies this
      ensures Valid()
      ensures ok <==> |old(contents)| > 0
      ensures ok ==> data' == old(contents)[0]
      ensures !ok ==> data' == data
      ensures contents == if ok then old(contents)[1..] else old(contents)
      ensures readerCur == if ok then WrapAdd(old(readerCur), 1) else old(readerCur)
      ensures readCount == old(readCount) + (if ok then 1 else 0)
      ensures readerAvail == (if old(readerAvail) > 0 then old(readerAvail) else |old(contents)|)
                             - (if ok then 1 else 0)
      ensures writerCur == old(writerCur) && writerAvail == old(writerAvail)
      ensures writeCount == old(writeCount)
    {
      ok, data' := PopObserving(data, writerCur, writeCount);
    }
  }

  /**
   * Any sequence of calls on a fresh `LockFreeQueueUnsignedIndex` returns what the reference FIFO
   * returns, however many times its cursors wrap.
   */
  method ReplayUnsignedIndex<T(0)>(capacity: U64, ops: seq<Fifo.Op<T>>) returns (outcomes: seq<Fifo.Outcome<T>>)
    requires capacity >= 2 && IsPow2(capacity)
    ensures outcomes == Fifo.Run(capacity, ops).outcomes
  {
    var r := LockFreeQueueUnsignedIndex<T>.Create(capacity);
    var q := r.value;
    outcomes := [];
    var i := 0;
    while i < |ops|
      invariant 0 <= i <= |ops|
      invariant q.Valid() && q.storage.Length == capacity
      invariant q.contents == Fifo.Run(capacity, ops[..i]).contents
      invariant outcomes == Fifo.Run(capacity, ops[..i]).outcomes
    {
      assert ops[..i + 1][..i] == ops[..i];
      match ops[i] {
        case Push(x) =>
          var ok := q.TryPush(x);
          outcomes := outcomes + [Fifo.Pushed(ok)];
        case Pop =>
          var data: T := *;
          var ok, data' := q.TryPop(data);
          outcomes := outcomes + [Fifo.Popped(if ok then Some(data') else None)];
      }
      i := i + 1;
    }
    assert ops[..i] == ops;
  }

  /**
   * `LockFreeQueueBlind<T>`: no cached counts; every call reads the opposite `uint64_t` cursor.
   * The ghost counts are the cursors' true, unbounded values.
   */
  class LockFreeQueueBlind<T(0)> {
    const storage: array<T>
    const mask: U64
    var writerCur: U64
    var readerCur: U64

    /** The pushed and not yet popped items, oldest first. */
    ghost var contents: seq<T>
    /** The number of successful pushes; the writer cursor is this modulo 2^64. */
    ghost var writeCount: nat
    /** The number of successful pops; the reader cursor is this modulo 2^64. */
    ghost var readCount: nat

    ghost predicate Valid()
      reads this, storage
      ensures Valid() ==> |contents| <= storage.Length
    {
      var n := storage.Length;
      2 <= n < WORD && IsPow2(n) && mask == n - 1 &&
      writerCur == writeCount % WORD && readerCur == readCount % WORD &&
      readCount <= writeCount &&
      |contents| == writeCount - readCount &&
      Ring.Mirrors(contents, storage[..], readCount)
    }

    /** The constructor once its checks have passed. */
    constructor (capacity: U64)
      requires Validate(capacity) == None
      ensures Valid() && fresh(storage) && storage.Length == capacity && mask == capacity - 1
      ensures writerCur == 0 && readerCur == 0
      ensures contents == [] && writeCount == 0 && readCount == 0
    {
      mask := capacity - 1;
      storage := new T[capacity];
      writerCur, readerCur := 0, 0;
      contents := [];
      writeCount, readCount := 0, 0;
    }

    /** The constructor: throws on a capacity below 2 or not a power of two. */
    static method Create(capacity: U64) returns (r: Result<LockFreeQueueBlind<T>, CapacityError>)
      ensures r.Failure? <==> !(capacity >= 2 && IsPow2(capacity))
      ensures r.Failure? ==> Validate(capacity) == Some(r.error)
      ensures r.Success? ==> fresh(r.value) && fresh(r.value.storage) && r.value.Valid()
      ensures r.Success? ==> r.value.storage.Length == capacity && r.value.contents == []
      ensures r.Success? ==> r.value.writerCur == 0 && r.value.readerCur == 0
    {
      match Validate(capacity)
      case Some(e) =>
        r := Failure(e);
      case None =>
        var q := new LockFreeQueueBlind<T>(capacity);
        r := Success(q);
    }

    /** `try_push`: full exactly when the wrapped cursor difference equals the capacity. */
    method TryPush(x: T) returns (ok: bool)
      requires Valid()
      modifies this, storage
      ensures Valid()
      ensures ok <==> |old(contents)| < storage.Length
      ensures contents == if ok then old(contents) + [x] else old(contents)
      ensures storage[..] == if ok then old(storage[..])[old(writeCount) % storage.Length := x]
                             else old(storage[..])
      ensures writerCur == if ok then WrapAdd(old(writerCur), 1) else old(writerCur)
      ensures writeCount == old(writeCount) + (if ok then 1 else 0)
      ensures readerCur == old(readerCur) && readCount == old(readCount)
    {
      var cur := writerCur;
      WrappingDistance(writeCount, readCount);
      if WrapSub(cur, readerCur) == storage.Length {
        return false;
      }
      WrappedSlot(writeCount, storage.Length);
      var slot := BitAnd(cur, mask);
      Ring.MirrorsAfterWrite(contents, storage[..], readCount, x);
      storage[slot] := x;
      WrappedIncrement(writeCount);
      writerCur := WrapAdd(cur, 1);
      writeCount := writeCount + 1;
      contents := contents + [x];
      ok := true;
    }

    /** `try_pop`: empty exactly when the two cursors are equal; then `data` is left as it was. */
    method TryPop(data: T) returns (ok: bool, data': T)
      requires Valid()
      modifies this
      ensures Valid()
      ensures ok <==> |old(contents)| > 0
      ensures ok ==> data' == old(contents)[0] && data' == storage[old(readCount) % storage.Length]
      ensures !ok ==> data' == data
      ensures contents == if ok then old(contents)[1..] else old(contents)
      ensures readerCur == if ok then WrapAdd(old(readerCur), 1) else old(readerCur)
      ensures readCount == old(readCount) + (if ok then 1 else 0)
      ensures writerCur == old(writerCur) && writeCount == old(writeCount)
    {
      var cur := readerCur;
      WrappingDistance(writeCount, readCount);
      if writerCur == cur {
        return false, data;
      }
      WrappedSlot(readCount, storage.Length);
      var slot := BitAnd(cur, mask);
      Ring.MirrorsAfterRead(contents, storage[..], readCount);
      data' := storage[slot];
      WrappedIncrement(readCount);
      readerCur := WrapAdd(cur, 1);
      readCount := readCount + 1;
      contents := contents[1..];
      ok := true;
    }
  }

  /**
   * Any sequence of calls on a fresh `LockFreeQueueBlind` returns what the reference FIFO returns,
   * and so what the cached variants return: in a sequential run the caches are unobservable.
   */
  method ReplayBlind<T(0)>(capacity: U64, ops: seq<Fifo.Op<T>>) returns (outcomes: seq<Fifo.Outcome<T>>)
    requires capacity >= 2 && IsPow2(capacity)
    ensures outcomes == Fifo.Run(capacity, ops).outcomes
  {
    var r := LockFreeQueueBlind<T>.Create(capacity);
    var q := r.value;
    outcomes := [];
    var i := 0;
    while i < |ops|
      invariant 0 <= i <= |ops|
      invariant q.Valid() && q.storage.Length == capacity
      invariant q.contents == Fifo.Run(capacity, ops[..i]).contents
      invariant outcomes == Fifo.Run(capacity, ops[..i]).outcomes
    {
      assert ops[..i + 1][..i] == ops[..i];
      match ops[i] {
        case Push(x) =>
          var ok := q.TryPush(x);
          outcomes := outcomes + [Fifo.Pushed(ok)];
        case Pop =>
          var data: T := *;
          var ok, data' := q.TryPop(data);
          outcomes := outcomes + [Fifo.Popped(if ok then Some(data') else None)];
      }
      i := i + 1;
    }
    assert ops[..i] == ops;
  }

  /** `void *`: an address-sized value. */
  type Address = U64

  /** The static type a pointer is declared with; the queue never stores it. */
  type TypeName = string

  /** A typed pointer on the caller's side of `PointerQueue`. */
  datatype Pointer = Pointer(pointee: TypeName, address: Address)

  /** The addresses of the pointers, which is all a `LockFreeQueue<void *>` holds. */
  function Addresses(ps: seq<Pointer>): (r: seq<Address>)
    ensures |r| == |ps| && forall i :: 0 <= i < |ps| ==> r[i] == ps[i].address
  {
    if ps == [] then [] else [ps[0].address] + Addresses(ps[1..])
  }

  /**
   * `PointerQueue`: a `LockFreeQueue<void *>` whose push takes any pointer type (erasing it to
   * `void *`) and whose pop casts the stored address to the pointer type the caller asks for.
   */
  class PointerQueue {
    const base: LockFreeQueue<Address>

    /** The pushed and not yet popped pointers, with the types they were pushed as. */
    ghost var contents: seq<Pointer>

    ghost predicate Valid()
      reads this, base, base.storage
    {
      base.Valid() && base.contents == Addresses(contents)
    }

    /** The inherited constructor once its checks have passed. */
    constructor (capacity: I64)
      requires Validate(capacity) == None
      ensures Valid() && fresh(base) && fresh(base.storage)
      ensures base.storage.Length == capacity && base.writerCur == 0 && contents == []
    {
      base := new LockFreeQueue<Address>(capacity);
      contents := [];
    }

    /** The inherited constructor: throws on a capacity below 2 or not a power of two. */
    static method Create(capacity: I64) returns (r: Result<PointerQueue, CapacityError>)
      ensures r.Failure? <==> !(capacity >= 2 && IsPow2(capacity))
      ensures r.Failure? ==> Validate(capacity) == Some(r.error)
      ensures r.Success? ==> fresh(r.value) && fresh(r.value.base) && fresh(r.value.base.storage)
      ensures r.Success? ==> r.value.Valid() && r.value.contents == []
      ensures r.Success? ==> r.value.base.storage.Length == capacity && r.value.base.writerCur == 0
    {
      match Validate(capacity)
      case Some(e) =>
        r := Failure(e);
      case None =>
        var q := new PointerQueue(capacity);
        r := Success(q);
    }

    /** `try_push<P>`: the address goes in as `void *`; fails exactly when the queue is full. */
    method TryPush(pointer: Pointer) returns (ok: bool)
      requires Valid() && base.writerCur < I64_MAX
      modifies this, base, base.storage
      ensures Valid()
      ensures ok <==> |old(contents)| < base.storage.Length
      ensures contents == if ok then old(contents) + [pointer] else old(contents)
      ensures base.writerCur == old(base.writerCur) + (if ok then 1 else 0)
    {
      ok := base.TryPush(pointer.address);
      if ok {
        contents := contents + [pointer];
      }
    }

    /**
     * `try_pop<P>`: on success the oldest address comes back cast to the requested type `target`,
     * which is the pointer pushed whenever `target` is the type it was pushed as; on failure
     * `pointer` is left as it was.
     */
    method TryPop(target: TypeName, pointer: Pointer) returns (ok: bool, pointer': Pointer)
      requires Valid()
      modifies this, base
      ensures Valid()
      ensures ok <==> |old(contents)| > 0
      ensures ok ==> pointer' == Pointer(target, old(contents)[0].address)
      ensures ok && target == old(contents)[0].pointee ==> pointer' == old(contents)[0]
      ensures !ok ==> pointer' == pointer
      ensures contents == if ok then old(contents)[1..] else old(contents)
    {
      var p: Address := *;
      var popped;
      ok, popped := base.TryPop(p);
      if ok {
        pointer' := Pointer(target, popped);
        contents := contents[1..];
      } else {
        pointer' := pointer;
      }
    }
  }
}
