/**
 * bounded_queue.h: `BoundedQueue<T>`, the cached-count ring buffer on `int64_t` cursors whose
 * constructor does not validate its capacity, and the single-threaded fill-then-drain run of
 * main.cc that exercises it.
 */
module Bounded {
  import opened Wrappers
  import opened Bits
  import opened Word
  import Ring
  import Fifo

  class BoundedQueue<T(0)> {
    const storage: array<T>
    const mask: int
    var writerCur: int
    var writerAvail: int
    var readerCur: int
    var readerAvail: int

    /** The pushed and not yet popped items, oldest first. */
    ghost var contents: seq<T>

    /**
     * The cursors stay at most `capacity` apart, and each cached count is a lower bound on the
     * true free (writer) or filled (reader) count.
     */
    ghost predicate Valid()
      reads this, storage
      ensures Valid() ==> |contents| <= storage.Length
    {
      var n := storage.Length;
      2 <= n <= I64_MAX && IsPow2(n) && mask == n - 1 &&
      0 <= readerCur <= writerCur <= I64_MAX &&
      |contents| == writerCur - readerCur &&
      0 <= writerAvail <= n - (writerCur - readerCur) &&
      0 <= readerAvail <= writerCur - readerCur &&
      Ring.Mirrors(contents, storage[..], readerCur)
    }

    /** The constructor performs no check: a power-of-two capacity of at least 2 is the caller's duty. */
    constructor (capacity: I64)
      requires capacity >= 2 && IsPow2(capacity)
      ensures Valid() && fresh(storage) && storage.Length == capacity && mask == capacity - 1
      ensures writerCur == 0 && readerCur == 0 && writerAvail == capacity && readerAvail == 0
      ensures contents == []
    {
      mask := capacity - 1;
      storage := new T[capacity];
      writerCur, writerAvail := 0, capacity;
      readerCur, readerAvail := 0, 0;
      contents := [];
    }

    /**
     * `try_push`: when the cached count is 0 it is refreshed from the reader cursor; if still 0 the
     * queue is full and nothing is touched.
     */
    method TryPush(t: T) returns (ok: bool)
      requires Valid() && writerCur < I64_MAX
      modifies this, storage
      ensures Valid()
      ensures ok <==> |old(contents)| < storage.Length
      ensures contents == if ok then old(contents) + [t] else old(contents)
      ensures storage[..] == if ok then old(storage[..])[old(writerCur) % storage.Length := t]
                             else old(storage[..])
      ensures writerCur == old(writerCur) + (if ok then 1 else 0)
      ensures writerAvail == (if old(writerAvail) > 0 then old(writerAvail)
                              else storage.Length - (old(writerCur) - old(readerCur)))
                             - (if ok then 1 else 0)
      ensures readerCur == old(readerCur) && readerAvail == old(readerAvail)
    {
      var cur := writerCur;
      if writerAvail == 0 {
        writerAvail := storage.Length - (cur - readerCur);
        if writerAvail == 0 {
          return false;
        }
      }
      var slot := BitAnd(cur, mask);
      MaskIsMod(cur, storage.Length);
      Ring.MirrorsAfterWrite(contents, storage[..], readerCur, t);
      storage[slot] := t;
      writerCur := cur + 1;
      writerAvail := writerAvail - 1;
      contents := contents + [t];
      ok := true;
    }

    /**
     * `try_pop`: when the cached count is 0 it is refreshed from the writer cursor; if still 0 the
     * queue is empty and `t` is left as it was. `t'` is the caller's variable after the call.
     */
    method TryPop(t: T) returns (ok: bool, t': T)
      requires Valid()
      modifies this
      ensures Valid()
      ensures ok <==> |old(contents)| > 0
      ensures ok ==> t' == old(contents)[0] && t' == storage[old(readerCur) % storage.Length]
      ensures !ok ==> t' == t
      ensures contents == if ok then old(contents)[1..] else old(contents)
      ensures readerCur == old(readerCur) + (if ok then 1 else 0)
      ensures readerAvail == (if old(readerAvail) > 0 then old(readerAvail)
                              else old(writerCur) - old(readerCur))
                             - (if ok then 1 else 0)
      ensures writerCur == old(writerCur) && writerAvail == old(writerAvail)
    {
      var cur := readerCur;
      if readerAvail == 0 {
        readerAvail := writerCur - cur;
        if readerAvail == 0 {
          return false, t;
        }
      }
      var slot := BitAnd(cur, mask);
      MaskIsMod(cur, storage.Length);
      Ring.MirrorsAfterRead(contents, storage[..], readerCur);
      t' := storage[slot];
      readerCur := cur + 1;
      readerAvail := readerAvail - 1;
      contents := contents[1..];
      ok := true;
    }
  }

  /**
   * Any sequence of calls on a fresh `BoundedQueue` returns what the reference FIFO returns;
   * `|ops| < I64_MAX` keeps the signed writer cursor from overflowing.
   */
  method ReplayBoundedQueue<T(0)>(capacity: I64, ops: seq<Fifo.Op<T>>) returns (outcomes: seq<Fifo.Outcome<T>>)
    requires capacity >= 2 && IsPow2(capacity) && |ops| < I64_MAX
    ensures outcomes == Fifo.Run(capacity, ops).outcomes
  {
    var q := new BoundedQueue<T>(capacity);
    outcomes := [];
    var i := 0;
    while i < |ops|
      invariant 0 <= i <= |ops|
      invariant q.Valid() && q.storage.Length == capacity && q.writerCur <= i
      invariant q.contents == Fifo.Run(capacity, ops[..i]).contents
      invariant outcomes == Fifo.Run(capacity, ops[..i]).outcomes
    {
      assert ops[..i + 1][..i] == ops[..i];
      match ops[i] {
        case Push(x) =>
          var ok := q.TryPush(x);
          outcomes := outcomes + [Fifo.Pushed(ok)];
        case Pop =>
          var t: T := *;
          var ok, t' := q.TryPop(t);
          outcomes := outcomes + [Fifo.Popped(if ok then Some(t') else None)];
      }
      i := i + 1;
    }
    assert ops[..i] == ops;
  }

  /**
   * main.cc's drain loop: pops until a pop fails, collecting every held item in order; counting
   * the failed pop, the number of attempts is one more than the number of items.
   */
  method Drain<T(0)>(queue: BoundedQueue<T>) returns (dst: seq<T>, attempts: nat)
    requires queue.Valid()
    modifies queue
    ensures queue.Valid() && queue.contents == []
    ensures dst == old(queue.contents)
    ensures attempts == |dst| + 1
  {
    dst, attempts := [], 0;
    var t: T := *;
    var ok := true;
    while ok
      invariant queue.Valid()
      invariant dst + queue.contents == old(queue.contents)
      invariant attempts == |dst| + (if ok then 0 else 1)
      invariant !ok ==> queue.contents == []
      decreases |queue.contents| + (if ok then 1 else 0)
    {
      ok, t := queue.TryPop(t);
      attempts := attempts + 1;
      if ok {
        dst := dst + [t];
      }
    }
  }

  /**
   * main.cc's single-threaded run: a queue sized to hold all of `src` accepts every push; popping
   * until a pop fails then takes `|src| + 1` attempts and yields `src` in order.
   */
  method FillThenDrain<T(0)>(src: seq<T>) returns (allPushed: bool, dst: seq<T>, attempts: nat)
    requires |src| >= 2 && IsPow2(|src|) && |src| <= I64_MAX
    ensures allPushed
    ensures dst == src
    ensures attempts - 1 == |src|
  {
    var queue := new BoundedQueue<T>(|src|);
    allPushed := true;
    var i := 0;
    while i < |src|
      invariant 0 <= i <= |src|
      invariant queue.Valid() && queue.storage.Length == |src| && queue.writerCur == i
      invariant queue.contents == src[..i]
      invariant allPushed
    {
      var ok := queue.TryPush(src[i]);
      allPushed := allPushed && ok;
      assert src[..i + 1] == src[..i] + [src[i]];
      i := i + 1;
    }
    assert src[..i] == src;
    dst, attempts := Drain(queue);
  }
}
