/**
 * pipe_research/bounded_queue.h: `BoundedQueue<T>`, the cached-count ring buffer on `int64_t`
 * cursors whose constructor validates its capacity and whose operations are named
 * `write_val`/`read_val`.
 */
module PipeResearch {
  import opened Wrappers
  import opened Bits
  import opened Word
  import opened Capacity
  import Ring
  import Fifo

  class BoundedQueue<T(0)> {
    const storage: array<T>
    const mask: int
    var writerCur: int
    var writerAvail: int
    var readerCur: int
    var readerAvail: int

    /** The written and not yet read items, oldest first. */
    ghost var contents: seq<T>

    /**
     * The cursors stay at most `capacity` apart, and each cached count is a lower bound on the
     * true free (writer) or filled (reader) count.
     */
    ghost predicate Valid()
      reads this, storage
      ensures Valid() ==> |contents| <= storage.Length
    {
      var n := storage.Length;
      2 <= n <= I64_MAX && IsPow2(n) && mask == n - 1 &&
      0 <= readerCur <= writerCur <= I64_MAX &&
      |contents| == writerCur - readerCur &&
      0 <= writerAvail <= n - (writerCur - readerCur) &&
      0 <= readerAvail <= writerCur - readerCur &&
      Ring.Mirrors(contents, storage[..], readerCur)
    }

    /** The constructor once its checks have passed. */
    constructor (capacity: I64)
      requires Validate(capacity) == None
      ensures Valid() && fresh(storage) && storage.Length == capacity && mask == capacity - 1
      ensures writerCur == 0 && readerCur == 0 && writerAvail == capacity && readerAvail == 0
      ensures contents == []
    {
      mask := capacity - 1;
      storage := new T[capacity];
      writerCur, writerAvail := 0, capacity;
      readerCur, readerAvail := 0, 0;
      contents := [];
    }

    /** The constructor: throws on a capacity below 2 or not a power of two. */
    static method Create(capacity: I64) returns (r: Result<BoundedQueue<T>, CapacityError>)
      ensures r.Failure? <==> !(capacity >= 2 && IsPow2(capacity))
      ensures r.Failure? ==> Validate(capacity) == Some(r.error)
      ensures r.Success? ==> fresh(r.value) && fresh(r.value.storage) && r.value.Valid()
      ensures r.Success? ==> r.value.storage.Length == capacity && r.value.contents == []
      ensures r.Success? ==> r.value.writerCur == 0 && r.value.readerCur == 0
      ensures r.Success? ==> r.value.writerAvail == capacity && r.value.readerAvail == 0
    {
      match Validate(capacity)
      case Some(e) =>
        r := Failure(e);
      case None =>
        var q := new BoundedQueue<T>(capacity);
        r := Success(q);
    }

    /**
     * `write_val`: when the cached count is 0 it is refreshed from the reader cursor; if still 0
     * the queue is full and nothing changes.
     */
    method WriteVal(data: T) returns (ok: bool)
      requires Valid() && writerCur < I64_MAX
      modifies this, storage
      ensures Valid()
      ensures ok <==> |old(contents)| < storage.Length
      ensures contents == if ok then old(contents) + [data] else old(contents)
      ensures storage[..] == if ok then old(storage[..])[old(writerCur) % storage.Length := data]
                             else old(storage[..])
      ensures writerCur == old(writerCur) + (if ok then 1 else 0)
      ensures writerAvail == (if old(writerAvail) > 0 then old(writerAvail)
                              else storage.Length - (old(writerCur) - old(readerCur)))
                             - (if ok then 1 else 0)
      ensures readerCur == old(readerCur) && readerAvail == old(readerAvail)
    {
      var cur := writerCur;
      if writerAvail == 0 {
        writerAvail := storage.Length - (cur - readerCur);
        if writerAvail == 0 {
          return false;
        }
      }
      var slot := BitAnd(cur, mask);
      MaskIsMod(cur, storage.Length);
      Ring.MirrorsAfterWrite(contents, storage[..], readerCur, data);
      storage[slot] := data;
      writerCur := cur + 1;
      writerAvail := writerAvail - 1;
      contents := contents + [data];
      ok := true;
    }

    /**
     * `read_val`: when the cached count is 0 it is refreshed from the writer cursor; if still 0
     * the queue is empty and `data` is left as it was. `data'` is the caller's variable after the call.
     */
    method ReadVal(data: T) returns (ok: bool, data': T)
      requires Valid()
      modifies this
      ensures Valid()
      ensures ok <==> |old(contents)| > 0
      ensures ok ==> data' == old(contents)[0] && data' == storage[old(readerCur) % storage.Length]
      ensures !ok ==> data' == data
      ensures contents == if ok then old(contents)[1..] else old(contents)
      ensures readerCur == old(readerCur) + (if ok then 1 else 0)
      ensures readerAvail == (if old(readerAvail) > 0 then old(readerAvail)
                              else old(writerCur) - old(readerCur))
                             - (if ok then 1 else 0)
      ensures writerCur == old(writerCur) && writerAvail == old(writerAvail)
    {
      var cur := readerCur;
      if readerAvail == 0 {
        readerAvail := writerCur - cur;
        if readerAvail == 0 {
          return false, data;
        }
      }
      var slot := BitAnd(cur, mask);
      MaskIsMod(cur, storage.Length);
      Ring.MirrorsAfterRead(contents, storage[..], readerCur);
      data' := storage[slot];
      readerCur := cur + 1;
      readerAvail := readerAvail - 1;
      contents := contents[1..];
      ok := true;
    }
  }

  /**
   * Any sequence of calls on a freshly constructed queue returns what the reference FIFO
   * returns; `|ops| < I64_MAX` keeps the signed writer cursor from overflowing.
   */
  method ReplayBoundedQueue<T(0)>(capacity: I64, ops: seq<Fifo.Op<T>>) returns (outcomes: seq<Fifo.Outcome<T>>)
    requires capacity >= 2 && IsPow2(capacity) && |ops| < I64_MAX
    ensures outcomes == Fifo.Run(capacity, ops).outcomes
  {
    var r := BoundedQueue<T>.Create(capacity);
    var q := r.value;
    outcomes := [];
    var i := 0;
    while i < |ops|
      invariant 0 <= i <= |ops|
      invariant q.Valid() && q.storage.Length == capacity && q.writerCur <= i
      invariant q.contents == Fifo.Run(capacity, ops[..i]).contents
      invariant outcomes == Fifo.Run(capacity, ops[..i]).outcomes
    {
      assert ops[..i + 1][..i] == ops[..i];
      match ops[i] {
        case Push(x) =>
          var ok := q.WriteVal(x);
          outcomes := outcomes + [Fifo.Pushed(ok)];
        case Pop =>
          var data: T := *;
          var ok, data' := q.ReadVal(data);
          outcomes := outcomes + [Fifo.Popped(if ok then Some(data') else None)];
      }
      i := i + 1;
    }
    assert ops[..i] == ops;
  }
}
