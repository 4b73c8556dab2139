/**
 * The reference behaviour every queue variant is proved against: a bounded first-in-first-out
 * queue driven by a sequence of push and pop calls from a single caller.
 */
module Fifo {
  import opened Wrappers

  datatype Op<T> = Push(item: T) | Pop

  /** What the caller observes of one call: the boolean of a push, the value a pop delivered (if any). */
  datatype Outcome<T> = Pushed(accepted: bool) | Popped(item: Option<T>)

  /** The queue's contents after a sequence of calls, and what each call returned. */
  datatype Trace<T> = Trace(contents: seq<T>, outcomes: seq<Outcome<T>>)

  /** One call: a push is refused exactly when `capacity` items are held, a pop exactly when none is. */
  function Step<T>(capacity: nat, contents: seq<T>, op: Op<T>): (seq<T>, Outcome<T>)
  {
    match op
    case Push(x) =>
      if |contents| < capacity then (contents + [x], Pushed(true)) else (contents, Pushed(false))
    case Pop =>
      if |contents| > 0 then (contents[1..], Popped(Some(contents[0]))) else (contents, Popped(None))
  }

  /** The calls `ops`, in order, on a freshly constructed queue. */
  function Run<T>(capacity: nat, ops: seq<Op<T>>): (t: Trace<T>)
    ensures |t.outcomes| == |ops|
    decreases |ops|
  {
    if ops == [] then Trace([], [])
    else
      var t := Run(capacity, ops[..|ops| - 1]);
      var (contents, outcome) := Step(capacity, t.contents, ops[|ops| - 1]);
      Trace(contents, t.outcomes + [outcome])
  }

  /** The values of the pushes that succeeded, in push order. */
  function Accepted<T>(ops: seq<Op<T>>, outcomes: seq<Outcome<T>>): seq<T>
    requires |ops| == |outcomes|
    decreases |ops|
  {
    if ops == [] then []
    else
      var k := |ops| - 1;
      Accepted(ops[..k], outcomes[..k])
      + (if ops[k].Push? && outcomes[k] == Pushed(true) then [ops[k].item] else [])
  }

  /** The values the pops delivered, in pop order. */
  function Delivered<T>(outcomes: seq<Outcome<T>>): seq<T>
    decreases |outcomes|
  {
    if outcomes == [] then []
    else
      var k := |outcomes| - 1;
      Delivered(outcomes[..k])
      + (match outcomes[k] case Popped(Some(x)) => [x] case _ => [])
  }

  /**
   * FIFO and the capacity bound: whatever the interleaving of calls, the values popped so far,
   * followed by the values still held, are exactly the values successfully pushed, in push order;
   * so the popped values are a prefix of the pushed ones, and never more than `capacity` are held.
   */
  lemma {:induction false} FifoOrder<T>(capacity: nat, ops: seq<Op<T>>)
    ensures |Run(capacity, ops).contents| <= capacity
    ensures Accepted(ops, Run(capacity, ops).outcomes)
            == Delivered(Run(capacity, ops).outcomes) + Run(capacity, ops).contents
    ensures Delivered(Run(capacity, ops).outcomes) <= Accepted(ops, Run(capacity, ops).outcomes)
  {
    if ops != [] {
      var k := |ops| - 1;
      var init := ops[..k];
      FifoOrder(capacity, init);
      var t0, t := Run(capacity, init), Run(capacity, ops);
      assert t.outcomes[..k] == t0.outcomes;
      assert Accepted(ops, t.outcomes)
             == Accepted(init, t0.outcomes)
                + (if ops[k].Push? && t.outcomes[k] == Pushed(true) then [ops[k].item] else []);
      assert Delivered(t.outcomes)
             == Delivered(t0.outcomes)
                + (match t.outcomes[k] case Popped(Some(x)) => [x] case _ => []);
      match ops[k]
      case Push(x) => {
        if |t0.contents| < capacity {
          assert t.contents == t0.contents + [x];
        }
      }
      case Pop => {
        if |t0.contents| > 0 {
          assert t0.contents == [t0.contents[0]] + t.contents;
        }
      }
    }
  }
}
