/** The capacity validation the validating constructors perform before allocating storage. */
module Capacity {
  import opened Bits
  import opened Wrappers

  /** The two exceptions a validating constructor throws. */
  datatype CapacityError = TooSmall | NotPowerOfTwo

  /**
   * The constructors' checks, in their order: first `capacity < 2`, then `capacity & (capacity - 1)`.
   * `None` means the capacity is accepted.
   */
  function Validate(capacity: int): (r: Option<CapacityError>)
    ensures r == None <==> capacity >= 2 && IsPow2(capacity)
    ensures r == Some(TooSmall) <==> capacity < 2
    ensures r == Some(NotPowerOfTwo) <==> capacity >= 2 && !IsPow2(capacity)
  {
    if capacity < 2 then Some(TooSmall)
    else
      PowerOfTwoTest(capacity);
      if BitAnd(capacity, capacity - 1) != 0 then Some(NotPowerOfTwo)
      else None
  }
}
