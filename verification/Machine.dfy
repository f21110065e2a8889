/** 32-bit unsigned arithmetic, written out over the unbounded integers. */
module Machine {
  const U32: int := 0x1_0000_0000
  const HALF: int := 0x8000_0000

  /** The value an `unsigned int` holds after a computation whose exact result is `x`. */
  function Wrap(x: int): (r: nat)
    ensures r < U32
  {
    x % U32
  }

  datatype Option<+T> = None | Some(value: T)
}
