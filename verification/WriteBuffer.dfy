/** The write buffer of ssd.c, a count of free bytes, and the sizes that its users count in. */
module WriteBuffer {
  const SECS_PER_PG := 8
  const LBA_SIZE := 512
  const PGSZ := SECS_PER_PG * LBA_SIZE

  class Buffer {
    const size: nat
    var remaining: int

    /** buffer_init. */
    constructor (size: nat)
      ensures this.size == size && remaining == size
    {
      this.size, remaining := size, size;
    }

    /** Takes n bytes, or none when fewer are left. */
    method Allocate(n: nat) returns (got: nat)
      requires n <= size
      modifies this
      ensures got == (if old(remaining) < n then 0 else n) && remaining == old(remaining) - got
    {
      got := n;
      if remaining < n {
        got := 0;
      }
      remaining := remaining - got;
    }

    method Release(n: nat)
      modifies this
      ensures remaining == old(remaining) + n
    {
      remaining := remaining + n;
    }
  }
}
