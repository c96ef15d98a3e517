/**
 * `io.termd.core.util.ByteBufPool`: a bounded pool of fixed-capacity byte
 * buffers with a counter of buffers handed out and a closed flag.
 *
 * A buffer is a value: an identity, a capacity and its writer index (what
 * `clear` resets). Reference counting is recorded as logs of the buffers
 * retained and released.
 */
module Pool {
  import opened Types

  datatype ByteBuf = ByteBuf(id: nat, capacity: int, writerIndex: nat)

  /**
   * What `get` gives: a buffer, the `IllegalStateException` of a closed pool,
   * or the `IllegalArgumentException` of `Unpooled.buffer` for a negative capacity.
   */
  datatype GetResult = Got(buf: ByteBuf) | PoolClosed | NegativeCapacity

  const DEFAULT_POOL_SIZE: nat := 1024
  const DEFAULT_CAPACITY: int := 128

  /** `ByteBuf.clear`. */
  function Cleared(b: ByteBuf): (r: ByteBuf)
    ensures r.writerIndex == 0 && r.id == b.id && r.capacity == b.capacity
  {
    b.(writerIndex := 0)
  }

  class ByteBufPool {
    const byteBufCapacity: int
    const poolSize: nat
    /** `allocSize`: buffers allocated and not yet released. */
    var allocSize: int
    /** The `ArrayBlockingQueue`, head first. */
    var queue: seq<ByteBuf>
    var closed: bool
    /** Identity of the next buffer `Unpooled.buffer` allocates. */
    var nextId: nat
    var retained: seq<ByteBuf>
    var released: seq<ByteBuf>

    /** The queue is bounded by the pool size and holds only cleared buffers of the pool's capacity. */
    ghost predicate Valid()
      reads this
    {
      poolSize > 0 && |queue| <= poolSize &&
      forall i :: 0 <= i < |queue| ==> queue[i].capacity == byteBufCapacity && queue[i].writerIndex == 0
    }

    /** `new ByteBufPool()`: 1024 buffers of 128 bytes. */
    constructor Default()
      ensures Valid() && poolSize == DEFAULT_POOL_SIZE && byteBufCapacity == DEFAULT_CAPACITY
      ensures allocSize == 0 && queue == [] && !closed && retained == [] && released == []
    {
      poolSize := DEFAULT_POOL_SIZE;
      byteBufCapacity := DEFAULT_CAPACITY;
      allocSize := 0;
      queue := [];
      closed := false;
      nextId := 0;
      retained := [];
      released := [];
    }

    /** The pool of a size `ArrayBlockingQueue` accepts; `Create` handles any other size. */
    constructor (poolSize: nat, byteBufCapacity: int)
      requires poolSize > 0
      ensures Valid() && this.poolSize == poolSize && this.byteBufCapacity == byteBufCapacity
      ensures allocSize == 0 && queue == [] && !closed && retained == [] && released == []
    {
      this.poolSize := poolSize;
      this.byteBufCapacity := byteBufCapacity;
      allocSize := 0;
      queue := [];
      closed := false;
      nextId := 0;
      retained := [];
      released := [];
    }

    /**
     * `get`: fails once the pool is closed; otherwise the head of the queue,
     * or a newly allocated buffer counted in `allocSize`, which `Unpooled.buffer`
     * refuses for a negative capacity. The timed wait of a fully allocated
     * pool is taken to time out with nothing arriving.
     */
    method Get() returns (r: GetResult)
      requires Valid()
      modifies this`queue, this`allocSize, this`nextId, this`retained
      ensures Valid()
      ensures old(closed) <==> r.PoolClosed?
      ensures r.PoolClosed? ==> unchanged(this)
      ensures r.NegativeCapacity? <==> !old(closed) && old(queue) == [] && byteBufCapacity < 0
      ensures r.NegativeCapacity? ==> unchanged(this)
      ensures r.Got? && |old(queue)| > 0 ==>
        r.buf == old(queue)[0] && queue == old(queue)[1..] && allocSize == old(allocSize)
      ensures r.Got? && old(queue) == [] ==>
        r.buf == ByteBuf(old(nextId), byteBufCapacity, 0) && queue == [] && allocSize == old(allocSize) + 1
      ensures r.Got? ==> r.buf.capacity == byteBufCapacity && retained == old(retained) + [r.buf]
    {
      if closed {
        return PoolClosed;
      }
      var buf: ByteBuf;
      if |queue| > 0 {
        buf := queue[0];
        queue := queue[1..];
      } else if byteBufCapacity < 0 {
        return NegativeCapacity;
      } else {
        buf := ByteBuf(nextId, byteBufCapacity, 0);
        nextId := nextId + 1;
        allocSize := allocSize + 1;
      }
      retained := retained + [buf];
      r := Got(buf);
    }

    /** `put`: cleared, then queued if it has the pool's capacity and the queue has room, else released. */
    method Put(b: ByteBuf)
      requires Valid()
      modifies this`queue, this`allocSize, this`released
      ensures Valid()
      ensures b.capacity == byteBufCapacity && |old(queue)| < poolSize ==>
        queue == old(queue) + [Cleared(b)] && allocSize == old(allocSize) && released == old(released)
      ensures b.capacity != byteBufCapacity || |old(queue)| == poolSize ==>
        queue == old(queue) && allocSize == old(allocSize) - 1 && released == old(released) + [Cleared(b)]
    {
      var cleared := Cleared(b);
      var requeued := false;
      if cleared.capacity == byteBufCapacity {
        requeued := Offer(cleared);
      }
      if !requeued {
        released := released + [cleared];
        allocSize := allocSize - 1;
      }
    }

    /** `BlockingQueue.offer`: appends when there is room. */
    method Offer(b: ByteBuf) returns (accepted: bool)
      requires Valid() && b.capacity == byteBufCapacity && b.writerIndex == 0
      modifies this`queue
      ensures Valid()
      ensures accepted <==> |old(queue)| < poolSize
      ensures queue == if accepted then old(queue) + [b] else old(queue)
    {
      if |queue| < poolSize {
        queue := queue + [b];
        return true;
      }
      return false;
    }

    /** `discard`: always released and no longer counted. */
    method Discard(b: ByteBuf)
      modifies this`allocSize, this`released
      ensures allocSize == old(allocSize) - 1 && released == old(released) + [b]
    {
      released := released + [b];
      allocSize := allocSize - 1;
    }

    /** `release`: closes the pool and releases every queued buffer, head first. */
    method Release()
      requires Valid()
      modifies this`closed, this`queue, this`released
      ensures Valid() && closed && queue == []
      ensures released == old(released) + old(queue)
    {
      closed := true;
      while |queue| > 0
        invariant Valid() && closed
        invariant released + queue == old(released) + old(queue)
        decreases |queue|
      {
        var b := queue[0];
        assert queue == [b] + queue[1..];
        queue := queue[1..];
        released := released + [b];
      }
    }
  }

  /**
   * `new ByteBufPool(poolSize, byteBufCapacity)`: `ArrayBlockingQueue`
   * throws `IllegalArgumentException` for a capacity below 1, so no pool is
   * made then; otherwise an open, empty pool that has allocated nothing.
   */
  method Create(poolSize: int, byteBufCapacity: int) returns (r: Option<ByteBufPool>)
    ensures r.Some? <==> poolSize >= 1
    ensures r.Some? ==> fresh(r.value) && r.value.Valid()
    ensures r.Some? ==> r.value.poolSize == poolSize && r.value.byteBufCapacity == byteBufCapacity
    ensures r.Some? ==> r.value.allocSize == 0 && r.value.queue == [] && !r.value.closed
  {
    if poolSize < 1 {
      return None;
    }
    var pool := new ByteBufPool(poolSize, byteBufCapacity);
    r := Some(pool);
  }
}
