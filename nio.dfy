/**
 * The part of `java.nio.IntBuffer` the terminal code relies on: a backing
 * array with a position and a limit, `0 <= position <= limit <= capacity`.
 * The mark is not used anywhere in the modelled code and is left out.
 */
module Nio {

  class IntBuffer {
    const arr: array<int>
    var position: nat
    var limit: nat

    ghost predicate Valid()
      reads this
    {
      position <= limit <= arr.Length
    }

    function Capacity(): nat {
      arr.Length
    }

    function Remaining(): (r: nat)
      reads this
      requires Valid()
      ensures r == 0 <==> position == limit
    {
      limit - position
    }

    /** The elements between position and limit. */
    function Window(): (w: seq<int>)
      reads this, arr
      requires Valid()
      ensures |w| == Remaining()
    {
      arr[position..limit]
    }

    /** `IntBuffer.allocate(n)`: a zeroed buffer of capacity `n`, position 0, limit `n`. */
    constructor Allocate(n: nat)
      ensures Valid() && fresh(arr)
      ensures arr.Length == n && position == 0 && limit == n
      ensures forall i :: 0 <= i < n ==> arr[i] == 0
    {
      arr := new int[n](_ => 0);
      position := 0;
      limit := n;
    }

    /** `IntBuffer.wrap(a)`: a buffer over `a` itself, position 0, limit `a.Length`. */
    constructor Wrap(a: array<int>)
      ensures Valid() && arr == a && position == 0 && limit == a.Length
    {
      arr := a;
      position := 0;
      limit := a.Length;
    }

    /** Relative `put(v)`; the JDK raises an overflow when `position == limit`. */
    method Put(v: int)
      requires Valid() && position < limit
      modifies this, arr
      ensures Valid() && position == old(position) + 1 && limit == old(limit)
      ensures arr[..] == old(arr[..])[old(position) := v]
    {
      arr[position] := v;
      position := position + 1;
    }

    /** `flip()`: the written part becomes the readable window. */
    method Flip()
      requires Valid()
      modifies this
      ensures Valid() && position == 0 && limit == old(position)
    {
      limit := position;
      position := 0;
    }

    /** `clear()`: position 0, limit at capacity; the contents stay. */
    method Clear()
      requires Valid()
      modifies this
      ensures Valid() && position == 0 && limit == arr.Length
    {
      position := 0;
      limit := arr.Length;
    }

    /** `position(p)`; the JDK rejects `p > limit`. */
    method SetPosition(p: nat)
      requires Valid() && p <= limit
      modifies this
      ensures Valid() && position == p && limit == old(limit)
    {
      position := p;
    }

    /** `limit(l)`; the JDK rejects `l > capacity` and pulls the position back to `l`. */
    method SetLimit(l: nat)
      requires Valid() && l <= arr.Length
      modifies this
      ensures Valid() && limit == l
      ensures position == if old(position) > l then l else old(position)
    {
      limit := l;
      if position > l {
        position := l;
      }
    }
  }
}
