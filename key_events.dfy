/** `io.termd.core.readline.KeyEventSupport`: a key event as a buffer of code points. */
module KeyEvents {
  import opened Nio

  /** A key event, seen through `length()` and `getCodePointAt(i)`. */
  datatype KeyEvent = KeyEvent(codePoints: seq<int>) {
    function Length(): nat {
      |codePoints|
    }

    function CodePointAt(i: nat): int
      requires i < Length()
    {
      codePoints[i]
    }
  }

  /**
   * `buffer()`: a fresh buffer of capacity `length()` holding the code points
   * in order, flipped so that its window is exactly those code points.
   */
  method Buffer(event: KeyEvent) returns (buf: IntBuffer)
    ensures fresh(buf) && fresh(buf.arr) && buf.Valid()
    ensures buf.Capacity() == event.Length()
    ensures buf.position == 0 && buf.limit == event.Length()
    ensures buf.Window() == event.codePoints
  {
    var length := event.Length();
    buf := new IntBuffer.Allocate(length);
    var i := 0;
    while i < length
      invariant 0 <= i <= length
      invariant buf.Valid() && buf.position == i && buf.limit == length
      invariant buf.arr[..i] == event.codePoints[..i]
      modifies buf, buf.arr
    {
      buf.Put(event.CodePointAt(i));
      i := i + 1;
    }
    buf.Flip();
    assert buf.arr[..length] == event.codePoints;
  }
}
