/**
 * The readline line buffer, seen at its interface (code points and a cursor),
 * and the read-only comparisons of `io.termd.core.util.LineBufferUtils`.
 */
module LineBuffers {
  import opened Types

  /** A line being edited: its code points and a cursor `0 <= cursor <= |content|`. */
  datatype LineBuffer = LineBuffer(content: seq<int>, cursor: nat) {

    predicate Valid() {
      cursor <= |content|
    }

    function Size(): nat {
      |content|
    }

    /** `delete(delta)`: removes up to `-delta` code points before the cursor, or up to `delta` after it. */
    function Delete(delta: int): (r: LineBuffer)
      requires Valid()
      ensures r.Valid()
    {
      if delta < 0 then
        var n := if -delta < cursor then -delta else cursor;
        LineBuffer(content[..cursor - n] + content[cursor..], cursor - n)
      else
        var n := if delta < |content| - cursor then delta else |content| - cursor;
        LineBuffer(content[..cursor] + content[cursor + n..], cursor)
    }

    /** `setSize(n)`: keeps the first `n` code points; the cursor does not pass the end. */
    function SetSize(n: nat): (r: LineBuffer)
      requires n <= |content|
      ensures r.Valid()
    {
      LineBuffer(content[..n], if cursor < n then cursor else n)
    }
  }

  /** `new LineBuffer().insert(line)`: the line, with the cursor at its end. */
  function Loaded(line: seq<int>): (r: LineBuffer)
    ensures r.Valid() && r.content == line && r.cursor == |line|
  {
    LineBuffer(line, |line|)
  }

  /** Compares `a[i..n)` with `b[i..n)` position by position, as the loops of `LineBufferUtils` do. */
  function SameFrom(a: seq<int>, b: seq<int>, i: nat, n: nat): bool
    requires n <= |a| && n <= |b|
    decreases n - i
  {
    i >= n || (a[i] == b[i] && SameFrom(a, b, i + 1, n))
  }

  /** `matchBeforeCursor`: a null line never matches. */
  function MatchBeforeCursor(buf: LineBuffer, line: Option<seq<int>>): bool
    requires buf.Valid()
  {
    match line
    case None => false
    case Some(l) =>
      if |l| < buf.cursor then false
      else SameFrom(buf.content, l, 0, buf.cursor)
  }

  /** `equals`: a null line is never equal. */
  function Equals(buf: LineBuffer, line: Option<seq<int>>): bool {
    match line
    case None => false
    case Some(l) =>
      if buf.Size() != |l| then false
      else SameFrom(buf.content, l, 0, buf.Size())
  }

  lemma {:induction false} SameFromMeans(a: seq<int>, b: seq<int>, i: nat, n: nat)
    requires i <= n <= |a| && n <= |b|
    ensures SameFrom(a, b, i, n) <==> a[i..n] == b[i..n]
    decreases n - i
  {
    if i < n {
      SameFromMeans(a, b, i + 1, n);
      assert a[i..n] == [a[i]] + a[i + 1..n];
      assert b[i..n] == [b[i]] + b[i + 1..n];
    }
  }

  /**
   * `matchBeforeCursor` holds exactly when the line is non-null, at least as
   * long as the cursor, and agrees with the buffer before the cursor; so any
   * non-null line matches at cursor 0.
   */
  lemma MatchBeforeCursorMeans(buf: LineBuffer, line: Option<seq<int>>)
    requires buf.Valid()
    ensures MatchBeforeCursor(buf, line) <==>
      line.Some? && buf.cursor <= |line.value| && buf.content[..buf.cursor] == line.value[..buf.cursor]
    ensures line.Some? && buf.cursor == 0 ==> MatchBeforeCursor(buf, line)
  {
    if line.Some? && buf.cursor <= |line.value| {
      SameFromMeans(buf.content, line.value, 0, buf.cursor);
    }
  }

  /** `equals` holds exactly when the line is non-null and has the buffer's content. */
  lemma EqualsMeans(buf: LineBuffer, line: Option<seq<int>>)
    ensures Equals(buf, line) <==> line == Some(buf.content)
  {
    if line.Some? && buf.Size() == |line.value| {
      SameFromMeans(buf.content, line.value, 0, buf.Size());
      assert buf.content[0..buf.Size()] == buf.content;
      assert line.value[0..buf.Size()] == line.value;
    }
  }

  /** A line equal to the buffer also matches it before the cursor. */
  lemma EqualsImpliesMatch(buf: LineBuffer, line: Option<seq<int>>)
    requires buf.Valid() && Equals(buf, line)
    ensures MatchBeforeCursor(buf, line)
  {
    EqualsMeans(buf, line);
    MatchBeforeCursorMeans(buf, line);
  }
}
