/**
 * `io.termd.core.tty.BufferTtyOutputMode`: the output side of "stty onlcr".
 * Code points pass to the read handler in maximal newline-free chunks, and a
 * shared CR LF buffer is passed in place of each newline.
 */
module TtyOutput {
  import opened Nio

  const CR: int := 13
  const NL: int := 10
  const CRLF: seq<int> := [CR, NL]

  /**
   * The chunks the handler receives for the window `w`, from a point where the
   * pending run is `w[prev..ptr]`: the loop of `accept`, one code point per step.
   */
  function ChunksFrom(w: seq<int>, prev: nat, ptr: nat): seq<seq<int>>
    requires prev <= ptr <= |w|
    decreases |w| - ptr
  {
    if ptr == |w| then
      (if ptr > prev then [w[prev..ptr]] else [])
    else if w[ptr] == NL then
      (if ptr > prev then [w[prev..ptr]] else []) + [CRLF] + ChunksFrom(w, ptr + 1, ptr + 1)
    else
      ChunksFrom(w, prev, ptr + 1)
  }

  /** Everything the handler receives for a window `w`. */
  function Chunks(w: seq<int>): seq<seq<int>> {
    ChunksFrom(w, 0, 0)
  }

  /** The reference translation: every newline becomes CR LF, everything else is kept. */
  function Onlcr(w: seq<int>): (r: seq<int>)
    ensures |r| >= |w|
  {
    if w == [] then []
    else (if w[0] == NL then CRLF else [w[0]]) + Onlcr(w[1..])
  }

  function Flatten(chunks: seq<seq<int>>): seq<int> {
    if chunks == [] then [] else chunks[0] + Flatten(chunks[1..])
  }

  lemma {:induction false} FlattenAppend(a: seq<seq<int>>, b: seq<seq<int>>)
    ensures Flatten(a + b) == Flatten(a) + Flatten(b)
  {
    if a == [] {
      assert a + b == b;
    } else {
      assert (a + b)[1..] == a[1..] + b;
      FlattenAppend(a[1..], b);
    }
  }

  lemma {:induction false} OnlcrAppend(a: seq<int>, b: seq<int>)
    ensures Onlcr(a + b) == Onlcr(a) + Onlcr(b)
  {
    if a == [] {
      assert a + b == b;
    } else {
      assert (a + b)[1..] == a[1..] + b;
      OnlcrAppend(a[1..], b);
    }
  }

  /** A run without newlines is left as it is. */
  lemma {:induction false} OnlcrNoNewline(a: seq<int>)
    requires NL !in a
    ensures Onlcr(a) == a
  {
    if a != [] {
      OnlcrNoNewline(a[1..]);
    }
  }

  /** The pending run, as the chunk list it is sent as. */
  lemma FlattenPending(w: seq<int>, prev: nat, ptr: nat)
    requires prev <= ptr <= |w|
    ensures Flatten(if ptr > prev then [w[prev..ptr]] else []) == w[prev..ptr]
  {
    if ptr > prev {
      assert [w[prev..ptr]][1..] == [];
    }
  }

  /** The translation of text from `prev` whose first newline is at `ptr`. */
  lemma OnlcrAtNewline(w: seq<int>, prev: nat, ptr: nat)
    requires prev <= ptr < |w| && w[ptr] == NL && NL !in w[prev..ptr]
    ensures Onlcr(w[prev..]) == w[prev..ptr] + CRLF + Onlcr(w[ptr + 1..])
  {
    assert w[prev..] == w[prev..ptr] + [NL] + w[ptr + 1..];
    OnlcrAppend(w[prev..ptr] + [NL], w[ptr + 1..]);
    OnlcrAppend(w[prev..ptr], [NL]);
    OnlcrNoNewline(w[prev..ptr]);
    assert Onlcr([NL]) == CRLF by {
      assert [NL][1..] == [];
    }
  }

  /** The newline step of `FlattenChunksFrom`. */
  lemma FlattenAtNewline(w: seq<int>, prev: nat, ptr: nat)
    requires prev <= ptr < |w| && w[ptr] == NL && NL !in w[prev..ptr]
    requires Flatten(ChunksFrom(w, ptr + 1, ptr + 1)) == Onlcr(w[ptr + 1..])
    ensures Flatten(ChunksFrom(w, prev, ptr)) == Onlcr(w[prev..])
  {
    var pending: seq<seq<int>> := if ptr > prev then [w[prev..ptr]] else [];
    var rest := ChunksFrom(w, ptr + 1, ptr + 1);
    NewlineChunks(w, prev, ptr);
    FlattenAppend(pending + [CRLF], rest);
    FlattenAppend(pending, [CRLF]);
    FlattenPending(w, prev, ptr);
    assert Flatten([CRLF]) == CRLF by {
      assert [CRLF][1..] == [];
    }
    OnlcrAtNewline(w, prev, ptr);
  }

  lemma {:induction false} FlattenChunksFrom(w: seq<int>, prev: nat, ptr: nat)
    requires prev <= ptr <= |w| && NL !in w[prev..ptr]
    ensures Flatten(ChunksFrom(w, prev, ptr)) == Onlcr(w[prev..])
    decreases |w| - ptr
  {
    if ptr == |w| {
      FlattenPending(w, prev, ptr);
      OnlcrNoNewline(w[prev..ptr]);
      assert w[prev..] == w[prev..ptr];
    } else if w[ptr] == NL {
      FlattenChunksFrom(w, ptr + 1, ptr + 1);
      FlattenAtNewline(w, prev, ptr);
    } else {
      assert w[prev..ptr + 1] == w[prev..ptr] + [w[ptr]];
      FlattenChunksFrom(w, prev, ptr + 1);
    }
  }

  /** What the handler receives, concatenated, is the window with every newline turned into CR LF. */
  lemma ChunksTranslate(w: seq<int>)
    ensures Flatten(Chunks(w)) == Onlcr(w)
  {
    assert w[0..0] == [];
    FlattenChunksFrom(w, 0, 0);
    assert w[0..] == w;
  }

  /** A data chunk: non-empty and free of newlines. */
  predicate DataChunk(c: seq<int>) {
    c != [] && NL !in c
  }

  /**
   * Every chunk is CR LF or a data chunk, and no two data chunks are
   * adjacent: the data chunks are the maximal newline-free runs.
   */
  predicate WellChunked(chunks: seq<seq<int>>) {
    (forall i :: 0 <= i < |chunks| ==> chunks[i] == CRLF || DataChunk(chunks[i])) &&
    (forall i :: 0 <= i < |chunks| - 1 ==> !(DataChunk(chunks[i]) && DataChunk(chunks[i + 1])))
  }

  /** A chunk put in front of well-formed chunks keeps them well formed unless two data chunks meet. */
  lemma WellChunkedCons(c: seq<int>, rest: seq<seq<int>>)
    requires WellChunked(rest) && (c == CRLF || DataChunk(c))
    requires DataChunk(c) && rest != [] ==> !DataChunk(rest[0])
    ensures WellChunked([c] + rest)
  {
    var r := [c] + rest;
    forall i | 0 <= i < |r|
      ensures r[i] == CRLF || DataChunk(r[i])
    {
      if i > 0 {
        assert r[i] == rest[i - 1];
      }
    }
    forall i | 0 <= i < |r| - 1
      ensures !(DataChunk(r[i]) && DataChunk(r[i + 1]))
    {
      if i > 0 {
        assert r[i] == rest[i - 1] && r[i + 1] == rest[i];
      }
    }
  }

  /** The newline step of `ChunksFromWellChunked`. */
  lemma WellChunkedAtNewline(w: seq<int>, prev: nat, ptr: nat)
    requires prev <= ptr < |w| && w[ptr] == NL && NL !in w[prev..ptr]
    requires WellChunked(ChunksFrom(w, ptr + 1, ptr + 1))
    ensures WellChunked(ChunksFrom(w, prev, ptr))
    ensures DataChunk(ChunksFrom(w, prev, ptr)[0]) ==> ptr > prev
  {
    var tail := [CRLF] + ChunksFrom(w, ptr + 1, ptr + 1);
    assert !DataChunk(CRLF) by {
      assert CRLF[1] == NL;
    }
    WellChunkedCons(CRLF, ChunksFrom(w, ptr + 1, ptr + 1));
    if ptr > prev {
      var c := w[prev..ptr];
      assert ChunksFrom(w, prev, ptr) == [c] + tail;
      assert tail[0] == CRLF;
      WellChunkedCons(c, tail);
    } else {
      assert ChunksFrom(w, prev, ptr) == tail;
    }
  }

  lemma {:induction false} ChunksFromWellChunked(w: seq<int>, prev: nat, ptr: nat)
    requires prev <= ptr <= |w| && NL !in w[prev..ptr]
    ensures WellChunked(ChunksFrom(w, prev, ptr))
    ensures ChunksFrom(w, prev, ptr) != [] && DataChunk(ChunksFrom(w, prev, ptr)[0]) ==> ptr > prev || (ptr < |w| && w[ptr] != NL)
    decreases |w| - ptr
  {
    if ptr == |w| {
    } else if w[ptr] == NL {
      ChunksFromWellChunked(w, ptr + 1, ptr + 1);
      WellChunkedAtNewline(w, prev, ptr);
    } else {
      assert w[prev..ptr + 1] == w[prev..ptr] + [w[ptr]];
      ChunksFromWellChunked(w, prev, ptr + 1);
    }
  }

  /** The chunks are well formed, and an empty window yields none. */
  lemma ChunksWellFormed(w: seq<int>)
    ensures WellChunked(Chunks(w))
    ensures w == [] <==> Chunks(w) == []
  {
    assert w[0..0] == [];
    ChunksFromWellChunked(w, 0, 0);
    ChunksTranslate(w);
  }

  /**
   * Where the loop of `accept` leaves the input buffer, as `(position, limit)`
   * relative to the start of the window, when it goes on from the pending run
   * `w[prev..ptr]` with the buffer at `(pos, lim)`: every data chunk sent
   * narrows the buffer to that chunk.
   */
  function BoundsFrom(w: seq<int>, prev: nat, ptr: nat, pos: int, lim: int): (int, int)
    requires prev <= ptr <= |w|
    decreases |w| - ptr
  {
    if ptr == |w| then
      (if ptr > prev then (prev, ptr) else (pos, lim))
    else if w[ptr] == NL then
      (if ptr > prev then BoundsFrom(w, ptr + 1, ptr + 1, prev, ptr) else BoundsFrom(w, ptr + 1, ptr + 1, pos, lim))
    else
      BoundsFrom(w, prev, ptr + 1, pos, lim)
  }

  /** Where `accept` leaves the input buffer, relative to its old position. */
  function FinalBounds(w: seq<int>): (int, int) {
    BoundsFrom(w, 0, 0, 0, |w|)
  }

  /**
   * The buffer as `accept` has left it once it has read `w[..p]`: the whole
   * window while every code point read is a newline, otherwise the last
   * newline-free run read so far.
   */
  ghost predicate LastChunk(w: seq<int>, p: int, pos: int, lim: int) {
    0 <= p <= |w| &&
    if forall k :: 0 <= k < p ==> w[k] == NL then pos == 0 && lim == |w|
    else
      0 <= pos < lim <= p && w[lim - 1] != NL && NL !in w[pos..lim] && (pos == 0 || w[pos - 1] == NL) &&
      forall k :: lim <= k < p ==> w[k] == NL
  }

  lemma LastChunkNewline(w: seq<int>, p: nat, pos: int, lim: int)
    requires LastChunk(w, p, pos, lim) && p < |w| && w[p] == NL
    ensures LastChunk(w, p + 1, pos, lim)
  {
    if !(forall k :: 0 <= k < p ==> w[k] == NL) {
      assert !(forall k :: 0 <= k < p + 1 ==> w[k] == NL);
    }
  }

  lemma LastChunkRun(w: seq<int>, prev: nat, ptr: nat)
    requires prev < ptr <= |w| && NL !in w[prev..ptr] && (prev == 0 || w[prev - 1] == NL)
    ensures LastChunk(w, ptr, prev, ptr)
  {
    assert w[ptr - 1] == w[prev..ptr][ptr - 1 - prev];
    assert !(forall k :: 0 <= k < ptr ==> w[k] == NL);
  }

  /** At a newline the buffer is narrowed to the pending run, if there is one. */
  lemma LastChunkAtNewline(w: seq<int>, prev: nat, ptr: nat, pos: int, lim: int)
    requires prev <= ptr < |w| && w[ptr] == NL && NL !in w[prev..ptr] && (prev == 0 || w[prev - 1] == NL)
    requires LastChunk(w, prev, pos, lim)
    ensures ptr > prev ==> LastChunk(w, ptr + 1, prev, ptr)
    ensures ptr == prev ==> LastChunk(w, ptr + 1, pos, lim)
  {
    if ptr > prev {
      LastChunkRun(w, prev, ptr);
      LastChunkNewline(w, ptr, prev, ptr);
    } else {
      LastChunkNewline(w, ptr, pos, lim);
    }
  }

  lemma {:induction false} BoundsFromLast(w: seq<int>, prev: nat, ptr: nat, pos: int, lim: int)
    requires prev <= ptr <= |w| && NL !in w[prev..ptr] && (prev == 0 || w[prev - 1] == NL)
    requires LastChunk(w, prev, pos, lim)
    ensures LastChunk(w, |w|, BoundsFrom(w, prev, ptr, pos, lim).0, BoundsFrom(w, prev, ptr, pos, lim).1)
    decreases |w| - ptr
  {
    if ptr == |w| {
      if ptr > prev {
        LastChunkRun(w, prev, ptr);
      }
    } else if w[ptr] == NL {
      var (pos', lim') := if ptr > prev then (prev, ptr) else (pos, lim);
      LastChunkAtNewline(w, prev, ptr, pos, lim);
      BoundsFromLast(w, ptr + 1, ptr + 1, pos', lim');
      assert BoundsFrom(w, prev, ptr, pos, lim) == BoundsFrom(w, ptr + 1, ptr + 1, pos', lim');
    } else {
      assert w[prev..ptr + 1] == w[prev..ptr] + [w[ptr]];
      BoundsFromLast(w, prev, ptr + 1, pos, lim);
    }
  }

  /**
   * `accept` leaves the input buffer on the whole window when the window is
   * only newlines, and otherwise on its last newline-free run.
   */
  lemma FinalBoundsMeaning(w: seq<int>)
    ensures (forall k :: 0 <= k < |w| ==> w[k] == NL) ==> FinalBounds(w) == (0, |w|)
    ensures !(forall k :: 0 <= k < |w| ==> w[k] == NL) ==>
      var (s, e) := FinalBounds(w);
      0 <= s < e <= |w| && w[e - 1] != NL && NL !in w[s..e] && (s == 0 || w[s - 1] == NL) &&
      forall k :: e <= k < |w| ==> w[k] == NL
  {
    assert w[0..0] == [];
    BoundsFromLast(w, 0, 0, 0, |w|);
  }

  /** At a newline, the pending run (if any) and CR LF go out and a new empty run starts. */
  lemma NewlineChunks(w: seq<int>, p: nat, q: nat)
    requires p <= q < |w| && w[q] == NL
    ensures ChunksFrom(w, p, q) == (if q > p then [w[p..q]] else []) + [CRLF] + ChunksFrom(w, q + 1, q + 1)
  {
  }

  /**
   * The loop of `accept` on the window `w`, in window coordinates: the pending
   * run `w[p..q]` is newline-free and starts after a newline, the chunks still
   * to come complete those emitted since `start`, and the buffer, now at
   * `(pos, lim)`, ends where `FinalBounds` says.
   */
  ghost predicate RunState(w: seq<int>, start: seq<seq<int>>, emitted: seq<seq<int>>, p: int, q: int, pos: int, lim: int) {
    0 <= p <= q <= |w| && NL !in w[p..q] && (p == 0 || w[p - 1] == NL) &&
    start + Chunks(w) == emitted + ChunksFrom(w, p, q) &&
    FinalBounds(w) == BoundsFrom(w, p, q, pos, lim)
  }

  /** Any other code point joins the pending run. */
  lemma StepOther(w: seq<int>, start: seq<seq<int>>, emitted: seq<seq<int>>, p: int, q: int, q': int, pos: int, lim: int)
    requires RunState(w, start, emitted, p, q, pos, lim) && q < |w| && w[q] != NL && q' == q + 1
    ensures RunState(w, start, emitted, p, q', pos, lim)
  {
    assert w[p..q + 1] == w[p..q] + [w[q]];
    assert ChunksFrom(w, p, q) == ChunksFrom(w, p, q + 1);
  }

  /** At a newline the pending run, if any, and then CR LF are emitted, and the input is narrowed to that run. */
  lemma StepNewlineState(w: seq<int>, start: seq<seq<int>>, emitted: seq<seq<int>>, p: int, q: int, pos: int, lim: int,
                         p': int, emitted': seq<seq<int>>, pos': int, lim': int)
    requires RunState(w, start, emitted, p, q, pos, lim) && q < |w| && w[q] == NL && p' == q + 1
    requires emitted' == emitted + (if q > p then [w[p..q]] else []) + [CRLF]
    requires q > p ==> pos' == p && lim' == q
    requires q == p ==> pos' == pos && lim' == lim
    ensures RunState(w, start, emitted', p', p', pos', lim')
  {
    NewlineChunks(w, p, q);
  }

  /** The end of the loop: the pending run, if any, is emitted, and with it every chunk. */
  lemma FinishState(w: seq<int>, start: seq<seq<int>>, emitted: seq<seq<int>>, p: int, pos: int, lim: int,
                    emitted': seq<seq<int>>, pos': int, lim': int)
    requires RunState(w, start, emitted, p, |w|, pos, lim)
    requires emitted' == emitted + (if |w| > p then [w[p..]] else [])
    requires |w| > p ==> pos' == p && lim' == |w|
    requires |w| == p ==> pos' == pos && lim' == lim
    ensures emitted' == start + Chunks(w)
    ensures FinalBounds(w).0 == pos' && FinalBounds(w).1 == lim'
  {
    assert w[p..] == w[p..|w|];
  }

  /** A slice of an array whose range `[lo, hi)` is `w` is the matching slice of `w`. */
  lemma ArraySlice(a: array<int>, w: seq<int>, lo: nat, hi: nat, i: nat, j: nat)
    requires lo <= i <= j <= hi <= a.Length && a[lo..hi] == w
    ensures a[i..j] == w[i - lo..j - lo]
  {
    forall k | 0 <= k < j - i
      ensures a[i..j][k] == w[i - lo..j - lo][k]
    {
      assert a[i + k] == a[lo..hi][i - lo + k];
    }
  }

  class BufferTtyOutputMode {
    const hasReadHandler: bool
    /** The shared `CRLF` buffer. */
    const crlf: IntBuffer
    /** The window of every buffer passed to the read handler, in order. */
    var emitted: seq<seq<int>>

    ghost predicate Valid()
      reads this, crlf, crlf.arr
    {
      crlf.Valid() && crlf.arr.Length == 2 && crlf.arr[0] == CR && crlf.arr[1] == NL && crlf.limit == 2
    }

    constructor (hasReadHandler: bool, crlf: IntBuffer)
      requires crlf.Valid() && crlf.arr.Length == 2 && crlf.arr[0] == CR && crlf.arr[1] == NL && crlf.limit == 2
      ensures Valid() && this.hasReadHandler == hasReadHandler && this.crlf == crlf && emitted == []
    {
      this.hasReadHandler := hasReadHandler;
      this.crlf := crlf;
      emitted := [];
    }

    /** The read handler is given `b` and reads its window. */
    method Handle(b: IntBuffer)
      requires b.Valid()
      modifies this
      ensures emitted == old(emitted) + [b.Window()]
    {
      emitted := emitted + [b.Window()];
    }

    /** `sendChunk`: narrow `data` to `[prev, ptr)` (limit first) and hand it over. */
    method SendChunk(data: IntBuffer, prev: nat, ptr: nat)
      requires data.Valid() && prev <= ptr <= data.Capacity()
      requires ptr >= data.position
      modifies this, data
      ensures data.Valid() && data.position == prev && data.limit == ptr
      ensures emitted == old(emitted) + [data.arr[prev..ptr]]
    {
      data.SetLimit(ptr);
      data.SetPosition(prev);
      Handle(data);
    }

    /**
     * The state of `accept` after the code points of `w` before `ptr` were
     * read: the chunks of `w[..prev]` are out, `w[prev..ptr]` is pending, and
     * `data` is narrowed to the last chunk sent.
     */
    ghost predicate Progress(data: IntBuffer, w: seq<int>, start: seq<seq<int>>, offset: nat, limit: nat, prev: nat, ptr: nat)
      reads this, crlf, crlf.arr, data, data.arr
    {
      offset <= prev <= ptr <= limit <= data.arr.Length &&
      data.arr[offset..limit] == w &&
      Valid() && data.Valid() && offset <= data.position <= prev &&
      RunState(w, start, emitted, prev - offset, ptr - offset, data.position - offset, data.limit - offset)
    }

    /** One iteration of the loop of `accept`. */
    method Step(data: IntBuffer, ghost w: seq<int>, ghost start: seq<seq<int>>, offset: nat, limit: nat, prev: nat, ptr: nat)
      returns (prev': nat, ptr': nat)
      requires data != crlf && ptr < limit
      requires Progress(data, w, start, offset, limit, prev, ptr)
      modifies this, data, crlf
      ensures Progress(data, w, start, offset, limit, prev', ptr') && ptr' == ptr + 1
    {
      ghost var p, q := prev - offset, ptr - offset;
      ghost var pos, lim, before := data.position - offset, data.limit - offset, emitted;
      var cp := data.arr[ptr];
      assert cp == w[q] by {
        assert w[q] == data.arr[offset..limit][q];
      }
      if cp == NL {
        ArraySlice(data.arr, w, offset, limit, prev, ptr);
        StepNewline(data, prev, ptr);
        ptr' := ptr + 1;
        prev' := ptr';
        StepNewlineState(w, start, before, p, q, pos, lim, prev' - offset, emitted, data.position - offset, data.limit - offset);
      } else {
        ptr' := ptr + 1;
        prev' := prev;
        StepOther(w, start, emitted, p, q, ptr' - offset, pos, lim);
      }
    }

    /** A newline: the pending run `[prev, ptr)`, if any, is sent, then CR LF. */
    method StepNewline(data: IntBuffer, prev: nat, ptr: nat)
      requires Valid() && data.Valid() && data != crlf
      requires data.position <= prev <= ptr <= data.arr.Length
      modifies this, data, crlf
      ensures Valid() && data.Valid()
      ensures emitted == old(emitted) + (if ptr > prev then [data.arr[prev..ptr]] else []) + [CRLF]
      ensures ptr > prev ==> data.position == prev && data.limit == ptr
      ensures ptr == prev ==> data.position == old(data.position) && data.limit == old(data.limit)
    {
      if ptr > prev {
        SendChunk(data, prev, ptr);
      }
      crlf.SetPosition(0);
      Handle(crlf);
      assert crlf.Window() == CRLF;
    }

    /** The end of `accept`: the pending run, if any, is sent. */
    method Finish(data: IntBuffer, ghost w: seq<int>, ghost start: seq<seq<int>>, offset: nat, limit: nat, prev: nat, ptr: nat)
      requires data != crlf && ptr == limit && Progress(data, w, start, offset, limit, prev, ptr)
      modifies this, data
      ensures Valid() && data.Valid() && emitted == start + Chunks(w)
      ensures data.position == offset + FinalBounds(w).0 && data.limit == offset + FinalBounds(w).1
    {
      ghost var p, pos, lim, before := prev - offset, data.position - offset, data.limit - offset, emitted;
      ghost var pending: seq<seq<int>> := if |w| > p then [w[p..]] else [];
      if ptr > prev {
        ArraySlice(data.arr, w, offset, limit, prev, ptr);
        assert data.arr[prev..ptr] == w[p..];
        SendChunk(data, prev, ptr);
      }
      assert emitted == before + pending;
      FinishState(w, start, before, p, pos, lim, emitted, data.position - offset, data.limit - offset);
    }

    /** `accept(data)`. */
    method Accept(data: IntBuffer)
      requires Valid() && data.Valid() && data != crlf
      modifies this, data, crlf
      ensures Valid() && data.Valid() && unchanged(data.arr)
      ensures !hasReadHandler || old(data.Remaining()) == 0 ==>
        emitted == old(emitted) && data.position == old(data.position) && data.limit == old(data.limit)
      ensures hasReadHandler && old(data.Remaining()) > 0 ==>
        emitted == old(emitted) + Chunks(old(data.Window())) &&
        data.position == old(data.position) + FinalBounds(old(data.Window())).0 &&
        data.limit == old(data.position) + FinalBounds(old(data.Window())).1
    {
      if hasReadHandler && data.Remaining() > 0 {
        ghost var w := data.Window();
        ghost var start := emitted;
        var offset := data.position;
        var limit := data.limit;
        var prev := offset;
        var ptr := offset;
        assert w[0..0] == [];
        while ptr < limit
          invariant Progress(data, w, start, offset, limit, prev, ptr)
        {
          prev, ptr := Step(data, w, start, offset, limit, prev, ptr);
        }
        Finish(data, w, start, offset, limit, prev, ptr);
      }
    }
  }
}
