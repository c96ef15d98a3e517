/** What the telnet receive state machine and writer guarantee. */
module TelnetProperties {
  import opened Types
  import opened TelnetProtocol

  /** The bytes handed to `onData`, in order. */
  function Payload(events: seq<Event>): seq<Byte> {
    if events == [] then []
    else (if events[0].OnData? then events[0].bytes else []) + Payload(events[1..])
  }

  /** Only `onData` calls, each with 1 to 256 bytes. */
  predicate DataChunks(events: seq<Event>) {
    forall i :: 0 <= i < |events| ==> events[i].OnData? && 1 <= |events[i].bytes| <= PENDING_SIZE
  }

  /** Only `onData` calls of a full pending buffer. */
  predicate FullChunks(events: seq<Event>) {
    forall i :: 0 <= i < |events| ==> events[i].OnData? && |events[i].bytes| == PENDING_SIZE
  }

  /** The events appended since a state with `before` events. */
  function Since(after: seq<Event>, before: seq<Event>): seq<Event>
    requires |before| <= |after|
  {
    after[|before|..]
  }

  lemma {:induction false} PayloadAppend(a: seq<Event>, b: seq<Event>)
    ensures Payload(a + b) == Payload(a) + Payload(b)
  {
    if a == [] {
      assert a + b == b;
    } else {
      assert (a + b)[1..] == a[1..] + b;
      PayloadAppend(a[1..], b);
    }
  }

  lemma PayloadOne(e: Event)
    ensures Payload([e]) == if e.OnData? then e.bytes else []
  {
    assert [e][1..] == [];
  }

  /** The pending buffer never holds more than 256 bytes, and only SB holds an option code. */
  lemma StepWellFormed(s: TState, b: Byte, opts: Options)
    requires WellFormed(s)
    ensures WellFormed(Step(s, b, opts).0)
  {
  }

  /** Every state the receive loop reaches from a well-formed one is well formed. */
  lemma {:induction false} RunWellFormed(s: TState, data: seq<Byte>, opts: Options)
    requires WellFormed(s)
    ensures WellFormed(Run(s, data, opts).0)
    decreases |data|
  {
    if data != [] {
      StepWellFormed(s, data[0], opts);
      if !Step(s, data[0], opts).1 {
        RunWellFormed(Step(s, data[0], opts).0, data[1..], opts);
      }
    }
  }

  /** Every state after a `receive` from a well-formed one is well formed. */
  lemma ReceiveWellFormed(s: TState, data: seq<Byte>, opts: Options)
    requires WellFormed(s)
    ensures WellFormed(Receive(s, data, opts).0)
  {
    RunWellFormed(s, data, opts);
  }

  /** `appendData` as seen through the payload: the byte joins what is pending, a full buffer having gone out first. */
  lemma AppendDataPayload(s: TState, b: Byte)
    requires PendingBounded(s)
    ensures var t := AppendData(s, b);
      PendingBounded(t) && |t.pending| >= 1 && t == s.(pending := t.pending, events := t.events) &&
      |s.events| <= |t.events| && t.events[..|s.events|] == s.events &&
      FullChunks(Since(t.events, s.events)) &&
      Payload(Since(t.events, s.events)) + t.pending == s.pending + [b]
  {
    var t := AppendData(s, b);
    if |s.pending| >= PENDING_SIZE {
      assert Since(t.events, s.events) == [OnData(s.pending)];
      PayloadOne(OnData(s.pending));
    } else {
      assert Since(t.events, s.events) == [];
    }
  }

  /** Three event logs, each extending the one before. */
  lemma SliceChain(e0: seq<Event>, e1: seq<Event>, e2: seq<Event>)
    requires |e0| <= |e1| <= |e2| && e1[..|e0|] == e0 && e2[..|e1|] == e1
    ensures e2[..|e0|] == e0 && e2[|e0|..] == e1[|e0|..] + e2[|e1|..]
  {
    assert e2[..|e0|] == e2[..|e1|][..|e0|];
  }

  lemma FullChunksAppend(a: seq<Event>, b: seq<Event>)
    requires FullChunks(a) && FullChunks(b)
    ensures FullChunks(a + b)
  {
    forall i | 0 <= i < |a + b|
      ensures (a + b)[i].OnData? && |(a + b)[i].bytes| == PENDING_SIZE
    {
      if i < |a| {
        assert (a + b)[i] == a[i];
      } else {
        assert (a + b)[i] == b[i - |a|];
      }
    }
  }

  /** Two stretches of events and pending data, one after the other. */
  lemma ChainPayload(e0: seq<Event>, e1: seq<Event>, e2: seq<Event>, p0: seq<Byte>, p1: seq<Byte>, p2: seq<Byte>, x: seq<Byte>, y: seq<Byte>)
    requires |e0| <= |e1| <= |e2| && e1[..|e0|] == e0 && e2[..|e1|] == e1
    requires FullChunks(e1[|e0|..]) && FullChunks(e2[|e1|..])
    requires Payload(e1[|e0|..]) + p1 == p0 + x && Payload(e2[|e1|..]) + p2 == p1 + y
    ensures e2[..|e0|] == e0 && FullChunks(e2[|e0|..])
    ensures Payload(e2[|e0|..]) + p2 == p0 + (x + y)
  {
    var d1, d2 := e1[|e0|..], e2[|e1|..];
    SliceChain(e0, e1, e2);
    FullChunksAppend(d1, d2);
    PayloadAppend(d1, d2);
    ConcatChain(Payload(d1), Payload(d2), p0, p1, p2, x, y);
  }

  /** Associativity, for the chain above. */
  lemma ConcatChain(a: seq<Byte>, b: seq<Byte>, p0: seq<Byte>, p1: seq<Byte>, p2: seq<Byte>, x: seq<Byte>, y: seq<Byte>)
    requires a + p1 == p0 + x && b + p2 == p1 + y
    ensures (a + b) + p2 == p0 + (x + y)
  {
    calc {
      (a + b) + p2;
      a + (b + p2);
      a + (p1 + y);
      (a + p1) + y;
      p0 + (x + y);
    }
  }

  /**
   * Plain data (no 0xFF) from the DATA state: the status stays DATA, full
   * buffers go to `onData`, and those plus what is pending afterwards are
   * what was pending before plus the data.
   */
  lemma {:induction false} RunPlainData(s: TState, data: seq<Byte>, opts: Options)
    requires s.status == Data && PendingBounded(s) && IAC !in data
    ensures var (t, raised) := Run(s, data, opts);
      !raised && PendingBounded(t) && t == s.(pending := t.pending, events := t.events) &&
      |s.events| <= |t.events| && t.events[..|s.events|] == s.events &&
      FullChunks(Since(t.events, s.events)) &&
      Payload(Since(t.events, s.events)) + t.pending == s.pending + data &&
      (data != [] ==> |t.pending| >= 1)
    decreases |data|
  {
    if data != [] {
      var b := data[0];
      var s1 := AppendData(s, b);
      AppendDataPayload(s, b);
      assert Step(s, b, opts) == (s1, false);
      assert IAC !in data[1..];
      RunPlainData(s1, data[1..], opts);
      var t := Run(s1, data[1..], opts).0;
      assert Run(s, data, opts) == Run(s1, data[1..], opts);
      ChainPayload(s.events, s1.events, t.events, s.pending, s1.pending, t.pending, [b], data[1..]);
      assert [b] + data[1..] == data;
    }
  }

  /**
   * `receive` of plain data (no 0xFF) from the DATA state with nothing pending:
   * the data reaches `onData` unchanged, in chunks of 1 to 256 bytes, nothing
   * stays pending, nothing is sent and no other handler is called.
   */
  lemma ReceivePlainData(s: TState, data: seq<Byte>, opts: Options)
    requires s.status == Data && s.pending == [] && IAC !in data
    ensures var (t, raised) := Receive(s, data, opts);
      !raised && t.pending == [] && t.status == Data && t.sent == s.sent &&
      |s.events| <= |t.events| && t.events[..|s.events|] == s.events &&
      DataChunks(Since(t.events, s.events)) && Payload(Since(t.events, s.events)) == data
  {
    RunPlainData(s, data, opts);
    var u := Run(s, data, opts).0;
    assert s.pending + data == data;
    var mid := Since(u.events, s.events);
    assert u.events == s.events + mid;
    FlushPlainData(s.events, mid, u, data);
  }

  /** The final flush of `receive`, after a run that left `mid` full chunks and `u.pending`. */
  lemma FlushPlainData(e0: seq<Event>, mid: seq<Event>, u: TState, data: seq<Byte>)
    requires PendingBounded(u) && u.events == e0 + mid && FullChunks(mid) && Payload(mid) + u.pending == data
    ensures var t := FlushIfNecessary(u);
      t.pending == [] && t.status == u.status && t.sent == u.sent &&
      |e0| <= |t.events| && t.events[..|e0|] == e0 &&
      DataChunks(Since(t.events, e0)) && Payload(Since(t.events, e0)) == data
  {
    var t := FlushIfNecessary(u);
    var last := if |u.pending| > 0 then [OnData(u.pending)] else [];
    assert t.events == e0 + (mid + last);
    assert Since(t.events, e0) == mid + last;
    PayloadAppend(mid, last);
    if |u.pending| > 0 {
      PayloadOne(OnData(u.pending));
    } else {
      assert Payload(last) == [];
    }
    forall i | 0 <= i < |mid + last|
      ensures (mid + last)[i].OnData? && 1 <= |(mid + last)[i].bytes| <= PENDING_SIZE
    {
      if i < |mid| {
        assert (mid + last)[i] == mid[i];
      }
    }
  }


  /**
   * Outside binary mode, IAC flushes pending data and moves to the IAC state;
   * there a byte that is no verb and not SB is a command, and the state is DATA again.
   */
  lemma IacTransitions(s: TState, b: Byte, opts: Options)
    ensures s.status == Data && !s.receiveBinary ==>
      Step(s, IAC, opts) == (FlushIfNecessary(s).(status := Iac), false)
    ensures s.status == Iac && b !in {DO, DONT, WILL, WONT, SB} ==>
      Step(s, b, opts) == (s.(events := s.events + [OnCommand(b)], status := Data), false)
    ensures s.status == Iac && b == SB ==>
      Step(s, b, opts) == (s.(params := [], status := Sb), false)
  {
  }

  /**
   * In receive-binary mode IAC moves DATA to ESC; in ESC a second IAC appends
   * one 0xFF and the status stays ESC; any other byte flushes and is read as
   * the byte after IAC.
   */
  lemma BinaryTransitions(s: TState, b: Byte, opts: Options)
    ensures s.status == Data && s.receiveBinary ==> Step(s, IAC, opts) == (s.(status := Esc), false)
    ensures s.status == Esc ==> Step(s, IAC, opts) == (AppendData(s, IAC), false) && AppendData(s, IAC).status == Esc
    ensures s.status == Esc && b != IAC ==> Step(s, b, opts) == Step(FlushIfNecessary(s).(status := Iac), b, opts)
  {
  }

  /**
   * Because the status stays ESC after `IAC IAC`, a data byte that follows is
   * taken as a command: in binary mode `IAC IAC 'A'` gives `onData([0xFF])`
   * and then `onCommand('A')`.
   */
  lemma BinaryDoubledIacThenByte(opts: Options)
    ensures Receive(Initial(true), [IAC, IAC, 0x41], opts).0.events == [OnData([IAC]), OnCommand(0x41)]
  {
    var s0 := Initial(true);
    var s1 := s0.(status := Esc);
    var s2 := s1.(pending := [IAC]);
    var s3 := s2.(pending := [], events := [OnData([IAC]), OnCommand(0x41)], status := Data);
    assert Run(s2, [0x41], opts) == (s3, false) by {
      var f := s2.(pending := [], events := [OnData([IAC])]);
      assert FlushIfNecessary(s2) == f;
      assert f.events + [OnCommand(0x41)] == [OnData([IAC]), OnCommand(0x41)];
      assert IacStep(f, 0x41) == s3;
      assert Step(s2, 0x41, opts) == (s3, false);
      RunCons(s2, 0x41, [], opts);
      assert [0x41 as Byte] + [] == [0x41];
    }
    assert Run(s1, [IAC, 0x41], opts) == (s3, false) by {
      assert AppendData(s1, IAC) == s2;
      assert Step(s1, IAC, opts) == (s2, false);
      RunCons(s1, IAC, [0x41], opts);
      assert [IAC] + [0x41 as Byte] == [IAC, 0x41];
    }
    assert Run(s0, [IAC, IAC, 0x41], opts) == (s3, false) by {
      assert Step(s0, IAC, opts) == (s1, false);
      RunCons(s0, IAC, [IAC, 0x41], opts);
      assert [IAC] + [IAC, 0x41] == [IAC, IAC, 0x41];
    }
  }


  /**
   * After `IAC DO|DONT|WILL|WONT c` the status is DATA, whether or not the
   * handler raised. A known option's handler runs once; an unknown DO gets
   * exactly `IAC WONT c`, an unknown WILL exactly `IAC DONT c`, and an unknown
   * DONT or WONT gets nothing.
   */
  lemma Negotiation(s: TState, c: Byte, opts: Options)
    requires s.status in {Do, Dont, Will, Wont}
    ensures var (t, raised) := Step(s, c, opts);
      t.status == Data && t.pending == s.pending && t.params == s.params &&
      (raised <==> c in opts.codes && c in opts.raising) &&
      (c in opts.codes ==> t.events == s.events + [OnOption(VerbOf(s.status), c)] && t.sent == s.sent) &&
      (c !in opts.codes ==> t.events == s.events) &&
      (c !in opts.codes && s.status == Do ==> t.sent == s.sent + [[IAC, WONT, c]]) &&
      (c !in opts.codes && s.status == Will ==> t.sent == s.sent + [[IAC, DONT, c]]) &&
      (c !in opts.codes && s.status in {Dont, Wont} ==> t.sent == s.sent)
  {
  }

  lemma RunCons(s: TState, b: Byte, rest: seq<Byte>, opts: Options)
    requires !Step(s, b, opts).1
    ensures Run(s, [b] + rest, opts) == Run(Step(s, b, opts).0, rest, opts)
  {
    assert ([b] + rest)[1..] == rest;
  }

  /** Inside SB, the escaped parameter bytes are collected as they were before escaping. */
  lemma {:induction false} SbCollects(s: TState, p: seq<Byte>, rest: seq<Byte>, opts: Options)
    requires s.status == Sb && s.optionCode.Some? && !s.paramsIac
    ensures Run(s, EscapeIac(p) + rest, opts) == Run(s.(params := s.params + p), rest, opts)
    decreases |p|
  {
    if p == [] {
      assert EscapeIac(p) + rest == rest;
      assert s.params + p == s.params;
    } else {
      var s1 := s.(params := s.params + [p[0]]);
      var tail := EscapeIac(p[1..]) + rest;
      calc {
        Run(s, EscapeIac(p) + rest, opts);
        { EscapeIacHead(p); assert EscapeIac(p) + rest == Doubled(p[0]) + tail; }
        Run(s, Doubled(p[0]) + tail, opts);
        { SbCollectsHead(s, p[0], tail, opts); }
        Run(s1, tail, opts);
        { SbCollects(s1, p[1..], rest, opts); }
        Run(s1.(params := s1.params + p[1..]), rest, opts);
        { assert s1.params + p[1..] == s.params + p; }
        Run(s.(params := s.params + p), rest, opts);
      }
    }
  }

  /** One parameter byte inside SB, doubled when it is 0xFF, joins the parameters. */
  lemma SbCollectsHead(s: TState, b: Byte, rest: seq<Byte>, opts: Options)
    requires s.status == Sb && s.optionCode.Some? && !s.paramsIac
    ensures Run(s, Doubled(b) + rest, opts) == Run(s.(params := s.params + [b]), rest, opts)
  {
    if b == IAC {
      assert [IAC, IAC] + rest == [IAC] + ([IAC] + rest);
      RunCons(s, IAC, [IAC] + rest, opts);
      RunCons(s.(paramsIac := true), IAC, rest, opts);
    } else {
      RunCons(s, b, rest, opts);
    }
  }


  /** `IAC SB c` from the DATA state flushes and enters SB with option code `c` and no parameters. */
  lemma SbOpens(s: TState, c: Byte, rest: seq<Byte>, opts: Options)
    requires s.status == Data && !s.receiveBinary && WellFormed(s)
    ensures Run(s, [IAC, SB, c] + rest, opts) ==
      Run(FlushIfNecessary(s).(params := [], status := Sb, optionCode := Some(c)), rest, opts)
  {
    var s1 := FlushIfNecessary(s).(status := Iac);
    var s2 := s1.(params := [], status := Sb);
    var s3 := FlushIfNecessary(s).(params := [], status := Sb, optionCode := Some(c));
    assert Step(s, IAC, opts) == (s1, false);
    assert Step(s1, SB, opts) == (s2, false);
    assert Step(s2, c, opts) == (s3, false) by {
      assert s2.optionCode.None?;
    }
    calc {
      Run(s, [IAC, SB, c] + rest, opts);
      { assert [IAC, SB, c] + rest == [IAC] + ([SB] + ([c] + rest)); }
      Run(s, [IAC] + ([SB] + ([c] + rest)), opts);
      { RunCons(s, IAC, [SB] + ([c] + rest), opts); }
      Run(s1, [SB] + ([c] + rest), opts);
      { RunCons(s1, SB, [c] + rest, opts); }
      Run(s2, [c] + rest, opts);
      { RunCons(s2, c, rest, opts); }
      Run(s3, rest, opts);
    }
  }

  /** `IAC SE` ends SB: the parameter handler of a known option gets the parameters, and everything is reset. */
  lemma SbCloses(s: TState, opts: Options)
    requires s.status == Sb && s.optionCode.Some? && !s.paramsIac
    ensures var c := s.optionCode.value;
      Run(s, [IAC, SE], opts) ==
        (s.(optionCode := None, params := [], status := Data,
            events := s.events + (if c in opts.codes then [OnParameters(c, s.params)] else [])),
         c in opts.codes && c in opts.raising)
  {
    var s1 := s.(paramsIac := true);
    assert [IAC] + [SE] == [IAC, SE];
    RunCons(s, IAC, [SE], opts);
    var c := s.optionCode.value;
    var r := Step(s1, SE, opts);
    assert r.0 == s.(optionCode := None, params := [], status := Data,
      events := s.events + (if c in opts.codes then [OnParameters(c, s.params)] else []));
    assert r.1 == (c in opts.codes && c in opts.raising);
    assert Run(s1, [SE], opts) == r by {
      assert [SE][1..] == [];
    }
  }

  /**
   * `IAC SB c <parameters, 0xFF doubled> IAC SE` from the DATA state calls the
   * option's parameter handler with exactly the parameters, and leaves the
   * status DATA with no option code and no parameters (even if the handler raised).
   */
  lemma SubNegotiation(s: TState, c: Byte, p: seq<Byte>, opts: Options)
    requires s.status == Data && !s.receiveBinary && WellFormed(s)
    ensures var (t, raised) := Run(s, [IAC, SB, c] + EscapeIac(p) + [IAC, SE], opts);
      var f := FlushIfNecessary(s);
      t.status == Data && t.optionCode.None? && t.params == [] && !t.paramsIac &&
      t.pending == [] && t.sent == s.sent &&
      t.events == f.events + (if c in opts.codes then [OnParameters(c, p)] else []) &&
      (raised <==> c in opts.codes && c in opts.raising)
  {
    var s3 := FlushIfNecessary(s).(params := [], status := Sb, optionCode := Some(c));
    assert [IAC, SB, c] + EscapeIac(p) + [IAC, SE] == [IAC, SB, c] + (EscapeIac(p) + [IAC, SE]);
    SbOpens(s, c, EscapeIac(p) + [IAC, SE], opts);
    SbCollects(s3, p, [IAC, SE], opts);
    SbCloses(s3.(params := s3.params + p), opts);
    assert s3.params + p == p;
  }

  /** Inside SB, `IAC x` with x neither SE nor IAC is dropped without trace. */
  lemma SbDropsOtherAfterIac(s: TState, x: Byte, opts: Options)
    requires s.status == Sb && s.optionCode.Some? && !s.paramsIac && x != SE && x != IAC
    ensures Run(s, [IAC, x], opts) == (s, false)
  {
    RunCons(s, IAC, [x], opts);
    RunCons(s.(paramsIac := true), x, [], opts);
    assert [x] + [] == [x];
    assert [IAC] + [x] == [IAC, x];
  }

  lemma {:induction false} EscapeIacAppend(a: seq<Byte>, b: seq<Byte>)
    ensures EscapeIac(a + b) == EscapeIac(a) + EscapeIac(b)
  {
    if a == [] {
      assert a + b == b;
    } else {
      assert (a + b)[1..] == a[1..] + b;
      EscapeIacAppend(a[1..], b);
    }
  }

  lemma {:induction false} EscapeIacPlain(a: seq<Byte>)
    requires IAC !in a
    ensures EscapeIac(a) == a
  {
    if a != [] {
      EscapeIacPlain(a[1..]);
    }
  }

  lemma {:induction false} UnescapeEscape(a: seq<Byte>)
    ensures UnescapeIac(EscapeIac(a)) == Some(a)
  {
    if a != [] {
      UnescapeEscape(a[1..]);
      var e := EscapeIac(a);
      assert a == [a[0]] + a[1..];
      if a[0] == IAC {
        assert e == [IAC, IAC] + EscapeIac(a[1..]);
        assert e[0] == IAC && e[1] == IAC && e[2..] == EscapeIac(a[1..]);
      } else {
        assert e == [a[0]] + EscapeIac(a[1..]);
        assert e[0] == a[0] && e[1..] == EscapeIac(a[1..]);
      }
    }
  }

  /** A receiver that undoubles 0xFF reads back exactly the window the corrected binary `write` sent. */
  lemma BinaryWriteRoundTrip(data: seq<Byte>, offset: nat, len: nat)
    requires offset + len <= |data|
    ensures UnescapeIac(Concat(BinaryWrite(data, offset, len))) == Some(data[offset..offset + len])
  {
    UnescapeEscape(data[offset..offset + len]);
  }

  /**
   * As written, `write(data, offset, len)` in binary mode sends bytes outside
   * the window: for `[1, 2, 3]` with offset 1 and length 1 it sends `[1, 2, 3]` instead of `[2]`.
   */
  lemma BinaryWriteLeaks()
    ensures Concat(BinaryWriteAsWritten([1, 2, 3], 1, 1)) == [1, 2, 3]
    ensures Concat(BinaryWrite([1, 2, 3], 1, 1)) == [2]
  {
    var data: seq<Byte> := [1, 2, 3];
    assert BinaryWriteAsWritten(data, 1, 1) == [data[0..3]];
    assert BinaryWrite(data, 1, 1) == [data[1..2]];
    assert [data[0..3]][1..] == [];
    assert [data[1..2]][1..] == [];
  }

  /** On a whole array (`write(byte[])`) the code as written and the intended one agree. */
  lemma BinaryWriteWholeArray(data: seq<Byte>)
    ensures BinaryWriteAsWritten(data, 0, |data|) == BinaryWrite(data, 0, |data|)
  {
  }
}
