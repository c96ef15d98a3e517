/**
 * The receive state machine of `io.termd.core.telnet.TelnetConnection` as a
 * function of an abstract state, one byte at a time, following the command
 * structure of RFC 854 and the option negotiation of RFC 855.
 *
 * The `Option` enumeration is taken as a table: the option codes it knows
 * (`Option.values()`, in order) and the codes whose handler raises an
 * exception. Handler calls are recorded as events, bytes sent as chunks.
 */
module TelnetProtocol {
  import opened Types

  const IAC: Byte := 0xFF
  const DONT: Byte := 0xFE
  const DO: Byte := 0xFD
  const WONT: Byte := 0xFC
  const WILL: Byte := 0xFB
  const SB: Byte := 0xFA
  const SE: Byte := 0xF0

  /** Size of the pending data buffer. */
  const PENDING_SIZE: nat := 256
  /** Initial size of, and growth step for, the sub-negotiation parameter buffer. */
  const PARAMS_STEP: nat := 100

  datatype Status = Data | Esc | Iac | Sb | Do | Dont | Will | Wont

  datatype Verb = DoVerb | DontVerb | WillVerb | WontVerb

  /** A call into the connection's handler or into an option's handler. */
  datatype Event =
    | OnData(bytes: seq<Byte>)
    | OnCommand(command: Byte)
    | OnOption(verb: Verb, code: Byte)
    | OnParameters(code: Byte, parameters: seq<Byte>)

  /** `Option.values()` as codes, and the codes whose handlers raise. */
  datatype Options = Options(codes: seq<Byte>, raising: set<Byte>)

  /** The receive side of a connection, plus the logs of events and of bytes sent. */
  datatype TState = TState(
    status: Status,
    pending: seq<Byte>,
    optionCode: Option<Byte>,
    params: seq<Byte>,
    paramsIac: bool,
    receiveBinary: bool,
    events: seq<Event>,
    sent: seq<seq<Byte>>)

  /** The pending buffer holds at most 256 bytes. */
  predicate PendingBounded(s: TState) {
    |s.pending| <= PENDING_SIZE
  }

  /**
   * What every reachable state keeps: the pending buffer holds at most 256
   * bytes, and an option code and a pending IAC exist only inside SB.
   */
  predicate WellFormed(s: TState) {
    PendingBounded(s) &&
    (s.status != Sb ==> s.optionCode.None? && !s.paramsIac)
  }

  /** A fresh connection: well formed, in status DATA, with nothing pending, handled or sent. */
  function Initial(receiveBinary: bool): (r: TState)
    ensures WellFormed(r) && r.status == Data && r.pending == [] && r.params == []
    ensures r.receiveBinary == receiveBinary && r.events == [] && r.sent == []
  {
    TState(Data, [], None, [], false, receiveBinary, [], [])
  }

  /** `flushData`: the pending bytes go to `onData`. */
  function Flush(s: TState): TState {
    s.(pending := [], events := s.events + [OnData(s.pending)])
  }

  /** `flushDataIfNecessary`. */
  function FlushIfNecessary(s: TState): TState {
    if |s.pending| > 0 then Flush(s) else s
  }

  /** `appendData`: a full pending buffer is flushed first. */
  function AppendData(s: TState, b: Byte): TState {
    var t := if |s.pending| >= PENDING_SIZE then Flush(s) else s;
    t.(pending := t.pending + [b])
  }

  /** The status of the IAC state after a byte: a verb, SB, or back to DATA after a command. */
  function IacStep(s: TState, b: Byte): (r: TState)
    ensures r.pending == s.pending && r.sent == s.sent && r.receiveBinary == s.receiveBinary
    ensures r.status == Data <==> b !in {DO, DONT, WILL, WONT, SB}
    ensures r.status == Data ==> r.events == s.events + [OnCommand(b)]
    ensures r.status != Data ==> r.events == s.events
    ensures r.status == Sb ==> r.params == []
    ensures WellFormed(s) && s.status != Sb ==> WellFormed(r)
  {
    if b == DO then s.(status := Do)
    else if b == DONT then s.(status := Dont)
    else if b == WILL then s.(status := Will)
    else if b == WONT then s.(status := Wont)
    else if b == SB then s.(params := [], status := Sb)
    else s.(events := s.events + [OnCommand(b)], status := Data)
  }

  function VerbOf(status: Status): Verb
    requires status in {Do, Dont, Will, Wont}
  {
    match status
    case Do => DoVerb
    case Dont => DontVerb
    case Will => WillVerb
    case Wont => WontVerb
  }

  /**
   * `onOptionDo` and its siblings: a known option's handler runs (and may
   * raise); an unknown DO is refused with WONT, an unknown WILL with DONT,
   * and an unknown DONT or WONT is ignored. The status is DATA afterwards.
   */
  function Negotiate(s: TState, verb: Verb, c: Byte, opts: Options): (r: (TState, bool))
    ensures r.0.status == Data && r.0.pending == s.pending && r.0.receiveBinary == s.receiveBinary
    ensures r.0.optionCode == s.optionCode && r.0.paramsIac == s.paramsIac
    ensures r.1 <==> c in opts.codes && c in opts.raising
    ensures c in opts.codes ==> r.0.events == s.events + [OnOption(verb, c)] && r.0.sent == s.sent
    ensures c !in opts.codes ==> r.0.events == s.events && |r.0.sent| <= |s.sent| + 1
    ensures verb == DontVerb || verb == WontVerb ==> r.0.sent == s.sent
    ensures WellFormed(s) && s.status != Sb ==> WellFormed(r.0)
  {
    var t := s.(status := Data);
    if c in opts.codes then
      (t.(events := t.events + [OnOption(verb, c)]), c in opts.raising)
    else if verb == DoVerb then
      (t.(sent := t.sent + [[IAC, WONT, c]]), false)
    else if verb == WillVerb then
      (t.(sent := t.sent + [[IAC, DONT, c]]), false)
    else
      (t, false)
  }

  /** The SB state: the option code, then the parameters up to `IAC SE`. */
  function SbStep(s: TState, b: Byte, opts: Options): (r: (TState, bool))
    ensures r.0.pending == s.pending && r.0.sent == s.sent && r.0.receiveBinary == s.receiveBinary
    ensures r.0.status == s.status || r.0.status == Data
    ensures r.0.status != s.status ==> r.0.optionCode.None? && r.0.params == [] && !r.0.paramsIac
    ensures r.1 ==> r.0.status == Data
    ensures s.events <= r.0.events && |r.0.events| <= |s.events| + 1
    ensures WellFormed(s) && s.status == Sb ==> WellFormed(r.0)
  {
    if s.optionCode.None? then
      (s.(optionCode := Some(b)), false)
    else if s.paramsIac then
      var t := s.(paramsIac := false);
      if b == SE then
        var c := s.optionCode.value;
        var done := t.(optionCode := None, params := [], status := Data);
        if c in opts.codes then
          (done.(events := done.events + [OnParameters(c, s.params)]), c in opts.raising)
        else
          (done, false)
      else if b == IAC then
        (t.(params := t.params + [IAC]), false)
      else
        (t, false)
    else if b == IAC then
      (s.(paramsIac := true), false)
    else
      (s.(params := s.params + [b]), false)
  }

  /** `Status.handle` for one byte; the flag says whether an option handler raised. */
  function Step(s: TState, b: Byte, opts: Options): (r: (TState, bool))
    ensures s.events <= r.0.events && s.sent <= r.0.sent && r.0.receiveBinary == s.receiveBinary
    ensures r.1 ==> r.0.status == Data
  {
    match s.status
    case Data =>
      if b == IAC then
        if s.receiveBinary then (s.(status := Esc), false)
        else (FlushIfNecessary(s).(status := Iac), false)
      else (AppendData(s, b), false)
    case Esc =>
      if b == IAC then (AppendData(s, IAC), false)
      else (IacStep(FlushIfNecessary(s), b), false)
    case Iac => (IacStep(s, b), false)
    case Sb => SbStep(s, b, opts)
    case _ => Negotiate(s, VerbOf(s.status), b, opts)
  }

  /** The loop of `receive`: bytes in order, stopping at the first exception. */
  function Run(s: TState, data: seq<Byte>, opts: Options): (r: (TState, bool))
    ensures s.events <= r.0.events && s.sent <= r.0.sent && r.0.receiveBinary == s.receiveBinary
    ensures r.1 ==> r.0.status == Data
    decreases |data|
  {
    if data == [] then (s, false)
    else
      var (t, raised) := Step(s, data[0], opts);
      if raised then (t, true) else Run(t, data[1..], opts)
  }

  /** `receive`: the loop, then a final flush unless an exception escaped. */
  function Receive(s: TState, data: seq<Byte>, opts: Options): (r: (TState, bool))
    ensures !r.1 ==> r.0.pending == []
    ensures r.1 ==> r.0.status == Data
    ensures s.events <= r.0.events && s.sent <= r.0.sent && r.0.receiveBinary == s.receiveBinary
  {
    var (t, raised) := Run(s, data, opts);
    if raised then (t, true) else (FlushIfNecessary(t), false)
  }

  /** One byte as it travels on a binary stream: 0xFF doubled, any other byte alone (RFC 854, RFC 856). */
  function Doubled(b: Byte): seq<Byte> {
    if b == IAC then [IAC, IAC] else [b]
  }

  /** Every 0xFF doubled. */
  function EscapeIac(data: seq<Byte>): seq<Byte> {
    if data == [] then [] else Doubled(data[0]) + EscapeIac(data[1..])
  }

  /** The receiver's reading of a doubled stream; a lone trailing or unpaired 0xFF is malformed. */
  function UnescapeIac(data: seq<Byte>): Option<seq<Byte>> {
    if data == [] then Some([])
    else if data[0] != IAC then
      match UnescapeIac(data[1..])
      case Some(rest) => Some([data[0]] + rest)
      case None => None
    else if |data| >= 2 && data[1] == IAC then
      match UnescapeIac(data[2..])
      case Some(rest) => Some([IAC] + rest)
      case None => None
    else None
  }

  function Concat(chunks: seq<seq<Byte>>): seq<Byte> {
    if chunks == [] then [] else chunks[0] + Concat(chunks[1..])
  }

  /**
   * The sends of `write` in binary mode: the run before each 0xFF, then
   * `IAC IAC`, and finally the bytes from the last run up to `tailEnd`.
   * The code as written starts with `prev = 0` and ends the tail at the end
   * of the array; the intended version starts at `offset` and ends at `end`.
   */
  function BinarySends(data: seq<Byte>, prev: nat, i: nat, end: nat, tailEnd: nat): seq<seq<Byte>>
    requires prev <= i <= end <= tailEnd <= |data|
    decreases end - i
  {
    if i == end then [data[prev..tailEnd]]
    else if data[i] == IAC then [data[prev..i], [IAC, IAC]] + BinarySends(data, i + 1, i + 1, end, tailEnd)
    else BinarySends(data, prev, i + 1, end, tailEnd)
  }

  lemma {:induction false} ConcatAppend(a: seq<seq<Byte>>, b: seq<seq<Byte>>)
    ensures Concat(a + b) == Concat(a) + Concat(b)
  {
    if a == [] {
      assert a + b == b;
    } else {
      assert (a + b)[1..] == a[1..] + b;
      ConcatAppend(a[1..], b);
    }
  }

  /** One unfolding of `EscapeIac` at the head of a non-empty run. */
  lemma EscapeIacHead(a: seq<Byte>)
    requires a != []
    ensures EscapeIac(a) == Doubled(a[0]) + EscapeIac(a[1..])
  {
  }

  /** Sending a run and then `IAC IAC` ahead of further sends. */
  lemma ConcatRunIac(run: seq<Byte>, rest: seq<seq<Byte>>)
    ensures Concat([run, [IAC, IAC]] + rest) == run + [IAC, IAC] + Concat(rest)
  {
    ConcatAppend([run, [IAC, IAC]], rest);
    assert [run, [IAC, IAC]][1..][1..] == [];
  }

  /** The 0xFF case of `BinarySendsContent`, given its recursive result. */
  lemma BinarySendsContentIac(data: seq<Byte>, prev: nat, i: nat, end: nat, tailEnd: nat)
    requires prev <= i < end <= tailEnd <= |data| && data[i] == IAC
    requires Concat(BinarySends(data, i + 1, i + 1, end, tailEnd)) == data[i + 1..i + 1] + EscapeIac(data[i + 1..end]) + data[end..tailEnd]
    ensures Concat(BinarySends(data, prev, i, end, tailEnd)) == data[prev..i] + EscapeIac(data[i..end]) + data[end..tailEnd]
  {
    var rest := BinarySends(data, i + 1, i + 1, end, tailEnd);
    assert BinarySends(data, prev, i, end, tailEnd) == [data[prev..i], [IAC, IAC]] + rest;
    ConcatRunIac(data[prev..i], rest);
    assert data[i + 1..i + 1] == [];
    var run := data[i..end];
    assert run[0] == IAC && run[1..] == data[i + 1..end];
    EscapeIacHead(run);
  }

  /** The case of any other byte: it joins the pending run. */
  lemma BinarySendsContentPlain(data: seq<Byte>, prev: nat, i: nat, end: nat, tailEnd: nat)
    requires prev <= i < end <= tailEnd <= |data| && data[i] != IAC
    requires Concat(BinarySends(data, prev, i + 1, end, tailEnd)) == data[prev..i + 1] + EscapeIac(data[i + 1..end]) + data[end..tailEnd]
    ensures Concat(BinarySends(data, prev, i, end, tailEnd)) == data[prev..i] + EscapeIac(data[i..end]) + data[end..tailEnd]
  {
    assert data[prev..i + 1] == data[prev..i] + [data[i]];
    var run := data[i..end];
    assert run[0] == data[i] && run[1..] == data[i + 1..end];
    EscapeIacHead(run);
  }

  /** The sends, concatenated: the run `data[prev, i)` unchanged, then the rest escaped up to `end`, then `data[end, tailEnd)`. */
  lemma {:induction false} BinarySendsContent(data: seq<Byte>, prev: nat, i: nat, end: nat, tailEnd: nat)
    requires prev <= i <= end <= tailEnd <= |data|
    ensures Concat(BinarySends(data, prev, i, end, tailEnd)) == data[prev..i] + EscapeIac(data[i..end]) + data[end..tailEnd]
    decreases end - i
  {
    if i == end {
      assert [data[prev..tailEnd]][1..] == [];
      assert data[prev..tailEnd] == data[prev..i] + data[end..tailEnd];
      assert data[i..end] == [];
    } else if data[i] == IAC {
      BinarySendsContent(data, i + 1, i + 1, end, tailEnd);
      BinarySendsContentIac(data, prev, i, end, tailEnd);
    } else {
      assert data[prev..i + 1] == data[prev..i] + [data[i]];
      BinarySendsContent(data, prev, i + 1, end, tailEnd);
      BinarySendsContentPlain(data, prev, i, end, tailEnd);
    }
  }

  /**
   * `write(data, offset, len)` in binary mode, as written: the bytes before
   * `offset` and after `offset + len` go out unescaped around the escaped window.
   */
  function BinaryWriteAsWritten(data: seq<Byte>, offset: nat, len: nat): (r: seq<seq<Byte>>)
    requires offset + len <= |data|
    ensures Concat(r) == data[..offset] + EscapeIac(data[offset..offset + len]) + data[offset + len..]
  {
    BinarySendsContent(data, 0, offset, offset + len, |data|);
    BinarySends(data, 0, offset, offset + len, |data|)
  }

  /** `write(data, offset, len)` in binary mode, as intended: only `data[offset, offset + len)`, every 0xFF doubled. */
  function BinaryWrite(data: seq<Byte>, offset: nat, len: nat): (r: seq<seq<Byte>>)
    requires offset + len <= |data|
    ensures Concat(r) == EscapeIac(data[offset..offset + len])
  {
    BinarySendsContent(data, offset, offset, offset + len, offset + len);
    assert data[offset..offset] == [] && data[offset + len..offset + len] == [];
    BinarySends(data, offset, offset, offset + len, offset + len)
  }

  /** `write(data, offset, len)`: the window escaped in binary mode, unchanged otherwise. */
  function Write(sendBinary: bool, data: seq<Byte>, offset: nat, len: nat): (r: seq<seq<Byte>>)
    requires offset + len <= |data|
    ensures Concat(r) == if sendBinary then EscapeIac(data[offset..offset + len]) else data[offset..offset + len]
  {
    if sendBinary then BinaryWrite(data, offset, len)
    else
      assert [data[offset..offset + len]][1..] == [];
      [data[offset..offset + len]]
  }
}
