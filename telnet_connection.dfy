/**
 * `io.termd.core.telnet.TelnetConnection`: the byte-level telnet connection,
 * with its pending data buffer, its sub-negotiation parameter buffer and its
 * status, each method proved against the state machine of `TelnetProtocol`.
 */
module TelnetConnections {
  import opened Types
  import opened TelnetProtocol

  /** `Arrays.copyOf(a, n)` for `n >= a.Length`: the elements of `a`, then zeros. */
  method CopyOf(a: array<Byte>, n: nat) returns (r: array<Byte>)
    requires n >= a.Length
    ensures fresh(r) && r.Length == n && r[..a.Length] == a[..]
  {
    r := new Byte[n](_ => 0);
    var i := 0;
    while i < a.Length
      invariant 0 <= i <= a.Length && r[..i] == a[..i]
      modifies r
    {
      r[i] := a[i];
      i := i + 1;
    }
  }

  class TelnetConnection {
    const pendingBuffer: array<Byte>
    var pendingLength: nat
    var status: Status
    var paramsOptionCode: Option<Byte>
    var paramsBuffer: array?<Byte>
    var paramsLength: nat
    var paramsIac: bool
    var sendBinary: bool
    var receiveBinary: bool
    /** `Option.values()` and which option handlers raise. */
    const options: Options
    /** Calls into the handler and the option handlers, in order. */
    var events: seq<Event>
    /** Every `send`, in order. */
    var sent: seq<seq<Byte>>

    ghost predicate Valid()
      reads this, pendingBuffer, paramsBuffer
    {
      pendingBuffer.Length == PENDING_SIZE && pendingLength <= PENDING_SIZE &&
      (paramsBuffer != null ==>
        paramsBuffer != pendingBuffer && paramsLength <= paramsBuffer.Length &&
        paramsBuffer.Length >= PARAMS_STEP && paramsBuffer.Length % PARAMS_STEP == 0) &&
      (status == Sb ==> paramsBuffer != null) &&
      (status != Sb ==> paramsOptionCode.None? && !paramsIac)
    }

    /** The connection seen as a state of the protocol. */
    ghost function State(): TState
      reads this, pendingBuffer, paramsBuffer
      requires Valid()
    {
      TState(status, pendingBuffer[..pendingLength], paramsOptionCode,
        if paramsBuffer == null then [] else paramsBuffer[..paramsLength],
        paramsIac, receiveBinary, events, sent)
    }

    /** A valid connection is a well-formed protocol state. */
    lemma ValidWellFormed()
      requires Valid()
      ensures WellFormed(State())
    {
    }

    constructor (options: Options)
      ensures Valid() && fresh(pendingBuffer) && this.options == options
      ensures State() == Initial(false) && !sendBinary
    {
      pendingBuffer := new Byte[PENDING_SIZE](_ => 0);
      pendingLength := 0;
      status := Data;
      paramsOptionCode := None;
      paramsBuffer := null;
      paramsLength := 0;
      paramsIac := false;
      sendBinary := false;
      receiveBinary := false;
      this.options := options;
      events := [];
      sent := [];
    }

    /** The BINARY option's handlers switch the binary modes through these fields. */
    method SetReceiveBinary(b: bool)
      requires Valid()
      modifies this`receiveBinary
      ensures Valid() && State() == old(State()).(receiveBinary := b)
    {
      receiveBinary := b;
    }

    method SetSendBinary(b: bool)
      modifies this`sendBinary
      ensures sendBinary == b
    {
      sendBinary := b;
    }

    /** `send(data, offset, len)`. */
    method Send(data: seq<Byte>, offset: nat, len: nat)
      requires offset + len <= |data|
      modifies this`sent
      ensures sent == old(sent) + [data[offset..offset + len]]
    {
      sent := sent + [data[offset..offset + len]];
    }

    /** `writeDoOption`: exactly `IAC DO code`. */
    method WriteDoOption(code: Byte)
      modifies this`sent
      ensures sent == old(sent) + [[IAC, DO, code]]
    {
      assert [IAC, DO, code][0..3] == [IAC, DO, code];
      Send([IAC, DO, code], 0, 3);
    }

    /** `writeWillOption`: exactly `IAC WILL code`. */
    method WriteWillOption(code: Byte)
      modifies this`sent
      ensures sent == old(sent) + [[IAC, WILL, code]]
    {
      assert [IAC, WILL, code][0..3] == [IAC, WILL, code];
      Send([IAC, WILL, code], 0, 3);
    }

    /**
     * `write(data, offset, len)`: unchanged outside binary mode; in binary
     * mode the window with every 0xFF doubled. The run before the first 0xFF
     * starts at `offset` and the tail ends at `offset + len` (see Findings in
     * the README for the code as written).
     */
    method Write(data: seq<Byte>, offset: nat, len: nat)
      requires offset + len <= |data|
      modifies this`sent
      ensures sent == old(sent) + TelnetProtocol.Write(sendBinary, data, offset, len)
    {
      if sendBinary {
        var prev := offset;
        var end := offset + len;
        var i := offset;
        while i < end
          invariant offset <= prev <= i <= end
          invariant old(sent) + BinaryWrite(data, offset, len) == sent + BinarySends(data, prev, i, end, end)
        {
          if data[i] == IAC {
            assert BinarySends(data, prev, i, end, end) == [data[prev..i], [IAC, IAC]] + BinarySends(data, i + 1, i + 1, end, end);
            assert [IAC, IAC][0..2] == [IAC, IAC];
            Send(data, prev, i - prev);
            Send([IAC, IAC], 0, 2);
            prev := i + 1;
          }
          i := i + 1;
        }
        Send(data, prev, end - prev);
      } else {
        Send(data, offset, len);
      }
    }

    /** The loop over `Option.values()` shared by the `onOption...` methods. */
    method Lookup(code: Byte) returns (found: bool)
      ensures found <==> code in options.codes
    {
      var codes := options.codes;
      var i := 0;
      while i < |codes|
        invariant 0 <= i <= |codes| && code !in codes[..i]
      {
        if codes[i] == code {
          return true;
        }
        assert codes[..i + 1] == codes[..i] + [codes[i]];
        i := i + 1;
      }
      assert codes[..i] == codes;
      return false;
    }

    /** A known option's handler runs and may raise. */
    method RunHandler(e: Event, code: Byte) returns (raised: bool)
      modifies this`events
      ensures events == old(events) + [e] && raised == (code in options.raising)
    {
      events := events + [e];
      raised := code in options.raising;
    }

    /** `onOptionWill`: unknown options are refused with `IAC DONT code`. */
    method OnOptionWill(code: Byte) returns (raised: bool)
      modifies this`events, this`sent
      ensures raised == (code in options.codes && code in options.raising)
      ensures events == old(events) + (if code in options.codes then [OnOption(WillVerb, code)] else [])
      ensures sent == old(sent) + (if code in options.codes then [] else [[IAC, DONT, code]])
    {
      var found := Lookup(code);
      if found {
        raised := RunHandler(OnOption(WillVerb, code), code);
        return;
      }
      assert [IAC, DONT, code][0..3] == [IAC, DONT, code];
      Send([IAC, DONT, code], 0, 3);
      raised := false;
    }

    /** `onOptionWont`: unknown options are ignored. */
    method OnOptionWont(code: Byte) returns (raised: bool)
      modifies this`events
      ensures raised == (code in options.codes && code in options.raising)
      ensures events == old(events) + (if code in options.codes then [OnOption(WontVerb, code)] else [])
    {
      var found := Lookup(code);
      if found {
        raised := RunHandler(OnOption(WontVerb, code), code);
        return;
      }
      raised := false;
    }

    /** `onOptionDo`: unknown options are refused with `IAC WONT code`. */
    method OnOptionDo(code: Byte) returns (raised: bool)
      modifies this`events, this`sent
      ensures raised == (code in options.codes && code in options.raising)
      ensures events == old(events) + (if code in options.codes then [OnOption(DoVerb, code)] else [])
      ensures sent == old(sent) + (if code in options.codes then [] else [[IAC, WONT, code]])
    {
      var found := Lookup(code);
      if found {
        raised := RunHandler(OnOption(DoVerb, code), code);
        return;
      }
      assert [IAC, WONT, code][0..3] == [IAC, WONT, code];
      Send([IAC, WONT, code], 0, 3);
      raised := false;
    }

    /** `onOptionDont`: unknown options are ignored. */
    method OnOptionDont(code: Byte) returns (raised: bool)
      modifies this`events
      ensures raised == (code in options.codes && code in options.raising)
      ensures events == old(events) + (if code in options.codes then [OnOption(DontVerb, code)] else [])
    {
      var found := Lookup(code);
      if found {
        raised := RunHandler(OnOption(DontVerb, code), code);
        return;
      }
      raised := false;
    }

    /** `onOptionParameters`: unknown options are ignored. */
    method OnOptionParameters(code: Byte, parameters: seq<Byte>) returns (raised: bool)
      modifies this`events
      ensures raised == (code in options.codes && code in options.raising)
      ensures events == old(events) + (if code in options.codes then [OnParameters(code, parameters)] else [])
    {
      var found := Lookup(code);
      if found {
        raised := RunHandler(OnParameters(code, parameters), code);
        return;
      }
      raised := false;
    }

    /** `flushData`: a copy of the pending bytes goes to `onData`. */
    method FlushData()
      requires Valid()
      modifies this`pendingLength, this`events
      ensures Valid() && State() == Flush(old(State()))
    {
      var data := pendingBuffer[..pendingLength];
      pendingLength := 0;
      events := events + [OnData(data)];
    }

    /** `flushDataIfNecessary`. */
    method FlushDataIfNecessary()
      requires Valid()
      modifies this`pendingLength, this`events
      ensures Valid() && State() == FlushIfNecessary(old(State()))
    {
      if pendingLength > 0 {
        FlushData();
      }
    }

    /** `appendData`: a full pending buffer is flushed first. */
    method AppendData(b: Byte)
      requires Valid()
      modifies this`pendingLength, this`events, pendingBuffer
      ensures Valid() && State() == TelnetProtocol.AppendData(old(State()), b)
    {
      if pendingLength >= pendingBuffer.Length {
        FlushData();
      }
      pendingBuffer[pendingLength] := b;
      pendingLength := pendingLength + 1;
    }

    /**
     * `appendToParams`: the parameter buffer grows by 100 when full, so it
     * always holds the parameters collected so far.
     */
    method AppendToParams(b: Byte)
      requires Valid() && paramsBuffer != null
      modifies this`paramsBuffer, this`paramsLength, paramsBuffer
      ensures Valid() && paramsBuffer != null
      ensures paramsBuffer[..paramsLength] == old(paramsBuffer[..paramsLength]) + [b]
      ensures old(paramsLength) < old(paramsBuffer.Length) ==> paramsBuffer == old(paramsBuffer)
      ensures old(paramsLength) == old(paramsBuffer.Length) ==>
        fresh(paramsBuffer) && paramsBuffer.Length == old(paramsBuffer.Length) + PARAMS_STEP
    {
      while paramsLength >= paramsBuffer.Length
        invariant paramsBuffer != null && paramsBuffer != pendingBuffer
        invariant paramsLength == old(paramsLength) <= paramsBuffer.Length
        invariant paramsBuffer.Length >= PARAMS_STEP && paramsBuffer.Length % PARAMS_STEP == 0
        invariant paramsBuffer[..paramsLength] == old(paramsBuffer[..paramsLength])
        invariant paramsBuffer == old(paramsBuffer) || (fresh(paramsBuffer) && paramsBuffer.Length == old(paramsBuffer.Length) + PARAMS_STEP)
        invariant paramsLength == paramsBuffer.Length ==> paramsBuffer == old(paramsBuffer)
        invariant paramsBuffer != old(paramsBuffer) ==> old(paramsLength) == old(paramsBuffer.Length)
        decreases paramsLength + 1 - paramsBuffer.Length
      {
        var grown := CopyOf(paramsBuffer, paramsBuffer.Length + PARAMS_STEP);
        assert grown[..paramsLength] == paramsBuffer[..paramsLength];
        paramsBuffer := grown;
      }
      paramsBuffer[paramsLength] := b;
      paramsLength := paramsLength + 1;
    }

    /** `Status.IAC.handle`, run in status IAC or on behalf of ESC. */
    method HandleIac(b: Byte)
      requires Valid() && (status == Iac || status == Esc)
      modifies this`status, this`paramsBuffer, this`paramsLength, this`events
      ensures Valid() && State() == IacStep(old(State()), b)
      ensures b == SB ==> paramsBuffer != null && fresh(paramsBuffer) && paramsBuffer.Length == PARAMS_STEP && paramsLength == 0
      ensures b != SB ==> paramsBuffer == old(paramsBuffer) && paramsLength == old(paramsLength)
    {
      if b == DO {
        status := Do;
      } else if b == DONT {
        status := Dont;
      } else if b == WILL {
        status := Will;
      } else if b == WONT {
        status := Wont;
      } else if b == SB {
        paramsBuffer := new Byte[PARAMS_STEP](_ => 0);
        paramsLength := 0;
        status := Sb;
      } else {
        events := events + [OnCommand(b)];
        status := Data;
      }
    }

    /** `Status.SB.handle`; the reset after `IAC SE` happens whether or not the handler raised. */
    method HandleSb(b: Byte) returns (raised: bool)
      requires Valid() && status == Sb
      modifies this`paramsOptionCode, this`paramsIac, this`paramsBuffer, this`paramsLength, this`status, this`events, paramsBuffer
      ensures Valid() && State() == SbStep(old(State()), b, options).0 && raised == SbStep(old(State()), b, options).1
      ensures paramsBuffer == null || paramsBuffer == old(paramsBuffer) || fresh(paramsBuffer)
    {
      raised := false;
      if paramsOptionCode.None? {
        paramsOptionCode := Some(b);
      } else {
        if paramsIac {
          paramsIac := false;
          if b == SE {
            var parameters := paramsBuffer[..paramsLength];
            raised := OnOptionParameters(paramsOptionCode.value, parameters);
            paramsOptionCode := None;
            paramsBuffer := null;
            status := Data;
          } else if b == IAC {
            AppendToParams(IAC);
          }
        } else {
          if b == IAC {
            paramsIac := true;
          } else {
            AppendToParams(b);
          }
        }
      }
    }

    /** `Status.DO`, `DONT`, `WILL` and `WONT`: the handler, then status DATA in `finally`. */
    method HandleNegotiation(b: Byte) returns (raised: bool)
      requires Valid() && status in {Do, Dont, Will, Wont}
      modifies this`status, this`events, this`sent
      ensures Valid() && State() == Negotiate(old(State()), VerbOf(old(status)), b, options).0 && raised == Negotiate(old(State()), VerbOf(old(status)), b, options).1
    {
      match status {
        case Do => raised := OnOptionDo(b);
        case Dont => raised := OnOptionDont(b);
        case Will => raised := OnOptionWill(b);
        case Wont => raised := OnOptionWont(b);
      }
      status := Data;
    }

    /** `status.handle(this, b)`. */
    method Handle(b: Byte) returns (raised: bool)
      requires Valid()
      modifies this, pendingBuffer, paramsBuffer
      ensures Valid() && State() == Step(old(State()), b, options).0 && raised == Step(old(State()), b, options).1
      ensures paramsBuffer == null || paramsBuffer == old(paramsBuffer) || fresh(paramsBuffer)
    {
      raised := false;
      match status
      case Data =>
        if b == IAC {
          if receiveBinary {
            status := Esc;
          } else {
            FlushDataIfNecessary();
            status := Iac;
          }
        } else {
          AppendData(b);
        }
      case Esc =>
        if b == IAC {
          AppendData(IAC);
        } else {
          FlushDataIfNecessary();
          HandleIac(b);
        }
      case Iac => HandleIac(b);
      case Sb => raised := HandleSb(b);
      case _ => raised := HandleNegotiation(b);
    }

    /** `receive(data)`: an exception from an option handler leaves the loop and skips the final flush. */
    method Receive(data: seq<Byte>) returns (raised: bool)
      requires Valid()
      modifies this, pendingBuffer, paramsBuffer
      ensures Valid() && State() == TelnetProtocol.Receive(old(State()), data, options).0 && raised == TelnetProtocol.Receive(old(State()), data, options).1
      ensures paramsBuffer == null || paramsBuffer == old(paramsBuffer) || fresh(paramsBuffer)
    {
      var i := 0;
      while i < |data|
        invariant 0 <= i <= |data| && Valid()
        invariant Run(State(), data[i..], options) == Run(old(State()), data, options)
        invariant paramsBuffer == null || paramsBuffer == old(paramsBuffer) || fresh(paramsBuffer)
      {
        assert data[i..][1..] == data[i + 1..];
        raised := Handle(data[i]);
        if raised {
          return;
        }
        i := i + 1;
      }
      FlushDataIfNecessary();
      raised := false;
    }
  }
}
