/**
 * `io.termd.core.telnet.TelnetTtyConnection`: the terminal facade over a
 * telnet connection. It opens the option negotiation, accepts the terminal
 * once the binary modes it asked for are on, keeps the size and terminal
 * type for single-slot handlers, and writes strings through the newline
 * translation of `BufferTtyOutputMode`.
 */
module TelnetTty {
  import opened Types
  import opened TelnetProtocol
  import opened TelnetConnections
  import opened Nio
  import opened TtyOutput
  import Helper

  /** Option codes of RFC 856 (BINARY), RFC 857 (ECHO), RFC 858 (SGA), RFC 1091 (TERMINAL-TYPE) and RFC 1073 (NAWS). */
  const BINARY: Byte := 0
  const ECHO: Byte := 1
  const SGA: Byte := 3
  const TERMINAL_TYPE: Byte := 24
  const NAWS: Byte := 31

  /** Capacity of the shared code point buffer of `write`. */
  const CODE_POINT_BUF_SIZE: nat := 8192

  /** Identifies a handler installed in one of the single-slot handler fields. */
  type HandlerId = nat

  /** A call into a size or terminal type handler. */
  datatype Notification =
    | SizeNotified(handler: HandlerId, size: Vector)
    | TermNotified(handler: HandlerId, terminalType: JString)

  /** The negotiations `onOpen` sends, in order: kludge mode, the binary modes asked for, window size, terminal type. */
  function OpenNegotiations(inBinary: bool, outBinary: bool): (r: seq<seq<Byte>>)
    ensures 4 <= |r| <= 6
    ensures forall i :: 0 <= i < |r| ==> |r[i]| == 3 && r[i][0] == IAC
  {
    [[IAC, WILL, ECHO], [IAC, WILL, SGA]]
    + (if inBinary then [[IAC, DO, BINARY]] else [])
    + (if outBinary then [[IAC, WILL, BINARY]] else [])
    + [[IAC, DO, NAWS], [IAC, DO, TERMINAL_TYPE]]
  }

  /** Binary mode is requested in a direction exactly when the connection is configured binary in it. */
  lemma OpenRequestsBinary(inBinary: bool, outBinary: bool)
    ensures [IAC, DO, BINARY] in OpenNegotiations(inBinary, outBinary) <==> inBinary
    ensures [IAC, WILL, BINARY] in OpenNegotiations(inBinary, outBinary) <==> outBinary
    ensures OpenNegotiations(inBinary, outBinary)[..2] == [[IAC, WILL, ECHO], [IAC, WILL, SGA]]
    ensures OpenNegotiations(inBinary, outBinary)[|OpenNegotiations(inBinary, outBinary)| - 2..] ==
      [[IAC, DO, NAWS], [IAC, DO, TERMINAL_TYPE]]
  {
    var r := OpenNegotiations(inBinary, outBinary);
    if !inBinary {
      forall i | 0 <= i < |r| ensures r[i] != [IAC, DO, BINARY] {
        assert r[i][1] != DO || r[i][2] != BINARY;
      }
    }
    if !outBinary {
      forall i | 0 <= i < |r| ensures r[i] != [IAC, WILL, BINARY] {
        assert r[i][1] != WILL || r[i][2] != BINARY;
      }
    }
  }

  /** Whether `checkAccept` may accept: every binary mode asked for is on. */
  predicate BinaryReady(inBinary: bool, outBinary: bool, receivingBinary: bool, sendingBinary: bool) {
    (!outBinary || sendingBinary) && (!inBinary || receivingBinary)
  }

  class TelnetTtyConnection {
    const inBinary: bool
    const outBinary: bool
    const charset: Charset
    var receivingBinary: bool
    var sendingBinary: bool
    var accepted: bool
    /** How many times the connection handler was given this connection. */
    var acceptCount: nat
    var size: Vector
    var terminalType: Option<JString>
    var sizeHandler: Option<HandlerId>
    var termHandler: Option<HandlerId>
    var notifications: seq<Notification>
    /** The charset of the output encoder and of the input decoder. */
    var encoderCharset: Charset
    var decoderCharset: Charset
    var conn: TelnetConnection?
    /** Calls of `conn.close()`. */
    var closeRequests: nat
    const codePointBuf: IntBuffer
    const stdout: BufferTtyOutputMode

    ghost predicate Valid()
      reads this, codePointBuf, stdout, stdout.crlf, stdout.crlf.arr
    {
      acceptCount == (if accepted then 1 else 0) &&
      codePointBuf.Valid() && codePointBuf.arr.Length == CODE_POINT_BUF_SIZE &&
      stdout.Valid() && stdout.hasReadHandler &&
      codePointBuf != stdout.crlf && codePointBuf.arr != stdout.crlf.arr
    }

    constructor (inBinary: bool, outBinary: bool, charset: Charset)
      ensures Valid() && fresh(codePointBuf) && fresh(codePointBuf.arr) && fresh(stdout)
      ensures this.inBinary == inBinary && this.outBinary == outBinary && this.charset == charset
      ensures !receivingBinary && !sendingBinary && !accepted
      ensures size == Vector(0, 0) && terminalType == None && sizeHandler == None && termHandler == None
      ensures notifications == [] && stdout.emitted == [] && conn == null && closeRequests == 0
      ensures encoderCharset == charset && decoderCharset == TelnetCharset
    {
      this.inBinary := inBinary;
      this.outBinary := outBinary;
      this.charset := charset;
      receivingBinary := false;
      sendingBinary := false;
      accepted := false;
      acceptCount := 0;
      size := Vector(0, 0);
      terminalType := None;
      sizeHandler := None;
      termHandler := None;
      notifications := [];
      encoderCharset := charset;
      decoderCharset := TelnetCharset;
      conn := null;
      closeRequests := 0;
      codePointBuf := new IntBuffer.Allocate(CODE_POINT_BUF_SIZE);
      var crlfArray := new int[2](i => if i == 0 then CR else NL);
      var crlf := new IntBuffer.Wrap(crlfArray);
      stdout := new BufferTtyOutputMode(true, crlf);
    }

    /** `inputCharset`: the configured charset in binary mode, US-ASCII otherwise. */
    function InputCharset(): (r: Charset)
      reads this
      ensures inBinary ==> r == charset
      ensures !inBinary ==> r == UsAscii
    {
      if inBinary then charset else UsAscii
    }

    /** `outputCharset`: the configured charset in binary mode, US-ASCII otherwise. */
    function OutputCharset(): (r: Charset)
      reads this
      ensures outBinary ==> r == charset
      ensures !outBinary ==> r == UsAscii
    {
      if outBinary then charset else UsAscii
    }

    /** `checkAccept`: a one-shot latch, set once every binary mode asked for is on. */
    method CheckAccept()
      requires Valid()
      modifies this`accepted, this`acceptCount
      ensures Valid()
      ensures accepted == (old(accepted) || BinaryReady(inBinary, outBinary, receivingBinary, sendingBinary))
      ensures acceptCount == old(acceptCount) +
        (if !old(accepted) && BinaryReady(inBinary, outBinary, receivingBinary, sendingBinary) then 1 else 0)
    {
      if !accepted {
        if !outBinary || (outBinary && sendingBinary) {
          if !inBinary || (inBinary && receivingBinary) {
            accepted := true;
            acceptCount := acceptCount + 1;
          }
        }
      }
    }

    /** `onOpen`: keeps the connection, negotiates, then checks acceptance. */
    method OnOpen(c: TelnetConnection)
      requires Valid()
      modifies this`conn, this`accepted, this`acceptCount, c`sent
      ensures Valid() && conn == c
      ensures c.sent == old(c.sent) + OpenNegotiations(inBinary, outBinary)
      ensures accepted == (old(accepted) || BinaryReady(inBinary, outBinary, receivingBinary, sendingBinary))
      ensures !inBinary && !outBinary ==> accepted && acceptCount == 1
    {
      conn := c;
      SendOpenNegotiations(c);
      CheckAccept();
    }

    /** The sends of `onOpen`. */
    method SendOpenNegotiations(c: TelnetConnection)
      modifies c`sent
      ensures c.sent == old(c.sent) + OpenNegotiations(inBinary, outBinary)
    {
      c.WriteWillOption(ECHO);
      c.WriteWillOption(SGA);
      ghost var kludge := c.sent;
      assert kludge == old(c.sent) + [[IAC, WILL, ECHO], [IAC, WILL, SGA]];
      if inBinary {
        c.WriteDoOption(BINARY);
      }
      ghost var inRequest: seq<seq<Byte>> := if inBinary then [[IAC, DO, BINARY]] else [];
      assert c.sent == kludge + inRequest;
      ghost var binaryIn := c.sent;
      if outBinary {
        c.WriteWillOption(BINARY);
      }
      ghost var outRequest: seq<seq<Byte>> := if outBinary then [[IAC, WILL, BINARY]] else [];
      assert c.sent == binaryIn + outRequest;
      ghost var binaryOut := c.sent;
      c.WriteDoOption(NAWS);
      c.WriteDoOption(TERMINAL_TYPE);
      assert c.sent == binaryOut + [[IAC, DO, NAWS], [IAC, DO, TERMINAL_TYPE]];
      calc {
        c.sent;
        old(c.sent) + [[IAC, WILL, ECHO], [IAC, WILL, SGA]] + inRequest + outRequest + [[IAC, DO, NAWS], [IAC, DO, TERMINAL_TYPE]];
        old(c.sent) + ([[IAC, WILL, ECHO], [IAC, WILL, SGA]] + inRequest + outRequest + [[IAC, DO, NAWS], [IAC, DO, TERMINAL_TYPE]]);
      }
    }

    /** `onSendBinary`: records the mode; the encoder takes the configured charset when it is switched on. */
    method OnSendBinary(binary: bool)
      requires Valid()
      modifies this`sendingBinary, this`encoderCharset, this`accepted, this`acceptCount
      ensures Valid() && sendingBinary == binary
      ensures encoderCharset == (if binary then charset else old(encoderCharset))
      ensures binary && outBinary ==> encoderCharset == OutputCharset()
      ensures accepted == (old(accepted) || BinaryReady(inBinary, outBinary, receivingBinary, binary))
    {
      sendingBinary := binary;
      if binary {
        encoderCharset := charset;
      }
      CheckAccept();
    }

    /** `onReceiveBinary`: records the mode; the decoder takes the configured charset when it is switched on. */
    method OnReceiveBinary(binary: bool)
      requires Valid()
      modifies this`receivingBinary, this`decoderCharset, this`accepted, this`acceptCount
      ensures Valid() && receivingBinary == binary
      ensures decoderCharset == (if binary then charset else old(decoderCharset))
      ensures binary && inBinary ==> decoderCharset == InputCharset()
      ensures accepted == (old(accepted) || BinaryReady(inBinary, outBinary, binary, sendingBinary))
    {
      receivingBinary := binary;
      if binary {
        decoderCharset := charset;
      }
      CheckAccept();
    }

    /** `onSize`: the new size, given once to the size handler if one is set. */
    method OnSize(width: int, height: int)
      modifies this`size, this`notifications
      ensures size == Vector(width, height)
      ensures notifications == old(notifications) +
        (if sizeHandler.Some? then [SizeNotified(sizeHandler.value, Vector(width, height))] else [])
    {
      size := Vector(width, height);
      if sizeHandler.Some? {
        notifications := notifications + [SizeNotified(sizeHandler.value, size)];
      }
    }

    method SetSizeHandler(handler: Option<HandlerId>)
      modifies this`sizeHandler
      ensures sizeHandler == handler
    {
      sizeHandler := handler;
    }

    /** `onTerminalType`: the new type, given once to the terminal type handler if one is set. */
    method OnTerminalType(t: JString)
      modifies this`terminalType, this`notifications
      ensures terminalType == Some(t)
      ensures notifications == old(notifications) +
        (if termHandler.Some? then [TermNotified(termHandler.value, t)] else [])
    {
      terminalType := Some(t);
      if termHandler.Some? {
        notifications := notifications + [TermNotified(termHandler.value, t)];
      }
    }

    /** `setTerminalTypeHandler`: a type already known is replayed at once to the new handler. */
    method SetTerminalTypeHandler(handler: Option<HandlerId>)
      modifies this`termHandler, this`notifications
      ensures termHandler == handler
      ensures notifications == old(notifications) +
        (if handler.Some? && terminalType.Some? then [TermNotified(handler.value, terminalType.value)] else [])
    {
      termHandler := handler;
      if handler.Some? && terminalType.Some? {
        notifications := notifications + [TermNotified(handler.value, terminalType.value)];
      }
    }

    /** `close()`: closes the telnet connection. */
    method Close()
      requires conn != null
      modifies this`closeRequests
      ensures closeRequests == old(closeRequests) + 1
    {
      closeRequests := closeRequests + 1;
    }

    /** `close(exit)`: the exit status is ignored. */
    method CloseWithStatus(exit: int)
      requires conn != null
      modifies this`closeRequests
      ensures closeRequests == old(closeRequests) + 1
    {
      Close();
    }

    /**
     * `write(s)`: the code points of `s` go through the shared buffer when
     * fewer than its 8192 slots, through a buffer of exactly their number
     * otherwise, and then through the newline translation.
     */
    method Write(s: JString) returns (ghost buffer: IntBuffer)
      requires Valid()
      modifies stdout, stdout.crlf, codePointBuf, codePointBuf.arr
      ensures Valid()
      ensures stdout.emitted == old(stdout.emitted) + Chunks(Helper.CodePointsOf(s))
      ensures Flatten(stdout.emitted) == old(Flatten(stdout.emitted)) + Onlcr(Helper.CodePointsOf(s))
      ensures |Helper.CodePointsOf(s)| < CODE_POINT_BUF_SIZE ==> buffer == codePointBuf
      ensures |Helper.CodePointsOf(s)| >= CODE_POINT_BUF_SIZE ==>
        fresh(buffer) && buffer.Capacity() == |Helper.CodePointsOf(s)|
    {
      var cps := Helper.ToCodePoints(s);
      var count := |cps|;
      var b: IntBuffer;
      if count < codePointBuf.Capacity() {
        b := codePointBuf;
      } else {
        b := new IntBuffer.Allocate(count);
      }
      buffer := b;
      b.Clear();
      PutCodePoints(cps, b);
      b.Flip();
      assert b.Window() == cps by {
        assert b.arr[..count] == cps[..count];
      }
      ChunksWellFormed(cps);
      stdout.Accept(b);
      FlattenAppend(old(stdout.emitted), Chunks(cps));
      ChunksTranslate(cps);
    }
  }

  /**
   * `Helper.toCodePoints(s, buffer)` as `write` calls it, on the code points
   * of `s`: each is put in turn from the start of the cleared buffer.
   */
  method PutCodePoints(cps: seq<int>, b: IntBuffer)
    requires b.Valid() && b.position == 0 && |cps| <= b.limit
    modifies b, b.arr
    ensures b.Valid() && b.position == |cps| && b.limit == old(b.limit)
    ensures b.arr[..|cps|] == cps
  {
    var i := 0;
    while i < |cps|
      invariant 0 <= i <= |cps| <= b.limit <= b.arr.Length
      invariant b.Valid() && b.position == i && b.limit == old(b.limit)
      invariant b.arr[..i] == cps[..i]
    {
      b.Put(cps[i]);
      i := i + 1;
    }
  }
}
