# termd core, modelled in Dafny

termd is a Java library for interactive terminals served over telnet, HTTP or
WebSocket. This project models the core byte and code-point pipeline and the
line-editing helpers on top of it, and proves properties of the model.

- **Telnet connection** (`telnet_protocol.dfy`, `telnet_connection.dfy`,
  `telnet_properties.dfy`).
  - `TelnetProtocol` states the per-byte receive state machine as functions on
    an abstract state. It covers the DATA, ESC, IAC, SB, DO, DONT, WILL and
    WONT statuses, the 256-byte pending buffer and sub-negotiation framing. It
    also states the writer.
  - `TelnetConnections.TelnetConnection` is the imperative class. It keeps
    the source's arrays, lengths and status field, and each of its methods is
    proved against the state machine.
  - The `Option` enumeration is taken as a table: the option codes it knows,
    and the codes whose handler throws. Handler calls are recorded in an event
    log, and every `send` in a log of byte chunks.
- **Telnet TTY facade** (`telnet_tty.dfy`): the negotiations sent on open, the
  one-shot acceptance latch, charsets, single-slot size and terminal-type
  handlers, and the buffer choice of `write`.
- **Output newline translation** (`tty_output.dfy`): `BufferTtyOutputMode`
  splits an `IntBuffer` window at each `\n` and emits the shared CRLF buffer in
  its place. `Nio.IntBuffer` (`nio.dfy`) models the parts of
  `java.nio.IntBuffer` it uses.
- **Readline** (`line_buffer.dfy`, `readline_functions.dfy`, `key_events.dfy`):
  - the history searches, `backward-kill-line` and `undo`;
  - `LineBufferUtils`;
  - `KeyEventSupport.buffer`.
- **Helper** (`helper.dfy`): code points, `split`, `escape`, the longest common
  prefix, the completion block layout and the cursor position.
- **HTTP TTY** (`http_tty.dfy`): the JSON `read` and `resize` messages.
- **ByteBufPool** (`byte_buf_pool.dfy`): a bounded buffer pool with an
  allocation counter and a closed flag.

Java `byte` is modelled unsigned, so the Java value -1 is 0xFF (IAC).
A Java `String` is a sequence of UTF-16 code units, lone surrogates included.
Java `/` truncates toward zero; `Types.JavaDiv` writes that out.

Where the code differs from what the telnet RFCs suggest, the model follows
the code:

- In receive-binary mode, `IAC IAC` appends one 0xFF and the status stays ESC.
  It does not go back to DATA. The next plain byte is therefore read as a
  command (`TelnetProperties.BinaryDoubledIacThenByte`).
- Inside SB, `IAC x` with `x` neither SE nor IAC drops both bytes
  (`TelnetProperties.SbDropsOtherAfterIac`).

## Model

| member | source | states |
|---|---|---|
| TelnetProtocol.Initial | src/main/java/io/termd/core/telnet/TelnetConnection.java:46-54 | A new connection is well formed, in status DATA, with nothing pending, no parameters, and nothing handled or sent. |
| TelnetProtocol.IacStep | src/main/java/io/termd/core/telnet/TelnetConnection.java:305-325 | In IAC, DO/DONT/WILL/WONT/SB move to their status and every other byte returns to DATA. Exactly then `onCommand` gets the byte. SB starts an empty parameter buffer. Pending data and sends are untouched, and a well-formed state stays well formed. |
| TelnetProtocol.Negotiate | src/main/java/io/termd/core/telnet/TelnetConnection.java:161-222 | After a verb the status is DATA. Pending data and the SB fields are untouched. It raises exactly when the option is known and its handler throws. A known option reaches its handler once and nothing is sent. An unknown one reaches no handler and gets at most one reply. A DONT or WONT is never answered. |
| TelnetProtocol.SbStep | src/main/java/io/termd/core/telnet/TelnetConnection.java:327-355 | In SB, pending data and sends are untouched. The status stays SB or returns to DATA, and on the return the option code, buffer and IAC flag are reset. Only a return can raise. At most one event, `onOptionParameters`, is added. A well-formed state stays well formed. |
| TelnetProtocol.Step | src/main/java/io/termd/core/telnet/TelnetConnection.java:277-399 | One byte only adds to the handler events and to the sends, and never changes the receive-binary flag. A handler exception leaves the status DATA. |
| TelnetProtocol.Run | src/main/java/io/termd/core/telnet/TelnetConnection.java:97-101 | The byte loop only adds to the events and sends, and stops in DATA when a handler throws. |
| TelnetProtocol.Receive | src/main/java/io/termd/core/telnet/TelnetConnection.java:97-102 | Unless a handler threw, nothing stays pending after `receive`. A thrown handler leaves the status DATA. Events and sends only grow. |
| TelnetProtocol.Write | src/main/java/io/termd/core/telnet/TelnetConnection.java:122-146 | The sends of `write` concatenate to the window `data[offset, offset+len)`, with every 0xFF doubled in send-binary mode and unchanged otherwise. |
| TelnetProtocol.BinaryWrite | src/main/java/io/termd/core/telnet/TelnetConnection.java:122-134 | The corrected binary loop sends exactly the window with every 0xFF doubled. |
| TelnetProtocol.BinaryWriteAsWritten | src/main/java/io/termd/core/telnet/TelnetConnection.java:122-134 | The loop as written sends `data[0, offset)` unescaped, then the escaped window, then `data[offset+len, length)` unescaped. |
| TelnetProperties.ReceivePlainData | src/main/java/io/termd/core/telnet/TelnetConnection.java:97-102 | For input with no 0xFF received in status DATA with nothing pending, the `onData` chunks are each 1 to 256 bytes and concatenate to exactly the input. Nothing stays pending, the status is DATA and nothing is sent. |
| TelnetProperties.FlushPlainData | src/main/java/io/termd/core/telnet/TelnetConnection.java:260-273 | The final flush of `receive` sends the pending bytes, if any, as one last chunk of at most 256 bytes, so nothing stays pending and the payload is complete. |
| TelnetProperties.RunPlainData | src/main/java/io/termd/core/telnet/TelnetConnection.java:248-253 | Through the receive loop on IAC-free data, full 256-byte chunks are flushed and the flushed bytes plus those pending equal the old pending bytes plus the data. |
| TelnetProperties.AppendDataPayload | src/main/java/io/termd/core/telnet/TelnetConnection.java:248-253 | `appendData` flushes only a full pending buffer, keeps the earlier events, and loses or reorders no byte. |
| TelnetProperties.StepWellFormed | src/main/java/io/termd/core/telnet/TelnetConnection.java:248-253 | No byte ever leaves more than 256 bytes pending, and only SB holds an option code or a pending IAC. |
| TelnetProperties.RunWellFormed | src/main/java/io/termd/core/telnet/TelnetConnection.java:97-101 | The byte loop keeps a well-formed state well formed. |
| TelnetProperties.ReceiveWellFormed | src/main/java/io/termd/core/telnet/TelnetConnection.java:97-102 | `receive` keeps a well-formed state well formed. |
| TelnetProperties.IacTransitions | src/main/java/io/termd/core/telnet/TelnetConnection.java:279-325 | Outside binary mode, IAC flushes pending data before the status becomes IAC. In IAC, a byte other than DO/DONT/WILL/WONT/SB goes to `onCommand` and returns to DATA. SB opens an empty parameter buffer. |
| TelnetProperties.BinaryTransitions | src/main/java/io/termd/core/telnet/TelnetConnection.java:280-303 | In receive-binary mode, IAC moves DATA to ESC. In ESC, IAC appends one 0xFF and stays in ESC. Any other byte flushes and is handled as in IAC. |
| TelnetProperties.BinaryDoubledIacThenByte | src/main/java/io/termd/core/telnet/TelnetConnection.java:293-303 | In binary mode, `IAC IAC A` delivers one 0xFF of data and then the command `A`, because the status stays ESC. |
| TelnetProperties.Negotiation | src/main/java/io/termd/core/telnet/TelnetConnection.java:161-222 | After `IAC DO/DONT/WILL/WONT c`, a known option's handler runs once, even when it throws, and the status is DATA. An unknown DO sends exactly `IAC WONT c`, an unknown WILL exactly `IAC DONT c`, and an unknown DONT or WONT sends nothing. |
| TelnetProperties.SubNegotiation | src/main/java/io/termd/core/telnet/TelnetConnection.java:327-355 | From a well-formed DATA state outside receive-binary mode, `IAC SB c` followed by the parameters with each 0xFF doubled, then `IAC SE`, calls `onOptionParameters(c, p)` with exactly the parameters. Code, buffer and status are reset even when the handler throws. |
| TelnetProperties.SbCollects | src/main/java/io/termd/core/telnet/TelnetConnection.java:327-355 | Inside SB, a doubled-IAC stream appends exactly the undoubled bytes to the parameters. |
| TelnetProperties.SbCollectsHead | src/main/java/io/termd/core/telnet/TelnetConnection.java:327-355 | Inside SB, one parameter byte, doubled when it is 0xFF, is appended to the parameters and the status stays SB. |
| TelnetProperties.SbOpens | src/main/java/io/termd/core/telnet/TelnetConnection.java:305-333 | From a well-formed DATA state outside receive-binary mode, `IAC SB c` flushes data, opens an empty parameter buffer and records the option code. |
| TelnetProperties.SbCloses | src/main/java/io/termd/core/telnet/TelnetConnection.java:334-349 | `IAC SE` hands the parameters to a known option and resets the code, the buffer and the status. |
| TelnetProperties.SbDropsOtherAfterIac | src/main/java/io/termd/core/telnet/TelnetConnection.java:336-345 | Inside SB, `IAC x` with x neither SE nor IAC changes nothing. |
| TelnetProperties.UnescapeEscape | src/main/java/io/termd/core/telnet/TelnetConnection.java:122-134 | A receiver that undoubles IAC recovers any byte sequence from its escaped form. |
| TelnetProtocol.BinarySendsContent | src/main/java/io/termd/core/telnet/TelnetConnection.java:122-134 | The sends of the binary loop concatenate to the run before the window, the escaped window, then the tail. |
| TelnetProtocol.BinarySendsContentIac | src/main/java/io/termd/core/telnet/TelnetConnection.java:127-131 | At a 0xFF the pending run and `IAC IAC` go out, and the escaped window gains the doubled byte. |
| TelnetProtocol.BinarySendsContentPlain | src/main/java/io/termd/core/telnet/TelnetConnection.java:126-132 | Any other byte joins the pending run and reaches the output unchanged. |
| TelnetProperties.BinaryWriteRoundTrip | src/main/java/io/termd/core/telnet/TelnetConnection.java:122-134 | A receiver that undoubles 0xFF reads back exactly the window the corrected binary `write` sent. |
| TelnetProperties.BinaryWriteLeaks | src/main/java/io/termd/core/telnet/TelnetConnection.java:122-134 | As written, binary `write([1,2,3], 1, 1)` sends `[1,2,3]`, while the corrected loop sends `[2]`. |
| TelnetProperties.BinaryWriteWholeArray | src/main/java/io/termd/core/telnet/TelnetConnection.java:122-134 | As written and corrected agree when the window is the whole array. |
| TelnetConnections.TelnetConnection.Receive | src/main/java/io/termd/core/telnet/TelnetConnection.java:97-102 | The byte loop and final flush leave the connection in the state, and with the exception flag, of the protocol's `Receive`. |
| TelnetConnections.TelnetConnection.ValidWellFormed | src/main/java/io/termd/core/telnet/TelnetConnection.java:36-54 | The fields of a valid connection abstract to a well-formed protocol state. |
| TelnetConnections.TelnetConnection.RunHandler | src/main/java/io/termd/core/telnet/TelnetConnection.java:163-164 | A known option's handler is called once and throws exactly when the option table marks its code as raising. |
| TelnetConnections.TelnetConnection.Handle | src/main/java/io/termd/core/telnet/TelnetConnection.java:277-399 | One `Status.handle` call moves the arrays, lengths and fields exactly as the protocol's `Step`. |
| TelnetConnections.TelnetConnection.HandleIac | src/main/java/io/termd/core/telnet/TelnetConnection.java:305-325 | The IAC status follows `IacStep`. SB allocates a fresh 100-byte parameter buffer with length 0. Any other byte keeps the parameter buffer and its length. |
| TelnetConnections.TelnetConnection.HandleSb | src/main/java/io/termd/core/telnet/TelnetConnection.java:327-355 | The SB status follows `SbStep`, including the `finally` reset. |
| TelnetConnections.TelnetConnection.HandleNegotiation | src/main/java/io/termd/core/telnet/TelnetConnection.java:357-399 | The four verb statuses follow `Negotiate`: the handler, then DATA in `finally`. |
| TelnetConnections.TelnetConnection.AppendData | src/main/java/io/termd/core/telnet/TelnetConnection.java:248-253 | Writing into the 256-byte array follows the protocol's `AppendData`. |
| TelnetConnections.TelnetConnection.FlushData | src/main/java/io/termd/core/telnet/TelnetConnection.java:269-273 | A copy of the pending bytes goes to `onData`, and the length becomes 0. |
| TelnetConnections.TelnetConnection.FlushDataIfNecessary | src/main/java/io/termd/core/telnet/TelnetConnection.java:260-264 | The pending bytes are flushed only when there are some. |
| TelnetConnections.TelnetConnection.AppendToParams | src/main/java/io/termd/core/telnet/TelnetConnection.java:56-61 | The parameters become the old ones plus the byte. A full buffer is replaced by a new one exactly 100 larger. Otherwise the same array is kept. |
| TelnetConnections.CopyOf | src/main/java/io/termd/core/telnet/TelnetConnection.java:58 | `Arrays.copyOf` to a larger length keeps every element. |
| TelnetConnections.TelnetConnection.OnOptionDo | src/main/java/io/termd/core/telnet/TelnetConnection.java:197-205 | A known option's handler runs once. An unknown one is refused with exactly `IAC WONT c`. |
| TelnetConnections.TelnetConnection.OnOptionDont | src/main/java/io/termd/core/telnet/TelnetConnection.java:215-222 | A known option's handler runs once. An unknown one is ignored. |
| TelnetConnections.TelnetConnection.OnOptionWill | src/main/java/io/termd/core/telnet/TelnetConnection.java:161-169 | A known option's handler runs once. An unknown one is refused with exactly `IAC DONT c`. |
| TelnetConnections.TelnetConnection.OnOptionWont | src/main/java/io/termd/core/telnet/TelnetConnection.java:179-186 | A known option's handler runs once. An unknown one is ignored. |
| TelnetConnections.TelnetConnection.OnOptionParameters | src/main/java/io/termd/core/telnet/TelnetConnection.java:232-239 | A known option's handler gets the parameters. Parameters for an unknown option are dropped. |
| TelnetConnections.TelnetConnection.Lookup | src/main/java/io/termd/core/telnet/TelnetConnection.java:161-164 | The loop over `Option.values()` finds the code exactly when the table has it. |
| TelnetConnections.TelnetConnection.Write | src/main/java/io/termd/core/telnet/TelnetConnection.java:122-146 | The sends equal the corrected `Write`. In binary mode they are the window with 0xFF doubled; otherwise they are the window unchanged. |
| TelnetConnections.TelnetConnection.WriteDoOption | src/main/java/io/termd/core/telnet/TelnetConnection.java:74-77 | Sends exactly the three bytes `IAC DO code`. |
| TelnetConnections.TelnetConnection.WriteWillOption | src/main/java/io/termd/core/telnet/TelnetConnection.java:83-85 | Sends exactly the three bytes `IAC WILL code`. |
| TelnetConnections.TelnetConnection.Send | src/main/java/io/termd/core/telnet/TelnetConnection.java:91-95 | Records one `send` of exactly `data[offset, offset+len)`. |
| TelnetConnections.TelnetConnection.SetReceiveBinary | src/main/java/io/termd/core/telnet/TelnetConnection.java:43 | Switches only the receive-binary flag the DATA status reads. |
| TelnetConnections.TelnetConnection.SetSendBinary | src/main/java/io/termd/core/telnet/TelnetConnection.java:42 | Switches only the send-binary flag `write` reads. |
| TelnetConnections.TelnetConnection.constructor | src/main/java/io/termd/core/telnet/TelnetConnection.java:46-54 | A new connection is in the protocol's initial state: DATA, nothing pending, no parameters, neither binary mode. |
| TelnetTty.OpenRequestsBinary | src/main/java/io/termd/core/telnet/TelnetTtyConnection.java:150-173 | `onOpen` opens with WILL ECHO and WILL SGA and ends with DO NAWS and DO TERMINAL-TYPE. It asks DO BINARY exactly when `inBinary` and WILL BINARY exactly when `outBinary`. |
| TelnetTty.OpenNegotiations | src/main/java/io/termd/core/telnet/TelnetTtyConnection.java:150-173 | Four to six negotiations, each three bytes starting with IAC. |
| TelnetTty.TelnetTtyConnection.OnOpen | src/main/java/io/termd/core/telnet/TelnetTtyConnection.java:149-173 | Keeps the connection, sends the negotiations in order, then checks acceptance. With neither direction binary it accepts during `onOpen`. |
| TelnetTty.TelnetTtyConnection.SendOpenNegotiations | src/main/java/io/termd/core/telnet/TelnetTtyConnection.java:154-169 | The sends of `onOpen` are exactly `OpenNegotiations` for the two flags. |
| TelnetTty.TelnetTtyConnection.CheckAccept | src/main/java/io/termd/core/telnet/TelnetTtyConnection.java:175-185 | The latch is set once every binary mode asked for is on. The handler is called at most once: `acceptCount` stays 1 once accepted. |
| TelnetTty.TelnetTtyConnection.OnSendBinary | src/main/java/io/termd/core/telnet/TelnetTtyConnection.java:125-132 | Records the mode. The encoder takes the configured charset, which is then the output charset, only when the mode is switched on. Acceptance is re-checked. |
| TelnetTty.TelnetTtyConnection.OnReceiveBinary | src/main/java/io/termd/core/telnet/TelnetTtyConnection.java:134-141 | Records the mode. The decoder takes the configured charset, which is then the input charset, only when the mode is switched on. Acceptance is re-checked. |
| TelnetTty.TelnetTtyConnection.InputCharset | src/main/java/io/termd/core/telnet/TelnetTtyConnection.java:115-118 | The configured charset when `inBinary`, US-ASCII otherwise. |
| TelnetTty.TelnetTtyConnection.OutputCharset | src/main/java/io/termd/core/telnet/TelnetTtyConnection.java:120-123 | The configured charset when `outBinary`, US-ASCII otherwise. |
| TelnetTty.TelnetTtyConnection.OnSize | src/main/java/io/termd/core/telnet/TelnetTtyConnection.java:200-206 | The size becomes (w, h), and a set size handler is notified exactly once with it. |
| TelnetTty.TelnetTtyConnection.SetSizeHandler | src/main/java/io/termd/core/telnet/TelnetTtyConnection.java:213-216 | Replaces the single size handler slot. |
| TelnetTty.TelnetTtyConnection.OnTerminalType | src/main/java/io/termd/core/telnet/TelnetTtyConnection.java:187-193 | Stores the type, and a set handler is notified exactly once. |
| TelnetTty.TelnetTtyConnection.SetTerminalTypeHandler | src/main/java/io/termd/core/telnet/TelnetTtyConnection.java:223-229 | Replaces the slot. An already known type is replayed at once to a non-null handler. |
| TelnetTty.TelnetTtyConnection.Close | src/main/java/io/termd/core/telnet/TelnetTtyConnection.java:274-277 | Closes the telnet connection once. |
| TelnetTty.TelnetTtyConnection.CloseWithStatus | src/main/java/io/termd/core/telnet/TelnetTtyConnection.java:279-282 | The exit status is ignored: the same as `close()`. |
| TelnetTty.TelnetTtyConnection.Write | src/main/java/io/termd/core/telnet/TelnetTtyConnection.java:284-302 | Uses the shared 8192-slot buffer exactly when there are fewer than 8192 code points, otherwise a new buffer of exactly their number. The output is the code points with each `\n` turned into `\r\n`, in newline-free runs. |
| TelnetTty.PutCodePoints | src/main/java/io/termd/core/telnet/TelnetTtyConnection.java:295-296 | Puts every code point in order into the cleared buffer: it holds them from slot 0 and its position is their count. |
| TelnetTty.TelnetTtyConnection.constructor | src/main/java/io/termd/core/telnet/TelnetTtyConnection.java:73-93 | Nothing negotiated or accepted. The encoder has the configured charset, the decoder the telnet charset, and the code point buffer 8192 slots. |
| TtyOutput.ChunksTranslate | src/main/java/io/termd/core/tty/BufferTtyOutputMode.java:44-65 | Everything passed to the read handler concatenates to the input with every `\n` replaced by `\r\n`. |
| TtyOutput.ChunksWellFormed | src/main/java/io/termd/core/tty/BufferTtyOutputMode.java:50-64 | Every chunk is CR LF or a non-empty newline-free run, no two runs are adjacent, and an empty input emits nothing. |
| TtyOutput.ChunksFromWellChunked | src/main/java/io/termd/core/tty/BufferTtyOutputMode.java:44-65 | From any point of the loop, the remaining chunks are well formed. |
| TtyOutput.FlattenChunksFrom | src/main/java/io/termd/core/tty/BufferTtyOutputMode.java:44-65 | From any point of the loop, the remaining chunks translate the rest of the input. |
| TtyOutput.OnlcrAppend | src/main/java/io/termd/core/tty/BufferTtyOutputMode.java:44-65 | The translation of a concatenation is the concatenation of the translations. |
| TtyOutput.OnlcrNoNewline | src/main/java/io/termd/core/tty/BufferTtyOutputMode.java:62-64 | Text with no newline passes unchanged. |
| TtyOutput.Onlcr | src/main/java/io/termd/core/tty/BufferTtyOutputMode.java:44-65 | The translation is never shorter than its input. |
| TtyOutput.OnlcrAtNewline | src/main/java/io/termd/core/tty/BufferTtyOutputMode.java:50-57 | The translation of text whose first `\n` is at `ptr` is the run before it, CR LF, then the translation of the rest. |
| TtyOutput.FlattenAtNewline | src/main/java/io/termd/core/tty/BufferTtyOutputMode.java:50-57 | At a `\n`, the pending run if non-empty, CR LF and the chunks of the rest translate the text from the run's start. |
| TtyOutput.WellChunkedAtNewline | src/main/java/io/termd/core/tty/BufferTtyOutputMode.java:50-57 | At a `\n`, the chunks stay well formed, and the first one is a data run only when the pending run is non-empty. |
| TtyOutput.BoundsFromLast | src/main/java/io/termd/core/tty/BufferTtyOutputMode.java:44-75 | From any point of the loop, the buffer ends on the last newline-free run of the window, or on the whole window when that holds only newlines. |
| TtyOutput.FinalBoundsMeaning | src/main/java/io/termd/core/tty/BufferTtyOutputMode.java:44-75 | `accept` leaves the input buffer on the whole window when the window holds only `\n`. Otherwise it leaves it on the last newline-free run: that run is non-empty, starts at the window start or after a `\n`, and only `\n` follow it. |
| TtyOutput.StepOther | src/main/java/io/termd/core/tty/BufferTtyOutputMode.java:59-60 | Any other code point only extends the pending run. Nothing is emitted and the buffer does not move. |
| TtyOutput.StepNewlineState | src/main/java/io/termd/core/tty/BufferTtyOutputMode.java:50-57 | At a `\n`, the pending run if non-empty and then CR LF are emitted, a new empty run starts after the `\n`, and the buffer is narrowed to the run just sent. The loop invariant holds again. |
| TtyOutput.FinishState | src/main/java/io/termd/core/tty/BufferTtyOutputMode.java:62-64 | Once the last run is sent, the chunks emitted are exactly `Chunks` of the window and the buffer sits on `FinalBounds`. |
| TtyOutput.BufferTtyOutputMode.Accept | src/main/java/io/termd/core/tty/BufferTtyOutputMode.java:37-67 | With no handler or nothing remaining, nothing is emitted and the buffer does not move. Otherwise the emitted chunks are `Chunks` of the window, and the buffer ends on `FinalBounds`: the last newline-free run, or the whole window when that holds only newlines. The input array is never written. |
| TtyOutput.BufferTtyOutputMode.SendChunk | src/main/java/io/termd/core/tty/BufferTtyOutputMode.java:69-75 | Emits exactly `arr[prev, ptr)` and leaves position `prev` and limit `ptr`. |
| TtyOutput.BufferTtyOutputMode.Step | src/main/java/io/termd/core/tty/BufferTtyOutputMode.java:46-61 | One loop iteration advances `ptr` by one and keeps the loop invariant: emitted chunks, pending run and buffer bounds. |
| TtyOutput.BufferTtyOutputMode.StepNewline | src/main/java/io/termd/core/tty/BufferTtyOutputMode.java:50-57 | At a `\n`, emits `arr[prev, ptr)` if non-empty, then the rewound CR LF buffer. The input buffer is narrowed to that run, or left where it was when the run is empty. |
| TtyOutput.BufferTtyOutputMode.Finish | src/main/java/io/termd/core/tty/BufferTtyOutputMode.java:62-64 | Sends the last run if non-empty. All of `Chunks` has then been emitted and the buffer is left on `FinalBounds`. |
| TtyOutput.BufferTtyOutputMode.constructor | src/main/java/io/termd/core/tty/BufferTtyOutputMode.java:30-35 | Holds the CRLF buffer `[13, 10]` and whether there is a read handler. Nothing is emitted yet. |
| Nio.IntBuffer.Put | src/main/java/io/termd/core/readline/KeyEventSupport.java:14 | Writes one slot at the position and advances it. |
| Nio.IntBuffer.Flip | src/main/java/io/termd/core/readline/KeyEventSupport.java:16 | The limit becomes the position, and the position becomes 0. |
| Nio.IntBuffer.Clear | src/main/java/io/termd/core/telnet/TelnetTtyConnection.java:295 | The position becomes 0 and the limit the capacity. |
| Nio.IntBuffer.SetLimit | src/main/java/io/termd/core/tty/BufferTtyOutputMode.java:72 | The limit becomes `l`, and a position beyond it is pulled back to `l`. |
| Nio.IntBuffer.SetPosition | src/main/java/io/termd/core/tty/BufferTtyOutputMode.java:55 | The position becomes `p`, and the limit stays. |
| Nio.IntBuffer.Allocate | src/main/java/io/termd/core/readline/KeyEventSupport.java:12 | A new zeroed array of capacity `n`, position 0, limit `n`. |
| Nio.IntBuffer.Wrap | src/main/java/io/termd/core/tty/BufferTtyOutputMode.java:30 | A buffer over the array itself, position 0, limit its length. |
| Nio.IntBuffer.Remaining | src/main/java/io/termd/core/tty/BufferTtyOutputMode.java:40 | Zero exactly when the position is at the limit. |
| Nio.IntBuffer.Window | src/main/java/io/termd/core/tty/BufferTtyOutputMode.java:40-42 | The window has `remaining()` elements. |
| KeyEvents.Buffer | src/main/java/io/termd/core/readline/KeyEventSupport.java:10-18 | A fresh buffer of capacity `length()`, position 0 and limit `length()`, whose elements are the event's code points in order. |
| LineBuffers.MatchBeforeCursorMeans | src/main/java/io/termd/core/util/LineBufferUtils.java:11-29 | `matchBeforeCursor` is false for a null line and for a line shorter than the cursor. Otherwise it holds exactly when the first `cursor` code points agree. It always holds with the cursor at 0. |
| LineBuffers.EqualsMeans | src/main/java/io/termd/core/util/LineBufferUtils.java:31-47 | `equals` holds exactly when the line is non-null and equal to the buffer's content. |
| LineBuffers.EqualsImpliesMatch | src/main/java/io/termd/core/util/LineBufferUtils.java:11-47 | A line equal to the buffer matches before the cursor. |
| LineBuffers.SameFromMeans | src/main/java/io/termd/core/util/LineBufferUtils.java:22-27 | The element-by-element loop holds exactly when the two slices are equal. |
| LineBuffers.LineBuffer.Delete | src/main/java/io/termd/core/readline/functions/BackwardKillLine.java:20 | `delete` keeps the cursor within the content. |
| LineBuffers.LineBuffer.SetSize | src/main/java/io/termd/core/readline/functions/Undo.java:19 | `setSize` keeps the cursor within the content. |
| LineBuffers.Loaded | src/main/java/io/termd/core/readline/functions/HistorySearchForward.java:52-53 | A buffer holding the line with the cursor at its end. |
| ReadlineFunctions.Function.Name | src/main/java/io/termd/core/readline/functions/HistorySearchBackward.java:18-20 | Each function is bound under exactly one name: "history-search-backward" here, "history-search-forward" (HistorySearchForward.java:19-21), "backward-kill-line" (BackwardKillLine.java:13-15) and "undo" (Undo.java:12-14). No two functions share one. |
| ReadlineFunctions.HistorySearchBackward | src/main/java/io/termd/core/readline/functions/HistorySearchBackward.java:23-68 | Either nothing changes or the buffer and index become those `SearchBackward` chooses. The history is untouched, and `resume` is called once. |
| ReadlineFunctions.SearchBackwardEmptyLine | src/main/java/io/termd/core/readline/functions/HistorySearchBackward.java:32-50 | With an empty buffer, the next older entry is loaded when there is one. |
| ReadlineFunctions.SearchBackwardSteps | src/main/java/io/termd/core/readline/functions/HistorySearchBackward.java:36-50 | With the cursor at the end and the buffer equal to the current entry, the search steps to the next older entry. |
| ReadlineFunctions.SearchBackwardFirstMatch | src/main/java/io/termd/core/readline/functions/HistorySearchBackward.java:52-64 | Otherwise it loads the first older entry that differs from the buffer and matches before the cursor, keeping the cursor. With none, nothing changes. |
| ReadlineFunctions.SearchBackwardMovesOlder | src/main/java/io/termd/core/readline/functions/HistorySearchBackward.java:44-64 | Any new index is strictly between the current one and the history's length. |
| ReadlineFunctions.BackwardScanFinds | src/main/java/io/termd/core/readline/functions/HistorySearchBackward.java:52-64 | The upward scan finds the first candidate, or reports that there is none. |
| ReadlineFunctions.HistorySearchForward | src/main/java/io/termd/core/readline/functions/HistorySearchForward.java:24-58 | Either nothing changes or the buffer and index become those `SearchForward` chooses. The history is untouched, and `resume` is called once. |
| ReadlineFunctions.SearchForwardFirstMatch | src/main/java/io/termd/core/readline/functions/HistorySearchForward.java:32-55 | It loads the nearest newer candidate with the cursor at its end. Without one it snaps to the entry just newer. |
| ReadlineFunctions.SearchForwardMovesNewer | src/main/java/io/termd/core/readline/functions/HistorySearchForward.java:32-55 | With index 0 or -1 nothing changes. Any new index is strictly below the current one, loaded with the cursor at its end. |
| ReadlineFunctions.ForwardScanFinds | src/main/java/io/termd/core/readline/functions/HistorySearchForward.java:36-49 | The downward scan finds the nearest candidate, or reports that there is none. |
| ReadlineFunctions.ForwardScan | src/main/java/io/termd/core/readline/functions/HistorySearchForward.java:36-49 | A found index is at or below the start. |
| ReadlineFunctions.BackwardKillLine | src/main/java/io/termd/core/readline/functions/BackwardKillLine.java:18-23 | Refreshes with a copy of the buffer minus the code points before the cursor, then resumes once. |
| ReadlineFunctions.KillBackwardKeepsRest | src/main/java/io/termd/core/readline/functions/BackwardKillLine.java:20 | The result is exactly the content after the cursor, with the cursor at 0. With the cursor at 0 nothing changes. |
| ReadlineFunctions.Undo | src/main/java/io/termd/core/readline/functions/Undo.java:17-22 | Refreshes with a copy truncated to size 0, then resumes once. |
| ReadlineFunctions.UndoEmpties | src/main/java/io/termd/core/readline/functions/Undo.java:19-20 | The refreshed buffer is empty whatever it held. |
| ReadlineFunctions.Interaction.Refresh | src/main/java/io/termd/core/readline/functions/Undo.java:20 | `refresh` makes the given buffer current and logs it. |
| ReadlineFunctions.Interaction.Resume | src/main/java/io/termd/core/readline/functions/Undo.java:21 | `resume` is counted. |
| ReadlineFunctions.Interaction.SetHistoryIndex | src/main/java/io/termd/core/readline/functions/HistorySearchBackward.java:49 | `setHistoryIndex` moves the index and nothing else. |
| Helper.StringRoundTrip | src/main/java/io/termd/core/util/Helper.java:56-74 | `fromCodePoints(toCodePoints(s)) == s` for every string, lone surrogates included. |
| Helper.CodePointRoundTrip | src/main/java/io/termd/core/util/Helper.java:56-74 | For Unicode scalar values, `toCodePoints(fromCodePoints(cps)) == cps`. |
| Helper.ToCodePoints | src/main/java/io/termd/core/util/Helper.java:56-64 | The loop advances by `charCount`, so a surrogate pair yields one code point. |
| Helper.FromCodePoints | src/main/java/io/termd/core/util/Helper.java:72-74 | Fails exactly on a value outside 0..0x10FFFF. Otherwise the string has between one and two units per code point. |
| Helper.CodePointAt | src/main/java/io/termd/core/util/Helper.java:59 | A supplementary code point is read exactly at a high-low surrogate pair. |
| Helper.Split | src/main/java/io/termd/core/util/Helper.java:113-126 | Splits on `\n` whatever separator it is given. |
| Helper.CountAtNewline | src/main/java/io/termd/core/util/Helper.java:113-126 | The `\n` count from a piece's start is one more than the count after the `\n` that ends it. |
| Helper.SplitJoin | src/main/java/io/termd/core/util/Helper.java:113-126 | Joining the pieces with `\n` gives the string back. |
| Helper.SplitCount | src/main/java/io/termd/core/util/Helper.java:113-126 | There is one more piece than there are `\n`, and no piece contains `\n`. |
| Helper.IndexOf | src/main/java/io/termd/core/util/Helper.java:116 | The first occurrence at or after `from`, or -1 when there is none. |
| Helper.Escape | src/main/java/io/termd/core/util/Helper.java:135-155 | The loop builds `EscapeOf(s)`. |
| Helper.OctalEscapeDigits | src/main/java/io/termd/core/util/Helper.java:141-147 | A control char other than NUL becomes a backslash and three zero-padded octal digits. |
| Helper.EscapeHasNoControls | src/main/java/io/termd/core/util/Helper.java:135-155 | The output contains no char below 32. |
| Helper.EscapeIdentity | src/main/java/io/termd/core/util/Helper.java:148-152 | Text without control chars or backslashes is unchanged. |
| Helper.EscapeRoundTrip | src/main/java/io/termd/core/util/Helper.java:135-155 | Every string without NUL is recovered from its escape. |
| Helper.AppendEscaped | src/main/java/io/termd/core/util/Helper.java:138-152 | One turn of `escape`'s loop appends exactly `EscapeUnit(c)`, the unit that `UnescapeUnit` reads back as `c`. |
| Helper.UnescapeUnit | src/main/java/io/termd/core/util/Helper.java:135-155 | The escape of any char but NUL reads back as that char: `\\` for a backslash, `\0` and two octal digits below 32, the char itself otherwise. |
| Helper.FindLongestCommonPrefix | src/main/java/io/termd/core/util/Helper.java:157-173 | Empty for no entries. Otherwise a prefix of every entry that no entry lets grow by one more element. |
| Helper.Min | src/main/java/io/termd/core/util/Helper.java:277-286 | The least entry length of a non-empty list. |
| Helper.Max | src/main/java/io/termd/core/util/Helper.java:288-297 | The greatest entry length of a non-empty list. |
| Helper.MaxLengthIsMax | src/main/java/io/termd/core/util/Helper.java:288-297 | The maximum is attained by some entry and bounds all of them. |
| Helper.ComputeBlock | src/main/java/io/termd/core/util/Helper.java:176-199 | Returns `ComputedBlock`: the cells of `BlockOf` written into a string with `appendCodePoint` and read back as code points. Empty for no completions. None when a completion holds a value `appendCodePoint` throws on. |
| Helper.ComputedBlockScalar | src/main/java/io/termd/core/util/Helper.java:176-199 | When every completion holds only Unicode scalar values (no surrogate, nothing above 0x10FFFF), the block read back is exactly `BlockOf`. |
| Helper.ComputedBlockRejects | src/main/java/io/termd/core/util/Helper.java:76-83 | A completion code point below 0 or above 0x10FFFF makes the computation fail. |
| Helper.ComputedBlockRepairs | src/main/java/io/termd/core/util/Helper.java:185 | A high and a low surrogate given as two code points are read back as one supplementary code point. At 80 columns, `[[0xD800, 0xDC00]]` gives `[0x10000, ' ', '\n']`. |
| Helper.CellsScalar | src/main/java/io/termd/core/util/Helper.java:184-195 | Cells of scalar-valued completions hold only scalar values. |
| Helper.FromCodePointsUnits | src/main/java/io/termd/core/util/Helper.java:72-74 | Code points below 0x10000 become the string with the same units. |
| Helper.AppendPadded | src/main/java/io/termd/core/util/Helper.java:185-188 | The builder gains the completion and then spaces up to `max` code points. |
| Helper.SeparatorStep | src/main/java/io/termd/core/util/Helper.java:189-195 | The counter of the loop is the number of completions since the last line feed. A space follows each completion until `row` are on the line, then a line feed and the counter is reset. |
| Helper.CellsSnoc | src/main/java/io/termd/core/util/Helper.java:184-195 | One turn of the loop appends the completion, its padding and its separator, giving the cells of one more completion. |
| Helper.BlockLength | src/main/java/io/termd/core/util/Helper.java:176-199 | A cell of `max + 1` per completion, then a final `\n`. |
| Helper.BlockCell | src/main/java/io/termd/core/util/Helper.java:183-196 | Each cell is the completion padded with spaces to the longest length, then `\n` after every `size.x/(max+1)`-th completion and a space otherwise. |
| Helper.CellsAt | src/main/java/io/termd/core/util/Helper.java:183-196 | The k-th cell sits at `k * (max + 1)`. |
| Helper.CellWindow | src/main/java/io/termd/core/util/Helper.java:185-195 | Within a cell, the completion comes first, then spaces up to the longest length, then the separator. |
| Helper.ComputePosition | src/main/java/io/termd/core/util/Helper.java:209-244 | The loop gives `PositionOf`. Exceptions become errors. |
| Helper.Advance | src/main/java/io/termd/core/util/Helper.java:220-239 | A step fails exactly when a char is wider than the screen and does not fit on the line. |
| Helper.PositionBounds | src/main/java/io/termd/core/util/Helper.java:210-212 | An offset below 0 or beyond the length fails. With a width of at least 2, any offset in range succeeds. |
| Helper.PositionNeverFails | src/main/java/io/termd/core/util/Helper.java:228-239 | With a width of at least 2 no char is too wide. |
| Helper.PositionStaysOnScreen | src/main/java/io/termd/core/util/Helper.java:213-243 | The column stays in `[0, width)` and the row never decreases. |
| Helper.PositionWithoutWrap | src/main/java/io/termd/core/util/Helper.java:228-239 | One-column chars that fit just move the column right. |
| Helper.ControlCharPosition | src/main/java/io/termd/core/util/Helper.java:220-226 | `\r` resets the column, and `\n` also moves down one row. |
| Helper.PositionErrorPersists | src/main/java/io/termd/core/util/Helper.java:230-232 | Once a step has thrown, the result stays that error. |
| Helper.Convert | src/main/java/io/termd/core/util/Helper.java:268-274 | The same length and elements in the same order. |
| HttpTty.ResizeApplied | src/main/java/io/termd/core/http/HttpTtyConnection.java:134-146 | An applied resize is positive and differs from the current size. A dimension the message leaves out keeps its current value, and one it gives is used as given. |
| HttpTty.ResizeExact | src/main/java/io/termd/core/http/HttpTtyConnection.java:136-141 | Two positive `int` dimensions that differ from the current size are applied as given. |
| HttpTty.ResizeRejectsNonInteger | src/main/java/io/termd/core/http/HttpTtyConnection.java:135-150 | A dimension that is present but not an `Integer` (null, a string, a `Long`) makes the resize a no-op. |
| HttpTty.ResizeIdempotent | src/main/java/io/termd/core/http/HttpTtyConnection.java:138-146 | The same resize message applied twice changes nothing the second time. |
| HttpTty.GetOrDefault | src/main/java/io/termd/core/http/HttpTtyConnection.java:154-156 | The default only for an absent key. A key mapped to null gives null. |
| HttpTty.IntegerValue | src/main/java/io/termd/core/http/HttpTtyConnection.java:136-137 | The `(Integer)` cast and unboxing succeed exactly on an integer that fits a Java `int`. |
| HttpTty.HttpTtyConnection.WriteToDecoder | src/main/java/io/termd/core/http/HttpTtyConnection.java:119-152 | The JSON text `null` gives a null map, whose `get` at line 125 throws, changing nothing. A malformed message, a null or unknown action or a rejected resize changes nothing. A non-string action throws. A read sets the access time and feeds the data's bytes to the decoder, or throws without data. A resize sets the size and notifies a set handler once. |
| HttpTty.HttpTtyConnection.WriteBytesToDecoder | src/main/java/io/termd/core/http/HttpTtyConnection.java:114-117 | Sets the access time and feeds the bytes to the decoder. |
| HttpTty.HttpTtyConnection.Default | src/main/java/io/termd/core/http/HttpTtyConnection.java:58-72 | The defaults are UTF-8 and 80 columns by 24 rows. |
| HttpTty.HttpTtyConnection.constructor | src/main/java/io/termd/core/http/HttpTtyConnection.java:74-76 | Keeps the charset and size it is given. |
| HttpTty.HttpTtyConnection.OutputCharset | src/main/java/io/termd/core/http/HttpTtyConnection.java:87-90 | The configured charset. |
| HttpTty.HttpTtyConnection.SetSizeHandler | src/main/java/io/termd/core/http/HttpTtyConnection.java:175-177 | Replaces the single size handler slot. |
| HttpTty.HttpTtyConnection.InputCharset | src/main/java/io/termd/core/http/HttpTtyConnection.java:87-95 | The input charset is the output charset. |
| HttpTty.HttpTtyConnection.TerminalType | src/main/java/io/termd/core/http/HttpTtyConnection.java:102-105 | Always "vt100". |
| Pool.ByteBufPool.Get | src/main/java/io/termd/core/util/ByteBufPool.java:69-88 | Fails exactly on a closed pool, changing nothing. Otherwise it returns the head of the queue, or a new buffer of the pool's capacity counted in `allocSize`, and retains it. With an empty queue and a negative capacity, `Unpooled.buffer` throws instead, exactly then, and nothing changes. |
| Pool.ByteBufPool.Put | src/main/java/io/termd/core/util/ByteBufPool.java:94-102 | The buffer is cleared. It is requeued when its capacity matches and the queue has room. Otherwise it is released and `allocSize` drops by one. |
| Pool.ByteBufPool.Offer | src/main/java/io/termd/core/util/ByteBufPool.java:97 | Accepted exactly when the queue is below the pool size. |
| Pool.ByteBufPool.Discard | src/main/java/io/termd/core/util/ByteBufPool.java:108-112 | Always released, and `allocSize` drops by one. |
| Pool.ByteBufPool.Release | src/main/java/io/termd/core/util/ByteBufPool.java:117-123 | Closes the pool and releases every queued buffer in order, leaving the queue empty. |
| Pool.ByteBufPool.Default | src/main/java/io/termd/core/util/ByteBufPool.java:55-57 | 1024 buffers of 128 bytes. |
| Pool.ByteBufPool.constructor | src/main/java/io/termd/core/util/ByteBufPool.java:59-63 | An open, empty pool that has allocated nothing. |
| Pool.Create | src/main/java/io/termd/core/util/ByteBufPool.java:59-63 | No pool exactly when the size is below 1, where `new ArrayBlockingQueue` throws. Otherwise a fresh, open, empty pool of that size and capacity that has allocated nothing. |
| Pool.Cleared | src/main/java/io/termd/core/util/ByteBufPool.java:96 | `clear` resets the writer index and keeps the buffer's identity and capacity. |

Every method of the classes above keeps its class invariant `Valid()`:

- `TelnetConnection`: `pendingLength <= 256`. The parameter buffer is a non-empty multiple of 100 long and holds its length.
- `BufferTtyOutputMode`: the CRLF buffer is `[13, 10]` with limit 2.
- `ByteBufPool`: at most `poolSize` buffers are queued, each cleared and of the pool's capacity.
- `TelnetTtyConnection`: `acceptCount` is 1 once accepted and 0 before.

## Left out

- The charset codecs `BinaryDecoder`, `BufferBinaryEncoder` and `TtyEventDecoder`, and the `ReadBuffer`, are not part of this model. The TTY facade records only which charset each codec holds. `BufferTtyOutputMode`'s handler is the recorder of emitted windows.
- The `Option` enumeration is an abstract table, as described above. Its handlers' own effects are not modelled, so no option handler calls back into `onSize`, `onTerminalType`, `onSendBinary` or `onReceiveBinary`. Those methods are modelled as entry points, and the BINARY handlers' field writes as `SetSendBinary` and `SetReceiveBinary`.
- Netty plumbing, `execute`, `schedule`, `onClose` and the close handler are not modelled. So are `TelnetConnection.close` and the `onData` path from the telnet facade into the decoder.
- Clocks (`System.currentTimeMillis`) are method parameters. `String.getBytes()` in the platform charset is a function parameter of `HttpTty.HttpTtyConnection.WriteToDecoder`. `Wcwidth.of` is a function parameter of `Helper.ComputePosition`.
- `synchronized`, `volatile` and the atomic fields are modelled sequentially.
- Exceptions thrown by the data, command, size and terminal-type handlers are not modelled; only option handlers may throw.
- Java `int` overflow is not modelled: the parameter buffer length, `paramsLength` and `allocSize` are unbounded.
- `LineBuffer`, `Interaction`, `KeyEvent` and `Vector` are not part of this model beyond the operations used here. `new Vector()` is taken to be (0, 0).
- The `IntBuffer` mark is not modelled.
- `Helper.codePointCount` and `Helper.toCodePoints(String, IntBuffer)`, used by `TelnetTtyConnection.write`, are not part of this model. They are taken to agree with `toCodePoints(String)`.
- Pool.ByteBufPool.constructor: requires a size of at least 1. The `IllegalArgumentException` for a smaller size is modelled by `Pool.Create`, which returns None then.
- Pool.ByteBufPool.Get: `retain` and `release` are kept as logs of buffers, without reference counts, so the `IllegalReferenceCountException` of retaining or releasing a buffer already released is not modelled.
- Pool.ByteBufPool.Get: the timed `poll(timeout, unit)` of a fully allocated pool is taken to time out with nothing arriving. The model therefore allocates, as the code does after a timeout, and drops the timeout arguments.
- Pool.ByteBufPool.Put: on a closed pool the buffer is still requeued, as in the code. Nothing releases it afterwards.
- HttpTty.HttpTtyConnection.WriteToDecoder: the JSON parser is an input datatype. Jackson's choice of `Integer` or `Long` is taken to be by whether the value fits a Java `int`.

## Findings

| source | as written | input that shows it | evidently intended | confidence | as-written member | corrected member |
|---|---|---|---|---|---|---|
| src/main/java/io/termd/core/telnet/TelnetConnection.java:122-134 | In send-binary mode, `write(data, offset, len)` starts the first run at `prev = 0` and sends the tail as `data.length - prev` bytes from `prev`. It therefore sends bytes before `offset` and after `offset + len`. The encoder's callback passes `data.array()` with its position and remaining, so stale bytes of the encoder's buffer would go out. | `write([1, 2, 3], 1, 1)` with `sendBinary` sends `[1, 2, 3]` | Send only `data[offset, offset+len)`, with each 0xFF doubled: `[2]` | not executed; the source's own comment says this branch is believed never to run | TelnetProperties.BinaryWriteLeaks | TelnetProperties.BinaryWriteRoundTrip |

The rest of the model uses the corrected loop, `TelnetConnections.TelnetConnection.Write`. `TelnetProtocol.BinaryWriteAsWritten` is the loop as written. `TelnetProperties.BinaryWriteWholeArray` shows that the two agree when the window is the whole array.
