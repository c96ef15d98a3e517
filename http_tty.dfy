/**
 * `io.termd.core.http.HttpTtyConnection`: a terminal over HTTP/WebSocket
 * whose input arrives as JSON messages, either `{"action":"read","data":...}`
 * or `{"action":"resize","cols":...,"rows":...}`.
 *
 * The JSON parser is taken as given: a message is either malformed (the
 * parser's IOException) or a map from keys to values, where a JSON integer
 * that fits a Java `int` is an `Integer` and any other value is something
 * else.
 */
module HttpTty {
  import opened Types

  /** A JSON value as Jackson hands it back in an untyped map. */
  datatype Json = JInt(n: int) | JStr(s: JString) | JNull | JOther

  /**
   * What `readValue(msg, Map.class)` gives: an `IOException`, a null map for
   * the JSON text `null`, or a map.
   */
  datatype Message = Malformed | NullMap | Parsed(fields: map<string, Json>)

  const DEFAULT_SIZE: Vector := Vector(80, 24)

  /** "read", "resize" and "vt100" as Java strings. */
  const READ: JString := [0x72, 0x65, 0x61, 0x64]
  const RESIZE: JString := [0x72, 0x65, 0x73, 0x69, 0x7A, 0x65]
  const VT100: JString := [0x76, 0x74, 0x31, 0x30, 0x30]

  /** `Map.get`: null for a missing key. */
  function Get(fields: map<string, Json>, key: string): Json {
    if key in fields then fields[key] else JNull
  }

  /** `getOrDefault`: the default only when the key is absent; a key mapped to null stays null. */
  function GetOrDefault(fields: map<string, Json>, key: string, default: Json): (r: Json)
    ensures key in fields ==> r == fields[key]
    ensures key !in fields ==> r == default
  {
    if key in fields then fields[key] else default
  }

  /** The cast `(Integer) v` followed by unboxing: None where it throws. */
  function IntegerValue(v: Json): (r: Option<int>)
    ensures r.Some? <==> v.JInt? && IsInt32(v.n)
    ensures r.Some? ==> r.value == v.n
  {
    if v.JInt? && IsInt32(v.n) then Some(v.n) else None
  }

  /** Whether `(String) obj.get("action")` throws: the action is present and not a string. */
  predicate BadAction(fields: map<string, Json>) {
    !(Get(fields, "action").JStr? || Get(fields, "action").JNull?)
  }

  predicate IsRead(fields: map<string, Json>) {
    Get(fields, "action") == JStr(READ)
  }

  predicate IsResize(fields: map<string, Json>) {
    Get(fields, "action") == JStr(RESIZE)
  }

  /**
   * The new size a resize message asks for, when it is applied: both
   * dimensions `Integer`s (a missing one is the current one), both positive,
   * and different from the current size.
   */
  function ResizeTo(fields: map<string, Json>, current: Vector): Option<Vector> {
    var cols := IntegerValue(GetOrDefault(fields, "cols", JInt(current.x)));
    var rows := IntegerValue(GetOrDefault(fields, "rows", JInt(current.y)));
    if cols.Some? && rows.Some? && cols.value > 0 && rows.value > 0 && Vector(cols.value, rows.value) != current
    then Some(Vector(cols.value, rows.value))
    else None
  }

  /** An applied resize is positive, new, and keeps a dimension the message leaves out. */
  lemma ResizeApplied(fields: map<string, Json>, current: Vector)
    requires ResizeTo(fields, current).Some?
    ensures ResizeTo(fields, current).value.x > 0 && ResizeTo(fields, current).value.y > 0
    ensures ResizeTo(fields, current).value != current
    ensures "cols" !in fields ==> ResizeTo(fields, current).value.x == current.x
    ensures "rows" !in fields ==> ResizeTo(fields, current).value.y == current.y
    ensures "cols" in fields ==> fields["cols"] == JInt(ResizeTo(fields, current).value.x)
    ensures "rows" in fields ==> fields["rows"] == JInt(ResizeTo(fields, current).value.y)
  {
  }

  /** Two positive `int` dimensions that differ from the current size are applied as given. */
  lemma ResizeExact(fields: map<string, Json>, current: Vector, cols: int, rows: int)
    requires Get(fields, "cols") == JInt(cols) && Get(fields, "rows") == JInt(rows)
    requires IsInt32(cols) && IsInt32(rows) && cols > 0 && rows > 0
    requires Vector(cols, rows) != current
    ensures ResizeTo(fields, current) == Some(Vector(cols, rows))
  {
  }

  /** A dimension that is present but not an `Integer` (null, a string, a `Long`, ...) makes the resize a no-op. */
  lemma ResizeRejectsNonInteger(fields: map<string, Json>, current: Vector, key: string)
    requires key == "cols" || key == "rows"
    requires key in fields && IntegerValue(fields[key]).None?
    ensures ResizeTo(fields, current) == None
  {
  }

  /** The same resize message applied twice changes nothing the second time. */
  lemma ResizeIdempotent(fields: map<string, Json>, current: Vector)
    requires ResizeTo(fields, current).Some?
    ensures ResizeTo(fields, ResizeTo(fields, current).value) == None
  {
    ResizeApplied(fields, current);
  }

  /** Identifies the handler installed in the size handler slot. */
  type HandlerId = nat

  class HttpTtyConnection {
    const charset: Charset
    var size: Vector
    var sizeHandler: Option<HandlerId>
    /** Calls into the size handler, with the size given. */
    var sizeNotifications: seq<(HandlerId, Vector)>
    var lastAccessedTime: int
    /** Every byte array written to the decoder, in order. */
    var decoderInput: seq<seq<Byte>>

    /** The no-argument constructor: UTF-8 and 80 columns by 24 rows. */
    constructor Default(now: int)
      ensures charset == Utf8 && size == DEFAULT_SIZE && size == Vector(80, 24)
      ensures sizeHandler == None && sizeNotifications == [] && decoderInput == [] && lastAccessedTime == now
    {
      charset := Utf8;
      size := DEFAULT_SIZE;
      sizeHandler := None;
      sizeNotifications := [];
      lastAccessedTime := now;
      decoderInput := [];
    }

    constructor (charset: Charset, size: Vector, now: int)
      ensures this.charset == charset && this.size == size
      ensures sizeHandler == None && sizeNotifications == [] && decoderInput == [] && lastAccessedTime == now
    {
      this.charset := charset;
      this.size := size;
      sizeHandler := None;
      sizeNotifications := [];
      lastAccessedTime := now;
      decoderInput := [];
    }

    /** `inputCharset`: the one charset serves both directions. */
    function InputCharset(): (r: Charset)
      reads this
      ensures r == charset && r == OutputCharset()
    {
      charset
    }

    function OutputCharset(): (r: Charset)
      reads this
      ensures r == charset
    {
      charset
    }

    /** `terminalType`: always "vt100", whatever the client reports. */
    function TerminalType(): (r: JString)
      ensures r == VT100 && |r| == 5
    {
      VT100
    }

    method SetSizeHandler(handler: Option<HandlerId>)
      modifies this`sizeHandler
      ensures sizeHandler == handler
    {
      sizeHandler := handler;
    }

    /** `writeToDecoder(byte[])`: touches the access time and feeds the decoder. */
    method WriteBytesToDecoder(bytes: seq<Byte>, now: int)
      modifies this`lastAccessedTime, this`decoderInput
      ensures lastAccessedTime == now && decoderInput == old(decoderInput) + [bytes]
    {
      lastAccessedTime := now;
      decoderInput := decoderInput + [bytes];
    }

    /**
     * `writeToDecoder(String)`. `getBytes` is `String.getBytes()` in the
     * platform charset and `now` the clock. The flag says whether an
     * unchecked exception escapes: a null map, an action that is not a string, or a read
     * whose data is missing or not a string (after the access time is set).
     */
    method WriteToDecoder(msg: Message, now: int, getBytes: JString -> seq<Byte>) returns (raised: bool)
      modifies this`lastAccessedTime, this`decoderInput, this`size, this`sizeNotifications
      ensures msg.Malformed? ==> !raised && unchanged(this)
      ensures msg.NullMap? ==> raised && unchanged(this)
      ensures msg.Parsed? && BadAction(msg.fields) ==> raised && unchanged(this)
      ensures msg.Parsed? && !IsRead(msg.fields) && !IsResize(msg.fields) ==> unchanged(this)
      ensures msg.Parsed? && IsRead(msg.fields) ==>
        lastAccessedTime == now && size == old(size) && sizeNotifications == old(sizeNotifications) &&
        match Get(msg.fields, "data")
        case JStr(data) => !raised && decoderInput == old(decoderInput) + [getBytes(data)]
        case _ => raised && decoderInput == old(decoderInput)
      ensures msg.Parsed? && IsResize(msg.fields) ==>
        !raised && lastAccessedTime == old(lastAccessedTime) && decoderInput == old(decoderInput) &&
        match ResizeTo(msg.fields, old(size))
        case None => size == old(size) && sizeNotifications == old(sizeNotifications)
        case Some(v) =>
          size == v &&
          sizeNotifications == old(sizeNotifications) + (if sizeHandler.Some? then [(sizeHandler.value, v)] else [])
    {
      raised := false;
      if msg.Malformed? {
        return;
      }
      if msg.NullMap? {
        raised := true;
        return;
      }
      var fields := msg.fields;
      var action := Get(fields, "action");
      if !(action.JStr? || action.JNull?) {
        raised := true;
        return;
      }
      if action == JStr(READ) {
        lastAccessedTime := now;
        var data := Get(fields, "data");
        if data.JStr? {
          decoderInput := decoderInput + [getBytes(data.s)];
        } else {
          raised := true;
        }
      } else if action == JStr(RESIZE) {
        var cols := IntegerValue(GetOrDefault(fields, "cols", JInt(size.x)));
        if cols.None? {
          return;
        }
        var rows := IntegerValue(GetOrDefault(fields, "rows", JInt(size.y)));
        if rows.None? {
          return;
        }
        if cols.value > 0 && rows.value > 0 {
          var newSize := Vector(cols.value, rows.value);
          if newSize != size {
            size := newSize;
            if sizeHandler.Some? {
              sizeNotifications := sizeNotifications + [(sizeHandler.value, size)];
            }
          }
        }
      }
    }
  }
}
