/** Value types shared by every part of the model. */
module Types {

  /** A Java `byte`, taken unsigned: the Java value -1 is 0xFF. */
  type Byte = b: int | 0 <= b < 0x100

  /** A Java `char`: one UTF-16 code unit, surrogates included. */
  type CodeUnit = u: int | 0 <= u < 0x1_0000

  /** A Java `String`: a sequence of UTF-16 code units. */
  type JString = seq<CodeUnit>

  /** A Java `int`. */
  predicate IsInt32(n: int) {
    -0x8000_0000 <= n < 0x8000_0000
  }

  datatype Option<+T> = None | Some(value: T)

  datatype Result<+T, +E> = Ok(value: T) | Err(error: E)

  /** A `java.nio.charset.Charset`: the ones the model names, or any other by name. */
  datatype Charset = UsAscii | Utf8 | TelnetCharset | Named(name: string)

  /** A column/row pair, the `Vector` of the terminal API. */
  datatype Vector = Vector(x: int, y: int)

  /** Java's `/` on `int`, which truncates toward zero (Dafny's `/` is Euclidean). */
  function JavaDiv(a: int, b: int): (q: int)
    requires b > 0
    ensures q >= 1 <==> a >= b
  {
    if a >= 0 then a / b else -((-a) / b)
  }
}
