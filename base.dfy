/** Shared vocabulary of the model: bytes, the ASCII bytes the engine
    writes, an Option type, and the output sink that stands for Go's
    io.Writer. */
module Base {

  /** A Go byte. Go strings and []byte are both sequences of these. */
  type byte = x: int | 0 <= x < 256

  datatype Option<+T> = None | Some(value: T)

  const QUOTE: byte := 0x22      // "
  const BACKSLASH: byte := 0x5C  // \
  const COMMA: byte := 0x2C      // ,
  const COLON: byte := 0x3A      // :
  const LBRACKET: byte := 0x5B   // [
  const RBRACKET: byte := 0x5D   // ]
  const LBRACE: byte := 0x7B     // {
  const RBRACE: byte := 0x7D     // }
  const MINUS: byte := 0x2D      // -
  const PLUS: byte := 0x2B       // +
  const DIGIT0: byte := 0x30     // 0
  const LOWER_E: byte := 0x65    // e
  const LOWER_U: byte := 0x75    // u
  const LT: byte := 0x3C         // <
  const GT: byte := 0x3E         // >
  const AMP: byte := 0x26        // &

  /** The bytes of the literal `null`. */
  const NULL: seq<byte> := [0x6E, 0x75, 0x6C, 0x6C]
  const TRUE: seq<byte> := [0x74, 0x72, 0x75, 0x65]
  const FALSE: seq<byte> := [0x66, 0x61, 0x6C, 0x73, 0x65]

  predicate IsDigit(b: byte) {
    DIGIT0 <= b <= DIGIT0 + 9
  }

  /** The table `hex = "0123456789abcdef"`. */
  const HEX: seq<byte> := [0x30, 0x31, 0x32, 0x33, 0x34, 0x35, 0x36, 0x37, 0x38, 0x39, 0x61, 0x62, 0x63, 0x64, 0x65, 0x66]

  /** The lower-case hexadecimal digit of a nibble, computed from its value:
      it is the entry of the `hex` table for that nibble. */
  function HexDigit(x: int): (b: byte)
    requires 0 <= x < 16
    ensures |HEX| == 16 && b == HEX[x]
  {
    if x < 10 then DIGIT0 + x else 0x61 + (x - 10)
  }

  /** An append-only byte sink: the io.Writer every encoder writes to.
      Writes never fail in this model. */
  class Sink {
    var bytes: seq<byte>

    constructor ()
      ensures bytes == []
    {
      bytes := [];
    }

    method Write(p: seq<byte>)
      modifies this
      ensures bytes == old(bytes) + p
    {
      bytes := bytes + p;
    }
  }
}
