/** Values shared by the codec, the initiator path and the responder path. */
module Common {

  /** One octet on the wire. */
  type Byte = x: int | 0 <= x < 256

  /** A Python `bytes` value (and, for topics, the UTF-8 encoding of a `str`). */
  type Bytes = seq<Byte>

  datatype Option<+T> = None | Some(value: T)

  /** The Python exceptions the core can raise or catch. */
  datatype Exception =
    | IndexError          // `b[0]` on an empty `bytes`, `list.pop(0)` on an empty list
    | UnicodeDecodeError  // `bytes.decode()` on bytes that are not well-formed UTF-8
    | OverflowError       // `int.to_bytes(1, ...)` of a value above 255
    | OSError             // a failed socket or file-descriptor operation

  /** A Python computation that either returns a value or raises. */
  datatype Result<+T> = Success(value: T) | Failure(error: Exception)

  function Min(a: int, b: int): int
  {
    if a <= b then a else b
  }

  /** `b[0:n]` in Python: at most `n` bytes, fewer when `b` is shorter. */
  function Take(b: Bytes, n: nat): Bytes
  {
    b[..Min(n, |b|)]
  }

  /** `b[n:]` in Python: empty when `b` has `n` bytes or fewer. */
  function Drop(b: Bytes, n: nat): Bytes
  {
    b[Min(n, |b|)..]
  }
}
