/** Values shared by every component: bytes, failure types and ids. */
module Types {

  /** One byte of a file, a record or a std::string. */
  type byte = b: int | 0 <= b < 256

  /** A std::string: any byte sequence. */
  type Str = seq<byte>

  /** A 32-bit pattern; the stored bits of a float. */
  type Float = x: int | 0 <= x < 0x1_0000_0000

  /** A vector as the caller or the arena holds it. */
  type Vector = seq<Float>

  /** A distance: any totally ordered value, smaller is closer. */
  type Score = real

  const U32_LIMIT: int := 0x1_0000_0000
  const U64_LIMIT: int := 0x1_0000_0000_0000_0000

  datatype Option<+T> = None | Some(value: T)

  /** A returned value, or the exception the source throws. */
  datatype Result<+T> = Ok(value: T) | Err(error: Error) {
    predicate IsFailure() { Err? }

    function PropagateFailure<U>(): Result<U>
      requires Err?
    {
      Err(error)
    }

    function Extract(): T
      requires Ok?
    {
      value
    }
  }

  datatype Error =
    | Truncated        // decode_op: truncated record
    | BadOpType        // decode_op: unknown op type
    | BadValueType     // decode_op: unknown metadata value type
    | BadDimension     // dimensionality mismatch

  /** The two's complement integers and the raw doubles of metadata values. */
  type Int64 = x: int | -0x8000_0000_0000_0000 <= x < 0x8000_0000_0000_0000
  type Double = x: int | 0 <= x < 0x1_0000_0000_0000_0000

  datatype MetaValue =
    | IntValue(i: Int64)
    | DoubleValue(d: Double)
    | StrValue(s: Str)
    | BoolValue(b: bool)

  type Metadata = map<Str, MetaValue>

  datatype OpKind = Insert | Update | Delete

  /** A logical mutation (include/toyvdb/vector_store.hpp, struct Op). */
  datatype Op = Op(kind: OpKind, ext: Str, vec: Vector, meta: Option<Metadata>)
}
