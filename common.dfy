/** Types shared by every part of the interpreter (include/common.h). */
module Common {
  /** `u8`: one byte of bytecode or a constant index. */
  type Byte = x: int | 0 <= x < 256

  /** `u32`: an unsigned 32-bit integer, such as a string hash. */
  type U32 = x: int | 0 <= x < 0x1_0000_0000

  /** A result that may be absent (a NULL result or a `false` return in the source). */
  datatype Option<T> = None | Some(value: T)

  /** Sequence concatenation regroups freely; proofs call this where the verifier would not. */
  lemma Associative<T>(a: seq<T>, b: seq<T>, c: seq<T>)
    ensures a + b + c == a + (b + c)
  {
  }
}
