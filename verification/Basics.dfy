/**
 * Vocabulary shared by every module: machine constants, status codes and bytes.
 */
module Basics {

  // 60-bit fixnums: [-(2^59), 2^59 - 1].
  const FIX_MIN: int := -0x800_0000_0000_0000
  const FIX_MAX: int := 0x7ff_ffff_ffff_ffff
  const INT64_MIN: int := -0x8000_0000_0000_0000
  const INT64_MAX: int := 0x7fff_ffff_ffff_ffff
  const SIZE_MAX: nat := 0xffff_ffff_ffff_ffff

  type Fixnum = n: int | FIX_MIN <= n <= FIX_MAX

  type Byte = b: int | 0 <= b < 256

  predicate FitsFixnum(n: int) {
    FIX_MIN <= n <= FIX_MAX
  }

  predicate FitsInt64(n: int) {
    INT64_MIN <= n <= INT64_MAX
  }

  // The status codes of the public header that the modelled code can return.
  datatype Status =
    | OK
    | InvalidArg
    | NoMem
    | ReadSyntax
    | ReadTruncated
    | ReadDepth
    | Unbound
    | TypeError
    | Arity
    | DivZero
    | Overflow
    | Syntax
    | EvalDepth
    | PrintDepth
    | EqualDepth

  // What a failing call returns.
  type Error = st: Status | st != OK witness NoMem
}
