/** Shared vocabulary: optional values, results, and the machine integer ranges the connector meets. */
module Prelude {

  datatype Option<+T> = None | Some(value: T)

  datatype Result<+T, +E> = Ok(value: T) | Err(error: E)

  const TWO_TO_THE_63: int := 0x8000_0000_0000_0000
  const TWO_TO_THE_64: int := 0x1_0000_0000_0000_0000

  type I32 = n: int | -0x8000_0000 <= n < 0x8000_0000
  type I64 = n: int | -TWO_TO_THE_63 <= n < TWO_TO_THE_63

  function Min(a: int, b: int): int {
    if a <= b then a else b
  }

  function Max(a: int, b: int): int {
    if a >= b then a else b
  }

  lemma Regroup<T>(front: seq<T>, x: T, back: seq<T>)
    ensures front + ([x] + back) == (front + [x]) + back
  {
  }
}
