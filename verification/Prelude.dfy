/** Result types, bytes and fixed-width integers shared by the models. */
module Prelude {
  type byte = x: int | 0 <= x < 256
  const U64_SIZE: int := 0x1_0000_0000_0000_0000
  type u64 = x: int | 0 <= x < U64_SIZE

  datatype Option<+T> = None | Some(value: T)
  datatype Result<+T, +E> = Ok(value: T) | Err(error: E)

  function Min(a: int, b: int): (r: int)
    ensures r <= a && r <= b && (r == a || r == b)
  {
    if a < b then a else b
  }
}
