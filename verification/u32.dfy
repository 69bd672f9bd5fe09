/** The `u32` arithmetic of the compositor, with the checks a Rust debug
    build performs: an overflowing product, an underflowing difference and
    a division by zero each stop the program, modelled as an `Error`. The
    same `Error` type also names the one other panic of `process`, a
    `get_pixel` outside the image. */
module U32 {
  import opened Raster

  /** Why `process` stops without producing an image. */
  datatype Error =
    | MultiplyOverflow    // `u32` product above `U32_MAX`
    | DivideByZero        // integer division by a zero dimension
    | SubtractUnderflow   // `u32` difference below zero
    | SampleOutOfBounds   // `get_pixel` outside the scaled parasite

  datatype Result<T> = Ok(value: T) | Err(error: Error)

  /** `a * b` on `u32`. */
  function Mul(a: nat, b: nat): (r: Result<nat>)
    requires a <= U32_MAX && b <= U32_MAX
    ensures r.Ok? <==> a * b <= U32_MAX
    ensures r.Ok? ==> r.value == a * b
    ensures r.Err? ==> r.error == MultiplyOverflow
  {
    if a * b <= U32_MAX then Ok(a * b) else Err(MultiplyOverflow)
  }

  /** `a / b` on `u32`: floor division, refused for `b == 0`. */
  function Div(a: nat, b: nat): (r: Result<nat>)
    requires a <= U32_MAX && b <= U32_MAX
    ensures r.Ok? <==> b > 0
    ensures r.Ok? ==> r.value * b <= a < (r.value + 1) * b && r.value <= a
    ensures r.Err? ==> r.error == DivideByZero
  {
    if b == 0 then Err(DivideByZero)
    else
      var q := a / b;
      assert q * b + a % b == a && 0 <= a % b < b;
      assert (q + 1) * b == q * b + b;
      Ok(q)
  }

  /** `a - b` on `u32`, refused when `b > a`. */
  function Sub(a: nat, b: nat): (r: Result<nat>)
    requires a <= U32_MAX && b <= U32_MAX
    ensures r.Ok? <==> b <= a
    ensures r.Ok? ==> r.value + b == a
    ensures r.Err? ==> r.error == SubtractUnderflow
  {
    if b <= a then Ok(a - b) else Err(SubtractUnderflow)
  }
}
