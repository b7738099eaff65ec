/** Small shared vocabulary. */
module Prelude {
  datatype Option<+T> = None | Some(value: T)

  const U64_LIMIT: nat := 0x1_0000_0000_0000_0000

  /** The machine's unsigned 64-bit integers. */
  type U64 = x: nat | x < U64_LIMIT

  type U32 = x: nat | x < 0x1_0000_0000

  type Byte = bv8

  function Min(a: int, b: int): int {
    if a <= b then a else b
  }

  /** `s` with the one element at `k` taken out. */
  function Drop<T>(s: seq<T>, k: nat): seq<T>
    requires k < |s|
  {
    s[..k] + s[k + 1..]
  }

  datatype Rect = Rect(x: int, y: int, w: int, h: int)

  predicate Inside(r: Rect, px: int, py: int) {
    r.x <= px < r.x + r.w && r.y <= py < r.y + r.h
  }
}
