// Fixed-width machine words. Each operator on one of these types carries a proof
// obligation that its exact result fits, so a member written with them is proved free of
// wrap-around; where the C code relies on wrap-around the model writes the `%` out.
module Words {
  newtype uint8 = x: int | 0 <= x < 0x100
  newtype uint16 = x: int | 0 <= x < 0x10000
  newtype uint32 = x: int | 0 <= x < 0x1_0000_0000
  newtype uint64 = x: int | 0 <= x < 0x1_0000_0000_0000_0000
  newtype uint128 = x: int | 0 <= x < 0x1_0000_0000_0000_0000_0000_0000_0000_0000
  newtype int8 = x: int | -0x80 <= x < 0x80
  newtype int64 = x: int | -0x8000_0000_0000_0000 <= x < 0x8000_0000_0000_0000

  lemma ProductBound(a: int, b: int, x: int, y: int)
    requires 0 <= a <= x && 0 <= b <= y
    ensures 0 <= a * b <= x * y
  {
  }

  // The product under a name, so that a proof can treat it as one unknown.
  function Times(a: int, b: int): int { a * b }

  // The C expression (uint128_t) a * b, which never overflows.
  function WideMul(a: uint64, b: uint64): (r: uint128)
    ensures r as int == Times(a as int, b as int)
  {
    ProductBound(a as int, b as int, 0xffff_ffff_ffff_ffff, 0xffff_ffff_ffff_ffff);
    a as uint128 * b as uint128
  }

  lemma WideMulBound(a: uint64, b: uint64, x: int, y: int)
    requires a as int <= x && b as int <= y
    ensures WideMul(a, b) as int <= x * y
  {
    ProductBound(a as int, b as int, x, y);
  }

  // t & 0x7ffffffffffff
  function Low51(t: uint128): (r: uint64)
    ensures r < 0x8000000000000
  {
    (t % 0x8000000000000) as uint64
  }

  // (uint64_t) (t >> 51), where the cast loses no bit.
  function High51(t: uint128): (c: uint64)
    requires t < 0x8_0000_0000_0000_0000_0000_0000_0000
    ensures t as int == Low51(t) as int + 0x8000000000000 * c as int
  {
    (t / 0x8000000000000) as uint64
  }

  // t & 0x7ffffffffffff and t >> 51 on 128-bit words.
  function Mask51(t: uint128): (r: uint128)
    ensures r < 0x8000000000000
  {
    t % 0x8000000000000
  }

  function Shr51(t: uint128): (r: uint128)
    ensures t as int == Mask51(t) as int + 0x8000000000000 * r as int
  {
    t / 0x8000000000000
  }
}
