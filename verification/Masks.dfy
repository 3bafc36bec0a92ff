// Exchanging two 64-bit words under a mask, as the branch-free conditional swaps do.
module Masks {
  import opened Words
  import opened Bits

  function And64(a: uint64, b: uint64): (r: uint64) {
    AndBound(a as int, b as int);
    And(a as int, b as int) as uint64
  }

  function Xor64(a: uint64, b: uint64): (r: uint64) {
    Pow2Values();
    XorBound(a as int, b as int, 64);
    Xor(a as int, b as int) as uint64
  }

  // -iswap in 64 bits.
  function SwapMask(iswap: uint64): uint64 {
    if iswap == 0 then 0 else (0x1_0000_0000_0000_0000 - iswap as int) as uint64
  }

  // The new values of one pair of limbs.
  function SwapLimbs(iswap: uint64, a: uint64, b: uint64): (uint64, uint64) {
    var x := And64(SwapMask(iswap), Xor64(a, b));
    (Xor64(a, x), Xor64(b, x))
  }

  lemma SwapByMask(iswap: uint64, a: uint64, b: uint64)
    requires iswap <= 1
    ensures SwapLimbs(iswap, a, b) == if iswap == 1 then (b, a) else (a, b)
  {
    var y := Xor64(a, b);
    Pow2Values();
    AndAllOnes(y as int, 64);
    XorCancels(a as int, b as int);
    XorCommutes(a as int, b as int);
    XorCancels(b as int, a as int);
  }

  // The masks exchange every pair of limbs for no other non-zero value than 1, although the
  // comment on swap_conditional promises a swap whenever iswap is non-zero.
  lemma SwapsIffOne(iswap: uint64)
    ensures iswap == 1 <==> forall a, b :: SwapLimbs(iswap, a, b) == (b, a)
  {
    if iswap == 1 {
      forall a, b ensures SwapLimbs(iswap, a, b) == (b, a) {
        SwapByMask(iswap, a, b);
      }
    } else {
      var ones: uint64 := 0xffff_ffff_ffff_ffff;
      Pow2Values();
      assert Xor64(ones, 0) == ones;
      AndAllOnes(SwapMask(iswap) as int, 64);
      assert SwapLimbs(iswap, ones, 0).1 == SwapMask(iswap) != ones;
    }
  }

  // fe_cswap masks the difference with the operands of the and the other way round.
  function CSwapLimbs(b: uint64, f: uint64, g: uint64): (uint64, uint64) {
    var x := And64(Xor64(f, g), SwapMask(b));
    (Xor64(f, x), Xor64(g, x))
  }

  lemma CSwapByMask(b: uint64, f: uint64, g: uint64)
    requires b <= 1
    ensures CSwapLimbs(b, f, g) == if b == 1 then (g, f) else (f, g)
  {
    AndCommutes(Xor64(f, g) as int, SwapMask(b) as int);
    SwapByMask(b, f, g);
  }

  // fiat_25519_cmovznz_u64: arg2 if arg1 is 0, otherwise arg3.
  function CMovZnz(arg1: uint64, arg2: uint64, arg3: uint64): (r: uint64)
    requires arg1 <= 1
    ensures r == if arg1 == 0 then arg2 else arg3
  {
    Pow2Values();
    AndAllOnes(arg2 as int, 64);
    AndAllOnes(arg3 as int, 64);
    var x2 := SwapMask(arg1);
    var inverted := 0xffff_ffff_ffff_ffff - x2;
    var x3 := Or(And64(x2, arg3) as int, And64(inverted, arg2) as int);
    x3 as uint64
  }
}
