// curve25519/boringssl/curve25519_64_msvc.h: the field operations for compilers without 128-bit
// integers. Every accumulator is a pair of 64-bit words added with explicit carries; the limbs
// that come out are proved to be those of the 128-bit version, so nothing is lost in the pairs.
module FiatMsvc {
  import opened Words
  import opened Bits
  import opened Field25519
  import opened Limbs51
  import Fiat64

  // A double word.
  datatype Wide = Wide(lo: uint64, hi: uint64)

  function Val(w: Wide): (v: uint128) { w.lo as uint128 + 0x1_0000_0000_0000_0000 * w.hi as uint128 }

  // fiat_25519_mulx_u64
  function MulX64(a: uint64, b: uint64): (r: Wide)
    ensures Val(r) == WideMul(a, b)
  {
    var p := WideMul(a, b);
    Wide((p % 0x1_0000_0000_0000_0000) as uint64, (p / 0x1_0000_0000_0000_0000) as uint64)
  }

  // fiat_25519_addcarryx_u64 in portable C: two wrapping additions, each checked by a comparison.
  function AddCarryX64(arg1: uint8, arg2: uint64, arg3: uint64): (out: (uint64, uint8))
    requires arg1 <= 1
    ensures out.1 <= 1
    ensures out.0 as int + 0x1_0000_0000_0000_0000 * out.1 as int == arg1 as int + arg2 as int + arg3 as int
  {
    var s2 := WrapAdd(arg2, arg1 as uint64);
    var c1: uint8 := if s2 < arg1 as uint64 then 1 else 0;
    var s3 := WrapAdd(arg3, s2);
    (s3, c1 + (if s3 < s2 then 1 else 0))
  }

  function WrapAdd(a: uint64, b: uint64): (s: uint64)
    ensures s as int == a as int + b as int || s as int == a as int + b as int - 0x1_0000_0000_0000_0000
  {
    ((a as int + b as int) % 0x1_0000_0000_0000_0000) as uint64
  }

  // Two double words added; the carry out of the high words is dropped because it is zero.
  function AddWide(x: Wide, y: Wide): (r: Wide)
    requires Val(x) as int + Val(y) as int < 0x1_0000_0000_0000_0000_0000_0000_0000_0000
    ensures Val(r) == Val(x) + Val(y)
  {
    var low := AddCarryX64(0, x.lo, y.lo);
    var high := AddCarryX64(low.1, x.hi, y.hi);
    Wide(low.0, high.0)
  }

  // A single word added to a double word: the carry goes into the high word.
  function AddWord(c: uint64, x: Wide): (r: Wide)
    requires Val(x) as int + c as int < 0x1_0000_0000_0000_0000_0000_0000_0000_0000
    ensures Val(r) == c as uint128 + Val(x)
  {
    var low := AddCarryX64(0, c, x.lo);
    Wide(low.0, low.1 as uint64 + x.hi)
  }

  // (lo >> 51) | ((hi << 13) & 0xffffffffffffffff)
  function ShiftRight51(w: Wide): (c: uint64)
    requires Val(w) < 0x8_0000_0000_0000_0000_0000_0000_0000
    ensures c == High51(Val(w))
  {
    JoinedShift(w.lo as int, w.hi as int);
    hide Or, Shl, Shr;
    Or(Shr(w.lo as int, 51), Shl(w.hi as int, 13) % 0x1_0000_0000_0000_0000) as uint64
  }

  lemma JoinedShift(lo: nat, hi: nat)
    requires lo < 0x1_0000_0000_0000_0000 && hi < 0x8_0000_0000_0000
    ensures Or(Shr(lo, 51), Shl(hi, 13) % 0x1_0000_0000_0000_0000)
      == (lo + 0x1_0000_0000_0000_0000 * hi) / 0x8000000000000 < 0x1_0000_0000_0000_0000
  {
    hide Or;
    Powers();
    var h := lo / 0x8000000000000;
    DivModUnique(lo + 0x1_0000_0000_0000_0000 * hi, 0x8000000000000, h + 0x2000 * hi, lo % 0x8000000000000);
    OrDisjoint(h, hi, 13);
    OrCommutes(h, hi * 0x2000);
  }

  lemma Powers()
    ensures Pow2(13) == 0x2000 && Pow2(51) == 0x8000000000000
  {
    Pow2Values();
    SmallPow2();
    Pow2Add(8, 5);
    Pow2Add(32, 16);
    Pow2Add(48, 3);
  }

  function Mask51Low(w: Wide): (l: uint64)
    ensures l == Low51(Val(w))
  {
    w.lo % 0x8000000000000
  }

  // The common tail of carry_mul and carry_square.
  function CarriedPairs(t0: Wide, t1: Wide, t2: Wide, t3: Wide, t4: Wide): (out1: Fiat64.Fe)
    requires Val(t0) <= Fiat64.COLUMN && Val(t1) <= Fiat64.COLUMN && Val(t2) <= Fiat64.COLUMN
      && Val(t3) <= Fiat64.COLUMN
    requires Val(t4) <= Fiat64.TOP_COLUMN
  {
    hide Val, Low51, High51, Eval, Fiat64.Value, Fiat64.Residue, Fiat64.Tight, Fiat64.FoldTop, ShiftRight51,
      Mask51Low, AddWord;
    var x67 := ShiftRight51(t0);
    var x68 := Mask51Low(t0);
    var x133 := AddWord(x67, t1);
    var x136 := ShiftRight51(x133);
    var x137 := Mask51Low(x133);
    var x138 := AddWord(x136, t2);
    var x141 := ShiftRight51(x138);
    var x142 := Mask51Low(x138);
    var x143 := AddWord(x141, t3);
    var x146 := ShiftRight51(x143);
    var x147 := Mask51Low(x143);
    var x148 := AddWord(x146, t4);
    var x151 := ShiftRight51(x148);
    var x152 := Mask51Low(x148);
    Fiat64.FoldTop(x68, x151, x137, x142, x147, x152)
  }

  lemma CarriedPairsAgree(t0: Wide, t1: Wide, t2: Wide, t3: Wide, t4: Wide)
    requires Val(t0) <= Fiat64.COLUMN && Val(t1) <= Fiat64.COLUMN && Val(t2) <= Fiat64.COLUMN
      && Val(t3) <= Fiat64.COLUMN
    requires Val(t4) <= Fiat64.TOP_COLUMN
    ensures CarriedPairs(t0, t1, t2, t3, t4) == Fiat64.Carried(Val(t0), Val(t1), Val(t2), Val(t3), Val(t4))
  {
    hide Val, Low51, High51, Eval, Fiat64.Value, Fiat64.Residue, Fiat64.Tight, Fiat64.FoldTop,
      ShiftRight51, Mask51Low, AddWord;
  }

  // A double-word product is the 128-bit one.
  function Product(a: uint64, b: uint64, mb: uint64, ghost m: int): (r: Wide)
    requires a <= Fiat64.LOOSE && b <= Fiat64.LOOSE && 0 <= m <= 38 && mb as int == m * b as int
    ensures Val(r) == Fiat64.Product(a, b, mb, m) && Val(r) as int <= m * Fiat64.PRODUCT as int
  {
    hide Val;
    MulX64(a, mb)
  }

  function CarryMul(arg1: Fiat64.Fe, arg2: Fiat64.Fe): (out1: Fiat64.Fe)
    requires Fiat64.Loose(arg1) && Fiat64.Loose(arg2)
  {
    hide Val, Eval, Product, Fiat64.Product, AddWide, CarriedPairs, Times, WideMul;
    var Fe(a0, a1, a2, a3, a4) := arg1;
    var Fe(b0, b1, b2, b3, b4) := arg2;
    var x1 := Product(a4, b4, b4 * 0x13, 19);
    var x3 := Product(a4, b3, b3 * 0x13, 19);
    var x5 := Product(a4, b2, b2 * 0x13, 19);
    var x7 := Product(a4, b1, b1 * 0x13, 19);
    var x9 := Product(a3, b4, b4 * 0x13, 19);
    var x11 := Product(a3, b3, b3 * 0x13, 19);
    var x13 := Product(a3, b2, b2 * 0x13, 19);
    var x15 := Product(a2, b4, b4 * 0x13, 19);
    var x17 := Product(a2, b3, b3 * 0x13, 19);
    var x19 := Product(a1, b4, b4 * 0x13, 19);
    var x21 := Product(a4, b0, b0, 1);
    var x23 := Product(a3, b1, b1, 1);
    var x25 := Product(a3, b0, b0, 1);
    var x27 := Product(a2, b2, b2, 1);
    var x29 := Product(a2, b1, b1, 1);
    var x31 := Product(a2, b0, b0, 1);
    var x33 := Product(a1, b3, b3, 1);
    var x35 := Product(a1, b2, b2, 1);
    var x37 := Product(a1, b1, b1, 1);
    var x39 := Product(a1, b0, b0, 1);
    var x41 := Product(a0, b4, b4, 1);
    var x43 := Product(a0, b3, b3, 1);
    var x45 := Product(a0, b2, b2, 1);
    var x47 := Product(a0, b1, b1, 1);
    var x49 := Product(a0, b0, b0, 1);
    var x63 := AddWide(x49, AddWide(x19, AddWide(x17, AddWide(x13, x7))));
    var x81 := AddWide(x41, AddWide(x33, AddWide(x27, AddWide(x23, x21))));
    var x97 := AddWide(x43, AddWide(x35, AddWide(x29, AddWide(x25, x1))));
    var x113 := AddWide(x45, AddWide(x37, AddWide(x31, AddWide(x9, x3))));
    var x129 := AddWide(x47, AddWide(x39, AddWide(x15, AddWide(x11, x5))));
    CarriedPairs(x63, x129, x113, x97, x81)
  }

  // Limb for limb the product of the 128-bit version.
  lemma CarryMulAgrees(arg1: Fiat64.Fe, arg2: Fiat64.Fe)
    requires Fiat64.Loose(arg1) && Fiat64.Loose(arg2)
    ensures CarryMul(arg1, arg2) == Fiat64.CarryMul(arg1, arg2)
  {
    hide Val, Eval, Product, Fiat64.Product, AddWide, CarriedPairs, Fiat64.Carried, Fiat64.Residue, Times, WideMul;
    var Fe(a0, a1, a2, a3, a4) := arg1;
    var Fe(b0, b1, b2, b3, b4) := arg2;
    CarriedPairsAgree(
      AddWide(Product(a0, b0, b0, 1), AddWide(Product(a1, b4, b4 * 0x13, 19), AddWide(Product(a2, b3, b3 * 0x13, 19),
        AddWide(Product(a3, b2, b2 * 0x13, 19), Product(a4, b1, b1 * 0x13, 19))))),
      AddWide(Product(a0, b1, b1, 1), AddWide(Product(a1, b0, b0, 1), AddWide(Product(a2, b4, b4 * 0x13, 19),
        AddWide(Product(a3, b3, b3 * 0x13, 19), Product(a4, b2, b2 * 0x13, 19))))),
      AddWide(Product(a0, b2, b2, 1), AddWide(Product(a1, b1, b1, 1), AddWide(Product(a2, b0, b0, 1),
        AddWide(Product(a3, b4, b4 * 0x13, 19), Product(a4, b3, b3 * 0x13, 19))))),
      AddWide(Product(a0, b3, b3, 1), AddWide(Product(a1, b2, b2, 1), AddWide(Product(a2, b1, b1, 1),
        AddWide(Product(a3, b0, b0, 1), Product(a4, b4, b4 * 0x13, 19))))),
      AddWide(Product(a0, b4, b4, 1), AddWide(Product(a1, b3, b3, 1), AddWide(Product(a2, b2, b2, 1),
        AddWide(Product(a3, b1, b1, 1), Product(a4, b0, b0, 1))))));
  }

  function CarrySquare(arg1: Fiat64.Fe): (out1: Fiat64.Fe)
    requires Fiat64.Loose(arg1)
  {
    hide Val, Eval, Product, Fiat64.Product, AddWide, CarriedPairs, Times, WideMul;
    var Fe(a0, a1, a2, a3, a4) := arg1;
    var x1 := a4 * 0x13;
    var x2 := x1 * 2;
    var x3 := a4 * 2;
    var x4 := a3 * 0x13;
    var x5 := x4 * 2;
    var x6 := a3 * 2;
    var x7 := a2 * 2;
    var x8 := a1 * 2;
    var x9 := Product(a4, a4, x1, 19);
    var x11 := Product(a3, a4, x2, 38);
    var x13 := Product(a3, a3, x4, 19);
    var x15 := Product(a2, a4, x2, 38);
    var x17 := Product(a2, a3, x5, 38);
    var x19 := Product(a2, a2, a2, 1);
    var x21 := Product(a1, a4, x2, 38);
    var x23 := Product(a1, a3, x6, 2);
    var x25 := Product(a1, a2, x7, 2);
    var x27 := Product(a1, a1, a1, 1);
    var x29 := Product(a0, a4, x3, 2);
    var x31 := Product(a0, a3, x6, 2);
    var x33 := Product(a0, a2, x7, 2);
    var x35 := Product(a0, a1, x8, 2);
    var x37 := Product(a0, a0, a0, 1);
    var x43 := AddWide(x37, AddWide(x21, x17));
    var x53 := AddWide(x29, AddWide(x23, x19));
    var x61 := AddWide(x31, AddWide(x25, x9));
    var x69 := AddWide(x33, AddWide(x27, x11));
    var x77 := AddWide(x35, AddWide(x15, x13));
    CarriedPairs(x43, x77, x69, x61, x53)
  }

  lemma CarrySquareAgrees(arg1: Fiat64.Fe)
    requires Fiat64.Loose(arg1)
    ensures CarrySquare(arg1) == Fiat64.CarrySquare(arg1) == CarryMul(arg1, arg1)
  {
    hide Val, Eval, Product, Fiat64.Product, AddWide, CarriedPairs, Fiat64.Carried, Fiat64.Residue, Times, WideMul,
      CarryMul, Fiat64.CarryMul;
    var Fe(a0, a1, a2, a3, a4) := arg1;
    CarryMulAgrees(arg1, arg1);
    Fiat64.SquareIsProduct(arg1);
    CarriedPairsAgree(
      AddWide(Product(a0, a0, a0, 1), AddWide(Product(a1, a4, a4 * 0x13 * 2, 38), Product(a2, a3, a3 * 0x13 * 2, 38))),
      AddWide(Product(a0, a1, a1 * 2, 2), AddWide(Product(a2, a4, a4 * 0x13 * 2, 38), Product(a3, a3, a3 * 0x13, 19))),
      AddWide(Product(a0, a2, a2 * 2, 2), AddWide(Product(a1, a1, a1, 1), Product(a3, a4, a4 * 0x13 * 2, 38))),
      AddWide(Product(a0, a3, a3 * 2, 2), AddWide(Product(a1, a2, a2 * 2, 2), Product(a4, a4, a4 * 0x13, 19))),
      AddWide(Product(a0, a4, a4 * 2, 2), AddWide(Product(a1, a3, a3 * 2, 2), Product(a2, a2, a2, 1))));
  }

  // mulx by 0x1db42
  function Scaled(x: uint64): (r: Wide)
    requires x <= Fiat64.LOOSE
    ensures Val(r) == Fiat64.Scaled(x)
  {
    hide Val;
    MulX64(0x1db42, x)
  }

  function CarryScmul121666(arg1: Fiat64.Fe): (out1: Fiat64.Fe)
    requires Fiat64.Loose(arg1)
  {
    hide Val, Low51, High51, ShiftRight51, Mask51Low, AddWord, Scaled, Fiat64.Scaled;
    var x1, x3, x5 := Scaled(arg1.l4), Scaled(arg1.l3), Scaled(arg1.l2);
    var x7, x9 := Scaled(arg1.l1), Scaled(arg1.l0);
    var x11 := ShiftRight51(x9);
    var x12 := Mask51Low(x9);
    var x13 := AddWord(x11, x7);
    var x16 := ShiftRight51(x13);
    var x17 := Mask51Low(x13);
    var x18 := AddWord(x16, x5);
    var x21 := ShiftRight51(x18);
    var x22 := Mask51Low(x18);
    var x23 := AddWord(x21, x3);
    var x26 := ShiftRight51(x23);
    var x27 := Mask51Low(x23);
    var x28 := AddWord(x26, x1);
    var x31 := ShiftRight51(x28);
    var x32 := Mask51Low(x28);
    Fiat64.FoldTop(x12, x31, x17, x22, x27, x32)
  }

  lemma CarryScmulAgrees(arg1: Fiat64.Fe)
    requires Fiat64.Loose(arg1)
    ensures CarryScmul121666(arg1) == Fiat64.CarryScmul121666(arg1)
  {
    hide Val, Low51, High51, Eval, Fiat64.Value, Fiat64.Residue, Fiat64.Tight, Fiat64.FoldTop,
      ShiftRight51, Mask51Low, AddWord, Scaled, Fiat64.Scaled, Mul;
  }

  // What the pairs compute in the field, for every loose argument.
  lemma PairsMultiply(arg1: Fiat64.Fe, arg2: Fiat64.Fe)
    requires Fiat64.Loose(arg1) && Fiat64.Loose(arg2)
    ensures Fiat64.Tight(CarryMul(arg1, arg2))
    ensures Fiat64.Residue(CarryMul(arg1, arg2)) == Mul(Fiat64.Residue(arg1), Fiat64.Residue(arg2))
  {
    hide CarryMul, Fiat64.CarryMul, Fiat64.Residue, Fiat64.Tight, Mul;
    CarryMulAgrees(arg1, arg2);
  }
}
