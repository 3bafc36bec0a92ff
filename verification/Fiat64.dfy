// curve25519/boringssl/curve25519_64.h: the generated field operations, straight-line code on five
// 51-bit limbs with 128-bit accumulators. Temporaries keep their names from the source.
module Fiat64 {
  import opened Words
  import opened Bits
  import opened Field25519
  import opened Bytes
  import opened Limbs51
  import opened Masks

  datatype Fe = Fe(l0: uint64, l1: uint64, l2: uint64, l3: uint64, l4: uint64)

  const TIGHT: uint64 := 0x8000000000000
  const LOOSE: uint64 := 0x18000000000000

  predicate Bounded(a: Fe, bound: uint64) {
    a.l0 <= bound && a.l1 <= bound && a.l2 <= bound && a.l3 <= bound && a.l4 <= bound
  }

  predicate Tight(a: Fe) { Bounded(a, TIGHT) }

  predicate Loose(a: Fe) { Bounded(a, LOOSE) }

  function Value(a: Fe): int {
    Eval(a.l0 as int, a.l1 as int, a.l2 as int, a.l3 as int, a.l4 as int)
  }

  // The field element that the limbs stand for.
  function Residue(a: Fe): int { Value(a) % P }

  const PRODUCT: uint128 := 0x240_0000_0000_0000_0000_0000_0000

  // (uint128) a * (m * b): the factor m is folded into the second operand before the product.
  function Product(a: uint64, b: uint64, mb: uint64, ghost m: int): (r: uint128)
    requires a <= LOOSE && b <= LOOSE && 0 <= m <= 38 && mb as int == m * b as int
    ensures r as int == m * Times(a as int, b as int) && r as int <= m * PRODUCT as int
  {
    FoldedProduct(m, a as int, b as int);
    WideMul(a, mb)
  }

  lemma FoldedProduct(m: int, x: int, y: int)
    requires 0 <= m && 0 <= x <= LOOSE as int && 0 <= y <= LOOSE as int
    ensures Times(x, m * y) == m * Times(x, y) <= m * PRODUCT as int
  {
    ProductBound(x, y, LOOSE as int, LOOSE as int);
    MulMonotone(m, x * y, PRODUCT as int);
  }

  // Bounds of the columns of a product of loose limbs.
  const COLUMN: uint128 := 0xad40_0000_0000_0000_0000_0000_0000
  const TOP_COLUMN: uint128 := 0xb40_0000_0000_0000_0000_0000_0000

  // The last carries of every operation: 19 times what stands above 2^255 goes to the lowest limb
  // and two more carries follow.
  function FoldTop(l0: uint64, c: uint64, l1: uint64, l2: uint64, l3: uint64, l4: uint64): (out1: Fe)
    requires l0 < TIGHT && l1 < TIGHT && l2 < TIGHT && l3 < TIGHT && l4 < TIGHT && c < 0x200_0000_0000_0000
    ensures Tight(out1)
    ensures Value(out1) == Eval(l0 as int + 19 * c as int, l1 as int, l2 as int, l3 as int, l4 as int)
  {
    hide Low51, High51;
    var x45 := c * 0x13;
    var x46 := l0 + x45;
    var x47 := High51(x46 as uint128);
    var x48 := Low51(x46 as uint128);
    var x49 := x47 + l1;
    var x50 := High51(x49 as uint128) as uint8;
    var x51 := Low51(x49 as uint128);
    var x52 := x50 as uint64 + l2;
    Fe(x48, x51, x52, l3, l4)
  }

  // The common tail of carry_mul and carry_square, from the five columns to the limbs.
  function Carried(t0: uint128, t1: uint128, t2: uint128, t3: uint128, t4: uint128): (out1: Fe)
    requires t0 <= COLUMN && t1 <= COLUMN && t2 <= COLUMN && t3 <= COLUMN && t4 <= TOP_COLUMN
    ensures Tight(out1)
    ensures Residue(out1) == Eval(t0 as int, t1 as int, t2 as int, t3 as int, t4 as int) % P
  {
    hide Eval, Low51, High51;
    var x27 := High51(t0);
    var x28 := Low51(t0);
    var x33 := x27 as uint128 + t1;
    var x34 := High51(x33);
    var x35 := Low51(x33);
    var x36 := x34 as uint128 + t2;
    var x37 := High51(x36);
    var x38 := Low51(x36);
    var x39 := x37 as uint128 + t3;
    var x40 := High51(x39);
    var x41 := Low51(x39);
    var x42 := x40 as uint128 + t4;
    var x43 := High51(x42);
    var x44 := Low51(x42);
    CarryFe(t0 as int, t1 as int, t2 as int, t3 as int, t4 as int, x28 as int + 19 * x43 as int, x35 as int, x38 as int,
      x41 as int, x44 as int, x27 as int, x34 as int, x37 as int, x40 as int, x43 as int, 0, 0);
    FoldTop(x28, x43, x35, x38, x41, x44)
  }

  function CarryMul(arg1: Fe, arg2: Fe): (out1: Fe)
    requires Loose(arg1) && Loose(arg2)
    ensures Tight(out1)
    ensures Residue(out1) == Mul(Residue(arg1), Residue(arg2))
  {
    hide Eval, Mul, Times, Carried, Product;
    var Fe(a0, a1, a2, a3, a4) := arg1;
    var Fe(b0, b1, b2, b3, b4) := arg2;
    ColumnsFe(a0 as int, a1 as int, a2 as int, a3 as int, a4 as int, b0 as int, b1 as int, b2 as int, b3 as int,
      b4 as int);
    var x1 := Product(a4, b4, b4 * 0x13, 19);
    var x2 := Product(a4, b3, b3 * 0x13, 19);
    var x3 := Product(a4, b2, b2 * 0x13, 19);
    var x4 := Product(a4, b1, b1 * 0x13, 19);
    var x5 := Product(a3, b4, b4 * 0x13, 19);
    var x6 := Product(a3, b3, b3 * 0x13, 19);
    var x7 := Product(a3, b2, b2 * 0x13, 19);
    var x8 := Product(a2, b4, b4 * 0x13, 19);
    var x9 := Product(a2, b3, b3 * 0x13, 19);
    var x10 := Product(a1, b4, b4 * 0x13, 19);
    var x11 := Product(a4, b0, b0, 1);
    var x12 := Product(a3, b1, b1, 1);
    var x13 := Product(a3, b0, b0, 1);
    var x14 := Product(a2, b2, b2, 1);
    var x15 := Product(a2, b1, b1, 1);
    var x16 := Product(a2, b0, b0, 1);
    var x17 := Product(a1, b3, b3, 1);
    var x18 := Product(a1, b2, b2, 1);
    var x19 := Product(a1, b1, b1, 1);
    var x20 := Product(a1, b0, b0, 1);
    var x21 := Product(a0, b4, b4, 1);
    var x22 := Product(a0, b3, b3, 1);
    var x23 := Product(a0, b2, b2, 1);
    var x24 := Product(a0, b1, b1, 1);
    var x25 := Product(a0, b0, b0, 1);
    var x26 := x25 + (x10 + (x9 + (x7 + x4)));
    var x29 := x21 + (x17 + (x14 + (x12 + x11)));
    var x30 := x22 + (x18 + (x15 + (x13 + x1)));
    var x31 := x23 + (x19 + (x16 + (x5 + x2)));
    var x32 := x24 + (x20 + (x8 + (x6 + x3)));
    Carried(x26, x32, x31, x30, x29)
  }

  function CarrySquare(arg1: Fe): (out1: Fe)
    requires Loose(arg1)
    ensures Tight(out1)
    ensures Residue(out1) == Mul(Residue(arg1), Residue(arg1))
  {
    hide Eval, Mul, Times, Carried, Product;
    var Fe(a0, a1, a2, a3, a4) := arg1;
    ColumnsFe(a0 as int, a1 as int, a2 as int, a3 as int, a4 as int, a0 as int, a1 as int, a2 as int, a3 as int,
      a4 as int);
    SquareColumns(a0 as int, a1 as int, a2 as int, a3 as int, a4 as int);
    var x1 := a4 * 0x13;
    var x2 := x1 * 2;
    var x3 := a4 * 2;
    var x4 := a3 * 0x13;
    var x5 := x4 * 2;
    var x6 := a3 * 2;
    var x7 := a2 * 2;
    var x8 := a1 * 2;
    var x9 := Product(a4, a4, x1, 19);
    var x10 := Product(a3, a4, x2, 38);
    var x11 := Product(a3, a3, x4, 19);
    var x12 := Product(a2, a4, x2, 38);
    var x13 := Product(a2, a3, x5, 38);
    var x14 := Product(a2, a2, a2, 1);
    var x15 := Product(a1, a4, x2, 38);
    var x16 := Product(a1, a3, x6, 2);
    var x17 := Product(a1, a2, x7, 2);
    var x18 := Product(a1, a1, a1, 1);
    var x19 := Product(a0, a4, x3, 2);
    var x20 := Product(a0, a3, x6, 2);
    var x21 := Product(a0, a2, x7, 2);
    var x22 := Product(a0, a1, x8, 2);
    var x23 := Product(a0, a0, a0, 1);
    TimesCommutes(a3 as int, a4 as int);
    TimesCommutes(a2 as int, a4 as int);
    TimesCommutes(a1 as int, a4 as int);
    var x24 := x23 + (x15 + x13);
    var x27 := x19 + (x16 + x14);
    var x28 := x20 + (x17 + x9);
    var x29 := x21 + (x18 + x10);
    var x30 := x22 + (x12 + x11);
    Carried(x24, x30, x29, x28, x27)
  }

  // The square computes the very limbs of the product with itself.
  lemma SquareIsProduct(a: Fe)
    requires Loose(a)
    ensures CarrySquare(a) == CarryMul(a, a)
  {
    hide Times, Carried, Product, Eval;
    TimesCommutes(a.l0 as int, a.l1 as int);
    TimesCommutes(a.l0 as int, a.l2 as int);
    TimesCommutes(a.l0 as int, a.l3 as int);
    TimesCommutes(a.l0 as int, a.l4 as int);
    TimesCommutes(a.l1 as int, a.l2 as int);
    TimesCommutes(a.l1 as int, a.l3 as int);
    TimesCommutes(a.l1 as int, a.l4 as int);
    TimesCommutes(a.l2 as int, a.l3 as int);
    TimesCommutes(a.l2 as int, a.l4 as int);
    TimesCommutes(a.l3 as int, a.l4 as int);
  }

  function Carry(arg1: Fe): (out1: Fe)
    requires Loose(arg1)
    ensures Tight(out1)
    ensures Residue(out1) == Residue(arg1)
  {
    hide Eval, Low51, High51;
    var x1 := arg1.l0;
    var x2 := High51(x1 as uint128) + arg1.l1;
    var x3 := High51(x2 as uint128) + arg1.l2;
    var x4 := High51(x3 as uint128) + arg1.l3;
    var x5 := High51(x4 as uint128) + arg1.l4;
    var l0, l1, l2, l3, l4 := Low51(x1 as uint128), Low51(x2 as uint128), Low51(x3 as uint128), Low51(x4 as uint128),
      Low51(x5 as uint128);
    var c := High51(x5 as uint128);
    CarryFe(arg1.l0 as int, arg1.l1 as int, arg1.l2 as int, arg1.l3 as int, arg1.l4 as int, l0 as int + 19 * c as int,
      l1 as int, l2 as int, l3 as int, l4 as int, High51(x1 as uint128) as int, High51(x2 as uint128) as int,
      High51(x3 as uint128) as int, High51(x4 as uint128) as int, c as int, 0, 0);
    FoldTop(l0, c, l1, l2, l3, l4)
  }

  function FieldAdd(arg1: Fe, arg2: Fe): (out1: Fe)
    requires Tight(arg1) && Tight(arg2)
    ensures Loose(out1)
    ensures Residue(out1) == Add(Residue(arg1), Residue(arg2))
  {
    AddResidues(Value(arg1), Value(arg2));
    Fe(arg1.l0 + arg2.l0, arg1.l1 + arg2.l1, arg1.l2 + arg2.l2, arg1.l3 + arg2.l3, arg1.l4 + arg2.l4)
  }

  // 2p is added first, so that no limb goes below zero.
  function FieldSub(arg1: Fe, arg2: Fe): (out1: Fe)
    requires Tight(arg1) && Tight(arg2)
    ensures Loose(out1)
    ensures Residue(out1) == Sub(Residue(arg1), Residue(arg2))
  {
    SubResidues(Value(arg1), Value(arg2));
    Shift(Value(arg1) - Value(arg2) + P * 2, Value(arg1) - Value(arg2), 2);
    Fe(0xfffffffffffda + arg1.l0 - arg2.l0, 0xffffffffffffe + arg1.l1 - arg2.l1, 0xffffffffffffe + arg1.l2 - arg2.l2,
      0xffffffffffffe + arg1.l3 - arg2.l3, 0xffffffffffffe + arg1.l4 - arg2.l4)
  }

  function FieldOpp(arg1: Fe): (out1: Fe)
    requires Tight(arg1)
    ensures Loose(out1)
    ensures Residue(out1) == Sub(0, Residue(arg1))
  {
    SubResidues(0, Value(arg1));
    Shift(0 - Value(arg1) + P * 2, 0 - Value(arg1), 2);
    Fe(0xfffffffffffda - arg1.l0, 0xffffffffffffe - arg1.l1, 0xffffffffffffe - arg1.l2, 0xffffffffffffe - arg1.l3,
      0xffffffffffffe - arg1.l4)
  }

  function Scaled(x: uint64): (r: uint128)
    requires x <= LOOSE
    ensures r as int == 121666 * x as int
  {
    0x1db42 * x as uint128
  }

  function CarryScmul121666(arg1: Fe): (out1: Fe)
    requires Loose(arg1)
    ensures Tight(out1)
    ensures Residue(out1) == Mul(121666, Residue(arg1))
  {
    hide Eval, Mul, Low51, High51, Scaled;
    var x1, x2, x3, x4, x5 := Scaled(arg1.l4), Scaled(arg1.l3), Scaled(arg1.l2), Scaled(arg1.l1), Scaled(arg1.l0);
    var x6 := High51(x5);
    var x7 := Low51(x5);
    var x8 := x6 as uint128 + x4;
    var x9 := High51(x8);
    var x10 := Low51(x8);
    var x11 := x9 as uint128 + x3;
    var x12 := High51(x11);
    var x13 := Low51(x11);
    var x14 := x12 as uint128 + x2;
    var x15 := High51(x14);
    var x16 := Low51(x14);
    var x17 := x15 as uint128 + x1;
    var x18 := High51(x17);
    var x19 := Low51(x17);
    CarryFe(x5 as int, x4 as int, x3 as int, x2 as int, x1 as int, x7 as int + 19 * x18 as int, x10 as int, x13 as int,
      x16 as int, x19 as int, x6 as int, x9 as int, x12 as int, x15 as int, x18 as int, 0, 0);
    ScaledFe(arg1.l0 as int, arg1.l1 as int, arg1.l2 as int, arg1.l3 as int, arg1.l4 as int);
    FoldTop(x7, x18, x10, x13, x16, x19)
  }

  lemma ScaledFe(a0: int, a1: int, a2: int, a3: int, a4: int)
    ensures Eval(121666 * a0, 121666 * a1, 121666 * a2, 121666 * a3, 121666 * a4) % P
      == Mul(121666, Eval(a0, a1, a2, a3, a4) % P)
  {
    ProductShift(Eval(a0, a1, a2, a3, a4), 121666);
  }

  // x >> 51 of the signed difference is 0 or -1, and the borrow is its negation.
  function SubBorrowX51(arg1: uint8, arg2: uint64, arg3: uint64): (r: (uint64, uint8))
    requires arg1 <= 1 && arg2 <= TIGHT && arg3 < TIGHT && (arg2 == TIGHT ==> arg3 > 0)
    ensures r.0 < TIGHT && r.1 <= 1
    ensures r.0 as int == arg2 as int - arg1 as int - arg3 as int + TIGHT as int * r.1 as int
  {
    var x1 := arg2 as int64 - arg1 as int64 - arg3 as int64;
    var x2 := x1 / 0x8000000000000;
    ((x1 % 0x8000000000000) as uint64, (0 - x2) as uint8)
  }

  function AddCarryX51(arg1: uint8, arg2: uint64, arg3: uint64): (r: (uint64, uint8))
    requires arg1 <= 1 && arg2 < TIGHT && arg3 < TIGHT
    ensures r.0 < TIGHT && r.1 <= 1
    ensures arg1 as int + arg2 as int + arg3 as int == r.0 as int + TIGHT as int * r.1 as int
  {
    var x1 := arg1 as uint64 + arg2 + arg3;
    (x1 % 0x8000000000000, (x1 / 0x8000000000000) as uint8)
  }

  // The first half of to_bytes: arg1 - p with its borrow.
  function SubtractP(arg1: Fe): (r: (Fe, uint8))
    requires Tight(arg1)
    ensures Bounded(r.0, TIGHT - 1) && r.1 <= 1
    ensures Value(r.0) == Value(arg1) - P + (P + 19) * r.1 as int
  {
    hide Eval, SubBorrowX51;
    var (x1, x2) := SubBorrowX51(0, arg1.l0, 0x7ffffffffffed);
    var (x3, x4) := SubBorrowX51(x2, arg1.l1, 0x7ffffffffffff);
    var (x5, x6) := SubBorrowX51(x4, arg1.l2, 0x7ffffffffffff);
    var (x7, x8) := SubBorrowX51(x6, arg1.l3, 0x7ffffffffffff);
    var (x9, x10) := SubBorrowX51(x8, arg1.l4, 0x7ffffffffffff);
    BorrowChain(arg1.l0 as int, arg1.l1 as int, arg1.l2 as int, arg1.l3 as int, arg1.l4 as int, x1 as int, x3 as int,
      x5 as int,
      x7 as int, x9 as int, x2 as int, x4 as int, x6 as int, x8 as int, x10 as int);
    (Fe(x1, x3, x5, x7, x9), x10)
  }

  // The second half: p is added back under the mask of the borrow.
  function AddBack(d: Fe, x10: uint8): (r: (Fe, uint8))
    requires Bounded(d, TIGHT - 1) && x10 <= 1
    ensures Bounded(r.0, TIGHT - 1) && r.1 <= 1
    ensures Value(d) + P * x10 as int == Value(r.0) + (P + 19) * r.1 as int
  {
    hide Eval, AddCarryX51, MaskConstant, CMovZnz;
    var x11 := CMovZnz(x10 as uint64, 0, 0xffffffffffffffff);
    var (x12, x13) := AddCarryX51(0, d.l0, MaskConstant(x11, 0x7ffffffffffed));
    var (x14, x15) := AddCarryX51(x13, d.l1, MaskConstant(x11, 0x7ffffffffffff));
    var (x16, x17) := AddCarryX51(x15, d.l2, MaskConstant(x11, 0x7ffffffffffff));
    var (x18, x19) := AddCarryX51(x17, d.l3, MaskConstant(x11, 0x7ffffffffffff));
    var (x20, x21) := AddCarryX51(x19, d.l4, MaskConstant(x11, 0x7ffffffffffff));
    AddBackChain(d.l0 as int, d.l1 as int, d.l2 as int, d.l3 as int, d.l4 as int, 0x7ffffffffffed * x10 as int,
      0x7ffffffffffff * x10 as int, x10 as int, x12 as int, x14 as int, x16 as int, x18 as int, x20 as int,
      x13 as int, x15 as int, x17 as int, x19 as int, x21 as int);
    (Fe(x12, x14, x16, x18, x20), x21)
  }

  // The canonical residue, on limbs of 51 bits.
  function Freeze(arg1: Fe): (out: Fe)
    requires Tight(arg1)
    ensures Bounded(out, TIGHT - 1)
    ensures Value(out) == Residue(arg1)
  {
    hide Eval, Value, SubtractP, AddBack;
    var (d, b) := SubtractP(arg1);
    var (out, c) := AddBack(d, b);
    ReducedValue(d);
    ReducedValue(out);
    TightValue(arg1);
    FreezeValue(Value(arg1), Value(d), Value(out), b as int, c as int);
    out
  }

  lemma ReducedValue(a: Fe)
    requires Bounded(a, TIGHT - 1)
    ensures 0 <= Value(a) < P + 19
  {
  }

  function MaskConstant(mask: uint64, c: uint64): (r: uint64)
    requires mask == 0 || mask == 0xffffffffffffffff
    ensures r == if mask == 0 then 0 else c
  {
    Pow2Values();
    AndAllOnes(c as int, 64);
    And(mask as int, c as int) as uint64
  }

  // The borrows b_i of subtracting p limb by limb.
  lemma BorrowChain(a0: int, a1: int, a2: int, a3: int, a4: int, d0: int, d1: int, d2: int, d3: int, d4: int,
      b0: int, b1: int, b2: int, b3: int, b4: int)
    requires d0 == a0 - 0x7ffffffffffed + 0x8000000000000 * b0 && d1 == a1 - b0 - 0x7ffffffffffff + 0x8000000000000 * b1
    requires d2 == a2 - b1 - 0x7ffffffffffff + 0x8000000000000 * b2
      && d3 == a3 - b2 - 0x7ffffffffffff + 0x8000000000000 * b3
    requires d4 == a4 - b3 - 0x7ffffffffffff + 0x8000000000000 * b4
    ensures Eval(d0, d1, d2, d3, d4) == Eval(a0, a1, a2, a3, a4) - P + (P + 19) * b4
  {
  }

  // The carries c_i of adding p back, or zero.
  lemma AddBackChain(d0: int, d1: int, d2: int, d3: int, d4: int, m0: int, m: int, b: int,
      o0: int, o1: int, o2: int, o3: int, o4: int, c0: int, c1: int, c2: int, c3: int, c4: int)
    requires m0 == 0x7ffffffffffed * b && m == 0x7ffffffffffff * b
    requires d0 + m0 == o0 + 0x8000000000000 * c0 && c0 + d1 + m == o1 + 0x8000000000000 * c1
    requires c1 + d2 + m == o2 + 0x8000000000000 * c2 && c2 + d3 + m == o3 + 0x8000000000000 * c3
    requires c3 + d4 + m == o4 + 0x8000000000000 * c4
    ensures Eval(d0, d1, d2, d3, d4) + P * b == Eval(o0, o1, o2, o3, o4) + (P + 19) * c4
  {
  }

  lemma TightValue(a: Fe)
    requires Tight(a)
    ensures 0 <= Value(a) < 2 * P
  {
  }

  // With one borrow of 2^255 at most, what is left is the residue.
  lemma FreezeValue(v: int, x: int, w: int, b: int, c: int)
    requires 0 <= v < 2 * P && 0 <= x < P + 19 && 0 <= w < P + 19 && 0 <= b <= 1 && 0 <= c <= 1
    requires x == v - P + (P + 19) * b && x + P * b == w + (P + 19) * c
    ensures w == v % P
  {
    if b == 0 {
      Shift(v, x, 1);
    } else {
      assert w == v;
    }
  }

  // The frozen limbs are cut into bytes from the bottom; the bits left over from one limb are
  // added below the next, shifted to the byte boundary.
  function ToBytes(arg1: Fe): (out1: seq<uint8>)
    requires Tight(arg1)
    ensures |out1| == 32 && Le(out1) == Residue(arg1)
  {
    hide Eval, Le, ToLe, Freeze, Pow256;
    var Fe(x12, x14, x16, x18, x20) := Freeze(arg1);
    var x22 := x20 * 0x10;
    var x23 := x18 * 2;
    var x24 := x16 * 0x40;
    var x25 := x14 * 8;
    var x37 := x12 / 0x1_0000_0000_0000;
    var x38 := x25 + x37;
    var x50 := x38 / 0x1_0000_0000_0000;
    var x51 := x24 + x50;
    var x65 := x51 / 0x100_0000_0000_0000;
    var x66 := x23 + x65;
    var x78 := x66 / 0x1_0000_0000_0000;
    var x79 := x22 + x78;
    CutLimbs(x12 as int, x14 as int, x16 as int, x18 as int, x20 as int);
    JoinBytes(x12 as int % 0x1_0000_0000_0000, x38 as int % 0x1_0000_0000_0000, x51 as int % 0x100_0000_0000_0000,
      x66 as int % 0x1_0000_0000_0000, x79 as int);
    ToLe(x12 as int % 0x1_0000_0000_0000, 6) + (ToLe(x38 as int % 0x1_0000_0000_0000, 6)
      + (ToLe(x51 as int % 0x100_0000_0000_0000, 7) + (ToLe(x66 as int % 0x1_0000_0000_0000, 6) + ToLe(x79 as int, 7))))
  }

  lemma CutLimbs(t0: int, t1: int, t2: int, t3: int, t4: int)
    requires 0 <= t0 < 0x8000000000000 && 0 <= t1 < 0x8000000000000 && 0 <= t2 < 0x8000000000000
    requires 0 <= t3 < 0x8000000000000 && 0 <= t4 < 0x8000000000000
    ensures var x38 := t1 * 8 + t0 / 0x1_0000_0000_0000;
      var x51 := t2 * 0x40 + x38 / 0x1_0000_0000_0000;
      var x66 := t3 * 2 + x51 / 0x100_0000_0000_0000;
      var x79 := t4 * 0x10 + x66 / 0x1_0000_0000_0000;
      && x79 < 0x80_0000_0000_0000
      && Eval(t0, t1, t2, t3, t4) == t0 % 0x1_0000_0000_0000 + 0x1_0000_0000_0000 * (x38 % 0x1_0000_0000_0000
        + 0x1_0000_0000_0000 * (x51 % 0x100_0000_0000_0000 + 0x100_0000_0000_0000 * (x66 % 0x1_0000_0000_0000
        + 0x1_0000_0000_0000 * x79)))
  {
  }

  lemma JoinBytes(a: nat, b: nat, c: nat, d: nat, e: nat)
    requires a < 0x1_0000_0000_0000 && b < 0x1_0000_0000_0000 && c < 0x100_0000_0000_0000 && d < 0x1_0000_0000_0000
    requires e < 0x100_0000_0000_0000
    ensures Le(ToLe(a, 6) + (ToLe(b, 6) + (ToLe(c, 7) + (ToLe(d, 6) + ToLe(e, 7)))))
      == a + 0x1_0000_0000_0000 * (b + 0x1_0000_0000_0000 * (c + 0x100_0000_0000_0000 * (d + 0x1_0000_0000_0000 * e)))
  {
    hide Le, ToLe, Pow256;
    BytePowers();
    LeOfToLe(a, 6);
    LeOfToLe(b, 6);
    LeOfToLe(c, 7);
    LeOfToLe(d, 6);
    LeOfToLe(e, 7);
    LeConcat(ToLe(d, 6), ToLe(e, 7));
    LeConcat(ToLe(c, 7), ToLe(d, 6) + ToLe(e, 7));
    LeConcat(ToLe(b, 6), ToLe(c, 7) + (ToLe(d, 6) + ToLe(e, 7)));
    LeConcat(ToLe(a, 6), ToLe(b, 6) + (ToLe(c, 7) + (ToLe(d, 6) + ToLe(e, 7))));
  }

  lemma BytePowers()
    ensures Pow256(5) == 0x100_0000_0000 && Pow256(6) == 0x1_0000_0000_0000 && Pow256(7) == 0x100_0000_0000_0000
  {
  }

  // Bytes i .. i+n as one word; the source adds them shifted into place one at a time.
  function Gather(b: seq<uint8>, i: nat, n: nat): (r: uint64)
    requires i + n <= |b| && n <= 7
    ensures r as int == Le(b[i..i + n]) < Pow256(n)
  {
    LeBound(b[i..i + n]);
    Pow256Increases(n, 7);
    Le(b[i..i + n]) as uint64
  }

  lemma {:induction false} Pow256Increases(n: nat, m: nat)
    requires n <= m
    ensures Pow256(n) <= Pow256(m)
  {
    if n < m {
      Pow256Increases(n, m - 1);
    }
  }

  // The top bit of the last byte must be clear.
  function FromBytes(arg1: seq<uint8>): (out1: Fe)
    requires |arg1| == 32 && arg1[31] <= 0x7f
    ensures Tight(out1)
    ensures Value(out1) == Le(arg1)
  {
    hide Eval, Le, Gather, Low51, High51, Pow256;
    GatherBounds(arg1);
    var x38 := Gather(arg1, 0, 7);
    var x39 := Low51(x38 as uint128);
    var x40 := High51(x38 as uint128) as uint8;
    var x46 := Gather(arg1, 7, 6) * 0x20 + x40 as uint64;
    var x47 := Low51(x46 as uint128);
    var x48 := High51(x46 as uint128) as uint8;
    var x55 := Gather(arg1, 13, 7) * 4 + x48 as uint64;
    var x56 := Low51(x55 as uint128);
    var x57 := High51(x55 as uint128) as uint8;
    var x63 := Gather(arg1, 20, 6) * 0x80 + x57 as uint64;
    var x64 := Low51(x63 as uint128);
    var x65 := High51(x63 as uint128) as uint8;
    var x71 := Gather(arg1, 26, 6) * 0x10 + x65 as uint64;
    GatherValue(arg1, x39 as int, x47 as int, x56 as int, x64 as int, x71 as int, x40 as int, x48 as int, x57 as int,
      x65 as int);
    Fe(x39, x47, x56, x64, x71)
  }

  lemma GatherBounds(b: seq<uint8>)
    requires |b| == 32 && b[31] <= 0x7f
    ensures Pow256(6) == 0x1_0000_0000_0000 && Pow256(7) == 0x100_0000_0000_0000
    ensures Le(b[26..32]) < 0x8000_0000_0000
    ensures Le(b) == Le(b[0..7]) + 0x100_0000_0000_0000 * (Le(b[7..13]) + 0x1_0000_0000_0000 * (Le(b[13..20])
      + 0x100_0000_0000_0000 * (Le(b[20..26]) + 0x1_0000_0000_0000 * Le(b[26..32]))))
  {
    hide Le, Pow256;
    BytePowers();
    TopGather(b[26..32]);
    assert b[0..] == b && b[26..] == b[26..32];
    Peel(b, 0, 7);
    Peel(b, 7, 6);
    Peel(b, 13, 7);
    Peel(b, 20, 6);
  }

  lemma TopGather(b: seq<uint8>)
    requires |b| == 6 && b[5] <= 0x7f
    ensures Le(b) < 0x8000_0000_0000
  {
    BytePowers();
    assert b == b[..5] + [b[5]];
    LeConcat(b[..5], [b[5]]);
    LeBound(b[..5]);
    assert Le([b[5]]) == b[5] as int;
  }

  lemma GatherValue(b: seq<uint8>, l0: int, l1: int, l2: int, l3: int, l4: int, c0: int, c1: int, c2: int, c3: int)
    requires |b| == 32 && b[31] <= 0x7f
    requires Le(b[0..7]) == l0 + 0x8000000000000 * c0 && Le(b[7..13]) * 0x20 + c0 == l1 + 0x8000000000000 * c1
    requires Le(b[13..20]) * 4 + c1 == l2 + 0x8000000000000 * c2
      && Le(b[20..26]) * 0x80 + c2 == l3 + 0x8000000000000 * c3
    requires Le(b[26..32]) * 0x10 + c3 == l4
    ensures Eval(l0, l1, l2, l3, l4) == Le(b)
  {
    hide Le;
    GatherBounds(b);
  }

  // Reading 32 bytes and writing them again reduces the number modulo p.
  lemma BytesRoundTrip(b: seq<uint8>)
    requires |b| == 32 && b[31] <= 0x7f
    ensures Le(ToBytes(FromBytes(b))) == Le(b) % P
  {
    hide ToBytes, FromBytes, Value, Le;
  }

  // Writing an element and reading it again keeps it, and leaves its least limbs.
  lemma LimbsRoundTrip(a: Fe)
    requires Tight(a)
    ensures ToBytes(a)[31] <= 0x7f && Value(FromBytes(ToBytes(a))) == Residue(a)
  {
    hide ToBytes, FromBytes, Value, Le, Pow256, Pow2;
    var b := ToBytes(a);
    ByteAt(b, 31);
    Pow256IsPow2(31);
    Pow2Add(248, 7);
    assert Pow2(7) == 128 by {
      SmallPow2();
    }
    Pow2_255();
    QuotientBelow(Le(b), Pow256(31), 128);
  }

  lemma QuotientBelow(n: nat, w: nat, k: nat)
    requires w > 0 && n < w * k
    ensures n / w < k
  {
    var q := n / w;
    assert n == w * q + n % w;
    if q >= k {
      MulMonotone(w, k, q);
    }
  }
}
