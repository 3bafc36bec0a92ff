// The arithmetic of poly1305_process and poly1305_compute_mac in crypto/poly1305.c: a 130-bit
// accumulator on five 32-bit words, multiplied by a clamped r modulo 2^130 - 5. The words are
// fixed-width, so every sum and product here is proved not to wrap.
module Poly1305Block {
  import opened Words
  import opened Bits
  import opened Rfc7539

  datatype Acc = Acc(w0: uint32, w1: uint32, w2: uint32, w3: uint32, w4: uint32)

  datatype Key4 = Key4(w0: uint32, w1: uint32, w2: uint32, w3: uint32)

  // Five words in radix 2^32.
  function Horner5(x0: int, x1: int, x2: int, x3: int, x4: int): int {
    x0 + 0x1_0000_0000 * (x1 + 0x1_0000_0000 * (x2 + 0x1_0000_0000 * (x3 + 0x1_0000_0000 * x4)))
  }

  function Value(a: Acc): (v: nat) { Horner5(a.w0 as int, a.w1 as int, a.w2 as int, a.w3 as int, a.w4 as int) }

  function Value4(k: Key4): (v: nat) { Horner5(k.w0 as int, k.w1 as int, k.w2 as int, k.w3 as int, 0) }

  // v mod 2^130 - 5 and v mod 2^128, under names.
  function Residue(v: int): nat { v % P1305 }

  function Low128(v: int): nat { v % 0x1_0000_0000_0000_0000_0000_0000_0000_0000 }

  // The bits that the masks of mbedtls_poly1305_starts leave.
  predicate Clamped(r: Key4) {
    r.w0 < 0x1000_0000 && r.w1 < 0x1000_0000 && r.w2 < 0x1000_0000 && r.w3 < 0x1000_0000
    && r.w1 % 4 == 0 && r.w2 % 4 == 0 && r.w3 % 4 == 0
  }

  // Below 2^130 + 5 * 2^30: what is left after one partial reduction.
  predicate Bounded(a: Acc) { Value(a) < 0x4_0000_0000_0000_0000_0000_0001_4000_0000 }

  // mul64 with a 64-bit product
  function Mul64(a: uint32, b: uint32): (d: uint64)
    ensures d as int == Times(a as int, b as int)
    ensures b < 0x1000_0000 ==> d < 0x1000_0000_0000_0000
    ensures b < 0x1400_0000 ==> d < 0x1400_0000_0000_0000
    ensures a <= 6 && b < 0x1000_0000 ==> d <= 0x6000_0000
    ensures a <= 6 && b < 0x1400_0000 ==> d <= 0x7800_0000
  {
    ProductBound(a as int, b as int, 0xffff_ffff, 0xffff_ffff);
    ProductBound(a as int, b as int, 0xffff_ffff, b as int);
    SmallProduct(a as int, b as int);
    a as uint64 * b as uint64
  }

  lemma SmallProduct(a: nat, b: nat)
    ensures a <= 6 ==> a * b <= 6 * b
  {
  }

  // (uint32_t) d and d >> 32
  function Low32(d: uint64): (w: uint32) { (d % 0x1_0000_0000) as uint32 }

  function High32(d: uint64): (c: uint64)
    ensures d as int == Low32(d) as int + 0x1_0000_0000 * c as int
  {
    d / 0x1_0000_0000
  }

  // mul64 of the platforms without a 64-bit product: four products of 16-bit halves.
  function Mul64Portable(a: uint32, b: uint32): (d: uint64)
    ensures d == Mul64(a, b)
  {
    var al, bl, ah, bh := a % 0x10000, b % 0x10000, a / 0x10000, b / 0x10000;
    ProductBound(al as int, bl as int, 0xffff, 0xffff);
    ProductBound(ah as int, bl as int, 0xffff, 0xffff);
    ProductBound(al as int, bh as int, 0xffff, 0xffff);
    ProductBound(ah as int, bh as int, 0xffff, 0xffff);
    Halves(al as int, ah as int, bl as int, bh as int);
    var lo := al * bl;
    var me := (ah * bl) as uint64 + (al * bh) as uint64;
    var hi := ah * bh;
    lo as uint64 + me * 0x10000 + hi as uint64 * 0x1_0000_0000
  }

  lemma Halves(al: int, ah: int, bl: int, bh: int)
    ensures (al + 0x10000 * ah) * (bl + 0x10000 * bh)
      == al * bl + 0x10000 * (ah * bl + al * bh) + 0x1_0000_0000 * (ah * bh)
  {
  }

  // acc += block + pad * 2^128
  function AddBlock(a: Acc, b: Key4, pad: uint32): (r: Acc)
    requires a.w4 <= 4 && pad <= 1
    ensures Value(r) == Value(a) + Value4(b) + 0x1_0000_0000_0000_0000_0000_0000_0000_0000 * pad as int
    ensures r.w4 <= 6
  {
    hide Low32, High32;
    var d0 := b.w0 as uint64 + a.w0 as uint64;
    var d1 := b.w1 as uint64 + (a.w1 as uint64 + High32(d0));
    var d2 := b.w2 as uint64 + (a.w2 as uint64 + High32(d1));
    var d3 := b.w3 as uint64 + (a.w3 as uint64 + High32(d2));
    Acc(Low32(d0), Low32(d1), Low32(d2), Low32(d3), a.w4 + (High32(d3) as uint32 + pad))
  }

  // The columns d0 .. d3 and the top word of acc * r, before any carry.
  datatype Product = Product(d0: uint64, d1: uint64, d2: uint64, d3: uint64, w4: uint32)

  function ProductValue(d: Product): int {
    Horner5(d.d0 as int, d.d1 as int, d.d2 as int, d.d3 as int, d.w4 as int)
  }

  predicate ProductBounded(d: Product) {
    d.d0 < 0x8000_0000_0000_0000 && d.d1 < 0x8000_0000_0000_0000 && d.d2 < 0x8000_0000_0000_0000
    && d.d3 <= 0x4000_0001_0000_0000 && d.w4 <= 0x6000_0000
  }

  // r + (r >> 2), five quarters of r
  function FiveQuarters(r: uint32): (s: uint32)
    requires r < 0x1000_0000
    ensures s < 0x1400_0000
  {
    r + r / 4
  }

  function Multiply(a: Acc, r: Key4): (d: Product)
    requires Clamped(r) && a.w4 <= 6
    ensures ProductBounded(d)
  {
    var rs1, rs2, rs3 := FiveQuarters(r.w1), FiveQuarters(r.w2), FiveQuarters(r.w3);
    hide Times, FiveQuarters, Mul64;
    var d0 := Mul64(a.w0, r.w0) + Mul64(a.w1, rs3) + Mul64(a.w2, rs2) + Mul64(a.w3, rs1);
    var d1 := Mul64(a.w0, r.w1) + Mul64(a.w1, r.w0) + Mul64(a.w2, rs3) + Mul64(a.w3, rs2) + Mul64(a.w4, rs1);
    var d2 := Mul64(a.w0, r.w2) + Mul64(a.w1, r.w1) + Mul64(a.w2, r.w0) + Mul64(a.w3, rs3) + Mul64(a.w4, rs2);
    var d3 := Mul64(a.w0, r.w3) + Mul64(a.w1, r.w2) + Mul64(a.w2, r.w1) + Mul64(a.w3, r.w0) + Mul64(a.w4, rs3);
    Product(d0, d1, d2, d3, Mul64(a.w4, r.w0) as uint32)
  }

  lemma MultiplyIsProduct(a: Acc, r: Key4)
    requires Clamped(r) && a.w4 <= 6
    ensures Residue(ProductValue(Multiply(a, r))) == Residue(Times(Value(a), Value4(r)))
  {
    hide Mul64, Times, Horner5, FiveQuarters, Residue;
    Quarters(r.w1);
    Quarters(r.w2);
    Quarters(r.w3);
    FoldColumns(a.w0 as int, a.w1 as int, a.w2 as int, a.w3 as int, a.w4 as int, r.w0 as int,
      r.w1 as int, r.w2 as int, r.w3 as int,
      FiveQuarters(r.w1) as int, FiveQuarters(r.w2) as int, FiveQuarters(r.w3) as int);
  }

  lemma Quarters(r: uint32)
    requires r < 0x1000_0000 && r % 4 == 0
    ensures r as int == 4 * (r as int / 4) && FiveQuarters(r) as int == 5 * (r as int / 4)
  {
  }

  // 2^130 = 5 + P1305 folds the products above 2^128 down, since r1, r2 and r3 are multiples of 4.
  lemma FoldColumns(a0: int, a1: int, a2: int, a3: int, a4: int, r0: int, r1: int, r2: int, r3: int,
      s1: int, s2: int, s3: int)
    requires r1 == 4 * (r1 / 4) && r2 == 4 * (r2 / 4) && r3 == 4 * (r3 / 4)
    requires s1 == 5 * (r1 / 4) && s2 == 5 * (r2 / 4) && s3 == 5 * (r3 / 4)
    ensures Residue(Horner5(Times(a0, r0) + Times(a1, s3) + Times(a2, s2) + Times(a3, s1),
        Times(a0, r1) + Times(a1, r0) + Times(a2, s3) + Times(a3, s2) + Times(a4, s1),
        Times(a0, r2) + Times(a1, r1) + Times(a2, r0) + Times(a3, s3) + Times(a4, s2),
        Times(a0, r3) + Times(a1, r2) + Times(a2, r1) + Times(a3, r0) + Times(a4, s3),
        Times(a4, r0))) == Residue(Times(Horner5(a0, a1, a2, a3, a4), Horner5(r0, r1, r2, r3, 0)))
  {
    hide Times, Horner5, Residue;
    var k1, k2, k3, R := r1 / 4, r2 / 4, r3 / 4, Horner5(r0, r1, r2, r3, 0);
    RowTimes(a0, a1, a2, a3, a4, R);
    TimesRow(a0, r0, k1, k2, k3);
    TimesRow(a1, r0, k1, k2, k3);
    TimesRow(a2, r0, k1, k2, k3);
    TimesRow(a3, r0, k1, k2, k3);
    TimesRow(a4, r0, k1, k2, k3);
    Regrouped(Times(a0, r0), Times(a1, r0), Times(a2, r0), Times(a3, r0), Times(a4, r0),
      Times(a0, k1), Times(a0, k2), Times(a0, k3), Times(a1, k1), Times(a1, k2), Times(a1, k3),
      Times(a2, k1), Times(a2, k2), Times(a2, k3), Times(a3, k1), Times(a3, k2), Times(a3, k3),
      Times(a4, k1), Times(a4, k2), Times(a4, k3));
    SameResidue(Horner5(Times(a0, r0) + Times(a1, s3) + Times(a2, s2) + Times(a3, s1),
        Times(a0, r1) + Times(a1, r0) + Times(a2, s3) + Times(a3, s2) + Times(a4, s1),
        Times(a0, r2) + Times(a1, r1) + Times(a2, r0) + Times(a3, s3) + Times(a4, s2),
        Times(a0, r3) + Times(a1, r2) + Times(a2, r1) + Times(a3, r0) + Times(a4, s3),
        Times(a4, r0)),
      Horner5(Times(a1, k3) + Times(a2, k2) + Times(a3, k1), Times(a2, k3) + Times(a3, k2) + Times(a4, k1),
        Times(a3, k3) + Times(a4, k2), Times(a4, k3), 0));
  }

  lemma RowTimes(a0: int, a1: int, a2: int, a3: int, a4: int, k: int)
    ensures Times(Horner5(a0, a1, a2, a3, a4), k)
      == Horner5(Times(a0, k), Times(a1, k), Times(a2, k), Times(a3, k), Times(a4, k))
  {
  }

  lemma TimesRow(x: int, r0: int, k1: int, k2: int, k3: int)
    ensures Times(x, Horner5(r0, 4 * k1, 4 * k2, 4 * k3, 0))
      == Horner5(Times(x, r0), 4 * Times(x, k1), 4 * Times(x, k2), 4 * Times(x, k3), 0)
    ensures Times(x, 4 * k1) == 4 * Times(x, k1) && Times(x, 5 * k1) == 5 * Times(x, k1)
    ensures Times(x, 4 * k2) == 4 * Times(x, k2) && Times(x, 5 * k2) == 5 * Times(x, k2)
    ensures Times(x, 4 * k3) == 4 * Times(x, k3) && Times(x, 5 * k3) == 5 * Times(x, k3)
  {
  }

  // The columns as products x_i = a_i r0 and y_ij = a_i k_j.
  lemma Regrouped(x0: int, x1: int, x2: int, x3: int, x4: int, y01: int, y02: int, y03: int, y11: int, y12: int,
    y13: int,
      y21: int, y22: int, y23: int, y31: int, y32: int, y33: int, y41: int, y42: int, y43: int)
    ensures Horner5(Horner5(x0, 4 * y01, 4 * y02, 4 * y03, 0), Horner5(x1, 4 * y11, 4 * y12, 4 * y13, 0),
        Horner5(x2, 4 * y21, 4 * y22, 4 * y23, 0), Horner5(x3, 4 * y31, 4 * y32, 4 * y33, 0),
        Horner5(x4, 4 * y41, 4 * y42, 4 * y43, 0))
      == Horner5(x0 + 5 * y13 + 5 * y22 + 5 * y31, 4 * y01 + x1 + 5 * y23 + 5 * y32 + 5 * y41,
           4 * y02 + 4 * y11 + x2 + 5 * y33 + 5 * y42, 4 * y03 + 4 * y12 + 4 * y21 + x3 + 5 * y43, x4)
         + P1305 * Horner5(y13 + y22 + y31, y23 + y32 + y41, y33 + y42, y43, 0)
  {
  }

  lemma SameResidue(v: int, q: int)
    ensures Residue(v + P1305 * q) == Residue(v)
  {
    var d, r := v / P1305, v % P1305;
    assert v + P1305 * q == P1305 * (d + q) + r;
    DivModUnique(v + P1305 * q, P1305, d + q, r);
  }

  // The carries out of the columns.
  function CarryProduct(d: Product): (a: Acc)
    requires ProductBounded(d)
    ensures Value(a) == ProductValue(d) && a.w4 <= 0xa000_0002
  {
    hide Low32, High32;
    var d1 := d.d1 + High32(d.d0);
    var d2 := d.d2 + High32(d1);
    var d3 := d.d3 + High32(d2);
    Acc(Low32(d.d0), Low32(d1), Low32(d2), Low32(d3), High32(d3) as uint32 + d.w4)
  }

  // The part above 2^130 folded down once: five times c = acc4 >> 2, added as c + 4c with
  // 4c = acc4 & 0xFFFFFFFC.
  function PartialReduce(a: Acc): (r: Acc)
    requires a.w4 <= 0xa000_0002
    ensures Bounded(r) && r.w4 <= 4 && Residue(Value(r)) == Residue(Value(a))
  {
    hide Low32, High32, Residue, Horner5, Above130, Below130;
    var d0 := a.w0 as uint64 + Above130(a.w4) as uint64 + (Above130(a.w4) * 4) as uint64;
    var d1 := a.w1 as uint64 + High32(d0);
    var d2 := a.w2 as uint64 + High32(d1);
    var d3 := a.w3 as uint64 + High32(d2);
    FoldedWords(a.w0 as int, a.w1 as int, a.w2 as int, a.w3 as int, a.w4 as int, Low32(d0) as int, Low32(d1) as int,
      Low32(d2) as int, Low32(d3) as int, High32(d0) as int, High32(d1) as int, High32(d2) as int, High32(d3) as int,
      Above130(a.w4) as int, Below130(a.w4) as int);
    Acc(Low32(d0), Low32(d1), Low32(d2), Low32(d3), Below130(a.w4) + High32(d3) as uint32)
  }

  // acc4 >> 2 and acc4 & 3
  function Above130(w: uint32): (q: uint32)
    ensures w as int == 4 * q as int + Below130(w) as int
  {
    w / 4
  }

  function Below130(w: uint32): (r: uint32)
    ensures r < 4
  {
    w % 4
  }

  lemma FoldedWords(a0: nat, a1: nat, a2: nat, a3: nat, a4: nat, l0: nat, l1: nat, l2: nat, l3: nat,
      c0: nat, c1: nat, c2: nat, c3: nat, q: nat, r: nat)
    requires a4 == 4 * q + r && r < 4
    requires a0 + q + 4 * q == l0 + 0x1_0000_0000 * c0 && a1 + c0 == l1 + 0x1_0000_0000 * c1
    requires a2 + c1 == l2 + 0x1_0000_0000 * c2 && a3 + c2 == l3 + 0x1_0000_0000 * c3
    requires a0 < 0x1_0000_0000 && a1 < 0x1_0000_0000 && a2 < 0x1_0000_0000 && a3 < 0x1_0000_0000 && a4 <= 0xa000_0002
    ensures Residue(Horner5(l0, l1, l2, l3, r + c3)) == Residue(Horner5(a0, a1, a2, a3, a4))
    ensures c3 <= 1 && Horner5(l0, l1, l2, l3, r + c3) < 0x4_0000_0000_0000_0000_0000_0001_4000_0000
  {
    hide Residue;
    assert Horner5(l0, l1, l2, l3, r + c3) == Horner5(a0 + 5 * q, a1, a2, a3, r);
    SameResidue(Horner5(a0 + 5 * q, a1, a2, a3, r), q);
  }

  // One block of the message: acc := (acc + block + pad 2^128) r, partially reduced.
  function ProcessBlock(a: Acc, b: Key4, pad: uint32, r: Key4): (n: Acc)
    requires Bounded(a) && a.w4 <= 4 && pad <= 1 && Clamped(r)
    ensures Bounded(n) && n.w4 <= 4
    ensures Residue(Value(n))
      == Residue(Times(Value(a) + Value4(b) + 0x1_0000_0000_0000_0000_0000_0000_0000_0000 * pad as int, Value4(r)))
  {
    hide Residue, Times, Multiply, AddBlock, CarryProduct, PartialReduce, Horner5;
    var t := AddBlock(a, b, pad);
    MultiplyIsProduct(t, r);
    PartialReduce(CarryProduct(Multiply(t, r)))
  }

  // ----- poly1305_compute_mac -----

  // (acc & mask_inv) | (g & mask)
  function Select32(acc: uint32, g: uint32, mask: uint32): (w: uint32)
    requires mask == 0 || mask == 0xffff_ffff
    ensures w == if mask == 0 then acc else g
  {
    SelectByMask(acc as int, g as int, mask as int);
    hide Or, And;
    Or(And(acc as int, (0xffff_ffff - mask) as int), And(g as int, mask as int)) as uint32
  }

  lemma SelectByMask(acc: nat, g: nat, mask: nat)
    requires acc < 0x1_0000_0000 && g < 0x1_0000_0000 && (mask == 0 || mask == 0xffff_ffff)
    ensures Or(And(acc, 0xffff_ffff - mask), And(g, mask)) == if mask == 0 then acc else g
  {
    Pow2Values();
    AndAllOnes(acc, 32);
    AndAllOnes(g, 32);
  }

  // (uint32_t) 0U - x
  function Negate32(x: uint32): uint32 { if x == 0 then 0 else 0xffff_ffff - (x - 1) }

  // acc - (2^130 - 5) where that does not go below zero, chosen by a mask from bit 130 of acc + 5.
  function MaskedSubtract(a: Acc): (w: Key4)
    requires Bounded(a) && a.w4 <= 4
    ensures Value4(w) == Low128(Residue(Value(a)))
  {
    hide Low32, High32, Residue, Low128, Select32;
    var d0 := a.w0 as uint64 + 5;
    var d1 := a.w1 as uint64 + High32(d0);
    var d2 := a.w2 as uint64 + High32(d1);
    var d3 := a.w3 as uint64 + High32(d2);
    var g4 := a.w4 + High32(d3) as uint32;
    var mask := Negate32(g4 / 4);
    Chosen(Value(a), Horner5(Low32(d0) as int, Low32(d1) as int, Low32(d2) as int, Low32(d3) as int, 0),
      Horner5(a.w0 as int, a.w1 as int, a.w2 as int, a.w3 as int, 0), a.w4 as int, g4 as int);
    Key4(Select32(a.w0, Low32(d0), mask), Select32(a.w1, Low32(d1), mask),
      Select32(a.w2, Low32(d2), mask), Select32(a.w3, Low32(d3), mask))
  }

  // v = low + 2^128 a4 and v + 5 = g + 2^128 g4.
  lemma Chosen(v: nat, g: nat, low: nat, a4: nat, g4: nat)
    requires v < 0x4_0000_0000_0000_0000_0000_0001_4000_0000
    requires v == low + 0x1_0000_0000_0000_0000_0000_0000_0000_0000 * a4
    requires v + 5 == g + 0x1_0000_0000_0000_0000_0000_0000_0000_0000 * g4
    requires low < 0x1_0000_0000_0000_0000_0000_0000_0000_0000 && g < 0x1_0000_0000_0000_0000_0000_0000_0000_0000
    ensures g4 / 4 <= 1
    ensures Low128(Residue(v)) == if g4 / 4 == 1 then g else low
  {
    var m := 0x1_0000_0000_0000_0000_0000_0000_0000_0000;
    if g4 / 4 == 1 {
      assert g4 <= 7;
      DivModUnique(v, P1305, 1, v - P1305);
      DivModUnique(v - P1305, m, g4 - 4, g);
    } else {
      assert g4 <= 3;
      DivModUnique(v, P1305, 0, v);
      DivModUnique(v, m, a4, low);
    }
  }

  // acc += s modulo 2^128
  function AddKey(w: Key4, s: Key4): (t: Key4)
    ensures Value4(t) == Low128(Value4(w) + Value4(s))
  {
    hide Low32, High32;
    var d0 := w.w0 as uint64 + s.w0 as uint64;
    var d1 := w.w1 as uint64 + s.w1 as uint64 + High32(d0);
    var d2 := w.w2 as uint64 + s.w2 as uint64 + High32(d1);
    var d3 := w.w3 as uint64 + s.w3 as uint64 + High32(d2);
    DivModUnique(Value4(w) + Value4(s), 0x1_0000_0000_0000_0000_0000_0000_0000_0000, High32(d3) as int,
      Horner5(Low32(d0) as int, Low32(d1) as int, Low32(d2) as int, Low32(d3) as int, 0));
    Key4(Low32(d0), Low32(d1), Low32(d2), Low32(d3))
  }
}
