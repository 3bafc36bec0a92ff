// Numbers in radix 2^51 on five limbs, and the algebra of their products modulo p, shared by the
// two 64-bit implementations.
module Limbs51 {
  import opened Words
  import opened Bits
  import opened Field25519

  // The number five limbs stand for, in radix 2^51.
  function Eval(a0: int, a1: int, a2: int, a3: int, a4: int): int {
    a0 + 0x8000000000000 * (a1 + 0x8000000000000 * (a2 + 0x8000000000000 * (a3 + 0x8000000000000 * a4)))
  }

  // Schoolbook rows regrouped into five columns, with the part above 2^255 folded in by 2^255 = 19 + p.
  lemma FoldColumns(p00: int, p01: int, p02: int, p03: int, p04: int,
      p10: int, p11: int, p12: int, p13: int, p14: int,
      p20: int, p21: int, p22: int, p23: int, p24: int,
      p30: int, p31: int, p32: int, p33: int, p34: int,
      p40: int, p41: int, p42: int, p43: int, p44: int)
    ensures Eval(Eval(p00, p01, p02, p03, p04), Eval(p10, p11, p12, p13, p14),
        Eval(p20, p21, p22, p23, p24), Eval(p30, p31, p32, p33, p34), Eval(p40, p41, p42, p43, p44))
      == Eval(p00 + 19 * (p41 + p14 + p23 + p32), p01 + p10 + 19 * (p42 + p24 + p33),
          p02 + p20 + p11 + 19 * (p43 + p34), p03 + p30 + p12 + p21 + 19 * p44, p04 + p40 + p31 + p13 + p22)
        + P * Eval(p41 + p14 + p23 + p32, p42 + p24 + p33, p43 + p34, p44, 0)
  {
  }

  // The five columns of a product, as the C code sums them.
  function ColumnList(r0: int, r1: int, r2: int, r3: int, r4: int, s0: int, s1: int, s2: int, s3: int,
      s4: int): (int, int, int, int, int) {
    (Times(r0, s0) + 19 * (Times(r4, s1) + Times(r1, s4) + Times(r2, s3) + Times(r3, s2)),
     Times(r0, s1) + Times(r1, s0) + 19 * (Times(r4, s2) + Times(r2, s4) + Times(r3, s3)),
     Times(r0, s2) + Times(r2, s0) + Times(r1, s1) + 19 * (Times(r4, s3) + Times(r3, s4)),
     Times(r0, s3) + Times(r3, s0) + Times(r1, s2) + Times(r2, s1) + 19 * Times(r4, s4),
     Times(r0, s4) + Times(r4, s0) + Times(r3, s1) + Times(r1, s3) + Times(r2, s2))
  }

  ghost function Columns(r0: int, r1: int, r2: int, r3: int, r4: int, s0: int, s1: int, s2: int, s3: int,
      s4: int): int {
    var t := ColumnList(r0, r1, r2, r3, r4, s0, s1, s2, s3, s4);
    Eval(t.0, t.1, t.2, t.3, t.4)
  }

  lemma ColumnsFe(r0: int, r1: int, r2: int, r3: int, r4: int, s0: int, s1: int, s2: int, s3: int, s4: int)
    ensures Columns(r0, r1, r2, r3, r4, s0, s1, s2, s3, s4) % P
      == Mul(Eval(r0, r1, r2, r3, r4) % P, Eval(s0, s1, s2, s3, s4) % P)
  {
    hide Eval, Times, Mul;
    var s := Eval(s0, s1, s2, s3, s4);
    RowTimes(s, r0, r1, r2, r3, r4);
    TimesRow(r0, s0, s1, s2, s3, s4);
    TimesRow(r1, s0, s1, s2, s3, s4);
    TimesRow(r2, s0, s1, s2, s3, s4);
    TimesRow(r3, s0, s1, s2, s3, s4);
    TimesRow(r4, s0, s1, s2, s3, s4);
    FoldColumns(Times(r0, s0), Times(r0, s1), Times(r0, s2), Times(r0, s3), Times(r0, s4),
      Times(r1, s0), Times(r1, s1), Times(r1, s2), Times(r1, s3), Times(r1, s4),
      Times(r2, s0), Times(r2, s1), Times(r2, s2), Times(r2, s3), Times(r2, s4),
      Times(r3, s0), Times(r3, s1), Times(r3, s2), Times(r3, s3), Times(r3, s4),
      Times(r4, s0), Times(r4, s1), Times(r4, s2), Times(r4, s3), Times(r4, s4));
    Shift(Times(Eval(r0, r1, r2, r3, r4), s), Columns(r0, r1, r2, r3, r4, s0, s1, s2, s3, s4),
      Eval(Times(r4, s1) + Times(r1, s4) + Times(r2, s3) + Times(r3, s2), Times(r4, s2) + Times(r2, s4) + Times(r3, s3),
        Times(r4, s3) + Times(r3, s4), Times(r4, s4), 0));
    ResidueOfTimes(Eval(r0, r1, r2, r3, r4), s);
  }

  lemma TimesRow(k: int, a0: int, a1: int, a2: int, a3: int, a4: int)
    ensures Times(k, Eval(a0, a1, a2, a3, a4)) == Eval(Times(k, a0), Times(k, a1), Times(k, a2), Times(k, a3),
      Times(k, a4))
  {
  }

  lemma RowTimes(k: int, a0: int, a1: int, a2: int, a3: int, a4: int)
    ensures Times(Eval(a0, a1, a2, a3, a4), k) == Eval(Times(a0, k), Times(a1, k), Times(a2, k), Times(a3, k),
      Times(a4, k))
  {
  }

  lemma ResidueOfTimes(x: int, y: int)
    ensures Mul(x % P, y % P) == Times(x, y) % P
  {
    MulResidues(x, y);
  }

  // A square needs fewer products for the same five columns.
  lemma SquareColumns(r0: int, r1: int, r2: int, r3: int, r4: int)
    ensures ColumnList(r0, r1, r2, r3, r4, r0, r1, r2, r3, r4)
      == (Times(r0, r0) + 38 * Times(r4, r1) + 38 * Times(r2, r3),
          2 * Times(r0, r1) + 38 * Times(r4, r2) + 19 * Times(r3, r3),
          2 * Times(r0, r2) + Times(r1, r1) + 38 * Times(r4, r3),
          2 * Times(r0, r3) + 2 * Times(r1, r2) + 19 * Times(r4, r4),
          2 * Times(r0, r4) + 2 * Times(r1, r3) + Times(r2, r2))
  {
    hide Times;
    TimesCommutes(r0, r1);
    TimesCommutes(r0, r2);
    TimesCommutes(r0, r3);
    TimesCommutes(r0, r4);
    TimesCommutes(r1, r2);
    TimesCommutes(r1, r3);
    TimesCommutes(r1, r4);
    TimesCommutes(r2, r3);
    TimesCommutes(r2, r4);
    TimesCommutes(r3, r4);
  }

  lemma TimesCommutes(x: int, y: int)
    ensures Times(x, y) == Times(y, x)
  {
  }

  // The carries c_i out of the columns t_i, and then once more round through limbs 0 and 1.
  lemma CarryFe(t0: int, t1: int, t2: int, t3: int, t4: int, r0: int, r1: int, r2: int, r3: int, r4: int,
      c0: int, c1: int, c2: int, c3: int, c4: int, d0: int, d1: int)
    requires t0 + 19 * c4 == r0 + 0x8000000000000 * (c0 + d0)
    requires t1 + c0 + d0 == r1 + 0x8000000000000 * (c1 + d1)
    requires t2 + c1 + d1 == r2 + 0x8000000000000 * c2
    requires t3 + c2 == r3 + 0x8000000000000 * c3
    requires t4 + c3 == r4 + 0x8000000000000 * c4
    ensures Eval(r0, r1, r2, r3, r4) % P == Eval(t0, t1, t2, t3, t4) % P
  {
    Shift(Eval(t0, t1, t2, t3, t4), Eval(r0, r1, r2, r3, r4), c4);
  }

  lemma LimbsBelow(t0: int, t1: int, t2: int, t3: int, t4: int, excess: int)
    requires 0 <= t0 < 0x8000000000000 + excess && 0 <= t1 < 0x8000000000000 && 0 <= t2 < 0x8000000000000
    requires 0 <= t3 < 0x8000000000000 && 0 <= t4 < 0x8000000000000
    ensures t0 <= Eval(t0, t1, t2, t3, t4) < Pow2(255) + excess
  {
    Pow2_255();
  }

  lemma FiveDigits(n: nat)
    ensures Eval(n % 0x8000000000000, n / 0x8000000000000 % 0x8000000000000,
        n / 0x40000000000000000000000000 % 0x8000000000000,
          n / 0x200000000000000000000000000000000000000 % 0x8000000000000,
        n / 0x1000000000000000000000000000000000000000000000000000 % 0x8000000000000) == n % Pow2(255)
  {
    Pow2_255();
    var w := 0x8000000000000;
    var q1 := n / w;
    var q2 := q1 / w;
    var q3 := q2 / w;
    var q4 := q3 / w;
    DivDiv(n, w, w);
    DivDiv(n, w * w, w);
    DivDiv(n, w * w * w, w);
    DivModUnique(n, Pow2(255), q4 / w, Eval(n % w, q1 % w, q2 % w, q3 % w, q4 % w));
  }
}
