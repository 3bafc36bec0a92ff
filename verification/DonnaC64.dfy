// curve25519/agl/curve25519-donna-c64.c: Curve25519 on five 51-bit limbs in arrays that are
// updated in place, with 128-bit intermediate products.
module DonnaC64 {
  import opened Words
  import opened Bits
  import opened Bytes
  import opened Field25519
  import opened Limbs51
  import opened Masks
  import opened Rfc7748

  ghost function Value(a: array<uint64>): int
    requires a.Length == 5
    reads a
  {
    Eval(a[0] as int, a[1] as int, a[2] as int, a[3] as int, a[4] as int)
  }

  // The field element a limb array stands for.
  ghost function Fe(a: array<uint64>): int
    requires a.Length == 5
    reads a
  {
    Value(a) % P
  }

  // Limbs as fmul and fsquare_times leave them.
  const TIGHT: uint64 := 0x8000000000000
  // Limbs as fscalar_product leaves them.
  const SCALED: uint64 := TIGHT + 0x2000000
  // Limbs as fdifference_backwards leaves them, which fmul and fsquare_times accept.
  const LOOSE: uint64 := 0x40000000000000 + TIGHT
  // The largest limb below the 2^55 of the comments.
  const WIDE: uint64 := 0x7fffffffffffff

  ghost predicate Bounded(a: array<uint64>, bound: uint64)
    reads a
  {
    a.Length == 5 && a[0] <= bound && a[1] <= bound && a[2] <= bound && a[3] <= bound && a[4] <= bound
  }

  method Copy(output: array<uint64>, input: array<uint64>)
    requires output.Length == 5 == input.Length
    modifies output
    ensures output[..] == old(input[..])
    ensures Fe(output) == old(Fe(input))
    ensures old(Bounded(input, TIGHT)) ==> Bounded(output, TIGHT)
  {
    output[0], output[1], output[2], output[3], output[4] := input[0], input[1], input[2], input[3], input[4];
  }

  lemma SumFe(a0: int, a1: int, a2: int, a3: int, a4: int, b0: int, b1: int, b2: int, b3: int, b4: int)
    ensures Eval(a0 + b0, a1 + b1, a2 + b2, a3 + b3, a4 + b4) % P
      == Add(Eval(a0, a1, a2, a3, a4) % P, Eval(b0, b1, b2, b3, b4) % P)
  {
    AddResidues(Eval(a0, a1, a2, a3, a4), Eval(b0, b1, b2, b3, b4));
  }

  method FSum(output: array<uint64>, input: array<uint64>)
    requires Bounded(output, SCALED) && Bounded(input, TIGHT)
    modifies output
    ensures Bounded(output, LOOSE)
    ensures Fe(output) == Add(old(Fe(output)), old(Fe(input)))
  {
    hide Eval, Add;
    SumFe(output[0] as int, output[1] as int, output[2] as int, output[3] as int, output[4] as int,
      input[0] as int, input[1] as int, input[2] as int, input[3] as int, input[4] as int);
    output[0] := output[0] + input[0];
    output[1] := output[1] + input[1];
    output[2] := output[2] + input[2];
    output[3] := output[3] + input[3];
    output[4] := output[4] + input[4];
  }

  lemma DifferenceFe(a0: int, a1: int, a2: int, a3: int, a4: int, b0: int, b1: int, b2: int, b3: int, b4: int)
    ensures Eval(a0 + 0x3fffffffffff68 - b0, a1 + 0x3ffffffffffff8 - b1, a2 + 0x3ffffffffffff8 - b2,
        a3 + 0x3ffffffffffff8 - b3, a4 + 0x3ffffffffffff8 - b4) % P
      == Sub(Eval(a0, a1, a2, a3, a4) % P, Eval(b0, b1, b2, b3, b4) % P)
  {
    var x, y := Eval(a0, a1, a2, a3, a4), Eval(b0, b1, b2, b3, b4);
    SubResidues(x, y);
    Shift(x - y + P * 8, x - y, 8);
  }

  // output = input - output: adding 8p first keeps every limb non-negative.
  method FDifferenceBackwards(output: array<uint64>, input: array<uint64>)
    requires Bounded(output, 0x10000000000000) && Bounded(input, 0x40000000000000)
    modifies output
    ensures Bounded(output, WIDE)
    ensures old(Bounded(input, TIGHT)) ==> Bounded(output, LOOSE)
    ensures Fe(output) == Sub(old(Fe(input)), old(Fe(output)))
  {
    hide Eval, Sub;
    DifferenceFe(input[0] as int, input[1] as int, input[2] as int, input[3] as int, input[4] as int,
      output[0] as int, output[1] as int, output[2] as int, output[3] as int, output[4] as int);
    var two54m152 := 0x40000000000000 - 152;
    var two54m8 := 0x40000000000000 - 8;
    output[0] := input[0] + two54m152 - output[0];
    output[1] := input[1] + two54m8 - output[1];
    output[2] := input[2] + two54m8 - output[2];
    output[3] := input[3] + two54m8 - output[3];
    output[4] := input[4] + two54m8 - output[4];
  }

  // The carries of fscalar_product: u_i are the columns, c_i the carries out of them.
  lemma ScaledValue(k: int, a0: int, a1: int, a2: int, a3: int, a4: int,
      o0: int, o1: int, o2: int, o3: int, o4: int, c0: int, c1: int, c2: int, c3: int, c4: int)
    requires Times(a0, k) == o0 + 0x8000000000000 * c0
    requires Times(a1, k) + c0 == o1 + 0x8000000000000 * c1
    requires Times(a2, k) + c1 == o2 + 0x8000000000000 * c2
    requires Times(a3, k) + c2 == o3 + 0x8000000000000 * c3
    requires Times(a4, k) + c3 == o4 + 0x8000000000000 * c4
    ensures Times(Eval(a0, a1, a2, a3, a4), k) == Eval(o0 + 19 * c4, o1, o2, o3, o4) + P * c4
  {
    RowTimes(k, a0, a1, a2, a3, a4);
  }

  lemma ScaledResidue(x: int, k: int, v: int, q: int)
    requires Times(x, k) == v + P * q
    ensures v % P == Mul(x % P, k)
  {
    Shift(x * k, v, q);
    ProductShift(x, k);
  }

  // output = input * scalar, carried once; the fold of the top carry leaves limb 0 slightly over 2^51.
  method FScalarProduct(output: array<uint64>, input: array<uint64>, scalar: uint64)
    requires output.Length == 5 && Bounded(input, LOOSE) && scalar <= 0x1ffff
    modifies output
    ensures Bounded(output, SCALED)
    ensures Fe(output) == Mul(old(Fe(input)), scalar as int)
  {
    hide Eval, Mul, Low51, High51, WideMul, Times;
    var i0, i1, i2, i3, i4 := input[0], input[1], input[2], input[3], input[4];
    var p0, p1, p2 := ScaledLimb(i0, scalar), ScaledLimb(i1, scalar), ScaledLimb(i2, scalar);
    var p3, p4 := ScaledLimb(i3, scalar), ScaledLimb(i4, scalar);
    var c0 := High51(p0);
    output[0] := Low51(p0);
    var a := p1 + c0 as uint128;
    var c1 := High51(a);
    output[1] := Low51(a);
    a := p2 + c1 as uint128;
    var c2 := High51(a);
    output[2] := Low51(a);
    a := p3 + c2 as uint128;
    var c3 := High51(a);
    output[3] := Low51(a);
    a := p4 + c3 as uint128;
    var c4 := High51(a);
    output[4] := Low51(a);
    ScaledValue(scalar as int, i0 as int, i1 as int, i2 as int, i3 as int, i4 as int, output[0] as int,
      output[1] as int, output[2] as int, output[3] as int, output[4] as int, c0 as int, c1 as int, c2 as int,
      c3 as int, c4 as int);
    ScaledResidue(old(Value(input)), scalar as int, Eval(output[0] as int + 19 * c4 as int, output[1] as int,
      output[2] as int, output[3] as int, output[4] as int), c4 as int);
    output[0] := output[0] + c4 * 19;
  }

  function ScaledLimb(x: uint64, scalar: uint64): (r: uint128)
    requires x <= LOOSE && scalar <= 0x1ffff
    ensures r as int == Times(x as int, scalar as int) && r <= 0x90_0000_0000_0000_0000
  {
    ProductBound(x as int, scalar as int, 0x48000000000000, 0x1ffff);
    WideMul(x, scalar)
  }

  // (limb) (t >> 51), (limb) t & 0x7ffffffffffff and the conversion itself, on unbounded numbers.
  function Carry64(t: int): (c: nat)
    ensures c < 0x1_0000_0000_0000_0000
  {
    t / 0x8000000000000 % 0x1_0000_0000_0000_0000
  }

  function Limb(t: int): (l: nat)
    ensures l < 0x8000000000000
  {
    t % 0x8000000000000
  }

  function Word(t: int): (w: nat)
    ensures w < 0x1_0000_0000_0000_0000
  {
    t % 0x1_0000_0000_0000_0000
  }

  // The carry chain of fmul with every conversion to 64 bits written out.
  function Wrapped(t0: int, t1: int, t2: int, t3: int, t4: int): (nat, nat, nat, nat, nat) {
    var u1 := t1 + Carry64(t0);
    var u2 := t2 + Carry64(u1);
    var u3 := t3 + Carry64(u2);
    var u4 := t4 + Carry64(u3);
    var x0 := Word(Limb(t0) + Word(Carry64(u4) * 19));
    var x1 := Word(Limb(u1) + Carry64(x0));
    (Limb(x0), Limb(x1), Word(Limb(u2) + Carry64(x1)), Limb(u3), Limb(u4))
  }

  // No carry passes 64 bits, nor does 19 times the last one on top of limb 0.
  predicate CarriesFit(t0: int, t1: int, t2: int, t3: int, t4: int) {
    var u1 := t1 + Carry64(t0);
    var u2 := t2 + Carry64(u1);
    var u3 := t3 + Carry64(u2);
    var u4 := t4 + Carry64(u3);
    && t0 < 0x80000000000000000000000000000 && u1 < 0x80000000000000000000000000000
    && u2 < 0x80000000000000000000000000000 && u3 < 0x80000000000000000000000000000
    && u4 < 0x80000000000000000000000000000 && Limb(t0) + 19 * (u4 / 0x8000000000000) < 0x1_0000_0000_0000_0000
  }

  // What one conversion drops, in units of 2^115.
  lemma Dropped(u: int) returns (k: nat)
    requires 0 <= u < 0x1_0000_0000_0000_0001_0000_0000_0000_0000
    ensures u == Limb(u) + 0x8000000000000 * Carry64(u) + 0x80000000000000000000000000000 * k && k <= 0x2000
    ensures k == 0 <==> u < 0x80000000000000000000000000000
    ensures k == 0 ==> Carry64(u) == u / 0x8000000000000
  {
    var c := u / 0x8000000000000;
    k := c / 0x1_0000_0000_0000_0000;
  }

  // Exactly when the five limbs stand for the columns modulo p: what the conversions drop adds up
  // to a number below p, so the parts cannot make up for each other.
  lemma CarriesRightIff(t0: int, t1: int, t2: int, t3: int, t4: int)
    requires 0 <= t0 < 0x1_0000_0000_0000_0000_0000_0000_0000_0000
    requires 0 <= t1 < 0x1_0000_0000_0000_0000_0000_0000_0000_0000
    requires 0 <= t2 < 0x1_0000_0000_0000_0000_0000_0000_0000_0000
    requires 0 <= t3 < 0x1_0000_0000_0000_0000_0000_0000_0000_0000
    requires 0 <= t4 < 0x1_0000_0000_0000_0000_0000_0000_0000_0000
    ensures var r := Wrapped(t0, t1, t2, t3, t4);
      Eval(r.0, r.1, r.2, r.3, r.4) % P == Eval(t0, t1, t2, t3, t4) % P <==> CarriesFit(t0, t1, t2, t3, t4)
  {
    hide Carry64, Limb, Word, Eval, CarriesFit;
    var u1 := t1 + Carry64(t0);
    var u2 := t2 + Carry64(u1);
    var u3 := t3 + Carry64(u2);
    var u4 := t4 + Carry64(u3);
    var k0 := Dropped(t0);
    var k1 := Dropped(u1);
    var k2 := Dropped(u2);
    var k3 := Dropped(u3);
    var k4 := Dropped(u4);
    var c := Carry64(u4);
    var m := Folded(Limb(t0), c);
    FitIff(t0, t1, t2, t3, t4, k0, k1, k2, k3, k4, m);
    var x0 := Word(Limb(t0) + Word(c * 19));
    FinalCarries(x0, Limb(u1), Limb(u2));
    var x1 := Word(Limb(u1) + Carry64(x0));
    LostParts(t0, t1, t2, t3, t4, Carry64(t0), Carry64(u1), Carry64(u2), Carry64(u3), c, Limb(t0), Limb(u1), Limb(u2),
      Limb(u3), Limb(u4), k0, k1, k2, k3, k4, m, x0, Limb(x0), Limb(x1), Word(Limb(u2) + Carry64(x1)));
  }

  lemma FitIff(t0: int, t1: int, t2: int, t3: int, t4: int, k0: nat, k1: nat, k2: nat, k3: nat, k4: nat, m: nat)
    requires var u1 := t1 + Carry64(t0);
      var u2 := t2 + Carry64(u1);
      var u3 := t3 + Carry64(u2);
      var u4 := t4 + Carry64(u3);
      && (k0 == 0 <==> t0 < 0x80000000000000000000000000000)
      && (k1 == 0 <==> u1 < 0x80000000000000000000000000000)
      && (k2 == 0 <==> u2 < 0x80000000000000000000000000000)
      && (k3 == 0 <==> u3 < 0x80000000000000000000000000000)
      && (k4 == 0 <==> u4 < 0x80000000000000000000000000000)
      && (k4 == 0 ==> Carry64(u4) == u4 / 0x8000000000000)
      && (m == 0 <==> Limb(t0) + 19 * Carry64(u4) < 0x1_0000_0000_0000_0000)
    ensures CarriesFit(t0, t1, t2, t3, t4) <==> k0 == 0 && k1 == 0 && k2 == 0 && k3 == 0 && k4 == 0 && m == 0
  {
    hide Carry64, Limb;
  }

  // The columns with everything the carries c_i and the fold drop: k_i times 2^115 and m times 2^64.
  lemma LostParts(t0: int, t1: int, t2: int, t3: int, t4: int, c0: nat, c1: nat, c2: nat, c3: nat, c4: nat,
      l0: nat, l1: nat, l2: nat, l3: nat, l4: nat, k0: nat, k1: nat, k2: nat, k3: nat, k4: nat,
      m: nat, x0: nat, r0: nat, r1: nat, r2: nat)
    requires t0 == l0 + 0x8000000000000 * c0 + 0x80000000000000000000000000000 * k0
    requires t1 + c0 == l1 + 0x8000000000000 * c1 + 0x80000000000000000000000000000 * k1
    requires t2 + c1 == l2 + 0x8000000000000 * c2 + 0x80000000000000000000000000000 * k2
    requires t3 + c2 == l3 + 0x8000000000000 * c3 + 0x80000000000000000000000000000 * k3
    requires t4 + c3 == l4 + 0x8000000000000 * c4 + 0x80000000000000000000000000000 * k4
    requires l0 + 19 * c4 == x0 + 0x1_0000_0000_0000_0000 * m
    requires x0 + 0x8000000000000 * (l1 + 0x8000000000000 * l2) == r0 + 0x8000000000000 * (r1 + 0x8000000000000 * r2)
    requires k0 <= 0x2000 && k1 <= 0x2000 && k2 <= 0x2000 && k3 <= 0x2000 && k4 <= 0x2000 && m <= 19
    ensures Eval(r0, r1, r2, l3, l4) % P == Eval(t0, t1, t2, t3, t4) % P
      <==> k0 == 0 && k1 == 0 && k2 == 0 && k3 == 0 && k4 == 0 && m == 0
  {
    var lost := 0x1_0000_0000_0000_0000 * m + 0x80000000000000000000000000000 * (k0 + 0x8000000000000 * (k1
      + 0x8000000000000 * k2)) + 19 * 0x2000 * k3 + 19 * 0x1_0000_0000_0000_0000 * k4;
    var q := c4 + 0x2000 * k3 + 0x1_0000_0000_0000_0000 * k4;
    UncarriedEval(t0, t1, t2, t3, t4, c0, c1, c2, c3, c4, l0, l1, l2, l3, l4, k0, k1, k2, k3, k4);
    assert Eval(t0, t1, t2, t3, t4) == Eval(r0, r1, r2, l3, l4) + lost + P * q by {
      FoldedEval(l0, l1, l2, l3, l4, c4, k0, k1, k2, k3, k4, m, x0, r0, r1, r2);
    }
    assert lost < P && (lost == 0 <==> k0 == 0 && k1 == 0 && k2 == 0 && k3 == 0 && k4 == 0 && m == 0);
    hide Eval;
    SameResidueIff(Eval(t0, t1, t2, t3, t4), Eval(r0, r1, r2, l3, l4), lost, q);
  }

  lemma UncarriedEval(t0: int, t1: int, t2: int, t3: int, t4: int, c0: int, c1: int, c2: int, c3: int, c4: int,
      l0: int, l1: int, l2: int, l3: int, l4: int, k0: int, k1: int, k2: int, k3: int, k4: int)
    requires t0 == l0 + 0x8000000000000 * c0 + 0x80000000000000000000000000000 * k0
    requires t1 + c0 == l1 + 0x8000000000000 * c1 + 0x80000000000000000000000000000 * k1
    requires t2 + c1 == l2 + 0x8000000000000 * c2 + 0x80000000000000000000000000000 * k2
    requires t3 + c2 == l3 + 0x8000000000000 * c3 + 0x80000000000000000000000000000 * k3
    requires t4 + c3 == l4 + 0x8000000000000 * c4 + 0x80000000000000000000000000000 * k4
    ensures Eval(t0, t1, t2, t3, t4) == Eval(l0, l1, l2, l3, l4)
      + 0x80000000000000000000000000000 * Eval(k0, k1, k2, k3, k4)
      + 0x8000000000000000000000000000000000000000000000000000000000000000 * c4
  {
  }

  // 2^255 = 19 + p folds what lies above the five limbs.
  lemma FoldedEval(l0: int, l1: int, l2: int, l3: int, l4: int, c: int, k0: int, k1: int, k2: int, k3: int, k4: int,
      m: int, x0: int, r0: int, r1: int, r2: int)
    requires l0 + 19 * c == x0 + 0x1_0000_0000_0000_0000 * m
    requires x0 + 0x8000000000000 * (l1 + 0x8000000000000 * l2) == r0 + 0x8000000000000 * (r1 + 0x8000000000000 * r2)
    ensures Eval(l0, l1, l2, l3, l4) + 0x80000000000000000000000000000 * Eval(k0, k1, k2, k3, k4)
      + 0x8000000000000000000000000000000000000000000000000000000000000000 * c
      == Eval(r0, r1, r2, l3, l4) + 0x1_0000_0000_0000_0000 * m + 0x80000000000000000000000000000 * (k0
      + 0x8000000000000 * (k1 + 0x8000000000000 * k2)) + 19 * 0x2000 * k3 + 19 * 0x1_0000_0000_0000_0000 * k4
      + P * (c + 0x2000 * k3 + 0x1_0000_0000_0000_0000 * k4)
  {
  }

  // 19 times the last carry onto limb 0: what its product and the sum drop, in units of 2^64.
  lemma Folded(l: nat, c: nat) returns (m: nat)
    requires l < 0x8000000000000 && c < 0x1_0000_0000_0000_0000
    ensures l + 19 * c == Word(l + Word(c * 19)) + 0x1_0000_0000_0000_0000 * m && m <= 19
    ensures m == 0 <==> l + 19 * c < 0x1_0000_0000_0000_0000
  {
    m := c * 19 / 0x1_0000_0000_0000_0000 + (l + Word(c * 19)) / 0x1_0000_0000_0000_0000;
  }

  // The short carries out of limbs 0 and 1 lose nothing.
  lemma FinalCarries(x0: nat, l1: nat, l2: nat)
    requires x0 < 0x1_0000_0000_0000_0000 && l1 < 0x8000000000000 && l2 < 0x8000000000000
    ensures var x1 := Word(l1 + Carry64(x0));
      x0 + 0x8000000000000 * (l1 + 0x8000000000000 * l2)
        == Limb(x0) + 0x8000000000000 * (Limb(x1) + 0x8000000000000 * Word(l2 + Carry64(x1)))
      && Word(l2 + Carry64(x1)) <= 0x8000000000000
  {
    var d0 := x0 / 0x8000000000000;
    assert Carry64(x0) == d0 < 0x2000;
    var x1 := Word(l1 + Carry64(x0));
    assert x1 == l1 + d0;
    var d1 := x1 / 0x8000000000000;
    assert Carry64(x1) == d1 <= 1;
    assert Word(l2 + d1) == l2 + d1;
    hide Carry64, Word;
  }

  lemma SmallMultiple(d: int, lost: int)
    requires 0 < lost < P
    ensures P * d != lost
  {
  }

  lemma SameResidueIff(v: int, w: int, lost: int, q: int)
    requires v == w + lost + P * q && 0 <= lost < P
    ensures w % P == v % P <==> lost == 0
  {
    DivMod(v);
    DivMod(w);
    if lost == 0 {
      Shift(v, w, q);
    } else {
      SmallMultiple(v / P - w / P - q, lost);
    }
  }

  // The condition on two operands of fmul, which a caller can evaluate before the call.
  predicate ProductFits(a: array<uint64>, b: array<uint64>)
    requires a.Length == b.Length == 5
    reads a, b
  {
    var t := ColumnList(a[0] as int, a[1] as int, a[2] as int, a[3] as int, a[4] as int,
               b[0] as int, b[1] as int, b[2] as int, b[3] as int, b[4] as int);
    CarriesFit(t.0, t.1, t.2, t.3, t.4)
  }

  // The comments on fmul and fdifference_backwards allow limbs up to 2^55 - 1. With all ten
  // limbs there the conversions to 64 bits lose carries and the result is wrong mod p.
  lemma WideLimbsLoseBits()
    ensures var x := WIDE as int;
      var t := ColumnList(x, x, x, x, x, x, x, x, x, x);
      var r := Wrapped(t.0, t.1, t.2, t.3, t.4);
      && !CarriesFit(t.0, t.1, t.2, t.3, t.4)
      && Eval(r.0, r.1, r.2, r.3, r.4) % P != Mul(Eval(x, x, x, x, x) % P, Eval(x, x, x, x, x) % P)
  {
    var x := WIDE as int;
    var y := Times(x, x);
    assert y == 0x3fffffffffffff00000000000001;
    hide Mul, Eval, Times, Wrapped;
    ColumnsFe(x, x, x, x, x, x, x, x, x, x);
    var t := ColumnList(x, x, x, x, x, x, x, x, x, x);
    assert t == (77 * y, 59 * y, 41 * y, 23 * y, 5 * y);
    CarriesRightIff(77 * y, 59 * y, 41 * y, 23 * y, 5 * y);
  }

  // A product of two LOOSE limbs
  const LOOSE_PRODUCT: int := 0x1440_0000_0000_0000_0000_0000_0000

  // Limbs up to 2^54 + 2^51 always fit.
  lemma LooseFits(t0: int, t1: int, t2: int, t3: int, t4: int)
    requires 0 <= t0 <= 77 * LOOSE_PRODUCT && 0 <= t1 <= 59 * LOOSE_PRODUCT && 0 <= t2 <= 41 * LOOSE_PRODUCT
    requires 0 <= t3 <= 23 * LOOSE_PRODUCT && 0 <= t4 <= 5 * LOOSE_PRODUCT
    ensures CarriesFit(t0, t1, t2, t3, t4)
  {
  }

  lemma LooseColumnsFit(r0: int, r1: int, r2: int, r3: int, r4: int, s0: int, s1: int, s2: int, s3: int, s4: int)
    requires 0 <= r0 <= LOOSE as int && 0 <= r1 <= LOOSE as int && 0 <= r2 <= LOOSE as int
    requires 0 <= r3 <= LOOSE as int && 0 <= r4 <= LOOSE as int
    requires 0 <= s0 <= LOOSE as int && 0 <= s1 <= LOOSE as int && 0 <= s2 <= LOOSE as int
    requires 0 <= s3 <= LOOSE as int && 0 <= s4 <= LOOSE as int
    ensures var t := ColumnList(r0, r1, r2, r3, r4, s0, s1, s2, s3, s4); CarriesFit(t.0, t.1, t.2, t.3, t.4)
  {
    hide Times, CarriesFit;
    LooseRow(r0, s0, s1, s2, s3, s4);
    LooseRow(r1, s0, s1, s2, s3, s4);
    LooseRow(r2, s0, s1, s2, s3, s4);
    LooseRow(r3, s0, s1, s2, s3, s4);
    LooseRow(r4, s0, s1, s2, s3, s4);
    var t := ColumnList(r0, r1, r2, r3, r4, s0, s1, s2, s3, s4);
    LooseFits(t.0, t.1, t.2, t.3, t.4);
  }

  lemma LooseRow(r: int, s0: int, s1: int, s2: int, s3: int, s4: int)
    requires 0 <= r <= LOOSE as int && 0 <= s0 <= LOOSE as int && 0 <= s1 <= LOOSE as int
    requires 0 <= s2 <= LOOSE as int && 0 <= s3 <= LOOSE as int && 0 <= s4 <= LOOSE as int
    ensures 0 <= Times(r, s0) <= LOOSE_PRODUCT && 0 <= Times(r, s1) <= LOOSE_PRODUCT
    ensures 0 <= Times(r, s2) <= LOOSE_PRODUCT && 0 <= Times(r, s3) <= LOOSE_PRODUCT
    ensures 0 <= Times(r, s4) <= LOOSE_PRODUCT
  {
    ProductBound(r, s0, LOOSE as int, LOOSE as int);
    ProductBound(r, s1, LOOSE as int, LOOSE as int);
    ProductBound(r, s2, LOOSE as int, LOOSE as int);
    ProductBound(r, s3, LOOSE as int, LOOSE as int);
    ProductBound(r, s4, LOOSE as int, LOOSE as int);
  }

  // The carry chain shared by fmul and fsquare_times, from the columns t_i to the limbs.
  method CarryColumns(t0: uint128, t1: uint128, t2: uint128, t3: uint128, t4: uint128)
    returns (r0: uint64, r1: uint64, r2: uint64, r3: uint64, r4: uint64)
    requires t0 <= COLUMN && t1 <= COLUMN && t2 <= COLUMN && t3 <= COLUMN && t4 <= COLUMN
    ensures r0 <= TIGHT && r1 <= TIGHT && r2 <= TIGHT && r3 <= TIGHT && r4 <= TIGHT
    ensures Eval(r0 as int, r1 as int, r2 as int, r3 as int, r4 as int) % P
      == Eval(t0 as int, t1 as int, t2 as int, t3 as int, t4 as int) % P
      <==> CarriesFit(t0 as int, t1 as int, t2 as int, t3 as int, t4 as int)
  {
    hide Eval, Limb, Word, Carry64, CarriesFit;
    r0 := Limb(t0 as int) as uint64;
    var c := Carry64(t0 as int);
    var t := t1 + c as uint128;
    r1 := Limb(t as int) as uint64;
    c := Carry64(t as int);
    t := t2 + c as uint128;
    r2 := Limb(t as int) as uint64;
    c := Carry64(t as int);
    t := t3 + c as uint128;
    r3 := Limb(t as int) as uint64;
    c := Carry64(t as int);
    t := t4 + c as uint128;
    r4 := Limb(t as int) as uint64;
    c := Carry64(t as int);
    r0 := Word(r0 as int + Word(c * 19)) as uint64;
    FinalCarries(r0 as int, r1 as int, r2 as int);
    c := Carry64(r0 as int);
    r0 := Limb(r0 as int) as uint64;
    r1 := Word(r1 as int + c) as uint64;
    c := Carry64(r1 as int);
    r1 := Limb(r1 as int) as uint64;
    r2 := Word(r2 as int + c) as uint64;
    CarriesRightIff(t0 as int, t1 as int, t2 as int, t3 as int, t4 as int);
  }

  // Bounds of a product of limbs below 2^55 and of a column of 77 of them.
  const PRODUCT: uint128 := 0x4000_0000_0000_0000_0000_0000_0000
  const COLUMN: uint128 := 77 * PRODUCT

  function MulWide(a: uint64, b: uint64): (r: uint128)
    requires a <= WIDE && b <= WIDE
    ensures r as int == Times(a as int, b as int) && r <= PRODUCT
  {
    WideMulBound(a, b, WIDE as int, WIDE as int);
    WideMul(a, b)
  }

  // A product with one factor already scaled by m.
  function MulScaled(a: uint64, b: uint64, ghost m: int, ghost x: uint64): (r: uint128)
    requires 0 <= m <= 38 && x <= WIDE && b <= WIDE && a as int == m * x as int
    ensures r as int == m * Times(x as int, b as int) && r as int <= m * PRODUCT as int
  {
    ScaledBound(m, x as int, b as int);
    WideMul(a, b)
  }

  lemma ScaledBound(m: int, x: int, y: int)
    requires 0 <= m && 0 <= x <= WIDE as int && 0 <= y <= WIDE as int
    ensures (m * x) * y == m * Times(x, y) <= m * PRODUCT as int
  {
    ProductBound(x, y, WIDE as int, WIDE as int);
    MulMonotone(m, x * y, PRODUCT as int);
  }

  // Right exactly when the carries fit, which they do for all operands that cmult and crecip pass.
  method FMul(output: array<uint64>, in2: array<uint64>, input: array<uint64>)
    requires output.Length == 5 && Bounded(in2, WIDE) && Bounded(input, WIDE)
    modifies output
    ensures Bounded(output, TIGHT) && Bounded(output, LOOSE)
    ensures Fe(output) == Mul(old(Fe(in2)), old(Fe(input))) <==> old(ProductFits(input, in2))
    ensures old(Bounded(in2, LOOSE) && Bounded(input, LOOSE)) ==> Fe(output) == Mul(old(Fe(in2)), old(Fe(input)))
  {
    hide Eval, Mul, Times, MulWide, MulScaled, CarriesFit;
    var r0, r1, r2, r3, r4 := input[0], input[1], input[2], input[3], input[4];
    var s0, s1, s2, s3, s4 := in2[0], in2[1], in2[2], in2[3], in2[4];
    ColumnsFe(r0 as int, r1 as int, r2 as int, r3 as int, r4 as int, s0 as int, s1 as int, s2 as int, s3 as int,
      s4 as int);
    if Bounded(in2, LOOSE) && Bounded(input, LOOSE) {
      LooseColumnsFit(r0 as int, r1 as int, r2 as int, r3 as int, r4 as int, s0 as int, s1 as int, s2 as int,
        s3 as int, s4 as int);
    }
    ghost var i1, i2, i3, i4 := r1, r2, r3, r4;
    var t0 := MulWide(r0, s0);
    var t1 := MulWide(r0, s1) + MulWide(r1, s0);
    var t2 := MulWide(r0, s2) + MulWide(r2, s0) + MulWide(r1, s1);
    var t3 := MulWide(r0, s3) + MulWide(r3, s0) + MulWide(r1, s2) + MulWide(r2, s1);
    var t4 := MulWide(r0, s4) + MulWide(r4, s0) + MulWide(r3, s1) + MulWide(r1, s3) + MulWide(r2, s2);
    r4 := r4 * 19;
    r1 := r1 * 19;
    r2 := r2 * 19;
    r3 := r3 * 19;
    t0 := t0 + (MulScaled(r4, s1, 19, i4) + MulScaled(r1, s4, 19, i1) + MulScaled(r2, s3, 19, i2)
      + MulScaled(r3, s2, 19, i3));
    t1 := t1 + (MulScaled(r4, s2, 19, i4) + MulScaled(r2, s4, 19, i2) + MulScaled(r3, s3, 19, i3));
    t2 := t2 + (MulScaled(r4, s3, 19, i4) + MulScaled(r3, s4, 19, i3));
    t3 := t3 + MulScaled(r4, s4, 19, i4);
    r0, r1, r2, r3, r4 := CarryColumns(t0, t1, t2, t3, t4);
    output[0], output[1], output[2], output[3], output[4] := r0, r1, r2, r3, r4;
    MulCommutes(old(Fe(input)), old(Fe(in2)));
  }

  // One pass of the squaring loop, with the columns of the product of the element with itself.
  method Square(i0: uint64, i1: uint64, i2: uint64, i3: uint64, i4: uint64)
    returns (r0: uint64, r1: uint64, r2: uint64, r3: uint64, r4: uint64)
    requires i0 <= WIDE && i1 <= WIDE && i2 <= WIDE && i3 <= WIDE && i4 <= WIDE
    ensures r0 <= TIGHT && r1 <= TIGHT && r2 <= TIGHT && r3 <= TIGHT && r4 <= TIGHT
    ensures var x := Eval(i0 as int, i1 as int, i2 as int, i3 as int, i4 as int) % P;
      var t := ColumnList(i0 as int, i1 as int, i2 as int, i3 as int, i4 as int, i0 as int, i1 as int, i2 as int,
                 i3 as int, i4 as int);
      Eval(r0 as int, r1 as int, r2 as int, r3 as int, r4 as int) % P == Mul(x, x)
      <==> CarriesFit(t.0, t.1, t.2, t.3, t.4)
    ensures i0 <= LOOSE && i1 <= LOOSE && i2 <= LOOSE && i3 <= LOOSE && i4 <= LOOSE ==>
      var x := Eval(i0 as int, i1 as int, i2 as int, i3 as int, i4 as int) % P;
      Eval(r0 as int, r1 as int, r2 as int, r3 as int, r4 as int) % P == Mul(x, x)
  {
    hide Eval, Mul, Times, MulWide, MulScaled, CarriesFit;
    ColumnsFe(i0 as int, i1 as int, i2 as int, i3 as int, i4 as int, i0 as int, i1 as int, i2 as int, i3 as int,
      i4 as int);
    SquareColumns(i0 as int, i1 as int, i2 as int, i3 as int, i4 as int);
    if i0 <= LOOSE && i1 <= LOOSE && i2 <= LOOSE && i3 <= LOOSE && i4 <= LOOSE {
      LooseColumnsFit(i0 as int, i1 as int, i2 as int, i3 as int, i4 as int, i0 as int, i1 as int, i2 as int,
        i3 as int, i4 as int);
    }
    var d0 := i0 * 2;
    var d1 := i1 * 2;
    var d2 := i2 * 2 * 19;
    var d419 := i4 * 19;
    var d4 := d419 * 2;
    var d319 := i3 * 19;
    var t0 := MulWide(i0, i0) + MulScaled(d4, i1, 38, i4) + MulScaled(d2, i3, 38, i2);
    var t1 := MulScaled(d0, i1, 2, i0) + MulScaled(d4, i2, 38, i4) + MulScaled(d319, i3, 19, i3);
    var t2 := MulScaled(d0, i2, 2, i0) + MulWide(i1, i1) + MulScaled(d4, i3, 38, i4);
    var t3 := MulScaled(d0, i3, 2, i0) + MulScaled(d1, i2, 2, i1) + MulScaled(d419, i4, 19, i4);
    var t4 := MulScaled(d0, i4, 2, i0) + MulScaled(d1, i3, 2, i1) + MulWide(i2, i2);
    r0, r1, r2, r3, r4 := CarryColumns(t0, t1, t2, t3, t4);
  }

  // output = input^(2^count). The C loop tests after decrementing, so count is at least 1.
  method FSquareTimes(output: array<uint64>, input: array<uint64>, count: nat)
    requires output.Length == 5 && Bounded(input, LOOSE) && count >= 1
    modifies output
    ensures Bounded(output, TIGHT) && Bounded(output, LOOSE)
    ensures Fe(output) == Pow(old(Fe(input)), Pow2(count))
  {
    hide Eval, Mul, Pow;
    var r0, r1, r2, r3, r4 := input[0], input[1], input[2], input[3], input[4];
    ghost var x := Fe(input);
    Pow1(x);
    var left := count;
    while left > 0
      invariant r0 <= LOOSE && r1 <= LOOSE && r2 <= LOOSE && r3 <= LOOSE && r4 <= LOOSE
      invariant 0 <= left <= count
      invariant left < count ==> r0 <= TIGHT && r1 <= TIGHT && r2 <= TIGHT && r3 <= TIGHT && r4 <= TIGHT
      invariant Eval(r0 as int, r1 as int, r2 as int, r3 as int, r4 as int) % P == Pow(x, Pow2(count - left))
    {
      r0, r1, r2, r3, r4 := Square(r0, r1, r2, r3, r4);
      PowAdd(x, Pow2(count - left), Pow2(count - left));
      left := left - 1;
    }
    output[0], output[1], output[2], output[3], output[4] := r0, r1, r2, r3, r4;
  }

  ghost predicate Distinct(x2: array<uint64>, z2: array<uint64>, x3: array<uint64>, z3: array<uint64>,
      x: array<uint64>, z: array<uint64>, xprime: array<uint64>, zprime: array<uint64>, qmqp: array<uint64>) {
    && x2 != z2 && x2 != x3 && x2 != z3 && x2 != x && x2 != z && x2 != xprime && x2 != zprime && x2 != qmqp
    && z2 != x3 && z2 != z3 && z2 != x && z2 != z && z2 != xprime && z2 != zprime && z2 != qmqp
    && x3 != z3 && x3 != x && x3 != z && x3 != xprime && x3 != zprime && x3 != qmqp
    && z3 != x && z3 != z && z3 != xprime && z3 != zprime && z3 != qmqp
    && x != z && x != xprime && x != zprime && x != qmqp
    && z != xprime && z != zprime && z != qmqp && xprime != zprime && xprime != qmqp && zprime != qmqp
  }

  // The first statements of fmonty: (x, z) becomes (x + z, x - z).
  method SumAndDifference(x: array<uint64>, z: array<uint64>)
    requires Bounded(x, TIGHT) && Bounded(z, TIGHT) && x != z
    modifies x, z
    ensures Bounded(x, LOOSE) && Bounded(z, LOOSE)
    ensures Fe(x) == Add(old(Fe(x)), old(Fe(z))) && Fe(z) == Sub(old(Fe(x)), old(Fe(z)))
  {
    hide Eval, Add, Sub;
    var origx := new uint64[5];
    Copy(origx, x);
    FSum(x, z);
    FDifferenceBackwards(z, origx);
  }

  // The half of fmonty that computes Q + Q'.
  method AddPoints(x3: array<uint64>, z3: array<uint64>, x: array<uint64>, z: array<uint64>,
      xprime: array<uint64>, zprime: array<uint64>, qmqp: array<uint64>)
    requires x3.Length == z3.Length == 5
    requires Bounded(x, LOOSE) && Bounded(z, LOOSE) && Bounded(xprime, LOOSE) && Bounded(zprime, LOOSE)
    requires Bounded(qmqp, TIGHT) && x3 != z3 && x3 != qmqp && z3 != qmqp
    modifies x3, z3
    ensures Bounded(x3, TIGHT) && Bounded(z3, TIGHT)
    ensures var cb, da := old(Mul(Fe(xprime), Fe(z))), old(Mul(Fe(x), Fe(zprime)));
      && Fe(x3) == Pow(Add(cb, da), 2)
      && Fe(z3) == Mul(Pow(Sub(cb, da), 2), old(Fe(qmqp)))
  {
    hide Eval, Add, Sub, Mul, Pow;
    assert Pow2(1) == 2;
    var xxprime := new uint64[5];
    var zzprime := new uint64[5];
    var zzzprime := new uint64[5];
    FMul(xxprime, xprime, z);
    FMul(zzprime, x, zprime);
    SumAndDifference(xxprime, zzprime);
    FSquareTimes(x3, xxprime, 1);
    FSquareTimes(zzzprime, zzprime, 1);
    FMul(z3, zzzprime, qmqp);
  }

  // The half of fmonty that computes 2Q.
  method DoublePoint(x2: array<uint64>, z2: array<uint64>, x: array<uint64>, z: array<uint64>)
    requires x2.Length == z2.Length == 5 && x2 != z2 && x2 != x && x2 != z && z2 != x && z2 != z
    requires Bounded(x, LOOSE) && Bounded(z, LOOSE)
    modifies x2, z2
    ensures Bounded(x2, TIGHT) && Bounded(z2, TIGHT)
    ensures var aa, bb := old(Pow(Fe(x), 2)), old(Pow(Fe(z), 2));
      Fe(x2) == Mul(aa, bb) && Fe(z2) == Mul(Sub(aa, bb), Add(Mul(Sub(aa, bb), 121665), aa))
  {
    hide Eval, Add, Sub, Mul, Pow;
    assert Pow2(1) == 2;
    var zzz := new uint64[5];
    var xx := new uint64[5];
    var zz := new uint64[5];
    FSquareTimes(xx, x, 1);
    FSquareTimes(zz, z, 1);
    FMul(x2, xx, zz);
    FDifferenceBackwards(zz, xx);
    FScalarProduct(zzz, zz, 121665);
    FSum(zzz, xx);
    FMul(z2, zz, zzz);
  }

  method FMonty(x2: array<uint64>, z2: array<uint64>, x3: array<uint64>, z3: array<uint64>,
      x: array<uint64>, z: array<uint64>, xprime: array<uint64>, zprime: array<uint64>, qmqp: array<uint64>)
    requires x2.Length == z2.Length == x3.Length == z3.Length == 5
    requires Bounded(x, TIGHT) && Bounded(z, TIGHT) && Bounded(xprime, TIGHT) && Bounded(zprime, TIGHT)
    requires Bounded(qmqp, TIGHT) && Distinct(x2, z2, x3, z3, x, z, xprime, zprime, qmqp)
    modifies x2, z2, x3, z3, x, z, xprime, zprime
    ensures Bounded(x2, TIGHT) && Bounded(z2, TIGHT) && Bounded(x3, TIGHT) && Bounded(z3, TIGHT)
    ensures State(Fe(x2), Fe(z2), Fe(x3), Fe(z3))
      == DoubleAdd(old(Fe(qmqp)), old(State(Fe(x), Fe(z), Fe(xprime), Fe(zprime))))
  {
    hide Eval, Add, Sub, Mul, Pow, DoubleAdd;
    ghost var s := State(Fe(x), Fe(z), Fe(xprime), Fe(zprime));
    StepFormulas(Fe(qmqp), s);
    SumAndDifference(x, z);
    SumAndDifference(xprime, zprime);
    AddPoints(x3, z3, x, z, xprime, zprime, qmqp);
    DoublePoint(x2, z2, x, z);
  }

  // fmonty's operand order and signs against those of the RFC.
  lemma StepFormulas(u: int, s: State)
    ensures var a, b := Add(s.x2, s.z2), Sub(s.x2, s.z2);
      var aa, bb := Pow(a, 2), Pow(b, 2);
      var e := Sub(aa, bb);
      var cb, da := Mul(Add(s.x3, s.z3), b), Mul(a, Sub(s.x3, s.z3));
      DoubleAdd(u, s) == State(Mul(aa, bb), Mul(e, Add(Mul(e, 121665), aa)), Pow(Add(cb, da), 2), Mul(Pow(Sub(cb,
        da), 2), u))
  {
    hide Add, Mul, Pow;
    var a, b := Add(s.x2, s.z2), Sub(s.x2, s.z2);
    var c, d := Add(s.x3, s.z3), Sub(s.x3, s.z3);
    var cb, da := Mul(c, b), Mul(a, d);
    assert Sub(da, cb) == (da - cb) % P && Sub(cb, da) == (cb - da) % P;
    hide Sub;
    PowTwo(a);
    PowTwo(b);
    MulCommutes(a, d);
    AddCommutes(cb, da);
    PowTwo(Add(cb, da));
    MulResidues(da - cb, da - cb);
    MulResidues(cb - da, cb - da);
    assert (da - cb) * (da - cb) == (cb - da) * (cb - da);
    PowTwo(Sub(cb, da));
    MulCommutes(Pow(Sub(cb, da), 2), u);
    var e := Sub(Pow(a, 2), Pow(b, 2));
    MulCommutes(e, 121665);
    AddCommutes(Mul(e, 121665), Pow(a, 2));
  }

  method SwapConditional(a: array<uint64>, b: array<uint64>, iswap: uint64)
    requires a.Length == b.Length == 5 && a != b && iswap <= 1
    modifies a, b
    ensures iswap == 1 ==> a[..] == old(b[..]) && b[..] == old(a[..])
    ensures iswap == 0 ==> a[..] == old(a[..]) && b[..] == old(b[..])
    ensures Fe(a) == old(if iswap == 1 then Fe(b) else Fe(a)) && Fe(b) == old(if iswap == 1 then Fe(a) else Fe(b))
    ensures old(Bounded(a, TIGHT) && Bounded(b, TIGHT)) ==> Bounded(a, TIGHT) && Bounded(b, TIGHT)
  {
    hide SwapLimbs, Eval;
    for i := 0 to 5
      invariant forall j :: 0 <= j < i ==> a[j] == if iswap == 1 then old(b[j]) else old(a[j])
      invariant forall j :: 0 <= j < i ==> b[j] == if iswap == 1 then old(a[j]) else old(b[j])
      invariant forall j :: i <= j < 5 ==> a[j] == old(a[j]) && b[j] == old(b[j])
    {
      SwapByMask(iswap, a[i], b[i]);
      var limbs := SwapLimbs(iswap, a[i], b[i]);
      a[i], b[i] := limbs.0, limbs.1;
    }
  }

  ghost function Coordinates(x: array<uint64>, z: array<uint64>, xprime: array<uint64>, zprime: array<uint64>): State
    requires x.Length == z.Length == xprime.Length == zprime.Length == 5
    reads x, z, xprime, zprime
  {
    State(Fe(x), Fe(z), Fe(xprime), Fe(zprime))
  }

  // The current coordinates, the spare buffers and the base point, as the loop of cmult keeps them.
  ghost predicate Ready(nqx: array<uint64>, nqz: array<uint64>, nqpqx: array<uint64>, nqpqz: array<uint64>,
      nqx2: array<uint64>, nqz2: array<uint64>, nqpqx2: array<uint64>, nqpqz2: array<uint64>, q: array<uint64>)
    reads nqx, nqz, nqpqx, nqpqz, q
  {
    && nqx2.Length == nqz2.Length == nqpqx2.Length == nqpqz2.Length == 5
    && Bounded(nqx, TIGHT) && Bounded(nqz, TIGHT) && Bounded(nqpqx, TIGHT) && Bounded(nqpqz, TIGHT) && Bounded(q, TIGHT)
    && Distinct(nqx2, nqz2, nqpqx2, nqpqz2, nqx, nqz, nqpqx, nqpqz, q)
  }

  // The body of cmult's inner loop up to the exchange of the buffers.
  method LadderStep(nqx2: array<uint64>, nqz2: array<uint64>, nqpqx2: array<uint64>, nqpqz2: array<uint64>,
      nqx: array<uint64>, nqz: array<uint64>, nqpqx: array<uint64>, nqpqz: array<uint64>, q: array<uint64>, bit: uint64)
    requires nqx.Length == nqz.Length == nqpqx.Length == nqpqz.Length == q.Length == 5
    requires nqx2.Length == nqz2.Length == nqpqx2.Length == nqpqz2.Length == 5
    requires Ready(nqx, nqz, nqpqx, nqpqz, nqx2, nqz2, nqpqx2, nqpqz2, q) && bit <= 1
    modifies nqx2, nqz2, nqpqx2, nqpqz2, nqx, nqz, nqpqx, nqpqz
    ensures Ready(nqx2, nqz2, nqpqx2, nqpqz2, nqx, nqz, nqpqx, nqpqz, q)
    ensures Fe(q) == old(Fe(q))
    ensures Coordinates(nqx2, nqz2, nqpqx2, nqpqz2)
      == CSwap(bit as int, DoubleAdd(Fe(q), CSwap(bit as int, old(Coordinates(nqx, nqz, nqpqx, nqpqz)))))
  {
    hide Eval, DoubleAdd;
    SwapConditional(nqx, nqpqx, bit);
    SwapConditional(nqz, nqpqz, bit);
    FMonty(nqx2, nqz2, nqpqx2, nqpqz2, nqx, nqz, nqpqx, nqpqz, q);
    SwapConditional(nqx2, nqpqx2, bit);
    SwapConditional(nqz2, nqpqz2, bit);
  }

  // byte >> 7 and byte <<= 1 walk through the bits of the scalar from the top.
  lemma TopBit(n: seq<uint8>, i: nat, j: nat, byte: uint8)
    requires |n| == 32 && i < 32 && j < 8 && byte as int == n[31 - i] as int * Pow2(j) % 256
    ensures byte as int / 128 == Bit(Le(n), 255 - 8 * i - j)
    ensures byte as int * 2 % 256 == n[31 - i] as int * Pow2(j + 1) % 256
  {
    hide Le, Pow2, Pow256;
    var m, x := 31 - i, n[31 - i] as int;
    var v := Le(n) / Pow256(m);
    ByteAt(n, m);
    Pow256IsPow2(m);
    Pow2Add(8 * m, 7 - j);
    DivDiv(Le(n), Pow2(8 * m), Pow2(7 - j));
    assert 8 * m + (7 - j) == 255 - 8 * i - j;
    assert Bit(Le(n), 255 - 8 * i - j) == v / Pow2(7 - j) % 2;
    Pow2Add(7 - j, j);
    Pow2Add(1, j);
    SmallPow2();
    BitOfByte(v, Pow2(7 - j), Pow2(j));
    MulModByte(x, Pow2(j));
  }

  lemma MulModByte(x: nat, m: nat)
    ensures x * m % 256 * 2 % 256 == x * (2 * m) % 256
  {
    hide *;
    var y := x * m;
    assert x * (2 * m) == 2 * y;
    var r := 2 * (y % 256);
    DivModUnique(2 * y, 256, 2 * (y / 256) + r / 256, r % 256);
  }

  // With p = 2^(7-j) and m = 2^j: bit 7-j of v is the top bit of its low byte shifted up by j.
  lemma BitOfByte(v: nat, p: nat, m: nat)
    requires p * m == 128 && p > 0
    ensures v / p % 2 == (v % 256) * m % 256 / 128
  {
    var w, x := v / 256, v % 256;
    ShiftedTopBit(x, p, m);
    var z := m * w;
    assert p * z == 128 * w by {
      assert p * (m * w) == (p * m) * w;
    }
    var d, r := x / p, x % p;
    assert p * (2 * z + d) == 2 * (p * z) + p * d;
    DivModUnique(v, p, 2 * z + d, r);
  }

  lemma ShiftedTopBit(x: nat, p: nat, m: nat)
    requires p * m == 128 && p > 0
    ensures x * m % 256 / 128 == x / p % 2
  {
    var d, r := x / p, x % p;
    var e := r * m;
    assert x == p * d + r;
    assert x * m == 128 * d + e by {
      assert (p * d + r) * m == (p * m) * d + r * m;
    }
    assert 0 <= e < 128 by {
      MulMonotone(m, r, p - 1);
      assert m * (p - 1) == 128 - m;
    }
    TopOfSum(d, e);
  }

  lemma TopOfSum(d: nat, e: nat)
    requires e < 128
    ensures (128 * d + e) % 256 / 128 == d % 2
  {
  }

  method CMult(resultx: array<uint64>, resultz: array<uint64>, n: array<uint8>, q: array<uint64>)
    requires resultx.Length == resultz.Length == 5 && resultx != resultz && n.Length == 32 && q.Length == 5
    requires Bounded(q, TIGHT)
    modifies resultx, resultz
    ensures Bounded(resultx, TIGHT) && Bounded(resultz, TIGHT)
    ensures var s := Eager(old(Fe(q)), Le(n[..]), 256, 0);
      Fe(resultx) == s.x2 && Fe(resultz) == s.z2
  {
    hide *;
    ghost var u, k := Fe(q), Le(n[..]);
    var nqpqx, nqpqz, nqx, nqz, nqpqx2, nqpqz2, nqx2, nqz2 := InitialBuffers(q);
    EagerStart(u, k);
    for i := 0 to 32
      invariant fresh(nqx) && fresh(nqz) && fresh(nqpqx) && fresh(nqpqz)
      invariant fresh(nqx2) && fresh(nqz2) && fresh(nqpqx2) && fresh(nqpqz2)
      invariant nqx.Length == nqz.Length == nqpqx.Length == nqpqz.Length == 5
      invariant nqx2.Length == nqz2.Length == nqpqx2.Length == nqpqz2.Length == 5
      invariant Ready(nqx, nqz, nqpqx, nqpqz, nqx2, nqz2, nqpqx2, nqpqz2, q)
      invariant Coordinates(nqx, nqz, nqpqx, nqpqz) == Eager(u, k, 256, 256 - 8 * i) && Fe(q) == u
    {
      var byte := n[31 - i];
      FirstShift(byte as int);
      for j := 0 to 8
        invariant fresh(nqx) && fresh(nqz) && fresh(nqpqx) && fresh(nqpqz)
        invariant fresh(nqx2) && fresh(nqz2) && fresh(nqpqx2) && fresh(nqpqz2)
        invariant nqx.Length == nqz.Length == nqpqx.Length == nqpqz.Length == 5
        invariant nqx2.Length == nqz2.Length == nqpqx2.Length == nqpqz2.Length == 5
        invariant Ready(nqx, nqz, nqpqx, nqpqz, nqx2, nqz2, nqpqx2, nqpqz2, q)
        invariant byte as int == n[31 - i] as int * Pow2(j) % 256
        invariant Coordinates(nqx, nqz, nqpqx, nqpqz) == Eager(u, k, 256, 256 - 8 * i - j) && Fe(q) == u
      {
        TopBit(n[..], i, j, byte);
        var bit := byte as uint64 / 128;
        LadderStep(nqx2, nqz2, nqpqx2, nqpqz2, nqx, nqz, nqpqx, nqpqz, q, bit);
        EagerStep(u, k, 255 - 8 * i - j);
        nqx, nqx2 := nqx2, nqx;
        nqz, nqz2 := nqz2, nqz;
        nqpqx, nqpqx2 := nqpqx2, nqpqx;
        nqpqz, nqpqz2 := nqpqz2, nqpqz;
        byte := (byte as int * 2 % 256) as uint8;
      }
    }
    Finished(nqx, nqz, nqpqx, nqpqz, nqx2, nqz2, nqpqx2, nqpqz2, q);
    Copy(resultx, nqx);
    Copy(resultz, nqz);
  }

  lemma FirstShift(x: nat)
    requires x < 256
    ensures x == x * Pow2(0) % 256
  {
  }

  lemma Finished(nqx: array<uint64>, nqz: array<uint64>, nqpqx: array<uint64>, nqpqz: array<uint64>,
      nqx2: array<uint64>, nqz2: array<uint64>, nqpqx2: array<uint64>, nqpqz2: array<uint64>, q: array<uint64>)
    requires Ready(nqx, nqz, nqpqx, nqpqz, nqx2, nqz2, nqpqx2, nqpqz2, q)
    ensures Bounded(nqx, TIGHT) && Bounded(nqz, TIGHT) && nqpqx.Length == nqpqz.Length == 5
    ensures var s := Coordinates(nqx, nqz, nqpqx, nqpqz); s.x2 == Fe(nqx) && s.z2 == Fe(nqz)
  {
  }

  // The declarations at the head of cmult: (1 : 0), (q : 1) and four spare buffers.
  method InitialBuffers(q: array<uint64>)
    returns (nqpqx: array<uint64>, nqpqz: array<uint64>, nqx: array<uint64>, nqz: array<uint64>,
      nqpqx2: array<uint64>, nqpqz2: array<uint64>, nqx2: array<uint64>, nqz2: array<uint64>)
    requires q.Length == 5 && Bounded(q, TIGHT)
    ensures fresh(nqx) && fresh(nqz) && fresh(nqpqx) && fresh(nqpqz)
    ensures fresh(nqx2) && fresh(nqz2) && fresh(nqpqx2) && fresh(nqpqz2)
    ensures nqx.Length == nqz.Length == nqpqx.Length == nqpqz.Length == 5
    ensures nqx2.Length == nqz2.Length == nqpqx2.Length == nqpqz2.Length == 5
    ensures Ready(nqx, nqz, nqpqx, nqpqz, nqx2, nqz2, nqpqx2, nqpqz2, q)
    ensures Coordinates(nqx, nqz, nqpqx, nqpqz) == State(1, 0, Fe(q), 1)
  {
    hide Fe, Bounded;
    nqpqx2, nqpqz2 := NewPair(0, 1);
    nqx2, nqz2 := NewPair(0, 1);
    nqpqx, nqpqz := NewPair(0, 1);
    nqx, nqz := NewPair(1, 0);
    Copy(nqpqx, q);
  }

  method NewPair(x: uint64, z: uint64) returns (a: array<uint64>, b: array<uint64>)
    requires x <= 1 && z <= 1
    ensures fresh(a) && fresh(b) && a != b && a.Length == b.Length == 5
    ensures Bounded(a, TIGHT) && Bounded(b, TIGHT) && Fe(a) == x as int && Fe(b) == z as int
  {
    hide Fe, Bounded;
    a := NewLimbs(x);
    b := NewLimbs(z);
  }

  // limb a[5] = {first}
  method NewLimbs(first: uint64) returns (a: array<uint64>)
    requires first <= 1
    ensures fresh(a) && a.Length == 5 && Bounded(a, TIGHT) && Fe(a) == first as int
  {
    a := new uint64[5];
    a[0], a[1], a[2], a[3], a[4] := first, 0, 0, 0, 0;
  }

  lemma EagerStart(u: int, k: nat)
    ensures Eager(u, k, 256, 256) == State(1, 0, u, 1)
  {
  }

  lemma EagerStep(u: int, k: nat, t: nat)
    requires t < 256
    ensures Eager(u, k, 256, t) == CSwap(Bit(k, t), DoubleAdd(u, CSwap(Bit(k, t), Eager(u, k, 256, t + 1))))
  {
  }

  lemma Loosen(a: array<uint64>)
    requires a.Length == 5 && Bounded(a, TIGHT)
    ensures Bounded(a, LOOSE) && Bounded(a, WIDE)
  {
  }

  // The head of crecip: a = z^11 and b = z^31.
  method RecipStart(a: array<uint64>, t0: array<uint64>, b: array<uint64>, z: array<uint64>)
    requires a.Length == t0.Length == b.Length == z.Length == 5 && Bounded(z, LOOSE)
    requires a != t0 && a != b && a != z && t0 != b && t0 != z && b != z
    modifies a, t0, b
    ensures Bounded(a, LOOSE) && Bounded(b, LOOSE)
    ensures Fe(a) == Pow(old(Fe(z)), 11) && Fe(b) == Pow(old(Fe(z)), Pow2(5) - 1)
  {
    hide Fe, Pow, Pow2, Mul;
    ghost var x := Fe(z);
    SmallPowers(x);
    FeRange(z);
    FSquareTimes(a, z, 1);
    FSquareTimes(t0, a, 2);
    FMul(b, t0, z);
    FMul(a, b, a);
    FSquareTimes(t0, a, 1);
    FMul(b, t0, b);
  }

  lemma FeRange(a: array<uint64>)
    requires a.Length == 5
    ensures 0 <= Fe(a) < P
  {
  }

  // One link of the chain: t0 = s^(2^n), output = t0 * b, which lengthens a run of ones in the exponent of x.
  method Link(output: array<uint64>, t0: array<uint64>, s: array<uint64>, n: nat, b: array<uint64>, ghost x: int,
    ghost m: nat)
    requires output.Length == t0.Length == s.Length == b.Length == 5 && n >= 1 && t0 != b
    requires Bounded(s, LOOSE) && Bounded(b, LOOSE)
    requires Fe(s) == Pow(x, Pow2(m) - 1) && Fe(b) == Pow(x, Pow2(n) - 1)
    modifies output, t0
    ensures Bounded(output, LOOSE) && Fe(output) == Pow(x, Pow2(m + n) - 1)
  {
    hide Fe, Pow, Pow2, Mul;
    FSquareTimes(t0, s, n);
    ExtendRun(x, m, n);
    FMul(output, t0, b);
  }

  // The middle of crecip: from b = x^(2^5 - 1) to t0 = x^(2^250 - 1).
  method RunOf250(t0: array<uint64>, b: array<uint64>, c: array<uint64>, ghost x: int)
    requires t0.Length == b.Length == c.Length == 5 && t0 != b && t0 != c && b != c
    requires Bounded(b, LOOSE) && Fe(b) == Pow(x, Pow2(5) - 1)
    modifies t0, b, c
    ensures Bounded(t0, LOOSE) && Fe(t0) == Pow(x, Pow2(250) - 1)
  {
    hide *;
    Link(b, t0, b, 5, b, x, 5);
    Link(c, t0, b, 10, b, x, 10);
    Link(t0, t0, c, 20, c, x, 20);
    Link(b, t0, t0, 10, b, x, 40);
    Link(c, t0, b, 50, b, x, 50);
    Link(t0, t0, c, 100, c, x, 100);
    Link(t0, t0, t0, 50, b, x, 200);
  }

  // out = z^(2^255 - 21): the chain of squarings and products ends at the exponent p - 2.
  method CRecip(out: array<uint64>, z: array<uint64>)
    requires out.Length == z.Length == 5 && Bounded(z, TIGHT)
    modifies out
    ensures Bounded(out, TIGHT)
    ensures Fe(out) == Pow(old(Fe(z)), P - 2)
  {
    hide Fe, Pow, Pow2, Mul;
    ghost var x := Fe(z);
    var a, t0, b, c := new uint64[5], new uint64[5], new uint64[5], new uint64[5];
    Loosen(z);
    RecipStart(a, t0, b, z);
    RunOf250(t0, b, c, x);
    FSquareTimes(t0, t0, 5);
    InversionExponent();
    ShiftExponent(x, Pow2(250) - 1, 5, 11, P - 2);
    FMul(out, t0, a);
  }

  // Eight bytes from a; an or of shifted bytes, which share no bit, is their sum.
  function LoadLimb(a: array<uint8>, i: nat): (r: uint64)
    requires i + 8 <= a.Length
    reads a
    ensures r as int == Le(a[..]) / Pow256(i) % 0x1_0000_0000_0000_0000
  {
    Window(a[..], i, 8);
    Le8(a[i..i + 8]);
    assert a[..][i..i + 8] == a[i..i + 8];
    Pow256Of8();
    a[i] as uint64 + 0x100 * a[i + 1] as uint64 + 0x1_0000 * a[i + 2] as uint64 + 0x100_0000 * a[i + 3] as uint64
    + 0x1_0000_0000 * a[i + 4] as uint64 + 0x100_0000_0000 * a[i + 5] as uint64
    + 0x1_0000_0000_0000 * a[i + 6] as uint64 + 0x100_0000_0000_0000 * a[i + 7] as uint64
  }

  method FExpand(output: array<uint64>, input: array<uint8>)
    requires output.Length == 5 && input.Length == 32
    modifies output
    ensures Bounded(output, TIGHT)
    ensures Value(output) == Le(input[..]) % Pow2(255)
    ensures Fe(output) == DecodeU(input[..])
  {
    hide Eval, Le, Pow2, LoadLimb;
    output[0] := LoadLimb(input, 0) % 0x8000000000000;
    output[1] := LoadLimb(input, 6) / 8 % 0x8000000000000;
    output[2] := LoadLimb(input, 12) / 64 % 0x8000000000000;
    output[3] := LoadLimb(input, 19) / 2 % 0x8000000000000;
    output[4] := LoadLimb(input, 24) / 4096 % 0x8000000000000;
    ExpandDigits(Le(input[..]));
  }

  lemma Pow256Of8()
    ensures Pow256(8) == 0x1_0000_0000_0000_0000
  {
  }

  lemma ExpandDigits(n: nat)
    ensures Eval(n / Pow256(0) % 0x1_0000_0000_0000_0000 % 0x8000000000000,
        n / Pow256(6) % 0x1_0000_0000_0000_0000 / 8 % 0x8000000000000,
        n / Pow256(12) % 0x1_0000_0000_0000_0000 / 64 % 0x8000000000000,
        n / Pow256(19) % 0x1_0000_0000_0000_0000 / 2 % 0x8000000000000,
        n / Pow256(24) % 0x1_0000_0000_0000_0000 / 4096 % 0x8000000000000) == n % Pow2(255)
  {
    hide Eval;
    FiveDigits(n);
    ExtractAt(n, Pow256(0), 1, 0x8000000000000, 8192);
    ExtractAt(n, Pow256(6), 8, 0x8000000000000, 1024);
    ExtractAt(n, Pow256(12), 64, 0x8000000000000, 128);
    ExtractAt(n, Pow256(19), 2, 0x8000000000000, 4096);
    ExtractAt(n, Pow256(24), 4096, 0x8000000000000, 2);
    ByteOffsets();
  }

  lemma ByteOffsets()
    ensures Pow256(0) == 1 && Pow256(6) * 8 == 0x8000000000000 && Pow256(12) * 64 == 0x40000000000000000000000000
    ensures Pow256(19) * 2 == 0x200000000000000000000000000000000000000
    ensures Pow256(24) * 4096 == 0x1000000000000000000000000000000000000000000000000000
  {
    Pow256IsPow2(6);
    Pow256IsPow2(12);
    Pow256IsPow2(19);
    Pow256IsPow2(24);
    Pow2Values();
    Pow2Add(32, 16);
    Pow2Add(64, 32);
    Pow2Add(128, 16);
    Pow2Add(144, 8);
    Pow2Add(128, 64);
  }

  // One carry pass of fcontract over the limbs; what leaves limb 4 comes back times 19.
  method CarryPass(i0: uint128, i1: uint128, i2: uint128, i3: uint128, i4: uint128)
    returns (t0: uint128, t1: uint128, t2: uint128, t3: uint128, t4: uint128, ghost q: int)
    requires i0 < 0x2_0000_0000_0000_0000 && i1 < 0x1_0000_0000_0000_0000 && i2 < 0x1_0000_0000_0000_0000
    requires i3 < 0x1_0000_0000_0000_0000 && i4 < 0x1_0000_0000_0000_0000
    ensures t1 < 0x8000000000000 && t2 < 0x8000000000000 && t3 < 0x8000000000000 && t4 < 0x8000000000000
    ensures 0 <= q <= 0x4000 && 19 * q <= t0 as int < 0x8000000000000 + 19 * q
    ensures Eval(i0 as int, i1 as int, i2 as int, i3 as int, i4 as int)
      == Eval(t0 as int, t1 as int, t2 as int, t3 as int, t4 as int) + P * q
  {
    hide Mask51, Shr51;
    t1 := i1 + Shr51(i0);
    t0 := Mask51(i0);
    t2 := i2 + Shr51(t1);
    t1 := Mask51(t1);
    t3 := i3 + Shr51(t2);
    t2 := Mask51(t2);
    t4 := i4 + Shr51(t3);
    t3 := Mask51(t3);
    q := Shr51(t4) as int;
    t0 := t0 + 19 * Shr51(t4);
    t4 := Mask51(t4);
  }

  // Limbs that stand for the residue after the three passes and the offset of fcontract.
  lemma SecondPass(v1: int, v2: int, q2: int, t0: int)
    requires v1 < Pow2(255) + 0x100000 && v1 == v2 + P * q2 && 0 <= q2 && 0 <= v2 && t0 <= v2
    requires t0 < 0x8000000000000 + 19 * q2
    ensures t0 < 0x8000000000000 && q2 <= 1
  {
    Pow2_255();
  }

  // Adding 19 carries out of limb 4 exactly when the value was at least p.
  lemma ThirdPass(v2: int, v3: int, q3: int, t0: int)
    requires 0 <= v2 < Pow2(255) && v2 + 19 == v3 + P * q3 && 0 <= q3 && 19 * q3 <= t0 <= v3 < Pow2(255) + 19 * q3
    requires t0 < 0x8000000000000 + 19 * q3
    ensures v3 - 19 == v2 % P && t0 < 0x8000000000000
  {
    Pow2_255();
    Shift(v2, v3 - 19, q3);
  }

  // The canonical residue as five limbs, from any five limbs whatever.
  method Freeze(input: array<uint64>)
    returns (t0: uint128, t1: uint128, t2: uint128, t3: uint128, t4: uint128)
    requires input.Length == 5
    ensures t0 < 0x8000000000000 && t1 < 0x8000000000000 && t2 < 0x8000000000000 && t3 < 0x8000000000000
      && t4 < 0x8000000000000
    ensures Eval(t0 as int, t1 as int, t2 as int, t3 as int, t4 as int) == Fe(input)
  {
    t0, t1, t2 := input[0] as uint128, input[1] as uint128, input[2] as uint128;
    t3, t4 := input[3] as uint128, input[4] as uint128;
    ghost var v0, q1, q2, q3 := Value(input), 0, 0, 0;
    t0, t1, t2, t3, t4, q1 := CarryPass(t0, t1, t2, t3, t4);
    ghost var v1 := Eval(t0 as int, t1 as int, t2 as int, t3 as int, t4 as int);
    Shift(v0, v1, q1);
    LimbsBelow(t0 as int, t1 as int, t2 as int, t3 as int, t4 as int, 0x100000);
    t0, t1, t2, t3, t4, q2 := CarryPass(t0, t1, t2, t3, t4);
    ghost var v2 := Eval(t0 as int, t1 as int, t2 as int, t3 as int, t4 as int);
    Shift(v1, v2, q2);
    SecondPass(v1, v2, q2, t0 as int);
    LimbsBelow(t0 as int, t1 as int, t2 as int, t3 as int, t4 as int, 0);
    t0 := t0 + 19;
    t0, t1, t2, t3, t4, q3 := CarryPass(t0, t1, t2, t3, t4);
    ghost var v3 := Eval(t0 as int, t1 as int, t2 as int, t3 as int, t4 as int);
    LimbsBelow(t0 as int, t1 as int, t2 as int, t3 as int, t4 as int, 19 * q3);
    ThirdPass(v2, v3, q3, t0 as int);
    t0, t1, t2, t3, t4 := RemoveOffset(t0, t1, t2, t3, t4);
  }

  // Adding 2^255 - 19 limb by limb and dropping the final carry takes the 19 off again without a borrow.
  method RemoveOffset(i0: uint128, i1: uint128, i2: uint128, i3: uint128, i4: uint128)
    returns (t0: uint128, t1: uint128, t2: uint128, t3: uint128, t4: uint128)
    requires i0 < 0x8000000000000 && i1 < 0x8000000000000 && i2 < 0x8000000000000 && i3 < 0x8000000000000
      && i4 < 0x8000000000000
    requires 19 <= Eval(i0 as int, i1 as int, i2 as int, i3 as int, i4 as int)
    ensures t0 < 0x8000000000000 && t1 < 0x8000000000000 && t2 < 0x8000000000000 && t3 < 0x8000000000000
      && t4 < 0x8000000000000
    ensures Eval(t0 as int, t1 as int, t2 as int, t3 as int, t4 as int)
      == Eval(i0 as int, i1 as int, i2 as int, i3 as int, i4 as int) - 19
  {
    hide Mask51, Shr51;
    t0 := i0 + (0x8000000000000 - 19);
    t1 := i1 + (0x8000000000000 - 1);
    t2 := i2 + (0x8000000000000 - 1);
    t3 := i3 + (0x8000000000000 - 1);
    t4 := i4 + (0x8000000000000 - 1);
    t1 := t1 + Shr51(t0);
    t0 := Mask51(t0);
    t2 := t2 + Shr51(t1);
    t1 := Mask51(t1);
    t3 := t3 + Shr51(t2);
    t2 := Mask51(t2);
    t4 := t4 + Shr51(t3);
    t3 := Mask51(t3);
    ghost var dropped := Shr51(t4);
    t4 := Mask51(t4);
    LimbsBelow(t0 as int, t1 as int, t2 as int, t3 as int, t4 as int, 0);
    LimbsBelow(i0 as int, i1 as int, i2 as int, i3 as int, i4 as int, 0);
    Pow2_255();
    assert dropped == 1;
  }

  method StoreLimb(output: array<uint8>, i: nat, limb: uint64)
    requires i + 8 <= output.Length
    modifies output
    ensures output[..i + 8] == old(output[..i]) + ToLe(limb as int, 8)
    ensures output[i + 8..] == old(output[i + 8..])
  {
    output[i] := (limb % 0x100) as uint8;
    output[i + 1] := (limb / 0x100 % 0x100) as uint8;
    output[i + 2] := (limb / 0x1_0000 % 0x100) as uint8;
    output[i + 3] := (limb / 0x100_0000 % 0x100) as uint8;
    output[i + 4] := (limb / 0x1_0000_0000 % 0x100) as uint8;
    output[i + 5] := (limb / 0x100_0000_0000 % 0x100) as uint8;
    output[i + 6] := (limb / 0x1_0000_0000_0000 % 0x100) as uint8;
    output[i + 7] := (limb / 0x100_0000_0000_0000 % 0x100) as uint8;
    EightBytes(limb as int);
    assert output[i..i + 8] == ToLe(limb as int, 8);
    assert output[..i + 8] == output[..i] + output[i..i + 8];
  }

  lemma EightBytes(n: nat)
    requires n < 0x1_0000_0000_0000_0000
    ensures ToLe(n, 8) == [(n % 0x100) as uint8, (n / 0x100 % 0x100) as uint8, (n / 0x1_0000 % 0x100) as uint8,
      (n / 0x100_0000 % 0x100) as uint8, (n / 0x1_0000_0000 % 0x100) as uint8, (n / 0x100_0000_0000 % 0x100) as uint8,
      (n / 0x1_0000_0000_0000 % 0x100) as uint8, (n / 0x100_0000_0000_0000 % 0x100) as uint8]
  {
    hide ToLe;
    SmallPowersOf256();
    ToLeAt(n, 8, 0);
    ToLeAt(n, 8, 1);
    ToLeAt(n, 8, 2);
    ToLeAt(n, 8, 3);
    ToLeAt(n, 8, 4);
    ToLeAt(n, 8, 5);
    ToLeAt(n, 8, 6);
    ToLeAt(n, 8, 7);
  }

  lemma SmallPowersOf256()
    ensures Pow256(0) == 1 && Pow256(1) == 0x100 && Pow256(2) == 0x1_0000 && Pow256(3) == 0x100_0000
    ensures Pow256(4) == 0x1_0000_0000 && Pow256(5) == 0x100_0000_0000 && Pow256(6) == 0x1_0000_0000_0000
    ensures Pow256(7) == 0x100_0000_0000_0000
  {
  }

  // (limb) (low | high << k), where the conversion keeps the lower 64 bits of the 128-bit value.
  function Pack(low: uint128, high: uint128, k: nat): (r: uint64)
    requires low as int < Pow2(k) && high as int * Pow2(k) < 0x1_0000_0000_0000_0000_0000_0000_0000_0000
    ensures r as int == (low as int + high as int * Pow2(k)) % 0x1_0000_0000_0000_0000
  {
    OrDisjoint(low as int, high as int, k);
    (Or(low as int, high as int * Pow2(k)) % 0x1_0000_0000_0000_0000) as uint64
  }

  lemma PackedLimbs(t0: int, t1: int, t2: int, t3: int, t4: int)
    requires 0 <= t0 < 0x8000000000000 && 0 <= t1 < 0x8000000000000 && 0 <= t2 < 0x8000000000000
    requires 0 <= t3 < 0x8000000000000 && 0 <= t4 < 0x8000000000000
    ensures (t0 + t1 * 0x8000000000000) % 0x1_0000_0000_0000_0000
      + 0x1_0000_0000_0000_0000 * ((t1 / 0x2000 + t2 * 0x4000000000) % 0x1_0000_0000_0000_0000
      + 0x1_0000_0000_0000_0000 * ((t2 / 0x4000000 + t3 * 0x2000000) % 0x1_0000_0000_0000_0000
      + 0x1_0000_0000_0000_0000 * ((t3 / 0x8000000000 + t4 * 0x1000) % 0x1_0000_0000_0000_0000)))
      == Eval(t0, t1, t2, t3, t4)
  {
    var a1, b1 := t1 % 0x2000, t1 / 0x2000;
    var a2, b2 := t2 % 0x4000000, t2 / 0x4000000;
    var a3, b3 := t3 % 0x8000000000, t3 / 0x8000000000;
    DivModUnique(t0 + t1 * 0x8000000000000, 0x1_0000_0000_0000_0000, b1, t0 + a1 * 0x8000000000000);
    DivModUnique(b1 + t2 * 0x4000000000, 0x1_0000_0000_0000_0000, b2, b1 + a2 * 0x4000000000);
    DivModUnique(b2 + t3 * 0x2000000, 0x1_0000_0000_0000_0000, b3, b2 + a3 * 0x2000000);
    DivModUnique(b3 + t4 * 0x1000, 0x1_0000_0000_0000_0000, 0, b3 + t4 * 0x1000);
  }

  lemma PackShifts()
    ensures Pow2(51) == 0x8000000000000 && Pow2(38) == 0x4000000000 && Pow2(25) == 0x2000000 && Pow2(12) == 0x1000
  {
    Pow2Values();
    assert Pow2(3) == 8 && Pow2(6) == 64 && Pow2(4) == 16 && Pow2(9) == 512;
    Pow2Add(32, 16);
    Pow2Add(48, 3);
    Pow2Add(32, 6);
    Pow2Add(16, 9);
    Pow2Add(8, 4);
  }

  // The unique 32-byte encoding below p, for every limb vector.
  method FContract(output: array<uint8>, input: array<uint64>)
    requires output.Length == 32 && input.Length == 5
    modifies output
    ensures Le(output[..]) == Fe(input)
  {
    hide *;
    var t0, t1, t2, t3, t4 := Freeze(input);
    var w0, w1, w2, w3 := WordsOfLimbs(t0, t1, t2, t3, t4);
    StoreWords(output, w0, w1, w2, w3);
  }

  // fcontract(fexpand(b)) is (b mod 2^255) mod p.
  method ContractExpanded(b: array<uint8>) returns (output: array<uint8>)
    requires b.Length == 32
    ensures fresh(output) && output.Length == 32 && Le(output[..]) == Le(b[..]) % Pow2(255) % P
  {
    hide Le, Eval, Pow2;
    var limbs := new uint64[5];
    output := new uint8[32];
    FExpand(limbs, b);
    FContract(output, limbs);
  }

  method WordsOfLimbs(t0: uint128, t1: uint128, t2: uint128, t3: uint128, t4: uint128)
    returns (w0: uint64, w1: uint64, w2: uint64, w3: uint64)
    requires t0 < 0x8000000000000 && t1 < 0x8000000000000 && t2 < 0x8000000000000 && t3 < 0x8000000000000
      && t4 < 0x8000000000000
    ensures w0 as int + 0x1_0000_0000_0000_0000 * (w1 as int
      + 0x1_0000_0000_0000_0000 * (w2 as int + 0x1_0000_0000_0000_0000 * w3 as int))
      == Eval(t0 as int, t1 as int, t2 as int, t3 as int, t4 as int)
  {
    hide Eval, Pow2, Pack;
    PackShifts();
    PackedLimbs(t0 as int, t1 as int, t2 as int, t3 as int, t4 as int);
    w0 := Pack(t0, t1, 51);
    w1 := Pack(t1 / 0x2000, t2, 38);
    w2 := Pack(t2 / 0x4000000, t3, 25);
    w3 := Pack(t3 / 0x8000000000, t4, 12);
  }

  method StoreWords(output: array<uint8>, w0: uint64, w1: uint64, w2: uint64, w3: uint64)
    requires output.Length == 32
    modifies output
    ensures Le(output[..]) == w0 as int + 0x1_0000_0000_0000_0000 * (w1 as int
      + 0x1_0000_0000_0000_0000 * (w2 as int + 0x1_0000_0000_0000_0000 * w3 as int))
  {
    hide *;
    StoreLimb(output, 0, w0);
    StoreLimb(output, 8, w1);
    StoreLimb(output, 16, w2);
    StoreLimb(output, 24, w3);
    assert output[..] == output[..32];
    FourLimbs(w0, w1, w2, w3);
  }

  lemma FourLimbs(w0: uint64, w1: uint64, w2: uint64, w3: uint64)
    ensures Le([] + ToLe(w0 as int, 8) + ToLe(w1 as int, 8) + ToLe(w2 as int, 8) + ToLe(w3 as int, 8))
      == w0 as int + 0x1_0000_0000_0000_0000 * (w1 as int
      + 0x1_0000_0000_0000_0000 * (w2 as int + 0x1_0000_0000_0000_0000 * w3 as int))
  {
    hide Le, ToLe, Pow256;
    Pow256Of8();
    LeOfToLe(w0 as int, 8);
    LeOfToLe(w1 as int, 8);
    LeOfToLe(w2 as int, 8);
    LeOfToLe(w3 as int, 8);
    assert [] + ToLe(w0 as int, 8) == ToLe(w0 as int, 8);
    FourWords(ToLe(w0 as int, 8), ToLe(w1 as int, 8), ToLe(w2 as int, 8), ToLe(w3 as int, 8));
  }

  // The X25519 function over an array: mypublic = secret * basepoint. The ladder takes 256 steps,
  // one more than RFC 7748; module X25519Agreement relates the two.
  method Curve25519Donna(mypublic: array<uint8>, secret: array<uint8>, basepoint: array<uint8>)
    requires mypublic.Length == secret.Length == basepoint.Length == 32
    modifies mypublic
    ensures Le(mypublic[..])
      == old(Affine(Eager(DecodeU(basepoint[..]), DecodeScalar(secret[..]), 256, 0)))
  {
    hide *;
    ghost var k, u := DecodeScalar(secret[..]), DecodeU(basepoint[..]);
    var bp, x, z, zmone := new uint64[5], new uint64[5], new uint64[5], new uint64[5];
    var e := CopyBytes(secret);
    Clamp(e);
    FExpand(bp, basepoint);
    CMult(x, z, e, bp);
    CRecip(zmone, z);
    Loosen(x);
    Loosen(zmone);
    FMul(z, x, zmone);
    FContract(mypublic, z);
    AffineOf(Eager(u, k, 256, 0));
  }

  lemma AffineOf(s: State)
    ensures Affine(s) == Mul(s.x2, Pow(s.z2, P - 2))
  {
  }
}
