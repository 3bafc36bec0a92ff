// The integers modulo p = 2^255 - 19, as canonical residues.
module Field25519 {
  import opened Bits

  const P: int := 0x7fffffffffffffffffffffffffffffffffffffffffffffffffffffffffffffed

  function Add(x: int, y: int): int { (x + y) % P }

  function Sub(x: int, y: int): int { (x - y) % P }

  function Mul(x: int, y: int): int { (x * y) % P }

  function Pow(x: int, e: nat): int {
    if e == 0 then 1 else Mul(x, Pow(x, e - 1))
  }

  lemma Shift(v: int, w: int, q: int)
    requires v == w + P * q
    ensures v % P == w % P
  {
  }

  lemma DivMod(v: int)
    ensures v == P * (v / P) + v % P && 0 <= v % P < P
  {
  }

  lemma MulResidues(x: int, y: int)
    ensures Mul(x % P, y % P) == (x * y) % P
  {
    var a, b := x % P, y % P;
    DivMod(x);
    DivMod(y);
    assert x * y == a * b + P * ((x / P) * y + a * (y / P)) by {
      Expand(x / P, a, y / P, b);
    }
    Shift(x * y, a * b, (x / P) * y + a * (y / P));
  }

  lemma Expand(i: int, a: int, j: int, b: int)
    ensures (P * i + a) * (P * j + b) == a * b + P * (i * (P * j + b) + a * j)
  {
    var t := P * j + b;
    assert (P * i + a) * t == P * (i * t) + a * t;
    assert a * t == P * (a * j) + a * b;
  }

  lemma AddResidues(x: int, y: int)
    ensures Add(x % P, y % P) == (x + y) % P
  {
    DivMod(x);
    DivMod(y);
    Shift(x + y, x % P + y % P, x / P + y / P);
  }

  lemma SubResidues(x: int, y: int)
    ensures Sub(x % P, y % P) == (x - y) % P
  {
    DivMod(x);
    DivMod(y);
    Shift(x - y, x % P - y % P, x / P - y / P);
  }

  lemma MulCommutes(x: int, y: int)
    ensures Mul(x, y) == Mul(y, x)
  {
  }

  lemma AddCommutes(x: int, y: int)
    ensures Add(x, y) == Add(y, x)
  {
  }

  lemma PowTwo(x: int)
    ensures Pow(x, 2) == Mul(x, x)
  {
    assert Pow(x, 1) == Mul(x, 1);
    ProductShift(x, x);
  }

  lemma MulAssociative(x: int, y: int, z: int)
    ensures Mul(x, Mul(y, z)) == Mul(Mul(x, y), z)
  {
    DivMod(x * y);
    DivMod(y * z);
    ProductShift(x * y, z);
    ProductShift(y * z, x);
    assert (x * y) * z == x * (y * z);
    assert Mul(x, Mul(y, z)) == Mul(Mul(y, z), x);
  }

  // A factor may be reduced first.
  lemma ProductShift(x: int, y: int)
    ensures Mul(x % P, y) == (x * y) % P
    ensures Mul(y, x % P) == (x * y) % P
  {
    DivMod(x);
    assert x * y == (x % P) * y + P * ((x / P) * y) by {
      assert (P * (x / P) + x % P) * y == P * ((x / P) * y) + (x % P) * y;
    }
    Shift(x * y, (x % P) * y, (x / P) * y);
  }

  lemma {:induction false} PowRange(x: int, e: nat)
    ensures 0 <= Pow(x, e) < P
  {
  }

  lemma {:induction false} PowAdd(x: int, d: nat, e: nat)
    ensures Mul(Pow(x, d), Pow(x, e)) == Pow(x, d + e)
  {
    if d == 0 {
      PowRange(x, e);
    } else {
      PowAdd(x, d - 1, e);
      MulAssociative(x, Pow(x, d - 1), Pow(x, e));
    }
  }

  lemma {:induction false} PowMul(x: int, d: nat, e: nat)
    ensures Pow(Pow(x, d), e) == Pow(x, d * e)
  {
    if e != 0 {
      PowMul(x, d, e - 1);
      assert d * e == d + d * (e - 1);
      PowAdd(x, d, d * (e - 1));
    }
  }

  // Squaring n times and multiplying extends a run of m ones in the exponent by n more.
  lemma ExtendRun(z: int, m: nat, n: nat)
    ensures Mul(Pow(Pow(z, Pow2(m) - 1), Pow2(n)), Pow(z, Pow2(n) - 1)) == Pow(z, Pow2(m + n) - 1)
  {
    hide Pow, Mul;
    var p, q := Pow2(m), Pow2(n);
    Pow2Add(m, n);
    RunLength(p, q);
    PowMul(z, p - 1, q);
    PowAdd(z, (p - 1) * q, q - 1);
  }

  lemma RunLength(p: nat, q: nat)
    requires p > 0 && q > 0
    ensures (p - 1) * q >= 0 && (p - 1) * q + (q - 1) == p * q - 1
  {
    MulMonotone(q, 0, p - 1);
  }

  // Squaring n times and multiplying by z^f.
  lemma ShiftExponent(z: int, e: nat, n: nat, f: nat, g: nat)
    requires g == e * Pow2(n) + f
    ensures Mul(Pow(Pow(z, e), Pow2(n)), Pow(z, f)) == Pow(z, g)
  {
    PowMul(z, e, Pow2(n));
    MulMonotone(Pow2(n), 0, e);
    PowAdd(z, e * Pow2(n), f);
  }

  // The two exponents that end the addition chains.
  lemma InversionExponent()
    ensures (Pow2(250) - 1) * Pow2(5) + 11 == P - 2
  {
    Pow2_255();
    Pow2Add(250, 5);
    assert Pow2(5) == 32;
  }

  lemma RootExponent()
    ensures (Pow2(250) - 1) * Pow2(2) + 1 == (P - 5) / 8 == Pow2(252) - 3
  {
    Pow2_255();
    Pow2Add(250, 2);
    Pow2Add(252, 3);
    assert Pow2(2) == 4 && Pow2(3) == 8;
  }

  lemma Pow1(x: int)
    requires 0 <= x < P
    ensures Pow(x, 1) == x
  {
    assert Pow(x, 1) == Mul(x, Pow(x, 0));
  }

  // The first six operations of every chain: the exponents 9, 11 and 31.
  lemma SmallPowers(x: int)
    ensures 0 <= x < P ==> Mul(Pow(Pow(x, Pow2(1)), Pow2(2)), x) == Pow(x, 9)
    ensures Mul(Pow(x, 9), Pow(x, Pow2(1))) == Pow(x, 11)
    ensures Mul(Pow(Pow(x, 11), Pow2(1)), Pow(x, 9)) == Pow(x, Pow2(5) - 1)
  {
    assert Pow2(1) == 2 && Pow2(2) == 4 && Pow2(5) == 32;
    hide Mul, Pow;
    PowMul(x, 2, 4);
    if 0 <= x < P {
      Pow1(x);
      PowAdd(x, 8, 1);
    }
    PowAdd(x, 9, 2);
    PowMul(x, 11, 2);
    PowAdd(x, 22, 9);
  }
}
