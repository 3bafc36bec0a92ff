// The 256-step ladder of curve25519-donna-c64 against the 255-step ladder of RFC 7748. The extra
// step, on a zero bit, rescales (x_3 : z_3) by 4u; every later step turns a rescaling of the two
// points into another one, and the final quotient does not see it.
module X25519Agreement {
  import opened Words
  import opened Bits
  import opened Bytes
  import opened Field25519
  import opened Rfc7748
  import Donna32Bytes
  import X25519BoringSsl

  // s' is s with the first point scaled by l and the second by m.
  ghost predicate Scaled(s': State, s: State, l: int, m: int) {
    s'.x2 == Mul(l, s.x2) && s'.z2 == Mul(l, s.z2) && s'.x3 == Mul(m, s.x3) && s'.z3 == Mul(m, s.z3)
  }

  lemma MulAdd(l: int, x: int, y: int)
    ensures Mul(l, Add(x, y)) == Add(Mul(l, x), Mul(l, y))
    ensures Mul(l, Sub(x, y)) == Sub(Mul(l, x), Mul(l, y))
  {
    MulOverAdd(l, x, y);
    MulOverAdd(l, x, -y);
    NegatedProduct(l, x, y);
  }

  lemma MulOverAdd(l: int, x: int, y: int)
    ensures Mul(l, Add(x, y)) == Add(Mul(l, x), Mul(l, y))
  {
    ProductShift(x + y, l);
    AddResidues(l * x, l * y);
    assert (x + y) * l == l * x + l * y;
  }

  lemma NegatedProduct(l: int, x: int, y: int)
    ensures Add(Mul(l, x), Mul(l, -y)) == Sub(Mul(l, x), Mul(l, y))
  {
    AddResidues(l * x, l * -y);
    SubResidues(l * x, l * y);
    assert l * -y == -(l * y);
  }

  lemma MulRegroup(l: int, x: int, m: int, y: int)
    ensures Mul(Mul(l, x), Mul(m, y)) == Mul(Mul(l, m), Mul(x, y))
  {
    hide Mul;
    MulAssociative(l, x, Mul(m, y));
    MulAssociative(x, m, y);
    MulCommutes(x, m);
    MulAssociative(m, x, y);
    MulAssociative(l, m, Mul(x, y));
  }

  lemma StepScales(u: int, s': State, s: State, l: int, m: int)
    requires Scaled(s', s, l, m)
    ensures var ll, lm := Mul(l, l), Mul(l, m);
      Scaled(DoubleAdd(u, s'), DoubleAdd(u, s), Mul(ll, ll), Mul(lm, lm))
  {
    hide Add, Sub, Mul;
    var a, b, c, d := Add(s.x2, s.z2), Sub(s.x2, s.z2), Add(s.x3, s.z3), Sub(s.x3, s.z3);
    MulAdd(l, s.x2, s.z2);
    MulAdd(m, s.x3, s.z3);
    var ll, lm := Mul(l, l), Mul(l, m);
    DoubleScales(l, a, b);
    MulRegroup(m, d, l, a);
    MulRegroup(m, c, l, b);
    MulCommutes(m, l);
    var da, cb := Mul(d, a), Mul(c, b);
    MulAdd(lm, da, cb);
    MulRegroup(lm, Add(da, cb), lm, Add(da, cb));
    var diff := Sub(da, cb);
    MulRegroup(lm, diff, lm, diff);
    MulAssociative(Mul(lm, lm), u, Mul(diff, diff));
    MulCommutes(u, Mul(lm, lm));
    MulAssociative(u, Mul(lm, lm), Mul(diff, diff));
  }

  lemma DoubleScales(l: int, a: int, b: int)
    ensures var ll := Mul(l, l);
      var a', b' := Mul(l, a), Mul(l, b);
      var aa', bb', aa, bb := Mul(a', a'), Mul(b', b'), Mul(a, a), Mul(b, b);
      var e', e := Sub(aa', bb'), Sub(aa, bb);
      && Mul(aa', bb') == Mul(Mul(ll, ll), Mul(aa, bb))
      && Mul(e', Add(aa', Mul(A24, e'))) == Mul(Mul(ll, ll), Mul(e, Add(aa, Mul(A24, e))))
  {
    hide Add, Sub, Mul;
    var ll := Mul(l, l);
    var aa, bb := Mul(a, a), Mul(b, b);
    var e := Sub(aa, bb);
    MulRegroup(l, a, l, a);
    MulRegroup(l, b, l, b);
    MulRegroup(ll, aa, ll, bb);
    MulAdd(ll, aa, bb);
    MulAssociative(A24, ll, e);
    MulCommutes(A24, ll);
    MulAssociative(ll, A24, e);
    MulAdd(ll, aa, Mul(A24, e));
    MulRegroup(ll, e, ll, Add(aa, Mul(A24, e)));
  }

  function Four(u: int): int { Mul(4, u) }

  lemma FirstStep(u: int)
    requires 0 <= u < P
    ensures Scaled(DoubleAdd(u, Init(u)), Init(u), 1, Four(u))
  {
    hide Add, Sub, Mul;
    var c, d := Add(u, 1), Sub(u, 1);
    SmallFacts(c, d);
    AddRange(u);
    SumOfNeighbours(u);
    MulRegroup(2, u, 2, u);
    MulAssociative(4, u, u);
    MulCommutes(u, 4);
    OneTimesResidue(Mul(Four(u), 1), u);
  }

  lemma SmallFacts(c: int, d: int)
    ensures Add(1, 0) == 1 && Sub(1, 0) == 1 && Mul(1, 1) == 1 && Sub(1, 1) == 0
    ensures 0 <= c < P ==> Mul(c, 1) == c
    ensures 0 <= d < P ==> Mul(d, 1) == d
    ensures forall x {:trigger Mul(0, x)} :: Mul(0, x) == 0
    ensures Mul(1, 0) == 0 && Mul(2, 2) == 4 && Mul(Sub(0, 2), Sub(0, 2)) == 4
  {
    MulResidues(0 - 2, 0 - 2);
  }

  lemma AddRange(u: int)
    ensures 0 <= Add(u, 1) < P && 0 <= Sub(u, 1) < P
  {
  }

  lemma OneTimesResidue(x: int, u: int)
    requires x == Mul(Four(u), 1)
    ensures x == Four(u)
  {
  }

  lemma SumOfNeighbours(u: int)
    ensures Add(Sub(u, 1), Add(u, 1)) == Mul(2, u)
    ensures Sub(Sub(u, 1), Add(u, 1)) == Sub(0, 2)
  {
    AddResidues(u - 1, u + 1);
    SubResidues(u - 1, u + 1);
  }

  // At every step the two ladders hold the same two points up to powers of 4u.
  lemma {:induction false} LaddersAgreeUpToScale(u: int, k: nat, t: nat) returns (i: nat, j: nat)
    requires 0 <= u < P && k < Pow2(255) && t <= 255
    ensures Scaled(Eager(u, k, 256, t), Eager(u, k, 255, t), Pow(Four(u), i), Pow(Four(u), j))
    decreases 255 - t
  {
    hide Add, Sub, Mul, DoubleAdd, Bit, Pow, Pow2, Scaled;
    var c := Four(u);
    if t == 255 {
      i, j := 0, 1;
      TopBitClear(k);
      FirstStep(u);
      FirstPowers(u);
      EagerSteps(u, k, 255);
    } else {
      var i', j' := LaddersAgreeUpToScale(u, k, t + 1);
      var s', s := Eager(u, k, 256, t + 1), Eager(u, k, 255, t + 1);
      EagerSteps(u, k, t);
      if Bit(k, t) == 0 {
        StepScales(u, s', s, Pow(c, i'), Pow(c, j'));
        i, j := 4 * i', 2 * (i' + j');
        StepPowers(c, i', j');
      } else {
        SwapScaled(s', s, Pow(c, i'), Pow(c, j'));
        StepScales(u, Swap(s'), Swap(s), Pow(c, j'), Pow(c, i'));
        i, j := 2 * (j' + i'), 4 * j';
        StepPowers(c, j', i');
        SwapScaled(DoubleAdd(u, Swap(s')), DoubleAdd(u, Swap(s)), Pow(c, j), Pow(c, i));
      }
    }
  }

  lemma FirstPowers(u: int)
    ensures Pow(Four(u), 0) == 1 && Pow(Four(u), 1) == Four(u)
  {
    Pow1(Four(u));
  }

  lemma StepPowers(c: int, i: nat, j: nat)
    ensures var l, m := Pow(c, i), Pow(c, j);
      && Mul(Mul(l, l), Mul(l, l)) == Pow(c, 4 * i)
      && Mul(Mul(l, m), Mul(l, m)) == Pow(c, 2 * (i + j))
  {
    hide Mul, Pow;
    PowAdd(c, i, i);
    PowAdd(c, 2 * i, 2 * i);
    PowAdd(c, i, j);
    PowAdd(c, i + j, i + j);
  }

  lemma SwapScaled(s': State, s: State, l: int, m: int)
    requires Scaled(s', s, l, m)
    ensures Scaled(Swap(s'), Swap(s), m, l)
  {
  }

  lemma TopBitClear(k: nat)
    requires k < Pow2(255)
    ensures Bit(k, 255) == 0
  {
    DivModUnique(k, Pow2(255), 0, k);
  }

  lemma EagerSteps(u: int, k: nat, t: nat)
    requires t <= 255
    ensures Eager(u, k, 256, t) == if t == 255 then CSwap(Bit(k, t), DoubleAdd(u, CSwap(Bit(k, t), Init(u))))
      else CSwap(Bit(k, t), DoubleAdd(u, CSwap(Bit(k, t), Eager(u, k, 256, t + 1))))
    ensures Eager(u, k, 255, t) == if t == 255 then Init(u)
      else CSwap(Bit(k, t), DoubleAdd(u, CSwap(Bit(k, t), Eager(u, k, 255, t + 1))))
    ensures Bit(k, t) < 2
  {
    hide DoubleAdd, Pow2;
    assert Eager(u, k, 256, 256) == Init(u);
  }

  // Both ladders end at the same projective point: x/z = x'/z', cross-multiplied.
  lemma SameProjectivePoint(u: int, k: nat)
    requires 0 <= u < P && k < Pow2(255)
    ensures var s', s := Eager(u, k, 256, 0), Eager(u, k, 255, 0);
      Mul(s'.x2, s.z2) == Mul(s.x2, s'.z2)
  {
    hide Mul, Pow, DoubleAdd, Eager;
    var i, j := LaddersAgreeUpToScale(u, k, 0);
    var s', s := Eager(u, k, 256, 0), Eager(u, k, 255, 0);
    var l := Pow(Four(u), i);
    MulAssociative(l, s.x2, s.z2);
    MulCommutes(s.x2, Mul(l, s.z2));
    MulAssociative(l, s.z2, s.x2);
    MulCommutes(s.z2, s.x2);
  }

  // Fermat's little theorem for p, which rests on p being prime and is not proved here.
  ghost predicate Fermat() {
    forall a :: 0 < a < P ==> FermatHolds(a)
  }

  ghost predicate FermatHolds(a: int) { Pow(a, P - 1) == 1 }

  // A common factor c^i cancels in the quotient.
  lemma ScaleCancels(s': State, s: State, c: int, i: nat)
    requires Pow(c, P - 1) == 1 && 0 <= s.x2 < P
    requires s'.x2 == Mul(Pow(c, i), s.x2) && s'.z2 == Mul(Pow(c, i), s.z2)
    ensures Affine(s') == Affine(s)
  {
    hide Mul, Pow;
    var l := Pow(c, i);
    PowOfProduct(l, s.z2, P - 2);
    MulRegroup(l, s.x2, Pow(l, P - 2), Pow(s.z2, P - 2));
    PowRange(c, i);
    Pow1(l);
    PowAdd(l, 1, P - 2);
    PowMul(c, i, P - 1);
    PowMul(c, P - 1, i);
    PowOfOne(i);
    assert i * (P - 1) == (P - 1) * i;
    assert Mul(l, Pow(l, P - 2)) == 1;
    OneTimes(Mul(s.x2, Pow(s.z2, P - 2)), s.x2, Pow(s.z2, P - 2));
  }

  lemma OneTimes(z: int, x: int, y: int)
    requires z == Mul(x, y)
    ensures Mul(1, z) == z
  {
  }

  lemma {:induction false} PowOfOne(e: nat)
    ensures Pow(1, e) == 1
  {
    if e != 0 {
      PowOfOne(e - 1);
    }
  }

  lemma {:induction false} PowOfProduct(x: int, y: int, e: nat)
    ensures Pow(Mul(x, y), e) == Mul(Pow(x, e), Pow(y, e))
  {
    hide Mul;
    if e == 0 {
      MulOneOne();
    } else {
      PowOfProduct(x, y, e - 1);
      MulRegroup(x, y, Pow(x, e - 1), Pow(y, e - 1));
    }
  }

  lemma MulOneOne()
    ensures Mul(1, 1) == 1
  {
  }

  // With u = 0 the first point stays at z = 0.
  lemma {:induction false} ZeroPoint(k: nat, bits: nat, t: nat)
    requires t <= bits
    ensures var s := Eager(0, k, bits, t); s.z2 == 0 && (s.z3 == 0 || s == Init(0))
    decreases bits - t
  {
    if t < bits {
      ZeroPoint(k, bits, t + 1);
      hide Eager;
      var s := Eager(0, k, bits, t + 1);
      if Bit(k, t) == 0 {
        ZeroStep(s);
      } else {
        ZeroStep(Swap(s));
      }
      hide DoubleAdd;
      EagerStep(0, k, bits, t);
    }
  }

  lemma EagerStep(u: int, k: nat, bits: nat, t: nat)
    requires t < bits
    ensures Eager(u, k, bits, t) == CSwap(Bit(k, t), DoubleAdd(u, CSwap(Bit(k, t), Eager(u, k, bits, t + 1))))
    ensures Bit(k, t) < 2
  {
  }

  lemma ZeroStep(s: State)
    requires s.z2 == 0 || s.x2 == 0
    ensures var r := DoubleAdd(0, s); r.z2 == 0 && r.z3 == 0
  {
    var a, b := Add(s.x2, s.z2), Sub(s.x2, s.z2);
    if s.z2 == 0 {
      assert a == b;
    } else {
      MulResidues(-s.z2, -s.z2);
      MulResidues(s.z2, s.z2);
      assert (-s.z2) * (-s.z2) == s.z2 * s.z2;
      assert b == Sub(0, s.z2) && a == s.z2 % P;
      ProductShift(s.z2, s.z2 % P);
      assert Sub(s.z2, 0) == s.z2 % P;
    }
    assert Mul(a, a) == Mul(b, b);
  }

  // Given Fermat's theorem, the extra step makes no difference to the result, for any point and scalar.
  lemma DonnaLadderIsX25519(scalar: seq<uint8>, point: seq<uint8>)
    requires |scalar| == |point| == 32 && Fermat()
    ensures Affine(Eager(DecodeU(point), DecodeScalar(scalar), 256, 0)) == X25519Field(DecodeScalar(scalar),
      DecodeU(point))
  {
    hide *;
    var u, k := DecodeU(point), DecodeScalar(scalar);
    DecodedRanges(scalar, point);
    LazyIsEager(u, k, 255, 0);
    X25519IsEager(u, k);
    if u == 0 {
      ZeroPoint(k, 256, 0);
      ZeroPoint(k, 255, 0);
      AffineAtZero(Eager(u, k, 256, 0));
      AffineAtZero(Eager(u, k, 255, 0));
    } else {
      var i, j := LaddersAgreeUpToScale(u, k, 0);
      FourNonZero(u);
      EagerRange(u, k, 0);
      FermatAt(Four(u));
      ScaledFirst(Eager(u, k, 256, 0), Eager(u, k, 255, 0), Pow(Four(u), i), Pow(Four(u), j));
      ScaleCancels(Eager(u, k, 256, 0), Eager(u, k, 255, 0), Four(u), i);
    }
  }

  lemma DecodedRanges(scalar: seq<uint8>, point: seq<uint8>)
    requires |scalar| == |point| == 32
    ensures 0 <= DecodeU(point) < P && DecodeScalar(scalar) < Pow2(255)
  {
    hide Le;
    Pow2_255();
  }

  lemma X25519IsEager(u: int, k: nat)
    requires var (s, swap) := Lazy(u, k, 255, 0); CSwap(swap, s) == Eager(u, k, 255, 0)
    ensures X25519Field(k, u) == Affine(Eager(u, k, 255, 0))
  {
  }

  lemma AffineAtZero(s: State)
    requires s.z2 == 0
    ensures Affine(s) == 0
  {
    assert Pow(0, P - 2) == Mul(0, Pow(0, P - 3));
  }

  lemma FourNonZero(u: int)
    requires 0 < u < P
    ensures 0 < Four(u) < P
  {
    DivMod(4 * u);
  }

  lemma EagerRange(u: int, k: nat, t: nat)
    requires t <= 255 && 0 <= u < P
    ensures var s := Eager(u, k, 255, t); 0 <= s.x2 < P && 0 <= s.x3 < P
  {
    hide Bit, Add, Sub, Mul;
    if t < 255 {
      EagerStep(u, k, 255, t);
      StepRange(u, CSwap(Bit(k, t), Eager(u, k, 255, t + 1)));
    }
  }

  lemma StepRange(u: int, s: State)
    ensures var r := DoubleAdd(u, s); 0 <= r.x2 < P && 0 <= r.x3 < P
  {
  }

  lemma FermatAt(a: int)
    requires Fermat() && 0 < a < P
    ensures Pow(a, P - 1) == 1
  {
    assert FermatHolds(a);
  }

  lemma ScaledFirst(s': State, s: State, l: int, m: int)
    requires Scaled(s', s, l, m)
    ensures s'.x2 == Mul(l, s.x2) && s'.z2 == Mul(l, s.z2)
  {
  }

  // The bytes that curve25519_donna writes are those of X25519.
  lemma BytesOfX25519(bytes: seq<uint8>, scalar: seq<uint8>, point: seq<uint8>)
    requires |bytes| == |scalar| == |point| == 32 && Fermat()
    requires Le(bytes) == Affine(Eager(DecodeU(point), DecodeScalar(scalar), 256, 0))
    ensures bytes == X25519(scalar, point)
  {
    hide *;
    DonnaLadderIsX25519(scalar, point);
    AffineRange(Eager(DecodeU(point), DecodeScalar(scalar), 256, 0));
    Encoded(bytes, scalar, point);
  }

  lemma AffineRange(s: State)
    ensures 0 <= Affine(s) < P
  {
  }

  lemma Encoded(bytes: seq<uint8>, scalar: seq<uint8>, point: seq<uint8>)
    requires |bytes| == |scalar| == |point| == 32
    requires 0 <= Le(bytes) == X25519Field(DecodeScalar(scalar), DecodeU(point)) < P
    ensures bytes == X25519(scalar, point)
  {
    hide Le, ToLe, X25519Field, Pow256;
    Pow256IsPow2(32);
    Pow2_255();
    Pow2Add(255, 1);
    SmallPow2();
    LeOfToLe(Le(bytes), 32);
    LeInjective(bytes, ToLe(Le(bytes), 32));
  }

  // The three implementations on one secret and one point: the two of curve25519_donna write the
  // same bytes, and given the theorem of Fermat all three write those of RFC 7748.
  method ThreeImplementations(secret: array<uint8>, point: array<uint8>)
      returns (p32: array<uint8>, p64: array<uint8>, generic: array<uint8>)
    requires secret.Length == point.Length == 32
    ensures p32[..] == p64[..] && generic[..] == X25519(secret[..], point[..])
    ensures Fermat() ==> p32[..] == p64[..] == generic[..]
  {
    hide *;
    p32, p64 := Donna32Bytes.BothDonnas(secret, point);
    generic := new uint8[32];
    X25519BoringSsl.X25519ScalarMultGeneric(generic, secret, point);
    if Fermat() {
      BytesOfX25519(p64[..], secret[..], point[..]);
    }
  }
}
