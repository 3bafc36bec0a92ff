// curve25519/boringssl/curve25519.c: the X25519 scalar multiplication and the two addition chains
// on top of the generated field operations. A field element is a struct there, copied and
// overwritten as a value; here it is a local variable of type Fe.
module X25519BoringSsl {
  import opened Words
  import opened Bits
  import opened Bytes
  import opened Field25519
  import opened Rfc7748
  import opened Masks
  import opened Fiat64

  // fe_sq_tt once and then n - 1 times more in a loop.
  method SquareRepeatedly(f: Fe, n: nat) returns (h: Fe)
    requires Loose(f) && n >= 1
    ensures Tight(h) && Loose(h)
    ensures Residue(h) == Pow(Residue(f), Pow2(n))
  {
    hide Mul, Pow, Residue, CarrySquare;
    SquarePower(f, 0);
    h := CarrySquare(f);
    for i := 1 to n
      invariant Tight(h)
      invariant Residue(h) == Pow(Residue(f), Pow2(i))
    {
      PowAdd(Residue(f), Pow2(i), Pow2(i));
      h := CarrySquare(h);
    }
  }

  lemma SquarePower(f: Fe, i: nat)
    ensures Mul(Residue(f), Residue(f)) == Pow(Residue(f), Pow2(1))
  {
    PowTwo(Residue(f));
    assert Pow2(1) == 2;
  }

  // h = s^(2^n) * b lengthens a run of ones in the exponent of x.
  method Link(s: Fe, n: nat, b: Fe, ghost x: int, ghost m: nat) returns (h: Fe)
    requires Loose(s) && Loose(b) && n >= 1
    requires Residue(s) == Pow(x, Pow2(m) - 1) && Residue(b) == Pow(x, Pow2(n) - 1)
    ensures Tight(h) && Loose(h) && Residue(h) == Pow(x, Pow2(m + n) - 1)
  {
    hide Mul, Pow, Residue, CarryMul, Pow2;
    var t := SquareRepeatedly(s, n);
    ExtendRun(x, m, n);
    h := CarryMul(t, b);
  }

  // The common head and middle of fe_loose_invert and fe_pow22523: z^11 and z^(2^250 - 1).
  method RunOf250(z: Fe) returns (z11: Fe, t1: Fe)
    requires Loose(z)
    ensures Tight(z11) && Loose(z11) && Residue(z11) == Pow(Residue(z), 11)
    ensures Tight(t1) && Loose(t1) && Residue(t1) == Pow(Residue(z), Pow2(250) - 1)
  {
    hide Mul, Pow, Residue, CarryMul, Pow2;
    ghost var x := Residue(z);
    SmallPowers(x);
    ResidueRange(z);
    var t0 := SquareRepeatedly(z, 1);
    t1 := SquareRepeatedly(t0, 2);
    MulCommutes(Residue(t1), x);
    t1 := CarryMul(z, t1);
    MulCommutes(Residue(t0), Residue(t1));
    t0 := CarryMul(t0, t1);
    z11 := t0;
    var t2 := SquareRepeatedly(t0, 1);
    MulCommutes(Residue(t1), Residue(t2));
    t1 := CarryMul(t1, t2);
    t1 := Link(t1, 5, t1, x, 5);
    t2 := Link(t1, 10, t1, x, 10);
    t2 := Link(t2, 20, t2, x, 20);
    t1 := Link(t2, 10, t1, x, 40);
    t2 := Link(t1, 50, t1, x, 50);
    t2 := Link(t2, 100, t2, x, 100);
    t1 := Link(t2, 50, t1, x, 200);
  }

  lemma ResidueRange(z: Fe)
    ensures 0 <= Residue(z) < P
  {
  }

  method FeLooseInvert(z: Fe) returns (out: Fe)
    requires Loose(z)
    ensures Tight(out) && Residue(out) == Pow(Residue(z), P - 2)
  {
    hide Mul, Pow, Residue, CarryMul, Pow2;
    var t0, t1 := RunOf250(z);
    t1 := SquareRepeatedly(t1, 5);
    InversionExponent();
    ShiftExponent(Residue(z), Pow2(250) - 1, 5, 11, P - 2);
    out := CarryMul(t1, t0);
  }

  // z^((p - 5) / 8) = z^(2^252 - 3)
  method FePow22523(z: Fe) returns (out: Fe)
    requires Tight(z)
    ensures Tight(out) && Residue(out) == Pow(Residue(z), Pow2(252) - 3)
  {
    hide Mul, Pow, Residue, CarryMul, Pow2;
    ghost var x := Residue(z);
    ResidueRange(z);
    Pow1(x);
    var z11, t0 := RunOf250(z);
    t0 := SquareRepeatedly(t0, 2);
    RootExponent();
    ShiftExponent(x, Pow2(250) - 1, 2, 1, Pow2(252) - 3);
    out := CarryMul(t0, z);
  }

  method FeCSwap(f: Fe, g: Fe, b: uint64) returns (f': Fe, g': Fe)
    requires b <= 1
    ensures (f', g') == if b == 1 then (g, f) else (f, g)
  {
    CSwapByMask(b, f.l0, g.l0);
    CSwapByMask(b, f.l1, g.l1);
    CSwapByMask(b, f.l2, g.l2);
    CSwapByMask(b, f.l3, g.l3);
    CSwapByMask(b, f.l4, g.l4);
    hide CSwapLimbs;
    var x0, x1, x2 := CSwapLimbs(b, f.l0, g.l0), CSwapLimbs(b, f.l1, g.l1), CSwapLimbs(b, f.l2, g.l2);
    var x3, x4 := CSwapLimbs(b, f.l3, g.l3), CSwapLimbs(b, f.l4, g.l4);
    f' := Fe(x0.0, x1.0, x2.0, x3.0, x4.0);
    g' := Fe(x0.1, x1.1, x2.1, x3.1, x4.1);
  }

  ghost function Coordinates(x2: Fe, z2: Fe, x3: Fe, z3: Fe): State {
    State(Residue(x2), Residue(z2), Residue(x3), Residue(z3))
  }

  // The ladder step between the swaps, in the order and with the temporaries of the source.
  method LadderStep(x1: Fe, i2: Fe, j2: Fe, i3: Fe, j3: Fe) returns (x2: Fe, z2: Fe, x3: Fe, z3: Fe)
    requires Tight(x1) && Tight(i2) && Tight(j2) && Tight(i3) && Tight(j3)
    ensures Tight(x2) && Tight(z2) && Tight(x3) && Tight(z3)
    ensures Coordinates(x2, z2, x3, z3) == DoubleAdd(Residue(x1), Coordinates(i2, j2, i3, j3))
  {
    hide Add, Sub, Mul, Residue, DoubleAdd, CarryMul, CarrySquare, CarryScmul121666, FieldAdd, FieldSub;
    StepFormulas(Residue(x1), Coordinates(i2, j2, i3, j3));
    x2, z2, x3, z3 := i2, j2, i3, j3;
    var tmp0l := FieldSub(x3, z3);
    var tmp1l := FieldSub(x2, z2);
    var x2l := FieldAdd(x2, z2);
    var z2l := FieldAdd(x3, z3);
    z3 := CarryMul(tmp0l, x2l);
    z2 := CarryMul(z2l, tmp1l);
    var tmp0 := CarrySquare(tmp1l);
    var tmp1 := CarrySquare(x2l);
    var x3l := FieldAdd(z3, z2);
    z2l := FieldSub(z3, z2);
    x2 := CarryMul(tmp1, tmp0);
    tmp1l := FieldSub(tmp1, tmp0);
    z2 := CarrySquare(z2l);
    z3 := CarryScmul121666(tmp1l);
    x3 := CarrySquare(x3l);
    tmp0l := FieldAdd(tmp0, z3);
    z3 := CarryMul(x1, z2);
    z2 := CarryMul(tmp1l, tmp0l);
  }

  // BB + 121666 * E is the RFC's AA + 121665 * E, because E = AA - BB.
  lemma StepFormulas(u: int, s: State)
    ensures var a, b, c, d := Add(s.x2, s.z2), Sub(s.x2, s.z2), Add(s.x3, s.z3), Sub(s.x3, s.z3);
      var aa, bb, da, cb := Mul(a, a), Mul(b, b), Mul(d, a), Mul(c, b);
      var e := Sub(aa, bb);
      DoubleAdd(u, s) == State(Mul(aa, bb), Mul(e, Add(bb, Mul(121666, e))), Mul(Add(da, cb), Add(da, cb)),
        Mul(u, Mul(Sub(da, cb), Sub(da, cb))))
  {
    var a, b := Add(s.x2, s.z2), Sub(s.x2, s.z2);
    NextA24(Mul(a, a), Mul(b, b));
    hide Add, Sub, Mul;
  }

  lemma NextA24(aa: int, bb: int)
    ensures Add(bb, Mul(121666, Sub(aa, bb))) == Add(aa, Mul(121665, Sub(aa, bb)))
  {
    var e := Sub(aa, bb);
    var y := 121666 * e;
    var x := 121665 * e;
    AddShift(bb, y);
    AddShift(aa, x);
    assert y == x + e;
    DivMod(aa - bb);
    Shift(bb + y, aa + x, -((aa - bb) / P));
  }

  lemma AddShift(x: int, y: int)
    ensures Add(x, y % P) == (x + y) % P
  {
    DivMod(y);
    Shift(x + y, x + y % P, y / P);
  }

  method FeFromBytes(s: seq<uint8>) returns (h: Fe)
    requires |s| == 32
    ensures Tight(h) && Residue(h) == DecodeU(s)
  {
    hide Le, FromBytes, Pow2;
    SmallPow2();
    AndLowMask(s[31] as int, 7);
    var copy := s[31 := And(s[31] as int, 0x7f) as uint8];
    ClearTopBit(s, copy);
    h := FromBytes(copy);
  }

  lemma ClearTopBit(s: seq<uint8>, t: seq<uint8>)
    requires |s| == 32 && t == s[31 := (s[31] as int % 128) as uint8]
    ensures Le(t) == Le(s) % Pow2(255)
  {
    hide Le, Pow2, Pow256;
    LastByte(s);
    LastByte(t);
    assert s[..31] == t[..31];
    LeBound(s[..31]);
    Pow256IsPow2(31);
    Pow2Add(248, 7);
    SmallPow2();
    TopBits(Le(s[..31]), s[31] as int, Pow256(31));
  }

  lemma LastByte(s: seq<uint8>)
    requires |s| == 32
    ensures Le(s) == Le(s[..31]) + Pow256(31) * s[31] as int
  {
    hide Pow256;
    assert s == s[..31] + [s[31]];
    LeConcat(s[..31], [s[31]]);
  }

  lemma TopBits(low: nat, top: nat, p: nat)
    requires low < p && p * 128 == Pow2(255)
    ensures low + p * (top % 128) == (low + p * top) % Pow2(255)
  {
    hide Pow2;
    var q, r := top / 128, top % 128;
    var x := p * r;
    assert p * top == (p * 128) * q + x by {
      assert top == 128 * q + r;
      assert p * (128 * q + r) == (p * 128) * q + p * r;
    }
    MulMonotone(p, r, 127);
    MulMonotone(p, 0, r);
    DivModUnique(low + p * top, Pow2(255), q, low + x);
  }

  // X25519 as the application calls it: exactly the function of RFC 7748.
  method X25519ScalarMultGeneric(out: array<uint8>, scalar: array<uint8>, point: array<uint8>)
    requires out.Length == scalar.Length == point.Length == 32
    modifies out
    ensures out[..] == old(X25519(scalar[..], point[..]))
  {
    hide *;
    ghost var sb, pb := scalar[..], point[..];
    ghost var k, u := DecodeScalar(sb), DecodeU(pb);
    var e := CopyBytes(scalar);
    Clamp(e);
    var x1 := FeFromBytes(point[..]);
    var x2, z2, z3 := Fe(1, 0, 0, 0, 0), Fe(0, 0, 0, 0, 0), Fe(1, 0, 0, 0, 0);
    var x3 := x1;
    var swap: uint64 := 0;
    StartState(x1, k);
    var pos := 254;
    while pos >= 0
      invariant -1 <= pos <= 254 && swap <= 1
      invariant Tight(x1) && Tight(x2) && Tight(z2) && Tight(x3) && Tight(z3)
      invariant Le(e[..]) == k && Residue(x1) == u
      invariant (Coordinates(x2, z2, x3, z3), swap as nat) == Lazy(u, k, 255, pos + 1)
    {
      BitOfScalar(e[..], pos);
      BitRange(k, pos);
      var b := (e[pos / 8] as int / Pow2(pos % 8) % 2) as uint64;
      XorOfBits(swap, b);
      swap := Xor64(swap, b);
      ghost var s := Coordinates(x2, z2, x3, z3);
      SwappedState(x2, z2, x3, z3, swap);
      x2, x3 := FeCSwap(x2, x3, swap);
      z2, z3 := FeCSwap(z2, z3, swap);
      LazyStep(u, k, pos);
      swap := b;
      x2, z2, x3, z3 := LadderStep(x1, x2, z2, x3, z3);
      pos := pos - 1;
    }
    SwappedState(x2, z2, x3, z3, swap);
    x2, x3 := FeCSwap(x2, x3, swap);
    z2, z3 := FeCSwap(z2, z3, swap);
    Projections(x2, z2, x3, z3);
    Relax(z2);
    z2 := FeLooseInvert(z2);
    Relax(x2);
    Relax(z2);
    x2 := CarryMul(x2, z2);
    var bytes := ToBytes(x2);
    FinalBytes(u, k, sb, pb, bytes);
    for i := 0 to 32
      invariant out[..i] == bytes[..i]
    {
      out[i] := bytes[i];
    }
  }

  lemma StartState(x1: Fe, k: nat)
    ensures Tight(Fe(1, 0, 0, 0, 0)) && Tight(Fe(0, 0, 0, 0, 0))
    ensures (Coordinates(Fe(1, 0, 0, 0, 0), Fe(0, 0, 0, 0, 0), x1, Fe(1, 0, 0, 0, 0)), 0) == Lazy(Residue(x1), k,
      255, 255)
  {
  }

  lemma BitRange(k: nat, t: nat)
    ensures Bit(k, t) < 2
  {
  }

  lemma XorOfBits(a: uint64, b: uint64)
    requires a <= 1 && b <= 1
    ensures Xor64(a, b) as int == (a as int + b as int) % 2
  {
  }

  lemma SwappedState(x2: Fe, z2: Fe, x3: Fe, z3: Fe, swap: uint64)
    ensures swap == 0 ==> CSwap(swap as nat, Coordinates(x2, z2, x3, z3)) == Coordinates(x2, z2, x3, z3)
    ensures swap == 1 ==> CSwap(swap as nat, Coordinates(x2, z2, x3, z3)) == Coordinates(x3, z3, x2, z2)
  {
  }

  lemma Projections(x2: Fe, z2: Fe, x3: Fe, z3: Fe)
    ensures Coordinates(x2, z2, x3, z3).x2 == Residue(x2) && Coordinates(x2, z2, x3, z3).z2 == Residue(z2)
  {
  }

  lemma LazyStep(u: int, k: nat, t: nat)
    requires t < 255
    ensures var (s, swap) := Lazy(u, k, 255, t + 1);
      Lazy(u, k, 255, t) == (DoubleAdd(u, CSwap((swap + Bit(k, t)) % 2, s)), Bit(k, t))
  {
  }

  lemma Relax(f: Fe)
    requires Tight(f)
    ensures Loose(f)
  {
  }

  lemma FinalBytes(u: int, k: nat, scalar: seq<uint8>, point: seq<uint8>, bytes: seq<uint8>)
    requires |scalar| == |point| == |bytes| == 32 && k == DecodeScalar(scalar) && u == DecodeU(point)
    requires var (s, swap) := Lazy(u, k, 255, 0);
      Le(bytes) == Mul(CSwap(swap, s).x2, Pow(CSwap(swap, s).z2, P - 2))
    ensures bytes == X25519(scalar, point)
  {
    ToLeOfLe(bytes);
    var r := X25519Field(k, u);
    DivModUnique(r, P, 0, r);
  }
}
